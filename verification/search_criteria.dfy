/** SearchCriteriaDto: the request body of a search, with its field
    defaults and its bean-validation annotations. Every field is a boxed
    Java value and may be null. */
module SearchCriteria {
  import opened Wrappers
  import Geography

  datatype SearchCriteriaDto = SearchCriteriaDto(
    latitude: Option<real>,
    longitude: Option<real>,
    maxCities: Option<int>,
    maxDistance: Option<real>,
    minPopulation: Option<int>,
    region: Option<string>)

  const DefaultMaxCities: int := 10
  const DefaultMaxDistance: real := 50.0
  const DefaultMinPopulation: int := 0

  /** The no-argument constructor: only the field initialisers apply. */
  function Default(): SearchCriteriaDto {
    SearchCriteriaDto(None, None, Some(DefaultMaxCities), Some(DefaultMaxDistance), Some(DefaultMinPopulation), None)
  }

  /** The six-argument constructor. */
  function Create(latitude: Option<real>, longitude: Option<real>, maxCities: Option<int>,
                  maxDistance: Option<real>, minPopulation: Option<int>, region: Option<string>): SearchCriteriaDto {
    SearchCriteriaDto(latitude, longitude, maxCities, maxDistance, minPopulation, region)
  }

  /** `@NotNull`, `@DecimalMin`, `@DecimalMax`: present and within range. */
  predicate RequiredWithin(v: Option<real>, lo: real, hi: real) {
    v.Some? && lo <= v.value <= hi
  }

  /** `@Min`/`@Max` on a boxed value: null passes, otherwise the bounds are inclusive. */
  predicate OptionalWithin(v: Option<int>, lo: int, hi: int) {
    v.None? || lo <= v.value <= hi
  }

  predicate OptionalRealWithin(v: Option<real>, lo: real, hi: real) {
    v.None? || lo <= v.value <= hi
  }

  /** What the validator accepts. The region is not constrained. */
  predicate Valid(c: SearchCriteriaDto) {
    && RequiredWithin(c.latitude, -90.0, 90.0)
    && RequiredWithin(c.longitude, -180.0, 180.0)
    && OptionalWithin(c.maxCities, 1, 100)
    && OptionalRealWithin(c.maxDistance, 1.0, 1000.0)
    && (c.minPopulation.None? || c.minPopulation.value >= 0)
  }

  /** Valid criteria whose result cap and radius are not null: the criteria
      the search can run on without unboxing a null. */
  predicate Usable(c: SearchCriteriaDto) {
    Valid(c) && c.maxCities.Some? && c.maxDistance.Some?
  }

  /** A validated centre is a valid Earth coordinate. */
  lemma ValidCentreOnEarth(c: SearchCriteriaDto)
    requires Valid(c)
    ensures Geography.ValidLatitude(c.latitude.value) && Geography.ValidLongitude(c.longitude.value)
  {
  }

  /** The defaults are in range: a default request becomes valid (and
      usable) as soon as a valid centre is set, and is invalid without one. */
  lemma DefaultsNeedOnlyACentre(lat: real, lon: real)
    ensures !Valid(Default())
    ensures Valid(Default().(latitude := Some(lat), longitude := Some(lon)))
            <==> Geography.ValidLatitude(lat) && Geography.ValidLongitude(lon)
    ensures Valid(Default().(latitude := Some(lat), longitude := Some(lon)))
            ==> Usable(Default().(latitude := Some(lat), longitude := Some(lon)))
  {
  }

  /** The constructor stores its arguments, so validity of the result is
      validity of each argument against its own annotations. */
  lemma CreateValidity(latitude: Option<real>, longitude: Option<real>, maxCities: Option<int>,
                       maxDistance: Option<real>, minPopulation: Option<int>, region: Option<string>)
    ensures var c := Create(latitude, longitude, maxCities, maxDistance, minPopulation, region);
            && c.latitude == latitude && c.longitude == longitude && c.maxCities == maxCities
            && c.maxDistance == maxDistance && c.minPopulation == minPopulation && c.region == region
            && (Valid(c) <==>
                  && latitude.Some? && -90.0 <= latitude.value <= 90.0
                  && longitude.Some? && -180.0 <= longitude.value <= 180.0
                  && (maxCities.None? || 1 <= maxCities.value <= 100)
                  && (maxDistance.None? || 1.0 <= maxDistance.value <= 1000.0)
                  && (minPopulation.None? || minPopulation.value >= 0))
  {
  }

  /** The annotation admits exactly 1..100 result slots: 100 is accepted and
      101 rejected. (A controller test expects 100 to be rejected.) */
  lemma MaxCitiesBoundary()
    ensures Valid(Default().(latitude := Some(48.8566), longitude := Some(2.3522), maxCities := Some(100)))
    ensures !Valid(Default().(latitude := Some(48.8566), longitude := Some(2.3522), maxCities := Some(101)))
    ensures !Valid(Default().(latitude := Some(48.8566), longitude := Some(2.3522), maxCities := Some(0)))
  {
  }

  /** Null limits pass validation, since `@Min`/`@Max` accept null. */
  lemma NullLimitsAreValid(c: SearchCriteriaDto)
    requires Valid(c)
    ensures Valid(c.(maxCities := None)) && Valid(c.(maxDistance := None)) && Valid(c.(minPopulation := None))
    ensures !Usable(c.(maxCities := None)) && !Usable(c.(maxDistance := None))
  {
  }
}
