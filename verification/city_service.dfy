/** CityService: the two-stage radius search. The bounding box turns the
    radius into a cheap store query; exact distances then remove the box's
    corners; the survivors are ranked by distance, then by population, and
    cut to the requested count. */
module CityService {
  import opened Wrappers
  import opened Sorting
  import opened Geography
  import opened Entities
  import opened CityRepository
  import opened SearchCriteria

  /** A null `maxCities` or `maxDistance` is unboxed by the search and throws. */
  datatype SearchError = NullPointer

  /** The private `convertToDto(city, distance)`. */
  function ConvertToDtoWithDistance(city: City, distance: real): (dto: CityDto)
    ensures CityOf(dto) == city
    ensures dto.distance == distance
  {
    CityDto(city.id, city.name, city.postalCode, city.latitude, city.longitude,
            city.population, city.region, city.department, distance)
  }

  /** The public `convertToDto(city)`: the same copy, at distance 0. */
  function ConvertToDto(city: City): (dto: CityDto)
    ensures CityOf(dto) == city
    ensures dto.distance == 0.0
  {
    ConvertToDtoWithDistance(city, 0.0)
  }

  /** The result order: `compare(a, b) <= 0` for the comparator that puts
      smaller distances first and, at equal distance, larger populations. */
  predicate RankedBefore(a: CityDto, b: CityDto) {
    a.distance < b.distance || (a.distance == b.distance && a.population >= b.population)
  }

  lemma RankedBeforeTotal()
    ensures TotalPreorder(RankedBefore)
  {
  }

  /** The rounded distance from the search centre to a city. */
  function DistanceFrom(m: MathLib, lat: real, lon: real, city: City): int
  {
    HaversineDistance(m, lat, lon, city.latitude, city.longitude)
  }

  /** The DTO the search builds for a city: the city at its distance. */
  function Ranked(m: MathLib, lat: real, lon: real, city: City): CityDto
  {
    ConvertToDtoWithDistance(city, DistanceFrom(m, lat, lon, city) as real)
  }

  predicate WithinRadius(m: MathLib, lat: real, lon: real, maxDistance: real, city: City)
  {
    DistanceFrom(m, lat, lon, city) as real <= maxDistance
  }

  /** The loop over the candidates: one DTO per candidate whose rounded
      distance is at most `maxDistance`, in candidate order. */
  function Survivors(m: MathLib, lat: real, lon: real, maxDistance: real, candidates: seq<City>): (r: seq<CityDto>)
    ensures |r| <= |candidates|
    ensures forall i :: 0 <= i < |r| ==> r[i].distance <= maxDistance
  {
    if |candidates| == 0 then []
    else
      var rest := Survivors(m, lat, lon, maxDistance, candidates[1..]);
      if WithinRadius(m, lat, lon, maxDistance, candidates[0]) then [Ranked(m, lat, lon, candidates[0])] + rest
      else rest
  }

  /** The loop processes candidates independently and in order. */
  lemma {:induction false} SurvivorsAppend(m: MathLib, lat: real, lon: real, maxDistance: real, a: seq<City>, b: seq<City>)
    ensures Survivors(m, lat, lon, maxDistance, a + b)
            == Survivors(m, lat, lon, maxDistance, a) + Survivors(m, lat, lon, maxDistance, b)
  {
    if |a| > 0 {
      assert (a + b)[1..] == a[1..] + b;
      SurvivorsAppend(m, lat, lon, maxDistance, a[1..], b);
    } else {
      assert a + b == b;
    }
  }

  /** Different cities give different DTOs. */
  lemma RankedInjective(m: MathLib, lat: real, lon: real, a: City, b: City)
    ensures Ranked(m, lat, lon, a) == Ranked(m, lat, lon, b) <==> a == b
  {
    if Ranked(m, lat, lon, a) == Ranked(m, lat, lon, b) {
      assert CityOf(Ranked(m, lat, lon, a)) == a;
      assert CityOf(Ranked(m, lat, lon, b)) == b;
    }
  }

  /** Exactly one DTO per candidate within the radius: a candidate within
      the radius appears as often as it is a candidate, any other city never. */
  lemma {:induction false} SurvivorsOnePerCandidate(m: MathLib, lat: real, lon: real, maxDistance: real,
                                                    candidates: seq<City>, city: City)
    ensures multiset(Survivors(m, lat, lon, maxDistance, candidates))[Ranked(m, lat, lon, city)]
            == if WithinRadius(m, lat, lon, maxDistance, city) then multiset(candidates)[city] else 0
  {
    if |candidates| > 0 {
      var c0 := candidates[0];
      var dto := Ranked(m, lat, lon, city);
      var rest := Survivors(m, lat, lon, maxDistance, candidates[1..]);
      SurvivorsOnePerCandidate(m, lat, lon, maxDistance, candidates[1..], city);
      assert candidates == [c0] + candidates[1..];
      assert multiset(candidates)[city] == multiset([c0])[city] + multiset(candidates[1..])[city];
      RankedInjective(m, lat, lon, c0, city);
      if WithinRadius(m, lat, lon, maxDistance, c0) {
        var r0 := Ranked(m, lat, lon, c0);
        assert Survivors(m, lat, lon, maxDistance, candidates) == [r0] + rest;
        assert multiset([r0] + rest)[dto] == multiset([r0])[dto] + multiset(rest)[dto];
      } else {
        assert Survivors(m, lat, lon, maxDistance, candidates) == rest;
      }
    }
  }

  /** Nothing but candidates within the radius: each survivor is a
      candidate at its own distance. */
  lemma {:induction false} SurvivorsAreRankedCandidates(m: MathLib, lat: real, lon: real, maxDistance: real,
                                                        candidates: seq<City>)
    ensures forall dto :: dto in Survivors(m, lat, lon, maxDistance, candidates) ==>
              && CityOf(dto) in candidates
              && dto == Ranked(m, lat, lon, CityOf(dto))
              && WithinRadius(m, lat, lon, maxDistance, CityOf(dto))
  {
    if |candidates| > 0 {
      SurvivorsAreRankedCandidates(m, lat, lon, maxDistance, candidates[1..]);
      var c0 := candidates[0];
      var rest := Survivors(m, lat, lon, maxDistance, candidates[1..]);
      forall dto | dto in Survivors(m, lat, lon, maxDistance, candidates)
        ensures && CityOf(dto) in candidates
                && dto == Ranked(m, lat, lon, CityOf(dto))
                && WithinRadius(m, lat, lon, maxDistance, CityOf(dto))
      {
        if dto in rest {
          assert CityOf(dto) in candidates[1..];
        } else {
          assert WithinRadius(m, lat, lon, maxDistance, c0);
          assert dto == Ranked(m, lat, lon, c0);
          assert CityOf(dto) == c0;
        }
      }
    }
  }

  // ---------------------------------------------------------------------
  // The pipeline, stage by stage

  /** The store query made with the bounding box and the pushed-down filters. */
  function Candidates(m: MathLib, store: seq<City>, c: SearchCriteriaDto): seq<City>
    requires Lawful(m)
    requires Valid(c) && c.maxDistance.Some?
  {
    var box := CalculateBoundingBox(m, c.latitude.value, c.longitude.value, c.maxDistance.value);
    FindCitiesInGeographicArea(store, box[MinLatIndex], box[MaxLatIndex], box[MinLonIndex], box[MaxLonIndex],
                               c.minPopulation, c.region)
  }

  /** The in-radius candidates as DTOs, before sorting. */
  function InRadius(m: MathLib, store: seq<City>, c: SearchCriteriaDto): seq<CityDto>
    requires Lawful(m)
    requires Valid(c) && c.maxDistance.Some?
  {
    Survivors(m, c.latitude.value, c.longitude.value, c.maxDistance.value, Candidates(m, store, c))
  }

  /** The in-radius candidates after the (stable) sort. */
  function SortedInRadius(m: MathLib, store: seq<City>, c: SearchCriteriaDto): seq<CityDto>
    requires Lawful(m)
    requires Valid(c) && c.maxDistance.Some?
  {
    RankedBeforeTotal();
    SortBy(InRadius(m, store, c), RankedBefore)
  }

  /** `searchCities` on criteria the validator accepted. It fails exactly
      when a limit it unboxes is null; otherwise it returns at most
      `maxCities` cities. */
  function SearchCities(m: MathLib, store: seq<City>, c: SearchCriteriaDto): (r: Result<seq<CityDto>, SearchError>)
    requires Lawful(m)
    requires Valid(c)
    ensures r.Success? <==> Usable(c)
    ensures r.Success? ==> |r.value| <= c.maxCities.value
  {
    if c.maxDistance.None? then Failure(NullPointer)
    else
      var results := SortedInRadius(m, store, c);
      if c.maxCities.None? then Failure(NullPointer)
      else Success(Take(results, c.maxCities.value))
  }

  // ---------------------------------------------------------------------
  // What a successful search returns

  /** Every result is a stored city inside the box, passing the population
      and region filters, at its exact rounded distance, which is a whole
      number between 0 and `maxDistance`. */
  lemma SearchResultsQualify(m: MathLib, store: seq<City>, c: SearchCriteriaDto)
    requires Lawful(m)
    requires Usable(c)
    ensures var r := SearchCities(m, store, c).value;
            var box := CalculateBoundingBox(m, c.latitude.value, c.longitude.value, c.maxDistance.value);
            forall i :: 0 <= i < |r| ==>
              && CityOf(r[i]) in store
              && InArea(CityOf(r[i]), box[MinLatIndex], box[MaxLatIndex], box[MinLonIndex], box[MaxLonIndex])
              && PopulationMatches(CityOf(r[i]), c.minPopulation)
              && RegionMatches(CityOf(r[i]), c.region)
              && r[i] == Ranked(m, c.latitude.value, c.longitude.value, CityOf(r[i]))
              && 0.0 <= r[i].distance <= c.maxDistance.value
  {
    var r := SearchCities(m, store, c).value;
    var lat, lon, maxDistance := c.latitude.value, c.longitude.value, c.maxDistance.value;
    var box := CalculateBoundingBox(m, lat, lon, maxDistance);
    var candidates := Candidates(m, store, c);
    var survivors := InRadius(m, store, c);
    var sorted := SortedInRadius(m, store, c);
    forall i | 0 <= i < |r|
      ensures && CityOf(r[i]) in store
              && InArea(CityOf(r[i]), box[MinLatIndex], box[MaxLatIndex], box[MinLonIndex], box[MaxLonIndex])
              && PopulationMatches(CityOf(r[i]), c.minPopulation)
              && RegionMatches(CityOf(r[i]), c.region)
              && r[i] == Ranked(m, lat, lon, CityOf(r[i]))
              && 0.0 <= r[i].distance <= maxDistance
    {
      assert r[i] == sorted[i];
      assert r[i] in multiset(sorted);
      assert r[i] in survivors;
      SurvivorsAreRankedCandidates(m, lat, lon, maxDistance, candidates);
      var city := CityOf(r[i]);
      GeographicAreaMembership(store, box[MinLatIndex], box[MaxLatIndex], box[MinLonIndex], box[MaxLonIndex],
                               c.minPopulation, c.region, city);
      ValidCentreOnEarth(c);
      assert ValidLatitude(city.latitude);
    }
  }

  /** With a region other than "TOUTES", every result is in that region;
      with a minimum population, every result has at least that many
      inhabitants. The service itself adds no filter beyond the distance. */
  lemma SearchHonoursFilters(m: MathLib, store: seq<City>, c: SearchCriteriaDto)
    requires Lawful(m)
    requires Usable(c)
    ensures var r := SearchCities(m, store, c).value;
            && (c.region.Some? && c.region.value != AllRegions ==>
                  forall i :: 0 <= i < |r| ==> r[i].region == c.region.value)
            && (c.minPopulation.Some? ==>
                  forall i :: 0 <= i < |r| ==> r[i].population >= c.minPopulation.value)
  {
    SearchResultsQualify(m, store, c);
  }

  /** The result is the sorted in-radius list cut to `maxCities`: a prefix
      of it, of length min(maxCities, number of in-radius candidates),
      ordered by distance, then by population. */
  lemma SearchResultIsRankedPrefix(m: MathLib, store: seq<City>, c: SearchCriteriaDto)
    requires Lawful(m)
    requires Usable(c)
    ensures var r := SearchCities(m, store, c).value;
            var sorted := SortedInRadius(m, store, c);
            && |r| == Min(c.maxCities.value, |InRadius(m, store, c)|)
            && r == sorted[..|r|]
            && multiset(sorted) == multiset(InRadius(m, store, c))
            && SortedBy(r, RankedBefore)
  {
    TakeSorted(SortedInRadius(m, store, c), c.maxCities.value, RankedBefore);
  }

  /** Exact ties on both keys keep the store's order (largest population
      first, then insertion order): the sort is stable. */
  lemma SearchSortIsStable(m: MathLib, store: seq<City>, c: SearchCriteriaDto, k: CityDto)
    requires Lawful(m)
    requires Usable(c)
    ensures Ties(SortedInRadius(m, store, c), k, RankedBefore) == Ties(InRadius(m, store, c), k, RankedBefore)
  {
    RankedBeforeTotal();
    SortByIsStable(InRadius(m, store, c), k, RankedBefore);
  }

  /** Truncation drops only the worst: every in-radius city left out of the
      result ranks no earlier than every city in it. */
  lemma SearchKeepsTheBest(m: MathLib, store: seq<City>, c: SearchCriteriaDto)
    requires Lawful(m)
    requires Usable(c)
    ensures var r := SearchCities(m, store, c).value;
            forall x, y :: x in r && y in multiset(InRadius(m, store, c)) - multiset(r) ==> RankedBefore(x, y)
  {
    var r := SearchCities(m, store, c).value;
    var sorted := SortedInRadius(m, store, c);
    assert r == sorted[..|r|];
    SortedPrefixFirst(sorted, |r|, RankedBefore);
  }

  /** The first result is the best in-radius city: nearest, and among the
      nearest the most populous. */
  lemma FirstResultIsBest(m: MathLib, store: seq<City>, c: SearchCriteriaDto)
    requires Lawful(m)
    requires Usable(c)
    ensures var r := SearchCities(m, store, c).value;
            |r| > 0 ==> forall y :: y in InRadius(m, store, c) ==> RankedBefore(r[0], y)
  {
    var r := SearchCities(m, store, c).value;
    var sorted := SortedInRadius(m, store, c);
    if |r| > 0 {
      assert r[0] == sorted[0];
      RankedBeforeTotal();
      SortedHeadFirst(sorted, RankedBefore);
      forall y | y in InRadius(m, store, c) ensures y in sorted {
        assert y in multiset(sorted);
      }
    }
  }

  /** A city appears among the sorted in-radius DTOs as often as it is
      stored when it is inside the box, passes both filters and lies within
      the radius, and never otherwise. */
  lemma SortedInRadiusMultiplicity(m: MathLib, store: seq<City>, c: SearchCriteriaDto, city: City)
    requires Lawful(m)
    requires Valid(c) && c.maxDistance.Some?
    ensures var lat, lon, maxDistance := c.latitude.value, c.longitude.value, c.maxDistance.value;
            var box := CalculateBoundingBox(m, lat, lon, maxDistance);
            multiset(SortedInRadius(m, store, c))[Ranked(m, lat, lon, city)] ==
              if && InArea(city, box[MinLatIndex], box[MaxLatIndex], box[MinLonIndex], box[MaxLonIndex])
                 && PopulationMatches(city, c.minPopulation) && RegionMatches(city, c.region)
                 && WithinRadius(m, lat, lon, maxDistance, city)
              then multiset(store)[city] else 0
  {
    var lat, lon, maxDistance := c.latitude.value, c.longitude.value, c.maxDistance.value;
    SurvivorsOnePerCandidate(m, lat, lon, maxDistance, Candidates(m, store, c), city);
  }

  /** Every sorted in-radius DTO is a stored city within the radius, at its
      own distance. */
  lemma SortedInRadiusElements(m: MathLib, store: seq<City>, c: SearchCriteriaDto)
    requires Lawful(m)
    requires Valid(c) && c.maxDistance.Some?
    ensures var lat, lon, maxDistance := c.latitude.value, c.longitude.value, c.maxDistance.value;
            forall x :: x in SortedInRadius(m, store, c) ==>
              && CityOf(x) in store
              && x == Ranked(m, lat, lon, CityOf(x))
              && WithinRadius(m, lat, lon, maxDistance, CityOf(x))
  {
    var lat, lon, maxDistance := c.latitude.value, c.longitude.value, c.maxDistance.value;
    var box := CalculateBoundingBox(m, lat, lon, maxDistance);
    var candidates := Candidates(m, store, c);
    SurvivorsAreRankedCandidates(m, lat, lon, maxDistance, candidates);
    var sorted := SortedInRadius(m, store, c);
    forall x | x in sorted
      ensures && CityOf(x) in store
              && x == Ranked(m, lat, lon, CityOf(x))
              && WithinRadius(m, lat, lon, maxDistance, CityOf(x))
    {
      assert x in multiset(sorted);
      assert x in InRadius(m, store, c);
      GeographicAreaMembership(store, box[MinLatIndex], box[MaxLatIndex], box[MinLonIndex], box[MaxLonIndex],
                               c.minPopulation, c.region, CityOf(x));
    }
  }

  /** When fewer than `maxCities` cities are returned, nothing was cut: every
      stored city inside the box that passes the filters and lies within the
      radius is in the result. */
  lemma SearchIsCompleteBelowCap(m: MathLib, store: seq<City>, c: SearchCriteriaDto, city: City)
    requires Lawful(m)
    requires Usable(c)
    requires |SearchCities(m, store, c).value| < c.maxCities.value
    requires city in store
    requires var box := CalculateBoundingBox(m, c.latitude.value, c.longitude.value, c.maxDistance.value);
             InArea(city, box[MinLatIndex], box[MaxLatIndex], box[MinLonIndex], box[MaxLonIndex])
    requires PopulationMatches(city, c.minPopulation) && RegionMatches(city, c.region)
    requires WithinRadius(m, c.latitude.value, c.longitude.value, c.maxDistance.value, city)
    ensures Ranked(m, c.latitude.value, c.longitude.value, city) in SearchCities(m, store, c).value
  {
    SortedInRadiusMultiplicity(m, store, c, city);
    var sorted := SortedInRadius(m, store, c);
    assert multiset(store)[city] > 0;
    assert Ranked(m, c.latitude.value, c.longitude.value, city) in multiset(sorted);
    NothingCutBelowCap(m, store, c);
  }

  /** A result shorter than `maxCities` is the whole sorted in-radius list. */
  lemma NothingCutBelowCap(m: MathLib, store: seq<City>, c: SearchCriteriaDto)
    requires Lawful(m)
    requires Usable(c)
    requires |SearchCities(m, store, c).value| < c.maxCities.value
    ensures SearchCities(m, store, c).value == SortedInRadius(m, store, c)
  {
  }

  // ---------------------------------------------------------------------
  // Null limits

  /** `@Min`/`@Max` let an explicit null through, and the search then
      unboxes it: a request the validator accepts still fails. */
  lemma NullLimitFailsAfterValidation(m: MathLib, store: seq<City>)
    requires Lawful(m)
    ensures var c := Default().(latitude := Some(48.8566), longitude := Some(2.3522), maxCities := None);
            Valid(c) && SearchCities(m, store, c) == Failure(NullPointer)
    ensures var c := Default().(latitude := Some(48.8566), longitude := Some(2.3522), maxDistance := None);
            Valid(c) && SearchCities(m, store, c) == Failure(NullPointer)
  {
  }

  /** With the limits required as well (`Usable`), every accepted request
      gets an answer, and a default request with a valid centre is one. */
  lemma UsableCriteriaSucceed(m: MathLib, store: seq<City>, c: SearchCriteriaDto, lat: real, lon: real)
    requires Lawful(m)
    requires Usable(c)
    requires ValidLatitude(lat) && ValidLongitude(lon)
    ensures SearchCities(m, store, c).Success?
    ensures SearchCities(m, store, Default().(latitude := Some(lat), longitude := Some(lon))).Success?
  {
    DefaultsNeedOnlyACentre(lat, lon);
  }

  // ---------------------------------------------------------------------
  // Scenarios

  /** A city stored once that is the only stored city to qualify is the
      whole result. */
  lemma LoneQualifierIsTheResult(m: MathLib, store: seq<City>, c: SearchCriteriaDto, city: City)
    requires Lawful(m)
    requires Usable(c) && c.maxCities.value >= 1
    requires multiset(store)[city] == 1
    requires var box := CalculateBoundingBox(m, c.latitude.value, c.longitude.value, c.maxDistance.value);
             && InArea(city, box[MinLatIndex], box[MaxLatIndex], box[MinLonIndex], box[MaxLonIndex])
             && PopulationMatches(city, c.minPopulation) && RegionMatches(city, c.region)
    requires forall other :: other in store ==>
               (WithinRadius(m, c.latitude.value, c.longitude.value, c.maxDistance.value, other) <==> other == city)
    ensures SearchCities(m, store, c) == Success([Ranked(m, c.latitude.value, c.longitude.value, city)])
  {
    LoneQualifierSorted(m, store, c, city);
    assert Take(SortedInRadius(m, store, c), c.maxCities.value) == SortedInRadius(m, store, c);
  }

  lemma LoneQualifierSorted(m: MathLib, store: seq<City>, c: SearchCriteriaDto, city: City)
    requires Lawful(m)
    requires Valid(c) && c.maxDistance.Some?
    requires multiset(store)[city] == 1
    requires var box := CalculateBoundingBox(m, c.latitude.value, c.longitude.value, c.maxDistance.value);
             && InArea(city, box[MinLatIndex], box[MaxLatIndex], box[MinLonIndex], box[MaxLonIndex])
             && PopulationMatches(city, c.minPopulation) && RegionMatches(city, c.region)
    requires forall other :: other in store ==>
               (WithinRadius(m, c.latitude.value, c.longitude.value, c.maxDistance.value, other) <==> other == city)
    ensures SortedInRadius(m, store, c) == [Ranked(m, c.latitude.value, c.longitude.value, city)]
  {
    var dto := Ranked(m, c.latitude.value, c.longitude.value, city);
    var sorted := SortedInRadius(m, store, c);
    assert city in store;
    SortedInRadiusMultiplicity(m, store, c, city);
    assert multiset(sorted)[dto] == 1;
    SortedInRadiusElements(m, store, c);
    forall x | x in sorted ensures x == dto {
      assert CityOf(x) == city;
    }
    SingletonMultiset(sorted, dto);
  }

  /** Around Paris with the default radius of 50 km: a store holding Paris
      itself and a city more than 50 km away yields Paris alone, at 0 km. */
  lemma OnlyParisWithinFiftyKm(m: MathLib, paris: City, far: City)
    requires Lawful(m)
    requires paris.latitude == 48.8566 && paris.longitude == 2.3522 && paris.population >= 0
    requires DistanceFrom(m, 48.8566, 2.3522, far) > 50
    ensures var c := Create(Some(48.8566), Some(2.3522), Some(10), Some(50.0), Some(0), Some(AllRegions));
            SearchCities(m, [paris, far], c) == Success([ConvertToDtoWithDistance(paris, 0.0)])
  {
    var c := Create(Some(48.8566), Some(2.3522), Some(10), Some(50.0), Some(0), Some(AllRegions));
    var lat, lon := 48.8566, 2.3522;
    DistanceToSelf(m, lat, lon);
    assert DistanceFrom(m, lat, lon, paris) == 0;
    assert paris != far;
    assert multiset([paris, far])[paris] == 1;
    BoundingBoxContainsCentre(m, lat, lon, 50.0);
    LoneQualifierIsTheResult(m, [paris, far], c, paris);
  }

  /** With room for one city and two at the same distance, the more
      populous one is returned. */
  lemma TieGoesToLargerPopulation(m: MathLib, c: SearchCriteriaDto, small: City, big: City)
    requires Lawful(m)
    requires Usable(c) && c.maxCities == Some(1)
    requires c.minPopulation.None? && c.region.None?
    requires var box := CalculateBoundingBox(m, c.latitude.value, c.longitude.value, c.maxDistance.value);
             && InArea(small, box[MinLatIndex], box[MaxLatIndex], box[MinLonIndex], box[MaxLonIndex])
             && InArea(big, box[MinLatIndex], box[MaxLatIndex], box[MinLonIndex], box[MaxLonIndex])
    requires WithinRadius(m, c.latitude.value, c.longitude.value, c.maxDistance.value, small)
    requires DistanceFrom(m, c.latitude.value, c.longitude.value, small)
             == DistanceFrom(m, c.latitude.value, c.longitude.value, big)
    requires big.population > small.population
    ensures SearchCities(m, [small, big], c) == Success([Ranked(m, c.latitude.value, c.longitude.value, big)])
  {
    var sorted := SortedInRadius(m, [small, big], c);
    TieSortedHead(m, c, small, big);
    assert Take(sorted, 1) == [sorted[0]];
  }

  lemma TieSortedHead(m: MathLib, c: SearchCriteriaDto, small: City, big: City)
    requires Lawful(m)
    requires Valid(c) && c.maxDistance.Some?
    requires c.minPopulation.None? && c.region.None?
    requires var box := CalculateBoundingBox(m, c.latitude.value, c.longitude.value, c.maxDistance.value);
             InArea(big, box[MinLatIndex], box[MaxLatIndex], box[MinLonIndex], box[MaxLonIndex])
    requires WithinRadius(m, c.latitude.value, c.longitude.value, c.maxDistance.value, small)
    requires DistanceFrom(m, c.latitude.value, c.longitude.value, small)
             == DistanceFrom(m, c.latitude.value, c.longitude.value, big)
    requires big.population > small.population
    ensures var sorted := SortedInRadius(m, [small, big], c);
            |sorted| > 0 && sorted[0] == Ranked(m, c.latitude.value, c.longitude.value, big)
  {
    var store := [small, big];
    var lat, lon := c.latitude.value, c.longitude.value;
    var sorted := SortedInRadius(m, store, c);
    SortedInRadiusMultiplicity(m, store, c, big);
    assert multiset(store)[big] > 0;
    assert Ranked(m, lat, lon, big) in multiset(sorted);
    SortedInRadiusElements(m, store, c);
    RankedBeforeTotal();
    MorePopulousFirst(m, lat, lon, sorted, small, big);
  }

  /** Of two cities at the same distance, a sorted list of DTOs drawn from
      them starts with the more populous one, if it holds it. */
  lemma MorePopulousFirst(m: MathLib, lat: real, lon: real, sorted: seq<CityDto>, small: City, big: City)
    requires SortedBy(sorted, RankedBefore)
    requires Ranked(m, lat, lon, big) in sorted
    requires forall y :: y in sorted ==> CityOf(y) in [small, big] && y == Ranked(m, lat, lon, CityOf(y))
    requires DistanceFrom(m, lat, lon, small) == DistanceFrom(m, lat, lon, big)
    requires big.population > small.population
    ensures |sorted| > 0 && sorted[0] == Ranked(m, lat, lon, big)
  {
    var bigDto := Ranked(m, lat, lon, big);
    forall y | y in sorted ensures y == bigDto || !RankedBefore(y, bigDto) {
      assert CityOf(y) == small || CityOf(y) == big;
    }
    RankedBeforeTotal();
    SortedHeadIs(sorted, bigDto, RankedBefore);
  }
}
