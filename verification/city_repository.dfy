/** CityRepository: the JPQL queries the service relies on, as filters and
    sorts over the stored cities in insertion order. `ORDER BY population
    DESC` leaves equal populations in an order SQL does not fix; the model
    fixes it to insertion order (a stable sort). */
module CityRepository {
  import opened Wrappers
  import opened Sorting
  import opened Entities
  import Text

  /** The region value the client sends for "every region". */
  const AllRegions: string := "TOUTES"

  /** `(:minPopulation IS NULL OR c.population >= :minPopulation)` */
  predicate PopulationMatches(c: City, minPopulation: Option<int>) {
    minPopulation.None? || c.population >= minPopulation.value
  }

  /** `(:region IS NULL OR :region = 'TOUTES' OR c.region = :region)` */
  predicate RegionMatches(c: City, region: Option<string>) {
    region.None? || region.value == AllRegions || c.region == region.value
  }

  /** Both `BETWEEN`s, bounds included. */
  predicate InArea(c: City, minLat: real, maxLat: real, minLon: real, maxLon: real) {
    minLat <= c.latitude <= maxLat && minLon <= c.longitude <= maxLon
  }

  /** `ORDER BY c.population DESC` as a "comes no later than" relation. */
  predicate PopulationDesc(a: City, b: City) {
    a.population >= b.population
  }

  lemma PopulationDescTotal()
    ensures TotalPreorder(PopulationDesc)
  {
  }

  /** `findCitiesWithFilters`: every stored city passing the population and
      region filters (with its multiplicity), largest population first. */
  function FindCitiesWithFilters(store: seq<City>, minPopulation: Option<int>, region: Option<string>): (r: seq<City>)
    ensures SortedBy(r, PopulationDesc)
    ensures forall c :: multiset(r)[c] ==
              if PopulationMatches(c, minPopulation) && RegionMatches(c, region) then multiset(store)[c] else 0
  {
    var keep := (c: City) => PopulationMatches(c, minPopulation) && RegionMatches(c, region);
    PopulationDescTotal();
    var r := SortBy(Select(store, keep), PopulationDesc);
    forall c ensures multiset(r)[c] == if keep(c) then multiset(store)[c] else 0 {
      SelectMultiplicity(store, keep, c);
    }
    r
  }

  /** `findCitiesInGeographicArea`: the same filters plus the inclusive
      latitude and longitude ranges, largest population first. */
  function FindCitiesInGeographicArea(store: seq<City>, minLat: real, maxLat: real, minLon: real, maxLon: real,
                                      minPopulation: Option<int>, region: Option<string>): (r: seq<City>)
    ensures SortedBy(r, PopulationDesc)
    ensures forall c :: multiset(r)[c] ==
              if InArea(c, minLat, maxLat, minLon, maxLon)
                 && PopulationMatches(c, minPopulation) && RegionMatches(c, region)
              then multiset(store)[c] else 0
  {
    var keep := (c: City) => InArea(c, minLat, maxLat, minLon, maxLon)
                             && PopulationMatches(c, minPopulation) && RegionMatches(c, region);
    PopulationDescTotal();
    var r := SortBy(Select(store, keep), PopulationDesc);
    forall c ensures multiset(r)[c] == if keep(c) then multiset(store)[c] else 0 {
      SelectMultiplicity(store, keep, c);
    }
    r
  }

  /** Membership in the area query, one city at a time. */
  lemma GeographicAreaMembership(store: seq<City>, minLat: real, maxLat: real, minLon: real, maxLon: real,
                                 minPopulation: Option<int>, region: Option<string>, c: City)
    ensures c in FindCitiesInGeographicArea(store, minLat, maxLat, minLon, maxLon, minPopulation, region) <==>
              && c in store
              && InArea(c, minLat, maxLat, minLon, maxLon)
              && PopulationMatches(c, minPopulation)
              && RegionMatches(c, region)
  {
    var r := FindCitiesInGeographicArea(store, minLat, maxLat, minLon, maxLon, minPopulation, region);
    assert c in r <==> multiset(r)[c] > 0;
    assert c in store <==> multiset(store)[c] > 0;
  }

  /** Over the whole Earth the area query adds nothing to the other filters:
      it returns exactly what `findCitiesWithFilters` returns, in the same order. */
  lemma WholeEarthAreaIsFiltersOnly(store: seq<City>, minPopulation: Option<int>, region: Option<string>)
    requires forall i :: 0 <= i < |store| ==>
               -90.0 <= store[i].latitude <= 90.0 && -180.0 <= store[i].longitude <= 180.0
    ensures FindCitiesInGeographicArea(store, -90.0, 90.0, -180.0, 180.0, minPopulation, region)
            == FindCitiesWithFilters(store, minPopulation, region)
  {
    var area := (c: City) => InArea(c, -90.0, 90.0, -180.0, 180.0)
                             && PopulationMatches(c, minPopulation) && RegionMatches(c, region);
    var filters := (c: City) => PopulationMatches(c, minPopulation) && RegionMatches(c, region);
    SelectCongruent(store, area, filters);
  }

  /** `findAllDistinctRegions`: each stored region once, in ascending order. */
  function FindAllDistinctRegions(store: seq<City>): (r: seq<string>)
    ensures Text.StrictlyIncreasing(r)
    ensures forall x :: x in r <==> exists c :: c in store && c.region == x
  {
    var regions := seq(|store|, i requires 0 <= i < |store| => store[i].region);
    var r := Text.DistinctAscending(regions);
    assert forall x :: x in regions <==> exists c :: c in store && c.region == x by {
      forall x ensures x in regions <==> exists c :: c in store && c.region == x {
        if x in regions {
          var i :| 0 <= i < |regions| && regions[i] == x;
          assert store[i] in store;
        }
        if exists c :: c in store && c.region == x {
          var c :| c in store && c.region == x;
          var i :| 0 <= i < |store| && store[i] == c;
          assert regions[i] == x;
        }
      }
    }
    r
  }

  /** No region is listed twice. */
  lemma DistinctRegionsUnique(store: seq<City>)
    ensures var r := FindAllDistinctRegions(store);
            forall i, j :: 0 <= i < j < |r| ==> r[i] != r[j]
  {
    Text.StrictlyIncreasingDistinct(FindAllDistinctRegions(store));
  }
}
