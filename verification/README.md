# map_of_france — a Dafny model of the radius search over French cities

The application stores French cities (name, position, population, region)
and answers one question: which cities lie within a given distance of a
point? It does this in two stages:

1. A cheap rectangle query against the store. The radius is turned into a
   latitude/longitude box, and the store applies the population and region
   filters itself.
2. The exact haversine distance, rounded to whole kilometres, removes the
   corners of the box.

The survivors are ranked by distance, and at equal distance by population.
The list is then cut to the requested number of cities. A loader fills an
empty store from a CSV file at start-up.

The model covers:

- `Geography` (geography.dfy):
  - the haversine distance, with `Math.sin`, `cos`, `sqrt` and `atan2` given as a `MathLib` parameter of which only a few laws are assumed (`Lawful`);
  - `Math.round`;
  - the bounding box and its clamping;
  - the metropolitan-France envelope.
- `CityRepository` (city_repository.dfy): the three JPQL queries as filters and stable sorts over the stored cities, in insertion order.
- `SearchCriteria` (search_criteria.dfy): the request DTO, with its defaults, its constructor and its bean-validation annotations as the predicate `Valid`.
- `CityService` (city_service.dfy): `searchCities` stage by stage, and both `convertToDto` overloads.
- `DataLoader` (data_loader.dfy):
  - `parseCsvLine`, which is Java's `String.split` semantics;
  - `getDepartmentFromPostalCode`;
  - the handling of one line;
  - the whole `run` method, as a loop over the lines of the file.
- Supporting modules:
  - `Entities`: the City entity and the DTO;
  - `Text`: Java `trim`, `split` and string order;
  - `Sorting`: a stable insertion sort, which is what `List.sort` amounts to for a fixed comparator;
  - `Wrappers`.

Java nulls are `Option` values. A thrown exception is a `Failure`, or a
skipped line in the loader.

The region value meaning "every region" is `"TOUTES"`, as the queries have
it (`src/main/java/td/ekod/map_of_france/repository/CityRepository.java:34-63`).

The controller test at
`src/test/java/td/ekod/map_of_france/controller/CityApiControllerTest.java:112-121`
expects `maxCities = 100` to be rejected. The annotation `@Max(100)` accepts
it. The model follows the annotation, and `SearchCriteria.MaxCitiesBoundary`
shows that 100 is accepted and 101 is not.

## Model

| member | source | states |
|---|---|---|
| Geography.JavaRound | src/main/java/td/ekod/map_of_france/service/GeographyService.java:40 | the rounded value is the integer within half a unit below or strictly less than half a unit above the argument, i.e. halves round up |
| Geography.JavaRoundUnique | src/main/java/td/ekod/map_of_france/service/GeographyService.java:40 | that integer is unique: any integer in that window is the rounded value |
| Geography.HaversineDistance | src/main/java/td/ekod/map_of_france/service/GeographyService.java:21-41 | between valid latitudes the distance is a whole, non-negative number of kilometres |
| Geography.HaversineTermNonNegative | src/main/java/td/ekod/map_of_france/service/GeographyService.java:33-35 | the haversine term `a` is never negative between valid latitudes, because both cosines are positive there |
| Geography.DistanceToSelf | src/main/java/td/ekod/map_of_france/service/GeographyService.java:28-40 | a point is at distance 0 from itself |
| Geography.DistanceSymmetric | src/main/java/td/ekod/map_of_france/service/GeographyService.java:21-41 | swapping the two points does not change the distance |
| Geography.CalculateBoundingBox | src/main/java/td/ekod/map_of_france/service/GeographyService.java:50-69 | the box has four entries in the order minLat, maxLat, minLon, maxLon and lies within the Earth's ranges; a latitude lies inside exactly when it is valid and within radius/111 degrees of the centre; a longitude lies inside exactly when it is valid and within radius/(111·cos lat) degrees of the centre |
| Geography.LongitudeDeltaSign | src/main/java/td/ekod/map_of_france/service/GeographyService.java:55 | the longitude half-width is non-negative for a non-negative radius |
| Geography.BoundingBoxContainsCentre | src/main/java/td/ekod/map_of_france/service/GeographyService.java:54-66 | for a non-negative radius and a valid centre, the centre is inside the box |
| Geography.LatitudeExtentSymmetric | src/main/java/td/ekod/map_of_france/service/GeographyService.java:54-58 | when no clamping happens, the latitude extent reaches exactly radius/111 degrees on each side of the centre |
| Geography.BoundingBoxMonotone | src/main/java/td/ekod/map_of_france/service/GeographyService.java:54-66 | a larger radius gives a box containing the smaller radius's box |
| Geography.EnvelopeClosedAndOnEarth | src/main/java/td/ekod/map_of_france/service/GeographyService.java:77-81 | all four corners of the envelope belong to it, a point just past each of its four edges does not, and every point inside it is a valid coordinate |
| Geography.EnvelopeExamples | src/test/java/td/ekod/map_of_france/service/GeographyServiceTest.java:53-162 | Paris, Marseille, Lille, Perpignan, Brest and Strasbourg are inside the envelope; London and Madrid are outside |
| CityRepository.PopulationDescTotal | src/main/java/td/ekod/map_of_france/repository/CityRepository.java:40 | ordering by population, largest first, is a total preorder |
| CityRepository.FindCitiesWithFilters | src/main/java/td/ekod/map_of_france/repository/CityRepository.java:54-63 | the result is ordered by population, largest first; each stored city that passes the population and region filters appears as often as it is stored, and no other city appears |
| CityRepository.FindCitiesInGeographicArea | src/main/java/td/ekod/map_of_france/repository/CityRepository.java:34-49 | the same as the filters query, with the inclusive latitude and longitude ranges added to the filters; a null minimum or a null or "TOUTES" region imposes nothing |
| CityRepository.GeographicAreaMembership | src/main/java/td/ekod/map_of_france/repository/CityRepository.java:36-39 | a city is in the area result if and only if it is stored, inside both ranges, and passes both filters |
| CityRepository.WholeEarthAreaIsFiltersOnly | src/main/java/td/ekod/map_of_france/repository/CityRepository.java:34-63 | over the whole Earth, the area query returns exactly what the filters query returns, in the same order |
| CityRepository.FindAllDistinctRegions | src/main/java/td/ekod/map_of_france/repository/CityRepository.java:21-22 | the result is strictly ascending, and a string is in it exactly when some stored city has that region |
| CityRepository.DistinctRegionsUnique | src/main/java/td/ekod/map_of_france/repository/CityRepository.java:21-22 | no region is listed twice |
| SearchCriteria.ValidCentreOnEarth | src/main/java/td/ekod/map_of_france/dto/SearchCriteriaDto.java:14-22 | an accepted request has a centre, and the centre is a valid Earth coordinate |
| SearchCriteria.DefaultsNeedOnlyACentre | src/main/java/td/ekod/map_of_france/dto/SearchCriteriaDto.java:14-38 | a default request (10 cities, 50 km, population 0) is rejected because it has no centre; with a centre it is accepted exactly when the centre is a valid coordinate, and it is then usable by the search |
| SearchCriteria.CreateValidity | src/main/java/td/ekod/map_of_france/dto/SearchCriteriaDto.java:14-48 | the six-argument constructor stores its arguments; the request is accepted exactly when latitude is present in [-90, 90], longitude is present in [-180, 180], maxCities is null or in 1..100, maxDistance is null or in [1, 1000], and minPopulation is null or at least 0; the region is unconstrained |
| SearchCriteria.MaxCitiesBoundary | src/main/java/td/ekod/map_of_france/dto/SearchCriteriaDto.java:24-26 | 100 result slots are accepted; 0 and 101 are rejected |
| SearchCriteria.NullLimitsAreValid | src/main/java/td/ekod/map_of_france/dto/SearchCriteriaDto.java:24-33 | setting any of the three limits to null keeps a request valid, but a null cap or radius makes it unusable by the search |
| CityService.ConvertToDtoWithDistance | src/main/java/td/ekod/map_of_france/service/CityService.java:124-136 | the DTO carries every field of the city unchanged (the city can be recovered from it), at the given distance |
| CityService.ConvertToDto | src/main/java/td/ekod/map_of_france/service/CityService.java:143-145 | the DTO carries every field of the city unchanged, at distance 0 |
| CityService.RankedBeforeTotal | src/main/java/td/ekod/map_of_france/service/CityService.java:76-82 | the comparator (distance ascending, then population descending) is a total preorder |
| CityService.Survivors | src/main/java/td/ekod/map_of_france/service/CityService.java:60-73 | the loop keeps at most one DTO per candidate, and every DTO it keeps is within maxDistance |
| CityService.SurvivorsOnePerCandidate | src/main/java/td/ekod/map_of_france/service/CityService.java:60-73 | a candidate within the radius appears, at its distance, as often as it is a candidate; a city not within the radius never appears |
| CityService.SurvivorsAreRankedCandidates | src/main/java/td/ekod/map_of_france/service/CityService.java:60-73 | everything the loop keeps is a candidate within the radius, at its own distance |
| CityService.SurvivorsAppend | src/main/java/td/ekod/map_of_france/service/CityService.java:62-73 | candidates are handled independently and in order |
| CityService.RankedInjective | src/main/java/td/ekod/map_of_france/service/CityService.java:70 | two cities give the same DTO only if they are the same city |
| CityService.SearchCities | src/main/java/td/ekod/map_of_france/service/CityService.java:35-91 | on an accepted request, the search succeeds exactly when both the cap and the radius are non-null; it then returns at most maxCities cities |
| CityService.SearchResultsQualify | src/main/java/td/ekod/map_of_france/service/CityService.java:41-73 | every result is a stored city inside the bounding box that passes the population and region filters; it is at its own rounded distance, and that distance is between 0 and maxDistance |
| CityService.SearchHonoursFilters | src/main/java/td/ekod/map_of_france/service/CityService.java:48-55 | with a region other than "TOUTES", every result is in that region; with a minimum population, every result has at least that many inhabitants |
| CityService.SearchResultIsRankedPrefix | src/main/java/td/ekod/map_of_france/service/CityService.java:75-87 | the result's length is min(maxCities, number of in-radius candidates); the result is a prefix of the sorted in-radius list, which is a permutation of that list; the result is ordered by distance and then by population, largest first |
| CityService.SearchSortIsStable | src/main/java/td/ekod/map_of_france/service/CityService.java:76-82 | DTOs tied on both keys keep their candidate order, i.e. largest population first and then insertion order |
| CityService.SearchKeepsTheBest | src/main/java/td/ekod/map_of_france/service/CityService.java:84-87 | truncation drops only the worst: every result ranks no later than every in-radius city left out |
| CityService.FirstResultIsBest | src/main/java/td/ekod/map_of_france/service/CityService.java:76-87 | the first result ranks no later than any in-radius city |
| CityService.SortedInRadiusMultiplicity | src/main/java/td/ekod/map_of_france/service/CityService.java:41-82 | before truncation, a city inside the box that passes both filters and is within the radius appears as often as it is stored; any other city never appears |
| CityService.SortedInRadiusElements | src/main/java/td/ekod/map_of_france/service/CityService.java:41-82 | before truncation, every DTO is a stored city within the radius, at its own distance |
| CityService.SearchIsCompleteBelowCap | src/main/java/td/ekod/map_of_france/service/CityService.java:84-87 | when fewer than maxCities cities are returned, every qualifying stored city is among them |
| CityService.NothingCutBelowCap | src/main/java/td/ekod/map_of_france/service/CityService.java:85-87 | a result shorter than the cap is the whole sorted in-radius list |
| CityService.NullLimitFailsAfterValidation | src/main/java/td/ekod/map_of_france/service/CityService.java:41-86 | a valid centre with a null cap, or with a null radius, passes validation, and the search then fails |
| CityService.UsableCriteriaSucceed | src/main/java/td/ekod/map_of_france/service/CityService.java:35-91 | once the cap and radius are required to be non-null, every accepted request gets an answer; a default request with a valid centre is such a request |
| CityService.LoneQualifierIsTheResult | src/main/java/td/ekod/map_of_france/service/CityService.java:35-91 | a city that is stored once and is the only stored city to qualify is the whole result |
| CityService.LoneQualifierSorted | src/main/java/td/ekod/map_of_france/service/CityService.java:41-82 | in that situation, the sorted in-radius list is that one city alone |
| CityService.OnlyParisWithinFiftyKm | src/main/java/td/ekod/map_of_france/service/CityService.java:35-91 | around Paris with a 50 km radius, a store holding Paris and one city more than 50 km away returns Paris alone, at 0 km |
| CityService.TieGoesToLargerPopulation | src/main/java/td/ekod/map_of_france/service/CityService.java:76-87 | with room for one city and two cities at the same distance, the more populous one is returned |
| CityService.TieSortedHead | src/main/java/td/ekod/map_of_france/service/CityService.java:76-82 | of two cities at the same distance, the more populous one is first after sorting |
| CityService.MorePopulousFirst | src/main/java/td/ekod/map_of_france/service/CityService.java:76-82 | a list sorted by the comparator, holding only two cities at the same distance, starts with the more populous one |
| Sorting.SortBy | src/main/java/td/ekod/map_of_france/service/CityService.java:76-82 | the sort returns a permutation of its input, ordered by the comparator |
| Sorting.SortByIsStable | src/main/java/td/ekod/map_of_france/service/CityService.java:76-82 | elements the comparator cannot tell apart keep their relative order |
| Sorting.Take | src/main/java/td/ekod/map_of_france/service/CityService.java:84-87 | the result is the first n elements, or the whole list when it is shorter |
| Sorting.SortedPrefixFirst | src/main/java/td/ekod/map_of_france/service/CityService.java:84-87 | every element of a prefix of a sorted list comes no later than every element left out |
| DataLoader.ParseCsvLine | src/main/java/td/ekod/map_of_france/service/DataLoaderService.java:97-100 | no field contains a comma; a line gives at most one field more than it has commas, and gives no field at all only when it has a comma |
| DataLoader.NoFieldsOnlyForCommas | src/main/java/td/ekod/map_of_france/service/DataLoaderService.java:97-100 | a line gives no field at all exactly when it is non-empty and consists of commas alone |
| Text.JavaSplitEmpty | src/main/java/td/ekod/map_of_france/service/DataLoaderService.java:97-100 | `split` returns no field exactly when the string is non-empty and made of separators alone |
| Text.DropTrailingEmpty | src/main/java/td/ekod/map_of_france/service/DataLoaderService.java:97-100 | the result is a prefix of the pieces that ends in a non-empty piece (or is empty), and every piece cut off is empty |
| Text.JavaSplitPrefix | src/main/java/td/ekod/map_of_france/service/DataLoaderService.java:97-100 | what `split` returns is a prefix of all the pieces between commas, only empty pieces are dropped, and no field contains a comma; a line without a comma is its own only field, and otherwise the last field is never empty |
| Text.SplitAllCount | src/main/java/td/ekod/map_of_france/service/DataLoaderService.java:97-100 | before trailing empty pieces are dropped, there is exactly one piece more than there are separators |
| Text.SplitAllJoin | src/main/java/td/ekod/map_of_france/service/DataLoaderService.java:97-100 | splitting the comma-join of comma-free pieces gives those pieces back |
| Text.JoinSplitAll | src/main/java/td/ekod/map_of_france/service/DataLoaderService.java:97-100 | joining the pieces of a split gives the line back |
| DataLoader.JoinedFieldsParse | src/main/java/td/ekod/map_of_france/service/DataLoaderService.java:97-100 | parsing the comma-join of comma-free fields gives the fields back, provided the last one is not empty |
| DataLoader.GetDepartmentFromPostalCode | src/main/java/td/ekod/map_of_france/service/DataLoaderService.java:105-110 | the department is the first two characters exactly when the code is non-null, at least two long and not "N/A"; otherwise it is "Inconnu" |
| DataLoader.CityFromFields | src/main/java/td/ekod/map_of_france/service/DataLoaderService.java:63-72 | a city is built exactly when both coordinates and the population parse; fields 0 to 4, trimmed, become name, latitude, longitude, region and population; the postal code is "N/A" and the department "Inconnu" |
| DataLoader.ProcessLine | src/main/java/td/ekod/map_of_france/service/DataLoaderService.java:59-84 | a line is skipped as malformed exactly when it has fewer than 5 fields; it is skipped as unparsable when a number does not parse; it is rejected when the city violates the entity's constraints; otherwise it is saved as the city its fields describe |
| DataLoader.SavedCityProperties | src/main/java/td/ekod/map_of_france/service/DataLoaderService.java:69-73 | a saved city passes the entity's constraints and carries postal code "N/A" and department "Inconnu" |
| DataLoader.OutcomesAppend | src/main/java/td/ekod/map_of_france/service/DataLoaderService.java:56-85 | lines are judged one by one: the outcomes of two runs of lines are the outcomes of each, one after the other |
| DataLoader.SavedCities | src/main/java/td/ekod/map_of_france/service/DataLoaderService.java:72-74 | a city is saved exactly when some line's outcome saves it |
| DataLoader.LoadLines | src/main/java/td/ekod/map_of_france/service/DataLoaderService.java:56-85 | no more cities are saved than there are lines |
| DataLoader.LoadedCitiesArePlaceholders | src/main/java/td/ekod/map_of_france/service/DataLoaderService.java:69-73 | every loaded city passes the entity's constraints and carries postal code "N/A" and department "Inconnu" |
| DataLoader.LoadLinesAppend | src/main/java/td/ekod/map_of_france/service/DataLoaderService.java:56-85 | lines are handled independently and in order, so a skipped line does not stop the load |
| DataLoader.LoadLinesStep | src/main/java/td/ekod/map_of_france/service/DataLoaderService.java:59-84 | one more line adds the city that line saves, if any, at the end |
| DataLoader.LoadDataLines | src/main/java/td/ekod/map_of_france/service/DataLoaderService.java:56-85 | the read loop saves exactly the cities the data lines describe, in order, and counts each of them once |
| DataLoader.PlaceholderIsNotBlank | src/main/java/td/ekod/map_of_france/service/DataLoaderService.java:69 | the placeholder postal code "N/A" passes `@NotBlank` |
| DataLoader.WellFormedLineIsSaved | src/main/java/td/ekod/map_of_france/service/DataLoaderService.java:59-74 | a line of five trimmed, comma-free fields is saved as exactly the city those fields describe, when its numbers parse, its name and region are non-empty and its population is non-negative |
| DataLoader.WellFormedFieldsMakeCity | src/main/java/td/ekod/map_of_france/service/DataLoaderService.java:63-72 | such fields build that city, and the city passes the entity's constraints |
| DataLoader.Run | src/main/java/td/ekod/map_of_france/service/DataLoaderService.java:29-92 | a non-empty store is left alone and nothing is counted; otherwise the header line is consumed whatever it says, every later line is processed, the store becomes the cities those lines save, and the count reported is the number saved |
| Text.Trim | src/main/java/td/ekod/map_of_france/service/DataLoaderService.java:63-67 | trimming never lengthens a string, and what is left neither starts nor ends with a character at or below the space |
| Text.TrimIsInfix | src/main/java/td/ekod/map_of_france/service/DataLoaderService.java:63-67 | the trimmed string is a contiguous piece of the original |
| Text.TrimRemovesOnlyBlanks | src/main/java/td/ekod/map_of_france/service/DataLoaderService.java:63-67 | everything cut away by trimming is a character at or below the space |
| Text.TrimIdempotent | src/main/java/td/ekod/map_of_france/service/DataLoaderService.java:63-67 | trimming twice is trimming once |

## Left out

- The HTTP and page controllers (`CityApiController`, `WebController`) are left out. This covers routing, response building and the envelope check the controller makes before searching. The search takes validation as its precondition.
- Exact trigonometry is left out. Only the laws in `Geography.Lawful` are assumed of `Math.sin`, `cos`, `sqrt` and `atan2`. Concrete distances, such as the Paris–Lyon figure of the service test, are therefore out of reach.
- Floating-point rounding, NaN and infinities are left out. Coordinates and distances are exact reals.
- `Math.round` of a value beyond the `long` range is left out. The model rounds exactly.
- JPA persistence is left out: identifier generation, transactions, SQL null logic and database collation.
  - `ORDER BY population DESC` leaves ties unordered in SQL. The model fixes them to insertion order.
  - `ORDER BY region` is modelled as lexicographic order of character sequences.
- The other repository and service methods are left out. They forward to queries without logic of their own:
  - `findByRegionOrderByPopulationDesc`
  - `countCitiesByRegion`
  - `findByNameContainingIgnoreCaseOrderByPopulationDesc` (unused)
  - `getAllRegions`
  - `getRegionStatistics`
  - `findById`
  - `getTotalCityCount`
- File reading and number parsing are left out. The CSV file arrives as its sequence of lines. `Double.parseDouble` and `Integer.parseInt` are parameters that either give a value or fail.
- An I/O error that aborts the load half-way is left out. A missing file, which is only logged, is the case of an empty sequence of lines.
- Logging is left out, including the line counter used only in log messages.
- Saving is modelled as entity-level validation. A city that breaks the `City` annotations makes the save throw, and the line is skipped. This assumes bean validation runs before persisting, as it does when a validator is available.
- Geography.CalculateBoundingBox requires a valid centre latitude, so that the cosine is positive. Its only caller passes a validated latitude.
- Geography.HaversineDistance states non-negativity only between valid latitudes and under the assumed trigonometric laws.
- CityService.SearchCities states the result's size and when it fails. The distance bound and the other properties of each result are stated separately in `CityService.SearchResultsQualify` and the lemmas that follow it.
- DataLoader.ParseCsvLine bounds the number of fields by the number of commas. The exact fields are stated by `DataLoader.JoinedFieldsParse` for lines built from fields, and the empty result by `DataLoader.NoFieldsOnlyForCommas`.

## Findings

| source | as written | input that shows it | evidently intended | confidence | as-written member | corrected member |
|---|---|---|---|---|---|---|
| src/main/java/td/ekod/map_of_france/service/CityService.java:41-86 | `@Min`/`@Max` on `maxCities` and `maxDistance` accept an explicit null, and `searchCities` then unboxes the value | a request with centre (48.8566, 2.3522) and `"maxCities": null` (or `"maxDistance": null`) | a request the validator accepts gets an answer: the limits must be present (`SearchCriteria.Usable`), or the defaults must apply | not executed | CityService.NullLimitFailsAfterValidation | CityService.UsableCriteriaSucceed |
