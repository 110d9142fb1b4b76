/** The City entity and the CityDto handed to clients. Nullable columns the
    search never leaves null (population, department) are plain values; the
    identifier is `None` until the store assigns one. */
module Entities {
  import opened Wrappers
  import Text

  datatype City = City(
    id: Option<int>,
    name: string,
    postalCode: string,
    latitude: real,
    longitude: real,
    population: int,
    region: string,
    department: string)

  datatype CityDto = CityDto(
    id: Option<int>,
    name: string,
    postalCode: string,
    latitude: real,
    longitude: real,
    population: int,
    region: string,
    department: string,
    distance: real)

  /** `@NotBlank` as Hibernate Validator checks it: something is left after `trim`. */
  predicate NotBlank(s: string) {
    |Text.Trim(s)| > 0
  }

  /** The entity's bean-validation constraints (`@NotBlank` name, postal code
      and region, `@PositiveOrZero` population), which the persistence layer
      enforces when a city is saved. */
  predicate Admissible(c: City) {
    && NotBlank(c.name)
    && NotBlank(c.postalCode)
    && c.population >= 0
    && NotBlank(c.region)
  }

  /** The city a DTO describes: every field but the distance. */
  function CityOf(dto: CityDto): City {
    City(dto.id, dto.name, dto.postalCode, dto.latitude, dto.longitude,
         dto.population, dto.region, dto.department)
  }
}
