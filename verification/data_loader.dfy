/** DataLoaderService: fills an empty store from the lines of a CSV file
    whose columns are name, latitude, longitude, region, population. Reading
    the file is outside the model: it arrives as its sequence of lines. The
    number parsers are parameters that either yield a value or fail, as
    `Double.parseDouble` and `Integer.parseInt` either return or throw. */
module DataLoader {
  import opened Wrappers
  import opened Text
  import opened Entities

  const Separator: char := ','
  const RequiredFields: nat := 5
  const UnknownPostalCode: string := "N/A"
  const UnknownDepartment: string := "Inconnu"

  datatype Parsers = Parsers(parseDouble: string -> Option<real>, parseInt: string -> Option<int>)

  /** `parseCsvLine`: `line.split(",")`, with no quoting. No field holds a
      comma, and there is at most one field more than there are commas. */
  function ParseCsvLine(line: string): (fields: seq<string>)
    ensures 1 <= |fields| <= Occurrences(line, Separator) + 1 || (|fields| == 0 && Separator in line)
    ensures forall i :: 0 <= i < |fields| ==> Separator !in fields[i]
  {
    JavaSplitPrefix(line, Separator);
    SplitAllCount(line, Separator);
    JavaSplit(line, Separator)
  }

  /** `getDepartmentFromPostalCode`: the first two characters of a real
      postal code, and "Inconnu" for a null, too short or "N/A" code. */
  function GetDepartmentFromPostalCode(postalCode: Option<string>): (department: string)
    ensures (postalCode.Some? && |postalCode.value| >= 2 && postalCode.value != UnknownPostalCode)
            <==> (postalCode.Some? && |postalCode.value| >= 2 && department == postalCode.value[..2])
    ensures !(postalCode.Some? && |postalCode.value| >= 2 && postalCode.value != UnknownPostalCode)
            ==> department == UnknownDepartment
    ensures department != UnknownDepartment ==> |department| == 2
  {
    if postalCode.Some? && |postalCode.value| >= 2 && postalCode.value != UnknownPostalCode then
      postalCode.value[..2]
    else
      UnknownDepartment
  }

  /** A line yields no field at all exactly when it is non-empty and made of
      commas alone; every other line yields at least one. */
  lemma NoFieldsOnlyForCommas(line: string)
    ensures |ParseCsvLine(line)| == 0 <==> |line| > 0 && forall i :: 0 <= i < |line| ==> line[i] == Separator
  {
    JavaSplitEmpty(line, Separator);
  }

  /** What happens to one data line. */
  datatype LineOutcome =
    | TooFewFields          // logged as an invalid line
    | Unparsable            // a number parser threw
    | Rejected(city: City)  // saving threw: the entity's constraints fail
    | Saved(city: City)

  /** The city the five leading fields describe, or `None` when a number
      parser throws. Fields 0 to 4 are trimmed and read as name, latitude,
      longitude, region and population; the postal code is the placeholder
      "N/A", so the department is "Inconnu". */
  function CityFromFields(fields: seq<string>, p: Parsers): (city: Option<City>)
    requires |fields| >= RequiredFields
    ensures city.Some? <==>
              && p.parseDouble(Trim(fields[1])).Some?
              && p.parseDouble(Trim(fields[2])).Some?
              && p.parseInt(Trim(fields[4])).Some?
    ensures city.Some? ==>
              && city.value.id.None?
              && city.value.name == Trim(fields[0])
              && Some(city.value.latitude) == p.parseDouble(Trim(fields[1]))
              && Some(city.value.longitude) == p.parseDouble(Trim(fields[2]))
              && city.value.region == Trim(fields[3])
              && Some(city.value.population) == p.parseInt(Trim(fields[4]))
              && city.value.postalCode == UnknownPostalCode
              && city.value.department == UnknownDepartment
  {
    var name := Trim(fields[0]);
    var latitude := p.parseDouble(Trim(fields[1]));
    var longitude := p.parseDouble(Trim(fields[2]));
    var region := Trim(fields[3]);
    var population := p.parseInt(Trim(fields[4]));
    if latitude.None? || longitude.None? || population.None? then None
    else
      var postalCode := UnknownPostalCode;
      var department := GetDepartmentFromPostalCode(Some(postalCode));
      Some(City(None, name, postalCode, latitude.value, longitude.value, population.value, region, department))
  }

  /** The body of the loop in `run` for one line: too few fields, a parser
      that throws, or a save that throws skip the line; otherwise the city
      is saved. */
  function ProcessLine(line: string, p: Parsers): (outcome: LineOutcome)
    ensures outcome.TooFewFields? <==> |ParseCsvLine(line)| < RequiredFields
    ensures outcome.Saved? ==> Admissible(outcome.city) && Some(outcome.city) == CityFromFields(ParseCsvLine(line), p)
    ensures outcome.Rejected? ==> !Admissible(outcome.city) && Some(outcome.city) == CityFromFields(ParseCsvLine(line), p)
    ensures outcome.Unparsable? ==> CityFromFields(ParseCsvLine(line), p).None?
  {
    var fields := ParseCsvLine(line);
    if |fields| < RequiredFields then TooFewFields
    else
      match CityFromFields(fields, p)
      case None => Unparsable
      case Some(city) => if Admissible(city) then Saved(city) else Rejected(city)
  }

  lemma SavedCityProperties(line: string, p: Parsers)
    ensures ProcessLine(line, p).Saved? ==> Placeholder(ProcessLine(line, p).city)
  {
  }

  /** The outcome of every line, in order. */
  function Outcomes(lines: seq<string>, p: Parsers): (outcomes: seq<LineOutcome>)
    ensures |outcomes| == |lines|
    ensures forall i :: 0 <= i < |lines| ==> outcomes[i] == ProcessLine(lines[i], p)
  {
    seq(|lines|, i requires 0 <= i < |lines| => ProcessLine(lines[i], p))
  }

  /** Lines are judged one by one: the outcomes of two runs of lines are the
      outcomes of each, one after the other. */
  lemma OutcomesAppend(a: seq<string>, b: seq<string>, p: Parsers)
    ensures Outcomes(a + b, p) == Outcomes(a, p) + Outcomes(b, p)
  {
    var joined := Outcomes(a + b, p);
    var front, back := Outcomes(a, p), Outcomes(b, p);
    var parts := front + back;
    assert |joined| == |parts|;
    forall k | 0 <= k < |joined| ensures joined[k] == parts[k] {
      if k < |a| {
        assert (a + b)[k] == a[k];
        assert parts[k] == front[k] == ProcessLine(a[k], p);
      } else {
        assert (a + b)[k] == b[k - |a|];
        assert parts[k] == back[k - |a|] == ProcessLine(b[k - |a|], p);
      }
    }
  }

  /** The cities of the saved outcomes, in order. */
  function SavedCities(outcomes: seq<LineOutcome>): (saved: seq<City>)
    ensures |saved| <= |outcomes|
    ensures forall city :: city in saved <==> Saved(city) in outcomes
  {
    if |outcomes| == 0 then []
    else if outcomes[0].Saved? then [outcomes[0].city] + SavedCities(outcomes[1..])
    else SavedCities(outcomes[1..])
  }

  lemma {:induction false} SavedCitiesAppend(a: seq<LineOutcome>, b: seq<LineOutcome>)
    ensures SavedCities(a + b) == SavedCities(a) + SavedCities(b)
  {
    if |a| > 0 {
      assert (a + b)[1..] == a[1..] + b;
      SavedCitiesAppend(a[1..], b);
    } else {
      assert a + b == b;
    }
  }

  /** The cities saved from `lines`, in order. */
  function LoadLines(lines: seq<string>, p: Parsers): (saved: seq<City>)
    ensures |saved| <= |lines|
  {
    SavedCities(Outcomes(lines, p))
  }

  predicate Placeholder(city: City) {
    && Admissible(city)
    && city.postalCode == UnknownPostalCode
    && city.department == UnknownDepartment
  }

  /** Every city saved satisfies the entity's constraints and carries the
      placeholder postal data. */
  lemma LoadedCitiesArePlaceholders(lines: seq<string>, p: Parsers)
    ensures forall city :: city in LoadLines(lines, p) ==> Placeholder(city)
  {
    var outcomes := Outcomes(lines, p);
    forall city | city in LoadLines(lines, p) ensures Placeholder(city) {
      var i :| 0 <= i < |outcomes| && outcomes[i] == Saved(city);
      SavedCityProperties(lines[i], p);
    }
  }

  /** Lines are handled independently and in order: a skipped line does not
      stop the load. */
  lemma LoadLinesAppend(a: seq<string>, b: seq<string>, p: Parsers)
    ensures LoadLines(a + b, p) == LoadLines(a, p) + LoadLines(b, p)
  {
    OutcomesAppend(a, b, p);
    SavedCitiesAppend(Outcomes(a, p), Outcomes(b, p));
  }

  /** Parsing undoes joining: fields free of commas, the last one not
      empty, come back exactly from the line that joins them with commas. */
  lemma JoinedFieldsParse(fields: seq<string>)
    requires |fields| >= 2
    requires forall i :: 0 <= i < |fields| ==> Separator !in fields[i]
    requires fields[|fields| - 1] != ""
    ensures ParseCsvLine(Join(fields, Separator)) == fields
  {
    var line := Join(fields, Separator);
    assert line[|fields[0]|] == Separator;
    SplitAllJoin(fields, Separator);
  }

  /** The placeholder postal code passes `@NotBlank`. */
  lemma PlaceholderIsNotBlank()
    ensures NotBlank(UnknownPostalCode)
  {
    assert UnknownPostalCode[..0] == [];
    assert Trim(UnknownPostalCode)[..0] == [];
  }

  /** A line of five trimmed, comma-free fields (name, latitude, longitude,
      region, population) whose numbers parse, with a non-blank name and
      region and a non-negative population, is saved as exactly that city. */
  lemma WellFormedLineIsSaved(fields: seq<string>, p: Parsers, latitude: real, longitude: real, population: int)
    requires |fields| == RequiredFields
    requires forall i :: 0 <= i < |fields| ==> Separator !in fields[i] && Trim(fields[i]) == fields[i]
    requires p.parseDouble(fields[1]) == Some(latitude)
    requires p.parseDouble(fields[2]) == Some(longitude)
    requires p.parseInt(fields[4]) == Some(population)
    requires |fields[0]| > 0 && |fields[3]| > 0 && |fields[4]| > 0 && population >= 0
    ensures ProcessLine(Join(fields, Separator), p)
            == Saved(City(None, fields[0], UnknownPostalCode, latitude, longitude, population, fields[3], UnknownDepartment))
  {
    JoinedFieldsParse(fields);
    WellFormedFieldsMakeCity(fields, p, latitude, longitude, population);
  }

  lemma WellFormedFieldsMakeCity(fields: seq<string>, p: Parsers, latitude: real, longitude: real, population: int)
    requires |fields| == RequiredFields
    requires forall i :: 0 <= i < |fields| ==> Trim(fields[i]) == fields[i]
    requires p.parseDouble(fields[1]) == Some(latitude)
    requires p.parseDouble(fields[2]) == Some(longitude)
    requires p.parseInt(fields[4]) == Some(population)
    requires |fields[0]| > 0 && |fields[3]| > 0 && population >= 0
    ensures var city := City(None, fields[0], UnknownPostalCode, latitude, longitude, population, fields[3], UnknownDepartment);
            CityFromFields(fields, p) == Some(city) && Admissible(city)
  {
    PlaceholderIsNotBlank();
    assert Trim(fields[0]) == fields[0] && Trim(fields[3]) == fields[3];
  }

  /** Loading one more line adds the city that line saves, if any. */
  lemma LoadLinesStep(data: seq<string>, j: nat, p: Parsers)
    requires j < |data|
    ensures var outcome := ProcessLine(data[j], p);
            LoadLines(data[..j + 1], p) == LoadLines(data[..j], p) + if outcome.Saved? then [outcome.city] else []
  {
    assert data[..j + 1] == data[..j] + [data[j]];
    LoadLinesAppend(data[..j], [data[j]], p);
    LoadOneLine(data[j], p);
  }

  /** A single line loads the city it saves, if any. */
  lemma LoadOneLine(line: string, p: Parsers)
    ensures var outcome := ProcessLine(line, p);
            LoadLines([line], p) == if outcome.Saved? then [outcome.city] else []
  {
    var outcome := ProcessLine(line, p);
    assert Outcomes([line], p) == [outcome];
    assert [outcome][1..] == [];
  }

  /** The read loop of `run` over the data lines: each line is processed in
      turn, its city appended when it is saved, and the count of saved
      cities kept alongside. */
  method LoadDataLines(data: seq<string>, p: Parsers) returns (saved: seq<City>, loadedCount: nat)
    ensures saved == LoadLines(data, p)
    ensures loadedCount == |saved|
  {
    saved, loadedCount := [], 0;
    var j := 0;
    while j < |data|
      invariant j <= |data|
      invariant saved == LoadLines(data[..j], p)
      invariant loadedCount == |saved|
    {
      var outcome := ProcessLine(data[j], p);
      if outcome.Saved? {
        saved := saved + [outcome.city];
        loadedCount := loadedCount + 1;
      }
      LoadLinesStep(data, j, p);
      j := j + 1;
    }
    assert data[..j] == data;
  }

  /** `run`: nothing happens when the store already holds a city. Otherwise
      the first line is taken as the header (a mismatch is only logged) and
      every later line is processed; the count reported is the number of
      cities saved. */
  method Run(store: seq<City>, lines: seq<string>, p: Parsers) returns (stored: seq<City>, loadedCount: nat)
    ensures |store| > 0 ==> stored == store && loadedCount == 0
    ensures |store| == 0 && |lines| > 0 ==> stored == LoadLines(lines[1..], p)
    ensures |store| == 0 && |lines| == 0 ==> stored == []
    ensures loadedCount == |stored| - |store|
  {
    if |store| > 0 {
      return store, 0;
    }
    if |lines| == 0 {
      return [], 0;
    }
    stored, loadedCount := LoadDataLines(lines[1..], p);
  }
}
