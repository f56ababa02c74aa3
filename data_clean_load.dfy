/**
 * Location cleaning and geocoding of job rows (analysis/data_clean_load.py):
 * the database URL built from the environment, the ordered city lookup,
 * the cleaning of a frame of locations, and the acceptance of geocoder
 * answers. The environment, the `city_map` table and the geocoder are
 * parameters.
 */
module DataCleanLoad {
  import opened Wrappers
  import opened Text
  import opened Sequences

  // ---------------------------------------------------------------------
  // get_db_url
  // ---------------------------------------------------------------------

  const Scheme: string := "postgresql://"
  const MissingVariables: string := "Error: One or more database environment variables are missing."

  /** A variable that is set and non-empty (truthy in the `all([...])` test). */
  predicate Present(v: Option<string>) {
    v.Some? && v.value != ""
  }

  /**
   * `get_db_url`: the five `DB_*` environment variables, each `None` when
   * unset. Any missing or empty one is an error; otherwise the PostgreSQL
   * connection URL.
   */
  function GetDbUrl(user: Option<string>, password: Option<string>, host: Option<string>,
                    port: Option<string>, database: Option<string>): (r: Result<string, string>)
    ensures r.Failure? <==>
      !Present(user) || !Present(password) || !Present(host) || !Present(port) || !Present(database)
    ensures r.Failure? ==> r.error == MissingVariables
    ensures r.Success? ==> |r.value| > |Scheme| && r.value[..|Scheme|] == Scheme
  {
    if !(Present(user) && Present(password) && Present(host) && Present(port) && Present(database)) then
      Failure(MissingVariables)
    else
      Success(Scheme + user.value + ":" + password.value + "@" + host.value + ":" + port.value + "/" + database.value)
  }

  /** The parts of a connection URL. */
  datatype DbSettings = DbSettings(user: string, password: string, host: string, port: string, database: string)

  /** `s` split around the first `c`, or `None` when `c` does not occur. */
  function SplitAtFirst(s: string, c: char): (r: Option<(string, string)>)
    ensures r.None? <==> c !in s
    ensures r.Some? ==> s == r.value.0 + [c] + r.value.1 && c !in r.value.0
  {
    if s == [] then None
    else if s[0] == c then Some(([], s[1..]))
    else
      match SplitAtFirst(s[1..], c)
      case None => None
      case Some((a, b)) => Some(([s[0]] + a, b))
  }

  /** Splitting at the first separator finds the separator placed after a part that lacks it. */
  lemma {:induction false} SplitAtFirstJoin(a: string, c: char, b: string)
    requires c !in a
    ensures SplitAtFirst(a + [c] + b, c) == Some((a, b))
  {
    if a != [] {
      SplitAtFirstJoin(a[1..], c, b);
      assert (a + [c] + b)[0] == a[0] != c;
      assert [a[0]] + a[1..] == a;
      assert (a + [c] + b)[1..] == a[1..] + [c] + b;
    }
  }

  /** Reads the five parts back from a URL of the form `GetDbUrl` produces. */
  function ParseDbUrl(url: string): Option<DbSettings> {
    if |url| < |Scheme| || url[..|Scheme|] != Scheme then None
    else
      match SplitAtFirst(url[|Scheme|..], ':')
      case None => None
      case Some((user, r1)) =>
        match SplitAtFirst(r1, '@')
        case None => None
        case Some((password, r2)) =>
          match SplitAtFirst(r2, ':')
          case None => None
          case Some((host, r3)) =>
            match SplitAtFirst(r3, '/')
            case None => None
            case Some((port, database)) => Some(DbSettings(user, password, host, port, database))
  }

  /**
   * The URL determines the five variables it was built from, as long as the
   * user and host hold no `:`, the password no `@` and the port no `/`.
   */
  lemma GetDbUrlParses(user: string, password: string, host: string, port: string, database: string)
    requires GetDbUrl(Some(user), Some(password), Some(host), Some(port), Some(database)).Success?
    requires ':' !in user && '@' !in password && ':' !in host && '/' !in port
    ensures ParseDbUrl(GetDbUrl(Some(user), Some(password), Some(host), Some(port), Some(database)).value)
            == Some(DbSettings(user, password, host, port, database))
  {
    var url := GetDbUrl(Some(user), Some(password), Some(host), Some(port), Some(database)).value;
    var r3 := port + "/" + database;
    var r2 := host + ":" + r3;
    var r1 := password + "@" + r2;
    assert url == Scheme + (user + [':'] + r1);
    assert url[|Scheme|..] == user + [':'] + r1;
    SplitAtFirstJoin(user, ':', r1);
    SplitAtFirstJoin(password, '@', r2);
    SplitAtFirstJoin(host, ':', r3);
    SplitAtFirstJoin(port, '/', database);
  }

  // ---------------------------------------------------------------------
  // map_city
  // ---------------------------------------------------------------------

  /**
   * The `city_map` table in its iteration order: pairs of a substring to
   * look for and the city it stands for.
   */
  type CityMap = seq<(string, string)>

  /** `cityMap[j]` is the first entry whose key occurs in `location`. */
  predicate FirstMatch(cityMap: CityMap, location: string, j: int) {
    && 0 <= j < |cityMap|
    && Contains(location, cityMap[j].0)
    && forall i :: 0 <= i < j ==> !Contains(location, cityMap[i].0)
  }

  /**
   * `map_city`: the city of the first entry whose key is a substring of
   * `location`, or `None` when there is none. The location is used as
   * given, neither lower-cased nor stripped.
   */
  function MapCity(cityMap: CityMap, location: string): (r: Option<string>)
    ensures r.None? <==> forall j :: 0 <= j < |cityMap| ==> !Contains(location, cityMap[j].0)
    ensures r.Some? ==> exists j :: FirstMatch(cityMap, location, j) && r.value == cityMap[j].1
  {
    if cityMap == [] then None
    else if Contains(location, cityMap[0].0) then
      assert FirstMatch(cityMap, location, 0);
      Some(cityMap[0].1)
    else
      var r := MapCity(cityMap[1..], location);
      if r.Some? then
        var j :| FirstMatch(cityMap[1..], location, j) && r.value == cityMap[1..][j].1;
        assert FirstMatch(cityMap, location, j + 1);
        r
      else
        r
  }

  /** Entries after the first match are never consulted. */
  lemma {:induction false} MapCityAppend(first: CityMap, rest: CityMap, location: string)
    ensures MapCity(first + rest, location) ==
            if MapCity(first, location).Some? then MapCity(first, location) else MapCity(rest, location)
  {
    if first != [] {
      MapCityAppend(first[1..], rest, location);
      assert (first + rest)[0] == first[0];
      assert (first + rest)[1..] == first[1..] + rest;
    } else {
      assert first + rest == rest;
    }
  }

  /** The lookup is by exact substring: an upper-case location misses a lower-case key. */
  lemma MapCityCaseSensitive()
    ensures MapCity([("london", "London")], "London") == None
  {
    var s := "London";
    forall i | 0 <= i <= |s| - 6 ensures !OccursAt(s, "london", i) {
      assert s[0] != 'l';
    }
  }

  // ---------------------------------------------------------------------
  // clean_location_data
  // ---------------------------------------------------------------------

  /** A row of the `id, location` query. */
  datatype LocationRow = LocationRow(id: string, location: string)

  /** A row of the cleaned frame: the location lower-cased and its mapped city. */
  datatype CleanedRow = CleanedRow(id: string, location: string, cleanedLocation: Option<string>)

  /** A row whose location strips to exactly `UK` (case-sensitive) is too generic to keep. */
  predicate IsGenericRow(row: LocationRow) {
    Strip(row.location) == "UK"
  }

  /** The rows `clean_location_data` keeps. */
  predicate KeepRow(row: LocationRow) {
    !IsGenericRow(row)
  }

  /**
   * The column assignments for one surviving row: the id is kept, the
   * location is lower-cased, and the city is looked up in the lower-cased
   * location, so it is unset exactly when no key of the table occurs there.
   */
  function CleanRow(cityMap: CityMap, row: LocationRow): (c: CleanedRow)
    ensures c.id == row.id
    ensures c.location == Lower(row.location)
    ensures |c.location| == |row.location| && forall i :: 0 <= i < |c.location| ==> !IsUpper(c.location[i])
    ensures c.cleanedLocation.None? <==> forall j :: 0 <= j < |cityMap| ==> !Contains(c.location, cityMap[j].0)
    ensures c.cleanedLocation.Some? ==>
      exists j :: FirstMatch(cityMap, c.location, j) && c.cleanedLocation.value == cityMap[j].1
  {
    var lowered := Lower(row.location);
    CleanedRow(row.id, lowered, MapCity(cityMap, lowered))
  }

  /**
   * `clean_location_data`: drops the generic `UK` rows, lower-cases the
   * location of the rest and maps it to a city, keeping the row order.
   */
  function CleanLocationData(cityMap: CityMap, rows: seq<LocationRow>): (cleaned: seq<CleanedRow>)
    ensures |cleaned| <= |rows|
    ensures forall i :: 0 <= i < |cleaned| ==> cleaned[i].cleanedLocation == MapCity(cityMap, cleaned[i].location)
  {
    MapSeq(Filter(rows, KeepRow), row => CleanRow(cityMap, row))
  }

  /** Every cleaned location is unset or one of the cities of the table. */
  lemma CleanedLocationIsCity(cityMap: CityMap, rows: seq<LocationRow>, x: CleanedRow)
    requires x in CleanLocationData(cityMap, rows)
    ensures x.cleanedLocation.None? || exists j :: 0 <= j < |cityMap| && x.cleanedLocation.value == cityMap[j].1
  {
    CleanLocationDataRows(cityMap, rows, x);
  }

  /** Cleaning works row by row, so it distributes over concatenation and keeps the order. */
  lemma CleanLocationDataAppend(cityMap: CityMap, a: seq<LocationRow>, b: seq<LocationRow>)
    ensures CleanLocationData(cityMap, a + b) == CleanLocationData(cityMap, a) + CleanLocationData(cityMap, b)
  {
    FilterAppend(a, b, KeepRow);
    MapSeqAppend(Filter(a, KeepRow), Filter(b, KeepRow), row => CleanRow(cityMap, row));
  }

  /**
   * The cleaned rows are exactly the cleaned forms of the rows that are not
   * generic `UK`; the generic rows are the only ones removed.
   */
  lemma CleanLocationDataRows(cityMap: CityMap, rows: seq<LocationRow>, x: CleanedRow)
    ensures x in CleanLocationData(cityMap, rows) <==>
            exists row :: row in rows && KeepRow(row) && x == CleanRow(cityMap, row)
  {
    var kept := Filter(rows, KeepRow);
    var cleaned := CleanLocationData(cityMap, rows);
    if x in cleaned {
      var i :| 0 <= i < |cleaned| && cleaned[i] == x;
      assert kept[i] in rows && KeepRow(kept[i]);
    }
    if exists row :: row in rows && KeepRow(row) && x == CleanRow(cityMap, row) {
      var row :| row in rows && KeepRow(row) && x == CleanRow(cityMap, row);
      FilterCount(rows, KeepRow, row);
      assert Count(rows, row) > 0;
      var i :| 0 <= i < |kept| && kept[i] == row;
      assert cleaned[i] == x;
    }
  }

  /** The number of rows that strip to `UK`. */
  function GenericCount(rows: seq<LocationRow>): (n: nat)
    ensures n <= |rows|
  {
    |Filter(rows, IsGenericRow)|
  }

  /** One row is dropped for each generic `UK` row and for nothing else. */
  lemma CleanLocationDataLength(cityMap: CityMap, rows: seq<LocationRow>)
    ensures |CleanLocationData(cityMap, rows)| == |rows| - GenericCount(rows)
  {
    FilterPartition(rows, KeepRow, IsGenericRow);
  }

  /**
   * A padded `UK` row is dropped, a regional row is mapped through its
   * lower-cased form, and a lower-case `uk` row survives unmapped.
   */
  lemma CleanLocationDataExample()
    ensures CleanLocationData([("manchester", "Manchester")],
              [LocationRow("1", "  UK  "), LocationRow("2", "Greater Manchester, England"), LocationRow("3", "uk")])
            == [CleanedRow("2", "greater manchester, england", Some("Manchester")),
                CleanedRow("3", "uk", None)]
  {
    var cityMap := [("manchester", "Manchester")];
    var rows := [LocationRow("1", "  UK  "), LocationRow("2", "Greater Manchester, England"), LocationRow("3", "uk")];
    PaddedUKIsGeneric();
    RegionalRowMapped();
    LowerCaseUKKept();
    assert rows == [rows[0]] + [rows[1]] + [rows[2]];
    FilterAppend([rows[0]] + [rows[1]], [rows[2]], KeepRow);
    FilterAppend([rows[0]], [rows[1]], KeepRow);
    assert Filter(rows, KeepRow) == [rows[1], rows[2]];
  }

  lemma PaddedUKIsGeneric()
    ensures IsGenericRow(LocationRow("1", "  UK  "))
  {
    LStripPadded();
    RStripPadded();
  }

  lemma LStripPadded()
    ensures LStrip("  UK  ") == "UK  "
  {
  }

  lemma RStripPadded()
    ensures RStrip("UK  ") == "UK"
  {
  }

  lemma RegionalRowMapped()
    ensures KeepRow(LocationRow("2", "Greater Manchester, England"))
    ensures CleanRow([("manchester", "Manchester")], LocationRow("2", "Greater Manchester, England"))
            == CleanedRow("2", "greater manchester, england", Some("Manchester"))
  {
    var s := "Greater Manchester, England";
    StripUnpadded(s);
    LowerRegional();
    assert OccursAt("greater manchester, england", "manchester", 8);
  }

  lemma LowerRegional()
    ensures Lower("Greater Manchester, England") == "greater manchester, england"
  {
  }

  lemma LowerCaseUKKept()
    ensures KeepRow(LocationRow("3", "uk"))
    ensures CleanRow([("manchester", "Manchester")], LocationRow("3", "uk")) == CleanedRow("3", "uk", None)
  {
    assert LStrip("uk") == "uk";
    assert RStrip("uk") == "uk";
    assert Lower("uk") == "uk";
  }

  // ---------------------------------------------------------------------
  // add_geocoordinates_opencage
  // ---------------------------------------------------------------------

  /** The `components` object of a geocoder candidate. */
  datatype Components = Components(countryCode: Option<string>)

  /** The `geometry` object of a geocoder candidate; either key may be missing. */
  datatype Geometry = Geometry(lat: Option<real>, lng: Option<real>)

  /** One candidate of a geocoder answer; either object may be missing. */
  datatype Candidate = Candidate(components: Option<Components>, geometry: Option<Geometry>)

  /**
   * What one geocoder call gives: an exception, or its list of candidates
   * (an empty list also stands for a `None` answer).
   */
  datatype GeocodeOutcome = Raised | Found(candidates: seq<Candidate>)

  /** A row of the cleaned-location query. */
  datatype GeoRow = GeoRow(id: string, cleanedLocation: Option<string>)

  /** A row of the geocoded frame. */
  datatype GeocodedRow = GeocodedRow(id: string, cleanedLocation: Option<string>,
                                     latitude: Option<real>, longitude: Option<real>)

  /** `result[0].get("components", {}).get("country_code", "")` */
  function CountryCode(c: Candidate): string {
    match c.components
    case None => ""
    case Some(components) => components.countryCode.GetOr("")
  }

  /** `result[0]["geometry"]` holds both `lat` and `lng`, so reading them raises nothing. */
  predicate HasCoordinates(c: Candidate) {
    c.geometry.Some? && c.geometry.value.lat.Some? && c.geometry.value.lng.Some?
  }

  /** The geocoder answer is accepted: its first candidate is in Great Britain and has coordinates. */
  predicate AcceptedAnswer(outcome: GeocodeOutcome) {
    && outcome.Found?
    && |outcome.candidates| > 0
    && CountryCode(outcome.candidates[0]) == "gb"
    && HasCoordinates(outcome.candidates[0])
  }

  /**
   * `add_geocoordinates_opencage`: a copy of the rows with latitude and
   * longitude set, row by row, from the geocoder's first candidate when it
   * lies in Great Britain. A failed call, an empty answer, another country
   * or a missing coordinate leaves both unset and moves on to the next row.
   * `geocode(i, location)` is the outcome of the call made for row `i`: one
   * call per row, so two rows with the same location may get different
   * outcomes (one rate-limited, say, and the other answered).
   */
  method AddGeocoordinates(rows: seq<GeoRow>, geocode: (nat, Option<string>) -> GeocodeOutcome)
    returns (geocoded: seq<GeocodedRow>)
    ensures |geocoded| == |rows|
    ensures forall i :: 0 <= i < |rows| ==>
      geocoded[i].id == rows[i].id && geocoded[i].cleanedLocation == rows[i].cleanedLocation
    ensures forall i :: 0 <= i < |rows| ==>
      (geocoded[i].latitude.Some? <==> geocoded[i].longitude.Some?)
    ensures forall i :: 0 <= i < |rows| ==>
      (geocoded[i].latitude.Some? <==> AcceptedAnswer(geocode(i, rows[i].cleanedLocation)))
    ensures forall i :: 0 <= i < |rows| && AcceptedAnswer(geocode(i, rows[i].cleanedLocation)) ==>
      var first := geocode(i, rows[i].cleanedLocation).candidates[0];
      geocoded[i].latitude == first.geometry.value.lat && geocoded[i].longitude == first.geometry.value.lng
  {
    var frame := new GeocodedRow[|rows|](i requires 0 <= i < |rows| =>
      GeocodedRow(rows[i].id, rows[i].cleanedLocation, None, None));
    for index := 0 to |rows|
      invariant forall i :: 0 <= i < |rows| ==>
        frame[i].id == rows[i].id && frame[i].cleanedLocation == rows[i].cleanedLocation
      invariant forall i :: index <= i < |rows| ==> frame[i].latitude.None? && frame[i].longitude.None?
      invariant forall i :: 0 <= i < index ==>
        (frame[i].latitude.Some? <==> frame[i].longitude.Some?) &&
        (frame[i].latitude.Some? <==> AcceptedAnswer(geocode(i, rows[i].cleanedLocation)))
      invariant forall i :: 0 <= i < index && AcceptedAnswer(geocode(i, rows[i].cleanedLocation)) ==>
        var first := geocode(i, rows[i].cleanedLocation).candidates[0];
        frame[i].latitude == first.geometry.value.lat && frame[i].longitude == first.geometry.value.lng
    {
      var location := frame[index].cleanedLocation;
      var result := geocode(index, location);
      if result.Found? && |result.candidates| > 0 {
        var countryCode := CountryCode(result.candidates[0]);
        if countryCode == "gb" {
          var geometry := result.candidates[0].geometry;
          if geometry.Some? && geometry.value.lat.Some? && geometry.value.lng.Some? {
            var lat := geometry.value.lat;
            var lng := geometry.value.lng;
            frame[index] := frame[index].(latitude := lat, longitude := lng);
          }
        }
      }
    }
    geocoded := frame[..];
  }

  /** Only the first candidate decides: later candidates never change the answer. */
  lemma AcceptedAnswerFirstOnly(first: Candidate, others: seq<Candidate>)
    ensures AcceptedAnswer(Found([first] + others)) == AcceptedAnswer(Found([first]))
  {
  }

  /** A candidate without a country code is not accepted, whatever its coordinates. */
  lemma MissingCountryRejected(geometry: Option<Geometry>, others: seq<Candidate>)
    ensures !AcceptedAnswer(Found([Candidate(None, geometry)] + others))
    ensures !AcceptedAnswer(Found([Candidate(Some(Components(None)), geometry)] + others))
  {
  }
}
