/**
 * The weather agent's decision logic: which geocoder field names the
 * district and how it is cleaned (`get_district_from_coordinates`), the
 * missing-key short-circuit of `get_live_weather`, the season-to-column
 * mapping and district key of `get_seasonal_rainfall`, and the status merge
 * of `get_combined_weather_data`.
 *
 * The two web services are not called: the parsed reply of each is an
 * input, `None` standing for a request that raised `RequestException`.
 */
module WeatherAgent {
  import opened Wrappers
  import opened PyText
  import opened Lookup

  // ---------------------------------------------------------------------
  // Reverse geocoding
  // ---------------------------------------------------------------------

  /**
   * The fields of the geocoder's `address` object that are read. A field
   * the reply lacks, or a reply without `address`, is `None`.
   */
  datatype Address = Address(
    stateDistrict: Option<string>, county: Option<string>, region: Option<string>, state: Option<string>)

  /** Python truthiness of an optional string: present and non-empty. */
  predicate Truthy(v: Option<string>) {
    v.Some? && v.value != ""
  }

  /**
   * `state_district or county or region`: the first truthy operand, or the
   * last operand as it is when none is truthy.
   */
  function PickDistrict(a: Address): (r: Option<string>)
    ensures Truthy(r) <==> Truthy(a.stateDistrict) || Truthy(a.county) || Truthy(a.region)
    ensures Truthy(a.stateDistrict) ==> r == a.stateDistrict
    ensures !Truthy(a.stateDistrict) && Truthy(a.county) ==> r == a.county
    ensures !Truthy(a.stateDistrict) && !Truthy(a.county) ==> r == a.region
  {
    if Truthy(a.stateDistrict) then a.stateDistrict
    else if Truthy(a.county) then a.county
    else a.region
  }

  const DistrictSuffix := " District"

  predicate EndsWithDistrict(t: string) {
    |DistrictSuffix| <= |t| && t[|t| - |DistrictSuffix|..] == DistrictSuffix
  }

  /**
   * `re.sub(r" District$", "", district.strip().title())`. The pattern is
   * case-sensitive and is applied after title-casing; the result is not
   * stripped again. Since the stripped text has no trailing newline, `$`
   * matches only at the very end, so at most one occurrence goes.
   */
  function CleanGeoDistrict(district: string): (r: string)
    ensures EndsWithDistrict(StripTitle(district)) ==> r + DistrictSuffix == StripTitle(district)
    ensures !EndsWithDistrict(StripTitle(district)) ==> r == StripTitle(district)
  {
    var t := StripTitle(district);
    if EndsWithDistrict(t) then
      var n := |t| - |DistrictSuffix|;
      assert t[..n] + t[n..] == t;
      t[..n]
    else t
  }

  /** A name whose cleaned form ends in `" District"` loses exactly that. */
  lemma CleanGeoDistrictDrops(district: string, base: string)
    requires StripTitle(district) == base + DistrictSuffix
    ensures CleanGeoDistrict(district) == base
  {
    var t := StripTitle(district);
    assert t[|t| - |DistrictSuffix|..] == DistrictSuffix;
    assert t[..|t| - |DistrictSuffix|] == base;
  }

  /** The pair `(district, state)` that `get_district_from_coordinates` returns. */
  datatype Place = Place(district: Option<string>, state: Option<string>)

  /** `get_district_from_coordinates`, given the parsed reply (`None` when the request failed). */
  function GetDistrictFromCoordinates(reply: Option<Address>): (p: Place)
    ensures reply.None? ==> p == Place(None, None)
    ensures reply.Some? ==> p.state == reply.value.state
    ensures reply.Some? && Truthy(PickDistrict(reply.value)) ==>
      p.district == Some(CleanGeoDistrict(PickDistrict(reply.value).value))
    ensures reply.Some? && !Truthy(PickDistrict(reply.value)) ==> p.district == PickDistrict(reply.value)
  {
    match reply
    case None => Place(None, None)
    case Some(a) =>
      var district := PickDistrict(a);
      if Truthy(district) then Place(Some(CleanGeoDistrict(district.value)), a.state)
      else Place(district, a.state)
  }

  /** The cleanup removes the literal `" District"` or nothing, and only from the end. */
  lemma GeoCleanupRemovesOnlySuffix(district: string)
    ensures var t := StripTitle(district);
      CleanGeoDistrict(district) == t || CleanGeoDistrict(district) + DistrictSuffix == t
    ensures var t := StripTitle(district);
      |CleanGeoDistrict(district)| <= |t| && CleanGeoDistrict(district) == t[..|CleanGeoDistrict(district)|]
  {
    var t := StripTitle(district);
    var r := CleanGeoDistrict(district);
    if EndsWithDistrict(t) {
      assert t == r + DistrictSuffix;
      assert t[..|r|] == r;
    } else {
      assert t[..|t|] == t;
    }
  }

  /** A geocoded district is only ever found in the reply's three district fields. */
  lemma GeoDistrictNeedsAField(reply: Option<Address>)
    ensures Truthy(GetDistrictFromCoordinates(reply).district) ==>
      reply.Some? && (Truthy(reply.value.stateDistrict) || Truthy(reply.value.county) || Truthy(reply.value.region))
  {
  }

  /**
   * The fallback looks at truthiness before cleaning, so a whitespace-only
   * `state_district` hides a usable `county`: the cleaned district is empty.
   */
  lemma BlankFieldHidesFallback()
    ensures GetDistrictFromCoordinates(Some(Address(Some("  "), Some("Nashik"), None, Some("Maharashtra"))))
         == Place(Some(""), Some("Maharashtra"))
  {
    assert Strip("  ") == "";
  }

  // ---------------------------------------------------------------------
  // Live weather
  // ---------------------------------------------------------------------

  const StatusOK := "OK"
  const StatusAPIKeyMissing := "APIKeyMissing"
  const StatusAPIError := "APIError"
  const StatusRainfallDataNotFound := "RainfallDataNotFound"

  /** The `main.temp` and `main.humidity` fields of the OpenWeatherMap reply, when present. */
  datatype WeatherReply = WeatherReply(temp: Option<real>, humidity: Option<real>)

  /** The dict `get_live_weather` returns. */
  datatype LiveWeather = LiveWeather(temp: Option<real>, humidity: Option<real>, status: string)

  /**
   * `get_live_weather`. `apiKey` is `OPENWEATHERMAP_API_KEY` from the
   * environment; `reply` is the parsed answer, `None` when the request failed.
   */
  function GetLiveWeather(apiKey: Option<string>, reply: Option<WeatherReply>): (w: LiveWeather)
    ensures !Truthy(apiKey) ==> w == LiveWeather(None, None, StatusAPIKeyMissing)
    ensures Truthy(apiKey) && reply.None? ==> w == LiveWeather(None, None, StatusAPIError)
    ensures Truthy(apiKey) && reply.Some? ==>
      w == LiveWeather(reply.value.temp, reply.value.humidity, StatusOK)
  {
    if !Truthy(apiKey) then LiveWeather(None, None, StatusAPIKeyMissing)
    else match reply
      case None => LiveWeather(None, None, StatusAPIError)
      case Some(data) => LiveWeather(data.temp, data.humidity, StatusOK)
  }

  // ---------------------------------------------------------------------
  // Seasonal rainfall
  // ---------------------------------------------------------------------

  datatype Season = Kharif | Rabi | Zaid

  /** The `if`/`elif` on `season.lower()`; `None` is the "Invalid season" branch. */
  function ParseSeason(season: string): (r: Option<Season>)
    ensures r == Some(Kharif) <==> Lower(season) == "kharif"
    ensures r == Some(Rabi) <==> Lower(season) == "rabi"
    ensures r == Some(Zaid) <==> Lower(season) == "zaid"
    ensures r.None? <==> Lower(season) !in ["kharif", "rabi", "zaid"]
    ensures r.Some? ==> Lower(season) == SeasonWord(r.value)
  {
    var l := Lower(season);
    if l == "kharif" then Some(Kharif)
    else if l == "rabi" then Some(Rabi)
    else if l == "zaid" then Some(Zaid)
    else None
  }

  /** The lower-case word the `if`/`elif` compares `season.lower()` with. */
  function SeasonWord(season: Season): string {
    match season
    case Kharif => "kharif"
    case Rabi => "rabi"
    case Zaid => "zaid"
  }

  /** The column each season selects: `Avg_Rainfall_<Season>_mm`, named after the matched word. */
  function RainfallColumn(season: Season): (col: string)
    ensures |col| > 16 && col[..13] == "Avg_Rainfall_" && col[|col| - 3..] == "_mm"
    ensures Lower(col[13..|col| - 3]) == SeasonWord(season)
  {
    match season
    case Kharif => "Avg_Rainfall_Kharif_mm"
    case Rabi => "Avg_Rainfall_Rabi_mm"
    case Zaid => "Avg_Rainfall_Zaid_mm"
  }

  /**
   * One row of `seasonal_rainfall`: the `District` column, and the other
   * columns by name. `District` and each average may be SQL NULL.
   */
  datatype RainRow = RainRow(district: Option<string>, columns: map<string, Option<real>>)

  /**
   * `result[rainfall_col]`: the value of the season's column, read by its
   * name. A table without that column makes the `SELECT` raise
   * `sqlite3.Error`, which the lookup answers with `None`.
   */
  function RainfallIn(row: RainRow, season: Season): Option<real> {
    var col := RainfallColumn(season);
    if col in row.columns then row.columns[col] else None
  }

  /** `WHERE UPPER(District) = UPPER(?)`. */
  predicate RainRowMatches(row: RainRow, districtKey: string) {
    row.district.Some? && Upper(row.district.value) == Upper(districtKey)
  }

  /** The `WHERE` clause as a test on one row. */
  function RainClause(districtKey: string): RainRow -> bool {
    row => RainRowMatches(row, districtKey)
  }

  /** The district is compared ignoring ASCII letter case. */
  lemma RainRowMatchIgnoresCase(row: RainRow, k1: string, k2: string)
    requires Upper(k1) == Upper(k2)
    ensures RainRowMatches(row, k1) == RainRowMatches(row, k2)
  {
  }

  /**
   * `get_seasonal_rainfall`. `db` is `None` when the database is missing,
   * cannot be opened or the query raises. The database is consulted before
   * the season is checked, and a NULL in the selected column also gives `None`.
   */
  function GetSeasonalRainfall(db: Option<seq<RainRow>>, district: string, season: string): (r: Option<real>)
    ensures db.None? || ParseSeason(season).None? ==> r.None?
    ensures db.Some? && ParseSeason(season).Some? ==>
      if exists i :: 0 <= i < |db.value| && RainRowMatches(db.value[i], StripTitle(district))
      then exists i :: IsFirst(db.value, RainClause(StripTitle(district)), i)
                       && r == RainfallIn(db.value[i], ParseSeason(season).value)
      else r.None?
  {
    match db
    case None => None
    case Some(rows) =>
      var key := StripTitle(district);
      match ParseSeason(season)
      case None => None
      case Some(s) =>
        var i := First(rows, RainClause(key));
        if i < |rows| then RainfallIn(rows[i], s) else None
  }

  /** The season is matched ignoring ASCII case: `"KHARIF"`, `"Kharif"` and `"kharif"` agree. */
  lemma SeasonIgnoresCase(season: string)
    ensures ParseSeason(Upper(season)) == ParseSeason(season)
  {
    var u := Upper(season);
    forall i | 0 <= i < |season| ensures Lower(u)[i] == Lower(season)[i] {
      assert u[i] == ToUpper(season[i]);
    }
    assert Lower(u) == Lower(season);
  }

  /** The three seasons select three different columns. */
  lemma SeasonColumnsDistinct(s1: Season, s2: Season)
    ensures RainfallColumn(s1) == RainfallColumn(s2) <==> s1 == s2
  {
    if s1 != s2 {
      assert RainfallColumn(s1)[13] != RainfallColumn(s2)[13];
    }
  }

  /**
   * The lookup depends on the district only through its upper-cased,
   * stripped form: title-casing the key has no effect on which row matches.
   */
  lemma RainfallIgnoresDistrictCase(db: Option<seq<RainRow>>, d1: string, d2: string, season: string)
    requires Upper(Strip(d1)) == Upper(Strip(d2))
    ensures GetSeasonalRainfall(db, d1, season) == GetSeasonalRainfall(db, d2, season)
  {
    UpperOfTitle(Strip(d1));
    UpperOfTitle(Strip(d2));
    assert Upper(StripTitle(d1)) == Upper(StripTitle(d2));
    if db.Some? {
      var rows := db.value;
      forall j | 0 <= j < |rows|
        ensures RainClause(StripTitle(d1))(rows[j]) == RainClause(StripTitle(d2))(rows[j])
      {
        RainRowMatchIgnoresCase(rows[j], StripTitle(d1), StripTitle(d2));
      }
      SameMatchesSameFirst(rows, RainClause(StripTitle(d1)), RainClause(StripTitle(d2)), 0);
    }
  }

  /**
   * Only the selected column is read: tables that agree on `District` and
   * on the season's column give the same answer, whatever their other
   * columns hold.
   */
  lemma OnlySelectedColumnIsRead(rows1: seq<RainRow>, rows2: seq<RainRow>, district: string, season: string)
    requires ParseSeason(season).Some?
    requires |rows1| == |rows2|
    requires forall j :: 0 <= j < |rows1| ==> rows1[j].district == rows2[j].district
    requires var col := RainfallColumn(ParseSeason(season).value);
      forall j :: 0 <= j < |rows1| ==>
        (col in rows1[j].columns <==> col in rows2[j].columns)
        && (col in rows1[j].columns ==> rows1[j].columns[col] == rows2[j].columns[col])
    ensures GetSeasonalRainfall(Some(rows1), district, season) == GetSeasonalRainfall(Some(rows2), district, season)
  {
    var key := StripTitle(district);
    var s := ParseSeason(season).value;
    var i := First(rows1, RainClause(key));
    forall j | 0 <= j < |rows1| ensures RainClause(key)(rows1[j]) == RainClause(key)(rows2[j]) {
    }
    assert First(rows2, RainClause(key)) == i by {
      if i < |rows1| {
        FirstIsUnique(rows2, RainClause(key), i);
      }
    }
    if i < |rows1| {
      assert RainfallIn(rows1[i], s) == RainfallIn(rows2[i], s);
    }
  }

  /** Writing `value` into column `col` of every row. */
  function SetColumn(rows: seq<RainRow>, col: string, value: Option<real>): (r: seq<RainRow>)
    ensures |r| == |rows|
    ensures forall j :: 0 <= j < |rows| ==>
      r[j].district == rows[j].district && r[j].columns == rows[j].columns[col := value]
  {
    seq(|rows|, j requires 0 <= j < |rows| => rows[j].(columns := rows[j].columns[col := value]))
  }

  /**
   * The seasons' columns are independent: overwriting another season's
   * column in the whole table never changes this season's answer.
   */
  lemma OtherSeasonColumnIgnored(rows: seq<RainRow>, district: string, season: string, other: Season, value: Option<real>)
    requires ParseSeason(season).Some? && ParseSeason(season).value != other
    ensures GetSeasonalRainfall(Some(SetColumn(rows, RainfallColumn(other), value)), district, season)
         == GetSeasonalRainfall(Some(rows), district, season)
  {
    var s := ParseSeason(season).value;
    SeasonColumnsDistinct(s, other);
    OnlySelectedColumnIsRead(SetColumn(rows, RainfallColumn(other), value), rows, district, season);
  }

  /** Once the season's column holds `value` in every row, a matching district always answers `value`. */
  lemma SelectedColumnDecides(rows: seq<RainRow>, district: string, season: string, value: Option<real>)
    requires ParseSeason(season).Some?
    ensures var r := GetSeasonalRainfall(Some(SetColumn(rows, RainfallColumn(ParseSeason(season).value), value)), district, season);
      r == if exists i :: 0 <= i < |rows| && RainRowMatches(rows[i], StripTitle(district)) then value else None
  {
    var col := RainfallColumn(ParseSeason(season).value);
    var t := SetColumn(rows, col, value);
    var key := StripTitle(district);
    forall j | 0 <= j < |rows| ensures RainRowMatches(t[j], key) == RainRowMatches(rows[j], key) {
    }
  }

  // ---------------------------------------------------------------------
  // The combined endpoint
  // ---------------------------------------------------------------------

  /** `WeatherDataOutput`. */
  datatype WeatherOutput = WeatherOutput(
    state: Option<string>, district: Option<string>,
    temperatureCelsius: Option<real>, humidityPercent: Option<real>,
    avgSeasonalRainfallMm: Option<real>, status: string)

  const NotFoundDetail := "District not found for given coordinates"

  /** The status merge: a non-OK weather status wins, then missing rainfall, else `"OK"`. */
  function MergeStatus(weatherStatus: string, rainfall: Option<real>): (status: string)
    ensures status == StatusOK <==> weatherStatus == StatusOK && rainfall.Some?
    ensures weatherStatus != StatusOK ==> status == weatherStatus
    ensures weatherStatus == StatusOK && rainfall.None? ==> status == StatusRainfallDataNotFound
  {
    if weatherStatus != StatusOK then weatherStatus
    else if rainfall.None? then StatusRainfallDataNotFound
    else StatusOK
  }

  /**
   * `get_combined_weather_data`. `geoReply` and `weatherReply` are the two
   * parsed web replies, `apiKey` the environment's key, `rainDb` the rainfall
   * table. A falsy district raises HTTP 404.
   */
  function GetCombinedWeatherData(
    geoReply: Option<Address>, apiKey: Option<string>, weatherReply: Option<WeatherReply>,
    rainDb: Option<seq<RainRow>>, season: string): (r: Result<WeatherOutput, HttpError>)
    ensures !Truthy(GetDistrictFromCoordinates(geoReply).district) <==> r.Failure?
    ensures r.Failure? ==> r.error == HttpError(404, NotFoundDetail)
    ensures r.Success? ==>
      var place := GetDistrictFromCoordinates(geoReply);
      var weather := GetLiveWeather(apiKey, weatherReply);
      var rainfall := GetSeasonalRainfall(rainDb, place.district.value, season);
      r.value == WeatherOutput(place.state, place.district, weather.temp, weather.humidity,
                               rainfall, MergeStatus(weather.status, rainfall))
  {
    var place := GetDistrictFromCoordinates(geoReply);
    if !Truthy(place.district) then Failure(HttpError(404, NotFoundDetail))
    else
      var weather := GetLiveWeather(apiKey, weatherReply);
      var rainfall := GetSeasonalRainfall(rainDb, place.district.value, season);
      Success(WeatherOutput(place.state, place.district, weather.temp, weather.humidity,
                            rainfall, MergeStatus(weather.status, rainfall)))
  }

  /** The answer carries one of exactly four statuses. */
  lemma StatusIsOneOfFour(
    geoReply: Option<Address>, apiKey: Option<string>, weatherReply: Option<WeatherReply>,
    rainDb: Option<seq<RainRow>>, season: string)
    requires Truthy(GetDistrictFromCoordinates(geoReply).district)
    ensures GetCombinedWeatherData(geoReply, apiKey, weatherReply, rainDb, season).value.status
      in {StatusOK, StatusAPIKeyMissing, StatusAPIError, StatusRainfallDataNotFound}
  {
  }

  /** `"OK"` exactly when the key is set, the weather request succeeded and rainfall was found. */
  lemma OkMeansAllSourcesAnswered(
    geoReply: Option<Address>, apiKey: Option<string>, weatherReply: Option<WeatherReply>,
    rainDb: Option<seq<RainRow>>, season: string)
    requires Truthy(GetDistrictFromCoordinates(geoReply).district)
    ensures var out := GetCombinedWeatherData(geoReply, apiKey, weatherReply, rainDb, season).value;
      out.status == StatusOK <==> Truthy(apiKey) && weatherReply.Some? && out.avgSeasonalRainfallMm.Some?
  {
  }

  /**
   * An invalid season is not reported as such: with working weather it
   * surfaces as `"RainfallDataNotFound"`, exactly like a district missing from
   * the table.
   */
  lemma InvalidSeasonIsRainfallNotFound(
    geoReply: Option<Address>, apiKey: Option<string>, weatherReply: Option<WeatherReply>,
    rainDb: Option<seq<RainRow>>, season: string)
    requires Truthy(GetDistrictFromCoordinates(geoReply).district)
    requires ParseSeason(season).None? && Truthy(apiKey) && weatherReply.Some?
    ensures var out := GetCombinedWeatherData(geoReply, apiKey, weatherReply, rainDb, season).value;
      out.avgSeasonalRainfallMm.None? && out.status == StatusRainfallDataNotFound
    ensures GetCombinedWeatherData(geoReply, apiKey, weatherReply, rainDb, season)
         == GetCombinedWeatherData(geoReply, apiKey, weatherReply, Some([]), "kharif")
  {
  }

  /**
   * Without a key the weather reply is never looked at: the answer is the
   * same whatever the weather service would have said, and reports the
   * missing key even when rainfall is also missing.
   */
  lemma MissingKeyShortCircuits(
    geoReply: Option<Address>, apiKey: Option<string>, w1: Option<WeatherReply>, w2: Option<WeatherReply>,
    rainDb: Option<seq<RainRow>>, season: string)
    requires !Truthy(apiKey)
    ensures GetCombinedWeatherData(geoReply, apiKey, w1, rainDb, season)
         == GetCombinedWeatherData(geoReply, apiKey, w2, rainDb, season)
    ensures GetCombinedWeatherData(geoReply, apiKey, w1, rainDb, season).Success? ==>
      var out := GetCombinedWeatherData(geoReply, apiKey, w1, rainDb, season).value;
      out.status == StatusAPIKeyMissing && out.temperatureCelsius.None? && out.humidityPercent.None?
  {
  }

  /** Without a district the request fails with 404 whatever the weather, key, table or season. */
  lemma NoDistrictIsNotFound(
    geoReply: Option<Address>, k1: Option<string>, k2: Option<string>,
    w1: Option<WeatherReply>, w2: Option<WeatherReply>,
    db1: Option<seq<RainRow>>, db2: Option<seq<RainRow>>, s1: string, s2: string)
    requires !Truthy(GetDistrictFromCoordinates(geoReply).district)
    ensures GetCombinedWeatherData(geoReply, k1, w1, db1, s1)
         == GetCombinedWeatherData(geoReply, k2, w2, db2, s2)
         == Failure(HttpError(404, NotFoundDetail))
  {
  }
}
