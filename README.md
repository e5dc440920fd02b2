# Vasudha agents: ranking, place-name normalisation and status logic

This project is a Dafny model of the decision logic inside three FastAPI
services of the Vasudha crop-advice backend. Every part it covers is pure, so
it is modelled with datatypes, functions and lemmas:

- **recommendation agent** (`predict_crops`): takes the classifier's
  probability row, sorts it ascending with `np.argsort`, tail-slices
  `[-top_n:]`, reverses it, and pairs each label with its score in an
  insertion-ordered dict (module `Ranking`, file `ranking.dfy`);
- **soil agent** (`query_soil_data`, `get_soil_data_by_district`): makes the
  district and state keys with two end-anchored `re.sub` calls, `strip` and
  `title`; matches rows of the soil table by `UPPER(District) = UPPER(?) AND
  Region = ?`; and shapes the found and not-found responses (module
  `SoilAgent`, file `soil.dfy`; worked examples in module `SoilExamples`, file
  `soil_examples.dfy`);
- **weather agent** (`get_district_from_coordinates`, `get_live_weather`,
  `get_seasonal_rainfall`, `get_combined_weather_data`): picks the
  geocoder's district with an `or` fallback and removes a trailing
  `" District"`; short-circuits when the API key is missing; maps the season
  to a rainfall column and matches the district key; merges the statuses
  (module `WeatherAgent`, file `weather.dfy`; worked examples in module
  `WeatherExamples`, file `weather_examples.dfy`).

Two support modules are shared:
- `PyText` (`pytext.dfy`) covers Python's `str.isspace`, `strip`, `title`,
  `lower` and `upper`. Letter case is ASCII only, which is also all SQLite's
  `UPPER` folds.
- `Wrappers` (`wrappers.dfy`) holds `Option`, `Result` and an HTTP error
  value.

How the parts are represented:
- Scores are `int`, standing for any totally ordered value.
- `np.argsort`'s output is an input `order`. The model only requires it to be
  some ascending argsort of the row (`Ranking.IsArgsort`). Its quicksort is
  not stable, so the order among equal scores stays open.
- A database table is a sequence of rows. A missing or failing database is
  `None`. `fetchone()` returns the first matching row in table order.
- The parsed reply of each web service is an input. `None` stands for a
  request that raised `RequestException`.
- The `API_KEY` environment value is an input.

Each regular expression is modelled by a scanning function. The contract of
each strip function states that it cuts the text at the leftmost position from
which the expression matches, which is what `re.sub` removes for these
end-anchored patterns.

Both agents look rows up the same way, so the first-match scan
(`fetchone()` after a `SELECT ... WHERE`) is one generic module, `Lookup`
(`lookup.dfy`), over a row type and a `WHERE` clause given as a predicate.

## Behaviour that is easy to mistake

These are properties of the code as written. Each is proved, or shown on a
concrete input, by the member named.

- **Ranking length.** A non-positive `top_n` does not give an empty list.
  - `top_n = 0` gives every label, because `[-0:]` is the whole array.
  - `top_n = -m` drops the `m` lowest.
  - See `Ranking.RecommendationCount` and `Ranking.ExampleRanking`.
- **Tie order.** Labels with equal scores come out in no fixed order:
  `np.argsort` is not stable, and nothing here claims an order for them.
- **Step order.** The parenthetical strip runs before the word strip, so a
  group followed by a listed word is kept: `"Pune (Rural) District"` gives
  `"Pune (Rural)"`, not `"Pune"` (`SoilExamples.ExampleStepOrder`).
- **Idempotence.** The district normaliser is not idempotent:
  - `"Nashik District District"` gives `"Nashik District"`, then `"Nashik"`;
  - `"X (a) Tehsil"` gives `"X (A)"`, then `"X"`;
  - see `SoilExamples.NormalizerNotIdempotent` and
    `SoilExamples.NormalizerNotIdempotentOnGroups`.

  What does hold is that the keys are trimmed and title-cased, so title-casing
  them again changes nothing (`SoilAgent.KeysAreCanonical`).
- **Invalid season.** An invalid season is not reported as a caller error.
  The rainfall lookup returns `None`. When the live-weather request succeeded
  this surfaces as `"RainfallDataNotFound"`
  (`WeatherAgent.InvalidSeasonIsRainfallNotFound`); otherwise the weather's
  `"APIKeyMissing"` or `"APIError"` status is reported instead.
  The database is also consulted before the season is checked.
- **Missing database.** A missing soil database is answered exactly like a
  missing row, with `"DistrictOrStateNotFoundInDB"`
  (`SoilAgent.MissingDatabaseLooksLikeMissingRow`).

## Model

| member | source | states |
|---|---|---|
| Ranking.PredictCrops | backend/agents/recommendation_agent/main.py:28-48 | every failure is an HTTP 500; a missing pipeline or encoder fails with detail "Model artifacts not loaded correctly." before any scoring; the prediction fails (detail "Prediction failed: …") exactly when some chosen index has no label in the encoder; when the encoder has a label for every score the call succeeds |
| Ranking.TopNIndicesFacts | backend/agents/recommendation_agent/main.py:44 | the chosen indices are the last `n - start` entries of the argsort in reverse, where `start` is Python's slice start for `-top_n`; they are valid and pairwise distinct |
| Ranking.IsArgsort | backend/agents/recommendation_agent/main.py:44 | what `np.argsort` may return: a permutation of the row's indices listing the scores in ascending order, with no order fixed among equal scores |
| Ranking.ArgsortEnds | backend/agents/recommendation_agent/main.py:44 | an argsort starts at a lowest score and ends at a highest one, which is why its tail holds the top scores |
| Ranking.PySliceStart | backend/agents/recommendation_agent/main.py:44 | Python's start rule for `[-top_n:]`: the slice keeps the last `ExpectedCount(top_n, n)` elements, the independent case-by-case count (`min(top_n, n)` for positive `top_n`, all for 0, `n - m` for `-m`) |
| Ranking.TopNIndices | backend/agents/recommendation_agent/main.py:44 | `argsort[-top_n:][::-1]` has as many indices as the case-by-case count says, and its element `i` is the argsort's element `n-1-i` |
| Ranking.Reverse | backend/agents/recommendation_agent/main.py:44 | `[::-1]`: same length, element `i` is element `n-1-i` of the input |
| Ranking.DictSet | backend/agents/recommendation_agent/main.py:48 | inserting a new key appends the pair; re-assigning an existing key keeps the length and the key order, and in a dict with distinct keys replaces that key's value and leaves every other entry as it was; distinct keys stay distinct |
| Ranking.DictFromPairs | backend/agents/recommendation_agent/main.py:48 | the comprehension's dict has distinct keys, exactly the keys of the pairs, is no longer than the pairs, holds for each key the value of the last pair with that key, and lists the keys in the order of their first appearance in the pairs |
| Ranking.Pairs | backend/agents/recommendation_agent/main.py:45-48 | `zip` of the chosen labels and scores has one pair per chosen index, pair `i` is the label and the score at the `i`-th chosen index, and distinct labels at distinct indices give distinct keys |
| Ranking.DictFromDistinctPairs | backend/agents/recommendation_agent/main.py:48 | a dict comprehension over pairs with distinct keys keeps every pair, in order |
| Ranking.RankingIsPairs | backend/agents/recommendation_agent/main.py:44-48 | with distinct labels, the answer is exactly the (label, score) pairs of the chosen indices, in order |
| Ranking.RecommendationCount | backend/agents/recommendation_agent/main.py:44 | the number of recommendations is `min(top_n, n)` for `top_n >= 1`, `n` for `top_n = 0`, and `n - m` (at least 0) for `top_n = -m` |
| Ranking.RecommendationsDescending | backend/agents/recommendation_agent/main.py:44 | scores never increase along the recommendations |
| Ranking.ChosenIndicesDescending | backend/agents/recommendation_agent/main.py:44 | the chosen indices list their scores from the highest down |
| Ranking.RecommendationsOwnScores | backend/agents/recommendation_agent/main.py:45-48 | each recommendation pairs a label with its own score, and no label appears twice |
| Ranking.RecommendationsAreTop | backend/agents/recommendation_agent/main.py:44 | every label left out scores at most as high as every label recommended |
| Ranking.ChosenIndicesAreTop | backend/agents/recommendation_agent/main.py:44 | an index whose label is left out scores at most as high as any chosen index |
| Ranking.InsertByScore | backend/agents/recommendation_agent/main.py:44 | inserting one index into a list of indices adds exactly that index: the result is the old list's multiset plus that index |
| Ranking.InsertByScoreDistinct | backend/agents/recommendation_agent/main.py:44 | inserting a new index keeps the indices distinct |
| Ranking.InsertByScoreAscending | backend/agents/recommendation_agent/main.py:44 | inserting by score keeps the list ascending by score |
| Ranking.InsertionArgsort | backend/agents/recommendation_agent/main.py:44 | a reference argsort: a permutation of the indices, ascending by score |
| Ranking.ArgsortExists | backend/agents/recommendation_agent/main.py:44 | every score row has an ascending argsort, so the ranking precondition can always be met |
| Ranking.ExampleArgsortIsForced | backend/agents/recommendation_agent/main.py:44 | for the distinct scores 10, 50, 40 the only ascending argsort is `[0, 2, 1]` |
| Ranking.ExampleTopTwo | backend/agents/recommendation_agent/main.py:43-48 | on the example row, `top_n` of 2 and of -1 both give wheat, maize |
| Ranking.ExampleAllThree | backend/agents/recommendation_agent/main.py:43-48 | on the example row, `top_n` of 10 and of 0 both give wheat, maize, rice |
| Ranking.ExampleRanking | backend/agents/recommendation_agent/main.py:43-48 | over rice/wheat/maize with scores 10/50/40: `top_n = 2` gives wheat, maize; 10 and 0 give all three; -1 gives wheat, maize |
| PyText.Strip | backend/agents/soil_agent/main.py:53 | the result is trimmed; it is the slice of the input after the leading whitespace, and only whitespace is removed on either side |
| PyText.StripTrimmed | backend/agents/soil_agent/main.py:53 | a string that neither starts nor ends with whitespace is left unchanged by `strip` |
| PyText.CanonicalIsFixed | backend/agents/soil_agent/main.py:52-53 | a trimmed, title-cased string is left unchanged by both `strip` and `title` |
| PyText.Title | backend/agents/soil_agent/main.py:52 | `str.title` over ASCII: same length, and each character is as the pointwise rule says (a letter after a letter is lower-cased, any other letter upper-cased, everything else kept) |
| PyText.TitleFromAt | backend/agents/soil_agent/main.py:52 | the left-to-right computation of `title` agrees with the pointwise rule |
| PyText.TitleKeepsShape | backend/agents/soil_agent/main.py:52 | `title` changes letter case only: letters and whitespace stay where they are, and lower-casing forgets it |
| PyText.TitleIsTitleCased | backend/agents/soil_agent/main.py:52 | the output of `title` is title-cased |
| PyText.TitleFixesTitleCased | backend/agents/soil_agent/main.py:52 | a title-cased string is left unchanged by `title` |
| PyText.TitleIdempotent | backend/agents/soil_agent/main.py:52 | `title` applied twice is `title` applied once |
| PyText.TitleKeepsTrimmed | backend/agents/soil_agent/main.py:52 | `title` keeps a trimmed string trimmed |
| PyText.TitleSplits | backend/agents/soil_agent/main.py:52 | words separated by a non-letter are title-cased independently |
| PyText.IsSpace | backend/agents/soil_agent/main.py:50-53 | the characters Python's `str.isspace` accepts, which are what `\s` matches and what `strip()` removes: tab to carriage return, the four separators U+001C-U+001F, space, U+0085, U+00A0, U+1680, U+2000-U+200A, U+2028, U+2029, U+202F, U+205F and U+3000 |
| PyText.Upper | backend/agents/soil_agent/main.py:59 | SQLite's `UPPER`: the pointwise ASCII upper-casing, of the same length as its input |
| PyText.CaseMaps | backend/agents/soil_agent/main.py:59 | `UPPER` and `lower()` give every ASCII letter the target case and keep every other character, and lower-casing after `UPPER` gives the lower case of the input |
| PyText.Lower | backend/agents/weather_agent/main.py:105-109 | `season.lower()`: the pointwise ASCII lower-casing, of the same length as its input |
| PyText.UpperOfTitle | backend/agents/weather_agent/main.py:103-116 | upper-casing forgets what `title` did, so a title-cased key compared with `UPPER` matches as the raw text would |
| SoilAgent.StripTrailingGroup | backend/agents/soil_agent/main.py:50 | the first `re.sub` cuts at the leftmost position from which `\s*\(.*\)\s*$` matches, and keeps everything when there is no match |
| SoilAgent.GroupCutNoEarlierMatch | backend/agents/soil_agent/main.py:50 | no match of the parenthetical pattern starts before the cut |
| SoilAgent.GroupCutMatches | backend/agents/soil_agent/main.py:50 | when the parenthetical strip cuts, the pattern matches from the cut to the end |
| SoilAgent.GroupCutBeforeMatch | backend/agents/soil_agent/main.py:50 | a given match of the parenthetical pattern does not start before the cut |
| SoilAgent.TrailingGroupShape | backend/agents/soil_agent/main.py:50 | in any match of the parenthetical pattern, the `)` is the last non-space character and the `(` lies on its line |
| SoilAgent.LastNonSpaceAt | backend/agents/soil_agent/main.py:50 | the last non-space character is the one followed only by whitespace |
| SoilAgent.LineStartBefore | backend/agents/soil_agent/main.py:50 | a stretch with no newline lies on one line, so `.*` can span it |
| SoilAgent.TrailingGroupRule | backend/agents/soil_agent/main.py:50 | when the last non-space character is `)` and a `(` precedes it on that line, the cut is at the whitespace run before the first such `(`; otherwise nothing is removed |
| SoilAgent.NoGroupWithoutClosingParen | backend/agents/soil_agent/main.py:50 | a name not ending in `)` keeps every character |
| SoilAgent.GroupCutAtFirstParen | backend/agents/soil_agent/main.py:50 | on a single line ending in `)`, everything from the whitespace before the first `(` is removed |
| SoilAgent.AdminWordsSuffixFree | backend/agents/soil_agent/main.py:51 | no listed administrative word is a case-insensitive suffix of another |
| SoilAgent.AdminWordUnique | backend/agents/soil_agent/main.py:51 | at most one listed word can end the name, ignoring case |
| SoilAgent.StripAdminWord | backend/agents/soil_agent/main.py:51 | the second `re.sub` cuts at the leftmost position from which `\s+(...)$` matches case-insensitively (the word alternation of the source), and keeps everything when there is no match |
| SoilAgent.AdminCutNoEarlierMatch | backend/agents/soil_agent/main.py:51 | no match of the word pattern starts before the cut |
| SoilAgent.AdminCutMatches | backend/agents/soil_agent/main.py:51 | when the word strip cuts, the pattern matches from the cut to the end |
| SoilAgent.AdminMatchBound | backend/agents/soil_agent/main.py:51 | a given match of the word pattern does not start before the cut |
| SoilAgent.AdminWordRule | backend/agents/soil_agent/main.py:51 | the result is the input, or the input minus one listed word (matched ignoring case) and a non-empty whitespace run before it; it is the input exactly when no listed word ends the name after whitespace |
| SoilAgent.WordRule | backend/agents/soil_agent/main.py:51 | for any word list, the cut removes one listed word with the whitespace run before it, or nothing exactly when no listed word ends the text after whitespace |
| SoilAgent.AdminWordCutAt | backend/agents/soil_agent/main.py:51 | when word `n` is the first listed word ending the name, the cut leaves the name up to the whitespace before it |
| SoilAgent.NoAdminWord | backend/agents/soil_agent/main.py:51 | a name ending in no listed word keeps every character |
| SoilAgent.DistrictKey | backend/agents/soil_agent/main.py:50-52 | the district key is trimmed, title-cased and no longer than the input |
| PyText.StripTitle | backend/agents/soil_agent/main.py:53 | the state key is only `strip().title()` (the rainfall key of weather_agent/main.py:103 is the same function): trimmed, title-cased, no longer than the input, and the stripped input up to letter case |
| SoilAgent.KeysAreCanonical | backend/agents/soil_agent/main.py:50-53 | both keys are trimmed and title-cased, and title-casing them again changes nothing |
| SoilAgent.DistrictKeyIsPieceOfInput | backend/agents/soil_agent/main.py:50-52 | the district key is never longer than the input and is, up to letter case, a contiguous piece of it |
| SoilAgent.CleanedDistrictIsPiece | backend/agents/soil_agent/main.py:50-51 | the cleaned district before title-casing is literally a slice of the input |
| SoilAgent.StrippedPrefixIsPiece | backend/agents/soil_agent/main.py:50-53 | a prefix of a text, stripped, is a slice of that text |
| SoilAgent.RowMatches | backend/agents/soil_agent/main.py:58-61 | the `WHERE` clause: a row matches when its `District` equals the district key after `UPPER` on both sides and its `Region` equals the state key exactly; a NULL `District` or `Region` never matches |
| SoilAgent.Averages | backend/agents/soil_agent/main.py:89-93 | the response's N, P, K and pH are the row's `N_avg`, `P_avg`, `K_avg` and `pH_avg`, NULL kept as `None` |
| SoilAgent.RowMatchCaseRules | backend/agents/soil_agent/main.py:59 | the district is compared ignoring letter case and the state exactly: district keys equal once upper-cased match the same rows, and a row matches only one state key |
| Lookup.FirstFrom | backend/agents/soil_agent/main.py:58-62 | the index returned is the first row at or after the start that satisfies the clause, or the table length when none does |
| Lookup.First | backend/agents/soil_agent/main.py:58-62 | `fetchone` finds a row exactly when some row satisfies the clause, and then it is the first such row |
| Lookup.FirstIsUnique | backend/agents/soil_agent/main.py:62 | any first match is the row that is returned |
| Lookup.LaterRowsDoNotMatter | backend/agents/soil_agent/main.py:62 | rows appended after the first match never change the result |
| SoilAgent.QuerySoilData | backend/agents/soil_agent/main.py:43-72 | a missing database gives no data; otherwise data is returned exactly when a row matches the district key case-insensitively and the state key exactly, and it holds the first match's four averages |
| SoilAgent.GetSoilDataByDistrict | backend/agents/soil_agent/main.py:83-104 | echoes `title(strip(...))` of both inputs; status is `"OK"` exactly when the database is present and a row matches, with that row's averages; otherwise `"DistrictOrStateNotFoundInDB"` with all four fields null |
| SoilAgent.MissingDatabaseLooksLikeMissingRow | backend/agents/soil_agent/main.py:46-104 | a missing database gives the same response as an empty table, status `"DistrictOrStateNotFoundInDB"` |
| SoilExamples.ExampleGroupStripped | backend/agents/soil_agent/main.py:50-52 | `"Pune (Rural)"` and `"Pune(Rural)"` both give the key `"Pune"` |
| SoilExamples.ExampleStepOrder | backend/agents/soil_agent/main.py:50-52 | `"Pune (Rural) District"` gives `"Pune (Rural)"` |
| SoilExamples.ExampleOneWordOnly | backend/agents/soil_agent/main.py:51 | `"Nashik District District"` gives `"Nashik District"` |
| SoilExamples.NormalizerNotIdempotent | backend/agents/soil_agent/main.py:50-52 | the key of the key of `"Nashik District District"` is `"Nashik"`, not the key itself |
| SoilExamples.NormalizerNotIdempotentOnGroups | backend/agents/soil_agent/main.py:50-52 | `"X (a) Tehsil"` gives `"X (A)"`, and that gives `"X"` |
| SoilExamples.ExampleBareWordKept | backend/agents/soil_agent/main.py:51 | a bare `"District"` is kept, since the word needs whitespace before it |
| SoilExamples.EchoIsNotTheLookupKey | backend/agents/soil_agent/main.py:50-87 | for `"Pune (Rural)"` the table is searched for `"Pune"` but the response names `"Pune (Rural)"` |
| WeatherAgent.Truthy | backend/agents/weather_agent/main.py:63-66 | Python truthiness of an optional string, as the `or` chain and `if district:` test it: present and non-empty |
| WeatherAgent.PickDistrict | backend/agents/weather_agent/main.py:63 | the district is `state_district` when truthy, else `county` when truthy, else `region` as it is; the result is truthy exactly when one of the three is |
| WeatherAgent.CleanGeoDistrict | backend/agents/weather_agent/main.py:67 | removes one trailing case-sensitive `" District"` from `title(strip(d))` when present, and nothing otherwise |
| WeatherAgent.CleanGeoDistrictDrops | backend/agents/weather_agent/main.py:67 | a district whose title-cased, stripped form is `base + " District"` cleans to `base` |
| WeatherAgent.GetDistrictFromCoordinates | backend/agents/weather_agent/main.py:44-73 | a failed request gives `(None, None)`; otherwise the state is the address's state, a truthy picked district is cleaned, and a falsy one is returned as it is |
| WeatherAgent.GeoCleanupRemovesOnlySuffix | backend/agents/weather_agent/main.py:67 | the cleaned district is `title(strip(d))` or that minus `" District"`, and always a prefix of it |
| WeatherAgent.GeoDistrictNeedsAField | backend/agents/weather_agent/main.py:63-67 | a truthy district comes only from a reply in which one of the three district fields is truthy |
| WeatherAgent.BlankFieldHidesFallback | backend/agents/weather_agent/main.py:63-67 | a whitespace-only `state_district` hides a usable `county` and yields the empty district |
| WeatherAgent.GetLiveWeather | backend/agents/weather_agent/main.py:76-94 | without a truthy key: no temperature or humidity, status `"APIKeyMissing"`; a failed request gives `"APIError"`; otherwise the reply's `main.temp` and `main.humidity` with `"OK"` |
| WeatherAgent.ParseSeason | backend/agents/weather_agent/main.py:105-113 | selects kharif, rabi or zaid exactly when the lower-cased season is that word (the season's `SeasonWord`), and nothing for any other season |
| WeatherAgent.SeasonIgnoresCase | backend/agents/weather_agent/main.py:105-109 | upper-casing the season does not change which season is selected |
| WeatherAgent.RainfallColumn | backend/agents/weather_agent/main.py:105-110 | each season selects the column `Avg_Rainfall_<name>_mm` whose middle part, lower-cased, is the word the `if`/`elif` matched for that season |
| WeatherAgent.SeasonColumnsDistinct | backend/agents/weather_agent/main.py:105-110 | the three seasons select three different columns |
| WeatherAgent.RainRowMatches | backend/agents/weather_agent/main.py:116 | the `WHERE` clause: a row matches when its `District` equals the key after `UPPER` on both sides; a NULL `District` never matches |
| WeatherAgent.RainfallIn | backend/agents/weather_agent/main.py:121-122 | `result[rainfall_col]`: the row's value in the season's column, NULL kept as `None`; a row without that column gives `None`, as the query error would |
| WeatherAgent.RainRowMatchIgnoresCase | backend/agents/weather_agent/main.py:116 | district keys equal once upper-cased match the same rows |
| Lookup.SameMatchesSameFirst | backend/agents/weather_agent/main.py:116-118 | two clauses that accept the same rows select the same first row |
| WeatherAgent.GetSeasonalRainfall | backend/agents/weather_agent/main.py:97-129 | a missing database or an invalid season gives nothing; otherwise the value of the season's column in the first row matching `title(strip(district))`, or nothing when no row matches |
| WeatherAgent.OnlySelectedColumnIsRead | backend/agents/weather_agent/main.py:116-122 | only the season's column is read: tables that agree on `District` and on that column give the same answer whatever their other columns hold |
| WeatherAgent.OtherSeasonColumnIgnored | backend/agents/weather_agent/main.py:105-122 | overwriting another season's column throughout the table never changes this season's answer |
| WeatherAgent.SelectedColumnDecides | backend/agents/weather_agent/main.py:116-122 | once the season's column holds a value in every row, the answer is that value when some row matches the district and nothing otherwise |
| WeatherAgent.RainfallIgnoresDistrictCase | backend/agents/weather_agent/main.py:103-117 | the rainfall answer depends on the district only through its stripped, upper-cased form |
| WeatherAgent.MergeStatus | backend/agents/weather_agent/main.py:149-153 | a non-OK weather status wins; otherwise missing rainfall gives `"RainfallDataNotFound"`; the status is `"OK"` exactly when weather is OK and rainfall was found |
| WeatherAgent.GetCombinedWeatherData | backend/agents/weather_agent/main.py:142-162 | a falsy district fails with 404 and the detail text, and only then; otherwise the output carries the place, the weather readings, the rainfall and the merged status |
| WeatherAgent.StatusIsOneOfFour | backend/agents/weather_agent/main.py:149-153 | a successful answer's status is one of `"OK"`, `"APIKeyMissing"`, `"APIError"`, `"RainfallDataNotFound"` |
| WeatherAgent.OkMeansAllSourcesAnswered | backend/agents/weather_agent/main.py:149-153 | the status is `"OK"` exactly when the key is set, the weather request succeeded and rainfall was found |
| WeatherAgent.InvalidSeasonIsRainfallNotFound | backend/agents/weather_agent/main.py:111-153 | with working weather, an invalid season gives no rainfall and `"RainfallDataNotFound"`, the same answer as an empty rainfall table |
| WeatherAgent.MissingKeyShortCircuits | backend/agents/weather_agent/main.py:77-78 | without a key the answer does not depend on the weather reply, and reports `"APIKeyMissing"` with no temperature or humidity |
| WeatherAgent.NoDistrictIsNotFound | backend/agents/weather_agent/main.py:143-144 | without a district the answer is the 404 failure whatever the key, weather reply, rainfall table or season |
| WeatherExamples.ExampleSuffixRemoved | backend/agents/weather_agent/main.py:67 | `"nashik district"` is title-cased and then loses the word: `"Nashik"` |
| WeatherExamples.ExampleOtherWordKept | backend/agents/weather_agent/main.py:67 | only `" District"` is removed: `"Nashik Tehsil"` is kept |
| WeatherExamples.ExampleNotStrippedAgain | backend/agents/weather_agent/main.py:67 | the result is not stripped again: `"Pune  District"` gives `"Pune "` |
| WeatherExamples.ExampleBareWordKept | backend/agents/weather_agent/main.py:67 | a bare `"District"` has no space before it and is kept |

## Left out

- Percentage formatting: `f"{prob*100:.2f}%"` (recommendation_agent/main.py:48) is floating-point rounding. A recommendation carries its raw score instead.
- `pipeline.predict_proba` and the model loading in `recommendation_agent/model_loader.py` are not modelled. The score row and the encoder's class list are inputs.
- Other exceptions inside the `try` of `predict_crops` are not modelled. Only the case where an index the encoder lacks fails is.
- The HTTP layer is not modelled: FastAPI routing, `Query` and pydantic validation, `HTTPException` mechanics. Errors are values of a result type.
- The network calls to Nominatim and OpenWeatherMap are not modelled. Their parsed replies are inputs. A reply field that is not a string or not a number is not modelled.
- SQLite connections, cursors and file-existence checks are not modelled; a failing connection or query is a missing table. The `conn.close()` missing on the invalid-season path is a resource leak with no effect on the answer.
- `fetchone()` without `ORDER BY` returns a row in whatever order SQLite scans. The model takes the first matching row in table order.
- The database build scripts `soil_agent/create_db.py` and `weather_agent/create_db.py` are not part of this model.
- Case: Python's `title`, `lower` and `upper` are modelled on ASCII letters only. Non-ASCII letters are treated as non-letters. This matters for `title`'s word boundaries and for `season.lower()`, where for instance the Kelvin sign lower-cases to `k`. The same holds for the `re.IGNORECASE` match of the listed words (soil_agent/main.py:51): Python's regex also matches some non-ASCII letters against ASCII ones, such as `ı` against `i` and `ſ` against `s`, while `SoilAgent.StripAdminWord` compares with ASCII lower case only. Whitespace is Python's full `str.isspace` set.
- SoilAgent.StripAdminWord: takes `$` as the end of the text. Python's `$` also matches before a final newline; the text it is given in `query_soil_data` is stripped, so it has none.
- Debug `print` calls and logging are not modelled.
- Ranking.PredictCrops: the scores are `int`, not floats. NaN scores and the float comparison are not modelled.
- Ranking.PredictCrops: the detail of the prediction-failure error is only its fixed start `Prediction failed: `; the text of the exception numpy raises, which the source appends, is not modelled.
- The `top_n = 5` default of `predict_crops` (recommendation_agent/main.py:23) belongs to the HTTP layer's parameter parsing. `top_n` is always an explicit argument here.
- Rainfall table schema: a table has one set of columns, but a row here has its own map from column names. A row lacking the season's column gives `None`, as the `sqlite3.Error` for an unknown column does. Rows of one table with different columns are not excluded.
