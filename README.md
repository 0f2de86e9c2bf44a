# Yamanashi vacant-house importer and JMA weather app, modelled in Dafny

The repository has two small systems. Both sit on SQLite.

- **The vacant-house importer** (`Last/`). It reads two Excel tables of the 2023 Housing and Land
  Survey for Yamanashi prefecture.
  - The vacancy table is laid out with one header row and one row per city. Its import writes a
    `city_town` row and a `vacant_houses` row for every city.
  - The house-age table is vertical: one row per (city, construction period). Its import collects
    one `house_age` record per city, and later rows overwrite earlier ones bucket by bucket.
  - Every cell is coerced to an integer by `to_int`.
  - The store `VacantHouseDB` keeps the three tables. Each operation opens a connection, commits on
    normal exit and rolls back when the statement raises.
- **The weather app** (`lecture6_task3/…`, `lecture-5/…`). It shows forecasts of the Japan
  Meteorological Agency (JMA).
  - The service `DatabaseService` stores the slots of a forecast in an `area` table and a
    `weather_info` table. Each slot is upserted under its (area, time) key, and the rows are read
    back as a history, latest first.
  - The detail view lays out the forecast as cards. It pairs the temperature list into
    minimum/maximum labels and picks an icon from the weather text.
  - The area list groups the offices under their centers and filters them by a search query.

The Dafny modules follow the source files:

| module | file | models |
|---|---|---|
| `Wrappers` | wrappers.dfy | `Option` and `Result` |
| `PyText` | pytext.dfy | the Python string built-ins the code uses (`strip`, `zfill`, `split`, `in`, `lower`, `int`, `str`) |
| `Coercion` | coercion.dfy | `to_int`: the regular expression `[-+]?\d*\.?\d+` searched leftmost-longest, and `round` ties-to-even |
| `Sheet` | sheet.dfy | the row tests, column lookup, region token and record assembly of both imports, as functions on a cell grid |
| `VacantStore` | store.dfy | class `VacantHouseDB` over three tables, with the scenarios of `Last/test.py` |
| `Collector` | collector.dfy | the importer's row loops (`import_vacant_houses`, `import_house_age`) as methods that write through `VacantHouseDB` |
| `Forecast` | forecast.dfy | the JMA forecast JSON, with every optional key an `Option` |
| `WeatherStore` | weather_store.dfy | class `DatabaseService`: the rain, temperature and min/max loops, the upsert loop and the history query |
| `WeatherDetail` | weather_detail.dfy | class `WeatherDetailView`: the temperature pairing loop, the card loop, the icon chain and the content column |
| `AreaList` | area_list.dfy | class `AreaListView`: the grouping and filtering loops and the search state |

A SQLite table is a field of type `map`, keyed by its primary key, or a `seq` where the
order of `SELECT` without `ORDER BY` matters (`city_town`). Whether the tables exist is a
boolean field. A statement that raises makes the method return the rolled-back outcome and
leave the fields as they were.

Behaviour of the importer as the code has it, which a reader might expect otherwise:

- Sign of `to_int`. The result is not forced non-negative: a leading minus sign is kept, so
  `to_int("-5")` is -5 (`Last/scrape.py:368-371`, `Coercion.ToIntOfIntToString`).
- Foreign keys. The tables declare foreign keys (`Last/db_manage.py:53`, `Last/db_manage.py:70`),
  but `VacantHouseDB` never runs `PRAGMA foreign_keys = ON`, so `insert_vacant_houses` writes a
  record whose city is unknown. `VacantHouseDB.InsertVacantHouses` models the class as written.
  `VacantHouseDB.InsertVacantHousesEnforcingKeys` models the test's own connection, which switches
  enforcement on (`Last/test.py:247-279`).
- First data row of the vacancy import. The sheet is re-read with `skiprows=header_row_idx + 1`
  and pandas' default `header=0` (`Last/scrape.py:168-174`), so pandas takes the row right after
  the header as column names and it is never scanned as data (`Sheet.RowAfterHeaderIgnored`).
- Data start of the age import. The scan starts at the first row whose joined text contains
  "19" and "_" anywhere (`Last/scrape.py:281`), a looser test than the per-row region token of
  `Last/scrape.py:302` (`Sheet.DataStartLooserThanToken`).
- Cities in the age import. `import_house_age` writes only `house_age` rows
  (`Last/scrape.py:344-348`) and never inserts a `city_town` row, unlike `import_vacant_houses`
  (`Last/scrape.py:227`). `Collector.VacantHouseDataCollector.ImportHouseAge` leaves `cities`
  unchanged.
- Result of the vacancy import. `import_vacant_houses` returns True or False and only prints the
  count (`Last/scrape.py:260-269`). The model returns the flag and the count. A row whose
  fields cannot be read keeps its city and writes no record; the error it prints is left out.

## Model

| member | source | states |
|---|---|---|
| PyText.Strip | Last/scrape.py:214 | `str.strip()`: the result is the slice of the input between its leading and its trailing whitespace, and neither starts nor ends with whitespace |
| PyText.ZFill | Last/scrape.py:222 | `zfill(width)`: the length is the larger of the input's and the width, and an unsigned input is kept as the suffix behind '0' padding |
| PyText.SplitOnce | Last/scrape.py:221 | `split("_", 1)`: the head has no separator, and head + separator + tail rebuilds the text |
| PyText.Before | lecture6_task3/weather-forecast-app/services/db_service.py:109 | `split('T')[0]`: a separator-free prefix that stops just before the first separator, or the whole text when there is none |
| PyText.IndexOf | lecture6_task3/weather-forecast-app/services/db_service.py:109 | the first index of a character, or none exactly when the character is absent |
| PyText.RemoveChar | Last/scrape.py:366 | `replace(',', '')`: the result holds no comma, is no longer than the input, equals it when there was no comma, and is empty for the comma alone |
| PyText.RemoveCharAppend | Last/scrape.py:366 | removal works piece by piece, so with the one-character cases every other character is kept in its order |
| PyText.RemoveCharKeepsOthers | Last/scrape.py:366 | every character other than the comma survives the removal |
| PyText.RemoveSeparators | Last/scrape.py:366 | removing the separators from digits and separators leaves only digits |
| PyText.RemoveCharKeeps | Last/scrape.py:366 | every character of the result occurs in the input |
| PyText.Lower | lecture-5/weather-forecast-app/views/area_list.py:141 | `lower()` maps each character by itself and keeps the length |
| PyText.JoinContains | Last/scrape.py:155-157 | a marker without spaces occurs in the space-joined row exactly when it occurs in one of its cells |
| PyText.IntToString | Last/scrape.py:366 | `str(n)`: a minus sign and the digits of -n for negative n, otherwise the digits of n |
| PyText.SignedIntLiteral | lecture6_task3/weather-forecast-app/services/db_service.py:98 | a literal is accepted exactly when what follows an optional sign is digits with single underscores between digits; its value is those digits without the underscores, negated after a minus sign; the empty text is refused |
| PyText.PyIntOfIntToString | lecture6_task3/weather-forecast-app/services/db_service.py:98 | `int(str(n)) == n` for every integer |
| PyText.StripUnchanged | Last/scrape.py:222-223 | stripping a text without surrounding whitespace leaves it unchanged |
| Coercion.MatchAt | Last/scrape.py:368-369 | a match found at a position spells a well-formed numeral there, and is negative exactly when it starts with '-' |
| Coercion.MatchAtInPattern | Last/scrape.py:368 | the text the matcher returns is matched in full by `[-+]?\d*\.?\d+` |
| Coercion.LongestMatch | Last/scrape.py:368 | no match of the pattern at a position is longer than the one returned, and a position where the pattern matches anything yields a match |
| Coercion.Search | Last/scrape.py:368-369 | `re.search`: the match at the leftmost position that has one, and none exactly when no position has one |
| Coercion.SearchLeftmostLongest | Last/scrape.py:368-371 | the reported match is in the pattern, no earlier position starts a match, and no longer match starts at its position |
| Coercion.RoundIsNearestEven | Last/scrape.py:371 | `int(round(float(x)))`: the result is within one half of the numeral's value and even on a tie, which fixes it uniquely |
| Coercion.FirstNumeralValue | Last/scrape.py:368-372 | the rounded value of the numeral `re.search` reports, or 0 when the cleaned text has none |
| Coercion.ToInt | Last/scrape.py:359-374 | NaN, "-", "..." and "" give 0, and so does a text without a numeral after cleaning; any other text gives the rounded value of the first numeral of its comma-free, stripped text |
| Coercion.ToIntWithoutDigitsIsZero | Last/scrape.py:366-372 | any text without a digit coerces to 0 |
| Coercion.ToIntOfSignedDigits | Last/scrape.py:366-371 | an optional minus sign before digits coerces to the signed value of the digits |
| Coercion.ToIntOfGroupedDigits | Last/scrape.py:360-371 | digits in comma-separated groups, with an optional minus sign, coerce to the signed value of the digits without the commas |
| Coercion.ToIntOfThousands | Last/scrape.py:366-371 | "1,234" coerces to 1234 |
| Coercion.ToIntOfIntToString | Last/scrape.py:359-374 | `to_int(str(n)) == n` for every integer, negative ones included, in exact arithmetic (the program agrees up to 2^53 in magnitude; see "Left out") |
| Sheet.FirstIndex | Last/scrape.py:154-159 | the first position whose element passes the test, with no earlier one passing, or none when no element passes |
| Sheet.Texts | Last/scrape.py:155 | `str(v)` of every cell, in order |
| Sheet.RowTextContains | Last/scrape.py:155-157 | a space-free marker is in the joined row text exactly when some cell's text contains it |
| Sheet.HeaderByCells | Last/scrape.py:157 | the header test holds exactly when some cell has "0_" or "22_" and some cell has "221_" or "222_" |
| Sheet.RentLabelMakesHeader | Last/scrape.py:157 | a cell with "222_" alone makes a header row, because it also contains "22_" |
| Sheet.FindColumn | Last/scrape.py:184-190 | `find_col_by_number`: the first label that matches `^num_`, or none when no label matches |
| Sheet.AnchoredNumbersDisjoint | Last/scrape.py:186-188 | a label that matches `^a_` never matches `^b_` for different digit strings, so "22" never picks "221_…" or "222_…" |
| Sheet.ResolveColumns | Last/scrape.py:193-198 | each of the six columns is the first label matching its own number ("0" total, "22" vacant total, "222" rent, "223" sale, "224" secondary use, "221" other), or none when no label matches it |
| Sheet.BuildRecord | Last/scrape.py:229-245 | the record has the row's code and year 2023; each of the six fields is 0 for an unresolved column and `to_int` of its own column's cell otherwise; it is absent exactly when a resolved column's label is shared by another column, where `row.get` raises |
| Sheet.RegionToken | Last/scrape.py:212-217 | the text of the first cell whose text contains '_' and starts with "19", with no earlier cell qualifying, stripped in the vacancy import; none when no cell qualifies |
| Sheet.CityCode | Last/scrape.py:221-222 | the code is always five characters, and a code of five or more characters keeps its first five |
| Sheet.CityCodePadding | Last/scrape.py:222 | a five-digit code is kept as it is, and a shorter one is left-padded with zeros |
| Sheet.PlanVacancyRow | Last/scrape.py:210-245 | a row without a token or with an excluded name is skipped; otherwise the city is the token's code and name, and a record is written exactly when `BuildRecord` gives one, and it is that record |
| Sheet.RowPlans | Last/scrape.py:210 | one plan per data row, in order |
| Sheet.RowAfterHeaderIgnored | Last/scrape.py:168-174 | the row right after the header influences neither the outcome nor any plan |
| Sheet.TouchesTablesAt | Last/scrape.py:227 | any accepted row makes the run write to the tables |
| Sheet.CitiesAfterHoldsEveryCity | Last/scrape.py:227 | the city codes stay distinct, and afterwards they are the old codes plus every planned city |
| Sheet.VacantAfterKeys | Last/scrape.py:257 | the keys of `vacant_houses` afterwards are the old keys plus those of the planned records |
| Sheet.LastRecordWins | Last/scrape.py:257 | for a (code, year) the table keeps the record of the last row that wrote it |
| Sheet.RecordsHaveCities | Last/scrape.py:227-257 | every `vacant_houses` key still has its city, because each record's city is inserted first, even though foreign keys are not enforced |
| Sheet.RecordCountIsRecords | Last/scrape.py:257-258 | the count is the number of rows whose record was written, and never more than the rows |
| Sheet.BucketOf | Last/scrape.py:336-342 | each bucket is chosen exactly when its test holds and no earlier test does, in the order (1970 and 以前), 1971, 1981, 1991, 2001, 2011, (2021 or 2023); none exactly when no test matches |
| Sheet.ObserveAgeRow | Last/scrape.py:298-326 | a row contributes exactly when it has a region token and an age label; it gives the token's five-character code, the bucket of its first age label and `to_int` of column 3 |
| Sheet.ObserveRows | Last/scrape.py:295-326 | one contribution per row, in order |
| Sheet.AgesAfterKeys | Last/scrape.py:328-333 | exactly one record per distinct code: the dictionary's keys are the old codes plus the observed codes |
| Sheet.AgesAfterLastWins | Last/scrape.py:328-342 | each bucket holds the value of the last row naming it, or 0 for a code first seen, and is overwritten, never summed |
| Sheet.AgesAfterCodes | Last/scrape.py:329-330 | every record is filed under its own code and year 2023 |
| Sheet.ObserveGet | Last/scrape.py:336-342 | one row sets the bucket it names and leaves every other value |
| Sheet.LastBucketAbsent | Last/scrape.py:328-333 | a code that was never observed keeps its starting value |
| Sheet.DataStartLooserThanToken | Last/scrape.py:281 | a row can pass the data-start test ("19" and "_" anywhere) with no cell that is a region token |
| Sheet.AgeImportDoesNotStrip | Last/scrape.py:301-302 | a token with a leading space is found by the vacancy import and missed by the age import |
| VacantStore.EmptyAgeRecord | Last/scrape.py:328-333 | a new record has its key and 0 in every bucket |
| VacantStore.Codes | Last/db_manage.py:36 | the codes of the `city_town` rows, no more and no fewer |
| VacantStore.InsertOrIgnore | Last/db_manage.py:85-88 | `INSERT OR IGNORE`: a known code leaves the table as it is; a new code appends its row |
| VacantStore.InsertOrIgnoreKeepsDistinct | Last/db_manage.py:36 | inserting keeps the codes distinct, and the code is present afterwards |
| VacantStore.InsertOrIgnoreKeepsFirstName | Last/test.py:64-72 | a second insert of a code changes nothing, and the row keeps its first name |
| VacantStore.KeysOfCity | Last/db_manage.py:152 | `WHERE c_t_code = ?`: exactly the keys with that code |
| VacantStore.KeysByYear | Last/db_manage.py:150-154 | the keys of one city, each once, by strictly ascending year, and all of them |
| VacantStore.VacantHouseDB.constructor | Last/db_manage.py:8-13 | a store opened on a database file without tables has no tables and no rows |
| VacantStore.VacantHouseDB.InitializeDatabase | Last/db_manage.py:28-72 | the tables exist afterwards, existing rows are kept, and the call commits |
| VacantStore.VacantHouseDB.InsertCityTown | Last/db_manage.py:76-88 | no tables means a rollback and no change; otherwise it commits `INSERT OR IGNORE`, and no other table changes |
| VacantStore.VacantHouseDB.InsertVacantHouses | Last/db_manage.py:90-112 | `INSERT OR REPLACE`: the row of (code, year) becomes the record in full; the other tables are unchanged; no tables means a rollback |
| VacantStore.VacantHouseDB.InsertHouseAge | Last/db_manage.py:114-137 | `INSERT OR REPLACE` of the age record under (code, year), with the same failure case |
| VacantStore.VacantHouseDB.InsertVacantHousesEnforcingKeys | Last/test.py:247-279 | with enforcement on, a commit happens exactly when the tables exist, the key is new and the city exists; an unknown city fails as a foreign-key violation and writes nothing |
| VacantStore.VacantHouseDB.GetAllCities | Last/db_manage.py:139-144 | every `city_town` row in insertion order, or the missing-table error |
| VacantStore.VacantHouseDB.GetVacantHousesByCity | Last/db_manage.py:146-155 | exactly the stored rows of that city, each once, by strictly ascending year |
| VacantStore.VacantHouseDB.GetHouseAgeByCity | Last/db_manage.py:157-166 | exactly the stored age rows of that city, each once, by strictly ascending year |
| VacantStore.VacantHouseDB.DropAllTables | Last/db_manage.py:168-175 | afterwards no table and no row remains |
| VacantStore.DuplicateCityScenario | Last/test.py:64-72 | two inserts of one code leave one row with the first name |
| VacantStore.VacancyReadBackScenario | Last/test.py:74-100 | a vacancy record reads back field for field |
| VacantStore.AgeReadBackScenario | Last/test.py:102-128 | an age record reads back field for field |
| VacantStore.ReplaceScenario | Last/test.py:130-166 | a second record with the same key replaces the first in full, and one row remains |
| VacantStore.MultipleYearsScenario | Last/test.py:221-245 | two years of one city coexist and read back in year order, whatever the insertion order |
| VacantStore.ForeignKeyScenario | Last/test.py:247-279 | with enforcement on, a record with an unknown city fails as a foreign-key violation and nothing is stored |
| VacantStore.EmptyDatabaseScenario | Last/test.py:281-287 | queries on empty tables give empty lists, not errors |
| Collector.FindFirstRow | Last/scrape.py:153-159 | the search loop returns the first row that passes the test, or none when no row passes |
| Collector.AgeRowsAdd | Last/scrape.py:346-347 | writing one more code's record adds exactly that row |
| Collector.VacantHouseDataCollector.ApplyVacancyPlan | Last/scrape.py:225-258 | the city is inserted first and a failure there ends the import; the record is written only when its fields can be read |
| Collector.VacantHouseDataCollector.ImportVacancyRow | Last/scrape.py:210-261 | one pass of the row loop applies that row's plan, or fails with the store unchanged |
| Collector.VacantHouseDataCollector.ImportVacancyRows | Last/scrape.py:209-264 | with tables: success, the count of records, and `city_town` and `vacant_houses` as the plans leave them; without: failure if any row inserts a city, and nothing written |
| Collector.VacantHouseDataCollector.ImportVacantHouses | Last/scrape.py:145-269 | no header means False and nothing written; otherwise the row loop's outcome on the rows from two below the header; `house_age` never changes |
| Collector.VacantHouseDataCollector.WriteAgeRecord | Last/scrape.py:347 | one `insert_house_age` fails exactly when the tables are missing, and otherwise adds the code's row |
| Collector.VacantHouseDataCollector.WriteAgeRecords | Last/scrape.py:344-351 | with tables, every record is written under (code, 2023) and the count is the number of codes; without, the first write fails |
| Collector.VacantHouseDataCollector.ImportHouseAge | Last/scrape.py:271-357 | no data start means False and nothing written; otherwise `house_age` gains one row per observed code, holding its last values; `city_town` and `vacant_houses` never change |
| WeatherStore.RainMapFails | lecture6_task3/weather-forecast-app/services/db_service.py:94-98 | the rain loop raises exactly when one of the entries it reads is not an integer |
| WeatherStore.RainMapLastWins | lecture6_task3/weather-forecast-app/services/db_service.py:94-98 | a slot time has a probability exactly when some non-empty entry within `pops` is at that time, and it holds the value of the last such entry |
| WeatherStore.CollectRain | lecture6_task3/weather-forecast-app/services/db_service.py:88-98 | the rain loop computes the rain map over all slot times |
| WeatherStore.TempGroupsFails | lecture6_task3/weather-forecast-app/services/db_service.py:107-116 | the temperature loop raises exactly when one of the entries it reads is not a number |
| WeatherStore.TempGroupsByDay | lecture6_task3/weather-forecast-app/services/db_service.py:107-116 | each date holds exactly the readings of its slots in order, and only dates with a reading are present |
| WeatherStore.CollectTemps | lecture6_task3/weather-forecast-app/services/db_service.py:101-116 | the temperature loop computes the per-date groups |
| WeatherStore.SeqMin | lecture6_task3/weather-forecast-app/services/db_service.py:122 | `min`: an element of the list that is no larger than any element |
| WeatherStore.SeqMax | lecture6_task3/weather-forecast-app/services/db_service.py:123 | `max`: an element of the list that is no smaller than any element |
| WeatherStore.RangesByDate | lecture6_task3/weather-forecast-app/services/db_service.py:119-124 | one entry per date of the groups, holding the minimum and maximum of that date's readings |
| WeatherStore.Slots | lecture6_task3/weather-forecast-app/services/db_service.py:130-152 | one slot per time of the first series, each with its own index's values |
| WeatherStore.ReadForecast | lecture6_task3/weather-forecast-app/services/db_service.py:80-152 | the reads before the write loop give the planned slots, or none where a read raises |
| WeatherStore.UpsertAllValid | lecture6_task3/weather-forecast-app/services/db_service.py:157-179 | writing keeps row ids positive, distinct and below the counter |
| WeatherStore.UpsertAllKeys | lecture6_task3/weather-forecast-app/services/db_service.py:155-179 | the keys afterwards are the old ones plus one per slot time with weather, so never more than one row per (area, time) |
| WeatherStore.UpsertAllKeepsOthers | lecture6_task3/weather-forecast-app/services/db_service.py:164-170 | a row that existed keeps its id, and a row no slot writes is unchanged |
| WeatherStore.UpsertAllLastWins | lecture6_task3/weather-forecast-app/services/db_service.py:164-178 | the row of a slot time holds the values of the last slot with weather at that time |
| WeatherStore.UpsertAllWithoutWeather | lecture6_task3/weather-forecast-app/services/db_service.py:155 | slots without weather write nothing |
| WeatherStore.WeatherCountMonotone | lecture6_task3/weather-forecast-app/services/db_service.py:171-179 | the running count never decreases as the loop advances |
| WeatherStore.LatestFirst | lecture6_task3/weather-forecast-app/services/db_service.py:202-203 | `ORDER BY time DESC LIMIT`: as many keys as the limit allows, distinct, by descending time, and no key left out that is later than one taken |
| WeatherStore.DatabaseService.constructor | lecture6_task3/weather-forecast-app/services/db_service.py:6-7 | a service opened on a database file without tables has no tables and no rows |
| WeatherStore.DatabaseService.InitDatabaseAsWritten | lecture6_task3/weather-forecast-app/services/db_service.py:12-46 | the tables exist afterwards; new tables lack the min/max temperature columns; existing rows are kept |
| WeatherStore.DatabaseService.InitDatabase | lecture6_task3/weather-forecast-app/services/db_service.py:12-46 | the same, with the min/max temperature columns that the statements name |
| WeatherStore.DatabaseService.InsertArea | lecture6_task3/weather-forecast-app/services/db_service.py:48-72 | a known code returns its id and inserts nothing; a new code gets the next id; no table gives None |
| WeatherStore.DatabaseService.WriteSlots | lecture6_task3/weather-forecast-app/services/db_service.py:126-186 | when the loop reaches its commit, the table is the upserts of the slots and the count is the slots with weather; otherwise nothing is written and the result is 0 |
| WeatherStore.DatabaseService.InsertOrUpdateWeatherData | lecture6_task3/weather-forecast-app/services/db_service.py:74-188 | a forecast whose reads raise gives 0 and no change; otherwise the slots of the first series are written as `WriteSlots` states |
| WeatherStore.DatabaseService.GetWeatherHistory | lecture6_task3/weather-forecast-app/services/db_service.py:190-221 | an empty list when the query raises; otherwise the joined rows of the selected area, at most `limit`, latest first, none later than a returned one left out |
| WeatherStore.OneSlotPlanned | lecture6_task3/weather-forecast-app/services/db_service.py:80-152 | a forecast with one slot of weather reads as that slot |
| WeatherStore.SchemaMismatchScenario | lecture6_task3/weather-forecast-app/services/db_service.py:30 | on tables created by `init_database` as written, a forecast with weather is never stored: 0 is returned and the history is empty |
| WeatherStore.StoredForecastScenario | lecture6_task3/weather-forecast-app/services/db_service.py:168-215 | with the columns the statements name, the same forecast is stored as one row and read back with its area's name |
| WeatherStore.InsertAreaTwiceScenario | lecture6_task3/weather-forecast-app/services/db_service.py:54-66 | two `insert_area` calls with one code return the same id, and the second inserts nothing |
| WeatherDetail.PairLabelsCount | lecture6_task3/weather-forecast-app/views/weather_detail.py:193-219 | there are ceil(n/2) labels: one per pair and one for an odd last element |
| WeatherDetail.PairLabelsAt | lecture6_task3/weather-forecast-app/views/weather_detail.py:193-219 | label k comes from `temps[2k]` and `temps[2k+1]`, or from `temps[2k]` alone when it is the last element |
| WeatherDetail.PairLabelShows | lecture6_task3/weather-forecast-app/views/weather_detail.py:195-213 | a label contains every known reading, and says "気温情報なし" exactly when both are empty |
| WeatherDetail.OddLabelShows | lecture6_task3/weather-forecast-app/views/weather_detail.py:214-219 | the lone last label contains its reading, and says "気温情報なし" exactly when it is empty |
| WeatherDetail.TempLabels | lecture6_task3/weather-forecast-app/views/weather_detail.py:191-219 | the stepped loop produces the pair labels |
| WeatherDetail.FirstRuleIsFirst | lecture6_task3/weather-forecast-app/views/weather_detail.py:292-306 | in a conditional chain, the first rule whose character the text contains is the one taken |
| WeatherDetail.WeatherIconByPrecedence | lecture6_task3/weather-forecast-app/views/weather_detail.py:288-306 | the icon is that of the first of 雨/雷, 曇, 雪, 晴 the text contains, and a grey question mark when it contains none |
| WeatherDetail.TempTexts | lecture6_task3/weather-forecast-app/views/weather_detail.py:186-189 | the texts of the `temps` list, in order |
| WeatherDetail.Cards | lecture6_task3/weather-forecast-app/views/weather_detail.py:234-243 | one card per slot of the first series, at most three |
| WeatherDetail.CardsShow | lecture6_task3/weather-forecast-app/views/weather_detail.py:234-306 | card i shows slot i's weather, wind and wave, and the rain chance i of the second series, each exactly "情報なし" when its list is absent or too short; the pair label from the temperatures; and the icon of its weather text |
| WeatherDetail.DisplayedLayout | lecture6_task3/weather-forecast-app/views/weather_detail.py:114-260 | the column starts with the heading and ends with the refresh button, holds as many cards as slots up to three, and shows an area name other than "不明な地域" only when that name exists |
| WeatherDetail.WeatherDetailView.constructor | lecture6_task3/weather-forecast-app/views/weather_detail.py:18-38 | the screen holds the fetched forecast and the content of a load |
| WeatherDetail.WeatherDetailView.LoadWeather | lecture6_task3/weather-forecast-app/views/weather_detail.py:89-112 | the screen holds the fetched forecast, or the failure notice when the fetch gave nothing |
| WeatherDetail.WeatherDetailView.OnRefreshClicked | lecture6_task3/weather-forecast-app/views/weather_detail.py:262-274 | a refresh ends in a new load of the fetched forecast |
| WeatherDetail.WeatherDetailView.DisplayWeather | lecture6_task3/weather-forecast-app/views/weather_detail.py:114-260 | the column is cleared and rebuilt as the laid-out forecast |
| WeatherDetail.WeatherDetailView.AppendCards | lecture6_task3/weather-forecast-app/views/weather_detail.py:234-243 | the loop appends exactly the cards of the series |
| WeatherDetail.ReadAreaName | lecture6_task3/weather-forecast-app/views/weather_detail.py:119-136 | the area-name lookup with "不明な地域" as the default at each step |
| WeatherDetail.ReadPops | lecture6_task3/weather-forecast-app/views/weather_detail.py:172-181 | the read returns `PopsOf`: `pops` of the second series' first area, empty where any step is missing; `WeatherDetail.CardsShow` states that card i shows entry i of exactly this list |
| WeatherDetail.ReadTempLabels | lecture6_task3/weather-forecast-app/views/weather_detail.py:183-219 | the temperature labels of the third series |
| AreaList.TilesAppend | lecture-5/weather-forecast-app/views/area_list.py:135-160 | the tiles of two runs of children are the tiles of each, one after the other, so the tiles follow the children's order |
| AreaList.TilesShown | lecture-5/weather-forecast-app/views/area_list.py:135-160 | a tile is shown exactly for a child that is an office whose name (or "不明") the query keeps |
| AreaList.EmptyQueryShowsAll | lecture-5/weather-forecast-app/views/area_list.py:141-142 | with an empty query every child that is an office is shown |
| AreaList.GroupsAppend | lecture-5/weather-forecast-app/views/area_list.py:128-185 | the groups of two runs of centers are the groups of each, one after the other, so the groups follow the centers' order |
| AreaList.GroupsWellFormed | lecture-5/weather-forecast-app/views/area_list.py:128-185 | every group is a center with at least one shown area, titled with its name (or "不明な地方"), and its count is its number of tiles |
| AreaList.GroupListed | lecture-5/weather-forecast-app/views/area_list.py:163-164 | a center's group is listed exactly when one of its children is shown |
| AreaList.GroupsEmpty | lecture-5/weather-forecast-app/views/area_list.py:163-185 | no group is listed exactly when no center has a shown area |
| AreaList.NotFoundExactly | lecture-5/weather-forecast-app/views/area_list.py:187-204 | the placeholder is shown exactly when no center has a shown area; otherwise the column holds only groups |
| AreaList.RegionTiles | lecture-5/weather-forecast-app/views/area_list.py:135-160 | the inner loop builds exactly the shown tiles of a center's children |
| AreaList.AreaListView.constructor | lecture-5/weather-forecast-app/views/area_list.py:18-44 | the screen starts with an empty query and then loads the fetched list |
| AreaList.AreaListView.LoadAreas | lecture-5/weather-forecast-app/views/area_list.py:100-114 | the screen holds the fetched list and the column a load leaves |
| AreaList.AreaListView.DisplayAreas | lecture-5/weather-forecast-app/views/area_list.py:116-206 | it raises exactly when there is no list, leaving the cleared column; otherwise the column is the groups and placeholder for the query |
| AreaList.AreaListView.OnSearchChanged | lecture-5/weather-forecast-app/views/area_list.py:219-223 | the query is stored and the column rebuilt from it alone |

## Left out

- Selenium page control, waits and the HTTP download of the Excel files (`Last/scrape.py` lines 24-143) are I/O. `process_data` and `main` are orchestration of those downloads.
- pandas reading an Excel file is I/O. The imports take the cell grid as input. A cell is `None` for NaN or the text `str(v)` gives. Two pandas effects are modelled: the row after the header is taken as column names and never scanned, and a header on the last row gives False, because pandas then finds no column-name row (`Collector.VacantHouseDataCollector.ImportVacantHouses`, collector.dfy lines 201-204). The `ValueError` that `df.columns = …` raises when the header row and the re-read frame have different lengths (`Last/scrape.py:174`) is not modelled: the model uses the header row's labels for every data row.
- The SQLite engine is left out. A table is a map or sequence field, and the existence of the tables and of the temperature columns are boolean fields.
- The opening of a connection cannot fail in the model.
- The `import_vacant_houses` debug printing (`Last/scrape.py` lines 248-255) and all other `print` output are output only.
- The integrity report and the vacancy sum check in `Last/test.py` are left out. They are facts about a real data file, not about the code.
- `float(temp_str)` is left out, because parsing a float is outside the model. Each temperature entry carries its text and the reading `float` gives for it (none where it raises). Readings are `real`, so float rounding is not modelled.
- Coercion.ToInt: `float` is exact in the model; the numeral is rounded as an exact rational. The program's `float` is exact only up to 2^53, so `to_int("9007199254740993")` is 9007199254740992 there, and a numeral too large for a double (about 309 digits) becomes `inf`, where `round` raises `OverflowError` and the bare `except` returns 0. Neither is modelled, so `Coercion.ToIntOfIntToString` holds for the program only for magnitudes up to 2^53.
- `str.lower()` is modelled on ASCII letters only, because full Unicode case folding is outside the model.
- The `\d` of `to_int`'s pattern and the digits `int()` accepts are the ASCII digits. Unicode decimal digits of other scripts are not modelled.
- `datetime.fromisoformat` and the date formatting of a card's time are left out. A card keeps the raw time text.
- The Flet widgets are reduced to the controls' data, and `_safe_update` and the navigation callbacks (`_on_area_clicked`, the back button) are left out. They call the UI toolkit.
- `jma_api.py` is HTTP. The views take the fetched JSON as a parameter. A fetch that fails is `None`.
- The detail view's `except` around the area-name lookup and the card loop is not modelled. The JSON is typed, so those reads cannot raise.
- Sheet.VacancyPlans has no contract of its own: it is specified through `Sheet.RowAfterHeaderIgnored` and the import methods that use it.
- WeatherStore.LatestFirst: the order of rows with equal times is left open, as SQLite leaves it.
- WeatherStore.DatabaseService.GetWeatherHistory: states the set and order of the rows up to that open tie order, not one fixed list.
- `lecture-4/calcurator/calc.py`, `lecture6_task3/auto_update.py` and the lecture-5 `main.py` and `weather_detail.py` are left out. They are UI handlers and network loops, with no logic beyond that.

## Findings

| source | as written | input that shows it | evidently intended | confidence | as-written member | corrected member |
|---|---|---|---|---|---|---|
| lecture6_task3/weather-forecast-app/services/db_service.py:30 | `init_database` declares a single `temperature` column. The UPDATE, INSERT and SELECT statements (lines 168, 176, 197-198) name `min_temperature` and `max_temperature`. | A new database after `init_database`, one area, and a forecast with one slot whose weather is non-empty. The write raises "no such column" and returns 0, and `get_weather_history` raises and returns []. | The table declares `min_temperature REAL` and `max_temperature REAL`. The slot is then stored as one row and read back with its area's name. | high, from reading the statements; not executed | WeatherStore.DatabaseService.InitDatabaseAsWritten, WeatherStore.SchemaMismatchScenario | WeatherStore.DatabaseService.InitDatabase, WeatherStore.StoredForecastScenario |
