/**
 * The weather history store of the forecast app: `DatabaseService` in
 * lecture6_task3/weather-forecast-app/services/db_service.py.
 *
 * `area` holds one row per area code with an AUTOINCREMENT id; `weather_info` holds one
 * row per (area id, slot time), which is how `insert_or_update_weather_data` looks rows up
 * and the only way rows get there, so the table is a map on that pair. A call either
 * commits in full or, when any read or statement raises, returns its error value with
 * nothing written.
 */
module WeatherStore {
  import opened Wrappers
  import opened PyText
  import opened Forecast

  // ---------------------------------------------------------------------------------
  // rain_dict: probability of precipitation by slot time
  // ---------------------------------------------------------------------------------

  /** Index `i` gives slot time `t` a probability: its `pops` entry exists and is not empty. */
  predicate UsablePop(times: seq<string>, pops: seq<string>, t: string, i: nat) {
    i < |times| && i < |pops| && times[i] == t && pops[i] != ""
  }

  /** Index `i` holds a probability that `parse` rejects. */
  predicate BadPop(pops: seq<string>, i: nat, parse: string -> Option<int>) {
    i < |pops| && pops[i] != "" && parse(pops[i]).None?
  }

  /** `rain_dict` once the loop has seen the first `n` slot times, each entry read with
      `parse` (`int()`, that is `PyInt`); None once `parse` has raised. */
  function RainMap(times: seq<string>, pops: seq<string>, n: nat, parse: string -> Option<int>): Option<map<string, int>>
    requires n <= |times|
  {
    if n == 0 then Some(map[])
    else match RainMap(times, pops, n - 1, parse)
      case None => None
      case Some(m) =>
        var i := n - 1;
        if i < |pops| && pops[i] != "" then
          match parse(pops[i])
          case None => None
          case Some(v) => Some(m[times[i] := v])
        else Some(m)
  }

  /** The loop raises exactly when one of the entries it reads is not an integer. */
  lemma {:induction false} RainMapFails(times: seq<string>, pops: seq<string>, n: nat, parse: string -> Option<int>)
    requires n <= |times|
    ensures RainMap(times, pops, n, parse).None? <==> exists i :: 0 <= i < n && BadPop(pops, i, parse)
  {
    if n > 0 {
      var i := n - 1;
      RainMapFails(times, pops, i, parse);
      if RainMap(times, pops, i, parse).Some? && !BadPop(pops, i, parse) {
        assert RainMap(times, pops, n, parse).Some?;
        assert forall j :: 0 <= j < n && BadPop(pops, j, parse) ==> j < i;
      }
    }
  }

  /** A slot time has a probability exactly when some entry for it is usable, and it is the
      value of the last such entry. */
  lemma {:induction false} RainMapLastWins(times: seq<string>, pops: seq<string>, n: nat, parse: string -> Option<int>, t: string)
    requires n <= |times| && RainMap(times, pops, n, parse).Some?
    ensures t in RainMap(times, pops, n, parse).value <==> exists i :: 0 <= i < n && UsablePop(times, pops, t, i)
    ensures t in RainMap(times, pops, n, parse).value ==>
      exists i :: 0 <= i < n && UsablePop(times, pops, t, i)
        && parse(pops[i]) == Some(RainMap(times, pops, n, parse).value[t])
        && forall j :: i < j < n ==> !UsablePop(times, pops, t, j)
  {
    if n > 0 {
      var i := n - 1;
      RainMapLastWins(times, pops, n - 1, parse, t);
      if UsablePop(times, pops, t, i) {
        assert RainMap(times, pops, n, parse).value[t] == parse(pops[i]).value;
      }
    }
  }

  /** The `rain_dict` loop. */
  method CollectRain(times: seq<string>, pops: seq<string>) returns (r: Option<map<string, int>>)
    ensures r == RainMap(times, pops, |times|, PyInt)
  {
    var rain: map<string, int> := map[];
    for i := 0 to |times|
      invariant RainMap(times, pops, i, PyInt) == Some(rain)
    {
      if i < |pops| && pops[i] != "" {
        var v := PyInt(pops[i]);
        if v.None? {
          assert BadPop(pops, i, PyInt);
          RainMapFails(times, pops, |times|, PyInt);
          return None;
        }
        rain := rain[times[i] := v.value];
      }
    }
    r := Some(rain);
  }

  // ---------------------------------------------------------------------------------
  // temp_dict: temperature readings by date
  // ---------------------------------------------------------------------------------

  /** `time.split('T')[0]`: the date part of a slot time. */
  function DateOf(time: string): string {
    Before(time, 'T')
  }

  /** Index `i` holds a temperature that `float()` rejects. */
  predicate BadTemp(temps: seq<Temp>, i: nat) {
    i < |temps| && temps[i].text != "" && temps[i].reading.None?
  }

  /** `temp_dict` once the loop has seen the first `n` slot times: each date with the readings
      appended in slot order; None once `float()` raised. */
  function TempGroups(times: seq<string>, temps: seq<Temp>, n: nat): Option<map<string, seq<real>>>
    requires n <= |times|
  {
    if n == 0 then Some(map[])
    else match TempGroups(times, temps, n - 1)
      case None => None
      case Some(g) =>
        var i := n - 1;
        if i < |temps| && temps[i].text != "" then
          match temps[i].reading
          case None => None
          case Some(x) =>
            var d := DateOf(times[i]);
            Some(g[d := (if d in g then g[d] else []) + [x]])
        else Some(g)
  }

  /** The readings of the slots dated `d` among the first `n`, in slot order. */
  function DayReadings(times: seq<string>, temps: seq<Temp>, d: string, n: nat): seq<real>
    requires n <= |times|
  {
    if n == 0 then []
    else
      var i := n - 1;
      var here := i < |temps| && temps[i].text != "" && temps[i].reading.Some? && DateOf(times[i]) == d;
      DayReadings(times, temps, d, n - 1) + (if here then [temps[i].reading.value] else [])
  }

  /** The loop raises exactly when one of the entries it reads is not a number. */
  lemma {:induction false} TempGroupsFails(times: seq<string>, temps: seq<Temp>, n: nat)
    requires n <= |times|
    ensures TempGroups(times, temps, n).None? <==> exists i :: 0 <= i < n && BadTemp(temps, i)
  {
    if n > 0 {
      var i := n - 1;
      TempGroupsFails(times, temps, i);
      if TempGroups(times, temps, i).Some? && !BadTemp(temps, i) {
        assert TempGroups(times, temps, n).Some?;
        assert forall j :: 0 <= j < n && BadTemp(temps, j) ==> j < i;
      }
    }
  }

  /** Each date holds exactly the readings of its slots, in order, and only dates with at
      least one reading are present. */
  lemma {:induction false} TempGroupsByDay(times: seq<string>, temps: seq<Temp>, n: nat, d: string)
    requires n <= |times| && TempGroups(times, temps, n).Some?
    ensures d in TempGroups(times, temps, n).value <==> DayReadings(times, temps, d, n) != []
    ensures d in TempGroups(times, temps, n).value ==>
      TempGroups(times, temps, n).value[d] == DayReadings(times, temps, d, n)
  {
    if n > 0 {
      TempGroupsByDay(times, temps, n - 1, d);
    }
  }

  /** The `temp_dict` loop. */
  method CollectTemps(times: seq<string>, temps: seq<Temp>) returns (r: Option<map<string, seq<real>>>)
    ensures r == TempGroups(times, temps, |times|)
  {
    var groups: map<string, seq<real>> := map[];
    for i := 0 to |times|
      invariant TempGroups(times, temps, i) == Some(groups)
    {
      if i < |temps| && temps[i].text != "" {
        if temps[i].reading.None? {
          assert BadTemp(temps, i);
          TempGroupsFails(times, temps, |times|);
          return None;
        }
        var x := temps[i].reading.value;
        var d := DateOf(times[i]);
        ghost var before := groups;
        if d !in groups {
          groups := groups[d := []];
        }
        groups := groups[d := groups[d] + [x]];
        assert groups == before[d := (if d in before then before[d] else []) + [x]];
      }
    }
    r := Some(groups);
  }

  /** `min(xs)`. */
  function SeqMin(xs: seq<real>): (r: real)
    requires xs != []
    ensures exists k :: 0 <= k < |xs| && r == xs[k]
    ensures forall k :: 0 <= k < |xs| ==> r <= xs[k]
  {
    if |xs| == 1 then xs[0]
    else
      var m := SeqMin(xs[..|xs| - 1]);
      assert xs == xs[..|xs| - 1] + [xs[|xs| - 1]];
      if xs[|xs| - 1] < m then xs[|xs| - 1] else m
  }

  /** `max(xs)`. */
  function SeqMax(xs: seq<real>): (r: real)
    requires xs != []
    ensures exists k :: 0 <= k < |xs| && r == xs[k]
    ensures forall k :: 0 <= k < |xs| ==> xs[k] <= r
  {
    if |xs| == 1 then xs[0]
    else
      var m := SeqMax(xs[..|xs| - 1]);
      assert xs == xs[..|xs| - 1] + [xs[|xs| - 1]];
      if m < xs[|xs| - 1] then xs[|xs| - 1] else m
  }

  /** A date's `{'min': ..., 'max': ...}` entry. */
  datatype TempRange = TempRange(min: Option<real>, max: Option<real>)

  /** `min(temps) if temps else None`, and the same for `max`. */
  function RangeOf(xs: seq<real>): TempRange {
    if xs == [] then TempRange(None, None) else TempRange(Some(SeqMin(xs)), Some(SeqMax(xs)))
  }

  /** The `min_max_temp_dict` loop over the dates of `temp_dict`. */
  method RangesByDate(groups: map<string, seq<real>>) returns (ranges: map<string, TempRange>)
    ensures ranges.Keys == groups.Keys
    ensures forall d :: d in groups ==> ranges[d] == RangeOf(groups[d])
  {
    ranges := map[];
    var remaining := groups.Keys;
    while remaining != {}
      invariant remaining <= groups.Keys && ranges.Keys == groups.Keys - remaining
      invariant forall d :: d in ranges ==> ranges[d] == RangeOf(groups[d])
      decreases |remaining|
    {
      var d :| d in remaining;
      assert |remaining - {d}| == |remaining| - 1;
      ranges := ranges[d := RangeOf(groups[d])];
      remaining := remaining - {d};
    }
  }

  // ---------------------------------------------------------------------------------
  // The forecast as the write loop reads it
  // ---------------------------------------------------------------------------------

  /** What the loop reads for one slot of the first series. */
  datatype Slot = Slot(
    time: string, weather: Option<string>, wind: Option<string>, wave: Option<string>,
    rainProba: Option<int>, minTemp: Option<real>, maxTemp: Option<real>)

  /** `if weather:` — the slot has a non-empty weather text and is written. */
  predicate HasWeather(s: Slot) {
    s.weather.Some? && s.weather.value != ""
  }

  /** Slot `i` at `time`: its weather, wind and wave if the lists reach that far, its
      probability by exact time, its temperatures by date. */
  function SlotAt(time: string, i: nat, area: AreaForecast, rain: map<string, int>,
                  ranges: map<string, TempRange>): Slot
  {
    var d := DateOf(time);
    Slot(time, EntryAt(area.weathers, i), EntryAt(area.winds, i), EntryAt(area.waves, i),
         if time in rain then Some(rain[time]) else None,
         if d in ranges then ranges[d].min else None,
         if d in ranges then ranges[d].max else None)
  }

  /** The slots the write loop walks through: one per time of the first series. */
  function Slots(times: seq<string>, area: AreaForecast, rain: map<string, int>,
                 ranges: map<string, TempRange>): (r: seq<Slot>)
    ensures |r| == |times|
    ensures forall i :: 0 <= i < |times| ==> r[i] == SlotAt(times[i], i, area, rain, ranges)
  {
    seq(|times|, i requires 0 <= i < |times| => SlotAt(times[i], i, area, rain, ranges))
  }

  /** `series['areas'][0]`: None where the read raises (no `areas`, or an empty list). */
  function FirstArea(series: TimeSeries): Option<AreaForecast> {
    match series.areas
    case None => None
    case Some(a) => if a == [] then None else Some(a[0])
  }

  /** `rain_dict`: empty unless there is a second series whose first area has `pops`. */
  function RainOf(series: seq<TimeSeries>): Option<map<string, int>> {
    if |series| <= 1 then Some(map[])
    else match FirstArea(series[1])
      case None => None
      case Some(a) =>
        match a.pops
        case None => Some(map[])
        case Some(pops) =>
          var times := series[1].timeDefines.GetOr([]);
          RainMap(times, pops, |times|, PyInt)
  }

  /** `temp_dict`: empty unless there is a third series whose first area has `temps`. */
  function TempsOf(series: seq<TimeSeries>): Option<map<string, seq<real>>> {
    if |series| <= 2 then Some(map[])
    else match FirstArea(series[2])
      case None => None
      case Some(a) =>
        match a.temps
        case None => Some(map[])
        case Some(temps) =>
          var times := series[2].timeDefines.GetOr([]);
          TempGroups(times, temps, |times|)
  }

  /** `min_max_temp_dict`. */
  function RangesOf(groups: map<string, seq<real>>): map<string, TempRange> {
    map d | d in groups :: RangeOf(groups[d])
  }

  /** Everything `insert_or_update_weather_data` reads before it touches the table: the slots
      of the first series, or None where a read raises. */
  function PlannedSlots(json: seq<Report>): Option<seq<Slot>> {
    if json == [] || json[0].timeSeries.None? then None
    else
      var series := json[0].timeSeries.value;
      if series == [] || series[0].timeDefines.None? || FirstArea(series[0]).None? then None
      else match RainOf(series)
        case None => None
        case Some(rain) =>
          match TempsOf(series)
          case None => None
          case Some(groups) =>
            Some(Slots(series[0].timeDefines.value, FirstArea(series[0]).value, rain, RangesOf(groups)))
  }

  /** Reading the first area of a series. */
  method ReadFirstArea(series: TimeSeries) returns (r: Option<AreaForecast>)
    ensures r == FirstArea(series)
  {
    if series.areas.None? || series.areas.value == [] {
      return None;
    }
    r := Some(series.areas.value[0]);
  }

  /** The reads of `insert_or_update_weather_data` up to the write loop. */
  method ReadForecast(json: seq<Report>) returns (r: Option<seq<Slot>>)
    ensures r == PlannedSlots(json)
  {
    if json == [] || json[0].timeSeries.None? {
      return None;
    }
    var series := json[0].timeSeries.value;
    if series == [] || series[0].timeDefines.None? {
      return None;
    }
    var times := series[0].timeDefines.value;
    var area := ReadFirstArea(series[0]);
    if area.None? {
      return None;
    }
    var rain: map<string, int> := map[];
    if |series| > 1 {
      var rainArea := ReadFirstArea(series[1]);
      if rainArea.None? {
        return None;
      }
      if rainArea.value.pops.Some? {
        var collected := CollectRain(series[1].timeDefines.GetOr([]), rainArea.value.pops.value);
        if collected.None? {
          return None;
        }
        rain := collected.value;
      }
    }
    assert RainOf(series) == Some(rain);
    var groups: map<string, seq<real>> := map[];
    if |series| > 2 {
      var tempArea := ReadFirstArea(series[2]);
      if tempArea.None? {
        return None;
      }
      if tempArea.value.temps.Some? {
        var collected := CollectTemps(series[2].timeDefines.GetOr([]), tempArea.value.temps.value);
        if collected.None? {
          return None;
        }
        groups := collected.value;
      }
    }
    assert TempsOf(series) == Some(groups);
    var ranges := RangesByDate(groups);
    assert ranges == RangesOf(groups);
    r := Some(Slots(times, area.value, rain, ranges));
  }

  // ---------------------------------------------------------------------------------
  // weather_info and the upsert
  // ---------------------------------------------------------------------------------

  /** A `weather_info` row is looked up by (area_id, time). */
  type SlotKey = (int, string)

  /** The columns of a `weather_info` row besides its key. */
  datatype WeatherRow = WeatherRow(
    id: int, minTemp: Option<real>, maxTemp: Option<real>, wind: Option<string>,
    wave: Option<string>, rainProba: Option<int>, weather: string)

  /** The table and its AUTOINCREMENT counter (one more than the largest id ever used). */
  datatype WeatherTable = WeatherTable(rows: map<SlotKey, WeatherRow>, nextId: int)

  /** Ids are positive, below the counter and distinct. */
  predicate TableValid(t: WeatherTable) {
    && t.nextId >= 1
    && (forall k :: k in t.rows ==> 1 <= t.rows[k].id < t.nextId)
    && (forall k, l :: k in t.rows && l in t.rows && k != l ==> t.rows[k].id != t.rows[l].id)
  }

  /** The row a slot with weather writes, under row id `id`. */
  function RowOf(s: Slot, id: int): WeatherRow
    requires HasWeather(s)
  {
    WeatherRow(id, s.minTemp, s.maxTemp, s.wind, s.wave, s.rainProba, s.weather.value)
  }

  /** One write: UPDATE the row of (area, time) in place, keeping its id, or INSERT a new one
      under the next id. */
  function Upsert(t: WeatherTable, areaId: int, s: Slot): WeatherTable
    requires HasWeather(s)
  {
    var k := (areaId, s.time);
    if k in t.rows then WeatherTable(t.rows[k := RowOf(s, t.rows[k].id)], t.nextId)
    else WeatherTable(t.rows[k := RowOf(s, t.nextId)], t.nextId + 1)
  }

  /** The table after the loop has written the slots with weather, in order. */
  function UpsertAll(t: WeatherTable, areaId: int, slots: seq<Slot>): WeatherTable
    decreases |slots|
  {
    if slots == [] then t
    else
      var before := UpsertAll(t, areaId, slots[..|slots| - 1]);
      var s := slots[|slots| - 1];
      if HasWeather(s) then Upsert(before, areaId, s) else before
  }

  /** `inserted_count + updated_count`: the number of slots with weather. */
  function WeatherCount(slots: seq<Slot>): nat
    decreases |slots|
  {
    if slots == [] then 0
    else WeatherCount(slots[..|slots| - 1]) + (if HasWeather(slots[|slots| - 1]) then 1 else 0)
  }

  /** The keys the slots with weather write. */
  function WrittenKeys(areaId: int, slots: seq<Slot>): set<SlotKey> {
    set i | 0 <= i < |slots| && HasWeather(slots[i]) :: (areaId, slots[i].time)
  }

  /** One write keeps the ids valid and never lowers the counter. */
  lemma UpsertValid(t: WeatherTable, areaId: int, s: Slot)
    requires TableValid(t) && HasWeather(s)
    ensures TableValid(Upsert(t, areaId, s))
    ensures Upsert(t, areaId, s).nextId >= t.nextId
  {
  }

  /** Writing keeps the ids positive, below the counter and distinct. */
  lemma {:induction false} UpsertAllValid(t: WeatherTable, areaId: int, slots: seq<Slot>)
    requires TableValid(t)
    ensures TableValid(UpsertAll(t, areaId, slots))
    ensures UpsertAll(t, areaId, slots).nextId >= t.nextId
    decreases |slots|
  {
    if slots != [] {
      var s := slots[|slots| - 1];
      UpsertAllValid(t, areaId, slots[..|slots| - 1]);
      if HasWeather(s) {
        UpsertValid(UpsertAll(t, areaId, slots[..|slots| - 1]), areaId, s);
      }
    }
  }

  /** The written keys of a run are those of all but its last slot plus the last slot's. */
  lemma WrittenKeysStep(areaId: int, slots: seq<Slot>)
    requires slots != []
    ensures var s := slots[|slots| - 1];
      WrittenKeys(areaId, slots) ==
        WrittenKeys(areaId, slots[..|slots| - 1]) + (if HasWeather(s) then {(areaId, s.time)} else {})
  {
    var pre := slots[..|slots| - 1];
    forall k | k in WrittenKeys(areaId, pre) ensures k in WrittenKeys(areaId, slots) {
      var i :| 0 <= i < |pre| && HasWeather(pre[i]) && k == (areaId, pre[i].time);
      assert slots[i] == pre[i];
    }
  }

  /** The table afterwards has the keys it had and one per slot time with weather: never
      more than one row per (area, time). */
  lemma {:induction false} UpsertAllKeys(t: WeatherTable, areaId: int, slots: seq<Slot>)
    ensures UpsertAll(t, areaId, slots).rows.Keys == t.rows.Keys + WrittenKeys(areaId, slots)
    decreases |slots|
  {
    if slots != [] {
      UpsertAllKeys(t, areaId, slots[..|slots| - 1]);
      WrittenKeysStep(areaId, slots);
    }
  }

  /** A row no slot writes is left as it was, and a row that existed keeps its id. */
  lemma {:induction false} UpsertAllKeepsOthers(t: WeatherTable, areaId: int, slots: seq<Slot>, k: SlotKey)
    requires k in t.rows
    ensures k in UpsertAll(t, areaId, slots).rows
    ensures UpsertAll(t, areaId, slots).rows[k].id == t.rows[k].id
    ensures k !in WrittenKeys(areaId, slots) ==> UpsertAll(t, areaId, slots).rows[k] == t.rows[k]
    decreases |slots|
  {
    if slots != [] {
      UpsertAllKeepsOthers(t, areaId, slots[..|slots| - 1], k);
      WrittenKeysStep(areaId, slots);
    }
  }

  /** The row of a slot time holds the values of the last slot with weather at that time. */
  lemma {:induction false} UpsertAllLastWins(t: WeatherTable, areaId: int, slots: seq<Slot>, i: nat)
    requires i < |slots| && HasWeather(slots[i])
    requires forall j :: i < j < |slots| && HasWeather(slots[j]) ==> slots[j].time != slots[i].time
    ensures (areaId, slots[i].time) in UpsertAll(t, areaId, slots).rows
    ensures var row := UpsertAll(t, areaId, slots).rows[(areaId, slots[i].time)];
      row == RowOf(slots[i], row.id)
    decreases |slots|
  {
    if i < |slots| - 1 {
      UpsertAllLastWins(t, areaId, slots[..|slots| - 1], i);
    }
  }

  /** Slots without weather write nothing. */
  lemma {:induction false} UpsertAllWithoutWeather(t: WeatherTable, areaId: int, slots: seq<Slot>)
    requires WeatherCount(slots) == 0
    ensures UpsertAll(t, areaId, slots) == t
    decreases |slots|
  {
    if slots != [] {
      UpsertAllWithoutWeather(t, areaId, slots[..|slots| - 1]);
    }
  }

  /** A slot with weather makes the count of the prefix ending in it positive. */
  lemma WeatherCountPositive(slots: seq<Slot>, i: nat)
    requires i < |slots| && HasWeather(slots[i])
    ensures WeatherCount(slots[..i + 1]) > 0
  {
    assert slots[..i + 1][..i] == slots[..i];
  }

  /** A later prefix counts at least as many slots with weather. */
  lemma {:induction false} WeatherCountMonotone(slots: seq<Slot>, i: nat)
    requires i <= |slots|
    ensures WeatherCount(slots[..i]) <= WeatherCount(slots)
    decreases |slots| - i
  {
    if i < |slots| {
      WeatherCountMonotone(slots, i + 1);
      assert slots[..i + 1][..i] == slots[..i];
    } else {
      assert slots[..i] == slots;
    }
  }

  /** Whether the write loop runs to its commit: no slot with weather, or both a table to
      look rows up in and the columns the statements name. */
  predicate WritesCommit(slots: seq<Slot>, tablesExist: bool, minMaxColumns: bool) {
    WeatherCount(slots) == 0 || (tablesExist && minMaxColumns)
  }

  // ---------------------------------------------------------------------------------
  // get_weather_history
  // ---------------------------------------------------------------------------------

  /** `LIMIT limit` on `n` rows; SQLite reads a negative limit as no limit. */
  function LimitCount(n: nat, limit: int): nat {
    if limit < 0 || n <= limit then n else limit
  }

  /** Keys by descending slot time (ORDER BY time DESC, text compared by code point). */
  predicate ByTimeDesc(ks: seq<SlotKey>) {
    forall i, j :: 0 <= i < j < |ks| ==> TextLe(ks[j].1, ks[i].1)
  }

  /** What the selection has established after taking `ks` out of `keys`. */
  ghost predicate TakenSoFar(keys: set<SlotKey>, ks: seq<SlotKey>, remaining: set<SlotKey>) {
    && remaining <= keys
    && (forall i :: 0 <= i < |ks| ==> ks[i] in keys && ks[i] !in remaining)
    && (forall i, j :: 0 <= i < j < |ks| ==> ks[i] != ks[j])
    && (forall k :: k in keys ==> k in remaining || k in ks)
    && ByTimeDesc(ks)
    && (forall i, k :: 0 <= i < |ks| && k in remaining ==> TextLe(k.1, ks[i].1))
    && |ks| + |remaining| == |keys|
  }

  /** A non-empty set of keys has one with the latest time. */
  lemma {:induction false} LatestExists(keys: set<SlotKey>)
    requires keys != {}
    ensures exists k :: k in keys && forall o :: o in keys ==> TextLe(o.1, k.1)
    decreases |keys|
  {
    var x :| x in keys;
    TextLeReflexive(x.1);
    var rest := keys - {x};
    if rest == {} {
      assert keys == {x};
    } else {
      LatestExists(rest);
      var m :| m in rest && forall o :: o in rest ==> TextLe(o.1, m.1);
      TextLeTotal(x.1, m.1);
      if TextLe(x.1, m.1) {
        assert forall o :: o in keys ==> TextLe(o.1, m.1);
      } else {
        forall o | o in keys ensures TextLe(o.1, x.1) {
          if o != x {
            TextLeTransitive(o.1, m.1, x.1);
          }
        }
      }
    }
  }

  /** Taking a remaining key with the latest time keeps `TakenSoFar`. */
  lemma TakenSoFarStep(keys: set<SlotKey>, ks: seq<SlotKey>, remaining: set<SlotKey>, k: SlotKey)
    requires TakenSoFar(keys, ks, remaining)
    requires k in remaining && forall o :: o in remaining ==> TextLe(o.1, k.1)
    ensures TakenSoFar(keys, ks + [k], remaining - {k})
  {
    assert |remaining - {k}| == |remaining| - 1;
    forall i, o | 0 <= i < |ks| + 1 && o in remaining - {k} ensures TextLe(o.1, (ks + [k])[i].1) {
      if i == |ks| {
        assert (ks + [k])[i] == k;
      } else {
        assert (ks + [k])[i] == ks[i];
      }
    }
  }

  /** `ORDER BY time DESC LIMIT limit` over a set of keys: at most `limit` of them (all when
      the limit is negative), each once, latest first, and none left out that is later than
      one taken. Rows with equal times come in an order SQLite leaves open. */
  method LatestFirst(keys: set<SlotKey>, limit: int) returns (ks: seq<SlotKey>)
    ensures |ks| == LimitCount(|keys|, limit)
    ensures forall i :: 0 <= i < |ks| ==> ks[i] in keys
    ensures forall i, j :: 0 <= i < j < |ks| ==> ks[i] != ks[j]
    ensures ByTimeDesc(ks)
    ensures forall k, i :: k in keys && k !in ks && 0 <= i < |ks| ==> TextLe(k.1, ks[i].1)
  {
    var remaining := keys;
    ks := [];
    while remaining != {} && (limit < 0 || |ks| < limit)
      invariant TakenSoFar(keys, ks, remaining)
      invariant limit >= 0 ==> |ks| <= limit
      decreases |remaining|
    {
      LatestExists(remaining);
      var k :| k in remaining && forall o :: o in remaining ==> TextLe(o.1, k.1);
      TakenSoFarStep(keys, ks, remaining, k);
      ks := ks + [k];
      remaining := remaining - {k};
    }
  }

  /** `if area_id:` — no filter when the code is None or empty. */
  function Filter(areaCode: Option<string>): Option<string> {
    if areaCode.Some? && areaCode.value != "" then areaCode else None
  }

  /** A row of the history: `w.id, a.area_name, w.time, w.weather, w.min_temperature,
      w.max_temperature, w.wind, w.wave, w.rain_proba`. */
  datatype HistoryRow = HistoryRow(
    id: int, areaName: string, time: string, weather: string, minTemp: Option<real>,
    maxTemp: Option<real>, wind: Option<string>, wave: Option<string>, rainProba: Option<int>)

  /** The history row of weather row `w` at key `k`, joined with the area named `name`. */
  function HistoryOf(k: SlotKey, w: WeatherRow, name: string): HistoryRow {
    HistoryRow(w.id, name, k.1, w.weather, w.minTemp, w.maxTemp, w.wind, w.wave, w.rainProba)
  }

  /** An `area` row: its AUTOINCREMENT id and its name, filed under its UNIQUE `area_id`. */
  datatype AreaRow = AreaRow(id: int, name: string)

  class DatabaseService {
    /** Whether `init_database` has created the two tables. */
    var tablesExist: bool
    /** Whether `weather_info` has the `min_temperature` and `max_temperature` columns that
        the statements name; the schema as written declares `temperature` instead. */
    var minMaxColumns: bool
    /** `area`, keyed by its `area_id` code. */
    var areas: map<string, AreaRow>
    /** The AUTOINCREMENT counter of `area`. */
    var nextAreaId: int
    /** `weather_info`, keyed by (area_id, time). */
    var weather: map<SlotKey, WeatherRow>
    /** The AUTOINCREMENT counter of `weather_info`. */
    var nextWeatherId: int

    /** Area ids are positive, below the counter and distinct; so are weather row ids; no
        rows while the tables do not exist. */
    ghost predicate Valid()
      reads this
    {
      && nextAreaId >= 1
      && (forall c :: c in areas ==> 1 <= areas[c].id < nextAreaId)
      && (forall c, d :: c in areas && d in areas && c != d ==> areas[c].id != areas[d].id)
      && TableValid(WeatherTable(weather, nextWeatherId))
      && (!tablesExist ==> areas == map[] && weather == map[])
    }

    /** A service on a database file without tables. */
    constructor ()
      ensures Valid() && !tablesExist
      ensures areas == map[] && weather == map[] && nextAreaId == 1 && nextWeatherId == 1
    {
      tablesExist := false;
      minMaxColumns := false;
      areas := map[];
      nextAreaId := 1;
      weather := map[];
      nextWeatherId := 1;
    }

    /** `init_database` as written: CREATE TABLE IF NOT EXISTS with `weather_info` declaring
        a single `temperature` column. Existing tables are kept as they are. */
    method InitDatabaseAsWritten()
      requires Valid()
      modifies this
      ensures Valid() && tablesExist
      ensures !old(tablesExist) ==> !minMaxColumns
      ensures old(tablesExist) ==> minMaxColumns == old(minMaxColumns)
      ensures areas == old(areas) && weather == old(weather)
      ensures nextAreaId == old(nextAreaId) && nextWeatherId == old(nextWeatherId)
    {
      if !tablesExist {
        tablesExist := true;
        minMaxColumns := false;
      }
    }

    /** `init_database` declaring the `min_temperature` and `max_temperature` columns that
        the statements of this class read and write. Existing tables are kept as they are. */
    method InitDatabase()
      requires Valid()
      modifies this
      ensures Valid() && tablesExist
      ensures !old(tablesExist) ==> minMaxColumns
      ensures old(tablesExist) ==> minMaxColumns == old(minMaxColumns)
      ensures areas == old(areas) && weather == old(weather)
      ensures nextAreaId == old(nextAreaId) && nextWeatherId == old(nextWeatherId)
    {
      if !tablesExist {
        tablesExist := true;
        minMaxColumns := true;
      }
    }

    /** `insert_area`: the id of the row with that code if there is one, without inserting;
        otherwise a new row under a fresh id. None when the table is missing. */
    method InsertArea(name: string, code: string) returns (id: Option<int>)
      requires Valid()
      modifies this
      ensures Valid()
      ensures tablesExist == old(tablesExist) && minMaxColumns == old(minMaxColumns)
      ensures weather == old(weather) && nextWeatherId == old(nextWeatherId)
      ensures !tablesExist ==> id.None? && areas == old(areas) && nextAreaId == old(nextAreaId)
      ensures tablesExist && code in old(areas) ==>
        id == Some(old(areas)[code].id) && areas == old(areas) && nextAreaId == old(nextAreaId)
      ensures tablesExist && code !in old(areas) ==>
        && id == Some(old(nextAreaId))
        && areas == old(areas)[code := AreaRow(old(nextAreaId), name)]
        && nextAreaId == old(nextAreaId) + 1
      ensures id.Some? ==> code in areas && areas[code].id == id.value
    {
      if !tablesExist {
        return None;
      }
      if code in areas {
        return Some(areas[code].id);
      }
      id := Some(nextAreaId);
      areas := areas[code := AreaRow(nextAreaId, name)];
      nextAreaId := nextAreaId + 1;
    }

    /** The write loop and the commit: each slot with weather is looked up by (area, time)
        and updated or inserted; the SELECT on a missing table, or the UPDATE or INSERT on a
        table without the columns they name, raises and nothing is committed. */
    method WriteSlots(areaDbId: int, slots: seq<Slot>) returns (n: int)
      requires Valid()
      modifies this
      ensures Valid()
      ensures tablesExist == old(tablesExist) && minMaxColumns == old(minMaxColumns)
      ensures areas == old(areas) && nextAreaId == old(nextAreaId)
      ensures WritesCommit(slots, old(tablesExist), old(minMaxColumns)) ==>
        && n == WeatherCount(slots)
        && WeatherTable(weather, nextWeatherId) ==
             UpsertAll(WeatherTable(old(weather), old(nextWeatherId)), areaDbId, slots)
      ensures !WritesCommit(slots, old(tablesExist), old(minMaxColumns)) ==>
        n == 0 && weather == old(weather) && nextWeatherId == old(nextWeatherId)
    {
      var table := WeatherTable(weather, nextWeatherId);
      var inserted, updated := 0, 0;
      for i := 0 to |slots|
        invariant table == UpsertAll(WeatherTable(weather, nextWeatherId), areaDbId, slots[..i])
        invariant inserted + updated == WeatherCount(slots[..i])
        invariant WeatherCount(slots[..i]) > 0 ==> tablesExist && minMaxColumns
      {
        var s := slots[i];
        assert slots[..i + 1][..i] == slots[..i];
        if HasWeather(s) {
          if !tablesExist || !minMaxColumns {
            WeatherCountPositive(slots, i);
            WeatherCountMonotone(slots, i + 1);
            return 0;
          }
          if (areaDbId, s.time) in table.rows {
            updated := updated + 1;
          } else {
            inserted := inserted + 1;
          }
          table := Upsert(table, areaDbId, s);
        }
      }
      assert slots[..|slots|] == slots;
      UpsertAllValid(WeatherTable(weather, nextWeatherId), areaDbId, slots);
      if WeatherCount(slots) == 0 {
        UpsertAllWithoutWeather(WeatherTable(weather, nextWeatherId), areaDbId, slots);
      }
      weather, nextWeatherId := table.rows, table.nextId;
      n := inserted + updated;
    }

    /** `insert_or_update_weather_data`: 0 with nothing written when a read of the forecast
        raises or the writes cannot commit; otherwise the number of slots with weather,
        each upserted under (area, time). */
    method InsertOrUpdateWeatherData(areaDbId: int, json: seq<Report>) returns (n: int)
      requires Valid()
      modifies this
      ensures Valid()
      ensures tablesExist == old(tablesExist) && minMaxColumns == old(minMaxColumns)
      ensures areas == old(areas) && nextAreaId == old(nextAreaId)
      ensures PlannedSlots(json).None? ==>
        n == 0 && weather == old(weather) && nextWeatherId == old(nextWeatherId)
      ensures PlannedSlots(json).Some? ==>
        var slots := PlannedSlots(json).value;
        && (WritesCommit(slots, old(tablesExist), old(minMaxColumns)) ==>
              && n == WeatherCount(slots)
              && WeatherTable(weather, nextWeatherId) ==
                   UpsertAll(WeatherTable(old(weather), old(nextWeatherId)), areaDbId, slots))
        && (!WritesCommit(slots, old(tablesExist), old(minMaxColumns)) ==>
              n == 0 && weather == old(weather) && nextWeatherId == old(nextWeatherId))
    {
      var slots := ReadForecast(json);
      if slots.None? {
        return 0;
      }
      n := WriteSlots(areaDbId, slots.value);
    }

    /** Whether a row's area id joins an `area` row that the filter selects. */
    predicate Joined(id: int, code: Option<string>)
      reads this
    {
      match Filter(code)
      case None => exists c :: c in areas && areas[c].id == id
      case Some(f) => f in areas && areas[f].id == id
    }

    /** The weather rows the JOIN keeps and the WHERE selects. */
    function Matching(code: Option<string>): set<SlotKey>
      reads this
    {
      set k | k in weather && Joined(k.0, code)
    }

    /** `r` is the joined row of weather row `k`. */
    ghost predicate IsHistoryRow(r: HistoryRow, k: SlotKey)
      reads this
    {
      k in weather && exists c :: c in areas && areas[c].id == k.0 && r == HistoryOf(k, weather[k], areas[c].name)
    }

    /** What `get_weather_history` promises: `LIMIT` many of the matching rows, each once,
        latest first, and no matching row left out that is later than one returned. */
    ghost predicate IsHistory(rows: seq<HistoryRow>, code: Option<string>, limit: int)
      reads this
    {
      && |rows| == LimitCount(|Matching(code)|, limit)
      && (forall i :: 0 <= i < |rows| ==> exists k :: k in Matching(code) && IsHistoryRow(rows[i], k))
      && (forall i, j :: 0 <= i < j < |rows| ==> rows[i].id != rows[j].id && TextLe(rows[j].time, rows[i].time))
      && (forall k, i ::
            k in Matching(code) && 0 <= i < |rows| && (forall j :: 0 <= j < |rows| ==> rows[j].id != weather[k].id)
            ==> TextLe(k.1, rows[i].time))
    }

    /** `get_weather_history`: an empty list when the query raises (no tables, or a table
        without the selected columns); otherwise the history. */
    method GetWeatherHistory(code: Option<string>, limit: int) returns (rows: seq<HistoryRow>)
      requires Valid()
      ensures !tablesExist || !minMaxColumns ==> rows == []
      ensures tablesExist && minMaxColumns ==> IsHistory(rows, code, limit)
    {
      if !tablesExist || !minMaxColumns {
        return [];
      }
      var matching := Matching(code);
      var ks := LatestFirst(matching, limit);
      rows := [];
      for i := 0 to |ks|
        invariant |rows| == i
        invariant forall j :: 0 <= j < i ==> IsHistoryRow(rows[j], ks[j]) && rows[j].id == weather[ks[j]].id
        invariant forall j :: 0 <= j < i ==> rows[j].time == ks[j].1
      {
        var k := ks[i];
        var c :| c in areas && areas[c].id == k.0;
        rows := rows + [HistoryOf(k, weather[k], areas[c].name)];
      }
      HistoryHolds(matching, ks, rows, code, limit);
    }

    /** Rows built one per selected key, in the selection's order, make a history: the
        order and the "no later row left out" of the keys carry over to the rows because
        distinct keys have distinct row ids. */
    lemma HistoryHolds(matching: set<SlotKey>, ks: seq<SlotKey>, rows: seq<HistoryRow>, code: Option<string>, limit: int)
      requires Valid() && matching == Matching(code)
      requires |ks| == LimitCount(|matching|, limit) && |rows| == |ks|
      requires forall i :: 0 <= i < |ks| ==> ks[i] in matching
      requires forall i, j :: 0 <= i < j < |ks| ==> ks[i] != ks[j]
      requires ByTimeDesc(ks)
      requires forall k, i :: k in matching && k !in ks && 0 <= i < |ks| ==> TextLe(k.1, ks[i].1)
      requires forall j :: 0 <= j < |ks| ==> IsHistoryRow(rows[j], ks[j]) && rows[j].id == weather[ks[j]].id
      requires forall j :: 0 <= j < |ks| ==> rows[j].time == ks[j].1
      ensures IsHistory(rows, code, limit)
    {
      assert TableValid(WeatherTable(weather, nextWeatherId));
      forall i | 0 <= i < |rows| ensures exists k :: k in Matching(code) && IsHistoryRow(rows[i], k) {
        assert ks[i] in Matching(code) && IsHistoryRow(rows[i], ks[i]);
      }
      forall i, j | 0 <= i < j < |rows| ensures rows[i].id != rows[j].id && TextLe(rows[j].time, rows[i].time) {
        assert ks[i] != ks[j] && ks[i] in weather && ks[j] in weather;
        assert TextLe(ks[j].1, ks[i].1);
      }
      forall k, i | k in matching && 0 <= i < |rows| && (forall j :: 0 <= j < |rows| ==> rows[j].id != weather[k].id)
        ensures TextLe(k.1, rows[i].time)
      {
        forall j | 0 <= j < |ks| ensures ks[j] != k {
          assert rows[j].id == weather[ks[j]].id;
        }
        assert k !in ks;
      }
    }

    /** With one area and one weather row, the unfiltered history is that row, named. */
    lemma SingleRowHistory(rows: seq<HistoryRow>, code: string, name: string, k: SlotKey, w: WeatherRow)
      requires areas == map[code := AreaRow(k.0, name)] && weather == map[k := w]
      requires IsHistory(rows, None, 100)
      ensures rows == [HistoryOf(k, w, name)]
    {
      assert code in areas && areas[code].id == k.0;
      assert Joined(k.0, None);
      assert Matching(None) == {k};
      assert |rows| == 1;
      var k' :| k' in Matching(None) && IsHistoryRow(rows[0], k');
    }
  }

  /** A forecast with one slot of the given weather and no other series. */
  function OneSlotForecast(time: string, sky: string): seq<Report> {
    [Report(None, Some([TimeSeries(Some([time]), Some([AreaForecast(None, Some([sky]), None, None, None, None)]))]))]
  }

  /** A forecast with one slot of non-empty weather reads as that one slot. */
  lemma OneSlotPlanned(time: string, sky: string)
    ensures PlannedSlots(OneSlotForecast(time, sky)) == Some([Slot(time, Some(sky), None, None, None, None, None)])
  {
    var area := AreaForecast(None, Some([sky]), None, None, None, None);
    var s := Slot(time, Some(sky), None, None, None, None, None);
    assert RangesOf(map[]) == map[];
    assert SlotAt(time, 0, area, map[], map[]) == s;
    var r := Slots([time], area, map[], map[]);
    assert r == [s];
  }

  /** On a database that `init_database` as written has created, a forecast with weather is
      never stored: the write returns 0 and the history is empty. */
  method SchemaMismatchScenario(name: string, code: string, time: string, sky: string)
    returns (n: int, rows: seq<HistoryRow>)
    requires sky != ""
    ensures n == 0 && rows == []
  {
    var db := new DatabaseService();
    db.InitDatabaseAsWritten();
    var id := db.InsertArea(name, code);
    OneSlotPlanned(time, sky);
    assert WeatherCount([Slot(time, Some(sky), None, None, None, None, None)]) == 1;
    n := db.InsertOrUpdateWeatherData(id.value, OneSlotForecast(time, sky));
    rows := db.GetWeatherHistory(None, 100);
  }

  /** One slot with weather, written into an empty table, becomes its first row. */
  lemma OneSlotWritten(s: Slot)
    requires HasWeather(s)
    ensures WeatherCount([s]) == 1
    ensures UpsertAll(WeatherTable(map[], 1), 1, [s]) == WeatherTable(map[(1, s.time) := RowOf(s, 1)], 2)
  {
    assert [s][..0] == [];
  }

  /** With the columns the statements name, the same forecast is stored as one row and read
      back through the history with its area's name. */
  method StoredForecastScenario(name: string, code: string, time: string, sky: string)
    returns (n: int, rows: seq<HistoryRow>)
    requires sky != ""
    ensures n == 1
    ensures rows == [HistoryRow(1, name, time, sky, None, None, None, None, None)]
  {
    var db := new DatabaseService();
    db.InitDatabase();
    var id := db.InsertArea(name, code);
    OneSlotPlanned(time, sky);
    var s := Slot(time, Some(sky), None, None, None, None, None);
    OneSlotWritten(s);
    n := db.InsertOrUpdateWeatherData(id.value, OneSlotForecast(time, sky));
    rows := db.GetWeatherHistory(None, 100);
    db.SingleRowHistory(rows, code, name, (1, time), RowOf(s, 1));
  }

  /** Two `insert_area` calls with one code give the same id, and the second inserts nothing. */
  method InsertAreaTwiceScenario(code: string, first: string, second: string)
    returns (a: Option<int>, b: Option<int>, names: map<string, AreaRow>)
    ensures a == b == Some(1)
    ensures names == map[code := AreaRow(1, first)]
  {
    var db := new DatabaseService();
    db.InitDatabase();
    a := db.InsertArea(first, code);
    b := db.InsertArea(second, code);
    names := db.areas;
  }
}
