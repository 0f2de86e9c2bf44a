/**
 * The forecast JSON of the Japan Meteorological Agency, as far as the weather app reads it:
 * a list of reports, each with a list of time series, each with its time slots
 * (`timeDefines`) and per-area value lists indexed like the slots.
 *
 * A key that may be absent is an `Option`; the store reads keys with `d[key]` (absent keys
 * raise) and the detail view with `d.get(key, default)`, and both readings are built on
 * these types.
 */
module Forecast {
  import opened Wrappers

  /** One entry of `temps`: its text, and what `float(text)` gives for it (None where
      `float` raises). */
  datatype Temp = Temp(text: string, reading: Option<real>)

  /** The `area` object of an area entry. */
  datatype AreaInfo = AreaInfo(name: Option<string>)

  /** One element of a time series' `areas`: the area and its value lists. */
  datatype AreaForecast = AreaForecast(
    area: Option<AreaInfo>,
    weathers: Option<seq<string>>,
    winds: Option<seq<string>>,
    waves: Option<seq<string>>,
    pops: Option<seq<string>>,
    temps: Option<seq<Temp>>)

  /** One element of `timeSeries`. */
  datatype TimeSeries = TimeSeries(timeDefines: Option<seq<string>>, areas: Option<seq<AreaForecast>>)

  /** One element of the top-level list. */
  datatype Report = Report(publishingOffice: Option<string>, timeSeries: Option<seq<TimeSeries>>)

  /** `xs[i] if i < len(xs) else default`. */
  function AtOr<T>(xs: seq<T>, i: nat, default: T): T {
    if i < |xs| then xs[i] else default
  }

  /** `xs[i]` of a list that may be absent, or None when the list is absent or too short. */
  function EntryAt<T>(xs: Option<seq<T>>, i: nat): Option<T> {
    match xs
    case None => None
    case Some(s) => if i < |s| then Some(s[i]) else None
  }
}
