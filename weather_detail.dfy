/**
 * The forecast detail screen: the area heading, the temperature labels built from the
 * `temps` list in pairs, up to three forecast cards with their defaults, and the weather
 * icon each card shows.
 */
module WeatherDetail {
  import opened Wrappers
  import opened PyText
  import opened Forecast

  /** The text a card shows for a value the forecast does not have. */
  const NoInfo := "情報なし"
  /** The temperature label when neither reading of a day is known. */
  const NoTemp := "気温情報なし"
  /** The heading while no area name is found. */
  const UnknownArea := "不明な地域"

  // ---------------------------------------------------------------------------------
  // Temperature labels
  // ---------------------------------------------------------------------------------

  /** The label of one day from its minimum and maximum texts (an empty text is missing). */
  function PairLabel(min: string, max: string): string {
    if min != "" && max != "" then
      if min == max then "最高: " + max + "℃" else min + "℃ / " + max + "℃"
    else if max != "" then "最高: " + max + "℃"
    else if min != "" then "最低: " + min + "℃"
    else NoTemp
  }

  /** The label of a last element without a partner. */
  function OddLabel(t: string): string {
    if t != "" then t + "℃" else NoTemp
  }

  /** The labels of `temps` read as `[min, max, min, max, ...]`. */
  function PairLabels(temps: seq<string>): seq<string>
    decreases |temps|
  {
    if |temps| == 0 then []
    else if |temps| == 1 then [OddLabel(temps[0])]
    else [PairLabel(temps[0], temps[1])] + PairLabels(temps[2..])
  }

  /** One label per pair, and one for an odd last element. */
  lemma {:induction false} PairLabelsCount(temps: seq<string>)
    ensures |PairLabels(temps)| == (|temps| + 1) / 2
    decreases |temps|
  {
    if |temps| >= 2 {
      PairLabelsCount(temps[2..]);
    }
  }

  /** Label `k` is made from `temps[2k]` and `temps[2k+1]`, or from `temps[2k]` alone when
      it is the last element. */
  lemma {:induction false} PairLabelsAt(temps: seq<string>, k: nat)
    requires 2 * k < |temps|
    ensures k < |PairLabels(temps)|
    ensures PairLabels(temps)[k] ==
      if 2 * k + 1 < |temps| then PairLabel(temps[2 * k], temps[2 * k + 1]) else OddLabel(temps[2 * k])
    decreases k
  {
    PairLabelsCount(temps);
    if k > 0 {
      PairLabelsAt(temps[2..], k - 1);
      assert temps[2..][2 * (k - 1)] == temps[2 * k];
      if 2 * k + 1 < |temps| {
        assert temps[2..][2 * (k - 1) + 1] == temps[2 * k + 1];
      }
    }
  }

  /** A label never hides a known reading, and says that nothing is known exactly when both
      readings are missing. */
  lemma PairLabelShows(min: string, max: string)
    ensures min != "" ==> Contains(PairLabel(min, max), min)
    ensures max != "" ==> Contains(PairLabel(min, max), max)
    ensures PairLabel(min, max) == NoTemp <==> min == "" && max == ""
  {
    var r := PairLabel(min, max);
    if min != "" && max != "" {
      if min == max {
        ContainsInfix("最高: ", max, "℃");
        assert r[|r| - 1] == '℃';
      } else {
        ContainsInfix("", min, "℃ / " + max + "℃");
        assert "" + min + ("℃ / " + max + "℃") == r;
        ContainsInfix(min + "℃ / ", max, "℃");
        assert r[|r| - 1] == '℃';
      }
    } else if max != "" {
      ContainsInfix("最高: ", max, "℃");
      assert r[|r| - 1] == '℃';
    } else if min != "" {
      ContainsInfix("最低: ", min, "℃");
      assert r[|r| - 1] == '℃';
      assert r[1] == '低';
    } else {
      assert r[1] == '温';
    }
  }

  /** The label of a lone last element shows it, or says nothing is known when it is empty. */
  lemma OddLabelShows(t: string)
    ensures t != "" ==> Contains(OddLabel(t), t)
    ensures OddLabel(t) == NoTemp <==> t == ""
  {
    if t != "" {
      ContainsInfix("", t, "℃");
      assert "" + t + "℃" == OddLabel(t);
      assert OddLabel(t)[|OddLabel(t)| - 1] == '℃';
    }
  }

  /** The loop of `_display_weather` that steps through `temps` two at a time. */
  method TempLabels(temps: seq<string>) returns (labels: seq<string>)
    ensures labels == PairLabels(temps)
  {
    labels := [];
    var i := 0;
    while i < |temps|
      invariant i % 2 == 0 && i <= |temps| + 1
      invariant i > |temps| ==> labels == PairLabels(temps)
      invariant i <= |temps| ==> labels + PairLabels(temps[i..]) == PairLabels(temps)
      decreases |temps| - i
    {
      if i + 1 < |temps| {
        assert temps[i..][2..] == temps[i + 2..];
        labels := labels + [PairLabel(temps[i], temps[i + 1])];
      } else {
        assert temps[i..] == [temps[i]];
        labels := labels + [OddLabel(temps[i])];
      }
      i := i + 2;
    }
    if i == |temps| {
      assert temps[i..] == [];
    }
  }

  // ---------------------------------------------------------------------------------
  // Weather icon
  // ---------------------------------------------------------------------------------

  /** The icon and its colour. */
  datatype Icon = WaterDrop | Cloud | AcUnit | WbSunny | HelpOutline
  datatype Color = Blue | Grey | Cyan | Orange

  /** The icon of a card: the first of rain or thunder, clouds, snow and sun that the weather
      text mentions, and a grey question mark when it mentions none. */
  function WeatherIcon(weather: string): (Icon, Color) {
    if '雨' in weather || '雷' in weather then (WaterDrop, Blue)
    else if '曇' in weather then (Cloud, Grey)
    else if '雪' in weather then (AcUnit, Cyan)
    else if '晴' in weather then (WbSunny, Orange)
    else (HelpOutline, Grey)
  }

  /** The icon rules in order of precedence: a character and the icon it selects. */
  const IconRules: seq<(char, (Icon, Color))> :=
    [('雨', (WaterDrop, Blue)), ('雷', (WaterDrop, Blue)), ('曇', (Cloud, Grey)),
     ('雪', (AcUnit, Cyan)), ('晴', (WbSunny, Orange))]

  /** The icon of the first rule whose character the text contains. */
  function FirstRule(rules: seq<(char, (Icon, Color))>, weather: string): Option<(Icon, Color)>
    decreases |rules|
  {
    if rules == [] then None
    else if rules[0].0 in weather then Some(rules[0].1)
    else FirstRule(rules[1..], weather)
  }

  /** The first rule that applies is the one that a text matching no earlier rule meets. */
  lemma {:induction false} FirstRuleIsFirst(rules: seq<(char, (Icon, Color))>, weather: string, k: nat)
    requires k < |rules| && rules[k].0 in weather
    requires forall j :: 0 <= j < k ==> rules[j].0 !in weather
    ensures FirstRule(rules, weather) == Some(rules[k].1)
    decreases k
  {
    if k > 0 {
      FirstRuleIsFirst(rules[1..], weather, k - 1);
    }
  }

  /** No rule applies when the text contains none of their characters. */
  lemma {:induction false} FirstRuleNone(rules: seq<(char, (Icon, Color))>, weather: string)
    requires forall j :: 0 <= j < |rules| ==> rules[j].0 !in weather
    ensures FirstRule(rules, weather).None?
    decreases |rules|
  {
    if rules != [] {
      FirstRuleNone(rules[1..], weather);
    }
  }

  /** The icon is the one of the first rule in precedence order that applies, and the
      question mark when none does. */
  lemma WeatherIconByPrecedence(weather: string)
    ensures WeatherIcon(weather) == FirstRule(IconRules, weather).GetOr((HelpOutline, Grey))
  {
    var rules := IconRules;
    if '雨' in weather {
      FirstRuleIsFirst(rules, weather, 0);
    } else if '雷' in weather {
      FirstRuleIsFirst(rules, weather, 1);
    } else if '曇' in weather {
      FirstRuleIsFirst(rules, weather, 2);
    } else if '雪' in weather {
      FirstRuleIsFirst(rules, weather, 3);
    } else if '晴' in weather {
      FirstRuleIsFirst(rules, weather, 4);
    } else {
      FirstRuleNone(rules, weather);
    }
  }

  // ---------------------------------------------------------------------------------
  // The content column
  // ---------------------------------------------------------------------------------

  /** The controls of the content column. */
  datatype Control =
    | Heading(text: string)
    | Caption(text: string)
    | Divider
    | Notice(text: string)
    | Card(time: string, weather: string, wind: string, wave: string, temp: string, pop: string,
           icon: (Icon, Color))
    | RefreshButton
    | Spinner
    | ErrorIcon
    | BackButton

  /** The texts of a `temps` list. */
  function TempTexts(temps: seq<Temp>): (r: seq<string>)
    ensures |r| == |temps| && forall k :: 0 <= k < |temps| ==> r[k] == temps[k].text
  {
    seq(|temps|, k requires 0 <= k < |temps| => temps[k].text)
  }

  /** `areas[0]` of a series, when there is one. */
  function FirstAreaOf(ts: TimeSeries): Option<AreaForecast> {
    EntryAt(ts.areas, 0)
  }

  /** `timeSeries[0].areas[0].area.name`, defaulting to the unknown area at each step. */
  function AreaName(series: seq<TimeSeries>): string {
    if |series| == 0 then UnknownArea
    else match FirstAreaOf(series[0])
      case None => UnknownArea
      case Some(a) => match a.area
        case None => UnknownArea
        case Some(info) => info.name.GetOr(UnknownArea)
  }

  /** `timeSeries[1].areas[0].pops`, or none. */
  function PopsOf(series: seq<TimeSeries>): seq<string> {
    if |series| <= 1 then []
    else match FirstAreaOf(series[1])
      case None => []
      case Some(a) => a.pops.GetOr([])
  }

  /** `timeSeries[2].areas[0].temps`, or none. */
  function TempsOf(series: seq<TimeSeries>): seq<string> {
    if |series| <= 2 then []
    else match FirstAreaOf(series[2])
      case None => []
      case Some(a) => TempTexts(a.temps.GetOr([]))
  }

  /** The number of cards for the slots of the first series: at most three. */
  function CardCount(series: seq<TimeSeries>): nat {
    if |series| == 0 || FirstAreaOf(series[0]).None? then 0
    else
      var n := |series[0].timeDefines.GetOr([])|;
      if n < 3 then n else 3
  }

  /** `_create_forecast_card` for slot `i` of area `a`, with the given labels and rain
      chances: each missing value is the no-information text. */
  function CardAt(time: string, i: nat, a: AreaForecast, labels: seq<string>, pops: seq<string>): Control {
    var weather := AtOr(a.weathers.GetOr([]), i, NoInfo);
    Card(time, weather, AtOr(a.winds.GetOr([]), i, NoInfo), AtOr(a.waves.GetOr([]), i, NoInfo),
         AtOr(labels, i, NoInfo), AtOr(pops, i, NoInfo), WeatherIcon(weather))
  }

  /** The cards of the first series. */
  function Cards(series: seq<TimeSeries>): (r: seq<Control>)
    ensures |r| == CardCount(series)
  {
    if CardCount(series) == 0 then []
    else
      var a := FirstAreaOf(series[0]).value;
      var times := series[0].timeDefines.GetOr([]);
      var labels := PairLabels(TempsOf(series));
      var pops := PopsOf(series);
      seq(CardCount(series), i requires 0 <= i < CardCount(series) => CardAt(times[i], i, a, labels, pops))
  }

  /** The cards are the slots' cards in order. */
  lemma CardsEntries(series: seq<TimeSeries>)
    requires |series| > 0 && FirstAreaOf(series[0]).Some?
    ensures var cards := Cards(series);
      forall j :: 0 <= j < |cards| ==>
        cards[j] == CardAt(series[0].timeDefines.GetOr([])[j], j, FirstAreaOf(series[0]).value,
                           PairLabels(TempsOf(series)), PopsOf(series))
  {
  }

  /** The content column `_display_weather` leaves behind. */
  function DisplayedControls(data: Option<seq<Report>>): seq<Control> {
    if data.None? || |data.value| == 0 then
      [Heading(UnknownArea), Divider, Notice("この地域の天気予報は利用できません")]
    else
      var series := data.value[0].timeSeries.GetOr([]);
      var office := data.value[0].publishingOffice.GetOr("");
      [Heading(AreaName(series))] + (if office != "" then [Caption("発表: " + office)] else [])
        + [Divider] + Cards(series) + [RefreshButton]
  }

  /** The content column after a load: the forecast, or the failure notice when the fetch
      gave nothing. */
  function LoadedControls(fetched: Option<seq<Report>>): seq<Control> {
    if fetched.Some? && |fetched.value| > 0 then DisplayedControls(fetched)
    else [ErrorIcon, Notice("天気予報の取得に失敗しました"), BackButton]
  }

  /** What the cards show: at most three, one per slot of the first series; each takes the
      slot's weather, wind and wave or the no-information text, the rain chance of slot `i`
      of the second series or the no-information text, the label of day `i` of the
      temperatures when there is one, and the icon of its weather text. */
  lemma {:induction false} CardsShow(series: seq<TimeSeries>, i: nat)
    requires i < |Cards(series)|
    ensures i < 3 && |series| > 0 && FirstAreaOf(series[0]).Some?
    ensures var c := Cards(series)[i];
      var a := FirstAreaOf(series[0]).value;
      var temps := TempsOf(series);
      var pops := PopsOf(series);
      && c.Card?
      && c.time == series[0].timeDefines.value[i]
      && (a.weathers.Some? && i < |a.weathers.value| ==> c.weather == a.weathers.value[i])
      && (!(a.weathers.Some? && i < |a.weathers.value|) ==> c.weather == NoInfo)
      && (a.winds.Some? && i < |a.winds.value| ==> c.wind == a.winds.value[i])
      && (!(a.winds.Some? && i < |a.winds.value|) ==> c.wind == NoInfo)
      && (a.waves.Some? && i < |a.waves.value| ==> c.wave == a.waves.value[i])
      && (!(a.waves.Some? && i < |a.waves.value|) ==> c.wave == NoInfo)
      && (i < |pops| ==> c.pop == pops[i])
      && (i >= |pops| ==> c.pop == NoInfo)
      && (2 * i + 1 < |temps| ==> c.temp == PairLabel(temps[2 * i], temps[2 * i + 1]))
      && (2 * i + 1 == |temps| ==> c.temp == OddLabel(temps[2 * i]))
      && (2 * i >= |temps| ==> c.temp == NoInfo)
      && c.icon == WeatherIcon(c.weather)
  {
    var temps := TempsOf(series);
    PairLabelsCount(temps);
    if 2 * i < |temps| {
      PairLabelsAt(temps, i);
    }
  }

  /** The heading is the area name of the first series' first area, and the unknown area
      when any step of that path is missing; the column ends with the refresh button and
      holds as many cards as there are slots, up to three. */
  lemma DisplayedLayout(data: seq<Report>)
    requires |data| > 0
    ensures var shown := DisplayedControls(Some(data));
      var series := data[0].timeSeries.GetOr([]);
      && shown[0] == Heading(AreaName(series))
      && shown[|shown| - 1] == RefreshButton
      && |shown| == CardCount(series) + (if data[0].publishingOffice.GetOr("") != "" then 4 else 3)
      && (AreaName(series) != UnknownArea ==>
            && |series| > 0 && FirstAreaOf(series[0]).Some?
            && FirstAreaOf(series[0]).value.area.Some?
            && FirstAreaOf(series[0]).value.area.value.name == Some(AreaName(series)))
  {
  }

  /** The detail screen of one area: the forecast it has loaded and its content column. */
  class WeatherDetailView {
    /** `weather_data`: the fetched forecast, None when the fetch failed. */
    var weatherData: Option<seq<Report>>
    /** `content_column.controls`. */
    var content: seq<Control>

    /** The screen shows the loading notice, then loads the fetched forecast. */
    constructor (fetched: Option<seq<Report>>)
      ensures weatherData == fetched && content == LoadedControls(fetched)
    {
      weatherData := None;
      content := [Spinner, Notice("天気予報を読み込んでいます...")];
      new;
      LoadWeather(fetched);
    }

    /** `_load_weather` with the fetch's result as input. */
    method LoadWeather(fetched: Option<seq<Report>>)
      modifies this
      ensures weatherData == fetched && content == LoadedControls(fetched)
    {
      weatherData := fetched;
      if fetched.Some? && |fetched.value| > 0 {
        DisplayWeather();
      } else {
        content := [ErrorIcon, Notice("天気予報の取得に失敗しました"), BackButton];
      }
    }

    /** `_on_refresh_clicked`: the updating notice, then a new load. */
    method OnRefreshClicked(fetched: Option<seq<Report>>)
      modifies this
      ensures weatherData == fetched && content == LoadedControls(fetched)
    {
      content := [Spinner, Notice("天気予報を更新中...")];
      LoadWeather(fetched);
    }

    /** `_display_weather`: clears the column and appends the heading, the publisher, a
        divider, the cards and the refresh button. */
    method DisplayWeather()
      modifies this`content
      ensures content == DisplayedControls(weatherData)
    {
      content := [];
      if weatherData.None? || |weatherData.value| == 0 {
        content := content + [Heading(UnknownArea), Divider, Notice("この地域の天気予報は利用できません")];
        return;
      }
      var first := weatherData.value[0];
      var series := first.timeSeries.GetOr([]);
      var office := first.publishingOffice.GetOr("");
      var areaName := ReadAreaName(series);
      ghost var head := [Heading(areaName)] + (if office != "" then [Caption("発表: " + office)] else []) + [Divider];
      content := [Heading(areaName)];
      if office != "" {
        content := content + [Caption("発表: " + office)];
      }
      content := content + [Divider];
      assert content == head;
      var pops := ReadPops(series);
      var labels := ReadTempLabels(series);
      AppendCards(series, labels, pops);
      assert content == head + Cards(series);
      content := content + [RefreshButton];
    }

    /** The cards loop: one card per slot of the first series, at most three. */
    method AppendCards(series: seq<TimeSeries>, labels: seq<string>, pops: seq<string>)
      requires labels == PairLabels(TempsOf(series)) && pops == PopsOf(series)
      modifies this`content
      ensures content == old(content) + Cards(series)
    {
      if |series| == 0 {
        return;
      }
      var times := series[0].timeDefines.GetOr([]);
      var areas := series[0].areas.GetOr([]);
      if |areas| == 0 {
        return;
      }
      var a := areas[0];
      var n := if |times| < 3 then |times| else 3;
      ghost var head := content;
      for i := 0 to n
        invariant |content| == |head| + i && content[..|head|] == head
        invariant forall j :: 0 <= j < i ==> content[|head| + j] == CardAt(times[j], j, a, labels, pops)
      {
        content := content + [CardAt(times[i], i, a, labels, pops)];
      }
      CardsEntries(series);
      ghost var cards := Cards(series);
      assert forall j :: 0 <= j < n ==> content[|head| + j] == cards[j];
      assert content == head + cards;
    }
  }

  /** The area-name lookup of `_display_weather`. */
  method ReadAreaName(series: seq<TimeSeries>) returns (name: string)
    ensures name == AreaName(series)
  {
    name := UnknownArea;
    if |series| > 0 {
      var areas := series[0].areas.GetOr([]);
      if |areas| > 0 && areas[0].area.Some? {
        name := areas[0].area.value.name.GetOr(name);
      }
    }
  }

  /** The rain chances of `_display_weather`. */
  method ReadPops(series: seq<TimeSeries>) returns (pops: seq<string>)
    ensures pops == PopsOf(series)
  {
    pops := [];
    if |series| > 1 {
      var popAreas := series[1].areas.GetOr([]);
      if |popAreas| > 0 {
        pops := popAreas[0].pops.GetOr([]);
      }
    }
  }

  /** The temperature labels of `_display_weather`. */
  method ReadTempLabels(series: seq<TimeSeries>) returns (labels: seq<string>)
    ensures labels == PairLabels(TempsOf(series))
  {
    labels := [];
    if |series| > 2 {
      var tempAreas := series[2].areas.GetOr([]);
      if |tempAreas| > 0 {
        labels := TempLabels(TempTexts(tempAreas[0].temps.GetOr([])));
      }
    }
  }
}
