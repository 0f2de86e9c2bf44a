/**
 * The spreadsheet rules of `VacantHouseDataCollector` in Last/scrape.py, as functions over
 * a grid of cells: header search, column lookup by numbered label, region tokens, the plan
 * for each row of the vacancy sheet, and the bucket accumulator of the house-age sheet.
 *
 * A grid is the sheet as pandas reads it with `header=None`: one sequence of cells per row.
 */
module Sheet {
  import opened Wrappers
  import opened PyText
  import opened Coercion
  import opened VacantStore

  type Row = seq<Cell>
  type Grid = seq<Row>

  /** The survey year every imported record is filed under. */
  const SurveyYear := 2023

  /** The first position whose element satisfies `p`: the shape of every `for ...: if ...:
      break` search in the importer. */
  function FirstIndex<T>(xs: seq<T>, p: T -> bool): (r: Option<nat>)
    ensures r.Some? ==> r.value < |xs| && p(xs[r.value])
    ensures r.Some? ==> forall j :: 0 <= j < r.value ==> !p(xs[j])
    ensures r.None? ==> forall j :: 0 <= j < |xs| ==> !p(xs[j])
    decreases |xs|
  {
    if xs == [] then None
    else if p(xs[0]) then Some(0)
    else match FirstIndex(xs[1..], p)
      case None => None
      case Some(k) => Some(k + 1)
  }

  /** Two sequences that agree up to and including the first match of `p` in one of them
      have their first match at the same place. */
  lemma FirstIndexOfSamePrefix<T>(xs: seq<T>, ys: seq<T>, p: T -> bool, h: nat)
    requires FirstIndex(xs, p) == Some(h)
    requires h < |ys| && forall j :: 0 <= j <= h ==> ys[j] == xs[j]
    ensures FirstIndex(ys, p) == Some(h)
  {
    assert p(ys[h]);
  }

  // ---------------------------------------------------------------- cell text

  /** `str(v)` of every cell of a row. */
  function Texts(row: Row): (r: seq<string>)
    ensures |r| == |row| && forall k :: 0 <= k < |row| ==> r[k] == CellText(row[k])
  {
    seq(|row|, k requires 0 <= k < |row| => CellText(row[k]))
  }

  /** `" ".join(str(v) for v in row.values)`. */
  function RowText(row: Row): string {
    JoinSpace(Texts(row))
  }

  /** Whether some cell's text contains `m`. */
  predicate SomeCellContains(row: Row, m: string) {
    exists k :: 0 <= k < |row| && Contains(CellText(row[k]), m)
  }

  /** For a marker without spaces, the joined text contains it exactly when one cell does:
      the joining space never completes a marker. */
  lemma RowTextContains(row: Row, m: string)
    requires m != [] && ' ' !in m
    ensures Contains(RowText(row), m) <==> SomeCellContains(row, m)
  {
    var ts := Texts(row);
    JoinContains(ts, m);
    if Contains(RowText(row), m) {
      var k :| 0 <= k < |ts| && Contains(ts[k], m);
      assert Contains(CellText(row[k]), m);
    }
    if SomeCellContains(row, m) {
      var k :| 0 <= k < |row| && Contains(CellText(row[k]), m);
      assert Contains(ts[k], m);
    }
  }

  /** `m in s[k..]` implies `m in s`. */
  lemma {:induction false} ContainsInTail(s: string, k: nat, m: string)
    requires k <= |s| && Contains(s[k..], m)
    ensures Contains(s, m)
    decreases k
  {
    if k > 0 {
      assert s[k - 1..][1..] == s[k..];
      ContainsInTail(s, k - 1, m);
    }
  }

  /** A text containing `a + b` contains `b`. */
  lemma {:induction false} ContainsSuffix(s: string, a: string, b: string)
    requires Contains(s, a + b)
    ensures Contains(s, b)
    decreases |s|
  {
    if StartsWith(s, a + b) {
      assert s[|a|..][..|b|] == (a + b)[|a|..];
      assert StartsWith(s[|a|..], b);
      ContainsInTail(s, |a|, b);
    } else {
      ContainsSuffix(s[1..], a, b);
      assert s[1..] == s[1..];
      ContainsInTail(s, 1, b);
    }
  }

  // ---------------------------------------------------------------- header and columns

  /** The header test of `import_vacant_houses`: the joined row contains ("0_" or "22_")
      and ("221_" or "222_"). */
  predicate IsHeaderRow(row: Row) {
    var t := RowText(row);
    (Contains(t, "0_") || Contains(t, "22_")) && (Contains(t, "221_") || Contains(t, "222_"))
  }

  /** The header test holds exactly when one cell carries a total marker and one cell
      (possibly another) carries a breakdown marker. */
  lemma HeaderByCells(row: Row)
    ensures IsHeaderRow(row) <==>
      (SomeCellContains(row, "0_") || SomeCellContains(row, "22_"))
      && (SomeCellContains(row, "221_") || SomeCellContains(row, "222_"))
  {
    RowTextContains(row, "0_");
    RowTextContains(row, "22_");
    RowTextContains(row, "221_");
    RowTextContains(row, "222_");
  }

  /** A cell labelled "222_…" alone makes a header row, since "222_" contains "22_". */
  lemma RentLabelMakesHeader(row: Row)
    requires SomeCellContains(row, "222_")
    ensures IsHeaderRow(row)
  {
    RowTextContains(row, "222_");
    assert "222_" == "2" + "22_";
    ContainsSuffix(RowText(row), "2", "22_");
  }

  /** `re.match(rf'^{num}_', label)`. */
  predicate Anchored(heading: string, num: string) {
    StartsWith(heading, num + "_")
  }

  /** `find_col_by_number(num)`: the position of the first label matching `^num_`. */
  function FindColumn(labels: seq<string>, num: string): (r: Option<nat>)
    ensures r.Some? ==> r.value < |labels| && Anchored(labels[r.value], num)
    ensures r.Some? ==> forall q :: 0 <= q < r.value ==> !Anchored(labels[q], num)
    ensures r.None? ==> forall q :: 0 <= q < |labels| ==> !Anchored(labels[q], num)
  {
    FirstIndex(labels, l => Anchored(l, num))
  }

  /** Anchoring keeps numbered labels apart: a label that matches `^a_` for one digit string
      never matches `^b_` for another, so "22" never picks "221_…" or "222_…". */
  lemma AnchoredNumbersDisjoint(heading: string, a: string, b: string)
    requires AllDigits(a) && AllDigits(b) && a != b
    requires Anchored(heading, a)
    ensures !Anchored(heading, b)
  {
    if |b| + 1 <= |heading| {
      var pb := heading[..|b| + 1];
      if |a| < |b| {
        assert pb[|a|] == (a + "_")[|a|];
        assert pb[|a|] != (b + "_")[|a|];
      } else if |a| > |b| {
        assert pb[|b|] == (a + "_")[|b|];
        assert pb[|b|] != (b + "_")[|b|];
      } else {
        var k :| 0 <= k < |a| && a[k] != b[k];
        assert pb[k] == (a + "_")[k];
        assert pb[k] != (b + "_")[k];
      }
    }
  }

  /** The six resolved columns of the vacancy sheet. */
  datatype Columns = Columns(
    total: Option<nat>, vacantTotal: Option<nat>,
    rent: Option<nat>, sale: Option<nat>, second: Option<nat>, other: Option<nat>)

  /** Every resolved column is a position among `n` labels. */
  predicate ColumnsWithin(cols: Columns, n: nat) {
    && (cols.total.Some? ==> cols.total.value < n)
    && (cols.vacantTotal.Some? ==> cols.vacantTotal.value < n)
    && (cols.rent.Some? ==> cols.rent.value < n)
    && (cols.sale.Some? ==> cols.sale.value < n)
    && (cols.second.Some? ==> cols.second.value < n)
    && (cols.other.Some? ==> cols.other.value < n)
  }

  /** `col` is where `find_col_by_number(num)` lands: the first label matching `^num_`, or
      none when no label matches. */
  predicate Locates(labels: seq<string>, col: Option<nat>, num: string) {
    && (col.Some? ==> col.value < |labels| && Anchored(labels[col.value], num))
    && (col.Some? ==> forall q :: 0 <= q < col.value ==> !Anchored(labels[q], num))
    && (col.None? ==> forall q :: 0 <= q < |labels| ==> !Anchored(labels[q], num))
  }

  /** The column resolution of `import_vacant_houses`: "0" total, "22" vacant total, "222"
      rent, "223" sale, "224" secondary use, "221" other. */
  function ResolveColumns(labels: seq<string>): (r: Columns)
    ensures ColumnsWithin(r, |labels|)
    ensures Locates(labels, r.total, "0") && Locates(labels, r.vacantTotal, "22")
    ensures Locates(labels, r.rent, "222") && Locates(labels, r.sale, "223")
    ensures Locates(labels, r.second, "224") && Locates(labels, r.other, "221")
  {
    Columns(
      FindColumn(labels, "0"), FindColumn(labels, "22"),
      FindColumn(labels, "222"), FindColumn(labels, "223"),
      FindColumn(labels, "224"), FindColumn(labels, "221"))
  }

  /** The cell at a position; a row shorter than the header reads as NaN there. */
  function CellAt(row: Row, p: nat): Cell {
    if p < |row| then row[p] else None
  }

  /** No other column carries the label at `p`. */
  predicate UniqueLabel(labels: seq<string>, p: nat)
    requires p < |labels|
  {
    forall q :: 0 <= q < |labels| && q != p ==> labels[q] != labels[p]
  }

  /** `get_val(col)`: 0 for an unresolved column, the coerced cell for a label that names one
      column, and an error (None) for a label that names several, where `row.get` returns a
      Series whose truth value raises. */
  function GetVal(labels: seq<string>, row: Row, col: Option<nat>): Option<int>
    requires col.Some? ==> col.value < |labels|
  {
    match col
    case None => Some(0)
    case Some(p) => if UniqueLabel(labels, p) then Some(ToInt(CellAt(row, p))) else None
  }

  /** A column `get_val` can read without raising: unresolved, or resolved to a label no
      other column carries. */
  predicate Readable(labels: seq<string>, col: Option<nat>)
    requires col.Some? ==> col.value < |labels|
  {
    col.Some? ==> UniqueLabel(labels, col.value)
  }

  /** The record dictionary `data` of `import_vacant_houses`, or None when reading a field raised. */
  function BuildRecord(code: string, labels: seq<string>, cols: Columns, row: Row): (r: Option<VacancyRecord>)
    requires ColumnsWithin(cols, |labels|)
    ensures r.Some? ==> r.value.code == code && r.value.year == SurveyYear
    ensures r.Some? && cols.total.None? ==> r.value.totalHouse == 0
    ensures r.Some? && cols.vacantTotal.None? ==> r.value.totalVacant == 0
    ensures r.Some? && cols.rent.None? ==> r.value.rent == 0
    ensures r.Some? && cols.sale.None? ==> r.value.sale == 0
    ensures r.Some? && cols.second.None? ==> r.value.secondUse == 0
    ensures r.Some? && cols.other.None? ==> r.value.otherVacant == 0
    ensures r.Some? && cols.total.Some? ==> r.value.totalHouse == ToInt(CellAt(row, cols.total.value))
    ensures r.Some? && cols.vacantTotal.Some? ==> r.value.totalVacant == ToInt(CellAt(row, cols.vacantTotal.value))
    ensures r.Some? && cols.rent.Some? ==> r.value.rent == ToInt(CellAt(row, cols.rent.value))
    ensures r.Some? && cols.sale.Some? ==> r.value.sale == ToInt(CellAt(row, cols.sale.value))
    ensures r.Some? && cols.second.Some? ==> r.value.secondUse == ToInt(CellAt(row, cols.second.value))
    ensures r.Some? && cols.other.Some? ==> r.value.otherVacant == ToInt(CellAt(row, cols.other.value))
    ensures r.Some? <==>
      && Readable(labels, cols.total) && Readable(labels, cols.vacantTotal)
      && Readable(labels, cols.rent) && Readable(labels, cols.sale)
      && Readable(labels, cols.second) && Readable(labels, cols.other)
  {
    var total := GetVal(labels, row, cols.total);
    var vacantTotal := GetVal(labels, row, cols.vacantTotal);
    var rent := GetVal(labels, row, cols.rent);
    var sale := GetVal(labels, row, cols.sale);
    var second := GetVal(labels, row, cols.second);
    var other := GetVal(labels, row, cols.other);
    if total.None? || vacantTotal.None? || rent.None? || sale.None? || second.None? || other.None? then None
    else Some(VacancyRecord(code, SurveyYear, total.value, vacantTotal.value,
                            rent.value, sale.value, second.value, other.value))
  }

  // ---------------------------------------------------------------- region tokens

  /** The token test: the text contains '_' and starts with "19". */
  predicate IsRegionText(s: string) {
    '_' in s && StartsWith(s, "19")
  }

  /** The text the token test sees for a cell: stripped in the vacancy import, raw in the age import. */
  function TokenText(c: Cell, strip: bool): string {
    if strip then Strip(CellText(c)) else CellText(c)
  }

  /** The first cell of the row whose (stripped, if `strip`) text is a region token. */
  function RegionToken(row: Row, strip: bool): (r: Option<string>)
    ensures r.Some? ==> IsRegionText(r.value)
    ensures r.Some? ==>
      exists k :: 0 <= k < |row| && r.value == TokenText(row[k], strip) &&
                  (forall j :: 0 <= j < k ==> !IsRegionText(TokenText(row[j], strip)))
    ensures r.None? ==> forall k :: 0 <= k < |row| ==> !IsRegionText(TokenText(row[k], strip))
  {
    var texts := seq(|row|, k requires 0 <= k < |row| => TokenText(row[k], strip));
    match FirstIndex(texts, IsRegionText)
    case None =>
      assert forall k :: 0 <= k < |row| ==> texts[k] == TokenText(row[k], strip) && !IsRegionText(texts[k]);
      None
    case Some(k) =>
      assert forall j :: 0 <= j < k ==> texts[j] == TokenText(row[j], strip) && !IsRegionText(texts[j]);
      Some(texts[k])
  }

  /** `code.strip().zfill(5)[:5]` for the text before the first '_'. */
  function CityCode(token: string): (r: string)
    requires '_' in token
    ensures |r| == 5
    ensures var c := Strip(SplitOnce(token, '_').0); |c| >= 5 ==> r == c[..5]
  {
    var code := Strip(SplitOnce(token, '_').0);
    ZFill(code, 5)[..5]
  }

  /** `name.strip()` for the text after the first '_'. */
  function CityName(token: string): string
    requires '_' in token
  {
    Strip(SplitOnce(token, '_').1)
  }

  /** A five-digit code before the '_' is kept as it is, and a shorter code is left-padded
      with zeros to five characters. */
  lemma CityCodePadding(token: string)
    requires IsRegionText(token)
    ensures var c := Strip(SplitOnce(token, '_').0);
      |c| < 5 ==> CityCode(token) == Zeros(5 - |c|) + c
  {
    var c := Strip(SplitOnce(token, '_').0);
    if |c| < 5 {
      var before := SplitOnce(token, '_').0;
      assert token[..2] == "19";
      assert before[..2] == "19";
      assert !IsSpace(before[0]);
      assert SpaceRunEnd(before, 0) == 0;
      assert c[0] == '1';
      var z := ZFill(c, 5);
      assert z == Zeros(5 - |c|) + c by {
        assert z[|z| - |c|..] == c;
        assert forall k :: 0 <= k < |z| - |c| ==> z[k] == '0';
      }
    }
  }

  /** The exclusion test: names containing 県外 (outside the prefecture), 不詳 (unknown)
      or その他 (other). */
  predicate Excluded(name: string) {
    Contains(name, "県外") || Contains(name, "不詳") || Contains(name, "その他")
  }

  // ---------------------------------------------------------------- vacancy rows

  /** What one data row of the vacancy sheet does: nothing; insert its city only (reading a
      field raised, after the city insert); or insert its city and then its record. */
  datatype VacancyRowPlan = SkipRow | CityOnly(city: City) | CityAndRecord(city: City, rec: VacancyRecord)

  /** One iteration of the row loop of `import_vacant_houses`. */
  function PlanVacancyRow(labels: seq<string>, cols: Columns, row: Row): (r: VacancyRowPlan)
    requires ColumnsWithin(cols, |labels|)
    ensures RegionToken(row, true).None? ==> r.SkipRow?
    ensures RegionToken(row, true).Some? ==>
      var t := RegionToken(row, true).value;
      && (r.SkipRow? <==> Excluded(CityName(t)))
      && (!r.SkipRow? ==> r.city == City(CityCode(t), CityName(t)))
    ensures r.CityAndRecord? ==> r.rec.code == r.city.code && r.rec.year == SurveyYear
    ensures !r.SkipRow? ==> !Excluded(r.city.name) && |r.city.code| == 5
    ensures !r.SkipRow? ==>
      && (r.CityAndRecord? <==> BuildRecord(r.city.code, labels, cols, row).Some?)
      && (r.CityAndRecord? ==> r.rec == BuildRecord(r.city.code, labels, cols, row).value)
  {
    match RegionToken(row, true)
    case None => SkipRow
    case Some(t) =>
      var code := CityCode(t);
      var name := CityName(t);
      if Excluded(name) then SkipRow
      else match BuildRecord(code, labels, cols, row)
        case None => CityOnly(City(code, name))
        case Some(rec) => CityAndRecord(City(code, name), rec)
  }

  /** The plans of a run of data rows under one header. */
  function RowPlans(labels: seq<string>, cols: Columns, rows: seq<Row>): (r: seq<VacancyRowPlan>)
    requires ColumnsWithin(cols, |labels|)
    ensures |r| == |rows| && forall k :: 0 <= k < |rows| ==> r[k] == PlanVacancyRow(labels, cols, rows[k])
  {
    seq(|rows|, k requires 0 <= k < |rows| => PlanVacancyRow(labels, cols, rows[k]))
  }

  /** What the whole vacancy sheet does, row by row, or None when the import fails before
      the row loop: no header row, or nothing after it (the row right after the header is
      consumed by pandas as column names, so data starts two rows below the header). */
  function VacancyPlans(grid: Grid): Option<seq<VacancyRowPlan>> {
    match FirstIndex(grid, IsHeaderRow)
    case None => None
    case Some(h) =>
      if h + 2 > |grid| then None
      else
        Some(PlansBelow(grid[h], grid[h + 2..]))
  }

  /** The plans of the data rows under a header row. */
  function PlansBelow(header: Row, rows: seq<Row>): seq<VacancyRowPlan> {
    var labels := Texts(header);
    RowPlans(labels, ResolveColumns(labels), rows)
  }

  /** The row right after the header row never influences the import: replacing it changes
      neither the outcome nor any row's plan. */
  lemma RowAfterHeaderIgnored(grid: Grid, row: Row)
    requires FirstIndex(grid, IsHeaderRow).Some?
    requires FirstIndex(grid, IsHeaderRow).value + 1 < |grid|
    ensures var h := FirstIndex(grid, IsHeaderRow).value;
      VacancyPlans(grid[h + 1 := row]) == VacancyPlans(grid)
  {
    var h := FirstIndex(grid, IsHeaderRow).value;
    var g := grid[h + 1 := row];
    FirstIndexOfSamePrefix(grid, g, IsHeaderRow, h);
    VacancyPlansFrom(grid, h);
    assert g[h] == grid[h];
    assert g[h + 2..] == grid[h + 2..];
  }

  /** With the header at `h` and a row after it, the plans are those of the rows from `h + 2`. */
  lemma VacancyPlansFrom(grid: Grid, h: nat)
    requires FirstIndex(grid, IsHeaderRow) == Some(h) && h + 2 <= |grid|
    ensures VacancyPlans(grid) == Some(PlansBelow(grid[h], grid[h + 2..]))
  {
  }

  /** Applying one plan to `city_town`: every planned city is inserted, or ignored if known. */
  function CityStep(cities: seq<City>, p: VacancyRowPlan): seq<City> {
    if p.SkipRow? then cities else InsertOrIgnore(cities, p.city.code, p.city.name)
  }

  /** Applying one plan to `vacant_houses`: every planned record replaces its key's row. */
  function VacancyStep(vacant: map<Key, VacancyRecord>, p: VacancyRowPlan): map<Key, VacancyRecord> {
    if p.CityAndRecord? then vacant[p.rec.KeyOf() := p.rec] else vacant
  }

  /** `city_town` after the plans, in order. */
  function CitiesAfter(cities: seq<City>, plans: seq<VacancyRowPlan>): seq<City>
    decreases |plans|
  {
    if plans == [] then cities
    else CityStep(CitiesAfter(cities, plans[..|plans| - 1]), plans[|plans| - 1])
  }

  /** `vacant_houses` after the plans, in order. */
  function VacantAfter(vacant: map<Key, VacancyRecord>, plans: seq<VacancyRowPlan>): map<Key, VacancyRecord>
    decreases |plans|
  {
    if plans == [] then vacant
    else VacancyStep(VacantAfter(vacant, plans[..|plans| - 1]), plans[|plans| - 1])
  }

  /** The `count` of `import_vacant_houses`: the number of records written. */
  function RecordCount(plans: seq<VacancyRowPlan>): nat
    decreases |plans|
  {
    if plans == [] then 0
    else RecordCount(plans[..|plans| - 1]) + (if plans[|plans| - 1].CityAndRecord? then 1 else 0)
  }

  /** Whether some row would insert a city (the first statement that can fail). */
  predicate TouchesTables(plans: seq<VacancyRowPlan>)
    decreases |plans|
  {
    plans != [] && (TouchesTables(plans[..|plans| - 1]) || !plans[|plans| - 1].SkipRow?)
  }

  /** Any row that inserts a city makes the whole run touch the tables. */
  lemma {:induction false} TouchesTablesAt(plans: seq<VacancyRowPlan>, k: nat)
    requires k < |plans| && !plans[k].SkipRow?
    ensures TouchesTables(plans)
    decreases |plans|
  {
    if k < |plans| - 1 {
      TouchesTablesAt(plans[..|plans| - 1], k);
    }
  }

  /** Extending the plans by one row applies that row's step to every table and to the count. */
  lemma PlansStep(cities: seq<City>, vacant: map<Key, VacancyRecord>, plans: seq<VacancyRowPlan>, k: nat)
    requires k < |plans|
    ensures CitiesAfter(cities, plans[..k + 1]) == CityStep(CitiesAfter(cities, plans[..k]), plans[k])
    ensures VacantAfter(vacant, plans[..k + 1]) == VacancyStep(VacantAfter(vacant, plans[..k]), plans[k])
    ensures RecordCount(plans[..k + 1]) == RecordCount(plans[..k]) + (if plans[k].CityAndRecord? then 1 else 0)
    ensures TouchesTables(plans[..k + 1]) <==> TouchesTables(plans[..k]) || !plans[k].SkipRow?
  {
    assert plans[..k + 1][..k] == plans[..k];
  }

  /** The import keeps `city_town`'s codes distinct and every planned city ends up in it. */
  lemma {:induction false} CitiesAfterHoldsEveryCity(cities: seq<City>, plans: seq<VacancyRowPlan>)
    requires DistinctCodes(cities)
    ensures DistinctCodes(CitiesAfter(cities, plans))
    ensures Codes(CitiesAfter(cities, plans)) == Codes(cities) + PlannedCodes(plans)
    decreases |plans|
  {
    if plans != [] {
      var init := plans[..|plans| - 1];
      var last := plans[|plans| - 1];
      CitiesAfterHoldsEveryCity(cities, init);
      var before := CitiesAfter(cities, init);
      if !last.SkipRow? {
        InsertOrIgnoreKeepsDistinct(before, last.city.code, last.city.name);
      }
      PlannedCodesStep(plans);
    }
  }

  /** The codes of the planned cities. */
  function PlannedCodes(plans: seq<VacancyRowPlan>): set<string> {
    set k | 0 <= k < |plans| && !plans[k].SkipRow? :: plans[k].city.code
  }

  /** The planned codes of a run are those of all but its last row plus the last row's. */
  lemma PlannedCodesStep(plans: seq<VacancyRowPlan>)
    requires plans != []
    ensures var last := plans[|plans| - 1];
      PlannedCodes(plans) == PlannedCodes(plans[..|plans| - 1]) + (if last.SkipRow? then {} else {last.city.code})
  {
    var init := plans[..|plans| - 1];
    var last := plans[|plans| - 1];
    forall x | x in PlannedCodes(plans) ensures x in PlannedCodes(init) + (if last.SkipRow? then {} else {last.city.code}) {
      var k :| 0 <= k < |plans| && !plans[k].SkipRow? && plans[k].city.code == x;
      if k < |init| { assert init[k] == plans[k]; }
    }
    forall x | x in PlannedCodes(init) ensures x in PlannedCodes(plans) {
      var k :| 0 <= k < |init| && !init[k].SkipRow? && init[k].city.code == x;
      assert plans[k] == init[k];
    }
  }

  /** The keys of `vacant_houses` after the import: the old ones and those of the planned
      records. */
  lemma {:induction false} VacantAfterKeys(vacant: map<Key, VacancyRecord>, plans: seq<VacancyRowPlan>)
    ensures VacantAfter(vacant, plans).Keys ==
      vacant.Keys + (set k | 0 <= k < |plans| && plans[k].CityAndRecord? :: plans[k].rec.KeyOf())
    decreases |plans|
  {
    if plans != [] {
      var init := plans[..|plans| - 1];
      var last := plans[|plans| - 1];
      VacantAfterKeys(vacant, init);
      var s := set k | 0 <= k < |plans| && plans[k].CityAndRecord? :: plans[k].rec.KeyOf();
      var t := set k | 0 <= k < |init| && init[k].CityAndRecord? :: init[k].rec.KeyOf();
      assert s == t + (if last.CityAndRecord? then {last.rec.KeyOf()} else {}) by {
        forall x | x in s ensures x in t + (if last.CityAndRecord? then {last.rec.KeyOf()} else {}) {
          var k :| 0 <= k < |plans| && plans[k].CityAndRecord? && plans[k].rec.KeyOf() == x;
          if k < |init| { assert init[k] == plans[k]; }
        }
        forall x | x in t ensures x in s {
          var k :| 0 <= k < |init| && init[k].CityAndRecord? && init[k].rec.KeyOf() == x;
          assert plans[k] == init[k];
        }
      }
    }
  }

  /** The last row of a city wins: its record is the one `vacant_houses` keeps. */
  lemma {:induction false} LastRecordWins(vacant: map<Key, VacancyRecord>, plans: seq<VacancyRowPlan>, i: nat)
    requires i < |plans| && plans[i].CityAndRecord?
    requires forall j :: i < j < |plans| && plans[j].CityAndRecord? ==> plans[j].rec.KeyOf() != plans[i].rec.KeyOf()
    ensures plans[i].rec.KeyOf() in VacantAfter(vacant, plans)
    ensures VacantAfter(vacant, plans)[plans[i].rec.KeyOf()] == plans[i].rec
    decreases |plans|
  {
    var init := plans[..|plans| - 1];
    if i < |plans| - 1 {
      assert init[i] == plans[i];
      LastRecordWins(vacant, init, i);
    }
  }

  /** Every record the import writes has its city in `city_town`, because each row inserts
      its city before its record: referential integrity holds after the import whenever it
      held before, although foreign keys are never enforced. */
  lemma {:induction false} RecordsHaveCities(cities: seq<City>, vacant: map<Key, VacancyRecord>, plans: seq<VacancyRowPlan>)
    requires forall k :: k in vacant ==> k.0 in Codes(cities)
    requires forall k :: 0 <= k < |plans| && plans[k].CityAndRecord? ==> plans[k].rec.code == plans[k].city.code
    ensures forall k :: k in VacantAfter(vacant, plans) ==> k.0 in Codes(CitiesAfter(cities, plans))
    decreases |plans|
  {
    if plans != [] {
      var init := plans[..|plans| - 1];
      var last := plans[|plans| - 1];
      assert forall k :: 0 <= k < |init| ==> init[k] == plans[k];
      RecordsHaveCities(cities, vacant, init);
      var before := CitiesAfter(cities, init);
      if !last.SkipRow? {
        assert last.city.code in Codes(CityStep(before, last));
        assert Codes(before) <= Codes(CityStep(before, last));
      }
    }
  }

  /** The count is the number of rows whose record was written, never more than the rows. */
  lemma {:induction false} RecordCountIsRecords(plans: seq<VacancyRowPlan>)
    ensures RecordCount(plans) == |set k | 0 <= k < |plans| && plans[k].CityAndRecord?|
    ensures RecordCount(plans) <= |plans|
    decreases |plans|
  {
    var s := set k | 0 <= k < |plans| && plans[k].CityAndRecord?;
    if plans == [] {
      assert s == {};
    } else {
      var init := plans[..|plans| - 1];
      var last := |plans| - 1;
      RecordCountIsRecords(init);
      var t := set k | 0 <= k < |init| && init[k].CityAndRecord?;
      assert s == t + (if plans[last].CityAndRecord? then {last} else {}) by {
        forall x | x in t ensures x in s { assert plans[x] == init[x]; }
        forall x | x in s && x < last ensures x in t { assert plans[x] == init[x]; }
      }
      assert last !in t;
    }
  }

  // ---------------------------------------------------------------- house-age sheet

  /** The data-start test of `import_house_age`: "19" and "_" anywhere in the joined row. */
  predicate IsDataStartRow(row: Row) {
    var t := RowText(row);
    Contains(t, "19") && '_' in t
  }

  /** The age label test: the text contains 年 (year) or 以前 (or earlier). */
  predicate IsAgeLabel(s: string) {
    Contains(s, "年") || Contains(s, "以前")
  }

  /** The construction-period bucket a label names, by the import's precedence:
      (1970 and 以前) > 1971 > 1981 > 1991 > 2001 > 2011 > (2021 or 2023); None when none does. */
  function BucketOf(heading: string): (r: Option<Bucket>)
    ensures r == Some(Pre1970) <==> Contains(heading, "1970") && Contains(heading, "以前")
    ensures r.None? <==>
      && !(Contains(heading, "1970") && Contains(heading, "以前"))
      && !Contains(heading, "1971") && !Contains(heading, "1981") && !Contains(heading, "1991")
      && !Contains(heading, "2001") && !Contains(heading, "2011")
      && !Contains(heading, "2021") && !Contains(heading, "2023")
    ensures r == Some(Y1971To1980) <==>
      !(Contains(heading, "1970") && Contains(heading, "以前")) && Contains(heading, "1971")
    ensures r == Some(Y1981To1990) <==>
      && !(Contains(heading, "1970") && Contains(heading, "以前")) && !Contains(heading, "1971")
      && Contains(heading, "1981")
    ensures r == Some(Y1991To2000) <==>
      && !(Contains(heading, "1970") && Contains(heading, "以前")) && !Contains(heading, "1971")
      && !Contains(heading, "1981") && Contains(heading, "1991")
    ensures r == Some(Y2001To2010) <==>
      && !(Contains(heading, "1970") && Contains(heading, "以前")) && !Contains(heading, "1971")
      && !Contains(heading, "1981") && !Contains(heading, "1991") && Contains(heading, "2001")
    ensures r == Some(Y2011To2020) <==>
      && !(Contains(heading, "1970") && Contains(heading, "以前")) && !Contains(heading, "1971")
      && !Contains(heading, "1981") && !Contains(heading, "1991") && !Contains(heading, "2001")
      && Contains(heading, "2011")
    ensures r == Some(Y2021To2023) <==>
      && !(Contains(heading, "1970") && Contains(heading, "以前")) && !Contains(heading, "1971")
      && !Contains(heading, "1981") && !Contains(heading, "1991") && !Contains(heading, "2001")
      && !Contains(heading, "2011") && (Contains(heading, "2021") || Contains(heading, "2023"))
  {
    if Contains(heading, "1970") && Contains(heading, "以前") then Some(Pre1970)
    else if Contains(heading, "1971") then Some(Y1971To1980)
    else if Contains(heading, "1981") then Some(Y1981To1990)
    else if Contains(heading, "1991") then Some(Y1991To2000)
    else if Contains(heading, "2001") then Some(Y2001To2010)
    else if Contains(heading, "2011") then Some(Y2011To2020)
    else if Contains(heading, "2021") || Contains(heading, "2023") then Some(Y2021To2023)
    else None
  }

  /** The value of a row: `to_int(row[3])`, or 0 when the sheet has no fourth column. */
  function AgeValue(row: Row): int {
    if 3 < |row| then ToInt(row[3]) else 0
  }

  /** What one age row contributes: a city code, the bucket its label names (if any) and
      the value. */
  datatype AgeObservation = AgeObservation(code: string, bucket: Option<Bucket>, value: int)

  /** One iteration of the row loop of `import_house_age`: None when the row has no region
      token (looked for without stripping) or no age label. */
  function ObserveAgeRow(row: Row): (r: Option<AgeObservation>)
    ensures r.Some? <==> RegionToken(row, false).Some? && FirstIndex(Texts(row), IsAgeLabel).Some?
    ensures r.Some? ==> r.value.bucket == BucketOf(Texts(row)[FirstIndex(Texts(row), IsAgeLabel).value])
    ensures r.Some? ==> r.value.code == CityCode(RegionToken(row, false).value)
    ensures r.Some? ==> r.value.value == AgeValue(row)
    ensures r.Some? ==> |r.value.code| == 5
  {
    match RegionToken(row, false)
    case None => None
    case Some(t) =>
      var code := CityCode(t);
      var texts := Texts(row);
      match FirstIndex(texts, IsAgeLabel)
      case None => None
      case Some(k) => Some(AgeObservation(code, BucketOf(texts[k]), AgeValue(row)))
  }

  /** What a run of age rows contributes, row by row. */
  function ObserveRows(rows: seq<Row>): (r: seq<Option<AgeObservation>>)
    ensures |r| == |rows| && forall k :: 0 <= k < |rows| ==> r[k] == ObserveAgeRow(rows[k])
  {
    seq(|rows|, k requires 0 <= k < |rows| => ObserveAgeRow(rows[k]))
  }

  /** What the age sheet contributes from its data start on, or None when no row passes
      the data-start test. */
  function AgeObservations(grid: Grid): Option<seq<Option<AgeObservation>>> {
    match FirstIndex(grid, IsDataStartRow)
    case None => None
    case Some(d) => Some(ObserveRows(grid[d..]))
  }

  /** One update of the `records` dictionary: a new code starts with every bucket 0, then the
      named bucket is overwritten (not added to). */
  function Observe(records: map<string, AgeRecord>, o: Option<AgeObservation>): map<string, AgeRecord> {
    match o
    case None => records
    case Some(obs) =>
      var base := if obs.code in records then records[obs.code] else EmptyAgeRecord(obs.code, SurveyYear);
      match obs.bucket
      case None => records[obs.code := base]
      case Some(b) => records[obs.code := base.With(b, obs.value)]
  }

  /** The `records` dictionary after the rows, in order. */
  function AgesAfter(records: map<string, AgeRecord>, obs: seq<Option<AgeObservation>>): map<string, AgeRecord>
    decreases |obs|
  {
    if obs == [] then records
    else Observe(AgesAfter(records, obs[..|obs| - 1]), obs[|obs| - 1])
  }

  /** The value of the last row of city `c` naming bucket `b`, or `init` when none does: an
      independent statement of "later rows overwrite". */
  function LastBucketValue(obs: seq<Option<AgeObservation>>, c: string, b: Bucket, init: int): int
    decreases |obs|
  {
    if obs == [] then init
    else
      var o := obs[|obs| - 1];
      if o.Some? && o.value.code == c && o.value.bucket == Some(b) then o.value.value
      else LastBucketValue(obs[..|obs| - 1], c, b, init)
  }

  /** The codes observed. */
  function ObservedCodes(obs: seq<Option<AgeObservation>>): set<string> {
    set k | 0 <= k < |obs| && obs[k].Some? :: obs[k].value.code
  }

  /** Extending the rows by one applies that row's update to the dictionary. */
  lemma AgesStep(records: map<string, AgeRecord>, obs: seq<Option<AgeObservation>>, k: nat)
    requires k < |obs|
    ensures AgesAfter(records, obs[..k + 1]) == Observe(AgesAfter(records, obs[..k]), obs[k])
  {
    assert obs[..k + 1][..k] == obs[..k];
  }

  /** Exactly one record per distinct code: the dictionary's keys are the old ones and the
      observed codes. */
  lemma {:induction false} AgesAfterKeys(records: map<string, AgeRecord>, obs: seq<Option<AgeObservation>>)
    ensures AgesAfter(records, obs).Keys == records.Keys + ObservedCodes(obs)
    decreases |obs|
  {
    if obs != [] {
      var init := obs[..|obs| - 1];
      AgesAfterKeys(records, init);
      var last := obs[|obs| - 1];
      assert ObservedCodes(obs) == ObservedCodes(init) + (if last.Some? then {last.value.code} else {}) by {
        forall x | x in ObservedCodes(obs)
          ensures x in ObservedCodes(init) + (if last.Some? then {last.value.code} else {})
        {
          var k :| 0 <= k < |obs| && obs[k].Some? && obs[k].value.code == x;
          if k < |init| { assert init[k] == obs[k]; }
        }
        forall x | x in ObservedCodes(init) ensures x in ObservedCodes(obs) {
          var k :| 0 <= k < |init| && init[k].Some? && init[k].value.code == x;
          assert obs[k] == init[k];
        }
      }
    }
  }

  /** Every bucket holds the value of the last row naming it, or its starting value (0 for a
      code first seen in this sheet); every record keeps its code and the survey year. */
  lemma {:induction false} AgesAfterLastWins(records: map<string, AgeRecord>, obs: seq<Option<AgeObservation>>, c: string, b: Bucket)
    requires forall x :: x in records ==> records[x].code == x && records[x].year == SurveyYear
    requires c in AgesAfter(records, obs)
    ensures AgesAfter(records, obs)[c].code == c && AgesAfter(records, obs)[c].year == SurveyYear
    ensures AgesAfter(records, obs)[c].Get(b) ==
      LastBucketValue(obs, c, b, if c in records then records[c].Get(b) else 0)
    decreases |obs|
  {
    var init := if c in records then records[c].Get(b) else 0;
    if obs != [] {
      var prefix := obs[..|obs| - 1];
      var last := obs[|obs| - 1];
      var before := AgesAfter(records, prefix);
      if c in before {
        AgesAfterLastWins(records, prefix, c, b);
      } else {
        AgesAfterKeys(records, prefix);
        assert c !in records;
        LastBucketAbsent(prefix, c, b, init);
      }
      AgesAfterCodes(records, prefix);
      ObserveGet(before, last, c, b);
    }
  }

  /** Every record the dictionary holds is filed under its own code and the survey year. */
  lemma {:induction false} AgesAfterCodes(records: map<string, AgeRecord>, obs: seq<Option<AgeObservation>>)
    requires forall x :: x in records ==> records[x].code == x && records[x].year == SurveyYear
    ensures forall x :: x in AgesAfter(records, obs) ==>
      AgesAfter(records, obs)[x].code == x && AgesAfter(records, obs)[x].year == SurveyYear
    decreases |obs|
  {
    if obs != [] {
      var before := AgesAfter(records, obs[..|obs| - 1]);
      AgesAfterCodes(records, obs[..|obs| - 1]);
      assert AgesAfter(records, obs) == Observe(before, obs[|obs| - 1]);
      forall x | x in AgesAfter(records, obs)
        ensures AgesAfter(records, obs)[x].code == x && AgesAfter(records, obs)[x].year == SurveyYear
      {
        ObserveGet(before, obs[|obs| - 1], x, Pre1970);
      }
    }
  }

  /** One update sets the named bucket of the row's code and leaves every other value. */
  lemma ObserveGet(records: map<string, AgeRecord>, o: Option<AgeObservation>, c: string, b: Bucket)
    requires forall x :: x in records ==> records[x].code == x && records[x].year == SurveyYear
    requires c in Observe(records, o)
    ensures Observe(records, o)[c].code == c && Observe(records, o)[c].year == SurveyYear
    ensures Observe(records, o)[c].Get(b) ==
      if o.Some? && o.value.code == c && o.value.bucket == Some(b) then o.value.value
      else if c in records then records[c].Get(b) else 0
  {
  }

  /** A code that was never observed keeps the starting value. */
  lemma {:induction false} LastBucketAbsent(obs: seq<Option<AgeObservation>>, c: string, b: Bucket, init: int)
    requires c !in ObservedCodes(obs)
    ensures LastBucketValue(obs, c, b, init) == init
    decreases |obs|
  {
    if obs != [] {
      var prefix := obs[..|obs| - 1];
      assert ObservedCodes(prefix) <= ObservedCodes(obs) by {
        forall x | x in ObservedCodes(prefix) ensures x in ObservedCodes(obs) {
          var k :| 0 <= k < |prefix| && prefix[k].Some? && prefix[k].value.code == x;
          assert obs[k] == prefix[k];
        }
      }
      if obs[|obs| - 1].Some? {
        assert obs[|obs| - 1].value.code in ObservedCodes(obs);
      }
      LastBucketAbsent(prefix, c, b, init);
    }
  }

  /** The age import's data-start test is looser than its token test: a row can pass the
      first with no cell that is a token. */
  lemma DataStartLooserThanToken()
    ensures var row: Row := [Some("A_19")];
      IsDataStartRow(row) && RegionToken(row, false).None?
  {
    var row: Row := [Some("A_19")];
    assert RowText(row) == "A_19";
    assert Contains("A_19"[2..], "19");
    ContainsInTail("A_19", 2, "19");
  }

  /** The age import does not strip cells: a token with a leading space is found by the
      vacancy import and missed by the age import. */
  lemma AgeImportDoesNotStrip()
    ensures RegionToken([Some(" 19201_甲府市")], true) == Some("19201_甲府市")
    ensures RegionToken([Some(" 19201_甲府市")], false).None?
  {
    StrippedToken();
  }

  lemma StrippedToken()
    ensures Strip(" 19201_甲府市") == "19201_甲府市"
  {
    var s := " 19201_甲府市";
    assert IsSpace(s[0]) && !IsSpace(s[1]) && !IsSpace(s[|s| - 1]);
    assert SpaceRunEnd(s, 0) == 1;
    assert SpaceRunStart(s, |s|) == |s|;
    assert Strip(s) == s[1..];
  }
}
