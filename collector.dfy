/**
 * The two import routines of `VacantHouseDataCollector` (Last/scrape.py): the row loops
 * that write a sheet into the `VacantHouseDB` store. Reading the Excel file is left out;
 * each routine takes the sheet as the grid pandas would hand over.
 */
module Collector {
  import opened Wrappers
  import opened VacantStore
  import opened Sheet

  /** The search loop `for i, row in raw_df.iterrows(): if test(row): idx = i; break`. */
  method FindFirstRow(grid: Grid, test: Row -> bool) returns (r: Option<nat>)
    ensures r.Some? ==> r.value < |grid| && test(grid[r.value])
    ensures r.Some? ==> forall j :: 0 <= j < r.value ==> !test(grid[j])
    ensures r.None? ==> forall j :: 0 <= j < |grid| ==> !test(grid[j])
    ensures r == FirstIndex(grid, test)
  {
    var i := 0;
    while i < |grid|
      invariant 0 <= i <= |grid|
      invariant forall j :: 0 <= j < i ==> !test(grid[j])
    {
      if test(grid[i]) {
        return Some(i);
      }
      i := i + 1;
    }
    return None;
  }

  /** The `house_age` rows the import writes: one per code, filed under the survey year. */
  function AgeRows(records: map<string, AgeRecord>, codes: set<string>): map<Key, AgeRecord>
    requires codes <= records.Keys
  {
    map c | c in codes :: (c, SurveyYear) := records[c]
  }

  /** Writing one more code's record extends the written rows by exactly that row. */
  lemma AgeRowsAdd(records: map<string, AgeRecord>, done: set<string>, c: string)
    requires done <= records.Keys && c in records
    ensures AgeRows(records, done + {c}) == AgeRows(records, done)[(c, SurveyYear) := records[c]]
  {
  }

  /** Writing one more code's record on top of the rows written so far. */
  lemma AgeRowsWritten(base: map<Key, AgeRecord>, records: map<string, AgeRecord>, done: set<string>, c: string)
    requires done <= records.Keys && c in records && c !in done
    requires records[c].KeyOf() == (c, SurveyYear)
    ensures (base + AgeRows(records, done))[records[c].KeyOf() := records[c]] == base + AgeRows(records, done + {c})
  {
    AgeRowsAdd(records, done, c);
  }

  /** Moving one code from the codes still to write to those written keeps the two apart and
      their union the same, and shrinks the first by one. */
  lemma MoveOne(done: set<string>, remaining: set<string>, c: string)
    requires c in remaining && done !! remaining
    ensures (done + {c}) + (remaining - {c}) == done + remaining
    ensures (done + {c}) !! (remaining - {c})
    ensures |remaining - {c}| == |remaining| - 1 && |done + {c}| == |done| + 1
  {
  }

  class VacantHouseDataCollector {
    const db: VacantHouseDB

    constructor (db: VacantHouseDB)
      ensures this.db == db
    {
      this.db := db;
    }

    /** One accepted row of `import_vacant_houses`: insert the city (a failure here ends the
        import), then the record if its fields could be read. */
    method ApplyVacancyPlan(plan: VacancyRowPlan) returns (failed: bool, wrote: bool)
      requires db.Valid()
      modifies db
      ensures db.Valid() && db.tablesExist == old(db.tablesExist) && db.ages == old(db.ages)
      ensures failed <==> !db.tablesExist && !plan.SkipRow?
      ensures db.tablesExist ==>
        && db.cities == CityStep(old(db.cities), plan)
        && db.vacant == VacancyStep(old(db.vacant), plan)
        && wrote == plan.CityAndRecord?
      ensures !db.tablesExist ==> db.cities == old(db.cities) && db.vacant == old(db.vacant) && !wrote
    {
      failed, wrote := false, false;
      if !plan.SkipRow? {
        var outcome := db.InsertCityTown(plan.city.code, plan.city.name);
        if outcome.RolledBack? {
          return true, false;
        }
        if plan.CityAndRecord? {
          var written := db.InsertVacantHouses(plan.rec);
          wrote := written.Committed?;
        }
      }
    }

    /** The store after the rows of `plans` went through the row loop from `cities0` and
        `vacant0`: every step applied when the tables exist, nothing written otherwise. */
    ghost predicate Imported(cities0: seq<City>, vacant0: map<Key, VacancyRecord>, plans: seq<VacancyRowPlan>, count: nat)
      reads db
    {
      if db.tablesExist then
        && db.cities == CitiesAfter(cities0, plans)
        && db.vacant == VacantAfter(vacant0, plans)
        && count == RecordCount(plans)
      else
        && !TouchesTables(plans) && count == 0
        && db.cities == cities0 && db.vacant == vacant0
    }

    /** One pass of the row loop of `import_vacant_houses`: plan row `i` and apply it. On
        failure the store is unchanged and the run touches the tables without them. */
    method ImportVacancyRow(labels: seq<string>, cols: Columns, rows: seq<Row>, i: nat,
                            ghost cities0: seq<City>, ghost vacant0: map<Key, VacancyRecord>, count: nat)
      returns (failed: bool, count': nat)
      requires db.Valid() && ColumnsWithin(cols, |labels|) && i < |rows|
      requires Imported(cities0, vacant0, RowPlans(labels, cols, rows)[..i], count)
      modifies db
      ensures db.Valid() && db.tablesExist == old(db.tablesExist) && db.ages == old(db.ages)
      ensures failed ==> !db.tablesExist && TouchesTables(RowPlans(labels, cols, rows)) && count' == count
      ensures !failed ==> Imported(cities0, vacant0, RowPlans(labels, cols, rows)[..i + 1], count')
    {
      ghost var plans := RowPlans(labels, cols, rows);
      PlansStep(cities0, vacant0, plans, i);
      var plan := PlanVacancyRow(labels, cols, rows[i]);
      var wrote;
      failed, wrote := ApplyVacancyPlan(plan);
      count' := count;
      if failed {
        TouchesTablesAt(plans, i);
        return;
      }
      if wrote {
        count' := count + 1;
      }
    }

    /** The row loop of `import_vacant_houses` over the data rows. */
    method ImportVacancyRows(labels: seq<string>, cols: Columns, rows: seq<Row>) returns (ok: bool, count: nat)
      requires db.Valid() && ColumnsWithin(cols, |labels|)
      modifies db
      ensures db.Valid()
      ensures db.tablesExist == old(db.tablesExist) && db.ages == old(db.ages)
      ensures old(db.tablesExist) ==>
        var plans := RowPlans(labels, cols, rows);
        && ok && count == RecordCount(plans)
        && db.cities == CitiesAfter(old(db.cities), plans)
        && db.vacant == VacantAfter(old(db.vacant), plans)
      ensures !old(db.tablesExist) ==>
        && ok == !TouchesTables(RowPlans(labels, cols, rows)) && count == 0
        && db.cities == old(db.cities) && db.vacant == old(db.vacant)
    {
      ghost var plans := RowPlans(labels, cols, rows);
      ghost var cities0, vacant0 := db.cities, db.vacant;
      count := 0;
      var i := 0;
      assert plans[..0] == [];
      while i < |rows|
        invariant 0 <= i <= |rows|
        invariant db.Valid() && db.tablesExist == old(db.tablesExist) && db.ages == old(db.ages)
        invariant Imported(cities0, vacant0, plans[..i], count)
      {
        var failed;
        failed, count := ImportVacancyRow(labels, cols, rows, i, cities0, vacant0, count);
        if failed {
          return false, count;
        }
        i := i + 1;
      }
      assert plans[..|rows|] == plans;
      ok := true;
    }

    /** `import_vacant_houses`: find the header, resolve the columns, then for each data row
        insert its city and its record. Returns whether the import succeeded and the number
        of records written. A failed city insert ends the import with False; a row whose
        fields cannot be read keeps its city and writes no record. */
    method ImportVacantHouses(grid: Grid) returns (ok: bool, count: nat)
      requires db.Valid()
      modifies db
      ensures db.Valid()
      ensures db.tablesExist == old(db.tablesExist) && db.ages == old(db.ages)
      ensures VacancyPlans(grid).None? ==>
        !ok && count == 0 && db.cities == old(db.cities) && db.vacant == old(db.vacant)
      ensures VacancyPlans(grid).Some? && old(db.tablesExist) ==>
        var plans := VacancyPlans(grid).value;
        && ok && count == RecordCount(plans)
        && db.cities == CitiesAfter(old(db.cities), plans)
        && db.vacant == VacantAfter(old(db.vacant), plans)
      ensures VacancyPlans(grid).Some? && !old(db.tablesExist) ==>
        && ok == !TouchesTables(VacancyPlans(grid).value) && count == 0
        && db.cities == old(db.cities) && db.vacant == old(db.vacant)
    {
      var header := FindFirstRow(grid, IsHeaderRow);
      if header.None? {
        return false, 0;
      }
      var h := header.value;
      if h + 2 > |grid| {
        // pandas finds no column-name row, so the column assignment raises.
        return false, 0;
      }
      var labels := Texts(grid[h]);
      var cols := ResolveColumns(labels);
      ok, count := ImportVacancyRows(labels, cols, grid[h + 2..]);
    }

    /** One accepted age row: a code not seen yet starts with every bucket 0, then the
        row's bucket (if its label names one) is set to the row's value. */
    static method RecordObservation(records: map<string, AgeRecord>, ob: AgeObservation)
      returns (updated: map<string, AgeRecord>)
      ensures updated == Observe(records, Some(ob))
    {
      updated := records;
      if ob.code !in updated {
        updated := updated[ob.code := EmptyAgeRecord(ob.code, SurveyYear)];
      }
      match ob.bucket {
        case Some(b) => updated := updated[ob.code := updated[ob.code].With(b, ob.value)];
        case None =>
      }
    }

    /** The dictionary loop of `import_house_age` over the rows from the data start on. */
    static method CollectAgeRecords(rows: seq<Row>) returns (records: map<string, AgeRecord>)
      ensures records == AgesAfter(map[], ObserveRows(rows))
      ensures forall c :: c in records ==> records[c].KeyOf() == (c, SurveyYear)
    {
      ghost var obs := ObserveRows(rows);
      records := map[];
      var i := 0;
      while i < |rows|
        invariant 0 <= i <= |rows|
        invariant records == AgesAfter(map[], obs[..i])
      {
        AgesStep(map[], obs, i);
        var o := ObserveAgeRow(rows[i]);
        assert obs[i] == o;
        if o.Some? {
          records := RecordObservation(records, o.value);
        }
        i := i + 1;
      }
      assert obs[..|rows|] == obs;
      AgesAfterCodes(map[], obs);
    }

    /** The `house_age` rows so far: the rows of the codes in `done` on top of `ages0` when
        the tables exist, and no change and nothing done when they do not. */
    ghost predicate AgesWritten(ages0: map<Key, AgeRecord>, records: map<string, AgeRecord>, done: set<string>)
      requires done <= records.Keys
      reads db
    {
      if db.tablesExist then db.ages == ages0 + AgeRows(records, done)
      else db.ages == ages0 && done == {}
    }

    /** One `insert_house_age` call of the import: it fails only when the tables do not
        exist, and otherwise adds the code's row to those written so far. */
    method WriteAgeRecord(records: map<string, AgeRecord>, c: string,
                          ghost ages0: map<Key, AgeRecord>, ghost done: set<string>) returns (failed: bool)
      requires db.Valid() && done <= records.Keys && c in records && c !in done
      requires records[c].KeyOf() == (c, SurveyYear)
      requires AgesWritten(ages0, records, done)
      modifies db
      ensures db.Valid() && db.tablesExist == old(db.tablesExist)
      ensures db.cities == old(db.cities) && db.vacant == old(db.vacant)
      ensures failed <==> !db.tablesExist
      ensures failed ==> db.ages == old(db.ages)
      ensures !failed ==> AgesWritten(ages0, records, done + {c})
    {
      var outcome := db.InsertHouseAge(records[c]);
      failed := outcome.RolledBack?;
      if !failed {
        AgeRowsWritten(ages0, records, done, c);
      }
    }

    /** The write loop of `import_house_age`: one `insert_house_age` per record; the first
        failure ends the import with False. */
    method WriteAgeRecords(records: map<string, AgeRecord>) returns (ok: bool, count: nat)
      requires db.Valid()
      requires forall c :: c in records ==> records[c].KeyOf() == (c, SurveyYear)
      modifies db
      ensures db.Valid()
      ensures db.tablesExist == old(db.tablesExist) && db.cities == old(db.cities) && db.vacant == old(db.vacant)
      ensures old(db.tablesExist) ==>
        ok && count == |records| && db.ages == old(db.ages) + AgeRows(records, records.Keys)
      ensures !old(db.tablesExist) ==> ok == (records == map[]) && count == 0 && db.ages == old(db.ages)
    {
      var remaining := records.Keys;
      ghost var done: set<string> := {};
      count := 0;
      while remaining != {}
        invariant done + remaining == records.Keys && done !! remaining
        invariant db.Valid() && db.tablesExist == old(db.tablesExist)
        invariant db.cities == old(db.cities) && db.vacant == old(db.vacant)
        invariant AgesWritten(old(db.ages), records, done) && count == |done|
        decreases |remaining|
      {
        var c :| c in remaining;
        var failed := WriteAgeRecord(records, c, old(db.ages), done);
        if failed {
          return false, count;
        }
        MoveOne(done, remaining, c);
        done := done + {c};
        remaining := remaining - {c};
        count := count + 1;
      }
      ok := true;
    }

    /** `import_house_age`: find the data start, collect one record per city code whose
        buckets later rows overwrite, then write each record. Cities are not inserted. */
    method ImportHouseAge(grid: Grid) returns (ok: bool, count: nat)
      requires db.Valid()
      modifies db
      ensures db.Valid()
      ensures db.tablesExist == old(db.tablesExist) && db.cities == old(db.cities) && db.vacant == old(db.vacant)
      ensures AgeObservations(grid).None? ==> !ok && count == 0 && db.ages == old(db.ages)
      ensures AgeObservations(grid).Some? ==>
        var records := AgesAfter(map[], AgeObservations(grid).value);
        && (old(db.tablesExist) ==>
              ok && count == |records| && db.ages == old(db.ages) + AgeRows(records, records.Keys))
        && (!old(db.tablesExist) ==> ok == (records == map[]) && count == 0 && db.ages == old(db.ages))
    {
      var start := FindFirstRow(grid, IsDataStartRow);
      if start.None? {
        return false, 0;
      }
      var records := CollectAgeRecords(grid[start.value..]);
      ok, count := WriteAgeRecords(records);
    }
  }
}
