/**
 * The three-table SQLite store of the vacant-house project: `VacantHouseDB` in
 * Last/db_manage.py.
 *
 * Each table is a field of the class: `city_town` as its rows in insertion order,
 * `vacant_houses` and `house_age` as maps keyed by their primary key (c_t_code, year).
 * Every operation runs in its own connection that commits on normal exit and rolls back
 * when the statement raises, so an operation either applies in full or leaves every table
 * as it was; a raised error is returned as `RolledBack(error)`.
 */
module VacantStore {
  import opened Wrappers

  /** The primary key (c_t_code, year) of `vacant_houses` and `house_age`. */
  type Key = (string, int)

  /** A `city_town` row. */
  datatype City = City(code: string, name: string)

  /** A `vacant_houses` row, field for field in the order `SELECT *` returns them. */
  datatype VacancyRecord = VacancyRecord(
    code: string, year: int,
    totalHouse: int, totalVacant: int,
    rent: int, sale: int, secondUse: int, otherVacant: int)
  {
    function KeyOf(): Key { (code, year) }
  }

  /** The seven construction-period columns of `house_age`. */
  datatype Bucket = Pre1970 | Y1971To1980 | Y1981To1990 | Y1991To2000 | Y2001To2010 | Y2011To2020 | Y2021To2023

  /** A `house_age` row, field for field in the order `SELECT *` returns them. */
  datatype AgeRecord = AgeRecord(
    code: string, year: int,
    pre1970: int, y1971To1980: int, y1981To1990: int, y1991To2000: int,
    y2001To2010: int, y2011To2020: int, y2021To2023: int)
  {
    function KeyOf(): Key { (code, year) }

    /** The count held in one bucket column. */
    function Get(b: Bucket): int {
      match b
      case Pre1970 => pre1970
      case Y1971To1980 => y1971To1980
      case Y1981To1990 => y1981To1990
      case Y1991To2000 => y1991To2000
      case Y2001To2010 => y2001To2010
      case Y2011To2020 => y2011To2020
      case Y2021To2023 => y2021To2023
    }

    /** `data[column] = v`: the record with one bucket overwritten and nothing else changed. */
    function With(b: Bucket, v: int): (r: AgeRecord)
      ensures r.code == code && r.year == year
      ensures r.Get(b) == v
      ensures forall other :: other != b ==> r.Get(other) == Get(other)
    {
      match b
      case Pre1970 => this.(pre1970 := v)
      case Y1971To1980 => this.(y1971To1980 := v)
      case Y1981To1990 => this.(y1981To1990 := v)
      case Y1991To2000 => this.(y1991To2000 := v)
      case Y2001To2010 => this.(y2001To2010 := v)
      case Y2011To2020 => this.(y2011To2020 := v)
      case Y2021To2023 => this.(y2021To2023 := v)
    }
  }

  /** A fresh `house_age` record: every bucket 0. */
  function EmptyAgeRecord(code: string, year: int): (r: AgeRecord)
    ensures r.KeyOf() == (code, year)
    ensures forall b :: r.Get(b) == 0
  {
    AgeRecord(code, year, 0, 0, 0, 0, 0, 0, 0)
  }

  /** What a statement raised: a missing table (`sqlite3.OperationalError`) or a violated
      constraint (`sqlite3.IntegrityError`). */
  datatype DbError = NoSuchTable | ForeignKeyViolation | UniqueViolation

  /** How the connection's context manager ended: committed, or rolled back and re-raised. */
  datatype Outcome = Committed | RolledBack(error: DbError)

  /** The codes of a list of `city_town` rows. */
  function Codes(cities: seq<City>): (r: set<string>)
    ensures forall c :: c in cities ==> c.code in r
    ensures forall code :: code in r ==> exists c :: c in cities && c.code == code
  {
    set c | c in cities :: c.code
  }

  /** No two rows share a code: what the PRIMARY KEY on `city_town.code` guarantees. */
  predicate DistinctCodes(cities: seq<City>) {
    forall i, j :: 0 <= i < j < |cities| ==> cities[i].code != cities[j].code
  }

  /** `INSERT OR IGNORE INTO city_town`: a new code is appended, an existing one is left as is. */
  function InsertOrIgnore(cities: seq<City>, code: string, name: string): (r: seq<City>)
    ensures code in Codes(cities) ==> r == cities
    ensures code !in Codes(cities) ==> r == cities + [City(code, name)]
  {
    if code in Codes(cities) then cities else cities + [City(code, name)]
  }

  /** Inserting keeps the codes distinct, and afterwards the code is present. */
  lemma InsertOrIgnoreKeepsDistinct(cities: seq<City>, code: string, name: string)
    requires DistinctCodes(cities)
    ensures DistinctCodes(InsertOrIgnore(cities, code, name))
    ensures Codes(InsertOrIgnore(cities, code, name)) == Codes(cities) + {code}
  {
    var r := InsertOrIgnore(cities, code, name);
    if code !in Codes(cities) {
      forall i, j | 0 <= i < j < |r| ensures r[i].code != r[j].code {
        if j == |cities| {
          assert r[i] in cities;
        }
      }
    }
  }

  /** A second insert of a known code changes nothing: one row remains and it keeps the
      name it was first inserted with, whatever name the second insert carries. */
  lemma InsertOrIgnoreKeepsFirstName(cities: seq<City>, code: string, first: string, second: string)
    requires code !in Codes(cities)
    ensures var once := InsertOrIgnore(cities, code, first);
      && InsertOrIgnore(once, code, second) == once
      && once[|once| - 1] == City(code, first)
      && |once| == |cities| + 1
  {
    var once := InsertOrIgnore(cities, code, first);
    assert once[|once| - 1] in once;
  }

  /** The keys of a table that belong to one city. */
  function KeysOfCity(keys: set<Key>, code: string): (r: set<Key>)
    ensures r <= keys
    ensures forall k :: k in r <==> k in keys && k.0 == code
  {
    set k | k in keys && k.0 == code
  }

  /** A non-empty set of keys has one with the smallest year. */
  lemma {:induction false} SmallestYearExists(keys: set<Key>)
    requires keys != {}
    ensures exists k :: k in keys && forall o :: o in keys ==> k.1 <= o.1
    decreases |keys|
  {
    var x :| x in keys;
    var rest := keys - {x};
    if rest == {} {
      assert keys == {x};
    } else {
      SmallestYearExists(rest);
      var m :| m in rest && forall o :: o in rest ==> m.1 <= o.1;
      if x.1 <= m.1 {
        assert forall o :: o in keys ==> x.1 <= o.1;
      } else {
        assert forall o :: o in keys ==> m.1 <= o.1;
      }
    }
  }

  /** What `KeysByYear` has established after taking `ks` out of the keys of the city: `ks`
      is those keys in ascending year, all before the years still `remaining`. */
  ghost predicate ListedSoFar(keys: set<Key>, code: string, ks: seq<Key>, remaining: set<Key>) {
    && remaining <= KeysOfCity(keys, code)
    && (forall i :: 0 <= i < |ks| ==> ks[i] in keys && ks[i].0 == code)
    && (forall k :: k in KeysOfCity(keys, code) ==> k in remaining || k in ks)
    && (forall i, j :: 0 <= i < j < |ks| ==> ks[i].1 < ks[j].1)
    && (forall i, k :: 0 <= i < |ks| && k in remaining ==> ks[i].1 < k.1)
    && |ks| + |remaining| == |KeysOfCity(keys, code)|
  }

  /** Taking the remaining key with the smallest year keeps `ListedSoFar`. */
  lemma ListedSoFarStep(keys: set<Key>, code: string, ks: seq<Key>, remaining: set<Key>, k: Key)
    requires ListedSoFar(keys, code, ks, remaining)
    requires k in remaining && forall o :: o in remaining ==> k.1 <= o.1
    ensures ListedSoFar(keys, code, ks + [k], remaining - {k})
  {
    // Keys of one city with the same year are the same key.
    assert forall o :: o in remaining && o != k ==> k.1 < o.1;
    assert |remaining - {k}| == |remaining| - 1;
  }

  /** `WHERE c_t_code = ? ORDER BY year`: the keys of one city, each once, by ascending year. */
  method KeysByYear(keys: set<Key>, code: string) returns (ks: seq<Key>)
    ensures forall i :: 0 <= i < |ks| ==> ks[i] in keys && ks[i].0 == code
    ensures forall k :: k in keys && k.0 == code ==> k in ks
    ensures forall i, j :: 0 <= i < j < |ks| ==> ks[i].1 < ks[j].1
    ensures |ks| == |KeysOfCity(keys, code)|
  {
    var remaining := KeysOfCity(keys, code);
    ks := [];
    while remaining != {}
      invariant ListedSoFar(keys, code, ks, remaining)
      decreases |remaining|
    {
      SmallestYearExists(remaining);
      var k :| k in remaining && forall o :: o in remaining ==> k.1 <= o.1;
      ListedSoFarStep(keys, code, ks, remaining, k);
      ks := ks + [k];
      remaining := remaining - {k};
    }
  }

  class VacantHouseDB {
    /** Whether `initialize_database` has created the tables (and no drop has removed them). */
    var tablesExist: bool
    /** `city_town`, in the order its rows were inserted. */
    var cities: seq<City>
    /** `vacant_houses`, keyed by (c_t_code, year). */
    var vacant: map<Key, VacancyRecord>
    /** `house_age`, keyed by (c_t_code, year). */
    var ages: map<Key, AgeRecord>

    /** The tables' constraints: unique city codes, each row stored under its own key, and
        no rows while the tables do not exist. */
    ghost predicate Valid()
      reads this
    {
      && DistinctCodes(cities)
      && (forall k :: k in vacant ==> vacant[k].KeyOf() == k)
      && (forall k :: k in ages ==> ages[k].KeyOf() == k)
      && (!tablesExist ==> cities == [] && vacant == map[] && ages == map[])
    }

    /** A store on a new database file: no tables yet. */
    constructor ()
      ensures Valid() && !tablesExist
      ensures cities == [] && vacant == map[] && ages == map[]
    {
      tablesExist := false;
      cities := [];
      vacant := map[];
      ages := map[];
    }

    /** `initialize_database`: `CREATE TABLE IF NOT EXISTS` for the three tables; rows
        already present are kept. */
    method InitializeDatabase() returns (outcome: Outcome)
      requires Valid()
      modifies this
      ensures Valid() && tablesExist && outcome == Committed
      ensures cities == old(cities) && vacant == old(vacant) && ages == old(ages)
    {
      tablesExist := true;
      outcome := Committed;
    }

    /** `insert_city_town`: INSERT OR IGNORE. */
    method InsertCityTown(code: string, name: string) returns (outcome: Outcome)
      requires Valid()
      modifies this
      ensures Valid()
      ensures tablesExist == old(tablesExist) && vacant == old(vacant) && ages == old(ages)
      ensures !tablesExist ==> outcome == RolledBack(NoSuchTable) && cities == old(cities)
      ensures tablesExist ==> outcome == Committed && cities == InsertOrIgnore(old(cities), code, name)
    {
      if !tablesExist {
        return RolledBack(NoSuchTable);
      }
      InsertOrIgnoreKeepsDistinct(cities, code, name);
      cities := InsertOrIgnore(cities, code, name);
      outcome := Committed;
    }

    /** `insert_vacant_houses`: INSERT OR REPLACE, the whole row for (c_t_code, year) is
        replaced. Foreign keys are not enforced on the class's own connections, so the city
        need not exist. */
    method InsertVacantHouses(rec: VacancyRecord) returns (outcome: Outcome)
      requires Valid()
      modifies this
      ensures Valid()
      ensures tablesExist == old(tablesExist) && cities == old(cities) && ages == old(ages)
      ensures !tablesExist ==> outcome == RolledBack(NoSuchTable) && vacant == old(vacant)
      ensures tablesExist ==> outcome == Committed && vacant == old(vacant)[rec.KeyOf() := rec]
    {
      if !tablesExist {
        return RolledBack(NoSuchTable);
      }
      vacant := vacant[rec.KeyOf() := rec];
      outcome := Committed;
    }

    /** `insert_house_age`: INSERT OR REPLACE keyed by (c_t_code, year). */
    method InsertHouseAge(rec: AgeRecord) returns (outcome: Outcome)
      requires Valid()
      modifies this
      ensures Valid()
      ensures tablesExist == old(tablesExist) && cities == old(cities) && vacant == old(vacant)
      ensures !tablesExist ==> outcome == RolledBack(NoSuchTable) && ages == old(ages)
      ensures tablesExist ==> outcome == Committed && ages == old(ages)[rec.KeyOf() := rec]
    {
      if !tablesExist {
        return RolledBack(NoSuchTable);
      }
      ages := ages[rec.KeyOf() := rec];
      outcome := Committed;
    }

    /** A plain `INSERT INTO vacant_houses` on a connection that ran `PRAGMA foreign_keys =
        ON`: a duplicate key or an unknown city code raises `IntegrityError` and nothing is
        written. */
    method InsertVacantHousesEnforcingKeys(rec: VacancyRecord) returns (outcome: Outcome)
      requires Valid()
      modifies this
      ensures Valid()
      ensures tablesExist == old(tablesExist) && cities == old(cities) && ages == old(ages)
      ensures !tablesExist ==> outcome == RolledBack(NoSuchTable)
      ensures tablesExist && rec.KeyOf() in old(vacant) ==> outcome == RolledBack(UniqueViolation)
      ensures tablesExist && rec.KeyOf() !in old(vacant) && rec.code !in Codes(cities)
        ==> outcome == RolledBack(ForeignKeyViolation)
      ensures outcome.RolledBack? ==> vacant == old(vacant)
      ensures outcome == Committed <==>
        tablesExist && rec.KeyOf() !in old(vacant) && rec.code in Codes(cities)
      ensures outcome == Committed ==> vacant == old(vacant)[rec.KeyOf() := rec]
    {
      if !tablesExist {
        return RolledBack(NoSuchTable);
      }
      if rec.KeyOf() in vacant {
        return RolledBack(UniqueViolation);
      }
      if rec.code !in Codes(cities) {
        return RolledBack(ForeignKeyViolation);
      }
      vacant := vacant[rec.KeyOf() := rec];
      outcome := Committed;
    }

    /** `get_all_cities`: every `city_town` row, in the order the rows were inserted. */
    method GetAllCities() returns (r: Result<seq<City>, DbError>)
      requires Valid()
      ensures !tablesExist ==> r == Err(NoSuchTable)
      ensures tablesExist ==> r == Ok(cities)
    {
      if !tablesExist {
        return Err(NoSuchTable);
      }
      r := Ok(cities);
    }

    /** `get_vacant_houses_by_city`: exactly the rows of that city, by ascending year. */
    method GetVacantHousesByCity(code: string) returns (r: Result<seq<VacancyRecord>, DbError>)
      requires Valid()
      ensures !tablesExist ==> r == Err(NoSuchTable)
      ensures tablesExist ==> r.Ok?
      ensures r.Ok? ==> forall i :: 0 <= i < |r.value| ==>
        r.value[i].code == code && r.value[i].KeyOf() in vacant && vacant[r.value[i].KeyOf()] == r.value[i]
      ensures r.Ok? ==> forall k :: k in vacant && k.0 == code ==> vacant[k] in r.value
      ensures r.Ok? ==> |r.value| == |KeysOfCity(vacant.Keys, code)|
      ensures r.Ok? ==> forall i, j :: 0 <= i < j < |r.value| ==> r.value[i].year < r.value[j].year
    {
      if !tablesExist {
        return Err(NoSuchTable);
      }
      var table := vacant;
      var ks := KeysByYear(table.Keys, code);
      var rows := seq(|ks|, i requires 0 <= i < |ks| => table[ks[i]]);
      forall k | k in table && k.0 == code ensures table[k] in rows {
        var i :| 0 <= i < |ks| && ks[i] == k;
        assert rows[i] == table[k];
      }
      r := Ok(rows);
    }

    /** `get_house_age_by_city`: exactly the rows of that city, by ascending year. */
    method GetHouseAgeByCity(code: string) returns (r: Result<seq<AgeRecord>, DbError>)
      requires Valid()
      ensures !tablesExist ==> r == Err(NoSuchTable)
      ensures tablesExist ==> r.Ok?
      ensures r.Ok? ==> forall i :: 0 <= i < |r.value| ==>
        r.value[i].code == code && r.value[i].KeyOf() in ages && ages[r.value[i].KeyOf()] == r.value[i]
      ensures r.Ok? ==> forall k :: k in ages && k.0 == code ==> ages[k] in r.value
      ensures r.Ok? ==> |r.value| == |KeysOfCity(ages.Keys, code)|
      ensures r.Ok? ==> forall i, j :: 0 <= i < j < |r.value| ==> r.value[i].year < r.value[j].year
    {
      if !tablesExist {
        return Err(NoSuchTable);
      }
      var table := ages;
      var ks := KeysByYear(table.Keys, code);
      var rows := seq(|ks|, i requires 0 <= i < |ks| => table[ks[i]]);
      forall k | k in table && k.0 == code ensures table[k] in rows {
        var i :| 0 <= i < |ks| && ks[i] == k;
        assert rows[i] == table[k];
      }
      r := Ok(rows);
    }

    /** `drop_all_tables`: `DROP TABLE IF EXISTS` for the three tables; never raises. */
    method DropAllTables() returns (outcome: Outcome)
      requires Valid()
      modifies this
      ensures Valid() && !tablesExist && outcome == Committed
      ensures cities == [] && vacant == map[] && ages == map[]
    {
      tablesExist := false;
      cities := [];
      vacant := map[];
      ages := map[];
      outcome := Committed;
    }
  }

  /** Last/test.py's duplicate-city test: inserting the same code twice leaves one row,
      with the first name. */
  method DuplicateCityScenario(code: string, first: string, second: string) returns (r: seq<City>)
    ensures r == [City(code, first)]
  {
    var db := new VacantHouseDB();
    var _ := db.InitializeDatabase();
    var _ := db.InsertCityTown(code, first);
    var _ := db.InsertCityTown(code, second);
    var all := db.GetAllCities();
    r := all.value;
  }

  /** Last/test.py's insert tests: a vacancy record reads back field for field. */
  method VacancyReadBackScenario(rec: VacancyRecord, name: string) returns (r: seq<VacancyRecord>)
    ensures r == [rec]
  {
    var db := new VacantHouseDB();
    var _ := db.InitializeDatabase();
    var _ := db.InsertCityTown(rec.code, name);
    var _ := db.InsertVacantHouses(rec);
    var rows := db.GetVacantHousesByCity(rec.code);
    r := rows.value;
    assert KeysOfCity(db.vacant.Keys, rec.code) == {rec.KeyOf()};
    assert rec in r;
  }

  /** Last/test.py's house-age test: an age record reads back field for field. */
  method AgeReadBackScenario(rec: AgeRecord, name: string) returns (r: seq<AgeRecord>)
    ensures r == [rec]
  {
    var db := new VacantHouseDB();
    var _ := db.InitializeDatabase();
    var _ := db.InsertCityTown(rec.code, name);
    var _ := db.InsertHouseAge(rec);
    var rows := db.GetHouseAgeByCity(rec.code);
    r := rows.value;
    assert KeysOfCity(db.ages.Keys, rec.code) == {rec.KeyOf()};
    assert rec in r;
  }

  /** Last/test.py's update test: a second record with the same (code, year) replaces the
      first in full; one row remains. */
  method ReplaceScenario(first: VacancyRecord, second: VacancyRecord) returns (r: seq<VacancyRecord>)
    requires first.KeyOf() == second.KeyOf()
    ensures r == [second]
  {
    var db := new VacantHouseDB();
    var _ := db.InitializeDatabase();
    var _ := db.InsertVacantHouses(first);
    var _ := db.InsertVacantHouses(second);
    var rows := db.GetVacantHousesByCity(second.code);
    r := rows.value;
    assert KeysOfCity(db.vacant.Keys, second.code) == {second.KeyOf()};
    assert second in r;
  }

  /** Last/test.py's multiple-years test: records of two years coexist and read back in
      year order, whatever order they were inserted in. */
  method MultipleYearsScenario(later: VacancyRecord, earlier: VacancyRecord) returns (r: seq<VacancyRecord>)
    requires later.code == earlier.code && earlier.year < later.year
    ensures r == [earlier, later]
  {
    var db := new VacantHouseDB();
    var _ := db.InitializeDatabase();
    var _ := db.InsertVacantHouses(later);
    var _ := db.InsertVacantHouses(earlier);
    var rows := db.GetVacantHousesByCity(later.code);
    r := rows.value;
    assert KeysOfCity(db.vacant.Keys, later.code) == {earlier.KeyOf(), later.KeyOf()};
    assert earlier in r && later in r;
    assert forall x :: x in r ==> x == earlier || x == later;
    var i :| 0 <= i < |r| && r[i] == earlier;
    var j :| 0 <= j < |r| && r[j] == later;
    assert i < j;
  }

  /** Last/test.py's foreign-key test: with enforcement on, a record whose code is not in
      `city_town` is refused and nothing is written. */
  method ForeignKeyScenario(rec: VacancyRecord) returns (outcome: Outcome, r: seq<VacancyRecord>)
    ensures outcome == RolledBack(ForeignKeyViolation)
    ensures r == []
  {
    var db := new VacantHouseDB();
    var _ := db.InitializeDatabase();
    outcome := db.InsertVacantHousesEnforcingKeys(rec);
    var rows := db.GetVacantHousesByCity(rec.code);
    r := rows.value;
    assert KeysOfCity(db.vacant.Keys, rec.code) == {};
  }

  /** Last/test.py's empty-database test: queries on empty tables give empty lists, not errors. */
  method EmptyDatabaseScenario(code: string) returns (cities: Result<seq<City>, DbError>, rows: Result<seq<VacancyRecord>, DbError>)
    ensures cities == Ok([]) && rows == Ok([])
  {
    var db := new VacantHouseDB();
    var _ := db.InitializeDatabase();
    cities := db.GetAllCities();
    rows := db.GetVacantHousesByCity(code);
    assert KeysOfCity(db.vacant.Keys, code) == {};
  }
}
