/**
 The migration runner of the local SQLite database. It reads the stamp of the
 newest recorded migration, sorts the available migrations by stamp, and inside
 one transaction executes and records those that are newer, rolling everything
 back at the first failure.

 A database is its data and, once it exists, its "Migration" table. Executing
 SQL is an arbitrary partial function on databases, called the engine.
 */
module Migrations {
  import opened Wrappers
  import opened Sorting

  datatype Migration = Migration(name: string, sql: string, createdAt: int)

  datatype Row = Row(name: string, createdAt: int)

  /** `table` is None while the "Migration" table does not exist. */
  datatype Db<S> = Db(data: S, table: Option<seq<Row>>)

  /** None stands for an SQL error. */
  type Engine<!S> = (string, Db<S>) -> Option<Db<S>>

  function ByStamp(m: Migration): int {
    m.createdAt
  }

  /** The stamp of the first row in descending order, if there is a row. */
  function NewestStamp(rows: seq<Row>): Option<int> {
    if rows == [] then None
    else
      var newest, last := NewestStamp(rows[..|rows| - 1]), rows[|rows| - 1].createdAt;
      if newest.Some? && newest.value > last then newest else Some(last)
  }

  /** What getCurrentMigration finds: nothing when the table is missing or empty. */
  function Watermark<S>(db: Db<S>): Option<int> {
    if db.table.Some? then NewestStamp(db.table.value) else None
  }

  predicate Newer(m: Migration, watermark: Option<int>) {
    watermark.None? || m.createdAt > watermark.value
  }

  /** Executes one migration and records it; recording needs the table. */
  function Step<S>(engine: Engine<S>, db: Db<S>, m: Migration): Option<Db<S>> {
    var executed := engine(m.sql, db);
    if executed.None? || executed.value.table.None? then None
    else Some(executed.value.(table := Some(executed.value.table.value + [Row(m.name, m.createdAt)])))
  }

  /** The loop over the sorted migrations; None when a step fails. */
  function Apply<S>(engine: Engine<S>, db: Db<S>, ms: seq<Migration>, watermark: Option<int>): Option<Db<S>>
    decreases |ms|
  {
    if ms == [] then Some(db)
    else if Newer(ms[0], watermark) then
      var next := Step(engine, db, ms[0]);
      if next.None? then None else Apply(engine, next.value, ms[1..], Some(ms[0].createdAt))
    else Apply(engine, db, ms[1..], watermark)
  }

  /** The database that a run commits; None when it rolls back. */
  function Run<S>(engine: Engine<S>, db: Db<S>, available: seq<Migration>): Option<Db<S>> {
    Apply(engine, db, Sort(ByStamp, available), Watermark(db))
  }

  /** A connection with at most one open transaction. */
  class Connection<S> {
    const engine: Engine<S>
    /** What a failing SQL text leaves behind: its statements in front of the error have been executed. */
    const interrupted: (string, Db<S>) -> Db<S>
    var db: Db<S>
    var saved: Option<Db<S>>

    constructor (engine: Engine<S>, interrupted: (string, Db<S>) -> Db<S>, db: Db<S>)
      ensures this.engine == engine && this.interrupted == interrupted && this.db == db && saved.None?
    {
      this.engine, this.interrupted, this.db, saved := engine, interrupted, db, None;
    }

    method Begin()
      requires saved.None?
      modifies this`saved
      ensures saved == Some(db)
    {
      saved := Some(db);
    }

    method Commit()
      requires saved.Some?
      modifies this`saved
      ensures saved.None?
    {
      saved := None;
    }

    method Rollback()
      requires saved.Some?
      modifies this
      ensures saved.None? && db == old(saved.value)
    {
      db, saved := saved.value, None;
    }

    method Exec(sql: string) returns (ok: bool)
      modifies this`db
      ensures ok == engine(sql, old(db)).Some?
      ensures db == if ok then engine(sql, old(db)).value else interrupted(sql, old(db))
    {
      var result := engine(sql, db);
      ok := result.Some?;
      db := if ok then result.value else interrupted(sql, db);
    }

    method InsertMigration(name: string, createdAt: int) returns (ok: bool)
      modifies this`db
      ensures ok == old(db).table.Some?
      ensures db == if ok then old(db).(table := Some(old(db).table.value + [Row(name, createdAt)])) else old(db)
    {
      ok := db.table.Some?;
      if ok {
        db := db.(table := Some(db.table.value + [Row(name, createdAt)]));
      }
    }
  }

  /** A run commits exactly what Run says, or leaves the database as it was. */
  method InitDatabase<S>(c: Connection<S>, available: seq<Migration>) returns (failed: bool)
    requires c.saved.None?
    modifies c
    ensures c.saved.None?
    ensures failed == Run(c.engine, old(c.db), available).None?
    ensures c.db == if failed then old(c.db) else Run(c.engine, old(c.db), available).value
  {
    var currentMigration := Watermark(c.db);
    var migrations := Sort(ByStamp, available);
    failed := false;
    c.Begin();
    var i := 0;
    assert migrations[0..] == migrations;
    while i < |migrations|
      invariant 0 <= i <= |migrations|
      invariant !failed ==> c.saved == Some(old(c.db))
      invariant !failed ==>
        Run(c.engine, old(c.db), available) == Apply(c.engine, c.db, migrations[i..], currentMigration)
      invariant failed ==> c.saved.None? && c.db == old(c.db) && Run(c.engine, old(c.db), available).None?
      invariant failed ==> i == |migrations|
    {
      var migration := migrations[i];
      assert migrations[i..][1..] == migrations[i + 1..];
      if Newer(migration, currentMigration) {
        var ok := c.Exec(migration.sql);
        if ok {
          ok := c.InsertMigration(migration.name, migration.createdAt);
        }
        if !ok {
          failed := true;
          c.Rollback();
          break;
        }
        currentMigration := Some(migration.createdAt);
      }
      i := i + 1;
    }
    if c.saved.Some? && !failed {
      c.Commit();
    }
  }

  // ----- Which migrations a run applies -----

  /** The migrations that the loop applies when none fails. */
  function Applied(ms: seq<Migration>, watermark: Option<int>): seq<Migration> {
    if ms == [] then []
    else if Newer(ms[0], watermark) then [ms[0]] + Applied(ms[1..], Some(ms[0].createdAt))
    else Applied(ms[1..], watermark)
  }

  function ApplyAll<S>(engine: Engine<S>, db: Db<S>, ms: seq<Migration>): Option<Db<S>>
    decreases |ms|
  {
    if ms == [] then Some(db)
    else
      var next := Step(engine, db, ms[0]);
      if next.None? then None else ApplyAll(engine, next.value, ms[1..])
  }

  lemma {:induction false} ApplyIsApplyAll<S>(engine: Engine<S>, db: Db<S>, ms: seq<Migration>, w: Option<int>)
    ensures Apply(engine, db, ms, w) == ApplyAll(engine, db, Applied(ms, w))
    decreases |ms|
  {
    if ms != [] {
      if Newer(ms[0], w) {
        var next := Step(engine, db, ms[0]);
        assert Applied(ms, w)[1..] == Applied(ms[1..], Some(ms[0].createdAt));
        if next.Some? {
          ApplyIsApplyAll(engine, next.value, ms[1..], Some(ms[0].createdAt));
        }
      } else {
        ApplyIsApplyAll(engine, db, ms[1..], w);
      }
    }
  }

  lemma {:induction false} ApplyAllConcat<S>(engine: Engine<S>, db: Db<S>, xs: seq<Migration>, ys: seq<Migration>)
    ensures ApplyAll(engine, db, xs + ys) ==
            var middle := ApplyAll(engine, db, xs);
            if middle.None? then None else ApplyAll(engine, middle.value, ys)
    decreases |xs|
  {
    if xs == [] {
      assert xs + ys == ys;
    } else {
      assert (xs + ys)[1..] == xs[1..] + ys;
      var next := Step(engine, db, xs[0]);
      if next.Some? {
        ApplyAllConcat(engine, next.value, xs[1..], ys);
      }
    }
  }

  ghost predicate StrictlyAscending(ms: seq<Migration>) {
    forall i, j :: 0 <= i < j < |ms| ==> ms[i].createdAt < ms[j].createdAt
  }

  lemma {:induction false} AppliedIsAscending(ms: seq<Migration>, w: Option<int>)
    ensures StrictlyAscending(Applied(ms, w))
    ensures forall i :: 0 <= i < |Applied(ms, w)| ==> Newer(Applied(ms, w)[i], w) && Applied(ms, w)[i] in ms
  {
    if ms != [] {
      if Newer(ms[0], w) {
        AppliedIsAscending(ms[1..], Some(ms[0].createdAt));
      } else {
        AppliedIsAscending(ms[1..], w);
      }
    }
  }

  /** m comes first among the migrations with its stamp. */
  ghost predicate FirstOfStamp(m: Migration, ms: seq<Migration>) {
    var same := WithKey(ByStamp, m.createdAt, ms);
    same != [] && same[0] == m
  }

  /** In sorted order, the first migration of every newer stamp is applied and no other. */
  lemma {:induction false} AppliedIsFirstOfStamp(ms: seq<Migration>, w: Option<int>, m: Migration)
    requires SortedBy(ByStamp, ms)
    ensures m in Applied(ms, w) <==> Newer(m, w) && FirstOfStamp(m, ms)
  {
    if ms != [] {
      var first, rest := ms[0], ms[1..];
      WithKeyIsFrom(ms, m.createdAt);
      assert forall i :: 0 <= i < |ms| ==> ByStamp(ms[0]) <= ByStamp(ms[i]);
      if Newer(first, w) {
        AppliedIsFirstOfStamp(rest, Some(first.createdAt), m);
      } else {
        AppliedIsFirstOfStamp(rest, w, m);
      }
    }
  }

  lemma {:induction false} WithKeyIsFrom(ms: seq<Migration>, k: int)
    ensures forall i :: 0 <= i < |WithKey(ByStamp, k, ms)| ==>
              WithKey(ByStamp, k, ms)[i] in ms && WithKey(ByStamp, k, ms)[i].createdAt == k
  {
    if ms != [] {
      WithKeyIsFrom(ms[1..], k);
    }
  }

  // ----- What a run does to the "Migration" table -----

  /** SQL may create the table but leaves its rows to the runner. */
  ghost predicate LeavesRowsAlone<S(!new)>(engine: Engine<S>) {
    forall sql: string, db: Db<S> :: engine(sql, db).Some? ==>
      var after := engine(sql, db).value.table;
      if db.table.Some? then after == db.table else after.None? || after == Some([])
  }

  function Rows<S>(db: Db<S>): seq<Row> {
    if db.table.Some? then db.table.value else []
  }

  function RowsOf(ms: seq<Migration>): seq<Row> {
    seq(|ms|, i requires 0 <= i < |ms| => Row(ms[i].name, ms[i].createdAt))
  }

  lemma StepRecords<S(!new)>(engine: Engine<S>, db: Db<S>, m: Migration)
    requires LeavesRowsAlone(engine)
    ensures var next := Step(engine, db, m);
            next.Some? ==>
              && Rows(next.value) == Rows(db) + [Row(m.name, m.createdAt)]
              && (Newer(m, Watermark(db)) ==> Watermark(next.value) == Some(m.createdAt))
  {
    assert Watermark(db) == NewestStamp(Rows(db));
    var rows := Rows(db) + [Row(m.name, m.createdAt)];
    assert rows[..|rows| - 1] == Rows(db);
    if engine(m.sql, db).Some? && db.table.None? {
      assert [] + [Row(m.name, m.createdAt)] == rows;
    }
  }

  lemma {:induction false} ApplyAllRecords<S(!new)>(engine: Engine<S>, db: Db<S>, ms: seq<Migration>)
    requires LeavesRowsAlone(engine)
    requires StrictlyAscending(ms) && forall i :: 0 <= i < |ms| ==> Newer(ms[i], Watermark(db))
    ensures var after := ApplyAll(engine, db, ms);
            after.Some? ==>
              && Rows(after.value) == Rows(db) + RowsOf(ms)
              && Watermark(after.value) == if ms == [] then Watermark(db) else Some(ms[|ms| - 1].createdAt)
    decreases |ms|
  {
    if ms == [] {
      assert RowsOf(ms) == [];
    } else {
      var next, rest, row := Step(engine, db, ms[0]), ms[1..], Row(ms[0].name, ms[0].createdAt);
      StepRecords(engine, db, ms[0]);
      if next.Some? {
        assert forall i :: 0 <= i < |rest| ==> rest[i] == ms[i + 1];
        ApplyAllRecords(engine, next.value, rest);
        assert RowsOf(ms) == [row] + RowsOf(rest);
        assert Rows(db) + ([row] + RowsOf(rest)) == (Rows(db) + [row]) + RowsOf(rest);
      }
    }
  }

  // ----- The results -----

  /** What a run applies. */
  function RunApplies<S>(db: Db<S>, available: seq<Migration>): seq<Migration> {
    Applied(Sort(ByStamp, available), Watermark(db))
  }

  /**
   A run that does not roll back has applied, in strictly ascending order, the first
   available migration of every stamp above the watermark and nothing else, and
   has recorded exactly these.
   */
  lemma RunIsExact<S(!new)>(engine: Engine<S>, db: Db<S>, available: seq<Migration>)
    ensures var applied := RunApplies(db, available);
            && Run(engine, db, available) == ApplyAll(engine, db, applied)
            && StrictlyAscending(applied)
            && (forall m :: m in applied <==> Newer(m, Watermark(db)) && FirstOfStamp(m, available))
    ensures LeavesRowsAlone(engine) && Run(engine, db, available).Some? ==>
              Rows(Run(engine, db, available).value) == Rows(db) + RowsOf(RunApplies(db, available))
  {
    var sorted, w := Sort(ByStamp, available), Watermark(db);
    var applied := RunApplies(db, available);
    ApplyIsApplyAll(engine, db, sorted, w);
    AppliedIsAscending(sorted, w);
    SortSorts(ByStamp, available);
    forall m
      ensures m in applied <==> Newer(m, w) && FirstOfStamp(m, available)
    {
      AppliedIsFirstOfStamp(sorted, w, m);
      SortIsStable(ByStamp, available, m.createdAt);
    }
    if LeavesRowsAlone(engine) {
      ApplyAllRecords(engine, db, applied);
    }
  }

  /**
   db' is db after the SQL of m was executed and m was recorded. Executing must succeed
   and leave a "Migration" table.
   */
  ghost predicate Executes<S>(engine: Engine<S>, db: Db<S>, m: Migration, db': Db<S>) {
    match engine(m.sql, db)
    case Some(Db(data, Some(rows))) => db' == Db(data, Some(rows + [Row(m.name, m.createdAt)]))
    case _ => false
  }

  /** One database after the other, each by executing the next migration. */
  ghost predicate IsHistory<S>(engine: Engine<S>, ms: seq<Migration>, dbs: seq<Db<S>>) {
    && 0 < |dbs| <= |ms| + 1
    && forall i :: 0 <= i < |dbs| - 1 ==> Executes(engine, dbs[i], ms[i], dbs[i + 1])
  }

  /** The SQL fails or leaves no table to record the migration in. */
  predicate Fails<S>(engine: Engine<S>, db: Db<S>, m: Migration) {
    match engine(m.sql, db)
    case Some(Db(_, Some(_))) => false
    case _ => true
  }

  lemma {:induction false} HistoryOf<S>(engine: Engine<S>, db: Db<S>, ms: seq<Migration>) returns (dbs: seq<Db<S>>)
    ensures IsHistory(engine, ms, dbs) && dbs[0] == db
    ensures match ApplyAll(engine, db, ms)
            case Some(after) => |dbs| == |ms| + 1 && dbs[|ms|] == after
            case None => |dbs| <= |ms| && Fails(engine, dbs[|dbs| - 1], ms[|dbs| - 1])
    decreases |ms|
  {
    dbs := [db];
    if ms != [] {
      var next := Step(engine, db, ms[0]);
      if next.Some? {
        var rest := HistoryOf(engine, next.value, ms[1..]);
        dbs := [db] + rest;
        assert forall i :: 0 < i < |dbs| - 1 ==> Executes(engine, rest[i - 1], ms[1..][i - 1], rest[i]);
      }
    }
  }

  /**
   A run executes the SQL of the applied migrations one after the other, from the
   starting database to the result. It is rolled back exactly when one of them fails
   after those in front of it were executed.
   */
  lemma RunExecutesSql<S(!new)>(engine: Engine<S>, db: Db<S>, available: seq<Migration>)
    ensures var applied := RunApplies(db, available);
            exists dbs ::
              && IsHistory(engine, applied, dbs) && dbs[0] == db
              && match Run(engine, db, available)
                 case Some(after) => |dbs| == |applied| + 1 && dbs[|applied|] == after
                 case None => |dbs| <= |applied| && Fails(engine, dbs[|dbs| - 1], applied[|dbs| - 1])
  {
    RunIsExact(engine, db, available);
    var dbs := HistoryOf(engine, db, RunApplies(db, available));
  }

  lemma {:induction false} NewestIsLargest(rows: seq<Row>)
    ensures NewestStamp(rows).None? <==> rows == []
    ensures NewestStamp(rows).Some? ==>
              && (forall i :: 0 <= i < |rows| ==> rows[i].createdAt <= NewestStamp(rows).value)
              && (exists i :: 0 <= i < |rows| && rows[i].createdAt == NewestStamp(rows).value)
  {
    if rows != [] {
      var front := rows[..|rows| - 1];
      NewestIsLargest(front);
      if NewestStamp(rows) == NewestStamp(front) {
        var i :| 0 <= i < |front| && front[i].createdAt == NewestStamp(front).value;
        assert rows[i] == front[i];
      }
    }
  }

  /** A migration is newer when it is above every recorded stamp, also when there is no table yet. */
  lemma NewerThanAllRecorded<S>(db: Db<S>, m: Migration)
    ensures Newer(m, Watermark(db))
            <==> (db.table.Some? ==>
                    forall i :: 0 <= i < |db.table.value| ==> db.table.value[i].createdAt < m.createdAt)
  {
    if db.table.Some? {
      NewestIsLargest(db.table.value);
    }
  }

  /** After a run, the watermark is the stamp of the last applied migration. */
  lemma WatermarkAfterRun<S(!new)>(engine: Engine<S>, db: Db<S>, available: seq<Migration>)
    requires LeavesRowsAlone(engine) && Run(engine, db, available).Some?
    ensures var applied, w := RunApplies(db, available), Watermark(Run(engine, db, available).value);
            && w == (if applied == [] then Watermark(db) else Some(applied[|applied| - 1].createdAt))
            && forall m: Migration :: m in available || !Newer(m, Watermark(db)) ==> !Newer(m, w)
  {
    var applied := RunApplies(db, available);
    RunIsExact(engine, db, available);
    AppliedIsAscending(Sort(ByStamp, available), Watermark(db));
    ApplyAllRecords(engine, db, applied);
    var w := Watermark(Run(engine, db, available).value);
    forall m: Migration | m in available || !Newer(m, Watermark(db))
      ensures !Newer(m, w)
    {
      if Newer(m, Watermark(db)) {
        var first := FirstWithStampOf(available, m);
        assert first in applied;
        var i :| 0 <= i < |applied| && applied[i] == first;
        assert applied[i].createdAt <= applied[|applied| - 1].createdAt;
      } else if applied != [] {
        assert Newer(applied[0], Watermark(db));
      }
    }
  }

  lemma {:induction false} FirstWithStampOf(ms: seq<Migration>, m: Migration) returns (first: Migration)
    requires m in ms
    ensures FirstOfStamp(first, ms) && first.createdAt == m.createdAt
  {
    if ms[0].createdAt == m.createdAt {
      first := ms[0];
    } else {
      first := FirstWithStampOf(ms[1..], m);
    }
  }

  lemma {:induction false} NothingNewerToApply(ms: seq<Migration>, w: Option<int>)
    requires forall i :: 0 <= i < |ms| ==> !Newer(ms[i], w)
    ensures Applied(ms, w) == []
  {
    if ms != [] {
      NothingNewerToApply(ms[1..], w);
    }
  }

  /** Running again, with the same folders or with some of them, applies nothing. */
  lemma RerunAppliesNothing<S(!new)>(engine: Engine<S>, db: Db<S>, available: seq<Migration>, again: seq<Migration>)
    requires LeavesRowsAlone(engine) && Run(engine, db, available).Some?
    requires forall m :: m in again ==> m in available
    ensures var after := Run(engine, db, available).value;
            RunApplies(after, again) == [] && Run(engine, after, again) == Some(after)
  {
    var after := Run(engine, db, available).value;
    WatermarkAfterRun(engine, db, available);
    var sorted := Sort(ByStamp, again);
    forall i | 0 <= i < |sorted|
      ensures !Newer(sorted[i], Watermark(after))
    {
      SortHas(ByStamp, again, sorted[i]);
    }
    NothingNewerToApply(sorted, Watermark(after));
    ApplyIsApplyAll(engine, after, sorted, Watermark(after));
  }

  /** The order in which the folders are listed does not matter when no two stamps are equal. */
  lemma FolderOrderDoesNotMatter<S(!new)>(engine: Engine<S>, db: Db<S>, xs: seq<Migration>, ys: seq<Migration>)
    requires DistinctBy(ByStamp, xs) && multiset(xs) == multiset(ys)
    ensures RunApplies(db, xs) == RunApplies(db, ys) && Run(engine, db, xs) == Run(engine, db, ys)
  {
    SortSorts(ByStamp, xs);
    SortSorts(ByStamp, ys);
    SortKeepsDistinct(ByStamp, xs);
    SortedIsUnique(ByStamp, Sort(ByStamp, xs), Sort(ByStamp, ys));
  }

  // ----- One run or two -----

  function Above(ms: seq<Migration>, w: Option<int>): seq<Migration> {
    if ms == [] then []
    else if Newer(ms[0], w) then [ms[0]] + Above(ms[1..], w)
    else Above(ms[1..], w)
  }

  lemma {:induction false} AppliedIsAbove(ms: seq<Migration>, w: Option<int>)
    requires StrictlyAscending(ms)
    ensures Applied(ms, w) == Above(ms, w)
  {
    if ms != [] {
      if Newer(ms[0], w) {
        AppliedIsAbove(ms[1..], Some(ms[0].createdAt));
        AllAbove(ms[1..], Some(ms[0].createdAt));
        AllAbove(ms[1..], w);
      } else {
        AppliedIsAbove(ms[1..], w);
      }
    }
  }

  lemma {:induction false} AllAbove(ms: seq<Migration>, w: Option<int>)
    requires forall i :: 0 <= i < |ms| ==> Newer(ms[i], w)
    ensures Above(ms, w) == ms
  {
    if ms != [] {
      AllAbove(ms[1..], w);
    }
  }

  lemma {:induction false} CountAbove(ms: seq<Migration>, w: Option<int>, m: Migration)
    ensures multiset(Above(ms, w))[m] == if Newer(m, w) then multiset(ms)[m] else 0
  {
    if ms != [] {
      CountAbove(ms[1..], w, m);
      assert ms == [ms[0]] + ms[1..];
    }
  }

  lemma StampsAreDistinct(ms: seq<Migration>)
    requires DistinctBy(ByStamp, ms)
    ensures StrictlyAscending(Sort(ByStamp, ms))
    ensures multiset(Sort(ByStamp, ms)) == multiset(ms)
  {
    SortSorts(ByStamp, ms);
    SortKeepsDistinct(ByStamp, ms);
    var sorted := Sort(ByStamp, ms);
    forall i, j | 0 <= i < j < |sorted|
      ensures sorted[i].createdAt < sorted[j].createdAt
    {
      assert ByStamp(sorted[i]) <= ByStamp(sorted[j]) && ByStamp(sorted[i]) != ByStamp(sorted[j]);
    }
  }

  lemma AppliedAscends<S>(db: Db<S>, ms: seq<Migration>)
    requires DistinctBy(ByStamp, ms)
    ensures SortedBy(ByStamp, RunApplies(db, ms)) && DistinctBy(ByStamp, RunApplies(db, ms))
    ensures StrictlyAscending(RunApplies(db, ms))
  {
    AppliedIsAscending(Sort(ByStamp, ms), Watermark(db));
  }

  lemma AppliedCount<S>(db: Db<S>, ms: seq<Migration>, m: Migration)
    requires DistinctBy(ByStamp, ms)
    ensures multiset(RunApplies(db, ms))[m] == if Newer(m, Watermark(db)) then multiset(ms)[m] else 0
  {
    StampsAreDistinct(ms);
    AppliedIsAbove(Sort(ByStamp, ms), Watermark(db));
    CountAbove(Sort(ByStamp, ms), Watermark(db), m);
  }

  /** No later migration was missed by the first run. */
  ghost predicate NoneMissed<S>(before: Db<S>, after: Db<S>, later: seq<Migration>) {
    forall m :: m in later && Newer(m, Watermark(before)) ==> Newer(m, Watermark(after))
  }

  /** The two runs together apply a migration as often as one run does. */
  lemma CountsAgree<S(!new)>(engine: Engine<S>, db: Db<S>, older: seq<Migration>, later: seq<Migration>, m: Migration)
    requires LeavesRowsAlone(engine) && DistinctBy(ByStamp, older) && DistinctBy(ByStamp, older + later)
    requires Run(engine, db, older).Some?
    requires NoneMissed(db, Run(engine, db, older).value, later)
    ensures var middle := Run(engine, db, older).value;
            multiset(RunApplies(db, older + later))[m] ==
            multiset(RunApplies(db, older))[m] + multiset(RunApplies(middle, older + later))[m]
  {
    WatermarkAfterRun(engine, db, older);
    AppliedCount(db, older + later, m);
    AppliedCount(db, older, m);
    AppliedCount(Run(engine, db, older).value, older + later, m);
    assert multiset(older + later)[m] == multiset(older)[m] + multiset(later)[m];
    assert m in older <==> multiset(older)[m] > 0;
    assert m in later <==> multiset(later)[m] > 0;
  }

  /** Everything the second run applies is newer than everything the first one applied. */
  lemma FirstRunIsOlder<S(!new)>(engine: Engine<S>, db: Db<S>, older: seq<Migration>, ms: seq<Migration>)
    requires LeavesRowsAlone(engine) && Run(engine, db, older).Some?
    ensures var first, second := RunApplies(db, older), RunApplies(Run(engine, db, older).value, ms);
            forall i, j :: 0 <= i < |first| && 0 <= j < |second| ==> first[i].createdAt < second[j].createdAt
  {
    var middle := Run(engine, db, older).value;
    var first, second := RunApplies(db, older), RunApplies(middle, ms);
    WatermarkAfterRun(engine, db, older);
    AppliedIsAscending(Sort(ByStamp, older), Watermark(db));
    AppliedIsAscending(Sort(ByStamp, ms), Watermark(middle));
    forall i, j | 0 <= i < |first| && 0 <= j < |second|
      ensures first[i].createdAt < second[j].createdAt
    {
      SortHas(ByStamp, older, first[i]);
      assert !Newer(first[i], Watermark(middle)) && Newer(second[j], Watermark(middle));
    }
  }

  /** Without a missed migration, the second run continues exactly where the first one stopped. */
  lemma SecondRunContinues<S(!new)>(engine: Engine<S>, db: Db<S>, older: seq<Migration>, later: seq<Migration>)
    requires LeavesRowsAlone(engine) && DistinctBy(ByStamp, older) && DistinctBy(ByStamp, older + later)
    requires Run(engine, db, older).Some?
    requires NoneMissed(db, Run(engine, db, older).value, later)
    ensures RunApplies(db, older + later) ==
            RunApplies(db, older) + RunApplies(Run(engine, db, older).value, older + later)
  {
    var middle, both := Run(engine, db, older).value, older + later;
    var all, first, second := RunApplies(db, both), RunApplies(db, older), RunApplies(middle, both);
    forall m
      ensures multiset(all)[m] == multiset(first + second)[m]
    {
      CountsAgree(engine, db, older, later, m);
    }
    AppliedAscends(db, both);
    AppliedAscends(db, older);
    AppliedAscends(middle, both);
    FirstRunIsOlder(engine, db, older, both);
    SortedIsUnique(ByStamp, all, first + second);
  }

  /** A missed migration would have been applied by one run and is applied by neither of the two. */
  lemma MissedMigration<S(!new)>(
    engine: Engine<S>, db: Db<S>, older: seq<Migration>, later: seq<Migration>, m: Migration)
    requires LeavesRowsAlone(engine) && DistinctBy(ByStamp, older) && DistinctBy(ByStamp, older + later)
    requires Run(engine, db, older).Some?
    requires m in later && Newer(m, Watermark(db)) && !Newer(m, Watermark(Run(engine, db, older).value))
    ensures m in RunApplies(db, older + later)
    ensures m !in RunApplies(db, older) && m !in RunApplies(Run(engine, db, older).value, older + later)
  {
    var both := older + later;
    AppliedCount(db, both, m);
    AppliedCount(db, older, m);
    AppliedCount(Run(engine, db, older).value, both, m);
    assert m in multiset(later) && multiset(both) == multiset(older) + multiset(later);
    var k :| 0 <= k < |later| && later[k] == m;
    forall j | 0 <= j < |older|
      ensures older[j] != m
    {
      assert ByStamp(both[j]) != ByStamp(both[|older| + k]);
    }
    assert m !in multiset(older);
    assert forall ms: seq<Migration> :: m in ms <==> multiset(ms)[m] > 0;
  }

  /** Every later migration above the watermark has a newer stamp than every older migration. */
  ghost predicate LaterIsNewer<S>(db: Db<S>, older: seq<Migration>, later: seq<Migration>) {
    forall m, o :: m in later && o in older && Newer(m, Watermark(db)) ==> o.createdAt < m.createdAt
  }

  /** Whether a migration is missed can be told from the stamps, before the first run. */
  lemma NoneMissedIff<S(!new)>(engine: Engine<S>, db: Db<S>, older: seq<Migration>, later: seq<Migration>)
    requires LeavesRowsAlone(engine) && Run(engine, db, older).Some?
    ensures NoneMissed(db, Run(engine, db, older).value, later) <==> LaterIsNewer(db, older, later)
  {
    var middle, applied := Run(engine, db, older).value, RunApplies(db, older);
    WatermarkAfterRun(engine, db, older);
    AppliedIsAscending(Sort(ByStamp, older), Watermark(db));
    forall m | m in later && Newer(m, Watermark(db))
      ensures Newer(m, Watermark(middle)) <==> forall o :: o in older ==> o.createdAt < m.createdAt
    {
      if applied != [] {
        var last := applied[|applied| - 1];
        SortHas(ByStamp, older, last);
        assert Newer(m, Watermark(middle)) <==> last.createdAt < m.createdAt;
      }
      if Newer(m, Watermark(middle)) {
        forall o | o in older
          ensures o.createdAt < m.createdAt
        {
          assert !Newer(o, Watermark(middle));
        }
      }
    }
  }

  /**
   Two runs, the first with the older folders and the second with all of them, apply
   what one run with all folders applies if and only if every later migration above
   the first watermark has a newer stamp than the older ones. Then they also leave the
   same database, or fail alike.
   */
  lemma TwoRunsAreOne<S(!new)>(
    engine: Engine<S>, db: Db<S>, older: seq<Migration>, later: seq<Migration>, available: seq<Migration>)
    requires LeavesRowsAlone(engine) && Run(engine, db, older).Some?
    requires DistinctBy(ByStamp, older + later) && multiset(older + later) == multiset(available)
    ensures var middle := Run(engine, db, older).value;
            && (RunApplies(db, available) == RunApplies(db, older) + RunApplies(middle, available)
                <==> LaterIsNewer(db, older, later))
            && (LaterIsNewer(db, older, later) ==> Run(engine, db, available) == Run(engine, middle, available))
  {
    var both, middle := older + later, Run(engine, db, older).value;
    FolderOrderDoesNotMatter(engine, db, both, available);
    FolderOrderDoesNotMatter(engine, middle, both, available);
    NoneMissedIff(engine, db, older, later);
    assert DistinctBy(ByStamp, older) by {
      assert forall i :: 0 <= i < |older| ==> older[i] == both[i];
    }
    if NoneMissed(db, middle, later) {
      SecondRunContinues(engine, db, older, later);
      RunIsExact(engine, db, both);
      RunIsExact(engine, db, older);
      RunIsExact(engine, middle, both);
      ApplyAllConcat(engine, db, RunApplies(db, older), RunApplies(middle, both));
    } else {
      var m :| m in later && Newer(m, Watermark(db)) && !Newer(m, Watermark(middle));
      MissedMigration(engine, db, older, later, m);
    }
  }

  /** An older part and a strictly newer part: migrating in two steps is migrating at once. */
  lemma NewerPartMayFollow<S(!new)>(
    engine: Engine<S>, db: Db<S>, older: seq<Migration>, later: seq<Migration>, available: seq<Migration>)
    requires LeavesRowsAlone(engine) && Run(engine, db, older).Some?
    requires DistinctBy(ByStamp, older + later) && multiset(older + later) == multiset(available)
    requires forall o, m :: o in older && m in later ==> o.createdAt < m.createdAt
    ensures Run(engine, Run(engine, db, older).value, available) == Run(engine, db, available)
  {
    TwoRunsAreOne(engine, db, older, later, available);
  }

  /** The engine of SQL that changes nothing. */
  function Idle<S>(): Engine<S> {
    (sql: string, db: Db<S>) => Some(db)
  }

  /** A migration with stamp 1 that comes after one with stamp 2 was applied is never applied. */
  lemma LateMigrationIsMissed<S(!new)>(data: S)
    ensures var db, first, late := Db(data, Some([])), Migration("2", "", 2), Migration("1", "", 1);
            && Run(Idle(), db, [first]).Some?
            && var middle := Run(Idle(), db, [first]).value;
               && RunApplies(db, [first, late]) == [late, first]
               && RunApplies(db, [first]) == [first] && RunApplies(middle, [first, late]) == []
  {
    var db, first, late := Db(data, Some([])), Migration("2", "", 2), Migration("1", "", 1);
    var engine: Engine<S> := Idle();
    SortOne(first);
    SortTwo(late, first);
    AppliedOneAndTwo(late, first);
    RunIsExact(engine, db, [first]);
    assert ApplyAll(engine, db, [first]) == Some(Db(data, Some([Row("2", 2)]))) by {
      assert [first][1..] == [] && [] + [Row("2", 2)] == [Row("2", 2)];
    }
    assert [Row("2", 2)][..0] == [];
  }

  lemma SortOne(m: Migration)
    ensures Sort(ByStamp, [m]) == [m]
  {
    assert [m][1..] == [];
  }

  lemma SortTwo(early: Migration, late: Migration)
    requires early.createdAt < late.createdAt
    ensures Sort(ByStamp, [late, early]) == [early, late]
  {
    SortOne(early);
    SortOne(late);
    assert [late, early][1..] == [early] && [early][1..] == [];
    assert Insert(ByStamp, late, []) == [late];
  }

  lemma AppliedOneAndTwo(early: Migration, late: Migration)
    requires early.createdAt < late.createdAt
    ensures Applied([early, late], None) == [early, late] && Applied([late], None) == [late]
    ensures Applied([early, late], Some(late.createdAt)) == []
  {
    assert [early, late][1..] == [late] && [late][1..] == [];
    assert Applied([late], Some(early.createdAt)) == [late];
  }
}
