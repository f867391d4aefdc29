/**
 Emptying tables of a relational database one after the other, in the presence of
 foreign keys. The theory holds for every foreign-key graph.

 A database maps each row to its reference columns that are not NULL. A statement
 DELETE FROM t removes the rows of t and, through ON DELETE CASCADE, the rows that
 refer to removed rows; ON DELETE SET NULL clears columns; and the statement fails
 when a remaining row still refers to a removed one by a NO ACTION key.
 */
module ForeignKeys {
  import opened Wrappers

  datatype OnDelete = NoAction | Cascade | SetNull

  datatype ForeignKey<T> = ForeignKey(table: T, column: string, target: T, onDelete: OnDelete)

  datatype RowId<T> = RowId(table: T, id: int)

  type Columns = map<string, int>

  type Db<T(==)> = map<RowId<T>, Columns>

  /** Row r has a value in the column of key k. */
  predicate Uses<T(==)>(db: Db<T>, r: RowId<T>, k: ForeignKey<T>) {
    r in db && r.table == k.table && k.column in db[r]
  }

  function Referenced<T(==)>(db: Db<T>, r: RowId<T>, k: ForeignKey<T>): RowId<T>
    requires Uses(db, r, k)
  {
    RowId(k.target, db[r][k.column])
  }

  /** Referential integrity. */
  ghost predicate Consistent<T(!new)>(keys: set<ForeignKey<T>>, db: Db<T>) {
    forall r, k :: k in keys && Uses(db, r, k) ==> Referenced(db, r, k) in db
  }

  predicate RefersInto<T(==)>(keys: set<ForeignKey<T>>, db: Db<T>, r: RowId<T>, action: OnDelete, rows: set<RowId<T>>) {
    exists k :: k in keys && k.onDelete == action && Uses(db, r, k) && Referenced(db, r, k) in rows
  }

  /** The rows together with all rows that cascade from them. */
  function Closure<T(==)>(keys: set<ForeignKey<T>>, db: Db<T>, rows: set<RowId<T>>): set<RowId<T>>
    requires rows <= db.Keys
    decreases |db.Keys - rows|
  {
    var next := rows + set r | r in db && RefersInto(keys, db, r, Cascade, rows);
    if next == rows then rows
    else
      assert db.Keys - next < db.Keys - rows;
      SmallerSet(db.Keys - next, db.Keys - rows);
      Closure(keys, db, next)
  }

  lemma SmallerSet<A>(a: set<A>, b: set<A>)
    requires a < b
    ensures |a| < |b|
  {
    assert b == a + (b - a);
  }

  function RowsOf<T(==)>(db: Db<T>, t: T): set<RowId<T>> {
    set r | r in db && r.table == t
  }

  function Removed<T(==)>(keys: set<ForeignKey<T>>, db: Db<T>, t: T): set<RowId<T>> {
    Closure(keys, db, RowsOf(db, t))
  }

  predicate IsCleared<T(==)>(keys: set<ForeignKey<T>>, db: Db<T>, r: RowId<T>, column: string, rows: set<RowId<T>>) {
    exists k ::
      k in keys && k.onDelete == SetNull && k.column == column && Uses(db, r, k) && Referenced(db, r, k) in rows
  }

  /** None when the statement fails. */
  function DeleteFrom<T(==)>(keys: set<ForeignKey<T>>, db: Db<T>, t: T): Option<Db<T>> {
    var gone := Removed(keys, db, t);
    if exists r :: r in db && r !in gone && RefersInto(keys, db, r, NoAction, gone) then None
    else Some(map r | r in db && r !in gone ::
                map c | c in db[r] && !IsCleared(keys, db, r, c, gone) :: db[r][c])
  }

  /** The loop: the database it leaves, and whether every statement succeeded. */
  function Reset<T(==)>(keys: set<ForeignKey<T>>, db: Db<T>, tables: seq<T>): (Db<T>, bool)
    decreases |tables|
  {
    if tables == [] then (db, true)
    else
      var next := DeleteFrom(keys, db, tables[0]);
      if next.None? then (db, false) else Reset(keys, next.value, tables[1..])
  }

  class Client<T(==)> {
    const keys: set<ForeignKey<T>>
    var db: Db<T>

    constructor (keys: set<ForeignKey<T>>, db: Db<T>)
      ensures this.keys == keys && this.db == db
    {
      this.keys, this.db := keys, db;
    }

    method Delete(t: T) returns (ok: bool)
      modifies this
      ensures ok == DeleteFrom(keys, old(db), t).Some?
      ensures db == if ok then DeleteFrom(keys, old(db), t).value else old(db)
    {
      var next := DeleteFrom(keys, db, t);
      ok := next.Some?;
      if ok {
        db := next.value;
      }
    }
  }

  /** Stops at the first error, and keeps what was deleted before. */
  method ResetPostgresDbState<T(==)>(client: Client<T>, tablesToReset: seq<T>, preserve: bool) returns (ok: bool)
    modifies client
    ensures preserve ==> ok && client.db == old(client.db)
    ensures !preserve ==> (client.db, ok) == Reset(client.keys, old(client.db), tablesToReset)
  {
    if preserve {
      return true;
    }
    ok := true;
    var i := 0;
    assert tablesToReset[0..] == tablesToReset;
    while i < |tablesToReset| && ok
      invariant 0 <= i <= |tablesToReset|
      invariant ok ==> Reset(client.keys, client.db, tablesToReset[i..]) ==
                       Reset(client.keys, old(client.db), tablesToReset)
      invariant !ok ==> (client.db, false) == Reset(client.keys, old(client.db), tablesToReset)
    {
      assert tablesToReset[i..][1..] == tablesToReset[i + 1..];
      ok := client.Delete(tablesToReset[i]);
      i := i + 1;
    }
  }

  // ----- One statement, for every graph -----

  lemma {:induction false} ClosureIsClosed<T(!new)>(keys: set<ForeignKey<T>>, db: Db<T>, rows: set<RowId<T>>)
    requires rows <= db.Keys
    ensures rows <= Closure(keys, db, rows) <= db.Keys
    ensures forall r :: r in db && RefersInto(keys, db, r, Cascade, Closure(keys, db, rows)) ==>
              r in Closure(keys, db, rows)
    decreases |db.Keys - rows|
  {
    var next := rows + set r | r in db && RefersInto(keys, db, r, Cascade, rows);
    if next != rows {
      assert db.Keys - next < db.Keys - rows;
      SmallerSet(db.Keys - next, db.Keys - rows);
      ClosureIsClosed(keys, db, next);
    }
  }

  /**
   Whatever the graph, a statement that succeeds empties its table, only removes rows
   and references, and keeps referential integrity.
   */
  lemma DeleteKeepsIntegrity<T(!new)>(keys: set<ForeignKey<T>>, db: Db<T>, t: T)
    requires Consistent(keys, db) && DeleteFrom(keys, db, t).Some?
    ensures var after := DeleteFrom(keys, db, t).value;
            && Consistent(keys, after)
            && RowsOf(after, t) == {}
            && after.Keys == db.Keys - Removed(keys, db, t)
            && forall r, c :: r in after && c in after[r] ==> c in db[r] && after[r][c] == db[r][c]
  {
    var gone, after := Removed(keys, db, t), DeleteFrom(keys, db, t).value;
    ClosureIsClosed(keys, db, RowsOf(db, t));
    forall r, k | k in keys && Uses(after, r, k)
      ensures Referenced(after, r, k) in after
    {
      assert Uses(db, r, k) && Referenced(db, r, k) == Referenced(after, r, k);
    }
  }

  /** No more rows disappear than must: every set that has the rows and is closed under cascades has them all. */
  lemma {:induction false} ClosureIsLeast<T(!new)>(
    keys: set<ForeignKey<T>>, db: Db<T>, rows: set<RowId<T>>, closed: set<RowId<T>>)
    requires rows <= db.Keys && rows <= closed
    requires forall r, k ::
               k in keys && k.onDelete == Cascade && Uses(db, r, k) && Referenced(db, r, k) in closed ==> r in closed
    ensures Closure(keys, db, rows) <= closed
    decreases |db.Keys - rows|
  {
    var next := rows + set r | r in db && RefersInto(keys, db, r, Cascade, rows);
    if next != rows {
      assert db.Keys - next < db.Keys - rows;
      SmallerSet(db.Keys - next, db.Keys - rows);
      ClosureIsLeast(keys, db, next, closed);
    }
  }

  /**
   A statement fails exactly when a NO ACTION reference of a row that remains ends in a
   row that disappears.
   */
  lemma DeleteFailsIff<T(!new)>(keys: set<ForeignKey<T>>, db: Db<T>, t: T)
    ensures DeleteFrom(keys, db, t).None?
            <==> exists r, k ::
                   && k in keys && k.onDelete == NoAction && Uses(db, r, k)
                   && r !in Removed(keys, db, t) && Referenced(db, r, k) in Removed(keys, db, t)
  {
  }

  /**
   When no column belongs to two keys: in a row that remains, a SET NULL reference
   remains exactly when the row that it refers to does, and all other columns remain.
   */
  lemma ReferencesAreCleared<T(!new)>(keys: set<ForeignKey<T>>, db: Db<T>, t: T, r: RowId<T>, column: string)
    requires Consistent(keys, db) && DeleteFrom(keys, db, t).Some?
    requires OneKeyPerColumn(keys) && r in DeleteFrom(keys, db, t).value && r in db && column in db[r]
    ensures var after := DeleteFrom(keys, db, t).value;
            && (forall k :: k in keys && k.onDelete == SetNull && k.column == column && Uses(db, r, k) ==>
                  (column in after[r] <==> Referenced(db, r, k) in after))
            && ((forall k :: k in keys && Uses(db, r, k) && k.column == column ==> k.onDelete != SetNull) ==>
                  column in after[r])
  {
  }

  /** One statement after the other, each on what the one before left. */
  ghost predicate IsHistory<T(!new)>(keys: set<ForeignKey<T>>, tables: seq<T>, dbs: seq<Db<T>>) {
    && 0 < |dbs| <= |tables| + 1
    && forall i :: 0 <= i < |dbs| - 1 ==> DeleteFrom(keys, dbs[i], tables[i]) == Some(dbs[i + 1])
  }

  /** The loop deletes table by table up to the first statement that fails, and keeps what was deleted before it. */
  lemma {:induction false} ResetHistory<T(!new)>(keys: set<ForeignKey<T>>, db: Db<T>, tables: seq<T>)
    returns (dbs: seq<Db<T>>)
    ensures IsHistory(keys, tables, dbs) && dbs[0] == db
    ensures var (after, ok) := Reset(keys, db, tables);
            && after == dbs[|dbs| - 1]
            && (ok <==> |dbs| == |tables| + 1)
            && (!ok ==> DeleteFrom(keys, after, tables[|dbs| - 1]).None?)
    decreases |tables|
  {
    dbs := [db];
    if tables != [] {
      var next := DeleteFrom(keys, db, tables[0]);
      if next.Some? {
        var rest := ResetHistory(keys, next.value, tables[1..]);
        dbs := [db] + rest;
        assert forall i :: 0 < i < |dbs| - 1 ==> DeleteFrom(keys, rest[i - 1], tables[1..][i - 1]) == Some(rest[i]);
      }
    }
  }

  // ----- The whole loop -----

  /** For a listed table t, reach(t) has t and every table whose rows may disappear by cascades when t is emptied. */
  ghost predicate IsReach<T(!new)>(keys: set<ForeignKey<T>>, tables: seq<T>, reach: T -> set<T>) {
    && (forall t :: t in tables ==> t in reach(t))
    && (forall t, k :: t in tables && k in keys && k.onDelete == Cascade && k.target in reach(t) ==>
          k.table in reach(t))
  }

  /** Emptying the listed tables may remove rows of table u. */
  ghost predicate Affected<T(!new)>(tables: seq<T>, reach: T -> set<T>, u: T) {
    exists i :: 0 <= i < |tables| && u in reach(tables[i])
  }

  /**
   A table that refers by a NO ACTION key to one that disappears with the listed table
   i is listed no later than i, or it is not affected at all and refers to a listed table.
   */
  ghost predicate ReferencingFirst<T(!new)>(keys: set<ForeignKey<T>>, tables: seq<T>, reach: T -> set<T>) {
    forall k, i :: k in keys && k.onDelete == NoAction && 0 <= i < |tables| && k.target in reach(tables[i])
      ==> k.table in tables[..i + 1] || (k.target in tables && !Affected(tables, reach, k.table))
  }

  /** No column belongs to a SET NULL key and to a NO ACTION key. */
  ghost predicate ColumnsApart<T(!new)>(keys: set<ForeignKey<T>>) {
    forall j, k :: j in keys && k in keys && j.onDelete == SetNull && k.onDelete == NoAction && j.table == k.table
      ==> j.column != k.column
  }

  /** A row of a table that is not listed refers to a listed table by a NO ACTION key. */
  ghost predicate Blocked<T(!new)>(keys: set<ForeignKey<T>>, db: Db<T>, tables: seq<T>) {
    exists r, k :: k in keys && k.onDelete == NoAction && Uses(db, r, k) && r.table !in tables && k.target in tables
  }

  lemma {:induction false} ClosureStaysInside<T(!new)>(
    keys: set<ForeignKey<T>>, db: Db<T>, tables: seq<T>, reach: T -> set<T>, t: T, rows: set<RowId<T>>)
    requires IsReach(keys, tables, reach) && t in tables
    requires rows <= db.Keys && forall r :: r in rows ==> r.table in reach(t)
    ensures forall r :: r in Closure(keys, db, rows) ==> r.table in reach(t)
    decreases |db.Keys - rows|
  {
    var next := rows + set r | r in db && RefersInto(keys, db, r, Cascade, rows);
    if next != rows {
      assert db.Keys - next < db.Keys - rows;
      SmallerSet(db.Keys - next, db.Keys - rows);
      ClosureStaysInside(keys, db, tables, reach, t, next);
    }
  }

  lemma RemovedIsInReach<T(!new)>(keys: set<ForeignKey<T>>, db: Db<T>, tables: seq<T>, reach: T -> set<T>, t: T)
    requires IsReach(keys, tables, reach) && t in tables
    ensures RowsOf(db, t) <= Removed(keys, db, t)
    ensures forall r :: r in Removed(keys, db, t) ==> r.table in reach(t)
  {
    ClosureIsClosed(keys, db, RowsOf(db, t));
    ClosureStaysInside(keys, db, tables, reach, t, RowsOf(db, t));
  }

  /** A SET NULL key into an affected table has this column. */
  ghost predicate Clearable<T(!new)>(
    keys: set<ForeignKey<T>>, tables: seq<T>, reach: T -> set<T>, t: T, column: string)
  {
    exists k :: k in keys && k.onDelete == SetNull && k.table == t && k.column == column
                && Affected(tables, reach, k.target)
  }

  /** What the loop leaves of the database, apart from the listed tables. */
  ghost predicate IsTrimmed<T(!new)>(
    keys: set<ForeignKey<T>>, tables: seq<T>, reach: T -> set<T>, db: Db<T>, after: Db<T>)
  {
    && (forall r :: r in after ==> r in db)
    && (forall r, c :: r in after && c in after[r] ==> c in db[r] && after[r][c] == db[r][c])
    && (forall r :: r in db && !Affected(tables, reach, r.table) ==> r in after)
    && (forall r, c :: r in after && c in db[r] && !Clearable(keys, tables, reach, r.table, c) ==> c in after[r])
  }

  lemma TrimmedTwice<T(!new)>(
    keys: set<ForeignKey<T>>, tables: seq<T>, reach: T -> set<T>, db: Db<T>, middle: Db<T>, after: Db<T>)
    requires IsTrimmed(keys, tables, reach, db, middle) && IsTrimmed(keys, tables, reach, middle, after)
    ensures IsTrimmed(keys, tables, reach, db, after)
  {
  }

  /** Rows in which nothing can be cleared are removed or stay as they are. */
  lemma TrimmedWithoutClearing<T(!new)>(
    keys: set<ForeignKey<T>>, tables: seq<T>, reach: T -> set<T>, db: Db<T>, after: Db<T>)
    requires IsTrimmed(keys, tables, reach, db, after)
    requires forall t, c :: !Clearable(keys, tables, reach, t, c)
    ensures forall r :: r in after ==> r in db && after[r] == db[r]
  {
    forall r | r in after
      ensures after[r] == db[r]
    {
      assert forall c :: c in after[r] <==> c in db[r];
    }
  }

  lemma DeleteTrims<T(!new)>(keys: set<ForeignKey<T>>, db: Db<T>, tables: seq<T>, reach: T -> set<T>, i: nat)
    requires IsReach(keys, tables, reach) && Consistent(keys, db)
    requires i < |tables| && DeleteFrom(keys, db, tables[i]).Some?
    ensures IsTrimmed(keys, tables, reach, db, DeleteFrom(keys, db, tables[i]).value)
  {
    var t := tables[i];
    var gone, after := Removed(keys, db, t), DeleteFrom(keys, db, t).value;
    DeleteKeepsIntegrity(keys, db, t);
    RemovedIsInReach(keys, db, tables, reach, t);
    forall r, c | r in after && c in db[r] && c !in after[r]
      ensures Clearable(keys, tables, reach, r.table, c)
    {
      var k :| k in keys && k.onDelete == SetNull && k.column == c && Uses(db, r, k) && Referenced(db, r, k) in gone;
      assert Affected(tables, reach, k.target);
    }
  }

  /** The tables in front of position i are empty. */
  ghost predicate EmptyBefore<T(!new)>(db: Db<T>, tables: seq<T>, i: nat)
    requires i <= |tables|
  {
    forall r :: r in db ==> r.table !in tables[..i]
  }

  /** The conditions on the foreign keys and the list. */
  ghost predicate IsSafeOrder<T(!new)>(keys: set<ForeignKey<T>>, tables: seq<T>, reach: T -> set<T>) {
    IsReach(keys, tables, reach) && ReferencingFirst(keys, tables, reach) && ColumnsApart(keys)
  }

  /**
   For every foreign-key graph, with cascades and cleared columns wherever they may be:
   if referencing tables are listed first, the loop succeeds exactly when no row outside
   the listed tables refers to a listed table by a NO ACTION key. It then leaves all
   listed tables empty. Either way the database stays consistent, tables that are not
   affected keep their rows, and only references into affected tables are cleared.
   */
  lemma {:induction false} ResetSucceedsIff<T(!new)>(
    keys: set<ForeignKey<T>>, db: Db<T>, tables: seq<T>, reach: T -> set<T>, i: nat)
    requires IsSafeOrder(keys, tables, reach) && Consistent(keys, db)
    requires i <= |tables| && EmptyBefore(db, tables, i)
    ensures var (after, ok) := Reset(keys, db, tables[i..]);
            && Consistent(keys, after)
            && (ok <==> !Blocked(keys, db, tables))
            && (ok <==> forall r :: r in after ==> r.table !in tables)
            && IsTrimmed(keys, tables, reach, db, after)
    decreases |tables| - i
  {
    if i < |tables| {
      var t := tables[i];
      assert tables[i..][0] == t && tables[i..][1..] == tables[i + 1..];
      var next := DeleteFrom(keys, db, t);
      if next.Some? {
        DeleteKeepsIntegrity(keys, db, t);
        DeleteTrims(keys, db, tables, reach, i);
        EmptyAfterDelete(keys, db, tables, i);
        BlockedAfterTrim(keys, db, next.value, tables, reach);
        ResetSucceedsIff(keys, next.value, tables, reach, i + 1);
        TrimmedTwice(keys, tables, reach, db, next.value, Reset(keys, next.value, tables[i + 1..]).0);
      } else {
        FailureIsBlocked(keys, db, tables, reach, i);
        BlockingRowIsKept(keys, db, tables);
      }
    } else {
      assert tables[..i] == tables && tables[i..] == [];
      NothingBlocksEmptyTables(keys, db, tables);
    }
  }

  lemma EmptyAfterDelete<T(!new)>(keys: set<ForeignKey<T>>, db: Db<T>, tables: seq<T>, i: nat)
    requires Consistent(keys, db) && i < |tables| && EmptyBefore(db, tables, i)
    requires DeleteFrom(keys, db, tables[i]).Some?
    ensures EmptyBefore(DeleteFrom(keys, db, tables[i]).value, tables, i + 1)
  {
    var after := DeleteFrom(keys, db, tables[i]).value;
    DeleteKeepsIntegrity(keys, db, tables[i]);
    assert tables[..i + 1] == tables[..i] + [tables[i]];
    forall r | r in after
      ensures r.table != tables[i]
    {
      assert r !in RowsOf(after, tables[i]);
    }
  }

  lemma NothingBlocksEmptyTables<T(!new)>(keys: set<ForeignKey<T>>, db: Db<T>, tables: seq<T>)
    requires Consistent(keys, db) && forall r :: r in db ==> r.table !in tables
    ensures !Blocked(keys, db, tables)
  {
    forall r, k | k in keys && Uses(db, r, k)
      ensures k.target !in tables
    {
      assert Referenced(db, r, k) in db;
    }
  }

  lemma FailureIsBlocked<T(!new)>(keys: set<ForeignKey<T>>, db: Db<T>, tables: seq<T>, reach: T -> set<T>, i: nat)
    requires IsSafeOrder(keys, tables, reach)
    requires i < |tables| && EmptyBefore(db, tables, i) && DeleteFrom(keys, db, tables[i]).None?
    ensures Blocked(keys, db, tables)
  {
    var t, gone := tables[i], Removed(keys, db, tables[i]);
    RemovedIsInReach(keys, db, tables, reach, t);
    var r :| r in db && r !in gone && RefersInto(keys, db, r, NoAction, gone);
    var k :| k in keys && k.onDelete == NoAction && Uses(db, r, k) && Referenced(db, r, k) in gone;
    assert k.target in reach(t);
    assert r !in RowsOf(db, t);
    assert tables[..i + 1] == tables[..i] + [t];
    ListedIsAffected(keys, tables, reach, k.table);
  }

  lemma ListedIsAffected<T(!new)>(keys: set<ForeignKey<T>>, tables: seq<T>, reach: T -> set<T>, u: T)
    requires IsReach(keys, tables, reach)
    ensures u in tables ==> Affected(tables, reach, u)
  {
    if i :| 0 <= i < |tables| && tables[i] == u {
      assert u in reach(tables[i]);
    }
  }

  /** A blocking reference ends in a row of a listed table. */
  lemma BlockingRowIsKept<T(!new)>(keys: set<ForeignKey<T>>, db: Db<T>, tables: seq<T>)
    requires Blocked(keys, db, tables) && Consistent(keys, db)
    ensures exists r :: r in db && r.table in tables
  {
    var r, k :| k in keys && k.onDelete == NoAction && Uses(db, r, k) && r.table !in tables && k.target in tables;
    assert Referenced(db, r, k) in db;
  }

  /** Deleting a listed table neither removes nor adds a blocking reference. */
  lemma BlockedAfterTrim<T(!new)>(keys: set<ForeignKey<T>>, db: Db<T>, after: Db<T>, tables: seq<T>, reach: T -> set<T>)
    requires IsSafeOrder(keys, tables, reach) && IsTrimmed(keys, tables, reach, db, after)
    ensures Blocked(keys, after, tables) <==> Blocked(keys, db, tables)
  {
    if Blocked(keys, db, tables) {
      var r, k :| k in keys && k.onDelete == NoAction && Uses(db, r, k) && r.table !in tables && k.target in tables;
      var i :| 0 <= i < |tables| && tables[i] == k.target;
      assert k.target in reach(tables[i]);
      assert k.table !in tables[..i + 1];
      assert !Affected(tables, reach, r.table);
      assert !Clearable(keys, tables, reach, r.table, k.column);
      assert Uses(after, r, k);
    }
    if Blocked(keys, after, tables) {
      var r, k :| k in keys && k.onDelete == NoAction && Uses(after, r, k) && r.table !in tables && k.target in tables;
      assert Uses(db, r, k);
    }
  }

  // ----- The order is necessary -----

  ghost predicate OneKeyPerColumn<T(!new)>(keys: set<ForeignKey<T>>) {
    forall j, k :: j in keys && k in keys && j.table == k.table && j.column == k.column ==> j == k
  }

  /**
   A table that refers to an earlier listed one by a NO ACTION key, and is not listed
   in front of it, makes the loop fail on a consistent database of just two rows.
   */
  lemma MisorderedResetFails<T(!new)>(keys: set<ForeignKey<T>>, tables: seq<T>, k: ForeignKey<T>, i: nat)
    requires OneKeyPerColumn(keys) && k in keys && k.onDelete == NoAction && k.table != k.target
    requires i < |tables| && tables[i] == k.target && k.target !in tables[..i] && k.table !in tables[..i]
    ensures exists db :: Consistent(keys, db) && Reset(keys, db, tables).1 == false
  {
    var target, source := RowId(k.target, 1), RowId(k.table, 1);
    var db: Db<T> := map[target := map[], source := map[k.column := 1]];
    forall r, j | j in keys && Uses(db, r, j)
      ensures r == source && j == k && Referenced(db, r, j) == target
    {
    }
    EmptyTablesAreSkipped(keys, db, tables, i);
    var gone := Removed(keys, db, k.target);
    assert RowsOf(db, k.target) == {target};
    assert forall r :: !RefersInto(keys, db, r, Cascade, {target});
    assert ({target} + set r | r in db && RefersInto(keys, db, r, Cascade, {target})) == {target};
    assert gone == {target};
    assert Uses(db, source, k) && Referenced(db, source, k) in gone;
    assert RefersInto(keys, db, source, NoAction, gone);
    assert tables[i..][0] == k.target;
    assert !Reset(keys, db, tables[i..]).1;
  }

  lemma {:induction false} EmptyTablesAreSkipped<T(!new)>(keys: set<ForeignKey<T>>, db: Db<T>, tables: seq<T>, i: nat)
    requires i <= |tables| && EmptyBefore(db, tables, i)
    ensures Reset(keys, db, tables) == Reset(keys, db, tables[i..])
    decreases i
  {
    if i == 0 {
      assert tables[0..] == tables;
    } else {
      var t := tables[0];
      assert tables[..i][0] == t;
      assert RowsOf(db, t) == {};
      assert (set r | r in db && RefersInto(keys, db, r, Cascade, {})) == {};
      assert Removed(keys, db, t) == {};
      var next := DeleteFrom(keys, db, t);
      assert next.Some?;
      assert forall r :: r in db ==> next.value[r] == db[r];
      assert next.value == db;
      assert tables[..i] == [t] + tables[1..][..i - 1];
      EmptyTablesAreSkipped(keys, db, tables[1..], i - 1);
      assert tables[1..][i - 1..] == tables[i..];
    }
  }
}
