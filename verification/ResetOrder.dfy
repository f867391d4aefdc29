/**
 The back-end schema after all migrations, and the order in which the test
 automation empties its tables.
 */
module ResetOrder {
  import opened ForeignKeys

  datatype Table =
    | NotificationReceiver
    | TransactionApprover
    | TransactionComment
    | TransactionGroupItem
    | TransactionGroup
    | TransactionObserver
    | TransactionSigner
    | Transaction
    | UserKey
    | NotificationPreferences
    | ClientTable
    | Notification
    | User
    | CachedAccount
    | CachedAccountKey
    | CachedNode
    | CachedNodeAdminKey
    | TransactionCachedAccount
    | TransactionCachedNode
    | AccountSnapshot
    | NodeSnapshot
    | TransactionAccountSnapshot
    | TransactionNodeSnapshot
    | ReviewerGroup
    | ReviewerGroupMember
    | ReviewerRule
    | RuleChangeRecord
    | GroupChangeRecord
    | TransactionEntity
    | TransactionReviewerList
    | TransactionReviewerListMember

  const TABLES_TO_RESET: seq<Table> := [
    NotificationReceiver,
    TransactionApprover,
    TransactionComment,
    TransactionGroupItem,
    TransactionGroup,
    TransactionObserver,
    TransactionSigner,
    Transaction,
    UserKey,
    NotificationPreferences,
    ClientTable,
    Notification,
    User
  ]

  /** The tables whose rows disappear together with transactions. */
  const CASCADED: set<Table> := {
    TransactionCachedAccount, TransactionCachedNode, TransactionAccountSnapshot, TransactionNodeSnapshot
  }

  function Key(table: Table, column: string, target: Table, onDelete: OnDelete): ForeignKey<Table> {
    ForeignKey(table, column, target, onDelete)
  }

  /** The first migration. */
  const INITIAL_KEYS: set<ForeignKey<Table>> := {
    Key(TransactionApprover, "transactionId", Transaction, NoAction),
    Key(TransactionApprover, "listId", TransactionApprover, NoAction),
    Key(TransactionApprover, "userKeyId", UserKey, NoAction),
    Key(TransactionApprover, "userId", User, NoAction),
    Key(TransactionComment, "transactionId", Transaction, NoAction),
    Key(TransactionComment, "userId", User, NoAction),
    Key(TransactionGroupItem, "transactionId", Transaction, NoAction),
    Key(TransactionGroupItem, "groupId", TransactionGroup, NoAction),
    Key(TransactionObserver, "userId", User, NoAction),
    Key(TransactionObserver, "transactionId", Transaction, NoAction),
    Key(TransactionSigner, "transactionId", Transaction, NoAction),
    Key(TransactionSigner, "userKeyId", UserKey, NoAction),
    Key(TransactionSigner, "userId", User, NoAction),
    Key(Notification, "actorId", User, NoAction),
    Key(NotificationReceiver, "notificationId", Notification, NoAction),
    Key(NotificationReceiver, "userId", User, NoAction),
    Key(NotificationPreferences, "userId", User, NoAction),
    Key(Transaction, "creatorKeyId", UserKey, NoAction),
    Key(UserKey, "userId", User, NoAction)
  }

  /** Clients and recorders of signatures. */
  const CLIENT_KEYS: set<ForeignKey<Table>> := {
    Key(TransactionSigner, "recorderId", User, NoAction),
    Key(ClientTable, "userId", User, NoAction)
  }

  /** The caches and snapshots of mirror node data. */
  const CACHE_KEYS: set<ForeignKey<Table>> := {
    Key(CachedAccountKey, "cachedAccountId", CachedAccount, Cascade),
    Key(CachedNodeAdminKey, "cachedNodeId", CachedNode, Cascade),
    Key(TransactionCachedAccount, "transactionId", Transaction, Cascade),
    Key(TransactionCachedAccount, "cachedAccountId", CachedAccount, Cascade),
    Key(TransactionCachedNode, "transactionId", Transaction, Cascade),
    Key(TransactionCachedNode, "cachedNodeId", CachedNode, Cascade),
    Key(TransactionAccountSnapshot, "transactionId", Transaction, Cascade),
    Key(TransactionAccountSnapshot, "accountSnapshotId", AccountSnapshot, Cascade),
    Key(TransactionNodeSnapshot, "transactionId", Transaction, Cascade),
    Key(TransactionNodeSnapshot, "nodeSnapshotId", NodeSnapshot, Cascade)
  }

  /** The reviewer groups. */
  const REVIEW_KEYS: set<ForeignKey<Table>> := {
    Key(ReviewerGroupMember, "groupId", ReviewerGroup, Cascade),
    Key(ReviewerGroupMember, "userId", User, NoAction),
    Key(ReviewerGroupMember, "userKeyId", UserKey, NoAction),
    Key(RuleChangeRecord, "ruleId", ReviewerRule, SetNull),
    Key(RuleChangeRecord, "groupId", ReviewerGroup, SetNull),
    Key(RuleChangeRecord, "userId", User, NoAction),
    Key(RuleChangeRecord, "userKeyId", UserKey, NoAction),
    Key(ReviewerRule, "groupId", ReviewerGroup, Cascade),
    Key(GroupChangeRecord, "groupId", ReviewerGroup, SetNull),
    Key(GroupChangeRecord, "userId", User, NoAction),
    Key(GroupChangeRecord, "userKeyId", UserKey, NoAction),
    Key(TransactionEntity, "transactionId", Transaction, NoAction),
    Key(TransactionReviewerListMember, "listId", TransactionReviewerList, NoAction),
    Key(TransactionReviewerListMember, "userId", User, NoAction),
    Key(TransactionReviewerListMember, "userKeyId", UserKey, NoAction),
    Key(TransactionReviewerList, "transactionId", Transaction, NoAction)
  }

  /** The foreign keys that the migrations declare. */
  const SCHEMA: set<ForeignKey<Table>> := INITIAL_KEYS + CLIENT_KEYS + CACHE_KEYS + REVIEW_KEYS

  /** The tables that are not emptied and whose rows refer to users, user keys or transactions. */
  const REVIEW_TABLES: set<Table> := {
    ReviewerGroupMember, RuleChangeRecord, GroupChangeRecord,
    TransactionEntity, TransactionReviewerList, TransactionReviewerListMember
  }

  /** The tables and columns in which references to reviewer groups and rules are cleared. */
  const RECORD_TABLES: set<Table> := {RuleChangeRecord, GroupChangeRecord}
  const CLEARED_COLUMNS: set<string> := {"ruleId", "groupId"}

  /** The key on a NOT NULL column by which the rows of a review table refer to a listed table. */
  function RequiredKey(t: Table): ForeignKey<Table>
    requires t in REVIEW_TABLES
  {
    if t == TransactionEntity || t == TransactionReviewerList then Key(t, "transactionId", Transaction, NoAction)
    else Key(t, "userId", User, NoAction)
  }

  ghost predicate HasRequiredColumns(db: Db<Table>) {
    forall r :: r in db && r.table in REVIEW_TABLES ==> RequiredKey(r.table).column in db[r]
  }

  /** The place of a table in the list, or -1. */
  function Place(t: Table): int {
    match t
    case NotificationReceiver => 0
    case TransactionApprover => 1
    case TransactionComment => 2
    case TransactionGroupItem => 3
    case TransactionGroup => 4
    case TransactionObserver => 5
    case TransactionSigner => 6
    case Transaction => 7
    case UserKey => 8
    case NotificationPreferences => 9
    case ClientTable => 10
    case Notification => 11
    case User => 12
    case _ => -1
  }

  lemma PlaceInList(t: Table)
    ensures t in TABLES_TO_RESET <==> Place(t) >= 0
    ensures forall i :: 0 <= i < |TABLES_TO_RESET| ==> (TABLES_TO_RESET[i] == t <==> i == Place(t))
  {
    assert Place(t) >= 0 ==> TABLES_TO_RESET[Place(t)] == t;
    forall i | 0 <= i < |TABLES_TO_RESET|
      ensures Place(TABLES_TO_RESET[i]) == i
    {
    }
  }

  lemma Listed(t: Table)
    ensures t in TABLES_TO_RESET <==> Place(t) >= 0
  {
    PlaceInList(t);
  }

  /** What a key must satisfy for the order of the list to be safe. */
  predicate IsSafeKey(k: ForeignKey<Table>) {
    && (Place(k.target) >= 0 || k.target in CASCADED ==>
          match k.onDelete
          case Cascade => k.table in CASCADED
          case NoAction => Place(k.target) >= 0 && Place(k.table) <= Place(k.target) && k.table !in CASCADED
          case SetNull => false)
    && (k.onDelete == NoAction && Place(k.target) >= 0 && Place(k.table) < 0 ==> k.table in REVIEW_TABLES)
    && (k.onDelete == SetNull ==> k.table in RECORD_TABLES && k.column in CLEARED_COLUMNS)
    && (k.onDelete == NoAction && k.table in RECORD_TABLES ==> k.column !in CLEARED_COLUMNS)
  }

  lemma InitialKeysAreSafe(k: ForeignKey<Table>)
    requires k in INITIAL_KEYS
    ensures IsSafeKey(k)
  {
  }

  lemma ClientAndCacheKeysAreSafe(k: ForeignKey<Table>)
    requires k in CLIENT_KEYS || k in CACHE_KEYS
    ensures IsSafeKey(k)
  {
  }

  lemma ReviewKeysAreSafe(k: ForeignKey<Table>)
    requires k in REVIEW_KEYS
    ensures IsSafeKey(k)
  {
  }

  lemma EveryKeyIsSafe(k: ForeignKey<Table>)
    requires k in SCHEMA
    ensures IsSafeKey(k)
  {
    if k in INITIAL_KEYS {
      InitialKeysAreSafe(k);
    } else if k in REVIEW_KEYS {
      ReviewKeysAreSafe(k);
    } else {
      ClientAndCacheKeysAreSafe(k);
    }
  }

  /** Every key is safe, and every review table has its key to a listed table. */
  ghost predicate IsSafeSchema(keys: set<ForeignKey<Table>>) {
    && (forall k :: k in keys ==> IsSafeKey(k))
    && (forall t :: t in REVIEW_TABLES ==> RequiredKey(t) in keys)
  }

  lemma RequiredKeyIsDeclared(t: Table)
    requires t in REVIEW_TABLES
    ensures RequiredKey(t) in REVIEW_KEYS
  {
  }

  lemma SchemaIsSafe()
    ensures IsSafeSchema(SCHEMA)
  {
    forall k | k in SCHEMA
      ensures IsSafeKey(k)
    {
      EveryKeyIsSafe(k);
    }
    forall t | t in REVIEW_TABLES
      ensures RequiredKey(t) in SCHEMA
    {
      RequiredKeyIsDeclared(t);
    }
  }

  /** Emptying a listed table may cascade to the tables of links and snapshots. */
  function Reach(t: Table): set<Table> {
    {t} + CASCADED
  }

  lemma CascadedIsNotListed(t: Table)
    requires t in CASCADED
    ensures Place(t) < 0
  {
  }

  lemma AffectedTables(t: Table)
    ensures Affected(TABLES_TO_RESET, Reach, t) <==> Place(t) >= 0 || t in CASCADED
  {
    Listed(t);
    if t in CASCADED {
      assert t in Reach(TABLES_TO_RESET[0]);
    }
    if Place(t) >= 0 {
      PlaceInList(t);
      assert t in Reach(TABLES_TO_RESET[Place(t)]);
    }
  }

  lemma SafeKeyStaysInReach(k: ForeignKey<Table>, t: Table)
    requires IsSafeKey(k) && k.onDelete == Cascade && t in TABLES_TO_RESET && k.target in Reach(t)
    ensures k.table in Reach(t)
  {
    Listed(t);
  }

  lemma ListedBefore(t: Table, i: nat)
    requires i < |TABLES_TO_RESET| && 0 <= Place(t) <= i
    ensures t in TABLES_TO_RESET[..i + 1]
  {
    PlaceInList(t);
    assert TABLES_TO_RESET[..i + 1][Place(t)] == t;
  }

  lemma SafeKeyIsOrdered(k: ForeignKey<Table>, i: nat)
    requires IsSafeKey(k) && k.onDelete == NoAction && i < |TABLES_TO_RESET|
    requires k.target == TABLES_TO_RESET[i] || k.target in CASCADED
    ensures k.table in TABLES_TO_RESET[..i + 1]
            || (k.target in TABLES_TO_RESET && !Affected(TABLES_TO_RESET, Reach, k.table))
  {
    PlaceInList(k.target);
    if k.target in CASCADED {
      CascadedIsNotListed(k.target);
    } else if Place(k.table) >= 0 {
      ListedBefore(k.table, i);
    } else {
      AffectedTables(k.table);
    }
  }

  lemma SafeSchemaIsOrdered(keys: set<ForeignKey<Table>>)
    requires IsSafeSchema(keys)
    ensures IsSafeOrder(keys, TABLES_TO_RESET, Reach)
  {
    forall t, k | t in TABLES_TO_RESET && k in keys && k.onDelete == Cascade && k.target in Reach(t)
      ensures k.table in Reach(t)
    {
      SafeKeyStaysInReach(k, t);
    }
    forall k, i | k in keys && k.onDelete == NoAction && 0 <= i < |TABLES_TO_RESET|
      && k.target in Reach(TABLES_TO_RESET[i])
      ensures k.table in TABLES_TO_RESET[..i + 1]
              || (k.target in TABLES_TO_RESET && !Affected(TABLES_TO_RESET, Reach, k.table))
    {
      SafeKeyIsOrdered(k, i);
    }
  }

  lemma NothingIsClearable(keys: set<ForeignKey<Table>>, t: Table, column: string)
    requires IsSafeSchema(keys)
    ensures !Clearable(keys, TABLES_TO_RESET, Reach, t, column)
  {
    forall k | k in keys && k.onDelete == SetNull
      ensures !Affected(TABLES_TO_RESET, Reach, k.target)
    {
      assert IsSafeKey(k);
      AffectedTables(k.target);
    }
  }

  /** In a safe schema no reference is cleared, so that rows are removed or stay as they are. */
  lemma TrimmedRowsAreKept(keys: set<ForeignKey<Table>>, db: Db<Table>, after: Db<Table>)
    requires IsSafeSchema(keys) && IsTrimmed(keys, TABLES_TO_RESET, Reach, db, after)
    ensures forall r :: r in after ==> r in db && after[r] == db[r]
    ensures forall r :: r in db && r.table !in TABLES_TO_RESET && r.table !in CASCADED ==> r in after
  {
    forall t, c
      ensures !Clearable(keys, TABLES_TO_RESET, Reach, t, c)
    {
      NothingIsClearable(keys, t, c);
    }
    TrimmedWithoutClearing(keys, TABLES_TO_RESET, Reach, db, after);
    forall r | r in db && r.table !in TABLES_TO_RESET && r.table !in CASCADED
      ensures r in after
    {
      NotAffected(r.table);
    }
  }

  lemma NotAffected(t: Table)
    requires t !in TABLES_TO_RESET && t !in CASCADED
    ensures !Affected(TABLES_TO_RESET, Reach, t)
  {
    Listed(t);
    AffectedTables(t);
  }

  lemma BlockerIsReviewRow(keys: set<ForeignKey<Table>>, db: Db<Table>)
    requires IsSafeSchema(keys) && Blocked(keys, db, TABLES_TO_RESET)
    ensures exists r :: r in db && r.table in REVIEW_TABLES
  {
    var r, k :| k in keys && k.onDelete == NoAction && Uses(db, r, k)
                && r.table !in TABLES_TO_RESET && k.target in TABLES_TO_RESET;
    Listed(k.target);
    Listed(k.table);
    assert IsSafeKey(k);
    assert r in db && r.table in REVIEW_TABLES;
  }

  lemma RequiredKeyPlaces(t: Table)
    requires t in REVIEW_TABLES
    ensures var k := RequiredKey(t); k.onDelete == NoAction && k.table == t && Place(t) < 0 <= Place(k.target)
  {
  }

  lemma ReviewRowIsBlocker(keys: set<ForeignKey<Table>>, db: Db<Table>, r: RowId<Table>)
    requires IsSafeSchema(keys) && HasRequiredColumns(db)
    requires r in db && r.table in REVIEW_TABLES
    ensures Blocked(keys, db, TABLES_TO_RESET)
  {
    var k := RequiredKey(r.table);
    RequiredKeyPlaces(r.table);
    Listed(r.table);
    Listed(k.target);
    assert k in keys && Uses(db, r, k);
  }

  /** A safe schema blocks the reset exactly when a review table has a row. */
  lemma BlockedByReviewTables(keys: set<ForeignKey<Table>>, db: Db<Table>)
    requires IsSafeSchema(keys) && HasRequiredColumns(db)
    ensures Blocked(keys, db, TABLES_TO_RESET) <==> exists r :: r in db && r.table in REVIEW_TABLES
  {
    if Blocked(keys, db, TABLES_TO_RESET) {
      BlockerIsReviewRow(keys, db);
    }
    if r :| r in db && r.table in REVIEW_TABLES {
      ReviewRowIsBlocker(keys, db, r);
    }
  }

  lemma ResetOfSafeSchema(keys: set<ForeignKey<Table>>, db: Db<Table>)
    requires IsSafeSchema(keys) && Consistent(keys, db) && HasRequiredColumns(db)
    ensures var (after, ok) := Reset(keys, db, TABLES_TO_RESET);
            && (ok <==> forall r :: r in db ==> r.table !in REVIEW_TABLES)
            && (ok <==> forall r :: r in after ==> r.table !in TABLES_TO_RESET)
            && Consistent(keys, after)
            && (forall r :: r in after ==> r in db && after[r] == db[r])
            && (forall r :: r in db && r.table !in TABLES_TO_RESET && r.table !in CASCADED ==> r in after)
  {
    SafeSchemaIsOrdered(keys);
    BlockedByReviewTables(keys, db);
    assert TABLES_TO_RESET[0..] == TABLES_TO_RESET;
    ResetSucceedsIff(keys, db, TABLES_TO_RESET, Reach, 0);
    TrimmedRowsAreKept(keys, db, Reset(keys, db, TABLES_TO_RESET).0);
  }

  /**
   On every consistent database, the reset empties all listed tables if and only if
   the review tables are empty; otherwise it stops at a violated key. Either way the
   database stays consistent and no table changes except the listed ones and those
   that cascade from transactions.
   */
  lemma ResetEmptiesIff(db: Db<Table>)
    requires Consistent(SCHEMA, db) && HasRequiredColumns(db)
    ensures var (after, ok) := Reset(SCHEMA, db, TABLES_TO_RESET);
            && (ok <==> forall r :: r in db ==> r.table !in REVIEW_TABLES)
            && (ok <==> forall r :: r in after ==> r.table !in TABLES_TO_RESET)
            && Consistent(SCHEMA, after)
            && (forall r :: r in after ==> r in db && after[r] == db[r])
            && (forall r :: r in db && r.table !in TABLES_TO_RESET && r.table !in CASCADED ==> r in after)
  {
    SchemaIsSafe();
    ResetOfSafeSchema(SCHEMA, db);
  }
}
