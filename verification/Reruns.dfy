/** Cleanup runs and second runs: exactly when the indexes come out as configured, and exactly when
    running the same configuration again changes nothing. */
module Reruns {
  import opened Text
  import opened Configs
  import opened Migrations
  import opened Reconciling
  import opened Leftovers
  import opened Collisions
  import opened DryRuns
  import opened Histories

  // ---------- which table ends up with an index name ----------

  predicate Claims(tables: seq<TableConfig>, i: nat, m: string)
    requires i < |tables|
  {
    m in Desired(tables[i])
  }

  // Table i gets the name if it wants it: it has it already, or no table or primary key index has it
  // and the cleanup has taken it away from any other table by then.
  predicate FreeFor(owner: Option<string>, tables: seq<TableConfig>, i: nat, blocked: bool)
    requires i < |tables|
  {
    owner == Some(tables[i].name) || (!blocked && (owner.None? || owner.value in NamesUpTo(tables, i + 1)))
  }

  ghost predicate TakenBy(owner: Option<string>, tables: seq<TableConfig>, n: nat, m: string, blocked: bool, u: string)
    requires n <= |tables|
  {
    exists j | 0 <= j < n :: tables[j].name == u && Claims(tables, j, m) && FreeFor(owner, tables, j, blocked)
  }

  // What a cleanup run has made of an index name after n tables.
  ghost predicate OwnedBy(owner: Option<string>, tables: seq<TableConfig>, n: nat, m: string, blocked: bool,
                          now: Option<string>)
    requires n <= |tables|
  {
    if now.Some? then
      || (owner == now && now.value !in NamesUpTo(tables, n))
      || TakenBy(owner, tables, n, m, blocked, now.value)
    else
      && (owner.None? || owner.value in NamesUpTo(tables, n))
      && forall j | 0 <= j < n :: Claims(tables, j, m) ==> !FreeFor(owner, tables, j, blocked)
  }

  lemma {:induction false} OwnerAfterIs(owner: Option<string>, tables: seq<TableConfig>, n: nat, m: string,
                                        blocked: bool)
    requires UniqueTableNames(tables) && n <= |tables|
    ensures OwnedBy(owner, tables, n, m, blocked, OwnerAfter(owner, tables, n, m, blocked))
  {
    if n > 0 {
      OwnerAfterIs(owner, tables, n - 1, m, blocked);
      OwnedByStep(owner, tables, n - 1, m, blocked, OwnerAfter(owner, tables, n - 1, m, blocked));
    }
  }

  lemma OwnedByStep(owner: Option<string>, tables: seq<TableConfig>, n: nat, m: string, blocked: bool,
                    now: Option<string>)
    requires UniqueTableNames(tables) && n < |tables| && OwnedBy(owner, tables, n, m, blocked, now)
    ensures OwnedBy(owner, tables, n + 1, m, blocked, OwnerStep(now, tables[n], m, true, blocked))
  {
    var t := tables[n];
    NameNew(tables, n);
    if now.Some? && TakenBy(owner, tables, n, m, blocked, now.value) {
      var j :| 0 <= j < n && tables[j].name == now.value && Claims(tables, j, m) && FreeFor(owner, tables, j, blocked);
      assert tables[j].name != t.name;
      assert TakenBy(owner, tables, n + 1, m, blocked, now.value);
    } else if Claims(tables, n, m) && FreeFor(owner, tables, n, blocked) {
      assert TakenBy(owner, tables, n + 1, m, blocked, t.name);
    }
  }

  // An index name that a table or a primary key index has.
  predicate Blocked(db: Db, m: string) { m in TableRelations(db) }

  lemma EndTaken(db: Db, tables: seq<TableConfig>, m: string)
    requires UniqueTableNames(tables)
    ensures var u := OwnerInTheEnd(db, tables, m);
            if u.Some? then TakenBy(Owner(db, m), tables, |tables|, m, Blocked(db, m), u.value)
            else forall j | 0 <= j < |tables| && Claims(tables, j, m) ::
              !FreeFor(Owner(db, m), tables, j, Blocked(db, m))
  {
    OwnerAfterIs(Owner(db, m), tables, |tables|, m, Blocked(db, m));
  }

  // ---------- exact indexes ----------

  function IndexesOf(db: Db, table: string): set<string> {
    set m | m in db.indexes && db.indexes[m].table == table
  }

  // Every configured index name is free for its table, and no two configured indexes have one name.
  ghost predicate NamesFree(db: Db, tables: seq<TableConfig>) {
    forall i, m | 0 <= i < |tables| && Claims(tables, i, m) ::
      FreeFor(Owner(db, m), tables, i, Blocked(db, m))
      && forall j | 0 <= j < |tables| :: Claims(tables, j, m) ==> j == i
  }

  ghost predicate IndexesExact(d: Db, tables: seq<TableConfig>) {
    forall i | 0 <= i < |tables| :: IndexesOf(d, tables[i].name) == Desired(tables[i])
  }

  lemma NamesFreeExact(db: Db, d: Db, tables: seq<TableConfig>)
    requires UniqueTableNames(tables) && NamesFree(db, tables)
    requires forall m :: Owner(d, m) == OwnerInTheEnd(db, tables, m)
    ensures IndexesExact(d, tables)
  {
    forall i, m | 0 <= i < |tables|
      ensures m in IndexesOf(d, tables[i].name) <==> Claims(tables, i, m)
    {
      EndTaken(db, tables, m);
      assert Owner(d, m) == OwnerInTheEnd(db, tables, m);
      assert Claims(tables, i, m) ==> FreeFor(Owner(db, m), tables, i, Blocked(db, m));
    }
  }

  lemma ExactNamesFree(db: Db, d: Db, tables: seq<TableConfig>)
    requires UniqueTableNames(tables) && IndexesExact(d, tables)
    requires forall m :: Owner(d, m) == OwnerInTheEnd(db, tables, m)
    ensures NamesFree(db, tables)
  {
    forall i, m | 0 <= i < |tables| && Claims(tables, i, m)
      ensures FreeFor(Owner(db, m), tables, i, Blocked(db, m))
      ensures forall j | 0 <= j < |tables| :: Claims(tables, j, m) ==> j == i
    {
      EndTaken(db, tables, m);
      assert m in IndexesOf(d, tables[i].name);
      assert Owner(d, m) == OwnerInTheEnd(db, tables, m) == Some(tables[i].name);
      forall j | 0 <= j < |tables| && Claims(tables, j, m) ensures j == i {
        assert m in IndexesOf(d, tables[j].name);
      }
    }
  }

  lemma CleanupInStepIff(db: Db, d: Db, tables: seq<TableConfig>)
    requires Sound(db) && WellNamed(tables) && Migrated(db, d, tables, true, AllMissing(db, tables, true))
    ensures Recorded(d) == Names(tables) && (d.tables.Keys == Names(tables) <==> AllMissing(db, tables, true) == {})
  {
    MigratedInStepIff(db, d, tables, true);
  }

  lemma ExactIff(db: Db, d: Db, tables: seq<TableConfig>)
    requires UniqueTableNames(tables) && forall m :: Owner(d, m) == OwnerInTheEnd(db, tables, m)
    ensures IndexesExact(d, tables) <==> NamesFree(db, tables)
  {
    if NamesFree(db, tables) { NamesFreeExact(db, d, tables); }
    if IndexesExact(d, tables) { ExactNamesFree(db, d, tables); }
  }

  // After a cleanup the recorded tables are the configured ones, all of them exist if and only if no name was
  // in the way, and each has exactly its configured indexes if and only if the index names were free for them.
  lemma CleanupExactIff(db: Db, tables: seq<TableConfig>, hash: string, order: seq<string>)
    requires Sound(db) && WellNamed(tables) && Transaction(db, tables, Options(true, false), hash, order).Ok?
    ensures var d, start := Transaction(db, tables, Options(true, false), hash, order).db, EnsureMeta(db);
            && Recorded(d) == Names(tables)
            && (d.tables.Keys == Names(tables) <==> AllMissing(start, tables, true) == {})
            && (IndexesExact(d, tables) <==> NamesFree(start, tables))
  {
    var d, start := Transaction(db, tables, Options(true, false), hash, order).db, EnsureMeta(db);
    StartSound(db);
    TransactionIff(db, tables, Options(true, false), hash, order);
    CleanupInStepIff(start, d, tables);
    ExactIff(start, d, tables);
  }

  // ---------- running the same configuration again ----------

  predicate IndexSettled(d: Db, t: TableConfig, m: string) {
    OnTable(d, m, t.name) || (t.name in d.tables && m in Relations(d))
  }

  // Nothing is left to do for a table, but for cleaning up.
  ghost predicate Settled(d: Db, t: TableConfig) {
    && d.meta.Some? && t.name in Rows(d) && AsKeyFields(Rows(d)[t.name]) == MetaOf(t)
    && forall m | m in Desired(t) :: IndexSettled(d, t, m)
  }

  ghost predicate NothingStale(d: Db, t: TableConfig) {
    && (forall i | 0 <= i < |t.indexes| :: NameOk(t.indexes[i].name))
    && (t.name in d.tables ==> !StartsWith(t.name, "idx"))
    && IndexesOf(d, t.name) <= Desired(t)
  }

  lemma {:induction false} CreateNothing(d: Db, t: TableConfig, n: nat)
    requires n <= |t.indexes| && forall m | m in Desired(t) :: IndexSettled(d, t, m)
    ensures CreateIndexes(d, t, n) == Ok(d)
  {
    if n > 0 {
      CreateNothing(d, t, n - 1);
      assert IndexName(t, t.indexes[n - 1]) in Desired(t);
    }
  }

  lemma DropNothingStale(d: Db, t: TableConfig)
    requires NothingStale(d, t)
    ensures DropStale(d, t) == Ok(d)
  {
    if t.name in d.tables {
      DropStaleFailsIff(d, t);
    }
    assert forall m | m in Stale(d, t) :: m in IndexesOf(d, t.name);
    assert Stale(d, t) == {};
    assert d.indexes - {} == d.indexes;
  }

  lemma ReconcileNothing(d: Db, t: TableConfig, o: Options)
    requires Settled(d, t) && !o.dryRun && (o.cleanup ==> NothingStale(d, t))
    ensures ReconcileTable(d, t, o) == Ok(d)
  {
    CreateNothing(d, t, |t.indexes|);
    if o.cleanup {
      DropNothingStale(d, t);
    }
  }

  lemma {:induction false} ReconcileAllNothing(d: Db, tables: seq<TableConfig>, n: nat, o: Options)
    requires d.meta.Some? && n <= |tables| && forall i | 0 <= i < n :: ReconcileTable(d, tables[i], o) == Ok(d)
    ensures ReconcileAll(d, tables, n, o) == Ok(d)
  {
    if n > 0 {
      ReconcileAllNothing(d, tables, n - 1, o);
      assert ReconcileTable(d, tables[n - 1], o) == Ok(d);
    }
  }

  lemma NothingListed(order: seq<string>)
    ensures Listed(order, {}) == []
  {
    ListedLists(order, {});
    assert forall i | 0 <= i < |Listed(order, {})| :: Listed(order, {})[i] in Listed(order, {});
  }

  lemma SettledStays(d: Db, tables: seq<TableConfig>, o: Options, hash: string, order: seq<string>)
    requires !o.dryRun && META in Rows(d) && Rows(d)[META] == ConfigHash(hash)
    requires forall i | 0 <= i < |tables| :: Settled(d, tables[i]) && (o.cleanup ==> NothingStale(d, tables[i]))
    requires o.cleanup ==> Recorded(d) <= Names(tables)
    ensures Transaction(d, tables, o, hash, order) == Ok(d)
  {
    forall i | 0 <= i < |tables| ensures ReconcileTable(d, tables[i], o) == Ok(d) {
      ReconcileNothing(d, tables[i], o);
    }
    ReconcileAllNothing(d, tables, |tables|, o);
    if o.cleanup {
      assert ToDrop(d.meta.value, Names(tables)) == {};
      NothingListed(order);
    }
    assert d.meta.value[META := ConfigHash(hash)] == d.meta.value;
  }

  // ---------- without a cleanup ----------

  // d has all that db has.
  ghost predicate Grows(db: Db, d: Db) {
    && Relations(db) <= Relations(d) && db.tables.Keys <= d.tables.Keys
    && (forall m | m in db.indexes :: m in d.indexes && d.indexes[m] == db.indexes[m])
    && (forall name | name in Rows(db) :: name in Rows(d) && Rows(d)[name] == Rows(db)[name])
  }

  lemma GrowsKeepsSettled(db: Db, d: Db, t: TableConfig)
    requires Grows(db, d) && Settled(db, t) && d.meta.Some?
    ensures Settled(d, t)
  {
    forall m | m in Desired(t) ensures IndexSettled(d, t, m) {
      assert IndexSettled(db, t, m);
    }
  }

  lemma CreateIndexGrows(db: Db, t: TableConfig, idx: IndexConfig)
    requires CreateIndex(db, t, idx).Ok?
    ensures Grows(db, CreateIndex(db, t, idx).db) && IndexSettled(CreateIndex(db, t, idx).db, t, IndexName(t, idx))
  {
  }

  lemma {:induction false} CreateIndexesSettles(db: Db, t: TableConfig, n: nat)
    requires n <= |t.indexes| && CreateIndexes(db, t, n).Ok?
    ensures Grows(db, CreateIndexes(db, t, n).db)
    ensures forall m | m in DesiredUpTo(t, n) :: IndexSettled(CreateIndexes(db, t, n).db, t, m)
  {
    if n > 0 {
      CreateIndexesSettles(db, t, n - 1);
      var before, d := CreateIndexes(db, t, n - 1).db, CreateIndexes(db, t, n).db;
      var name := IndexName(t, t.indexes[n - 1]);
      assert DesiredUpTo(t, n) == DesiredUpTo(t, n - 1) + {name};
      if !OnTable(before, name, t.name) {
        CreateIndexGrows(before, t, t.indexes[n - 1]);
        assert Grows(before, d);
        forall m | m in DesiredUpTo(t, n - 1) ensures IndexSettled(d, t, m) {
          assert IndexSettled(before, t, m);
        }
      }
    }
  }

  lemma ReconcileSettles(db: Db, t: TableConfig)
    requires db.meta.Some? && ReconcileTable(db, t, Options(false, false)).Ok?
    ensures var d := ReconcileTable(db, t, Options(false, false)).db;
            Grows(db, d) && Settled(d, t)
  {
    var with := WithTable(db, t);
    assert Grows(db, with) && with.meta.Some? && t.name in Rows(with) && AsKeyFields(Rows(with)[t.name]) == MetaOf(t);
    CreateIndexesSettles(with, t, |t.indexes|);
  }

  lemma {:induction false} ReconcileAllSettles(db: Db, tables: seq<TableConfig>, n: nat)
    requires db.meta.Some? && n <= |tables| && ReconcileAll(db, tables, n, Options(false, false)).Ok?
    ensures forall i | 0 <= i < n :: Settled(ReconcileAll(db, tables, n, Options(false, false)).db, tables[i])
  {
    if n > 0 {
      var before := ReconcileAll(db, tables, n - 1, Options(false, false)).db;
      ReconcileAllSettles(db, tables, n - 1);
      ReconcileSettles(before, tables[n - 1]);
      var d := ReconcileTable(before, tables[n - 1], Options(false, false)).db;
      forall i | 0 <= i < n - 1 ensures Settled(d, tables[i]) {
        GrowsKeepsSettled(before, d, tables[i]);
      }
    }
  }

  // From any database at all, running a successful validated configuration again without a cleanup changes nothing.
  lemma RerunSettled(db: Db, tables: seq<TableConfig>, hash: string, order: seq<string>, again: seq<string>)
    requires WellNamed(tables) && Transaction(db, tables, Options(false, false), hash, order).Ok?
    ensures var d := Transaction(db, tables, Options(false, false), hash, order).db;
            Transaction(d, tables, Options(false, false), hash, again) == Ok(d)
  {
    var start, d := EnsureMeta(db), Transaction(db, tables, Options(false, false), hash, order).db;
    var reconciled := ReconcileAll(start, tables, |tables|, Options(false, false)).db;
    ReconcileAllSettles(start, tables, |tables|);
    forall i | 0 <= i < |tables| ensures Settled(d, tables[i]) {
      NotMeta(tables[i].name);
      HashKeepsSettled(reconciled, tables[i], hash);
    }
    SettledStays(d, tables, Options(false, false), hash, again);
  }

  lemma HashKeepsSettled(d: Db, t: TableConfig, hash: string)
    requires Settled(d, t) && t.name != META
    ensures Settled(UpsertHash(d, hash, Options(false, false)), t)
  {
    var e := UpsertHash(d, hash, Options(false, false));
    forall m | m in Desired(t) ensures IndexSettled(e, t, m) {
      assert IndexSettled(d, t, m);
    }
  }

  // ---------- with a cleanup ----------

  ghost predicate Claimed(tables: seq<TableConfig>, m: string) {
    exists i | 0 <= i < |tables| :: Claims(tables, i, m)
  }

  // Some configured table that wants the name gets it.
  ghost predicate Granted(db: Db, tables: seq<TableConfig>, m: string) {
    exists j | 0 <= j < |tables| :: Claims(tables, j, m) && FreeFor(Owner(db, m), tables, j, Blocked(db, m))
  }

  ghost predicate Remade(db: Db, tables: seq<TableConfig>) {
    forall m | Claimed(tables, m) :: Granted(db, tables, m)
  }

  lemma RerunPresent(db: Db, d: Db, tables: seq<TableConfig>, m: string)
    requires UniqueTableNames(tables) && Claimed(tables, m) && Owner(d, m) == OwnerInTheEnd(db, tables, m)
    ensures m in d.indexes <==> Granted(db, tables, m)
  {
    EndTaken(db, tables, m);
  }

  // After a cleanup a table is settled, and nothing of it is stale, once its index names are those of indexes.
  lemma CleanupSettles(db: Db, d: Db, tables: seq<TableConfig>, i: nat, missing: set<nat>)
    requires WellNamed(tables) && Migrated(db, d, tables, true, missing) && i < |tables|
    requires forall m | Claimed(tables, m) :: m in d.indexes
    requires NamePasses(tables[i], i in missing, true)
    ensures Settled(d, tables[i]) && NothingStale(d, tables[i])
  {
    var t := tables[i];
    forall m | m in Desired(t) ensures IndexSettled(d, t, m) {
      assert Claims(tables, i, m);
      assert t.indexes != [];
    }
    forall m | m in IndexesOf(d, t.name) ensures m in Desired(t) {
      assert Owner(d, m) == OwnerInTheEnd(db, tables, m);
      EndTaken(db, tables, m);
    }
  }

  lemma NotBlocked(d: Db, m: string)
    requires StartsWith(m, "idx_") && forall t | t in d.tables :: !StartsWith(t, "idx")
    ensures !Blocked(d, m)
  {
    IdxPrefix(m);
    forall t | t in d.tables ensures PkeyName(t) != m && t != m {
      PkeyIdx(t);
    }
  }

  // A cleanup run that changes nothing leaves no configured index name without an index.
  lemma NothingStaysLost(d: Db, tables: seq<TableConfig>, hash: string, order: seq<string>, m: string)
    requires Sound(d) && d.meta.Some? && WellNamed(tables) && Claimed(tables, m) && m !in d.indexes && !Blocked(d, m)
    requires Transaction(d, tables, Options(true, false), hash, order).Ok?
    ensures m in Transaction(d, tables, Options(true, false), hash, order).db.indexes
  {
    var o := Options(true, false);
    var reconciled := ReconcileAll(d, tables, |tables|, o).db;
    CleanupDrops(reconciled, Names(tables), o, order);
    ReconcileAllOwners(d, tables, |tables|, o);
    assert Owner(reconciled, m) == OwnerAfter(None, tables, |tables|, m, false);
    OwnerAfterIs(None, tables, |tables|, m, false);
    var i :| 0 <= i < |tables| && Claims(tables, i, m);
    assert FreeFor(None, tables, i, false);
    assert Owner(reconciled, m).Some? && Owner(reconciled, m).value in Names(tables);
  }

  // With a cleanup a second run changes nothing exactly if some table gets each configured index name: if no
  // name is a table's or primary key index's, or lost with a table that the first run cleaned up only later.
  lemma CleanupRerunIff(db: Db, tables: seq<TableConfig>, hash: string, order: seq<string>, again: seq<string>)
    requires Sound(db) && WellNamed(tables) && Transaction(db, tables, Options(true, false), hash, order).Ok?
    ensures var d := Transaction(db, tables, Options(true, false), hash, order).db;
            Transaction(d, tables, Options(true, false), hash, again) == Ok(d) <==> Remade(EnsureMeta(db), tables)
    ensures NamesFree(EnsureMeta(db), tables) ==> Remade(EnsureMeta(db), tables)
  {
    var start, d := EnsureMeta(db), Transaction(db, tables, Options(true, false), hash, order).db;
    TransactionIff(db, tables, Options(true, false), hash, order);
    forall m | Claimed(tables, m) ensures m in d.indexes <==> Granted(start, tables, m) {
      assert Owner(d, m) == OwnerInTheEnd(start, tables, m);
      RerunPresent(start, d, tables, m);
    }
    if Remade(start, tables) {
      forall i | 0 <= i < |tables| ensures Settled(d, tables[i]) && NothingStale(d, tables[i]) {
        CleanupSettles(start, d, tables, i, AllMissing(start, tables, true));
      }
      SettledStays(d, tables, Options(true, false), hash, again);
    } else {
      var m :| Claimed(tables, m) && m !in d.indexes;
      var i :| 0 <= i < |tables| && Claims(tables, i, m);
      DesiredIdx(tables[i], |tables[i].indexes|);
      NotBlocked(d, m);
      if Transaction(d, tables, Options(true, false), hash, again).Ok? {
        NothingStaysLost(d, tables, hash, again, m);
      }
    }
    if NamesFree(start, tables) {
      NamesFreeRemade(start, tables);
    }
  }

  lemma NamesFreeRemade(db: Db, tables: seq<TableConfig>)
    requires NamesFree(db, tables)
    ensures Remade(db, tables)
  {
    forall m | Claimed(tables, m) ensures Granted(db, tables, m) {
      var i :| 0 <= i < |tables| && Claims(tables, i, m);
      assert FreeFor(Owner(db, m), tables, i, Blocked(db, m));
    }
  }

  // It can be lost: index b_c of table a and index c of table a_b have one name. Replacing the first table
  // by the second with a cleanup finds the name taken, then drops it with the first table.
  const FIRST := [WithIndex("a", "b_c")]
  const SECOND := [WithIndex("a_b", "c")]
  const SHARED := "idx_a_b_c"

  lemma BothClaim()
    ensures WellNamed(FIRST) && WellNamed(SECOND) && Claims(FIRST, 0, SHARED) && Claims(SECOND, 0, SHARED)
  {
    assert IndexName(FIRST[0], FIRST[0].indexes[0]) == SHARED == IndexName(SECOND[0], SECOND[0].indexes[0]);
  }

  lemma FirstRun(hash: string, order: seq<string>)
    ensures var db := NextDb(EMPTY_DB, Run(FIRST, Options(false, false), hash, order, false));
            InStep(db) && db.meta.Some? && db.tables.Keys == {"a"} && Owner(db, SHARED) == Some("a")
  {
    var t, o, start := FIRST[0], Options(false, false), EnsureMeta(EMPTY_DB);
    var made := Db(Some(map["a" := MetaOf(t)]), map["a" := false], map[]);
    var one := made.(indexes := map[SHARED := DefinitionOf(t, t.indexes[0])]);
    BothClaim();
    assert "a" !in Relations(start) by { assert |"a"| != |META|; }
    assert WithTable(start, t) == made;
    assert |SHARED| == 9 && |PkeyName("a")| == 6 && |PkeyName(META)| == 10 && |META| == 5;
    assert SHARED !in Relations(made);
    assert CreateIndexes(made, t, 0) == Ok(made) && CreateIndexes(made, t, 1) == Ok(one);
    assert ReconcileTable(start, t, o) == Ok(one);
    assert ReconcileAll(start, FIRST, 0, o) == Ok(start) && ReconcileAll(start, FIRST, 1, o) == Ok(one);
    var end := UpsertHash(one, hash, o);
    assert Transaction(EMPTY_DB, FIRST, o, hash, order) == Ok(end);
    assert SHARED[..4] == "idx_";
    assert InStep(end) by { NotMeta("a"); }
  }

  lemma SecondRun(db: Db, hash: string, order: seq<string>, again: seq<string>)
    requires InStep(db) && db.meta.Some? && db.tables.Keys == {"a"} && Owner(db, SHARED) == Some("a")
    ensures var r := Transaction(db, SECOND, Options(true, false), hash, order);
            r.Ok? && SHARED !in r.db.indexes && Transaction(r.db, SECOND, Options(true, false), hash, again) != Ok(r.db)
  {
    BothClaim();
    SecondPasses(db);
    InStepReleased(db, SECOND, {}, order);
    TransactionIff(db, SECOND, Options(true, false), hash, order);
    var d := Transaction(db, SECOND, Options(true, false), hash, order).db;
    assert NamesUpTo(SECOND, 1) == {"a_b"};
    assert "a" != "a_b" by { assert |"a"| != |"a_b"|; }
    assert Claimed(SECOND, SHARED) && !Granted(db, SECOND, SHARED);
    assert Owner(d, SHARED) == OwnerInTheEnd(db, SECOND, SHARED);
    RerunPresent(db, d, SECOND, SHARED);
    CleanupRerunIff(db, SECOND, hash, order, again);
  }

  lemma SecondPasses(db: Db)
    requires InStep(db) && db.meta.Some? && db.tables.Keys == {"a"}
    ensures AllMissing(db, SECOND, true) == {} && !StartsWith("a_b", "idx") && "a_b" !in Rows(db)
  {
    assert |"a_b"| == 3 && |"a"| == 1 && |META| == 5 && |PkeyName("a")| == 6 && |PkeyName(META)| == 10;
    assert "a_b"[..3] == "a_b" != "idx" by { assert "a_b"[0] != "idx"[0]; }
    assert KeyNameFree(db, SECOND, 0);
    PlainMissingIff(db, SECOND, 0);
    assert MissingUpTo(db, SECOND, 0, true) == {};
  }

  lemma RerunCanChange(hash1: string, order1: seq<string>, hash2: string, order2: seq<string>, again: seq<string>)
    ensures var first := Run(FIRST, Options(false, false), hash1, order1, false);
            var second := Run(SECOND, Options(true, false), hash2, order2, false);
            var d := After([first, second]);
            SHARED !in d.indexes && Transaction(d, SECOND, Options(true, false), hash2, again) != Ok(d)
  {
    var run1 := Run(FIRST, Options(false, false), hash1, order1, false);
    var run2 := Run(SECOND, Options(true, false), hash2, order2, false);
    assert [run1, run2][..1] == [run1] && [run1][..0] == [];
    assert After([]) == EMPTY_DB && After([run1]) == NextDb(EMPTY_DB, run1);
    FirstRun(hash1, order1);
    SecondRun(NextDb(EMPTY_DB, run1), hash2, order2, again);
  }
}
