/** When names collide: exactly when a run of the migration fails, and exactly when it leaves _meta and
    the physical tables in step. From any database that runs can lead to, in step or not. */
module Collisions {
  import opened Text
  import opened Configs
  import opened Sequences
  import opened Migrations
  import opened Reconciling
  import opened Leftovers

  // ---------- missing tables ----------

  predicate IndexNameUsed(db: Db, tables: seq<TableConfig>, n: nat, x: string)
    requires n <= |tables|
  {
    x in db.indexes || exists k | 0 <= k < n :: x in Desired(tables[k])
  }

  // The name is that of the primary key index of a table before table n that came to exist.
  predicate PkeyUsed(tables: seq<TableConfig>, n: nat, x: string, missing: set<nat>)
    requires n <= |tables|
  {
    exists k | 0 <= k < n :: x == PkeyName(tables[k].name) && k !in missing
  }

  // Table j does not come to exist: it is recorded and was missing before, or it is new and its name is
  // another relation's when the run reaches it; missing are the tables before it with which it was so.
  predicate Missing(db: Db, tables: seq<TableConfig>, j: nat, cleanup: bool, missing: set<nat>)
    requires j < |tables|
  {
    var x := tables[j].name;
    && x !in db.tables
    && (|| x in Rows(db)
        || x in TableRelations(db)
        || PkeyUsed(tables, j, x, missing)
        || if cleanup then OwnerAfter(Owner(db, x), tables, j, x, false).Some? else IndexNameUsed(db, tables, j, x))
  }

  // Those of the first n tables that do not come to exist.
  function MissingUpTo(db: Db, tables: seq<TableConfig>, n: nat, cleanup: bool): set<nat>
    requires n <= |tables|
  {
    if n == 0 then {}
    else
      var before := MissingUpTo(db, tables, n - 1, cleanup);
      if Missing(db, tables, n - 1, cleanup, before) then before + {n - 1} else before
  }

  function AllMissing(db: Db, tables: seq<TableConfig>, cleanup: bool): set<nat> {
    MissingUpTo(db, tables, |tables|, cleanup)
  }

  // After n tables: which of them exist, ...
  ghost predicate TablesTracked(d: Db, tables: seq<TableConfig>, n: nat, missing: set<nat>)
    requires n <= |tables|
  {
    && (forall k | k in missing :: k < n)
    && (forall k | 0 <= k < n :: tables[k].name in d.tables <==> k !in missing)
  }

  // ... and of all other names, which are those of tables and primary key indexes, ...
  ghost predicate PkeysTracked(db: Db, d: Db, tables: seq<TableConfig>, n: nat, missing: set<nat>)
    requires n <= |tables|
  {
    forall x | x !in NamesUpTo(tables, n) ::
      x in TableRelations(d) <==> x in TableRelations(db) || PkeyUsed(tables, n, x, missing)
  }

  // ... and, without a cleanup, of indexes too.
  ghost predicate IndexesTracked(db: Db, d: Db, tables: seq<TableConfig>, n: nat)
    requires n <= |tables|
  {
    forall x | x !in NamesUpTo(tables, n) ::
      x in Relations(d) <==> x in TableRelations(d) || IndexNameUsed(db, tables, n, x)
  }

  ghost predicate Tracked(db: Db, d: Db, tables: seq<TableConfig>, n: nat, cleanup: bool, missing: set<nat>)
    requires n <= |tables|
  {
    && TablesTracked(d, tables, n, missing) && PkeysTracked(db, d, tables, n, missing)
    && (!cleanup ==> IndexesTracked(db, d, tables, n))
  }

  lemma MissingIff(db: Db, d: Db, tables: seq<TableConfig>, n: nat, cleanup: bool, missing: set<nat>)
    requires Sound(db) && db.meta.Some? && WellNamed(tables) && n < |tables|
    requires ReconciledAll(db, d, tables, n) && Tracked(db, d, tables, n, cleanup, missing)
    requires cleanup ==> OwnersTracked(db, d, tables, n)
    ensures Missing(db, tables, n, cleanup, missing) <==> !Backed(d, tables[n])
  {
    var x := tables[n].name;
    ReachedRows(db, d, tables, n);
    NameNew(tables, n);
    NotMeta(x);
    if cleanup {
      assert Owner(d, x) == OwnerAfter(Owner(db, x), tables, n, x, x in TableRelations(db));
    }
  }

  lemma TablesStep(before: Db, d: Db, tables: seq<TableConfig>, n: nat, missing: set<nat>)
    requires n < |tables| && WellNamed(tables)
    requires TablesTracked(before, tables, n, missing) && TablesAdded(before, d, tables[n])
    ensures TablesTracked(d, tables, n + 1, if Backed(before, tables[n]) then missing else missing + {n})
  {
    forall k | 0 <= k < n
      ensures tables[k].name in d.tables <==> tables[k].name in before.tables
    {
      assert tables[k].name != tables[n].name;
    }
  }

  lemma TableRelationsStep(before: Db, d: Db, t: TableConfig, x: string)
    requires before.meta.Some? && d.meta.Some? && x != t.name && TablesAdded(before, d, t)
    ensures x in TableRelations(d) <==> x in TableRelations(before) || (Backed(before, t) && x == PkeyName(t.name))
  {
    assert Backed(before, t) ==> t.name in d.tables;
  }

  lemma PkeysStep(db: Db, before: Db, d: Db, tables: seq<TableConfig>, n: nat, missing: set<nat>)
    requires n < |tables| && WellNamed(tables) && before.meta.Some? && d.meta.Some? && forall k | k in missing :: k < n
    requires PkeysTracked(db, before, tables, n, missing) && TablesAdded(before, d, tables[n])
    ensures PkeysTracked(db, d, tables, n + 1, if Backed(before, tables[n]) then missing else missing + {n})
  {
    var t, after := tables[n], if Backed(before, tables[n]) then missing else missing + {n};
    NameNew(tables, n);
    forall x | x !in NamesUpTo(tables, n + 1)
      ensures x in TableRelations(d) <==> x in TableRelations(db) || PkeyUsed(tables, n + 1, x, after)
    {
      TableRelationsStep(before, d, t, x);
      PkeyUsedStep(tables, n, x, missing, Backed(before, t));
    }
  }

  lemma PkeyUsedStep(tables: seq<TableConfig>, n: nat, x: string, missing: set<nat>, backed: bool)
    requires n < |tables| && forall k | k in missing :: k < n
    ensures PkeyUsed(tables, n + 1, x, if backed then missing else missing + {n})
            <==> PkeyUsed(tables, n, x, missing) || (backed && x == PkeyName(tables[n].name))
  {
    if PkeyUsed(tables, n, x, missing) {
      var k :| 0 <= k < n && x == PkeyName(tables[k].name) && k !in missing;
      assert k !in missing + {n};
    }
  }

  lemma IndexesStep(db: Db, before: Db, d: Db, tables: seq<TableConfig>, n: nat)
    requires n < |tables| && WellNamed(tables) && before.meta.Some?
    requires IndexesTracked(db, before, tables, n) && Reconciled(before, d, tables[n], false)
    ensures IndexesTracked(db, d, tables, n + 1)
  {
    NameNew(tables, n);
    forall x | x !in NamesUpTo(tables, n + 1)
      ensures x in Relations(d) <==> x in TableRelations(d) || IndexNameUsed(db, tables, n + 1, x)
    {
      assert IndexNameUsed(db, tables, n + 1, x) <==> IndexNameUsed(db, tables, n, x) || x in Desired(tables[n]);
      TableRelationsStep(before, d, tables[n], x);
      assert Owner(d, x) == OwnerStep(Owner(before, x), tables[n], x, false, x in TableRelations(d));
    }
  }

  lemma TrackedStep(db: Db, before: Db, d: Db, tables: seq<TableConfig>, n: nat, cleanup: bool, missing: set<nat>)
    requires n < |tables| && WellNamed(tables) && before.meta.Some?
    requires Tracked(db, before, tables, n, cleanup, missing) && Reconciled(before, d, tables[n], cleanup)
    ensures Tracked(db, d, tables, n + 1, cleanup, if Backed(before, tables[n]) then missing else missing + {n})
  {
    TablesStep(before, d, tables, n, missing);
    PkeysStep(db, before, d, tables, n, missing);
    if !cleanup {
      IndexesStep(db, before, d, tables, n);
    }
  }

  // A run that has come as far as d, and which tables are missing so far.
  ghost predicate Reaches(db: Db, d: Db, tables: seq<TableConfig>, n: nat, cleanup: bool, missing: set<nat>)
    requires db.meta.Some? && n <= |tables|
  {
    && ReconciledAll(db, d, tables, n) && Tracked(db, d, tables, n, cleanup, missing)
    && (cleanup ==> OwnersTracked(db, d, tables, n) && SameBlocks(db, d))
  }

  function MissingNext(db: Db, tables: seq<TableConfig>, n: nat, cleanup: bool, missing: set<nat>): set<nat>
    requires n < |tables|
  {
    if Missing(db, tables, n, cleanup, missing) then missing + {n} else missing
  }

  // No recorded table of the configuration changes its key fields.
  predicate KeyKept(db: Db, t: TableConfig) {
    t.name in Rows(db) ==> AsKeyFields(Rows(db)[t.name]) == MetaOf(t)
  }

  // A table that is missing has no indexes, and a cleanup meets no table named idx...
  predicate NamePasses(t: TableConfig, missing: bool, cleanup: bool) {
    if missing then t.indexes == [] else !(cleanup && StartsWith(t.name, "idx"))
  }

  // The table that a run reaches next fails exactly for its key fields or its name.
  lemma NextTable(db: Db, d: Db, tables: seq<TableConfig>, n: nat, o: Options, missing: set<nat>)
    requires Sound(db) && db.meta.Some? && WellNamed(tables) && n < |tables| && !o.dryRun
    requires Reaches(db, d, tables, n, o.cleanup, missing)
    ensures var r, here := ReconcileTable(d, tables[n], o), Missing(db, tables, n, o.cleanup, missing);
            && (r.Ok? <==> KeyKept(db, tables[n]) && NamePasses(tables[n], here, o.cleanup))
            && (r.Ok? ==> Reaches(db, r.db, tables, n + 1, o.cleanup, MissingNext(db, tables, n, o.cleanup, missing)))
  {
    MissingIff(db, d, tables, n, o.cleanup, missing);
    ReachedRows(db, d, tables, n);
    ReconcileIff(d, tables[n], o);
    var r := ReconcileTable(d, tables[n], o);
    if r.Ok? {
      NextReaches(db, d, r.db, tables, n, o.cleanup, missing);
    }
  }

  lemma NextReaches(db: Db, before: Db, d: Db, tables: seq<TableConfig>, n: nat, cleanup: bool, missing: set<nat>)
    requires db.meta.Some? && before.meta.Some? && WellNamed(tables) && n < |tables|
    requires Reaches(db, before, tables, n, cleanup, missing)
    requires Missing(db, tables, n, cleanup, missing) <==> !Backed(before, tables[n])
    requires Reconciled(before, d, tables[n], cleanup) && !Fails(before, tables[n], cleanup)
    ensures Reaches(db, d, tables, n + 1, cleanup, MissingNext(db, tables, n, cleanup, missing))
  {
    TrackedStep(db, before, d, tables, n, cleanup, missing);
    NameNew(tables, n);
    if cleanup {
      BlocksStep(before, d, tables[n]);
      OwnersStep(db, before, d, tables, n);
    }
  }

  // ---------- a whole run ----------

  ghost predicate PassUpTo(db: Db, tables: seq<TableConfig>, n: nat, cleanup: bool, missing: set<nat>)
    requires n <= |tables|
  {
    forall j | 0 <= j < n :: KeyKept(db, tables[j]) && NamePasses(tables[j], j in missing, cleanup)
  }

  ghost predicate ComesOut(db: Db, r: Result, tables: seq<TableConfig>, n: nat, cleanup: bool, missing: set<nat>)
    requires db.meta.Some? && n <= |tables|
  {
    && (r.Ok? <==> PassUpTo(db, tables, n, cleanup, missing))
    && (r.Ok? ==> Reaches(db, r.db, tables, n, cleanup, missing))
  }

  lemma PassUpToStep(db: Db, tables: seq<TableConfig>, n: nat, cleanup: bool, missing: set<nat>)
    requires n < |tables| && forall k | k in missing :: k < n
    ensures PassUpTo(db, tables, n + 1, cleanup, MissingNext(db, tables, n, cleanup, missing))
            <==> PassUpTo(db, tables, n, cleanup, missing) && KeyKept(db, tables[n])
                 && NamePasses(tables[n], Missing(db, tables, n, cleanup, missing), cleanup)
  {
    var next := MissingNext(db, tables, n, cleanup, missing);
    assert forall j | 0 <= j < n :: j in next <==> j in missing;
  }

  lemma ComesOutStep(db: Db, before: Result, tables: seq<TableConfig>, n: nat, o: Options, missing: set<nat>)
    requires Sound(db) && db.meta.Some? && WellNamed(tables) && n < |tables| && !o.dryRun
    requires ComesOut(db, before, tables, n, o.cleanup, missing) && forall k | k in missing :: k < n
    ensures ComesOut(db, if before.Err? then Err else ReconcileTable(before.db, tables[n], o), tables, n + 1, o.cleanup,
                     MissingNext(db, tables, n, o.cleanup, missing))
  {
    PassUpToStep(db, tables, n, o.cleanup, missing);
    if before.Ok? {
      NextTable(db, before.db, tables, n, o, missing);
    }
  }

  lemma {:induction false} MissingWithin(db: Db, tables: seq<TableConfig>, n: nat, cleanup: bool)
    requires n <= |tables|
    ensures forall k | k in MissingUpTo(db, tables, n, cleanup) :: k < n
  {
    if n > 0 {
      MissingWithin(db, tables, n - 1, cleanup);
    }
  }

  lemma {:induction false} ReconcileAllComesOut(db: Db, tables: seq<TableConfig>, n: nat, o: Options)
    requires Sound(db) && db.meta.Some? && WellNamed(tables) && n <= |tables| && !o.dryRun
    ensures ComesOut(db, ReconcileAll(db, tables, n, o), tables, n, o.cleanup, MissingUpTo(db, tables, n, o.cleanup))
  {
    if n == 0 {
      assert Reaches(db, db, tables, 0, o.cleanup, {});
    } else {
      var before, missing := ReconcileAll(db, tables, n - 1, o), MissingUpTo(db, tables, n - 1, o.cleanup);
      ReconcileAllComesOut(db, tables, n - 1, o);
      MissingWithin(db, tables, n - 1, o.cleanup);
      ComesOutStep(db, before, tables, n - 1, o, missing);
    }
  }

  // The table that has an index of this name after a cleanup run.
  function OwnerInTheEnd(db: Db, tables: seq<TableConfig>, m: string): Option<string> {
    var owner := OwnerAfter(Owner(db, m), tables, |tables|, m, m in TableRelations(db));
    if owner.Some? && owner.value !in Names(tables) then None else owner
  }

  ghost predicate OwnersEnd(db: Db, d: Db, tables: seq<TableConfig>) {
    && (forall m :: Owner(d, m) == OwnerInTheEnd(db, tables, m))
    && (forall t | t in d.tables :: !StartsWith(t, "idx"))
  }

  // What a run makes of the rows and tables: the configured tables are recorded, and exist but for those
  // that are missing; the others stay as they were, or a cleanup forgets and drops them.
  ghost predicate Migrated(db: Db, d: Db, tables: seq<TableConfig>, cleanup: bool, missing: set<nat>) {
    && Sound(d) && d.meta.Some?
    && Recorded(d) == Names(tables) + (if cleanup then {} else Recorded(db))
    && (forall i | 0 <= i < |tables| :: tables[i].name in Rows(d) && Rows(d)[tables[i].name] == MetaOf(tables[i]))
    && (forall i | 0 <= i < |tables| :: tables[i].name in d.tables <==> i !in missing)
    && (forall t | t in Recorded(db) && !cleanup && t !in Names(tables) ::
          Rows(d)[t] == Rows(db)[t] && (t in d.tables <==> t in db.tables))
    && (cleanup ==> OwnersEnd(db, d, tables))
  }

  lemma NamesNotMeta(tables: seq<TableConfig>)
    requires WellNamed(tables)
    ensures META !in Names(tables)
  {
    forall i | 0 <= i < |tables| ensures tables[i].name != META { NotMeta(tables[i].name); }
  }

  lemma MigratedWithout(db: Db, d: Db, tables: seq<TableConfig>, missing: set<nat>)
    requires db.meta.Some? && WellNamed(tables) && Reaches(db, d, tables, |tables|, false, missing)
    ensures Migrated(db, d, tables, false, missing)
  {
    RowsAfterIs(db.meta.value, tables, |tables|);
    NamesNotMeta(tables);
  }

  lemma OwnersCleaned(db: Db, d: Db, tables: seq<TableConfig>, m: string)
    requires d.meta.Some? && Sound(d) && META !in Names(tables) && OwnersTracked(db, d, tables, |tables|)
    ensures Owner(DropTables(d, ToDrop(d.meta.value, Names(tables))), m) == OwnerInTheEnd(db, tables, m)
  {
    CleanedSound(d, ToDrop(d.meta.value, Names(tables)));
    assert Owner(d, m) == OwnerAfter(Owner(db, m), tables, |tables|, m, m in TableRelations(db));
    assert Owner(d, m).Some? ==> Owner(d, m).value in Recorded(d);
  }

  lemma NoneNamedIdx(d: Db, tables: seq<TableConfig>, missing: set<nat>, t: string)
    requires Sound(d) && d.meta.Some? && TablesTracked(d, tables, |tables|, missing)
    requires forall i | 0 <= i < |tables| :: NamePasses(tables[i], i in missing, true)
    requires t in DropTables(d, ToDrop(d.meta.value, Names(tables))).tables
    ensures t in Names(tables) && !StartsWith(t, "idx")
  {
    assert t in Recorded(d) && t in Names(tables);
    var i :| 0 <= i < |tables| && tables[i].name == t;
  }

  lemma MigratedWith(db: Db, d: Db, tables: seq<TableConfig>, missing: set<nat>)
    requires db.meta.Some? && WellNamed(tables) && Reaches(db, d, tables, |tables|, true, missing)
    requires forall i | 0 <= i < |tables| :: NamePasses(tables[i], i in missing, true)
    ensures Migrated(db, DropTables(d, ToDrop(d.meta.value, Names(tables))), tables, true, missing)
  {
    RowsAfterIs(db.meta.value, tables, |tables|);
    NamesNotMeta(tables);
    var drop := ToDrop(d.meta.value, Names(tables));
    var e := DropTables(d, drop);
    CleanedSound(d, drop);
    forall m ensures Owner(e, m) == OwnerInTheEnd(db, tables, m) { OwnersCleaned(db, d, tables, m); }
    forall t | t in e.tables ensures !StartsWith(t, "idx") { NoneNamedIdx(d, tables, missing, t); }
  }

  // ---------- the cleanup of tables ----------

  // In the end a configured table has the name for its primary key index, or for another index.
  ghost predicate Kept(db: Db, tables: seq<TableConfig>, missing: set<nat>, x: string) {
    PkeyUsed(tables, |tables|, x, missing) || OwnerInTheEnd(db, tables, x).Some?
  }

  // The recorded tables that the configuration does not name, in the order in which they are found.
  ghost function DropList(db: Db, tables: seq<TableConfig>, order: seq<string>): seq<string> {
    Listed(order, ToDrop(Rows(db), Names(tables)))
  }

  // One of them that does not exist can be dropped in its turn: no table that stays has its name for an
  // index, and every table that goes and has comes earlier.
  ghost predicate Released(db: Db, tables: seq<TableConfig>, missing: set<nat>, gone: set<string>, x: string) {
    !Kept(db, tables, missing, x) && forall u | Holds(db, u, x) && u !in Names(tables) :: u in gone
  }

  ghost predicate AllReleased(db: Db, tables: seq<TableConfig>, missing: set<nat>, drop: seq<string>) {
    forall j | 0 <= j < |drop| && drop[j] !in db.tables ::
      Released(db, tables, missing, Members(drop[..j]), drop[j])
  }

  // The tables that the configuration does not name keep the index names that they have.
  lemma {:induction false} OthersKeep(owner: Option<string>, tables: seq<TableConfig>, n: nat, m: string, blocked: bool,
                                      u: string)
    requires n <= |tables| && u !in NamesUpTo(tables, n)
    ensures OwnerAfter(owner, tables, n, m, blocked) == Some(u) <==> owner == Some(u)
  {
    if n > 0 {
      OthersKeep(owner, tables, n - 1, m, blocked, u);
      assert tables[n - 1].name != u;
    }
  }

  lemma OthersHold(db: Db, d: Db, tables: seq<TableConfig>, missing: set<nat>, u: string, x: string)
    requires db.meta.Some? && Reaches(db, d, tables, |tables|, true, missing) && u !in Names(tables)
    ensures Holds(d, u, x) <==> Holds(db, u, x)
  {
    OthersKeep(Owner(db, x), tables, |tables|, x, x in TableRelations(db), u);
    assert Owner(d, x) == OwnerAfter(Owner(db, x), tables, |tables|, x, x in TableRelations(db));
  }

  lemma KeptIff(db: Db, d: Db, tables: seq<TableConfig>, missing: set<nat>, x: string)
    requires db.meta.Some? && Reaches(db, d, tables, |tables|, true, missing)
    ensures Kept(db, tables, missing, x) <==> exists u :: u in Names(tables) && Holds(d, u, x)
  {
    assert Owner(d, x) == OwnerAfter(Owner(db, x), tables, |tables|, x, x in TableRelations(db));
    if OwnerInTheEnd(db, tables, x).Some? {
      assert Holds(d, Owner(d, x).value, x);
    }
    if PkeyUsed(tables, |tables|, x, missing) {
      var k :| 0 <= k < |tables| && x == PkeyName(tables[k].name) && k !in missing;
      assert Holds(d, tables[k].name, x);
    }
    if u :| u in Names(tables) && Holds(d, u, x) && x == PkeyName(u) {
      var k :| 0 <= k < |tables| && tables[k].name == u;
    }
  }

  lemma ReleasedIff(db: Db, d: Db, tables: seq<TableConfig>, missing: set<nat>, gone: set<string>, x: string)
    requires db.meta.Some? && Reaches(db, d, tables, |tables|, true, missing)
    requires x !in Names(tables) && forall u | u in gone :: u !in Names(tables)
    ensures CanDrop(d, gone, x) <==> x in db.tables || Released(db, tables, missing, gone, x)
  {
    KeptIff(db, d, tables, missing, x);
    forall u | u !in Names(tables) ensures Holds(d, u, x) <==> Holds(db, u, x) {
      OthersHold(db, d, tables, missing, u, x);
    }
  }

  // Cleaning up the tables goes through exactly if all those that do not exist are released.
  lemma CleanupIff(db: Db, d: Db, tables: seq<TableConfig>, missing: set<nat>, o: Options, order: seq<string>)
    requires db.meta.Some? && WellNamed(tables) && !o.dryRun && Reaches(db, d, tables, |tables|, true, missing)
    ensures var r := CleanupTables(d, Names(tables), o, order);
            && (r.Ok? <==> AllReleased(db, tables, missing, DropList(db, tables, order)))
            && (r.Ok? ==> r.db == DropTables(d, ToDrop(d.meta.value, Names(tables))))
  {
    var names, drop := ToDrop(d.meta.value, Names(tables)), DropList(db, tables, order);
    RowsAfterIs(db.meta.value, tables, |tables|);
    assert names == ToDrop(db.meta.value, Names(tables));
    ListedLists(order, names);
    DropEachIff(d, drop, |drop|);
    if CleanupTables(d, Names(tables), o, order).Ok? {
      CleanupDrops(d, Names(tables), o, order);
    }
    forall j | 0 <= j < |drop|
      ensures CanDrop(d, Members(drop[..j]), drop[j])
              <==> drop[j] in db.tables || Released(db, tables, missing, Members(drop[..j]), drop[j])
    {
      assert forall u | u in drop[..j] :: u in drop;
      assert drop[j] in drop;
      ReleasedIff(db, d, tables, missing, Members(drop[..j]), drop[j]);
    }
  }

  lemma HashStored(db: Db, d: Db, tables: seq<TableConfig>, o: Options, hash: string, missing: set<nat>)
    requires WellNamed(tables) && !o.dryRun && Migrated(db, d, tables, o.cleanup, missing)
    ensures Migrated(db, UpsertHash(d, hash, o), tables, o.cleanup, missing)
    ensures META in Rows(UpsertHash(d, hash, o)) && Rows(UpsertHash(d, hash, o))[META] == ConfigHash(hash)
  {
    NamesNotMeta(tables);
    var e := UpsertHash(d, hash, o);
    forall m ensures Owner(e, m) == Owner(d, m) {}
  }

  // ---------- the transaction ----------

  lemma StartSound(db: Db)
    requires Sound(db)
    ensures Sound(EnsureMeta(db)) && EnsureMeta(db).meta.Some? && Rows(EnsureMeta(db)) == Rows(db)
    ensures InStep(EnsureMeta(db)) <==> InStep(db)
  {
  }

  ghost predicate Passes(db: Db, tables: seq<TableConfig>, cleanup: bool, missing: set<nat>) {
    forall j | 0 <= j < |tables| :: KeyKept(db, tables[j]) && NamePasses(tables[j], j in missing, cleanup)
  }

  // From any database that runs lead to, a run of a validated configuration fails of itself exactly if a recorded
  // table would change its key fields, or a table that does not come to exist has indexes, or a cleanup meets a table
  // named idx... or a name to drop that an index still has; otherwise it leaves the database as described.
  lemma TransactionIff(db: Db, tables: seq<TableConfig>, o: Options, hash: string, order: seq<string>)
    requires Sound(db) && WellNamed(tables) && !o.dryRun
    ensures var r, start := Transaction(db, tables, o, hash, order), EnsureMeta(db);
            var missing := AllMissing(start, tables, o.cleanup);
            && (r.Ok? <==>
                  && Passes(db, tables, o.cleanup, missing)
                  && (o.cleanup ==> AllReleased(start, tables, missing, DropList(start, tables, order))))
            && (r.Ok? ==>
                  && Migrated(start, r.db, tables, o.cleanup, missing)
                  && META in Rows(r.db) && Rows(r.db)[META] == ConfigHash(hash))
  {
    StartSound(db);
    var start := EnsureMeta(db);
    var missing := AllMissing(start, tables, o.cleanup);
    ReconcileAllComesOut(start, tables, |tables|, o);
    var reconciled := ReconcileAll(start, tables, |tables|, o);
    assert PassUpTo(start, tables, |tables|, o.cleanup, missing) <==> Passes(db, tables, o.cleanup, missing);
    if reconciled.Ok? {
      RunEnds(start, reconciled.db, tables, o, hash, order, missing);
    }
  }

  // The end of the transaction, from the reconciled database on.
  ghost function End(d: Db, tables: seq<TableConfig>, o: Options, hash: string, order: seq<string>): Result
    requires d.meta.Some?
  {
    var cleaned := if o.cleanup then CleanupTables(d, Names(tables), o, order) else Ok(d);
    if cleaned.Err? then Err else Ok(UpsertHash(cleaned.db, hash, o))
  }

  lemma RunEnds(db: Db, d: Db, tables: seq<TableConfig>, o: Options, hash: string, order: seq<string>,
                missing: set<nat>)
    requires db.meta.Some? && WellNamed(tables) && !o.dryRun && Reaches(db, d, tables, |tables|, o.cleanup, missing)
    requires PassUpTo(db, tables, |tables|, o.cleanup, missing)
    ensures var e := End(d, tables, o, hash, order);
            && (e.Ok? <==> (o.cleanup ==> AllReleased(db, tables, missing, DropList(db, tables, order))))
            && (e.Ok? ==>
                  && Migrated(db, e.db, tables, o.cleanup, missing)
                  && META in Rows(e.db) && Rows(e.db)[META] == ConfigHash(hash))
  {
    if o.cleanup {
      CleanupIff(db, d, tables, missing, o, order);
      MigratedWith(db, d, tables, missing);
      HashStored(db, DropTables(d, ToDrop(d.meta.value, Names(tables))), tables, o, hash, missing);
    } else {
      MigratedWithout(db, d, tables, missing);
      HashStored(db, d, tables, o, hash, missing);
    }
  }

  // A leftover: a recorded table that the configuration does not name and that does not exist.
  ghost predicate Leftover(db: Db, tables: seq<TableConfig>, x: string) {
    x in ToDrop(Rows(db), Names(tables)) && x !in db.tables
  }

  lemma InDropList(db: Db, tables: seq<TableConfig>, order: seq<string>, x: string) returns (j: nat)
    requires x in ToDrop(Rows(db), Names(tables))
    ensures j < |DropList(db, tables, order)| && DropList(db, tables, order)[j] == x
  {
    ListedLists(order, ToDrop(Rows(db), Names(tables)));
    j :| j < |DropList(db, tables, order)| && DropList(db, tables, order)[j] == x;
  }

  // The names found in an order that puts the tables first.
  lemma TablesFirst(db: Db, names: set<string>) returns (order: seq<string>)
    ensures Lists(order, names)
    ensures forall i, j | 0 <= i < |order| && 0 <= j < |order| && order[i] in db.tables && order[j] !in db.tables ::
              i < j
  {
    var there, rest := AnyOrder(names * db.tables.Keys), AnyOrder(names - db.tables.Keys);
    AnyOrderLists(names * db.tables.Keys);
    AnyOrderLists(names - db.tables.Keys);
    assert forall i | 0 <= i < |there| :: there[i] in there;
    assert forall i | 0 <= i < |rest| :: rest[i] in rest;
    order := there + rest;
  }

  // A cleanup fails in every order exactly if a leftover's name stays that of an index.
  lemma EveryOrderFailsIff(db: Db, tables: seq<TableConfig>, missing: set<nat>)
    requires Sound(db)
    ensures (forall order :: !AllReleased(db, tables, missing, DropList(db, tables, order)))
            <==> exists x :: Leftover(db, tables, x) && Kept(db, tables, missing, x)
  {
    var names := ToDrop(Rows(db), Names(tables));
    if x :| Leftover(db, tables, x) && Kept(db, tables, missing, x) {
      forall order ensures !AllReleased(db, tables, missing, DropList(db, tables, order)) {
        var j := InDropList(db, tables, order, x);
      }
    } else {
      var order := TablesFirst(db, names);
      ListedAsIs(order, names);
      forall j | 0 <= j < |order| && order[j] !in db.tables
        ensures Released(db, tables, missing, Members(order[..j]), order[j])
      {
        assert order[j] in order && Leftover(db, tables, order[j]);
        forall u | Holds(db, u, order[j]) && u !in Names(tables) ensures u in order[..j] {
          assert u in order;
          var i :| 0 <= i < |order| && order[i] == u;
          assert order[..j][i] == u;
        }
      }
      assert AllReleased(db, tables, missing, DropList(db, tables, order));
    }
  }

  // It goes through in every order exactly if moreover no leftover's name is that of an index of a table that goes.
  lemma EveryOrderPassesIff(db: Db, tables: seq<TableConfig>, missing: set<nat>)
    ensures (forall order :: AllReleased(db, tables, missing, DropList(db, tables, order)))
            <==> forall x | Leftover(db, tables, x) :: Released(db, tables, missing, {}, x)
  {
    if x :| Leftover(db, tables, x) && !Released(db, tables, missing, {}, x) {
      var drop := DropList(db, tables, [x]);
      assert drop[0] == x && Members(drop[..0]) == {};
      assert !AllReleased(db, tables, missing, drop);
    }
    if forall x | Leftover(db, tables, x) :: Released(db, tables, missing, {}, x) {
      forall order ensures AllReleased(db, tables, missing, DropList(db, tables, order)) {
        var drop := DropList(db, tables, order);
        ListedLists(order, ToDrop(Rows(db), Names(tables)));
        forall j | 0 <= j < |drop| && drop[j] !in db.tables
          ensures Released(db, tables, missing, Members(drop[..j]), drop[j])
        {
          assert drop[j] in drop && Leftover(db, tables, drop[j]);
        }
      }
    }
  }

  // So of a cleanup whose keys and names pass: whether it fails can depend on the order in which the rows are found.
  lemma CleanupOrderIff(db: Db, tables: seq<TableConfig>, hash: string)
    requires Sound(db) && WellNamed(tables) && Passes(db, tables, true, AllMissing(EnsureMeta(db), tables, true))
    ensures var start := EnsureMeta(db);
            var missing := AllMissing(start, tables, true);
            && ((forall order :: Transaction(db, tables, Options(true, false), hash, order).Err?)
                <==> exists x :: Leftover(start, tables, x) && Kept(start, tables, missing, x))
            && ((forall order :: Transaction(db, tables, Options(true, false), hash, order).Ok?)
                <==> forall x | Leftover(start, tables, x) :: Released(start, tables, missing, {}, x))
  {
    var start := EnsureMeta(db);
    var missing := AllMissing(start, tables, true);
    StartSound(db);
    forall order
      ensures Transaction(db, tables, Options(true, false), hash, order).Ok?
              <==> AllReleased(start, tables, missing, DropList(start, tables, order))
    {
      TransactionIff(db, tables, Options(true, false), hash, order);
    }
    EveryOrderFailsIff(start, tables, missing);
    EveryOrderPassesIff(start, tables, missing);
  }

  // In a database in step there are no leftovers.
  lemma InStepReleased(db: Db, tables: seq<TableConfig>, missing: set<nat>, order: seq<string>)
    requires InStep(db)
    ensures AllReleased(db, tables, missing, DropList(db, tables, order))
  {
    EveryOrderPassesIff(db, tables, missing);
  }

  // ---------- in step or not ----------

  lemma MigratedInStepIff(db: Db, d: Db, tables: seq<TableConfig>, cleanup: bool)
    requires Sound(db) && WellNamed(tables) && Migrated(db, d, tables, cleanup, AllMissing(db, tables, cleanup))
    ensures InStep(d) <==> AllMissing(db, tables, cleanup) == {}
                           && (cleanup || forall x :: !Leftover(db, tables, x))
  {
    var missing := AllMissing(db, tables, cleanup);
    MissingWithin(db, tables, |tables|, cleanup);
    if missing != {} {
      var j :| j in missing;
      assert tables[j].name in Recorded(d) && tables[j].name !in d.tables by { NotMeta(tables[j].name); }
    } else if cleanup || forall x :: !Leftover(db, tables, x) {
      forall t | t in Recorded(d)
        ensures t in d.tables
      {
        if t in Names(tables) {
          var i :| 0 <= i < |tables| && tables[i].name == t;
        } else {
          assert !Leftover(db, tables, t);
        }
      }
    } else {
      var x :| Leftover(db, tables, x);
      assert x in Recorded(d) && x !in d.tables;
    }
  }

  // A run that commits leaves _meta and the tables in step exactly if all its tables come to exist, and so do,
  // without a cleanup, the recorded tables that it does not name.
  lemma InStepAfterIff(db: Db, tables: seq<TableConfig>, o: Options, hash: string, order: seq<string>)
    requires Sound(db) && WellNamed(tables) && !o.dryRun && Transaction(db, tables, o, hash, order).Ok?
    ensures InStep(Transaction(db, tables, o, hash, order).db)
            <==> AllMissing(EnsureMeta(db), tables, o.cleanup) == {}
                 && (o.cleanup || forall x :: !Leftover(db, tables, x))
  {
    StartSound(db);
    TransactionIff(db, tables, o, hash, order);
    MigratedInStepIff(EnsureMeta(db), Transaction(db, tables, o, hash, order).db, tables, o.cleanup);
    assert forall x :: Leftover(db, tables, x) <==> Leftover(EnsureMeta(db), tables, x);
  }

  // A run that commits keeps them in step exactly if no new table found its name taken.
  lemma StaysInStepIff(db: Db, tables: seq<TableConfig>, o: Options, hash: string, order: seq<string>)
    requires InStep(db) && WellNamed(tables) && !o.dryRun && Transaction(db, tables, o, hash, order).Ok?
    ensures InStep(Transaction(db, tables, o, hash, order).db) <==> AllMissing(EnsureMeta(db), tables, o.cleanup) == {}
  {
    InStepAfterIff(db, tables, o, hash, order);
  }

  lemma {:induction false} NoneMissingIff(db: Db, tables: seq<TableConfig>, n: nat, cleanup: bool)
    requires n <= |tables|
    ensures MissingUpTo(db, tables, n, cleanup) == {} <==> forall j | 0 <= j < n :: !Missing(db, tables, j, cleanup, {})
  {
    if n > 0 {
      NoneMissingIff(db, tables, n - 1, cleanup);
    }
  }

  // Neither a relation of the database nor one that an earlier table of the configuration brings has the name.
  predicate NameFree(db: Db, tables: seq<TableConfig>, j: nat)
    requires j < |tables|
  {
    var x := tables[j].name;
    x !in Relations(db) && forall k | 0 <= k < j :: x != PkeyName(tables[k].name) && x !in Desired(tables[k])
  }

  // In closed form, without a cleanup: every table exists, or is new and its name free.
  lemma NoneMissingWithout(db: Db, tables: seq<TableConfig>)
    ensures AllMissing(db, tables, false) == {}
            <==> forall j | 0 <= j < |tables| ::
                   tables[j].name in db.tables || (tables[j].name !in Rows(db) && NameFree(db, tables, j))
  {
    NoneMissingIff(db, tables, |tables|, false);
    forall j | 0 <= j < |tables|
      ensures !Missing(db, tables, j, false, {})
              <==> tables[j].name in db.tables || (tables[j].name !in Rows(db) && NameFree(db, tables, j))
    {
      var x := tables[j].name;
      assert PkeyUsed(tables, j, x, {}) <==> exists k | 0 <= k < j :: x == PkeyName(tables[k].name);
    }
  }

  lemma {:induction false} OwnerAfterNone(tables: seq<TableConfig>, n: nat, m: string)
    requires n <= |tables| && !StartsWith(m, "idx")
    ensures OwnerAfter(None, tables, n, m, false) == None
  {
    if n > 0 {
      OwnerAfterNone(tables, n - 1, m);
      DesiredIdx(tables[n - 1], |tables[n - 1].indexes|);
      if m in Desired(tables[n - 1]) {
        IdxPrefix(m);
        assert false;
      }
    }
  }

  // Neither a table nor a primary key index, there or brought by an earlier table, has the name.
  predicate KeyNameFree(db: Db, tables: seq<TableConfig>, j: nat)
    requires j < |tables|
  {
    var x := tables[j].name;
    x !in TableRelations(db) && forall k | 0 <= k < j :: x != PkeyName(tables[k].name)
  }

  lemma PlainMissingIff(db: Db, tables: seq<TableConfig>, j: nat)
    requires Sound(db) && j < |tables| && !StartsWith(tables[j].name, "idx")
    ensures Missing(db, tables, j, true, {}) <==>
              tables[j].name !in db.tables && (tables[j].name in Rows(db) || !KeyNameFree(db, tables, j))
  {
    var x := tables[j].name;
    if x in db.indexes {
      IdxPrefix(x);
      assert false;
    }
    OwnerAfterNone(tables, j, x);
    assert PkeyUsed(tables, j, x, {}) <==> exists k | 0 <= k < j :: x == PkeyName(tables[k].name);
  }

  // In closed form, for a cleanup whose names pass: no table is named idx..., and every table exists, or is new
  // and its name apart from tables and primary key indexes.
  lemma NoneMissingWith(db: Db, tables: seq<TableConfig>)
    requires Sound(db)
    requires forall j | 0 <= j < |tables| :: NamePasses(tables[j], j in AllMissing(db, tables, true), true)
    ensures AllMissing(db, tables, true) == {}
            <==> forall j | 0 <= j < |tables| ::
                   && !StartsWith(tables[j].name, "idx")
                   && (tables[j].name in db.tables || (tables[j].name !in Rows(db) && KeyNameFree(db, tables, j)))
  {
    NoneMissingIff(db, tables, |tables|, true);
    forall j | 0 <= j < |tables| && !StartsWith(tables[j].name, "idx")
      ensures Missing(db, tables, j, true, {}) <==>
                tables[j].name !in db.tables && (tables[j].name in Rows(db) || !KeyNameFree(db, tables, j))
    {
      PlainMissingIff(db, tables, j);
    }
  }
}
