/** All migration histories of a database that started empty. */
module Histories {
  import opened Text
  import opened Configs
  import opened Migrations
  import opened Reconciling
  import opened Leftovers
  import opened Collisions

  ghost function After(runs: seq<Run>): Db {
    if runs == [] then EMPTY_DB else NextDb(After(runs[..|runs| - 1]), runs[|runs| - 1])
  }

  ghost predicate AllWellNamed(runs: seq<Run>) {
    forall i | 0 <= i < |runs| :: WellNamed(runs[i].tables)
  }

  // Run k commits, and some table of its configuration does not come to exist.
  ghost predicate Collides(runs: seq<Run>, k: nat)
    requires k < |runs|
  {
    var db, r := After(runs[..k]), runs[k];
    Succeeds(db, r) && !r.o.dryRun && AllMissing(EnsureMeta(db), r.tables, r.o.cleanup) != {}
  }

  lemma AfterNext(runs: seq<Run>, k: nat)
    requires k < |runs|
    ensures After(runs[..k + 1]) == NextDb(After(runs[..k]), runs[k])
  {
    assert runs[..k + 1][..k] == runs[..k];
  }

  // Whatever runs fail or are dry runs, a history of validated configurations leads to a database that the results
  // about single runs cover.
  lemma {:induction false} HistorySound(runs: seq<Run>)
    requires AllWellNamed(runs)
    ensures Sound(After(runs))
  {
    if runs != [] {
      var db, r := After(runs[..|runs| - 1]), runs[|runs| - 1];
      HistorySound(runs[..|runs| - 1]);
      if Succeeds(db, r) && !r.o.dryRun {
        TransactionIff(db, r.tables, r.o, r.hash, r.order);
      }
    }
  }

  lemma NextInStepIff(runs: seq<Run>, k: nat)
    requires AllWellNamed(runs) && k < |runs| && InStep(After(runs[..k]))
    ensures InStep(After(runs[..k + 1])) <==> !Collides(runs, k)
  {
    var db, r := After(runs[..k]), runs[k];
    AfterNext(runs, k);
    if Succeeds(db, r) && !r.o.dryRun {
      StaysInStepIff(db, r.tables, r.o, r.hash, r.order);
    }
  }

  ghost predicate InStepUpTo(runs: seq<Run>, n: nat)
    requires n <= |runs|
  {
    forall k | 0 <= k <= n :: InStep(After(runs[..k]))
  }

  ghost predicate NoneCollides(runs: seq<Run>, n: nat)
    requires n <= |runs|
  {
    forall k | 0 <= k < n :: !Collides(runs, k)
  }

  lemma InStepUpToNext(runs: seq<Run>, n: nat)
    requires 0 < n <= |runs|
    ensures InStepUpTo(runs, n) <==> InStepUpTo(runs, n - 1) && InStep(After(runs[..n]))
    ensures InStepUpTo(runs, n - 1) ==> InStep(After(runs[..n - 1]))
    ensures NoneCollides(runs, n) <==> NoneCollides(runs, n - 1) && !Collides(runs, n - 1)
  {
  }

  // Whatever runs fail or are dry runs, _meta and the tables are in step throughout a history of validated
  // configurations exactly if no committed run lets a name collide.
  lemma {:induction false} HistoryInStepIff(runs: seq<Run>, n: nat)
    requires AllWellNamed(runs) && n <= |runs|
    ensures InStepUpTo(runs, n) <==> NoneCollides(runs, n)
  {
    if n == 0 {
      assert runs[..0] == [];
    } else {
      HistoryInStepIff(runs, n - 1);
      InStepUpToNext(runs, n);
      if InStepUpTo(runs, n - 1) {
        NextInStepIff(runs, n - 1);
      }
    }
  }

  // ---------- names that cannot collide ----------

  // A table name that no index or primary key index can have.
  predicate PlainName(name: string) {
    !StartsWith(name, "idx") && !EndsWith(name, "_pkey")
  }

  ghost predicate AllPlain(runs: seq<Run>) {
    forall i, j | 0 <= i < |runs| && 0 <= j < |runs[i].tables| :: PlainName(runs[i].tables[j].name)
  }

  lemma PlainNameFree(db: Db, tables: seq<TableConfig>, j: nat)
    requires InStep(db) && WellNamed(tables) && j < |tables| && PlainName(tables[j].name) && tables[j].name !in Rows(db)
    ensures NameFree(db, tables, j)
  {
    var x := tables[j].name;
    NotMeta(x);
    assert x[0] != '_' && PkeyName(META)[0] == '_';
    forall u ensures PkeyName(u) != x {
      assert PkeyName(u)[|PkeyName(u)| - 5..] == "_pkey";
    }
    forall m | m in db.indexes ensures m != x { IdxPrefix(m); }
    forall k, m | 0 <= k < j && m in Desired(tables[k]) ensures m != x {
      DesiredIdx(tables[k], |tables[k].indexes|);
      IdxPrefix(m);
    }
  }

  lemma PlainNotMissing(db: Db, tables: seq<TableConfig>, j: nat, cleanup: bool)
    requires InStep(db) && WellNamed(tables) && j < |tables| && PlainName(tables[j].name)
    ensures !Missing(db, tables, j, cleanup, {})
  {
    var x := tables[j].name;
    if x !in Rows(db) {
      PlainNameFree(db, tables, j);
      if cleanup {
        OwnerAfterNone(tables, j, x);
      }
    }
  }

  lemma PlainNoneMissing(db: Db, tables: seq<TableConfig>, cleanup: bool)
    requires InStep(db) && WellNamed(tables) && forall j | 0 <= j < |tables| :: PlainName(tables[j].name)
    ensures AllMissing(db, tables, cleanup) == {}
  {
    forall j | 0 <= j < |tables| ensures !Missing(db, tables, j, cleanup, {}) {
      PlainNotMissing(db, tables, j, cleanup);
    }
    NoneMissingIff(db, tables, |tables|, cleanup);
  }

  // With table names that neither start with idx nor end with _pkey, every history stays in step.
  lemma {:induction false} HistoryInStep(runs: seq<Run>, n: nat)
    requires AllWellNamed(runs) && AllPlain(runs) && n <= |runs|
    ensures InStep(After(runs[..n]))
  {
    if n == 0 {
      assert runs[..0] == [];
    } else {
      var db, r := After(runs[..n - 1]), runs[n - 1];
      HistoryInStep(runs, n - 1);
      StartSound(db);
      PlainNoneMissing(EnsureMeta(db), r.tables, r.o.cleanup);
      NextInStepIff(runs, n - 1);
    }
  }

  // ---------- recorded key fields ----------

  // d still has every row and table of db.
  ghost predicate Extends(db: Db, d: Db) {
    && db.tables.Keys <= d.tables.Keys
    && forall name | name in Rows(db) :: name in Rows(d) && Rows(d)[name] == Rows(db)[name]
  }

  lemma {:induction false} ReconcileAllExtends(db: Db, tables: seq<TableConfig>, n: nat, o: Options)
    requires db.meta.Some? && n <= |tables| && ReconcileAll(db, tables, n, o).Ok?
    ensures Extends(db, ReconcileAll(db, tables, n, o).db)
  {
    if n > 0 {
      ReconcileAllExtends(db, tables, n - 1, o);
      ReconcileExtends(ReconcileAll(db, tables, n - 1, o).db, tables[n - 1], o);
    }
  }

  lemma ReconcileExtends(db: Db, t: TableConfig, o: Options)
    requires db.meta.Some? && ReconcileTable(db, t, o).Ok?
    ensures Extends(db, ReconcileTable(db, t, o).db)
  {
  }

  // The run is a successful cleanup of a configuration without the table.
  ghost predicate Removes(db: Db, r: Run, name: string) {
    Succeeds(db, r) && !r.o.dryRun && r.o.cleanup && name !in Names(r.tables)
  }

  lemma RunStep(db: Db, r: Run, name: string)
    requires name in Rows(db) && name != META
    ensures name in Rows(NextDb(db, r)) <==> !Removes(db, r, name)
    ensures name in Rows(NextDb(db, r)) ==> Rows(NextDb(db, r))[name] == Rows(db)[name]
    ensures name in db.tables && !Removes(db, r, name) ==> name in NextDb(db, r).tables
  {
    if Succeeds(db, r) && !r.o.dryRun {
      var start := EnsureMeta(db);
      ReconcileAllExtends(start, r.tables, |r.tables|, r.o);
      var reconciled := ReconcileAll(start, r.tables, |r.tables|, r.o).db;
      if r.o.cleanup {
        CleanupDrops(reconciled, Names(r.tables), r.o, r.order);
      }
    }
  }

  // A row that is recorded is so still, with its key fields, and its table is there if it was.
  ghost predicate KeepsTable(db: Db, d: Db, name: string)
    requires name in Rows(db)
  {
    name in Rows(d) && Rows(d)[name] == Rows(db)[name] && (name in db.tables ==> name in d.tables)
  }

  // What every step keeps, they keep together.
  lemma {:induction false} KeepsTableAlong(state: nat -> Db, i: nat, j: nat, name: string)
    requires i <= j && name in Rows(state(i))
    requires forall k: nat, l: nat | i <= k && l == k + 1 && l <= j && name in Rows(state(k)) ::
               KeepsTable(state(k), state(l), name)
    ensures KeepsTable(state(i), state(j), name)
    decreases j
  {
    if i < j {
      KeepsTableAlong(state, i, j - 1, name);
      assert KeepsTable(state(j - 1), state(j), name);
    }
  }

  lemma RunKeeps(runs: seq<Run>, k: nat, name: string)
    requires k < |runs| && name != META && name in Rows(After(runs[..k])) && !Removes(After(runs[..k]), runs[k], name)
    ensures KeepsTable(After(runs[..k]), After(runs[..k + 1]), name)
  {
    AfterNext(runs, k);
    RunStep(After(runs[..k]), runs[k], name);
  }

  // In any history, a recorded table keeps its key fields and stays in place until a successful cleanup
  // of a configuration without it.
  lemma KeyFieldsFixed(runs: seq<Run>, i: nat, j: nat, name: string)
    requires i <= j <= |runs| && name != META && name in Rows(After(runs[..i]))
    requires forall k | i <= k < j :: !Removes(After(runs[..k]), runs[k], name)
    ensures KeepsTable(After(runs[..i]), After(runs[..j]), name)
  {
    var state := (k: nat) => if k <= |runs| then After(runs[..k]) else EMPTY_DB;
    forall k: nat, l: nat | i <= k && l == k + 1 && l <= j && name in Rows(state(k))
      ensures KeepsTable(state(k), state(l), name)
    {
      RunKeeps(runs, k, name);
    }
    KeepsTableAlong(state, i, j, name);
  }
}
