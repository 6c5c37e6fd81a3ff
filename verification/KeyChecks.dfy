/** What a migration records of a configuration, and which changes it refuses, read off the configuration. */
module KeyChecks {
  import opened Configs
  import opened Migrations
  import opened Reconciling
  import opened Leftovers
  import opened Collisions
  import opened DryRuns
  import opened Histories

  // ---------- key fields ----------

  // A run that commits leaves of each of its tables the names of its key fields, none for a range key that it
  // lacks; and the table, if it exists, has a range part exactly if it has a range key.
  lemma RecordsKeys(db: Db, tables: seq<TableConfig>, o: Options, hash: string, order: seq<string>, j: nat)
    requires Sound(db) && WellNamed(tables) && !o.dryRun && j < |tables|
    requires Transaction(db, tables, o, hash, order).Ok?
    ensures var d, t := Transaction(db, tables, o, hash, order).db, tables[j];
            && t.name in Rows(d) && Rows(d)[t.name].KeyFields?
            && Rows(d)[t.name].pkField == t.primaryKey.field
            && (t.rangeKey.Some? ==> Rows(d)[t.name].rkField == t.rangeKey.value.field)
            && (t.rangeKey.None? ==> Rows(d)[t.name].rkField == "")
            && (t.name in d.tables ==> (d.tables[t.name] <==> t.rangeKey.Some?))
  {
    TransactionIff(db, tables, o, hash, order);
    assert TableNamed(tables[j]);
  }

  // The table is recorded with another primary key field, another range key field, or the one without the other.
  predicate Changes(db: Db, t: TableConfig) {
    && t.name in Rows(db) && Rows(db)[t.name].KeyFields?
    && (|| Rows(db)[t.name].pkField != t.primaryKey.field
        || (t.rangeKey.Some? && Rows(db)[t.name].rkField != t.rangeKey.value.field)
        || (t.rangeKey.None? && Rows(db)[t.name].rkField != ""))
  }

  lemma ChangesIff(db: Db, t: TableConfig)
    requires Sound(db) && TableNamed(t)
    ensures Changes(db, t) <==> !KeyKept(db, t)
  {
    NotMeta(t.name);
  }

  lemma ChangeRefused(db: Db, t: TableConfig, o: Options)
    requires Sound(db) && db.meta.Some? && TableNamed(t) && Changes(db, t)
    ensures ReconcileTable(db, t, o).Err?
  {
    ChangesIff(db, t);
  }

  // From any sound database, a run fails if it changes a key field, be it a dry run or not. Otherwise a dry run
  // succeeds, and the run itself fails exactly for the names.
  lemma RunIff(db: Db, tables: seq<TableConfig>, o: Options, hash: string, order: seq<string>)
    requires Sound(db) && WellNamed(tables)
    ensures var start := EnsureMeta(db);
            var missing := AllMissing(start, tables, o.cleanup);
            Transaction(db, tables, o, hash, order).Ok? <==>
              && (forall j | 0 <= j < |tables| :: !Changes(db, tables[j]))
              && (!o.dryRun ==>
                    && (forall j | 0 <= j < |tables| :: NamePasses(tables[j], j in missing, o.cleanup))
                    && (o.cleanup ==> AllReleased(start, tables, missing, DropList(start, tables, order))))
  {
    StartSound(db);
    forall j | 0 <= j < |tables|
      ensures Changes(db, tables[j]) <==> !KeyKept(db, tables[j])
      ensures KeyKept(db, tables[j]) <==> KeyKept(EnsureMeta(db), tables[j])
    {
      ChangesIff(db, tables[j]);
    }
    if o.dryRun {
      DryReconcileAll(EnsureMeta(db), tables, |tables|, o);
    } else {
      TransactionIff(db, tables, o, hash, order);
    }
  }

  // Once a run of any history has committed a table, no run succeeds that has the table with other key fields,
  // unless a cleanup of a configuration without the table came between.
  lemma CommittedKeysBind(runs: seq<Run>, i: nat, j: nat, m: nat, n: nat)
    requires AllWellNamed(runs) && i < j < |runs| && Succeeds(After(runs[..i]), runs[i]) && !runs[i].o.dryRun
    requires m < |runs[i].tables| && n < |runs[j].tables| && runs[i].tables[m].name == runs[j].tables[n].name
    requires forall k | i < k < j :: !Removes(After(runs[..k]), runs[k], runs[i].tables[m].name)
    requires var t, u := runs[i].tables[m], runs[j].tables[n];
             || t.primaryKey.field != u.primaryKey.field
             || (t.rangeKey.Some? && u.rangeKey.Some? && t.rangeKey.value.field != u.rangeKey.value.field)
             || t.rangeKey.Some? != u.rangeKey.Some?
    ensures !Succeeds(After(runs[..j]), runs[j])
  {
    var before, r, t := After(runs[..i]), runs[i], runs[i].tables[m];
    assert AllWellNamed(runs[..i]) && AllWellNamed(runs[..j]);
    HistorySound(runs[..i]);
    HistorySound(runs[..j]);
    AfterNext(runs, i);
    RecordsKeys(before, r.tables, r.o, r.hash, r.order, m);
    assert TableNamed(t) && TableNamed(runs[j].tables[n]);
    NotMeta(t.name);
    KeyFieldsFixed(runs, i + 1, j, t.name);
    var db, last := After(runs[..j]), runs[j];
    assert Changes(db, last.tables[n]);
    RunIff(db, last.tables, last.o, last.hash, last.order);
  }

  // ---------- definitions of indexes ----------

  // The index is that of idx on t: its name, its table and its fields.
  predicate IsIndexOf(m: string, def: IndexDef, t: TableConfig, idx: IndexConfig) {
    && m == "idx_" + t.name + "_" + idx.name
    && def.table == t.name && def.pkField == idx.primaryKey.field
    && (def.rkField.Some? <==> idx.rangeKey.Some?)
    && (def.rkField.Some? && idx.rangeKey.Some? ==> def.rkField.value == idx.rangeKey.value.field)
  }

  // Among the first n tables is one that configures the index.
  ghost predicate Configured(m: string, def: IndexDef, tables: seq<TableConfig>, n: nat)
    requires n <= |tables|
  {
    exists i, k | 0 <= i < n && 0 <= k < |tables[i].indexes| :: IsIndexOf(m, def, tables[i], tables[i].indexes[k])
  }

  // Every index of d is in db with the same definition, or was made.
  ghost predicate KeptOrMade(db: Db, d: Db, made: (string, IndexDef) -> bool) {
    forall m | m in d.indexes :: (m in db.indexes && d.indexes[m] == db.indexes[m]) || made(m, d.indexes[m])
  }

  ghost function MadeOn(t: TableConfig): (string, IndexDef) -> bool {
    (m: string, def: IndexDef) => exists k | 0 <= k < |t.indexes| :: IsIndexOf(m, def, t, t.indexes[k])
  }

  ghost function MadeFor(tables: seq<TableConfig>, n: nat): (string, IndexDef) -> bool {
    (m: string, def: IndexDef) => n <= |tables| && Configured(m, def, tables, n)
  }

  lemma IndexMade(t: TableConfig, k: nat)
    requires k < |t.indexes|
    ensures IsIndexOf(IndexName(t, t.indexes[k]), DefinitionOf(t, t.indexes[k]), t, t.indexes[k])
  {
  }

  lemma {:induction false} CreateIndexesMade(db: Db, t: TableConfig, n: nat)
    requires n <= |t.indexes| && CreateIndexes(db, t, n).Ok?
    ensures KeptOrMade(db, CreateIndexes(db, t, n).db, MadeOn(t))
  {
    if n > 0 {
      CreateIndexesMade(db, t, n - 1);
      IndexMade(t, n - 1);
    }
  }

  lemma ReconcileMade(db: Db, t: TableConfig, o: Options)
    requires db.meta.Some? && ReconcileTable(db, t, o).Ok?
    ensures KeptOrMade(db, ReconcileTable(db, t, o).db, MadeOn(t))
  {
    if !o.dryRun {
      CreateIndexesMade(WithTable(db, t), t, |t.indexes|);
    }
  }

  lemma {:induction false} ReconcileAllMade(db: Db, tables: seq<TableConfig>, n: nat, o: Options)
    requires db.meta.Some? && n <= |tables| && ReconcileAll(db, tables, n, o).Ok?
    ensures KeptOrMade(db, ReconcileAll(db, tables, n, o).db, MadeFor(tables, n))
  {
    if n > 0 {
      var before, d := ReconcileAll(db, tables, n - 1, o).db, ReconcileAll(db, tables, n, o).db;
      ReconcileAllMade(db, tables, n - 1, o);
      ReconcileMade(before, tables[n - 1], o);
      forall m | m in d.indexes
        ensures (m in db.indexes && d.indexes[m] == db.indexes[m]) || MadeFor(tables, n)(m, d.indexes[m])
      {
        if MadeOn(tables[n - 1])(m, d.indexes[m]) {
          var t := tables[n - 1];
          var k :| 0 <= k < |t.indexes| && IsIndexOf(m, d.indexes[m], t, t.indexes[k]);
          assert Configured(m, d.indexes[m], tables, n);
        } else {
          assert m in before.indexes && d.indexes[m] == before.indexes[m];
        }
      }
    }
  }

  // From any database, each index after a run was there with the same definition, or is one that the configuration
  // asks for, by its name, on its table and over its fields.
  lemma IndexesAsConfigured(db: Db, tables: seq<TableConfig>, o: Options, hash: string, order: seq<string>, m: string)
    requires Transaction(db, tables, o, hash, order).Ok? && m in Transaction(db, tables, o, hash, order).db.indexes
    ensures var d := Transaction(db, tables, o, hash, order).db;
            || (m in db.indexes && d.indexes[m] == db.indexes[m])
            || exists i, k | 0 <= i < |tables| && 0 <= k < |tables[i].indexes| ::
                 IsIndexOf(m, d.indexes[m], tables[i], tables[i].indexes[k])
  {
    var start, d := EnsureMeta(db), Transaction(db, tables, o, hash, order).db;
    var reconciled := ReconcileAll(start, tables, |tables|, o).db;
    ReconcileAllMade(start, tables, |tables|, o);
    if o.cleanup && !o.dryRun {
      CleanupDrops(reconciled, Names(tables), o, order);
    }
    assert m in reconciled.indexes && d.indexes[m] == reconciled.indexes[m];
    assert MadeFor(tables, |tables|)(m, d.indexes[m]) ==> Configured(m, d.indexes[m], tables, |tables|);
  }

  // The definitions that a history leads to are those of configurations that it ran.
  lemma {:induction false} IndexesOfHistory(runs: seq<Run>, m: string)
    requires m in After(runs).indexes
    ensures exists r, i, k | r in runs && 0 <= i < |r.tables| && 0 <= k < |r.tables[i].indexes| ::
              IsIndexOf(m, After(runs).indexes[m], r.tables[i], r.tables[i].indexes[k])
  {
    var init, r := runs[..|runs| - 1], runs[|runs| - 1];
    var db, d := After(init), After(runs);
    if Succeeds(db, r) && !r.o.dryRun {
      IndexesAsConfigured(db, r.tables, r.o, r.hash, r.order, m);
    }
    if m in db.indexes && d.indexes[m] == db.indexes[m] {
      IndexesOfHistory(init, m);
      var q, i, k :| q in init && 0 <= i < |q.tables| && 0 <= k < |q.tables[i].indexes|
                     && IsIndexOf(m, db.indexes[m], q.tables[i], q.tables[i].indexes[k]);
      assert q in runs;
    } else {
      var i, k :| 0 <= i < |r.tables| && 0 <= k < |r.tables[i].indexes|
                  && IsIndexOf(m, d.indexes[m], r.tables[i], r.tables[i].indexes[k]);
    }
  }
}
