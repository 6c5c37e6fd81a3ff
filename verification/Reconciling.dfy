/** What one run of the migration does to _meta, the tables and the indexes, one table after the other. */
module Reconciling {
  import opened Text
  import opened Configs
  import opened LikePatterns
  import opened Migrations

  // What validation guarantees of the names and keys of a configuration.
  predicate WellNamed(tables: seq<TableConfig>) {
    && (forall i | 0 <= i < |tables| :: TableNamed(tables[i]))
    && UniqueTableNames(tables)
  }

  predicate TableNamed(t: TableConfig) {
    NameOk(t.name) && KeysDefined(t) && forall i | 0 <= i < |t.indexes| :: NameOk(t.indexes[i].name)
  }

  // ---------- _meta and the physical tables ----------

  function Rows(db: Db): map<string, MetaRow> {
    match db.meta case Some(rows) => rows case None => map[]
  }

  // The tables that _meta records.
  function Recorded(db: Db): set<string> { Rows(db).Keys - {META} }

  // Every table is recorded, with the range part it has; every index is on a table and named idx_...
  ghost predicate Sound(db: Db) {
    && (META in Rows(db) ==> Rows(db)[META].ConfigHash?)
    && (forall t | t in Recorded(db) :: NameOk(t) && Rows(db)[t].KeyFields?)
    && (forall t | t in db.tables :: t in Recorded(db) && (db.tables[t] <==> Rows(db)[t].rkField != ""))
    && (forall n | n in db.indexes :: db.indexes[n].table in db.tables && StartsWith(n, "idx_"))
  }

  // Moreover every table that is recorded exists.
  ghost predicate InStep(db: Db) {
    Sound(db) && Recorded(db) == db.tables.Keys
  }

  lemma IdxPrefix(n: string)
    requires StartsWith(n, "idx_")
    ensures StartsWith(n, "idx") && n[0] == 'i' && n != META && n != PkeyName(META)
  {
    assert n[..3] == n[..4][..3] == "idx";
    assert n[0] == n[..4][0];
  }

  lemma PkeyIdx(t: string)
    ensures StartsWith(PkeyName(t), "idx") <==> StartsWith(t, "idx")
  {
    var p := PkeyName(t);
    assert |t| >= 3 ==> p[..3] == t[..3];
    assert |t| < 3 ==> p[..3][|t|] == '_';
    assert "idx"[0] != '_' && "idx"[1] != '_' && "idx"[2] != '_';
  }

  lemma IndexNameIdx(t: TableConfig, idx: IndexConfig)
    ensures StartsWith(IndexName(t, idx), "idx_")
  {
    var n := IndexName(t, idx);
    assert n == "idx_" + (t.name + "_" + idx.name);
    assert n[..4] == "idx_";
  }

  // LIKE 'idx_%' finds exactly the longer names that start with idx: the underscore stands for any character.
  lemma LikeIdxWide(n: string)
    requires StartsWith(n, "idx") && |n| > 3
    ensures Like(n, "idx_%")
  {
    assert n[..3] == "idx";
    assert n[0] == n[..3][0] && n[1] == n[..3][1] && n[2] == n[..3][2];
    LikeAnything(n[4..]);
    assert n[3..][1..] == n[4..] && "_%"[1..] == "%";
    assert Like(n[3..], "_%");
    assert n[2..][1..] == n[3..] && "x_%"[1..] == "_%";
    assert Like(n[2..], "x_%");
    assert n[1..][1..] == n[2..] && "dx_%"[1..] == "x_%";
    assert Like(n[1..], "dx_%");
    assert "idx_%"[1..] == "dx_%";
  }

  lemma LikeIdxOnly(n: string)
    requires Like(n, "idx_%")
    ensures StartsWith(n, "idx")
  {
    assert "idx_%"[1..] == "dx_%" && "dx_%"[1..] == "x_%" && "x_%"[1..] == "_%";
    assert n != "" && n[0] == 'i' && Like(n[1..], "dx_%");
    assert n[1..] != "" && n[1] == 'd' && Like(n[1..][1..], "x_%");
    assert n[1..][1..] != "" && n[2] == 'x';
    assert n[..3] == "idx";
  }

  // ---------- one table ----------

  // The table exists once it has been reconciled: it did before, or it is new and its name is free.
  predicate Backed(db: Db, t: TableConfig) {
    t.name in db.tables || (t.name !in Rows(db) && t.name !in Relations(db))
  }

  // The recorded key fields are others, or the table has indexes but does not come to exist, or its
  // index cleanup finds its primary key index.
  predicate Fails(db: Db, t: TableConfig, cleanup: bool) {
    || (t.name in Rows(db) && AsKeyFields(Rows(db)[t.name]) != MetaOf(t))
    || (if Backed(db, t) then cleanup && StartsWith(t.name, "idx") else t.indexes != [])
  }

  // db with the table of t recorded and created, if it was not.
  function WithTable(db: Db, t: TableConfig): Db
    requires db.meta.Some?
  {
    if t.name in db.meta.value then db else CreateTable(db, t).(meta := Some(db.meta.value[t.name := MetaOf(t)]))
  }

  lemma NotMeta(name: string)
    requires NameOk(name)
    ensures name != META
  {
    assert name[0] != '_';
  }

  lemma WithTableSound(db: Db, t: TableConfig)
    requires Sound(db) && db.meta.Some? && TableNamed(t)
    requires t.name in Rows(db) ==> AsKeyFields(Rows(db)[t.name]) == MetaOf(t)
    ensures var d := WithTable(db, t);
            && Sound(d) && d.indexes == db.indexes && d.meta == Some(db.meta.value[t.name := MetaOf(t)])
            && d.tables == (if Backed(db, t) then db.tables[t.name := t.rangeKey.Some?] else db.tables)
            && (t.name in d.tables <==> Backed(db, t))
  {
    NotMeta(t.name);
    if t.name in db.meta.value {
      assert db.meta.value[t.name] == MetaOf(t) by {
        assert t.primaryKey.field != "";
      }
      assert db.meta.value == db.meta.value[t.name := MetaOf(t)];
      assert t.name in db.tables ==> db.tables == db.tables[t.name := t.rangeKey.Some?];
    }
  }

  // ---------- its indexes ----------

  // d is db with the indexes of these names that it lacked, except the names that tables had, on one table.
  ghost predicate Grown(db: Db, d: Db, table: string, names: set<string>) {
    && d.meta == db.meta && d.tables == db.tables
    && d.indexes.Keys == db.indexes.Keys + (names - TableRelations(db))
    && forall m | m in d.indexes ::
         if m in db.indexes then d.indexes[m] == db.indexes[m] else d.indexes[m].table == table
  }

  lemma GrownSound(db: Db, d: Db, table: string, names: set<string>)
    requires Sound(db) && Grown(db, d, table, names) && table in db.tables
    requires forall m | m in names :: StartsWith(m, "idx_")
    ensures Sound(d)
  {
  }

  lemma DesiredIdx(t: TableConfig, n: nat)
    requires n <= |t.indexes|
    ensures forall m | m in DesiredUpTo(t, n) :: StartsWith(m, "idx_")
  {
    forall i | 0 <= i < n ensures StartsWith(IndexName(t, t.indexes[i]), "idx_") { IndexNameIdx(t, t.indexes[i]); }
  }

  lemma GrownByOne(db: Db, d: Db, t: TableConfig, idx: IndexConfig, names: set<string>)
    requires Grown(db, d, t.name, names) && t.name in d.tables
    ensures CreateIndex(d, t, idx).Ok? && Grown(db, CreateIndex(d, t, idx).db, t.name, names + {IndexName(t, idx)})
  {
  }

  lemma {:induction false} CreateIndexesGrows(db: Db, t: TableConfig, n: nat)
    requires n <= |t.indexes| && t.name in db.tables
    ensures CreateIndexes(db, t, n).Ok? && Grown(db, CreateIndexes(db, t, n).db, t.name, DesiredUpTo(t, n))
  {
    if n == 0 {
      assert DesiredUpTo(t, 0) == {};
    } else {
      CreateIndexesGrows(db, t, n - 1);
      var before, name := CreateIndexes(db, t, n - 1).db, IndexName(t, t.indexes[n - 1]);
      assert DesiredUpTo(t, n) == DesiredUpTo(t, n - 1) + {name};
      GrownByOne(db, before, t, t.indexes[n - 1], DesiredUpTo(t, n - 1));
    }
  }

  // An index cannot be created on a table that does not exist.
  lemma {:induction false} CreateIndexesFailsIff(db: Db, t: TableConfig, n: nat)
    requires n <= |t.indexes| && t.name !in db.tables && forall m | m in db.indexes :: db.indexes[m].table in db.tables
    ensures CreateIndexes(db, t, n) == if n == 0 then Ok(db) else Err
  {
    if n > 0 {
      CreateIndexesFailsIff(db, t, n - 1);
    }
  }

  // Cleaning up the indexes of a table fails exactly if its name makes LIKE find its primary key index.
  lemma DropStaleFailsIff(d: Db, t: TableConfig)
    requires t.name in d.tables && forall i | 0 <= i < |t.indexes| :: NameOk(t.indexes[i].name)
    ensures DropStale(d, t).Err? <==> StartsWith(t.name, "idx")
  {
    var p := PkeyName(t.name);
    if Like(p, "idx_%") {
      LikeIdxOnly(p);
    }
    PkeyIdx(t.name);
    if StartsWith(t.name, "idx") {
      LikeIdxWide(p);
      forall i | 0 <= i < |t.indexes|
        ensures IndexName(t, t.indexes[i]) != p
      {
        assert |IndexName(t, t.indexes[i])| == |t.name| + 5 + |t.indexes[i].name|;
      }
    }
  }

  // The table that has an index of this name.
  function Owner(db: Db, m: string): Option<string> {
    if m in db.indexes then Some(db.indexes[m].table) else None
  }

  // What reconciling a table does to the owner of an index name; blocked tells that a table or a
  // primary key index has the name.
  function OwnerStep(owner: Option<string>, t: TableConfig, m: string, cleanup: bool, blocked: bool): Option<string> {
    if m in Desired(t) then (if owner.None? && !blocked then Some(t.name) else owner)
    else if cleanup && owner == Some(t.name) then None
    else owner
  }

  lemma StaleOwner(d: Db, t: TableConfig, m: string)
    requires Sound(d)
    ensures m in Stale(d, t) <==> Owner(d, m) == Some(t.name) && m !in Desired(t)
  {
    if m in d.indexes {
      IdxPrefix(m);
      LikeIdxWide(m);
    }
  }

  // ---------- one table reconciled ----------

  predicate TablesAdded(db: Db, d: Db, t: TableConfig) {
    d.tables == if Backed(db, t) then db.tables[t.name := t.rangeKey.Some?] else db.tables
  }

  ghost predicate Reconciled(db: Db, d: Db, t: TableConfig, cleanup: bool)
    requires db.meta.Some?
  {
    && Sound(d)
    && d.meta == Some(db.meta.value[t.name := MetaOf(t)])
    && TablesAdded(db, d, t)
    && forall m :: Owner(d, m) == OwnerStep(Owner(db, m), t, m, cleanup, m in TableRelations(d))
  }

  lemma GrownOwner(db: Db, d: Db, t: TableConfig, m: string)
    requires Grown(db, d, t.name, Desired(t))
    ensures Owner(d, m) == OwnerStep(Owner(db, m), t, m, false, m in TableRelations(db))
  {
  }

  lemma StaleDropped(db: Db, grown: Db, t: TableConfig, m: string)
    requires Sound(grown) && Grown(db, grown, t.name, Desired(t))
    ensures Owner(grown.(indexes := grown.indexes - Stale(grown, t)), m)
            == OwnerStep(Owner(db, m), t, m, true, m in TableRelations(db))
  {
    GrownOwner(db, grown, t, m);
    StaleOwner(grown, t, m);
  }

  lemma IndexesReconciled(db: Db, t: TableConfig, o: Options)
    requires Sound(db) && TableNamed(t) && !o.dryRun && t.name in db.tables
    ensures var r := ReconcileIndexes(db, t, o);
            && (r.Ok? <==> !(o.cleanup && StartsWith(t.name, "idx")))
            && (r.Ok? ==>
                  && Sound(r.db)
                  && forall m :: Owner(r.db, m) == OwnerStep(Owner(db, m), t, m, o.cleanup, m in TableRelations(db)))
  {
    CreateIndexesGrows(db, t, |t.indexes|);
    var grown := CreateIndexes(db, t, |t.indexes|).db;
    DesiredIdx(t, |t.indexes|);
    GrownSound(db, grown, t.name, Desired(t));
    if o.cleanup {
      DropStaleFailsIff(grown, t);
    }
    forall m
      ensures ReconcileIndexes(db, t, o).Ok? ==>
                Owner(ReconcileIndexes(db, t, o).db, m)
                == OwnerStep(Owner(db, m), t, m, o.cleanup, m in TableRelations(db))
    {
      GrownOwner(db, grown, t, m);
      StaleDropped(db, grown, t, m);
    }
  }

  // Without the table only an empty list of indexes can be reconciled, and nothing happens.
  lemma NoTableReconciled(db: Db, t: TableConfig, o: Options)
    requires Sound(db) && !o.dryRun && t.name !in db.tables
    ensures ReconcileIndexes(db, t, o) == if t.indexes == [] then Ok(db) else Err
  {
    CreateIndexesFailsIff(db, t, |t.indexes|);
    if t.indexes == [] {
      assert Stale(db, t) == {};
      assert db.indexes - {} == db.indexes;
    }
  }

  // Reconciling a table of a validated configuration fails exactly for the three reasons.
  lemma ReconcileIff(db: Db, t: TableConfig, o: Options)
    requires Sound(db) && db.meta.Some? && TableNamed(t) && !o.dryRun
    ensures var r := ReconcileTable(db, t, o);
            (r.Err? <==> Fails(db, t, o.cleanup)) && (r.Ok? ==> Reconciled(db, r.db, t, o.cleanup))
  {
    if t.name in Rows(db) ==> AsKeyFields(Rows(db)[t.name]) == MetaOf(t) {
      WithTableSound(db, t);
      var with := WithTable(db, t);
      assert ReconcileTable(db, t, o) == ReconcileIndexes(with, t, o);
      if Backed(db, t) {
        IndexesReconciled(with, t, o);
      } else {
        NoTableReconciled(with, t, o);
      }
    }
  }

  // ---------- all tables ----------

  function RowsAfter(rows: map<string, MetaRow>, tables: seq<TableConfig>, n: nat): map<string, MetaRow>
    requires n <= |tables|
  {
    if n == 0 then rows else RowsAfter(rows, tables, n - 1)[tables[n - 1].name := MetaOf(tables[n - 1])]
  }

  // rows is what recording the first n tables makes of was.
  ghost predicate RecordedRows(was: map<string, MetaRow>, rows: map<string, MetaRow>, tables: seq<TableConfig>, n: nat)
    requires n <= |tables|
  {
    && (forall name :: name in rows <==> name in was || name in NamesUpTo(tables, n))
    && (forall i | 0 <= i < n :: rows[tables[i].name] == MetaOf(tables[i]))
    && (forall name | name in was && name !in NamesUpTo(tables, n) :: rows[name] == was[name])
  }

  lemma NameNew(tables: seq<TableConfig>, n: nat)
    requires n < |tables| && UniqueTableNames(tables)
    ensures tables[n].name !in NamesUpTo(tables, n)
    ensures NamesUpTo(tables, n + 1) == NamesUpTo(tables, n) + {tables[n].name}
  {
  }

  lemma {:induction false} RowsAfterIs(was: map<string, MetaRow>, tables: seq<TableConfig>, n: nat)
    requires n <= |tables| && UniqueTableNames(tables)
    ensures RecordedRows(was, RowsAfter(was, tables, n), tables, n)
  {
    if n > 0 {
      RowsAfterIs(was, tables, n - 1);
      NameNew(tables, n - 1);
      RowsOneMore(was, RowsAfter(was, tables, n - 1), tables, n - 1);
    }
  }

  lemma RowsOneMore(was: map<string, MetaRow>, rows: map<string, MetaRow>, tables: seq<TableConfig>, n: nat)
    requires n < |tables| && RecordedRows(was, rows, tables, n)
    requires tables[n].name !in NamesUpTo(tables, n)
        && NamesUpTo(tables, n + 1) == NamesUpTo(tables, n) + {tables[n].name}
    ensures RecordedRows(was, rows[tables[n].name := MetaOf(tables[n])], tables, n + 1)
  {
    forall i | 0 <= i < n ensures tables[i].name in NamesUpTo(tables, n) && tables[i].name != tables[n].name {}
  }

  // What has become of the owner of an index name after the first n tables of a cleanup run.
  function OwnerAfter(owner: Option<string>, tables: seq<TableConfig>, n: nat, m: string, blocked: bool): Option<string>
    requires n <= |tables|
  {
    if n == 0 then owner else OwnerStep(OwnerAfter(owner, tables, n - 1, m, blocked), tables[n - 1], m, true, blocked)
  }

  // d is what reconciling the first n tables makes of db.
  ghost predicate ReconciledAll(db: Db, d: Db, tables: seq<TableConfig>, n: nat)
    requires db.meta.Some? && n <= |tables|
  {
    && Sound(d)
    && d.meta == Some(RowsAfter(db.meta.value, tables, n))
    && db.tables.Keys <= d.tables.Keys <= db.tables.Keys + NamesUpTo(tables, n)
  }

  lemma {:induction false} ReconcileAllSound(db: Db, tables: seq<TableConfig>, n: nat, o: Options)
    requires Sound(db) && db.meta.Some? && WellNamed(tables) && n <= |tables| && !o.dryRun
    ensures ReconcileAll(db, tables, n, o).Ok? ==> ReconciledAll(db, ReconcileAll(db, tables, n, o).db, tables, n)
  {
    if n > 0 {
      ReconcileAllSound(db, tables, n - 1, o);
      var before := ReconcileAll(db, tables, n - 1, o);
      if before.Ok? {
        ReconcileIff(before.db, tables[n - 1], o);
        NameNew(tables, n - 1);
      }
    }
  }

  // A table is recorded and exists when it is reached exactly if it was recorded and existed at first.
  lemma ReachedRows(db: Db, d: Db, tables: seq<TableConfig>, n: nat)
    requires db.meta.Some? && n < |tables| && UniqueTableNames(tables) && ReconciledAll(db, d, tables, n)
    ensures var name := tables[n].name;
            && (name in Rows(d) <==> name in Rows(db)) && (name in Rows(db) ==> Rows(d)[name] == Rows(db)[name])
            && (name in d.tables <==> name in db.tables)
  {
    RowsAfterIs(db.meta.value, tables, n);
    NameNew(tables, n);
  }

  // ---------- index names in a cleanup run ----------

  // A cleanup creates no table named idx..., so it blocks no index name that was not blocked before.
  ghost predicate SameBlocks(db: Db, d: Db) {
    forall m | StartsWith(m, "idx") :: m in TableRelations(d) <==> m in TableRelations(db)
  }

  ghost predicate OwnersTracked(db: Db, d: Db, tables: seq<TableConfig>, n: nat)
    requires n <= |tables|
  {
    forall m :: Owner(d, m) == OwnerAfter(Owner(db, m), tables, n, m, m in TableRelations(db))
  }

  lemma BlocksStep(db: Db, d: Db, t: TableConfig)
    requires db.meta.Some? && Reconciled(db, d, t, true) && !Fails(db, t, true)
    ensures SameBlocks(db, d)
  {
    PkeyIdx(t.name);
  }

  lemma OwnersStep(db: Db, before: Db, d: Db, tables: seq<TableConfig>, n: nat)
    requires before.meta.Some? && n < |tables| && OwnersTracked(db, before, tables, n) && SameBlocks(db, d)
    requires Reconciled(before, d, tables[n], true)
    ensures OwnersTracked(db, d, tables, n + 1)
  {
    forall m
      ensures Owner(d, m) == OwnerAfter(Owner(db, m), tables, n + 1, m, m in TableRelations(db))
    {
      if m in Desired(tables[n]) {
        DesiredIdx(tables[n], |tables[n].indexes|);
        IdxPrefix(m);
      }
    }
  }

  lemma {:induction false} ReconcileAllOwners(db: Db, tables: seq<TableConfig>, n: nat, o: Options)
    requires Sound(db) && db.meta.Some? && WellNamed(tables) && n <= |tables| && !o.dryRun && o.cleanup
    ensures var r := ReconcileAll(db, tables, n, o);
            r.Ok? ==> OwnersTracked(db, r.db, tables, n) && SameBlocks(db, r.db)
  {
    if n > 0 {
      ReconcileAllOwners(db, tables, n - 1, o);
      var before := ReconcileAll(db, tables, n - 1, o);
      if before.Ok? {
        ReconcileAllSound(db, tables, n - 1, o);
        ReconcileIff(before.db, tables[n - 1], o);
        var r := ReconcileTable(before.db, tables[n - 1], o);
        if r.Ok? {
          BlocksStep(before.db, r.db, tables[n - 1]);
          OwnersStep(db, before.db, r.db, tables, n - 1);
        }
      }
    }
  }
}
