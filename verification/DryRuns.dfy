/** Dry runs: exactly when one predicts the run itself. And the collisions of names that happen. */
module DryRuns {
  import opened Text
  import opened Configs
  import opened Sequences
  import opened Migrations
  import opened Reconciling
  import opened Leftovers
  import opened Collisions

  // ---------- dry runs ----------

  lemma {:induction false} DryReconcileAll(db: Db, tables: seq<TableConfig>, n: nat, o: Options)
    requires db.meta.Some? && n <= |tables| && o.dryRun
    ensures ReconcileAll(db, tables, n, o) == if forall j | 0 <= j < n :: KeyKept(db, tables[j]) then Ok(db) else Err
  {
    if n > 0 {
      DryReconcileAll(db, tables, n - 1, o);
    }
  }

  // A dry run looks at key fields only. So it reports what the run itself would do, except exactly where
  // all keys are kept and some name gets in the way, of a configured table or of one to drop.
  lemma DryRunPredictsIff(db: Db, tables: seq<TableConfig>, cleanup: bool, hash: string, order: seq<string>)
    requires Sound(db) && WellNamed(tables)
    ensures var dry := Transaction(db, tables, Options(cleanup, true), hash, order);
            var actual := Transaction(db, tables, Options(cleanup, false), hash, order);
            var start := EnsureMeta(db);
            var missing := AllMissing(start, tables, cleanup);
            && (actual.Ok? ==> dry.Ok?)
            && ((dry.Ok? <==> actual.Ok?) <==>
                  ((forall j | 0 <= j < |tables| :: KeyKept(db, tables[j])) ==>
                     && (forall j | 0 <= j < |tables| :: NamePasses(tables[j], j in missing, cleanup))
                     && (cleanup ==> AllReleased(start, tables, missing, DropList(start, tables, order)))))
  {
    StartSound(db);
    DryReconcileAll(EnsureMeta(db), tables, |tables|, Options(cleanup, true));
    assert forall j | 0 <= j < |tables| :: KeyKept(db, tables[j]) <==> KeyKept(EnsureMeta(db), tables[j]);
    TransactionIff(db, tables, Options(cleanup, false), hash, order);
  }

  // ---------- collisions that happen ----------

  function Bare(name: string): TableConfig {
    TableConfig(name, KeyConfig("id", "^a$"), None, false, None, [])
  }

  function WithIndex(name: string, index: string): TableConfig {
    Bare(name).(indexes := [IndexConfig(index, KeyConfig("x", ""), None, None, false)])
  }

  const PAIR := [Bare("a"), Bare("a_pkey")]

  // _meta records a table that does not exist.
  function OutOfStep(hash: string): Db {
    Db(Some(map["a" := MetaOf(PAIR[0]), "a_pkey" := MetaOf(PAIR[1]), META := ConfigHash(hash)]), map["a" := false],
       map[])
  }

  lemma FirstOfPair()
    ensures ReconcileTable(EnsureMeta(EMPTY_DB), PAIR[0], Options(false, false))
            == Ok(Db(Some(map["a" := MetaOf(PAIR[0])]), map["a" := false], map[]))
  {
    Distinct();
  }

  lemma SecondOfPair()
    ensures ReconcileTable(Db(Some(map["a" := MetaOf(PAIR[0])]), map["a" := false], map[]), PAIR[1],
                           Options(false, false))
            == Ok(Db(Some(map["a" := MetaOf(PAIR[0]), "a_pkey" := MetaOf(PAIR[1])]), map["a" := false], map[]))
  {
    Distinct();
    assert PkeyName("a") in Relations(Db(Some(map["a" := MetaOf(PAIR[0])]), map["a" := false], map[]));
  }

  lemma OutOfStepSound(hash: string)
    ensures Sound(OutOfStep(hash)) && "a_pkey" in Rows(OutOfStep(hash)) && "a_pkey" !in OutOfStep(hash).tables
  {
    Distinct();
  }

  // A table is recorded but never created, its name being that of a primary key index ...
  lemma PkeyNameOutOfStep(hash: string, order: seq<string>)
    ensures WellNamed(PAIR) && Transaction(EMPTY_DB, PAIR, Options(false, false), hash, order) == Ok(OutOfStep(hash))
    ensures "a_pkey" in Rows(OutOfStep(hash)) && "a_pkey" !in OutOfStep(hash).tables
  {
    var o, start := Options(false, false), EnsureMeta(EMPTY_DB);
    FirstOfPair();
    SecondOfPair();
    assert ReconcileAll(start, PAIR, 0, o) == Ok(start);
    assert ReconcileAll(start, PAIR, 1, o) == ReconcileTable(start, PAIR[0], o);
    assert ReconcileAll(start, PAIR, 2, o) == ReconcileTable(ReconcileAll(start, PAIR, 1, o).db, PAIR[1], o);
    OutOfStepSound(hash);
    Distinct();
  }

  lemma Distinct()
    ensures "a" != "a_pkey" && "a" != META && "a_pkey" != META && "a" != PkeyName(META) && "a_pkey" != PkeyName(META)
    ensures PkeyName("a") == "a_pkey" && PkeyName("a") != "a"
  {
    assert |"a_pkey"| == 6 && |"a"| == 1 && |META| == 5 && |PkeyName(META)| == 10;
  }

  // ... or of an index of another table.
  lemma IndexNameOutOfStep(hash: string, order: seq<string>)
    ensures var r := Transaction(EMPTY_DB, [WithIndex("a", "b"), Bare("idx_a_b")], Options(false, false), hash, order);
            r.Ok? && "idx_a_b" in Rows(r.db) && "idx_a_b" !in r.db.tables
  {
    var tables, start := [WithIndex("a", "b"), Bare("idx_a_b")], EnsureMeta(EMPTY_DB);
    assert InStep(EMPTY_DB) && WellNamed(tables);
    IndexNameMissing(start, tables);
    TransactionIff(EMPTY_DB, tables, Options(false, false), hash, order);
    assert tables[1].name == "idx_a_b";
  }

  lemma IndexNameMissing(start: Db, tables: seq<TableConfig>)
    requires start == EnsureMeta(EMPTY_DB) && tables == [WithIndex("a", "b"), Bare("idx_a_b")]
    ensures AllMissing(start, tables, false) == {1}
  {
    var a := tables[0];
    assert IndexName(a, a.indexes[0]) == "idx_a_b";
    assert IndexNameUsed(start, tables, 1, "idx_a_b") by { assert "idx_a_b" in Desired(tables[0]); }
    assert !Missing(start, tables, 0, false, {}) by { assert "a" != META && "a" != PkeyName(META); }
    assert MissingUpTo(start, tables, 0, false) == {} && MissingUpTo(start, tables, 1, false) == {};
    assert Missing(start, tables, 1, false, {}) by { NotMeta("idx_a_b"); }
  }

  // A dry run of a cleanup with a table named idx... reports success, and the run itself fails.
  lemma DryRunMisleads(hash: string, order: seq<string>)
    ensures Transaction(EMPTY_DB, [Bare("idx_t")], Options(true, true), hash, order).Ok?
    ensures Transaction(EMPTY_DB, [Bare("idx_t")], Options(true, false), hash, order).Err?
  {
    var t := Bare("idx_t");
    var tables, start := [t], EnsureMeta(EMPTY_DB);
    assert InStep(EMPTY_DB) && WellNamed(tables);
    assert "idx_t"[..3] == "idx";
    DryReconcileAll(start, tables, 1, Options(true, true));
    assert KeyKept(start, tables[0]);
    TransactionIff(EMPTY_DB, tables, Options(true, false), hash, order);
    assert MissingUpTo(start, tables, 0, true) == {};
    assert "idx_t"[0] != META[0] && "idx_t"[0] != PkeyName(META)[0];
    assert !Missing(start, tables, 0, true, {});
    assert AllMissing(start, tables, true) == {};
    assert !NamePasses(tables[0], false, true);
  }

  // Nor does it see that once a_pkey is recorded, no cleanup can drop it again while a is configured.
  lemma LeftoverBlocksCleanup(hash: string, order: seq<string>)
    ensures Transaction(OutOfStep(hash), [PAIR[0]], Options(true, true), hash, order).Ok?
    ensures Transaction(OutOfStep(hash), [PAIR[0]], Options(true, false), hash, order).Err?
  {
    var db, tables := OutOfStep(hash), [PAIR[0]];
    OutOfStepSound(hash);
    Distinct();
    assert MissingUpTo(db, tables, 0, true) == {} && !Missing(db, tables, 0, true, {});
    assert AllMissing(db, tables, true) == {};
    PlainA();
    DryReconcileAll(db, tables, 1, Options(true, true));
    assert Names(tables) == {"a"} by { assert tables[0].name == "a"; }
    assert PkeyUsed(tables, 1, "a_pkey", {}) by { assert 0 !in {}; }
    assert Leftover(db, tables, "a_pkey") && Kept(db, tables, {}, "a_pkey");
    CleanupOrderIff(db, tables, hash);
  }

  lemma CleanupOfC(hash: string, order: seq<string>)
    requires Lists(order, {"a", "a_pkey"})
    ensures Transaction(OutOfStep(hash), [Bare("c")], Options(true, false), hash, order).Ok?
            <==> AllReleased(OutOfStep(hash), [Bare("c")], {}, order)
  {
    var db, tables := OutOfStep(hash), [Bare("c")];
    OutOfStepSound(hash);
    NoneMissingC(db, hash);
    assert ToDrop(Rows(db), Names(tables)) == {"a", "a_pkey"};
    ListedAsIs(order, {"a", "a_pkey"});
    TransactionIff(db, tables, Options(true, false), hash, order);
  }

  // Without a, a cleanup can drop a_pkey once a is gone, but not if it finds it first.
  lemma OrderDecides(hash: string)
    ensures Transaction(OutOfStep(hash), [Bare("c")], Options(true, false), hash, ["a", "a_pkey"]).Ok?
    ensures Transaction(OutOfStep(hash), [Bare("c")], Options(true, false), hash, ["a_pkey", "a"]).Err?
  {
    var db, tables, bad := OutOfStep(hash), [Bare("c")], ["a_pkey", "a"];
    Distinct();
    CleanupOfC(hash, ["a", "a_pkey"]);
    ReleasedAfterA(db, tables);
    CleanupOfC(hash, bad);
    NoneMissingC(db, hash);
    assert bad[0] == "a_pkey" && Holds(db, "a", "a_pkey") && Members(bad[..0]) == {};
  }

  lemma NoneMissingC(db: Db, hash: string)
    requires db == OutOfStep(hash)
    ensures WellNamed([Bare("c")]) && Names([Bare("c")]) == {"c"} && AllMissing(db, [Bare("c")], true) == {}
    ensures Passes(db, [Bare("c")], true, {})
    ensures "c" != "a" && "c" != "a_pkey" && "a" != "a_pkey" && "a" != META && "a_pkey" != META
  {
    var tables := [Bare("c")];
    Distinct();
    assert |"c"| == 1 && |"a_pkey"| == 6 && |META| == 5 && |PkeyName(META)| == 10;
    assert tables[0].name == "c" && "c" != "a";
    assert !StartsWith("c", "idx");
    assert MissingUpTo(db, tables, 0, true) == {} && !Missing(db, tables, 0, true, {});
  }

  lemma ReleasedAfterA(db: Db, tables: seq<TableConfig>)
    requires tables == [Bare("c")] && db.tables.Keys == {"a"} && db.indexes == map[]
    ensures AllReleased(db, tables, {}, ["a", "a_pkey"])
  {
    var drop := ["a", "a_pkey"];
    assert |PkeyName("c")| == 6 && PkeyName("c")[0] == 'c';
    assert OwnerAfter(None, tables, 0, "a_pkey", "a_pkey" in TableRelations(db)) == None;
    assert OwnerAfter(None, tables, 1, "a_pkey", "a_pkey" in TableRelations(db)) == None;
    assert drop[..1] == ["a"] && "a" in Members(drop[..1]);
    assert !Kept(db, tables, {}, "a_pkey");
  }

  lemma PlainA()
    ensures !StartsWith("a", "idx")
  {
  }
}
