/** The cleanup of recorded tables that do not exist: when DROP TABLE meets a name that is an index's. */
module Leftovers {
  import opened Text
  import opened Sequences
  import opened Migrations
  import opened Reconciling

  // The name is that of the primary key index or of another index of table u.
  predicate Holds(db: Db, u: string, x: string) {
    u in db.tables && (x == PkeyName(u) || Owner(db, x) == Some(u))
  }

  // Once these are gone, the name is that of a table, or no index has it any more.
  ghost predicate CanDrop(db: Db, gone: set<string>, x: string) {
    x in db.tables || forall u | Holds(db, u, x) :: u in gone
  }

  lemma HeldIsRelation(db: Db, x: string)
    requires Sound(db) && NameOk(x)
    ensures x in Relations(db) <==> x in db.tables || exists u :: Holds(db, u, x)
  {
    NotMeta(x);
    assert x[0] != '_' && PkeyName(META)[0] == '_';
    if x in Relations(db) && x !in db.tables {
      if x in db.indexes {
        assert Holds(db, db.indexes[x].table, x);
      } else {
        var u :| u in db.tables && x == PkeyName(u);
        assert Holds(db, u, x);
      }
    }
  }

  lemma StillHeldIff(db: Db, gone: set<string>, u: string, x: string)
    requires db.meta.Some?
    ensures Holds(DropTables(db, gone), u, x) <==> Holds(db, u, x) && u !in gone
  {
  }

  lemma DropOneMore(db: Db, gone: set<string>, x: string)
    requires db.meta.Some?
    ensures DropTables(DropTables(db, gone), {x}) == DropTables(db, gone + {x})
  {
    var a, b := DropTables(DropTables(db, gone), {x}), DropTables(db, gone + {x});
    assert a.meta.value == b.meta.value && a.tables == b.tables && a.indexes == b.indexes;
  }

  // Whatever is dropped without an error is gone.
  lemma {:induction false} DropEachDrops(db: Db, drop: seq<string>, n: nat)
    requires db.meta.Some? && n <= |drop| && DropEach(db, drop, n).Ok?
    ensures DropEach(db, drop, n).db == DropTables(db, Members(drop[..n]))
  {
    if n == 0 {
      assert Members(drop[..0]) == {};
      DropNothing(db);
    } else {
      DropEachDrops(db, drop, n - 1);
      DropOneMore(db, Members(drop[..n - 1]), drop[n - 1]);
      assert Members(drop[..n]) == Members(drop[..n - 1]) + {drop[n - 1]};
    }
  }

  lemma CleanupDrops(db: Db, configured: set<string>, o: Options, order: seq<string>)
    requires db.meta.Some? && !o.dryRun && CleanupTables(db, configured, o, order).Ok?
    ensures CleanupTables(db, configured, o, order).db == DropTables(db, ToDrop(db.meta.value, configured))
  {
    var names := ToDrop(db.meta.value, configured);
    var drop := Listed(order, names);
    ListedLists(order, names);
    DropEachDrops(db, drop, |drop|);
    assert drop[..|drop|] == drop && Members(drop) == names;
  }

  lemma CleanedSound(d: Db, drop: set<string>)
    requires Sound(d) && d.meta.Some? && META !in drop
    ensures Sound(DropTables(d, drop))
    ensures forall m ::
              Owner(DropTables(d, drop), m)
              == if Owner(d, m).Some? && Owner(d, m).value in drop then None else Owner(d, m)
  {
  }

  lemma DropTableIff(db: Db, gone: set<string>, x: string)
    requires Sound(db) && db.meta.Some? && META !in gone && NameOk(x) && x !in gone
    ensures DropTable(DropTables(db, gone), x).Ok? <==> CanDrop(db, gone, x)
  {
    var d := DropTables(db, gone);
    CleanedSound(db, gone);
    HeldIsRelation(d, x);
    forall u ensures Holds(d, u, x) <==> Holds(db, u, x) && u !in gone {
      StillHeldIff(db, gone, u, x);
    }
  }

  lemma NoMeta(names: seq<string>)
    requires forall x | x in names :: NameOk(x)
    ensures META !in names
  {
    if META in names {
      NotMeta(META);
      assert false;
    }
  }

  // Dropping goes through exactly if each name in its turn is a table's or no longer an index's.
  lemma {:induction false} DropEachIff(db: Db, drop: seq<string>, n: nat)
    requires Sound(db) && db.meta.Some? && NoDuplicates(drop) && n <= |drop| && forall x | x in drop :: NameOk(x)
    ensures DropEach(db, drop, n).Ok? <==> forall j | 0 <= j < n :: CanDrop(db, Members(drop[..j]), drop[j])
  {
    if n > 0 {
      var gone, x := Members(drop[..n - 1]), drop[n - 1];
      DropEachIff(db, drop, n - 1);
      if DropEach(db, drop, n - 1).Ok? {
        DropEachDrops(db, drop, n - 1);
        NoMeta(drop);
        DropTableIff(db, gone, x);
      }
    }
  }
}
