/** A migration as one transaction over _meta, the physical tables and their indexes. */
module Migrations {
  import opened Text
  import opened Configs
  import opened LikePatterns
  import opened Sequences
  import CanonicalForms

  // ---------- the database ----------

  // A row of _meta: the key fields of a table, or under "_meta" the hash of the configuration.
  datatype MetaRow = KeyFields(pkField: string, rkField: string) | ConfigHash(hash: string)

  datatype IndexDef = IndexDef(table: string, pkField: string, rkField: Option<string>)

  // meta is None while the _meta table does not exist; a table maps to whether its key has a range part.
  datatype Db = Db(meta: Option<map<string, MetaRow>>, tables: map<string, bool>, indexes: map<string, IndexDef>)

  const EMPTY_DB := Db(None, map[], map[])

  const META := "_meta"

  function PkeyName(table: string): string { table + "_pkey" }

  // The tables and their primary key indexes.
  function TableRelations(db: Db): set<string> {
    db.tables.Keys + (set t | t in db.tables :: PkeyName(t)) + (if db.meta.Some? then {META, PkeyName(META)} else {})
  }

  // Tables, their primary key indexes and other indexes share one name space.
  function Relations(db: Db): set<string> {
    TableRelations(db) + db.indexes.Keys
  }

  datatype Result = Ok(db: Db) | Err

  // CREATE TABLE IF NOT EXISTS does nothing if any relation has the name.
  function CreateTable(db: Db, t: TableConfig): Db {
    if t.name in Relations(db) then db else db.(tables := db.tables[t.name := t.rangeKey.Some?])
  }

  function IndexName(t: TableConfig, idx: IndexConfig): string {
    "idx_" + t.name + "_" + idx.name
  }

  function DefinitionOf(t: TableConfig, idx: IndexConfig): IndexDef {
    IndexDef(t.name, idx.primaryKey.field, match idx.rangeKey case Some(c) => Some(c.field) case None => None)
  }

  // CREATE INDEX IF NOT EXISTS does nothing if any relation has the name, and fails without its table.
  function CreateIndex(db: Db, t: TableConfig, idx: IndexConfig): Result {
    if t.name !in db.tables then Err
    else if IndexName(t, idx) in Relations(db) then Ok(db)
    else Ok(db.(indexes := db.indexes[IndexName(t, idx) := DefinitionOf(t, idx)]))
  }

  // ---------- the steps ----------

  datatype Options = Options(cleanup: bool, dryRun: bool)

  function EnsureMeta(db: Db): Db {
    if db.meta.Some? then db else db.(meta := Some(map[]))
  }

  function MetaOf(t: TableConfig): MetaRow {
    KeyFields(t.primaryKey.field, FieldOrEmpty(t.rangeKey))
  }

  // A row read as key fields; other JSON leaves them empty.
  function AsKeyFields(row: MetaRow): MetaRow {
    if row.KeyFields? then row else KeyFields("", "")
  }

  function OnTable(db: Db, name: string, table: string): bool {
    name in db.indexes && db.indexes[name].table == table
  }

  function ReconcileTable(db: Db, t: TableConfig, o: Options): (r: Result)
    requires db.meta.Some?
    ensures r.Ok? ==> r.db.meta.Some?
  {
    var rows := db.meta.value;
    if t.name !in rows then
      ReconcileIndexes(if o.dryRun then db
                       else var created := CreateTable(db, t);
                            created.(meta := Some(rows[t.name := MetaOf(t)])), t, o)
    else if AsKeyFields(rows[t.name]) != MetaOf(t) then Err
    else ReconcileIndexes(db, t, o)
  }

  function ReconcileIndexes(db: Db, t: TableConfig, o: Options): (r: Result)
    ensures r.Ok? ==> r.db.meta == db.meta && r.db.tables == db.tables
  {
    var created := if o.dryRun then Ok(db) else CreateIndexes(db, t, |t.indexes|);
    if created.Err? || !o.cleanup || o.dryRun then created else DropStale(created.db, t)
  }

  // The first n indexes of the configuration, unless the table already has an index of that name.
  function CreateIndexes(db: Db, t: TableConfig, n: nat): (r: Result)
    requires n <= |t.indexes|
    ensures r.Ok? ==> r.db.meta == db.meta && r.db.tables == db.tables
  {
    if n == 0 then Ok(db)
    else
      var before := CreateIndexes(db, t, n - 1);
      if before.Err? || OnTable(before.db, IndexName(t, t.indexes[n - 1]), t.name) then before
      else CreateIndex(before.db, t, t.indexes[n - 1])
  }

  function DesiredUpTo(t: TableConfig, n: nat): set<string>
    requires n <= |t.indexes|
  {
    set i | 0 <= i < n :: IndexName(t, t.indexes[i])
  }

  function Desired(t: TableConfig): set<string> { DesiredUpTo(t, |t.indexes|) }

  function Stale(db: Db, t: TableConfig): set<string> {
    set n | n in db.indexes && OnTable(db, n, t.name) && Like(n, "idx_%") && n !in Desired(t)
  }

  // Every index of the table that LIKE 'idx_%' finds and the configuration does not name is dropped.
  // It also finds the primary key index of a table called idx..., which cannot be dropped.
  function DropStale(db: Db, t: TableConfig): Result {
    if t.name in db.tables && Like(PkeyName(t.name), "idx_%") && PkeyName(t.name) !in Desired(t) then Err
    else Ok(db.(indexes := db.indexes - Stale(db, t)))
  }

  function ReconcileAll(db: Db, tables: seq<TableConfig>, n: nat, o: Options): (r: Result)
    requires db.meta.Some? && n <= |tables|
    ensures r.Ok? ==> r.db.meta.Some?
  {
    if n == 0 then Ok(db)
    else
      var before := ReconcileAll(db, tables, n - 1, o);
      if before.Err? then Err else ReconcileTable(before.db, tables[n - 1], o)
  }

  function NamesUpTo(tables: seq<TableConfig>, n: nat): set<string>
    requires n <= |tables|
  {
    set i | 0 <= i < n :: tables[i].name
  }

  function Names(tables: seq<TableConfig>): set<string> { NamesUpTo(tables, |tables|) }

  // The recorded tables that the configuration does not name.
  function ToDrop(rows: map<string, MetaRow>, configured: set<string>): set<string> {
    set name | name in rows && name != META && name !in configured
  }

  function DropTables(db: Db, drop: set<string>): Db
    requires db.meta.Some?
  {
    Db(Some(db.meta.value - drop), db.tables - drop,
       map n | n in db.indexes && db.indexes[n].table !in drop :: db.indexes[n])
  }

  // DROP TABLE IF EXISTS, and the DELETE of its row: a name that is not a table's but an index's is an error.
  function DropTable(db: Db, name: string): Result
    requires db.meta.Some?
  {
    if name in Relations(db) && name !in db.tables then Err else Ok(DropTables(db, {name}))
  }

  // The first n tables of the list are dropped.
  function DropEach(db: Db, drop: seq<string>, n: nat): (r: Result)
    requires db.meta.Some? && n <= |drop|
    ensures r.Ok? ==> r.db.meta.Some?
  {
    if n == 0 then Ok(db)
    else
      var before := DropEach(db, drop, n - 1);
      if before.Err? then Err else DropTable(before.db, drop[n - 1])
  }

  ghost function AnyOrder(names: set<string>): seq<string> {
    if names == {} then [] else var x :| x in names; [x] + AnyOrder(names - {x})
  }

  // The names in this order; those that it leaves out come last.
  ghost function Listed(order: seq<string>, names: set<string>): seq<string> {
    if order == [] then AnyOrder(names)
    else if order[0] in names then [order[0]] + Listed(order[1..], names - {order[0]})
    else Listed(order[1..], names)
  }

  // order is the one in which the rows of _meta are found.
  ghost function CleanupTables(db: Db, configured: set<string>, o: Options, order: seq<string>): (r: Result)
    requires db.meta.Some?
    ensures r.Ok? ==> r.db.meta.Some?
  {
    if o.dryRun then Ok(db)
    else var drop := Listed(order, ToDrop(db.meta.value, configured)); DropEach(db, drop, |drop|)
  }

  function UpsertHash(db: Db, hash: string, o: Options): Db
    requires db.meta.Some?
  {
    if o.dryRun then db else db.(meta := Some(db.meta.value[META := ConfigHash(hash)]))
  }

  // The transaction up to its commit or rollback.
  ghost function Transaction(db: Db, tables: seq<TableConfig>, o: Options, hash: string, order: seq<string>): Result {
    var reconciled := ReconcileAll(EnsureMeta(db), tables, |tables|, o);
    if reconciled.Err? then Err
    else
      var cleaned := if o.cleanup then CleanupTables(reconciled.db, Names(tables), o, order) else reconciled;
      if cleaned.Err? then Err else Ok(UpsertHash(cleaned.db, hash, o))
  }

  // A run of the migration: its configuration, options and hash, the order in which it finds the rows of
  // _meta, and whether it broke down.
  datatype Run = Run(tables: seq<TableConfig>, o: Options, hash: string, order: seq<string>, broken: bool)

  ghost function Outcome(db: Db, r: Run): Result {
    if r.broken then Err else Transaction(db, r.tables, r.o, r.hash, r.order)
  }

  ghost predicate Succeeds(db: Db, r: Run) {
    Outcome(db, r).Ok?
  }

  ghost function NextDb(db: Db, r: Run): Db {
    if Succeeds(db, r) && !r.o.dryRun then Outcome(db, r).db else db
  }

  // ---------- the transaction as it runs ----------

  // Any statement may also fail for reasons of its own; broken says that one has.
  class Tx {
    var db: Db
    var broken: bool

    constructor (db: Db)
      ensures this.db == db && !broken
    {
      this.db, broken := db, false;
    }

    method Statement() returns (ok: bool)
      modifies this`broken
      ensures ok <==> !broken
      ensures old(broken) ==> broken
    {
      var lost: bool := *;
      broken := broken || lost;
      ok := !broken;
    }

    // A step did what spec says, or failed with it, or a statement broke.
    ghost predicate Did(ok: bool, spec: Result)
      reads this
    {
      if ok then !broken && spec == Ok(db) else broken || spec.Err?
    }

    method ExecCreateIndex(t: TableConfig, idx: IndexConfig) returns (ok: bool)
      requires !broken
      modifies this
      ensures Did(ok, CreateIndex(old(db), t, idx))
    {
      ok := Statement();
      if ok {
        var r := CreateIndex(db, t, idx);
        if r.Err? {
          return false;
        }
        db := r.db;
      }
    }

    method DoReconcileIndexes(t: TableConfig, o: Options) returns (ok: bool)
      requires !broken
      modifies this
      ensures Did(ok, ReconcileIndexes(old(db), t, o))
    {
      var desired: set<string> := {};
      for i := 0 to |t.indexes|
        invariant desired == DesiredUpTo(t, i)
        invariant unchanged(this)
      {
        desired := desired + {IndexName(t, t.indexes[i])};
      }
      for i := 0 to |t.indexes|
        invariant !broken
        invariant if o.dryRun then db == old(db) else CreateIndexes(old(db), t, i) == Ok(db)
      {
        ok := Statement();
        if !ok {
          return;
        }
        if OnTable(db, IndexName(t, t.indexes[i]), t.name) {
          continue;
        }
        if !o.dryRun {
          ok := ExecCreateIndex(t, t.indexes[i]);
          if !ok {
            if !broken {
              CreateIndexesFails(old(db), t, i + 1, |t.indexes|);
            }
            return;
          }
        }
      }
      if o.cleanup {
        ok := DropStaleIndexes(t, desired, o);
      } else {
        ok := true;
      }
    }

    method DropStaleIndexes(t: TableConfig, desired: set<string>, o: Options) returns (ok: bool)
      requires !broken && desired == Desired(t)
      modifies this
      ensures Did(ok, if o.dryRun then Ok(old(db)) else DropStale(old(db), t))
    {
      ok := Statement();
      if !ok {
        return;
      }
      // The primary key index is among the names found.
      if t.name in db.tables && Like(PkeyName(t.name), "idx_%") && PkeyName(t.name) !in desired && !o.dryRun {
        return false;
      }
      ghost var before := db;
      var found := set n | n in db.indexes && OnTable(db, n, t.name) && Like(n, "idx_%");
      while found != {}
        invariant !broken
        invariant found <= set n | n in before.indexes && OnTable(before, n, t.name) && Like(n, "idx_%")
        invariant db == before.(indexes := before.indexes - (if o.dryRun then {} else Stale(before, t) - found))
        decreases found
      {
        var name :| name in found;
        found := found - {name};
        if name !in desired && !o.dryRun {
          ok := Statement();
          if !ok {
            return;
          }
          db := db.(indexes := db.indexes - {name});
        }
      }
      assert before.indexes - {} == before.indexes;
      assert Stale(before, t) - {} == Stale(before, t);
      ok := true;
    }

    method DoReconcileTable(t: TableConfig, o: Options) returns (ok: bool)
      requires !broken && db.meta.Some?
      modifies this
      ensures Did(ok, ReconcileTable(old(db), t, o))
    {
      ok := Statement();
      if !ok {
        return;
      }
      if t.name !in db.meta.value {
        if !o.dryRun {
          ok := Statement();
          if !ok {
            return;
          }
          db := CreateTable(db, t);
          ok := Statement();
          if !ok {
            return;
          }
          db := db.(meta := Some(db.meta.value[t.name := MetaOf(t)]));
        }
      } else if AsKeyFields(db.meta.value[t.name]) != MetaOf(t) {
        return false;
      }
      ok := DoReconcileIndexes(t, o);
    }

    method DoCleanupTables(configured: set<string>, o: Options) returns (ok: bool, ghost order: seq<string>)
      requires !broken && db.meta.Some?
      modifies this
      ensures Did(ok, CleanupTables(old(db), configured, o, order))
    {
      var toDrop: seq<string> := [];
      order := [];
      ok := Statement();
      if !ok {
        return;
      }
      ghost var before := db;
      var rest := db.meta.value.Keys;
      while rest != {}
        invariant rest <= before.meta.value.Keys && db == before && !broken
        invariant Lists(toDrop, ToDrop(before.meta.value, configured) - rest)
        decreases rest
      {
        var name :| name in rest;
        rest := rest - {name};
        if name == META {
          continue;
        }
        if name !in configured {
          toDrop := toDrop + [name];
        }
      }
      assert ToDrop(before.meta.value, configured) - {} == ToDrop(before.meta.value, configured);
      order := toDrop;
      ListedAsIs(toDrop, ToDrop(before.meta.value, configured));
      for i := 0 to |toDrop|
        invariant !broken && (if o.dryRun then db == before else DropEach(before, toDrop, i) == Ok(db))
      {
        if !o.dryRun {
          ok := ExecDropTable(toDrop[i]);
          if !ok {
            if !broken {
              DropEachFails(before, toDrop, i + 1, |toDrop|);
            }
            return;
          }
        }
      }
      ok := true;
    }

    method ExecDropTable(name: string) returns (ok: bool)
      requires !broken && db.meta.Some?
      modifies this
      ensures Did(ok, DropTable(old(db), name))
    {
      ok := Statement();
      if !ok {
        return;
      }
      if name in Relations(db) && name !in db.tables {
        return false;
      }
      db := db.(tables := db.tables - {name}, indexes := map n | n in db.indexes && db.indexes[n].table != name
                                                            :: db.indexes[n]);
      ok := Statement();
      if ok {
        db := db.(meta := Some(db.meta.value - {name}));
      }
    }

    method ReconcileTables(tables: seq<TableConfig>, o: Options) returns (ok: bool, configured: set<string>)
      requires !broken && db.meta.Some?
      modifies this
      ensures Did(ok, ReconcileAll(old(db), tables, |tables|, o))
      ensures ok ==> configured == Names(tables)
    {
      configured, ok := {}, true;
      for i := 0 to |tables|
        invariant ok && !broken && ReconcileAll(old(db), tables, i, o) == Ok(db)
        invariant configured == NamesUpTo(tables, i)
      {
        configured := configured + {tables[i].name};
        ok := DoReconcileTable(tables[i], o);
        if !ok {
          if !broken {
            ReconcileAllFails(old(db), tables, i + 1, |tables|, o);
          }
          return;
        }
      }
    }

    method DoTransaction(tables: seq<TableConfig>, o: Options, hash: string)
      returns (ok: bool, ghost order: seq<string>)
      requires !broken
      modifies this
      ensures Did(ok, Transaction(old(db), tables, o, hash, order))
    {
      order := [];
      ok := Statement();
      if !ok {
        return;
      }
      db := EnsureMeta(db);
      var configured;
      ok, configured := ReconcileTables(tables, o);
      if !ok {
        return;
      }
      if o.cleanup {
        ok, order := DoCleanupTables(configured, o);
        if !ok {
          return;
        }
      }
      if !o.dryRun {
        ok := Statement();
        if !ok {
          return;
        }
        db := UpsertHash(db, hash, o);
      }
    }
  }

  lemma {:induction false} Persists(holds: nat -> bool, n: nat, m: nat)
    requires n <= m && holds(n) && forall i: nat | n <= i < m && holds(i) :: holds(i + 1)
    ensures holds(m)
    decreases m - n
  {
    if n < m {
      Persists(holds, n + 1, m);
    }
  }

  lemma CreateIndexesFails(db: Db, t: TableConfig, n: nat, m: nat)
    requires n <= m <= |t.indexes| && CreateIndexes(db, t, n).Err?
    ensures CreateIndexes(db, t, m).Err?
  {
    Persists((i: nat) => i <= |t.indexes| && CreateIndexes(db, t, i).Err?, n, m);
  }

  lemma ReconcileAllFails(db: Db, tables: seq<TableConfig>, n: nat, m: nat, o: Options)
    requires db.meta.Some? && n <= m <= |tables| && ReconcileAll(db, tables, n, o).Err?
    ensures ReconcileAll(db, tables, m, o).Err?
  {
    Persists((i: nat) => i <= |tables| && ReconcileAll(db, tables, i, o).Err?, n, m);
  }

  lemma DropNothing(db: Db)
    requires db.meta.Some?
    ensures DropTables(db, {}) == db
  {
    assert db.meta.value - {} == db.meta.value && db.tables - {} == db.tables;
    assert DropTables(db, {}).indexes == db.indexes;
  }

  lemma DropEachFails(db: Db, drop: seq<string>, n: nat, m: nat)
    requires db.meta.Some? && n <= m <= |drop| && DropEach(db, drop, n).Err?
    ensures DropEach(db, drop, m).Err?
  {
    Persists((i: nat) => i <= |drop| && DropEach(db, drop, i).Err?, n, m);
  }

  // q lists the names, each once.
  ghost predicate Lists(q: seq<string>, names: set<string>) {
    NoDuplicates(q) && forall x :: x in q <==> x in names
  }

  lemma {:induction false} AnyOrderLists(names: set<string>)
    ensures Lists(AnyOrder(names), names)
  {
    if names != {} {
      var q := AnyOrder(names);
      AnyOrderLists(names - {q[0]});
      ConsLists(q[0], q[1..], names);
    }
  }

  lemma ConsLists(x: string, q: seq<string>, names: set<string>)
    requires x in names && Lists(q, names - {x})
    ensures Lists([x] + q, names)
  {
    assert forall i | 0 <= i < |q| :: q[i] in q;
  }

  lemma {:induction false} ListedLists(order: seq<string>, names: set<string>)
    ensures Lists(Listed(order, names), names)
  {
    if order == [] {
      AnyOrderLists(names);
    } else if order[0] in names {
      ListedLists(order[1..], names - {order[0]});
      ConsLists(order[0], Listed(order[1..], names - {order[0]}), names);
    } else {
      ListedLists(order[1..], names);
    }
  }

  // Every order of the names is one in which they can be found.
  lemma {:induction false} ListedAsIs(order: seq<string>, names: set<string>)
    requires Lists(order, names)
    ensures Listed(order, names) == order
  {
    if order == [] {
      assert names == {};
    } else {
      var first, rest := order[0], order[1..];
      assert forall i | 0 <= i < |rest| :: rest[i] == order[i + 1];
      assert order == [first] + rest;
      ListedAsIs(rest, names - {first});
    }
  }

  // A database server: what is committed.
  class Database {
    var committed: Db

    constructor ()
      ensures committed == EMPTY_DB
    {
      committed := EMPTY_DB;
    }

    // One run; lost tells that a statement failed for reasons of its own. A run that fails, or is a
    // dry run, commits nothing; any other commits the whole transaction.
    method Migrate(tables: seq<TableConfig>, o: Options, hashOf: CanonicalForms.MinimalStructure -> string)
      returns (ok: bool, lost: bool, ghost form: CanonicalForms.MinimalStructure, ghost order: seq<string>)
      modifies this
      ensures CanonicalForms.IsCanonical(form, tables)
      ensures var run := Run(tables, o, hashOf(form), order, lost);
              (ok <==> Succeeds(old(committed), run)) && committed == NextDb(old(committed), run)
    {
      var minimal := CanonicalForms.BuildMinimalTableStructure(tables);
      form := minimal;
      var tx := new Tx(committed);
      ok, order := tx.DoTransaction(tables, o, hashOf(minimal));
      if !ok {
        return false, tx.broken, minimal, order;
      }
      // COMMIT, or ROLLBACK of a dry run
      ok := tx.Statement();
      lost := !ok;
      if ok && !o.dryRun {
        committed := tx.db;
      }
    }
  }
}
