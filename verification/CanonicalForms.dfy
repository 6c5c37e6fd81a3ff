/** The minimal structure of a configuration, brought into one order, and what it identifies. */
module CanonicalForms {
  import opened Text
  import opened Configs
  import opened Sequences

  datatype MinimalIndex = MinimalIndex(name: string, pkField: string, rkField: Option<string>)

  datatype MinimalTable = MinimalTable(name: string, pkField: string, rkField: Option<string>,
      indexes: seq<MinimalIndex>)

  type MinimalStructure = seq<MinimalTable>

  function FieldOf(k: Option<KeyConfig>): Option<string> {
    match k case Some(c) => Some(c.field) case None => None
  }

  function ExtractIndex(idx: IndexConfig): MinimalIndex {
    MinimalIndex(idx.name, idx.primaryKey.field, FieldOf(idx.rangeKey))
  }

  // ---------- sorting by name ----------

  ghost predicate SortedByName<T(!new)>(s: seq<T>, name: T -> string) {
    SortedBy(LexLt, s, name)
  }

  ghost predicate SortedBy<T(!new)>(lt: (string, string) -> bool, s: seq<T>, name: T -> string) {
    forall i, j | 0 <= i < j < |s| :: !lt(name(s[j]), name(s[i]))
  }

  ghost predicate DistinctNames<T(!new)>(s: seq<T>, name: T -> string) {
    forall i, j | 0 <= i < j < |s| :: name(s[i]) != name(s[j])
  }

  // sort.Slice: some sorted rearrangement; equal names may come out in any order.
  method SortSlice<T(==,!new)>(s: seq<T>, name: T -> string) returns (sorted: seq<T>)
    ensures SortedByName(sorted, name) && multiset(sorted) == multiset(s)
  {
    sorted := [];
    for i := 0 to |s|
      invariant SortedByName(sorted, name) && multiset(sorted) == multiset(s[..i])
    {
      var j := 0;
      while j < |sorted| && !LexLt(name(s[i]), name(sorted[j]))
        invariant j <= |sorted|
        invariant forall k | 0 <= k < j :: !LexLt(name(s[i]), name(sorted[k]))
      {
        j := j + 1;
      }
      ghost var before := sorted;
      sorted := sorted[..j] + [s[i]] + sorted[j..];
      LexLtStrictTotal();
      Inserted(LexLt, before, name, j, s[i]);
      InsertedOnce(before, j, s[i]);
      assert s[..i + 1] == s[..i] + [s[i]];
    }
    assert s[..|s|] == s;
  }

  lemma Inserted<T(!new)>(lt: (string, string) -> bool, s: seq<T>, name: T -> string, j: nat, x: T)
    requires StrictTotalOrder(lt) && SortedBy(lt, s, name) && j <= |s|
    requires forall k | 0 <= k < j :: !lt(name(x), name(s[k]))
    requires j < |s| ==> lt(name(x), name(s[j]))
    ensures SortedBy(lt, s[..j] + [x] + s[j..], name)
  {
    assert forall k | j <= k < |s| :: !lt(name(s[k]), name(x));
  }

  lemma InsertedOnce<T>(s: seq<T>, j: nat, x: T)
    requires j <= |s|
    ensures multiset(s[..j] + [x] + s[j..]) == multiset(s) + multiset{x}
  {
    assert s == s[..j] + s[j..];
  }

  // With distinct names there is only one sorted rearrangement.
  lemma SortedUnique<T(!new)>(lt: (string, string) -> bool, a: seq<T>, b: seq<T>, name: T -> string)
    requires StrictTotalOrder(lt)
    requires SortedBy(lt, a, name) && SortedBy(lt, b, name) && DistinctNames(a, name) && DistinctNames(b, name)
    requires forall x :: x in a <==> x in b
    ensures a == b
  {
    var less := (x: T, y: T) => lt(name(x), name(y));
    ByNameStrict(lt, name);
    SortedAscending(lt, a, name);
    SortedAscending(lt, b, name);
    AscendingUnique(less, a, b);
  }

  lemma ByNameStrict<T(!new)>(lt: (string, string) -> bool, name: T -> string)
    requires StrictTotalOrder(lt)
    ensures StrictOrder((x: T, y: T) => lt(name(x), name(y)))
  {
  }

  lemma SortedAscending<T(!new)>(lt: (string, string) -> bool, s: seq<T>, name: T -> string)
    requires StrictTotalOrder(lt) && SortedBy(lt, s, name) && DistinctNames(s, name)
    ensures Ascending((x: T, y: T) => lt(name(x), name(y)), s)
  {
    forall i, j | 0 <= i < j < |s|
      ensures lt(name(s[i]), name(s[j]))
    {
      assert name(s[i]) != name(s[j]) && !lt(name(s[j]), name(s[i]));
    }
  }

  // ---------- the canonical form ----------

  function IndexName(idx: MinimalIndex): string { idx.name }

  function TableName(t: MinimalTable): string { t.name }

  function ExtractIndexes(indexes: seq<IndexConfig>): seq<MinimalIndex> {
    seq(|indexes|, i requires 0 <= i < |indexes| => ExtractIndex(indexes[i]))
  }

  // mt is the structural part of t with its indexes sorted.
  ghost predicate Extracts(mt: MinimalTable, t: TableConfig) {
    && mt.name == t.name && mt.pkField == t.primaryKey.field && mt.rkField == FieldOf(t.rangeKey)
    && SortedByName(mt.indexes, IndexName)
    && multiset(mt.indexes) == multiset(ExtractIndexes(t.indexes))
  }

  ghost predicate ExtractsEach(extracted: seq<MinimalTable>, tables: seq<TableConfig>) {
    |extracted| == |tables| && forall i | 0 <= i < |tables| :: Extracts(extracted[i], tables[i])
  }

  ghost predicate SortsTo(extracted: seq<MinimalTable>, out: MinimalStructure) {
    SortedByName(out, TableName) && multiset(out) == multiset(extracted)
  }

  ghost predicate IsCanonical(out: MinimalStructure, tables: seq<TableConfig>) {
    exists extracted :: ExtractsEach(extracted, tables) && SortsTo(extracted, out)
  }

  // The range key, or that there is none, is shown as it is.
  predicate ShowsKey(rkField: Option<string>, k: Option<KeyConfig>) {
    (rkField.Some? <==> k.Some?) && (rkField.Some? && k.Some? ==> rkField.value == k.value.field)
  }

  predicate ShowsIndex(x: MinimalIndex, idx: IndexConfig) {
    x.name == idx.name && x.pkField == idx.primaryKey.field && ShowsKey(x.rkField, idx.rangeKey)
  }

  // A table is shown with its name, its key fields and all its indexes, and nothing else is.
  ghost predicate ShowsTable(mt: MinimalTable, t: TableConfig) {
    && mt.name == t.name && mt.pkField == t.primaryKey.field && ShowsKey(mt.rkField, t.rangeKey)
    && |mt.indexes| == |t.indexes|
    && (forall idx | idx in t.indexes :: exists x :: x in mt.indexes && ShowsIndex(x, idx))
    && (forall x | x in mt.indexes :: exists idx :: idx in t.indexes && ShowsIndex(x, idx))
  }

  ghost predicate ShowsAll(out: MinimalStructure, tables: seq<TableConfig>) {
    && |out| == |tables|
    && (forall t | t in tables :: exists mt :: mt in out && ShowsTable(mt, t))
    && (forall mt | mt in out :: exists t :: t in tables && ShowsTable(mt, t))
  }

  // The tables, and the indexes of each, in the order of their names.
  ghost predicate InOrder(out: MinimalStructure) {
    SortedByName(out, TableName) && forall mt | mt in out :: SortedByName(mt.indexes, IndexName)
  }

  lemma CanonicalInOrder(out: MinimalStructure, tables: seq<TableConfig>)
    requires IsCanonical(out, tables)
    ensures InOrder(out)
  {
    var e :| ExtractsEach(e, tables) && SortsTo(e, out);
    SameMembers(e, out);
    forall mt | mt in out
      ensures SortedByName(mt.indexes, IndexName)
    {
      var i :| 0 <= i < |e| && e[i] == mt;
      assert Extracts(e[i], tables[i]);
    }
  }

  lemma ExtractsShows(mt: MinimalTable, t: TableConfig)
    requires Extracts(mt, t)
    ensures ShowsTable(mt, t)
  {
    var all := ExtractIndexes(t.indexes);
    SameMembers(mt.indexes, all);
    forall idx | idx in t.indexes
      ensures exists x :: x in mt.indexes && ShowsIndex(x, idx)
    {
      var i :| 0 <= i < |t.indexes| && t.indexes[i] == idx;
      assert all[i] in mt.indexes && ShowsIndex(all[i], idx);
    }
    forall x | x in mt.indexes
      ensures exists idx :: idx in t.indexes && ShowsIndex(x, idx)
    {
      var i :| 0 <= i < |all| && all[i] == x;
      assert t.indexes[i] in t.indexes && ShowsIndex(x, t.indexes[i]);
    }
  }

  lemma CanonicalShowsAll(out: MinimalStructure, tables: seq<TableConfig>)
    requires IsCanonical(out, tables)
    ensures ShowsAll(out, tables)
  {
    var e :| ExtractsEach(e, tables) && SortsTo(e, out);
    SameMembers(e, out);
    forall i | 0 <= i < |tables| ensures ShowsTable(e[i], tables[i]) {
      ExtractsShows(e[i], tables[i]);
    }
    forall t | t in tables
      ensures exists mt :: mt in out && ShowsTable(mt, t)
    {
      var i :| 0 <= i < |tables| && tables[i] == t;
      assert e[i] in out && ShowsTable(e[i], t);
    }
    forall mt | mt in out
      ensures exists t :: t in tables && ShowsTable(mt, t)
    {
      var i :| 0 <= i < |e| && e[i] == mt;
      assert tables[i] in tables && ShowsTable(mt, tables[i]);
    }
  }

  method BuildMinimalTableStructure(tables: seq<TableConfig>) returns (out: MinimalStructure)
    ensures IsCanonical(out, tables) && ShowsAll(out, tables) && InOrder(out)
  {
    var extracted: seq<MinimalTable> := [];
    for i := 0 to |tables|
      invariant |extracted| == i && forall k | 0 <= k < i :: Extracts(extracted[k], tables[k])
    {
      var t := tables[i];
      var indexes: seq<MinimalIndex> := [];
      for j := 0 to |t.indexes|
        invariant |indexes| == j && forall k | 0 <= k < j :: indexes[k] == ExtractIndex(t.indexes[k])
      {
        indexes := indexes + [ExtractIndex(t.indexes[j])];
      }
      assert indexes == ExtractIndexes(t.indexes);
      indexes := SortSlice(indexes, IndexName);
      extracted := extracted + [MinimalTable(t.name, t.primaryKey.field, FieldOf(t.rangeKey), indexes)];
    }
    out := SortSlice(extracted, TableName);
    assert ExtractsEach(extracted, tables) && SortsTo(extracted, out);
    CanonicalShowsAll(out, tables);
    CanonicalInOrder(out, tables);
  }

  // ---------- what the canonical form identifies ----------

  // The structure of a configuration as unordered data: no order of tables or indexes, no other settings.
  datatype UnorderedTable = UnorderedTable(name: string, pkField: string, rkField: Option<string>,
      indexes: set<MinimalIndex>)

  function Unordered(t: TableConfig): UnorderedTable {
    UnorderedTable(t.name, t.primaryKey.field, FieldOf(t.rangeKey),
        set i | 0 <= i < |t.indexes| :: ExtractIndex(t.indexes[i]))
  }

  function Structure(tables: seq<TableConfig>): set<UnorderedTable> {
    set i | 0 <= i < |tables| :: Unordered(tables[i])
  }

  // What validation guarantees of names.
  predicate UniqueNames(tables: seq<TableConfig>) {
    UniqueTableNames(tables) && forall i | 0 <= i < |tables| :: UniqueIndexNames(tables[i].indexes)
  }

  lemma ExtractsUnordered(mt: MinimalTable, t: TableConfig)
    requires Extracts(mt, t)
    ensures Unordered(t) == UnorderedTable(mt.name, mt.pkField, mt.rkField, Members(mt.indexes))
  {
    var all := ExtractIndexes(t.indexes);
    forall x
      ensures x in mt.indexes <==> x in all
    {
      assert x in mt.indexes <==> x in multiset(mt.indexes);
      assert x in all <==> x in multiset(all);
    }
    forall x | x in all
      ensures exists i :: 0 <= i < |t.indexes| && ExtractIndex(t.indexes[i]) == x
    {
      var i :| 0 <= i < |all| && all[i] == x;
      assert ExtractIndex(t.indexes[i]) == x;
    }
    forall i | 0 <= i < |t.indexes|
      ensures ExtractIndex(t.indexes[i]) in all
    {
      assert all[i] == ExtractIndex(t.indexes[i]);
    }
  }

  lemma SameMembers<T(!new)>(a: seq<T>, b: seq<T>)
    requires multiset(a) == multiset(b)
    ensures |a| == |b| && forall x :: x in a <==> x in b
  {
    assert |multiset(a)| == |a| && |multiset(b)| == |b|;
    forall x
      ensures x in a <==> x in b
    {
      assert x in a <==> x in multiset(a);
      assert x in b <==> x in multiset(b);
    }
  }

  lemma DistinctNamesOnce<T(!new)>(s: seq<T>, name: T -> string, x: T)
    requires DistinctNames(s, name)
    ensures multiset(s)[x] == if x in s then 1 else 0
  {
    assert forall i, j | 0 <= i < j < |s| :: name(s[i]) != name(s[j]);
    EachOnce(s, x);
  }

  lemma TwiceIn<T>(s: seq<T>, i: nat, j: nat)
    requires i < j < |s| && s[i] == s[j]
    ensures multiset(s)[s[i]] >= 2
  {
    assert s == s[..j] + [s[j]] + s[j + 1..];
    assert s[..j][i] == s[i];
    assert s[i] in multiset(s[..j]);
  }

  // Distinct names survive rearrangement.
  lemma DistinctAfter<T(!new)>(a: seq<T>, b: seq<T>, name: T -> string)
    requires multiset(a) == multiset(b) && DistinctNames(a, name)
    ensures DistinctNames(b, name)
  {
    SameMembers(a, b);
    forall i, j | 0 <= i < j < |b|
      ensures name(b[i]) != name(b[j])
    {
      assert b[i] in a && b[j] in a;
      if b[i] == b[j] {
        TwiceIn(b, i, j);
        DistinctNamesOnce(a, name, b[i]);
        assert false;
      }
    }
  }

  // Two tables with the same unordered structure extract to the same minimal table.
  lemma ExtractsSame(m1: MinimalTable, t1: TableConfig, m2: MinimalTable, t2: TableConfig)
    requires Extracts(m1, t1) && Extracts(m2, t2) && UniqueIndexNames(t1.indexes) && UniqueIndexNames(t2.indexes)
    requires Unordered(t1) == Unordered(t2)
    ensures m1 == m2
  {
    ExtractsUnordered(m1, t1);
    ExtractsUnordered(m2, t2);
    DistinctAfter(ExtractIndexes(t1.indexes), m1.indexes, IndexName);
    DistinctAfter(ExtractIndexes(t2.indexes), m2.indexes, IndexName);
    forall x
      ensures x in m1.indexes <==> x in m2.indexes
    {
      assert x in m1.indexes <==> x in Members(m1.indexes);
      assert x in m2.indexes <==> x in Members(m2.indexes);
    }
    LexLtStrictTotal();
    SortedUnique(LexLt, m1.indexes, m2.indexes, IndexName);
  }

  lemma CanonicalMembers(out1: MinimalStructure, tables1: seq<TableConfig>, out2: MinimalStructure,
                         tables2: seq<TableConfig>, x: MinimalTable)
    requires IsCanonical(out1, tables1) && IsCanonical(out2, tables2)
    requires UniqueNames(tables1) && UniqueNames(tables2)
    requires Structure(tables1) == Structure(tables2) && x in out1
    ensures x in out2
  {
    var e1 :| ExtractsEach(e1, tables1) && SortsTo(e1, out1);
    var e2 :| ExtractsEach(e2, tables2) && SortsTo(e2, out2);
    SameMembers(e1, out1);
    SameMembers(e2, out2);
    var i :| 0 <= i < |e1| && e1[i] == x;
    assert Unordered(tables1[i]) in Structure(tables2);
    var j :| 0 <= j < |tables2| && Unordered(tables2[j]) == Unordered(tables1[i]);
    ExtractsSame(e1[i], tables1[i], e2[j], tables2[j]);
    assert e2[j] in e2;
  }

  lemma CanonicalDistinct(out: MinimalStructure, tables: seq<TableConfig>)
    requires IsCanonical(out, tables) && UniqueNames(tables)
    ensures DistinctNames(out, TableName) && SortedByName(out, TableName)
  {
    var e :| ExtractsEach(e, tables) && SortsTo(e, out);
    DistinctAfter(e, out, TableName);
  }

  lemma CanonicalStructure(out: MinimalStructure, tables: seq<TableConfig>, u: UnorderedTable)
    requires IsCanonical(out, tables)
    ensures u in Structure(tables) <==>
            exists x :: x in out && u == UnorderedTable(x.name, x.pkField, x.rkField, Members(x.indexes))
  {
    var e :| ExtractsEach(e, tables) && SortsTo(e, out);
    SameMembers(e, out);
    if u in Structure(tables) {
      var i :| 0 <= i < |tables| && Unordered(tables[i]) == u;
      ExtractsUnordered(e[i], tables[i]);
      assert e[i] in out;
    }
    if x :| x in out && u == UnorderedTable(x.name, x.pkField, x.rkField, Members(x.indexes)) {
      var i :| 0 <= i < |e| && e[i] == x;
      ExtractsUnordered(e[i], tables[i]);
    }
  }

  lemma CanonicalStructureIff(out1: MinimalStructure, tables1: seq<TableConfig>, out2: MinimalStructure,
                              tables2: seq<TableConfig>)
    requires IsCanonical(out1, tables1) && IsCanonical(out2, tables2)
    requires UniqueNames(tables1) && UniqueNames(tables2)
    ensures out1 == out2 <==> Structure(tables1) == Structure(tables2)
  {
    if out1 == out2 {
      forall u
        ensures u in Structure(tables1) <==> u in Structure(tables2)
      {
        CanonicalStructure(out1, tables1, u);
        CanonicalStructure(out2, tables2, u);
      }
      assert Structure(tables1) == Structure(tables2);
    }
    if Structure(tables1) == Structure(tables2) {
      forall x
        ensures x in out1 <==> x in out2
      {
        if x in out1 { CanonicalMembers(out1, tables1, out2, tables2, x); }
        if x in out2 { CanonicalMembers(out2, tables2, out1, tables1, x); }
      }
      CanonicalDistinct(out1, tables1);
      CanonicalDistinct(out2, tables2);
      LexLtStrictTotal();
      SortedUnique(LexLt, out1, out2, TableName);
    }
  }

  // ---------- the same configuration ----------

  // A range key in both, with one field, or in neither.
  predicate SameField(a: Option<KeyConfig>, b: Option<KeyConfig>) {
    (a.Some? <==> b.Some?) && (a.Some? && b.Some? ==> a.value.field == b.value.field)
  }

  predicate SameIndex(a: IndexConfig, b: IndexConfig) {
    a.name == b.name && a.primaryKey.field == b.primaryKey.field && SameField(a.rangeKey, b.rangeKey)
  }

  predicate HasIndexLike(idx: IndexConfig, indexes: seq<IndexConfig>) {
    exists j | 0 <= j < |indexes| :: SameIndex(idx, indexes[j])
  }

  // The same name and key fields, and each index of one has its like in the other.
  predicate SameTable(t: TableConfig, u: TableConfig) {
    && t.name == u.name && t.primaryKey.field == u.primaryKey.field && SameField(t.rangeKey, u.rangeKey)
    && (forall i | 0 <= i < |t.indexes| :: HasIndexLike(t.indexes[i], u.indexes))
    && (forall i | 0 <= i < |u.indexes| :: HasIndexLike(u.indexes[i], t.indexes))
  }

  predicate HasTableLike(t: TableConfig, tables: seq<TableConfig>) {
    exists j | 0 <= j < |tables| :: SameTable(t, tables[j])
  }

  // Each table of one configuration has its like in the other.
  predicate SameTables(tables1: seq<TableConfig>, tables2: seq<TableConfig>) {
    && (forall i | 0 <= i < |tables1| :: HasTableLike(tables1[i], tables2))
    && (forall i | 0 <= i < |tables2| :: HasTableLike(tables2[i], tables1))
  }

  lemma SameIndexIff(a: IndexConfig, b: IndexConfig)
    ensures SameIndex(a, b) <==> ExtractIndex(a) == ExtractIndex(b)
  {
  }

  lemma IndexLikeIff(idx: IndexConfig, t: TableConfig)
    ensures HasIndexLike(idx, t.indexes) <==> ExtractIndex(idx) in Unordered(t).indexes
  {
    forall j | 0 <= j < |t.indexes| { SameIndexIff(idx, t.indexes[j]); }
  }

  lemma IndexesLikeIff(t: TableConfig, u: TableConfig)
    ensures (forall i | 0 <= i < |t.indexes| :: HasIndexLike(t.indexes[i], u.indexes))
            <==> Unordered(t).indexes <= Unordered(u).indexes
  {
    forall i | 0 <= i < |t.indexes|
      ensures HasIndexLike(t.indexes[i], u.indexes) <==> ExtractIndex(t.indexes[i]) in Unordered(u).indexes
    {
      IndexLikeIff(t.indexes[i], u);
    }
    assert forall i | 0 <= i < |t.indexes| :: ExtractIndex(t.indexes[i]) in Unordered(t).indexes;
  }

  lemma SameTableIff(t: TableConfig, u: TableConfig)
    ensures SameTable(t, u) <==> Unordered(t) == Unordered(u)
  {
    IndexesLikeIff(t, u);
    IndexesLikeIff(u, t);
  }

  lemma TableLikeIff(t: TableConfig, tables: seq<TableConfig>)
    ensures HasTableLike(t, tables) <==> Unordered(t) in Structure(tables)
  {
    forall j | 0 <= j < |tables| { SameTableIff(t, tables[j]); }
  }

  lemma TablesLikeIff(tables1: seq<TableConfig>, tables2: seq<TableConfig>)
    ensures (forall i | 0 <= i < |tables1| :: HasTableLike(tables1[i], tables2))
            <==> Structure(tables1) <= Structure(tables2)
  {
    forall i | 0 <= i < |tables1|
      ensures HasTableLike(tables1[i], tables2) <==> Unordered(tables1[i]) in Structure(tables2)
    {
      TableLikeIff(tables1[i], tables2);
    }
    assert forall i | 0 <= i < |tables1| :: Unordered(tables1[i]) in Structure(tables1);
  }

  lemma StructureIsReordering(tables1: seq<TableConfig>, tables2: seq<TableConfig>)
    ensures Structure(tables1) == Structure(tables2) <==> SameTables(tables1, tables2)
  {
    TablesLikeIff(tables1, tables2);
    TablesLikeIff(tables2, tables1);
  }

  // With unique names, two configurations have one canonical form exactly if they have the same
  // tables, keys and indexes, whatever the order of either and whatever their other settings.
  lemma CanonicalIff(out1: MinimalStructure, tables1: seq<TableConfig>, out2: MinimalStructure,
                     tables2: seq<TableConfig>)
    requires IsCanonical(out1, tables1) && IsCanonical(out2, tables2)
    requires UniqueNames(tables1) && UniqueNames(tables2)
    ensures out1 == out2 <==> SameTables(tables1, tables2)
  {
    CanonicalStructureIff(out1, tables1, out2, tables2);
    StructureIsReordering(tables1, tables2);
  }
}
