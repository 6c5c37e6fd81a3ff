/** Secondary indexes: which rows the index endpoints select, and how far a walk over them can be trusted. */
module Indexes {
  import opened Text
  import opened Sequences
  import opened JsonValues
  import opened Documents
  import opened Rows
  import opened Cursors
  import opened Queries
  import opened Lists

  // ---------- selection ----------

  // The field rules of a validated configuration: index fields are not base key fields.
  predicate IndexApart(index: IndexConfig, pkField: string, rkField: string) {
    && index.pkField != pkField && (rkField != "" ==> index.pkField != rkField)
    && (index.rkField != "" ==> index.rkField != pkField && (rkField != "" ==> index.rkField != rkField))
  }

  // Selecting on the stored data, from which the key fields are stripped, is selecting on the whole document.
  lemma StrippedSelectsAlike(db: Db, index: IndexConfig, indexPk: string, opts: ListOptions, key: Key, doc: Fields,
                             pkField: string, rkField: string)
    requires IndexApart(index, pkField, rkField)
    ensures var stored := Stripped(doc, pkField, rkField);
            && (InPartialIndex(db, index, stored) <==> InPartialIndex(db, index, doc))
            && (ScanIndexMeaning(db, index, opts, key, stored) <==> ScanIndexMeaning(db, index, opts, key, doc))
            && (QueryIndexMeaning(db, index, indexPk, opts, key, stored)
                <==> QueryIndexMeaning(db, index, indexPk, opts, key, doc))
  {
    var stored := Stripped(doc, pkField, rkField);
    assert FieldText(db, stored, index.pkField) == FieldText(db, doc, index.pkField);
    assert index.rkField != "" ==> FieldText(db, stored, index.rkField) == FieldText(db, doc, index.rkField);
  }

  function FirstPage(opts: ListOptions): ListOptions { opts.(pageToken := "") }

  // The WHERE of the partial index that the migration creates.
  function PartialIndexWhere(index: IndexConfig): seq<Clause> {
    [IsNotNull(DataField(index.pkField))] + (if index.rkField != "" then [IsNotNull(DataField(index.rkField))] else [])
  }

  lemma PartialIndexWhereMeans(db: Db, index: IndexConfig, key: Key, data: Fields)
    ensures Selects(db, PartialIndexWhere(index), [], key, data) <==> InPartialIndex(db, index, data)
  {
    var pk, rk := IsNotNull(DataField(index.pkField)), IsNotNull(DataField(index.rkField));
    assert [pk][..0] == [] && [pk, rk][..1] == [pk] && [pk] + [rk] == [pk, rk] && [pk] + [] == [pk];
    assert EvalWhere(db, [pk], [], key, data) == And3(EvalWhere(db, [], [], key, data), Eval(db, pk, [], key, data));
    assert EvalWhere(db, [pk, rk], [], key, data)
           == And3(EvalWhere(db, [pk], [], key, data), Eval(db, rk, [], key, data));
  }

  // What an index scan returns is in the partial index, and a scan that fits on one page returns all of it.
  lemma ScanIndexReadsPartialIndex(db: Db, table: Table, index: IndexConfig, opts: ListOptions, res: ListResult)
    requires IsIndexPage(db, table, index, ScanIndexEligible(db, table, index, opts), opts.limit, res)
    ensures forall i | 0 <= i < |res.items| ::
              Selects(db, PartialIndexWhere(index), [], ItemKey(res.items[i]), res.items[i].data)
    ensures TokenCursor(opts.pageToken).None? && res.nextPageToken == "" ==>
              forall k | k in table && Selects(db, PartialIndexWhere(index), [], k, table[k].data) :: OnPage(k, res)
  {
    forall i | 0 <= i < |res.items|
      ensures Selects(db, PartialIndexWhere(index), [], ItemKey(res.items[i]), res.items[i].data)
    {
      PartialIndexWhereMeans(db, index, ItemKey(res.items[i]), res.items[i].data);
    }
    forall k | k in table && Selects(db, PartialIndexWhere(index), [], k, table[k].data)
      ensures InPartialIndex(db, index, table[k].data)
    {
      PartialIndexWhereMeans(db, index, k, table[k].data);
    }
  }

  // Index queries stay inside the partial index exactly when the index has no range key or some
  // range key filter is given; otherwise a row without the range field is returned all the same.
  lemma QueryIndexInsidePartialIndexIff(db: Db, index: IndexConfig, indexPk: string, opts: ListOptions)
    requires index.rkField != index.pkField
    ensures (forall key, data ::
               QueryIndexMeaning(db, index, indexPk, FirstPage(opts), key, data) ==> InPartialIndex(db, index, data))
            <==> (index.rkField == "" || HasRkFilter(opts))
    ensures index.rkField == "" || HasRkFilter(opts) ==>
              forall key, data :: QueryIndexMeaning(db, index, indexPk, opts, key, data)
                  ==> InPartialIndex(db, index, data)
  {
    if index.rkField != "" && !HasRkFilter(opts) {
      var key, data: Fields := Key("", ""), map[index.pkField := Str(indexPk)];
      assert QueryIndexMeaning(db, index, indexPk, FirstPage(opts), key, data) && !InPartialIndex(db, index, data);
    }
  }

  // ---------- walks over an index without a range key ----------

  datatype IndexListing = QueryFor(indexPk: string, opts: ListOptions) | WholeIndex

  ghost function IndexEligible(db: Db, table: Table, index: IndexConfig, listing: IndexListing,
                               token: string): set<Key> {
    match listing
    case QueryFor(indexPk, opts) => QueryIndexEligible(db, table, index, indexPk, opts.(pageToken := token))
    case WholeIndex => ScanIndexEligible(db, table, index, ListOptions(0, token, "", "", "", "", ""))
  }

  datatype IndexFetch = IndexFetch(limit: int, res: ListResult)

  ghost predicate FollowsIndex(db: Db, table: Table, index: IndexConfig, listing: IndexListing, token: string,
                               pages: seq<IndexFetch>)
    decreases |pages|
  {
    pages == [] ||
    var p := pages[0];
    && IsIndexPage(db, table, index, IndexEligible(db, table, index, listing, token), p.limit, p.res)
    && (|pages| > 1 ==> p.res.nextPageToken != "")
    && FollowsIndex(db, table, index, listing, p.res.nextPageToken, pages[1..])
  }

  ghost function Pks(keys: set<Key>): set<string> {
    set k | k in keys :: k.pk
  }

  // However ties are broken, a walk of a still table has at most one page more than there are
  // base pks among the matching rows.
  lemma {:induction false} PkIndexWalkStops(db: Db, table: Table, index: IndexConfig, listing: IndexListing,
                                            token: string, pages: seq<IndexFetch>)
    requires StrictTotalOrder(db.lt) && index.rkField == ""
    requires FollowsIndex(db, table, index, listing, token, pages)
    ensures |pages| <= |Pks(IndexEligible(db, table, index, listing, token))| + 1
    decreases |pages|
  {
    if |pages| > 1 {
      var p := pages[0];
      var here := IndexEligible(db, table, index, listing, token);
      var next := IndexEligible(db, table, index, listing, p.res.nextPageToken);
      var last := LastKey(p.res);
      PkIndexWalkStops(db, table, index, listing, p.res.nextPageToken, pages[1..]);
      assert last in here && last.pk in Pks(here);
      forall k | k in next
        ensures k in here && db.lt(last.pk, k.pk)
      {
        NextIndexPage(db, table, index, listing, token, p, k);
      }
      assert Pks(next) <= Pks(here) - {last.pk};
      SubsetSize(Pks(next), Pks(here) - {last.pk});
    }
  }

  // What the next page may return lies beyond this page's last base pk.
  lemma NextIndexPage(db: Db, table: Table, index: IndexConfig, listing: IndexListing, token: string, p: IndexFetch,
                      k: Key)
    requires StrictTotalOrder(db.lt) && index.rkField == ""
    requires IsIndexPage(db, table, index, IndexEligible(db, table, index, listing, token), p.limit, p.res)
    requires p.res.nextPageToken != "" && k in IndexEligible(db, table, index, listing, p.res.nextPageToken)
    ensures k in IndexEligible(db, table, index, listing, token) && db.lt(LastKey(p.res).pk, k.pk)
  {
    assert LastKey(p.res) in IndexEligible(db, table, index, listing, token);
  }

  lemma {:induction false} EveryPageFrom(db: Db, table: Table, index: IndexConfig, listing: IndexListing,
                                         token: string, pages: seq<IndexFetch>, j: nat, n: nat)
    requires StrictTotalOrder(db.lt) && index.rkField == ""
    requires FollowsIndex(db, table, index, listing, token, pages)
    requires j < |pages| && n < |pages[j].res.items|
    ensures ItemKey(pages[j].res.items[n]) in IndexEligible(db, table, index, listing, token)
    ensures InPartialIndex(db, index, pages[j].res.items[n].data)
    decreases |pages|
  {
    if j > 0 {
      EveryPageFrom(db, table, index, listing, pages[0].res.nextPageToken, pages[1..], j - 1, n);
      NextIndexPage(db, table, index, listing, token, pages[0], ItemKey(pages[j].res.items[n]));
    }
  }

  // ---------- what index walks do not promise ----------

  // The cursor filter of an index with a range key compares the row's index range value with the
  // base range key of the last row returned: it lets that very row through again exactly when the
  // former is greater.
  lemma LastRowReadmittedIff(db: Db, index: IndexConfig, table: Table, indexPk: string, opts: ListOptions, key: Key)
    requires StrictTotalOrder(db.lt) && index.rkField != "" && ValidKey(key, db.hasRK)
    requires key in table && key in QueryIndexEligible(db, table, index, indexPk, FirstPage(opts))
    ensures IsBytes(key.pk) && IsBytes(key.rk)
    ensures var text := FieldText(db, table[key].data, index.rkField);
            key in QueryIndexEligible(db, table, index, indexPk, opts.(pageToken := EncodeCursor(key.pk, key.rk)))
            <==> text.Some? && db.lt(key.rk, text.value)
  {
    KeyValuesRoundTrip(key.pk, key.rk);
  }

  function OneAtATime(token: string): ListOptions { ListOptions(1, token, "", "", "", "", "") }

  lemma FollowsOne(db: Db, table: Table, index: IndexConfig, listing: IndexListing, token: string, page: IndexFetch)
    requires IsIndexPage(db, table, index, IndexEligible(db, table, index, listing, token), page.limit, page.res)
    ensures FollowsIndex(db, table, index, listing, token, [page])
  {
    assert [page][1..] == [];
  }

  lemma FollowsCons(db: Db, table: Table, index: IndexConfig, listing: IndexListing, token: string, page: IndexFetch,
                    rest: seq<IndexFetch>)
    requires FollowsIndex(db, table, index, listing, token, [page])
    requires rest != [] ==> page.res.nextPageToken != ""
    requires FollowsIndex(db, table, index, listing, page.res.nextPageToken, rest)
    ensures FollowsIndex(db, table, index, listing, token, [page] + rest)
  {
    assert ([page] + rest)[1..] == rest && ([page] + rest)[0] == [page][0];
  }

  // A page of one row, the first of those eligible in index order.
  lemma OneRowPage(db: Db, table: Table, index: IndexConfig, eligible: set<Key>, k: Key, other: Key, res: ListResult)
    requires k in table && other in table && k != other && eligible == {k, other} && ValidKey(k, db.hasRK)
    requires IsBytes(k.pk) && IsBytes(k.rk)
        && res == ListResult([ItemResult(k.pk, k.rk, table[k].data)], EncodeCursor(k.pk, k.rk))
    requires !OrderLt(db, IndexOrder(index), other, table[other].data, k, table[k].data)
    ensures IsIndexPage(db, table, index, eligible, 1, res)
    ensures res.nextPageToken != "" && !OnPage(other, res) && |res.items| == 1
  {
    KeyValuesRoundTrip(k.pk, k.rk);
    assert ItemKey(res.items[0]) == k;
    assert OnPage(k, res) && !OnPage(other, res);
  }

  ghost function Repeated(page: IndexFetch, n: nat): seq<IndexFetch> {
    if n == 0 then [] else [page] + Repeated(page, n - 1)
  }

  // What putting a page in front preserves, repeating it preserves.
  lemma {:induction false} RepeatedHolds(holds: (string, seq<IndexFetch>) -> bool, token: string, page: IndexFetch,
                                         n: nat)
    requires holds(token, []) && holds(page.res.nextPageToken, [])
    requires forall rest | holds(page.res.nextPageToken, rest) ::
               holds(token, [page] + rest) && holds(page.res.nextPageToken, [page] + rest)
    ensures holds(token, Repeated(page, n)) && holds(page.res.nextPageToken, Repeated(page, n))
  {
    if n > 0 {
      RepeatedHolds(holds, token, page, n - 1);
    }
  }

  lemma SamePageForEver(db: Db, table: Table, index: IndexConfig, listing: IndexListing, token: string,
                        page: IndexFetch, n: nat)
    requires FollowsIndex(db, table, index, listing, token, [page])
    requires FollowsIndex(db, table, index, listing, page.res.nextPageToken, [page])
    requires page.res.nextPageToken != ""
    ensures FollowsIndex(db, table, index, listing, token, Repeated(page, n))
  {
    var holds := (t, pages) => FollowsIndex(db, table, index, listing, t, pages);
    var next := page.res.nextPageToken;
    forall rest | holds(next, rest)
      ensures holds(token, [page] + rest) && holds(next, [page] + rest)
    {
      FollowsCons(db, table, index, listing, token, page, rest);
      FollowsCons(db, table, index, listing, next, page, rest);
    }
    RepeatedHolds(holds, token, page, n);
  }

  // Two rows of partition "a", both under "p" in an index on fields f and g.
  const LOOP_DB := Db(LexLt, (_: Json) => "", true)
  const LOOP_INDEX := IndexConfig("f", "g")
  const LOOP_LISTING := QueryFor("p", OneAtATime(""))
  const LOOP_DATA: Fields := map["f" := Str("p"), "g" := Str("y")]
  const LOOP_FIRST := Key("a", "b")
  const LOOP_OTHER := Key("a", "c")
  const LOOP_TABLE: Table := map[LOOP_FIRST := Row(LOOP_DATA, 0), LOOP_OTHER := Row(LOOP_DATA["g" := Str("z")], 0)]
  const LOOP_PAGE := IndexFetch(1, ListResult([ItemResult("a", "b", LOOP_DATA)], EncodeCursor("a", "b")))

  // Both rows pass the cursor of the first.
  lemma LoopRow(cursor: Option<Cursor>, key: Key)
    requires cursor.Some? ==> cursor.value == Cursor("a", "b")
    requires key in LOOP_TABLE
    ensures FieldText(LOOP_DB, LOOP_TABLE[key].data, "f") == Some("p")
    ensures AfterCursor(LOOP_DB, cursor, IndexTieBreak(LOOP_INDEX), key, LOOP_TABLE[key].data)
  {
    assert LexLt("b", "y") && LexLt("b", "z");
  }

  lemma LoopEligible(token: string)
    requires TokenCursor(token).Some? ==> TokenCursor(token).value == Cursor("a", "b")
    ensures IndexEligible(LOOP_DB, LOOP_TABLE, LOOP_INDEX, LOOP_LISTING, token) == {LOOP_FIRST, LOOP_OTHER}
  {
    LoopRow(TokenCursor(token), LOOP_FIRST);
    LoopRow(TokenCursor(token), LOOP_OTHER);
  }

  lemma LoopPage(eligible: set<Key>)
    requires eligible == {LOOP_FIRST, LOOP_OTHER}
    ensures IsIndexPage(LOOP_DB, LOOP_TABLE, LOOP_INDEX, eligible, 1, LOOP_PAGE.res)
    ensures LOOP_PAGE.res.nextPageToken != ""
  {
    assert [DataField("f"), DataField("g")][1..] == [DataField("g")] && [DataField("g")][1..] == [];
    assert !LexLt("z", "y");
    OneRowPage(LOOP_DB, LOOP_TABLE, LOOP_INDEX, eligible, LOOP_FIRST, LOOP_OTHER, LOOP_PAGE.res);
  }

  lemma LoopStep(token: string)
    requires TokenCursor(token).Some? ==> TokenCursor(token).value == Cursor("a", "b")
    ensures FollowsIndex(LOOP_DB, LOOP_TABLE, LOOP_INDEX, LOOP_LISTING, token, [LOOP_PAGE])
  {
    LoopEligible(token);
    LoopPage({LOOP_FIRST, LOOP_OTHER});
    FollowsOne(LOOP_DB, LOOP_TABLE, LOOP_INDEX, LOOP_LISTING, token, LOOP_PAGE);
  }

  lemma LoopToken()
    ensures LOOP_PAGE.res.nextPageToken != "" && TokenCursor(LOOP_PAGE.res.nextPageToken) == Some(Cursor("a", "b"))
  {
    KeyValuesRoundTrip("a", "b");
  }

  lemma LoopValid()
    ensures StrictTotalOrder(LOOP_DB.lt) && ValidKeys(LOOP_TABLE, LOOP_DB.hasRK)
  {
    LexLtStrictTotal();
  }

  // So a walk over such an index can return one and the same page for ever.
  lemma RangeIndexWalkCanLoop(n: nat)
    ensures StrictTotalOrder(LOOP_DB.lt) && ValidKeys(LOOP_TABLE, LOOP_DB.hasRK)
    ensures FollowsIndex(LOOP_DB, LOOP_TABLE, LOOP_INDEX, LOOP_LISTING, "", Repeated(LOOP_PAGE, n))
    ensures LOOP_PAGE.res.nextPageToken != ""
  {
    LoopValid();
    LoopToken();
    LoopStep("");
    LoopStep(LOOP_PAGE.res.nextPageToken);
    SamePageForEver(LOOP_DB, LOOP_TABLE, LOOP_INDEX, LOOP_LISTING, "", LOOP_PAGE, n);
  }

  // Two partitions in an index on field f alone, which puts base pk "b" before base pk "a".
  const MISS_DB := Db(LexLt, (_: Json) => "", false)
  const MISS_INDEX := IndexConfig("f", "")
  const MISS_DATA: Fields := map["f" := Str("x")]
  const MISS_TABLE: Table := map[Key("b", "") := Row(MISS_DATA, 0), Key("a", "") := Row(map["f" := Str("y")], 0)]
  const MISS_PAGE := IndexFetch(1, ListResult([ItemResult("b", "", MISS_DATA)], EncodeCursor("b", "")))
  const LAST_PAGE := IndexFetch(1, ListResult([], ""))

  const MISSED := Key("a", "")

  lemma MissEligible()
    ensures IndexEligible(MISS_DB, MISS_TABLE, MISS_INDEX, WholeIndex, "") == {Key("b", ""), MISSED}
  {
  }

  lemma MissFirstPage(eligible: set<Key>)
    requires eligible == {Key("b", ""), MISSED}
    ensures IsIndexPage(MISS_DB, MISS_TABLE, MISS_INDEX, eligible, 1, MISS_PAGE.res) && !OnPage(MISSED, MISS_PAGE.res)
    ensures MISS_PAGE.res.nextPageToken != ""
  {
    assert [DataField("f")][1..] == [];
    assert !LexLt("y", "x");
    OneRowPage(MISS_DB, MISS_TABLE, MISS_INDEX, eligible, Key("b", ""), MISSED, MISS_PAGE.res);
  }

  lemma MissSecondPage()
    ensures FollowsIndex(MISS_DB, MISS_TABLE, MISS_INDEX, WholeIndex, MISS_PAGE.res.nextPageToken, [LAST_PAGE])
  {
    KeyValuesRoundTrip("b", "");
    assert !LexLt("b", "b") && !LexLt("b", "a");
    assert IndexEligible(MISS_DB, MISS_TABLE, MISS_INDEX, WholeIndex, MISS_PAGE.res.nextPageToken) == {};
    FollowsOne(MISS_DB, MISS_TABLE, MISS_INDEX, WholeIndex, MISS_PAGE.res.nextPageToken, LAST_PAGE);
  }

  lemma MissValid()
    ensures StrictTotalOrder(MISS_DB.lt) && ValidKeys(MISS_TABLE, MISS_DB.hasRK)
  {
    LexLtStrictTotal();
  }

  lemma MissWalk()
    ensures FollowsIndex(MISS_DB, MISS_TABLE, MISS_INDEX, WholeIndex, "", [MISS_PAGE, LAST_PAGE])
    ensures !OnPage(MISSED, MISS_PAGE.res)
  {
    MissEligible();
    MissFirstPage({Key("b", ""), MISSED});
    MissSecondPage();
    FollowsOne(MISS_DB, MISS_TABLE, MISS_INDEX, WholeIndex, "", MISS_PAGE);
    FollowsCons(MISS_DB, MISS_TABLE, MISS_INDEX, WholeIndex, "", MISS_PAGE, [LAST_PAGE]);
    assert [MISS_PAGE, LAST_PAGE] == [MISS_PAGE] + [LAST_PAGE];
  }

  // A walk over an index without a range key stops, but it can miss a row that never moved.
  lemma PkIndexWalkCanMiss()
    ensures StrictTotalOrder(MISS_DB.lt) && ValidKeys(MISS_TABLE, MISS_DB.hasRK)
    ensures FollowsIndex(MISS_DB, MISS_TABLE, MISS_INDEX, WholeIndex, "", [MISS_PAGE, LAST_PAGE])
    ensures LAST_PAGE.res.nextPageToken == ""
    ensures MISSED in IndexEligible(MISS_DB, MISS_TABLE, MISS_INDEX, WholeIndex, "")
    ensures !OnPage(MISSED, MISS_PAGE.res) && !OnPage(MISSED, LAST_PAGE.res)
  {
    MissValid();
    MissEligible();
    MissWalk();
  }
}
