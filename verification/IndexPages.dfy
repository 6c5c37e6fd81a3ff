/** Pages and walks of an index as pages and walks of keys, and back. */
module IndexPages {
  import opened Text
  import opened JsonValues
  import opened Sequences
  import opened Rows
  import opened Cursors
  import opened Queries
  import opened Lists
  import opened Indexes
  import K = KeyWalks

  // The rows of the index, or of one index value under filters, that a walk is after.
  ghost function Matching(db: Db, table: Table, index: IndexConfig, listing: IndexListing): set<Key> {
    IndexEligible(db, table, index, listing, "")
  }

  // Row k comes strictly before row l in the order of the index.
  predicate IndexBefore(db: Db, table: Table, index: IndexConfig, k: Key, l: Key)
    requires k in table && l in table
  {
    OrderLt(db, IndexOrder(index), k, table[k].data, l, table[l].data)
  }

  // The token of a page that ends in row k lets row l through to the next page.
  predicate LetsThrough(db: Db, table: Table, index: IndexConfig, k: Key, l: Key)
    requires l in table
  {
    AfterCursor(db, Some(Cursor(k.pk, k.rk)), IndexTieBreak(index), l, table[l].data)
  }

  ghost function Order(db: Db, table: Table, index: IndexConfig): (Key, Key) -> bool {
    (k, l) => k in table && l in table && IndexBefore(db, table, index, k, l)
  }

  ghost function Reach(db: Db, table: Table, index: IndexConfig): (Key, Key) -> bool {
    (k, l) => l in table && LetsThrough(db, table, index, k, l)
  }

  lemma {:induction false} OrderLtStrict(db: Db, orderBy: seq<Column>, k: Key, kd: Fields, l: Key, ld: Fields,
                                         m: Key, md: Fields)
    requires StrictTotalOrder(db.lt)
    ensures !OrderLt(db, orderBy, k, kd, k, kd)
    ensures OrderLt(db, orderBy, k, kd, l, ld) && OrderLt(db, orderBy, l, ld, m, md) ==>
              OrderLt(db, orderBy, k, kd, m, md)
  {
    if orderBy != [] {
      OrderLtStrict(db, orderBy[1..], k, kd, l, ld, m, md);
    }
  }

  lemma OrderIsStrict(db: Db, table: Table, index: IndexConfig)
    requires StrictTotalOrder(db.lt)
    ensures StrictOrder(Order(db, table, index))
  {
    var before := Order(db, table, index);
    forall k, l, m
      ensures !before(k, k) && (before(k, l) && before(l, m) ==> before(k, m))
    {
      if k in table && l in table && m in table {
        OrderLtStrict(db, IndexOrder(index), k, table[k].data, l, table[l].data, m, table[m].data);
      } else if k in table {
        OrderLtStrict(db, IndexOrder(index), k, table[k].data, k, table[k].data, k, table[k].data);
      }
    }
  }

  // ---------- pages by their keys ----------

  lemma EligibleWithin(db: Db, table: Table, index: IndexConfig, listing: IndexListing, token: string)
    ensures IndexEligible(db, table, index, listing, token) <= Matching(db, table, index, listing) <= table.Keys
  {
  }

  lemma EligibleAfter(db: Db, table: Table, index: IndexConfig, listing: IndexListing, token: string, k: Key)
    requires TokenCursor(token) == Some(Cursor(k.pk, k.rk))
    ensures IndexEligible(db, table, index, listing, token)
            == K.Reached(Reach(db, table, index), Matching(db, table, index, listing), k)
  {
  }

  function KeysOf(res: ListResult): seq<Key> {
    seq(|res.items|, i requires 0 <= i < |res.items| => ItemKey(res.items[i]))
  }

  function KeyPage(p: IndexFetch): K.Page<Key> {
    K.Page(PageLimit(p.limit), KeysOf(p.res), p.res.nextPageToken != "")
  }

  function KeyPages(pages: seq<IndexFetch>): seq<K.Page<Key>> {
    seq(|pages|, i requires 0 <= i < |pages| => KeyPage(pages[i]))
  }

  lemma OnPageIffKey(k: Key, res: ListResult)
    ensures OnPage(k, res) <==> k in KeysOf(res)
  {
    if k in KeysOf(res) {
      var i :| 0 <= i < |KeysOf(res)| && KeysOf(res)[i] == k;
      assert ItemKey(res.items[i]) == k;
    }
    if OnPage(k, res) {
      var i :| 0 <= i < |res.items| && ItemKey(res.items[i]) == k;
      assert KeysOf(res)[i] == k;
    }
  }

  lemma PageByKeys(db: Db, table: Table, index: IndexConfig, eligible: set<Key>, p: IndexFetch)
    requires IsIndexPage(db, table, index, eligible, p.limit, p.res) && eligible <= table.Keys
    ensures K.IsPage(Order(db, table, index), eligible, KeyPage(p))
    ensures p.res.nextPageToken != "" ==>
              p.res.items != [] && TokenCursor(p.res.nextPageToken) == Some(LastCursor(p.res))
              && K.Last(KeyPage(p)) == LastKey(p.res)
  {
    var before, keys := Order(db, table, index), KeysOf(p.res);
    forall k ensures OnPage(k, p.res) <==> k in keys { OnPageIffKey(k, p.res); }
    forall k, l | k in eligible && k !in keys && l in keys
      ensures !before(k, l)
    {
      var i :| 0 <= i < |keys| && keys[i] == l;
      assert ItemKey(p.res.items[i]) == l;
    }
  }

  predicate Writable(table: Table, keys: seq<Key>) {
    forall k | k in keys :: k in table && IsBytes(k.pk) && IsBytes(k.rk)
  }

  // A page with the given keys.
  function MadePage(table: Table, p: K.Page<Key>): IndexFetch
    requires Writable(table, p.keys)
  {
    IndexFetch(p.limit, ListResult(
      seq(|p.keys|, i requires 0 <= i < |p.keys| => ItemResult(p.keys[i].pk, p.keys[i].rk, table[p.keys[i]].data)),
      if p.more && p.keys != [] then EncodeCursor(K.Last(p).pk, K.Last(p).rk) else ""))
  }

  lemma ValidBytes(table: Table, hasRK: bool, keys: seq<Key>)
    requires ValidKeys(table, hasRK) && forall k | k in keys :: k in table
    ensures Writable(table, keys)
  {
    forall k | k in keys
      ensures IsBytes(k.pk) && IsBytes(k.rk)
    {
      assert ValidKey(k, hasRK);
      KeyValuesRoundTrip(k.pk, k.rk);
    }
  }

  // The token of a page, if there is one, names its last row.
  ghost predicate TokenNamesLast(res: ListResult, more: bool) {
    && (res.nextPageToken != "" <==> more)
    && (more ==> res.items != [] && TokenCursor(res.nextPageToken) == Some(LastCursor(res)))
  }

  lemma MadeToken(table: Table, hasRK: bool, p: K.Page<Key>)
    requires Writable(table, p.keys) && ValidKeys(table, hasRK) && (p.more ==> p.keys != [])
    ensures var res := MadePage(table, p).res;
            TokenNamesLast(res, p.more) && (p.more ==> LastCursor(res) == Cursor(K.Last(p).pk, K.Last(p).rk))
  {
    if p.more {
      assert K.Last(p) in p.keys && ValidKey(K.Last(p), hasRK);
      KeyValuesRoundTrip(K.Last(p).pk, K.Last(p).rk);
    }
  }

  // The items are in index order, and no eligible row that is missing comes before any.
  ghost predicate InIndexOrder(db: Db, table: Table, index: IndexConfig, eligible: set<Key>, keys: seq<Key>,
                               res: ListResult) {
    && (forall i, j | 0 <= i < j < |res.items| ::
          ItemKey(res.items[i]) != ItemKey(res.items[j])
          && !OrderLt(db, IndexOrder(index), ItemKey(res.items[j]), res.items[j].data,
                      ItemKey(res.items[i]), res.items[i].data))
    && (forall k, i | k in eligible && k in table && k !in keys && 0 <= i < |res.items| ::
          !OrderLt(db, IndexOrder(index), k, table[k].data, ItemKey(res.items[i]), res.items[i].data))
  }

  lemma MadeOrdered(db: Db, table: Table, index: IndexConfig, eligible: set<Key>, p: K.Page<Key>)
    requires Writable(table, p.keys) && eligible <= table.Keys && K.IsPage(Order(db, table, index), eligible, p)
    ensures InIndexOrder(db, table, index, eligible, p.keys, MadePage(table, p).res)
  {
    var before, keys, res := Order(db, table, index), p.keys, MadePage(table, p).res;
    assert forall i | 0 <= i < |keys| ::
             keys[i] in keys && ItemKey(res.items[i]) == keys[i] && res.items[i].data == table[keys[i]].data;
    assert forall i, j | 0 <= i < j < |keys| :: !before(keys[j], keys[i]);
    assert forall k, i | k in eligible && k !in keys && 0 <= i < |keys| :: !before(k, keys[i]);
  }

  ghost predicate Holds(table: Table, keys: seq<Key>, res: ListResult) {
    && |res.items| == |keys|
    && (forall i | 0 <= i < |res.items| ::
          keys[i] in keys && keys[i] in table && ItemKey(res.items[i]) == keys[i]
          && res.items[i].data == table[keys[i]].data)
    && (forall k :: OnPage(k, res) <==> k in keys)
  }

  lemma MadeItems(table: Table, p: K.Page<Key>)
    requires Writable(table, p.keys)
    ensures KeysOf(MadePage(table, p).res) == p.keys && Holds(table, p.keys, MadePage(table, p).res)
  {
    var res := MadePage(table, p).res;
    assert KeysOf(res) == p.keys;
    forall k ensures OnPage(k, res) <==> k in p.keys { OnPageIffKey(k, res); }
  }

  // What is left of a page of keys beside its order.
  ghost predicate Filled(eligible: set<Key>, p: K.Page<Key>) {
    && p.limit > 0 && |p.keys| <= p.limit && (forall k | k in p.keys :: k in eligible)
    && (p.more <==> exists k :: k in eligible && k !in p.keys)
    && (p.more ==> |p.keys| == p.limit)
  }

  lemma PartsMakePage(db: Db, table: Table, index: IndexConfig, eligible: set<Key>, p: K.Page<Key>, res: ListResult)
    requires Filled(eligible, p) && Holds(table, p.keys, res)
    requires InIndexOrder(db, table, index, eligible, p.keys, res) && TokenNamesLast(res, p.more)
    ensures IsIndexPage(db, table, index, eligible, p.limit, res)
  {
  }

  lemma MadeKeyPage(table: Table, p: K.Page<Key>)
    requires Writable(table, p.keys) && p.limit > 0 && (p.more ==> p.keys != [])
    requires MadePage(table, p).res.nextPageToken != "" <==> p.more
    ensures KeyPage(MadePage(table, p)) == p
  {
    MadeItems(table, p);
  }

  lemma MadeIsIndexPage(db: Db, table: Table, index: IndexConfig, eligible: set<Key>, p: K.Page<Key>)
    requires Writable(table, p.keys) && ValidKeys(table, db.hasRK) && eligible <= table.Keys
    requires K.IsPage(Order(db, table, index), eligible, p)
    ensures IsIndexPage(db, table, index, eligible, p.limit, MadePage(table, p).res)
  {
    MadeToken(table, db.hasRK, p);
    MadeOrdered(db, table, index, eligible, p);
    MadeItems(table, p);
    PartsMakePage(db, table, index, eligible, p, MadePage(table, p).res);
  }

  lemma MadePageIsPage(db: Db, table: Table, index: IndexConfig, eligible: set<Key>, p: K.Page<Key>)
    requires ValidKeys(table, db.hasRK) && eligible <= table.Keys
    requires K.IsPage(Order(db, table, index), eligible, p)
    ensures Writable(table, p.keys)
    ensures var made := MadePage(table, p);
            && KeyPage(made) == p && IsIndexPage(db, table, index, eligible, made.limit, made.res)
            && (p.more ==> TokenCursor(made.res.nextPageToken) == Some(Cursor(K.Last(p).pk, K.Last(p).rk)))
  {
    ValidBytes(table, db.hasRK, p.keys);
    MadeToken(table, db.hasRK, p);
    MadeKeyPage(table, p);
    MadeIsIndexPage(db, table, index, eligible, p);
  }

  // ---------- walks by their keys ----------

  lemma {:induction false} WalkByKeys(db: Db, table: Table, index: IndexConfig, listing: IndexListing, token: string,
                                      pages: seq<IndexFetch>)
    requires FollowsIndex(db, table, index, listing, token, pages)
    ensures K.IsWalk(Order(db, table, index), Reach(db, table, index), Matching(db, table, index, listing),
                     IndexEligible(db, table, index, listing, token), KeyPages(pages))
    decreases |pages|
  {
    if pages != [] {
      var p := pages[0];
      EligibleWithin(db, table, index, listing, token);
      PageByKeys(db, table, index, IndexEligible(db, table, index, listing, token), p);
      assert KeyPages(pages)[0] == KeyPage(p) && KeyPages(pages)[1..] == KeyPages(pages[1..]);
      if |pages| > 1 {
        EligibleAfter(db, table, index, listing, p.res.nextPageToken, LastKey(p.res));
        WalkByKeys(db, table, index, listing, p.res.nextPageToken, pages[1..]);
      }
    }
  }

  // A page made of keys follows its token, and its own token leads to what the last key reaches.
  lemma MadePageFollows(db: Db, table: Table, index: IndexConfig, listing: IndexListing, token: string, p: K.Page<Key>)
    requires ValidKeys(table, db.hasRK)
    requires K.IsPage(Order(db, table, index), IndexEligible(db, table, index, listing, token), p)
    ensures Writable(table, p.keys)
    ensures var made := MadePage(table, p);
            && KeyPage(made) == p && FollowsIndex(db, table, index, listing, token, [made])
            && (p.more ==>
                  && p.keys != [] && made.res.nextPageToken != ""
                  && IndexEligible(db, table, index, listing, made.res.nextPageToken)
                     == K.Reached(Reach(db, table, index), Matching(db, table, index, listing), K.Last(p)))
  {
    EligibleWithin(db, table, index, listing, token);
    MadePageIsPage(db, table, index, IndexEligible(db, table, index, listing, token), p);
    var made := MadePage(table, p);
    FollowsOne(db, table, index, listing, token, made);
    if p.more {
      EligibleAfter(db, table, index, listing, made.res.nextPageToken, K.Last(p));
    }
  }

  lemma KeyPagesCons(made: IndexFetch, rest: seq<IndexFetch>)
    ensures KeyPages([made] + rest) == [KeyPage(made)] + KeyPages(rest)
    ensures |KeyPages(rest)| == |rest|
  {
  }

  lemma {:induction false} WalkFromKeys(db: Db, table: Table, index: IndexConfig, listing: IndexListing, token: string,
                                        walk: seq<K.Page<Key>>)
    returns (pages: seq<IndexFetch>)
    requires ValidKeys(table, db.hasRK)
    requires K.IsWalk(Order(db, table, index), Reach(db, table, index), Matching(db, table, index, listing),
                      IndexEligible(db, table, index, listing, token), walk)
    ensures FollowsIndex(db, table, index, listing, token, pages) && KeyPages(pages) == walk
    decreases |walk|
  {
    pages := [];
    if walk != [] {
      MadePageFollows(db, table, index, listing, token, walk[0]);
      var made := MadePage(table, walk[0]);
      var rest: seq<IndexFetch> := [];
      if |walk| > 1 {
        rest := WalkFromKeys(db, table, index, listing, made.res.nextPageToken, walk[1..]);
      }
      KeyPagesCons(made, rest);
      FollowsCons(db, table, index, listing, token, made, rest);
      pages := [made] + rest;
    }
  }
}
