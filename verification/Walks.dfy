/** Whole walks of pages: what a client that follows the tokens receives, while other
    requests change the table between its pages, and on a table that stands still. */
module Walks {
  import opened Text
  import opened Sequences
  import opened Rows
  import opened Cursors
  import opened Queries
  import opened Lists

  // One page request: the table it was run on, its limit and its result.
  datatype Fetch = Fetch(table: Table, limit: int, res: ListResult)

  // What is being listed: a whole table, or one partition under range key filters.
  datatype Listing = Scan | Partition(pk: string, opts: ListOptions)

  predicate Includes(db: Db, listing: Listing, k: Key) {
    match listing
    case Scan => true
    case Partition(pk, opts) => k.pk == pk && (db.hasRK ==> RkFilter(db, opts, Some(k.rk)))
  }

  function ScanOptions(token: string): ListOptions {
    ListOptions(0, token, "", "", "", "", "")
  }

  // The rows a page request with this token may return.
  ghost function EligibleAt(db: Db, listing: Listing, table: Table, token: string): set<Key> {
    match listing
    case Scan => ScanEligible(db, table, ScanOptions(token))
    case Partition(pk, opts) => ListEligible(db, table, pk, opts.(pageToken := token))
  }

  // Every page request but the first carries the token of the one before it, and none follows a last page.
  ghost predicate Follows(db: Db, listing: Listing, token: string, fetches: seq<Fetch>)
    decreases |fetches|
  {
    fetches == [] ||
    var f := fetches[0];
    && IsPage(db, f.table, EligibleAt(db, listing, f.table, token), f.limit, f.res)
    && (|fetches| > 1 ==> f.res.nextPageToken != "")
    && Follows(db, listing, f.res.nextPageToken, fetches[1..])
  }

  predicate Complete(fetches: seq<Fetch>) {
    fetches != [] && fetches[|fetches| - 1].res.nextPageToken == ""
  }

  function PageKeys(res: ListResult): seq<Key> {
    seq(|res.items|, i requires 0 <= i < |res.items| => ItemKey(res.items[i]))
  }

  function Returned(fetches: seq<Fetch>): seq<Key> {
    if fetches == [] then [] else PageKeys(fetches[0].res) + Returned(fetches[1..])
  }

  ghost predicate AllValid(db: Db, fetches: seq<Fetch>) {
    forall i | 0 <= i < |fetches| :: ValidKeys(fetches[i].table, db.hasRK)
  }

  predicate Beyond(db: Db, cursor: Option<Cursor>, k: Key) {
    cursor.Some? ==> KeyLt(db.lt, Key(cursor.value.pk, cursor.value.rk), k)
  }

  // A cursor that the service itself issued for this table: no range key part where the table has none.
  predicate Issued(db: Db, cursor: Option<Cursor>) {
    cursor.Some? && !db.hasRK ==> cursor.value.rk == ""
  }

  lemma EligibleBeyond(db: Db, listing: Listing, table: Table, token: string, k: Key)
    requires StrictTotalOrder(db.lt) && ValidKeys(table, db.hasRK) && Issued(db, TokenCursor(token))
    ensures k in EligibleAt(db, listing, table, token)
            <==> k in table && Includes(db, listing, k) && Beyond(db, TokenCursor(token), k)
  {
    if k in table {
      assert ValidKey(k, db.hasRK);
      assert !db.lt("", "");
    }
  }

  // ---------- walks under traffic ----------

  // Sorted keys of the listing, all beyond the cursor.
  ghost predicate ListedBeyond(db: Db, listing: Listing, cursor: Option<Cursor>, keys: seq<Key>) {
    && Ascending(KeyOrder(db.lt), keys)
    && forall i | 0 <= i < |keys| :: Beyond(db, cursor, keys[i]) && Includes(db, listing, keys[i])
  }

  // A page is sorted, lies beyond its cursor and inside its listing, and a token stands for its last key.
  lemma PageIncreases(db: Db, listing: Listing, token: string, f: Fetch)
    requires StrictTotalOrder(db.lt) && ValidKeys(f.table, db.hasRK) && Issued(db, TokenCursor(token))
    requires IsPage(db, f.table, EligibleAt(db, listing, f.table, token), f.limit, f.res)
    ensures ListedBeyond(db, listing, TokenCursor(token), PageKeys(f.res))
    ensures f.res.nextPageToken != "" ==>
              f.res.items != [] && Issued(db, TokenCursor(f.res.nextPageToken))
              && TokenCursor(f.res.nextPageToken) == Some(LastCursor(f.res))
  {
    forall i | 0 <= i < |f.res.items|
      ensures Beyond(db, TokenCursor(token), PageKeys(f.res)[i]) && Includes(db, listing, PageKeys(f.res)[i])
    {
      EligibleBeyond(db, listing, f.table, token, ItemKey(f.res.items[i]));
    }
    if f.res.nextPageToken != "" {
      assert ValidKey(LastKey(f.res), db.hasRK);
    }
  }

  // Keys come back in strictly increasing order over the whole walk, whatever happens to the table between pages.
  lemma {:induction false} WalkIncreases(db: Db, listing: Listing, token: string, fetches: seq<Fetch>)
    requires StrictTotalOrder(db.lt) && AllValid(db, fetches)
    requires Issued(db, TokenCursor(token)) && Follows(db, listing, token, fetches)
    ensures ListedBeyond(db, listing, TokenCursor(token), Returned(fetches))
    decreases |fetches|
  {
    if fetches != [] {
      var f, rest := fetches[0], fetches[1..];
      PageIncreases(db, listing, token, f);
      if rest == [] {
        assert Returned(fetches) == PageKeys(f.res);
      } else {
        RestValid(db, fetches);
        WalkIncreases(db, listing, f.res.nextPageToken, rest);
        PageThenRest(db, listing, TokenCursor(token), f.res, Returned(rest));
      }
    }
  }

  lemma RestValid(db: Db, fetches: seq<Fetch>)
    requires AllValid(db, fetches) && fetches != []
    ensures AllValid(db, fetches[1..])
  {
    assert forall i | 0 <= i < |fetches[1..]| :: fetches[1..][i] == fetches[i + 1];
  }

  lemma PageThenRest(db: Db, listing: Listing, cursor: Option<Cursor>, res: ListResult, later: seq<Key>)
    requires StrictTotalOrder(db.lt) && res.items != [] && ListedBeyond(db, listing, cursor, PageKeys(res))
    requires ListedBeyond(db, listing, Some(LastCursor(res)), later)
    ensures ListedBeyond(db, listing, cursor, PageKeys(res) + later)
  {
    var page := PageKeys(res);
    assert page != [] && page[|page| - 1] == LastKey(res);
    SortedJoin(db, page, later, cursor);
    forall i | 0 <= i < |page + later|
      ensures Beyond(db, cursor, (page + later)[i]) && Includes(db, listing, (page + later)[i])
    {
      assert (page + later)[i] == if i < |page| then page[i] else later[i - |page|];
    }
  }

  // Keys beyond the last of a page are beyond all of it, and beyond what the page was beyond.
  lemma SortedJoin(db: Db, page: seq<Key>, rest: seq<Key>, cursor: Option<Cursor>)
    requires StrictTotalOrder(db.lt)
    requires page != [] && Ascending(KeyOrder(db.lt), page) && Ascending(KeyOrder(db.lt), rest)
    requires forall i | 0 <= i < |page| :: Beyond(db, cursor, page[i])
    requires forall i | 0 <= i < |rest| :: KeyLt(db.lt, page[|page| - 1], rest[i])
    ensures Ascending(KeyOrder(db.lt), page + rest)
    ensures forall i | 0 <= i < |rest| :: Beyond(db, cursor, rest[i])
  {
    var last := page[|page| - 1];
    forall i, j | 0 <= i < |page| && 0 <= j < |rest|
      ensures KeyLt(db.lt, page[i], rest[j])
    {
      KeyLtTransitive(db, page[i], last, rest[j]);
    }
    forall j | 0 <= j < |rest| && cursor.Some?
      ensures Beyond(db, cursor, rest[j])
    {
      KeyLtTransitive(db, Key(cursor.value.pk, cursor.value.rk), last, rest[j]);
    }
  }

  lemma KeyLtTransitive(db: Db, a: Key, b: Key, c: Key)
    requires StrictTotalOrder(db.lt) && (a == b || KeyLt(db.lt, a, b)) && KeyLt(db.lt, b, c)
    ensures KeyLt(db.lt, a, c)
  {
  }

  // A key that is in the table at every page request of a complete walk is returned.
  lemma {:induction false} WalkFindsStayer(db: Db, listing: Listing, token: string, fetches: seq<Fetch>, k: Key)
    requires StrictTotalOrder(db.lt) && AllValid(db, fetches)
    requires Issued(db, TokenCursor(token)) && Follows(db, listing, token, fetches) && Complete(fetches)
    requires Includes(db, listing, k) && Beyond(db, TokenCursor(token), k)
    requires forall i | 0 <= i < |fetches| :: k in fetches[i].table
    ensures k in Returned(fetches)
    decreases |fetches|
  {
    var f := fetches[0];
    StayerOnPageOrBeyond(db, listing, token, f, k);
    if OnPage(k, f.res) {
      OnPageInKeys(k, f.res);
    } else {
      RestValid(db, fetches);
      RestHolds(fetches, k);
      WalkFindsStayer(db, listing, f.res.nextPageToken, fetches[1..], k);
    }
  }

  lemma RestHolds(fetches: seq<Fetch>, k: Key)
    requires Complete(fetches) && fetches[0].res.nextPageToken != ""
    requires forall i | 0 <= i < |fetches| :: k in fetches[i].table
    ensures Complete(fetches[1..]) && forall i | 0 <= i < |fetches[1..]| :: k in fetches[1..][i].table
  {
    assert forall i | 0 <= i < |fetches[1..]| :: fetches[1..][i] == fetches[i + 1];
  }

  lemma OnPageInKeys(k: Key, res: ListResult)
    requires OnPage(k, res)
    ensures k in PageKeys(res)
  {
    var i :| 0 <= i < |res.items| && ItemKey(res.items[i]) == k;
    assert PageKeys(res)[i] == k;
  }

  lemma StayerOnPageOrBeyond(db: Db, listing: Listing, token: string, f: Fetch, k: Key)
    requires StrictTotalOrder(db.lt) && ValidKeys(f.table, db.hasRK) && Issued(db, TokenCursor(token))
    requires IsPage(db, f.table, EligibleAt(db, listing, f.table, token), f.limit, f.res)
    requires k in f.table && Includes(db, listing, k) && Beyond(db, TokenCursor(token), k)
    ensures !OnPage(k, f.res) ==>
              f.res.nextPageToken != "" && Issued(db, TokenCursor(f.res.nextPageToken))
              && Beyond(db, TokenCursor(f.res.nextPageToken), k)
  {
    EligibleBeyond(db, listing, f.table, token, k);
    if !OnPage(k, f.res) {
      assert ValidKey(LastKey(f.res), db.hasRK);
    }
  }

  // The walk theorem: from the first page to the last, with the table changed in any way between pages
  // and any limit on each, no key comes twice, and every key that stayed comes exactly once.
  lemma WalkUnderTraffic(db: Db, listing: Listing, fetches: seq<Fetch>)
    requires StrictTotalOrder(db.lt) && AllValid(db, fetches)
    requires Follows(db, listing, "", fetches) && Complete(fetches)
    ensures Ascending(KeyOrder(db.lt), Returned(fetches))
    ensures forall k | Includes(db, listing, k) && (forall i | 0 <= i < |fetches| :: k in fetches[i].table) ::
              multiset(Returned(fetches))[k] == 1
    ensures forall k | k in Returned(fetches) ::
              Includes(db, listing, k) && exists i :: 0 <= i < |fetches| && k in fetches[i].table
  {
    WalkIncreases(db, listing, "", fetches);
    var keys := Returned(fetches);
    KeyOrderStrict(db.lt);
    AscendingNoDuplicates(KeyOrder(db.lt), keys);
    forall k | Includes(db, listing, k) && (forall i | 0 <= i < |fetches| :: k in fetches[i].table)
      ensures multiset(keys)[k] == 1
    {
      WalkFindsStayer(db, listing, "", fetches, k);
      EachOnce(keys, k);
    }
    forall k | k in keys
      ensures Includes(db, listing, k) && exists i :: 0 <= i < |fetches| && k in fetches[i].table
    {
      ReturnedFromTable(db, listing, "", fetches, k);
    }
  }

  lemma {:induction false} ReturnedFromTable(db: Db, listing: Listing, token: string, fetches: seq<Fetch>, k: Key)
    requires Follows(db, listing, token, fetches) && k in Returned(fetches)
    ensures exists i :: 0 <= i < |fetches| && k in fetches[i].table
    decreases |fetches|
  {
    if k in PageKeys(fetches[0].res) {
      assert k in fetches[0].table;
    } else {
      ReturnedFromTable(db, listing, fetches[0].res.nextPageToken, fetches[1..], k);
      var i :| 0 <= i < |fetches[1..]| && k in fetches[1..][i].table;
      assert k in fetches[i + 1].table;
    }
  }

  // ---------- walks on a table that stands still ----------

  ghost function Listed(db: Db, listing: Listing, table: Table): set<Key> {
    set k | k in table && Includes(db, listing, k)
  }

  ghost predicate Still(fetches: seq<Fetch>, table: Table, limit: int) {
    forall i | 0 <= i < |fetches| :: fetches[i].table == table && fetches[i].limit == limit
  }

  // pages is max(1, ceil(rows / limit)).
  predicate IsPageCount(pages: nat, rows: nat, limit: nat) {
    pages >= 1 && rows <= pages * limit && (pages > 1 ==> (pages - 1) * limit < rows)
  }

  lemma OneMorePage(pages: nat, rows: nat, limit: nat)
    requires IsPageCount(pages, rows, limit) && rows > 0
    ensures IsPageCount(pages + 1, rows + limit, limit)
  {
    assert (pages + 1) * limit == pages * limit + limit;
    assert (pages - 1) * limit == pages * limit - limit;
  }

  lemma OnePage(rows: nat, limit: nat)
    requires rows <= limit
    ensures IsPageCount(1, rows, limit)
  {
  }

  // A token is issued because some row is left, so the next page is not empty.
  lemma NextNotEmpty(db: Db, listing: Listing, token: string, table: Table, limit: int, fetches: seq<Fetch>)
    requires StrictTotalOrder(db.lt) && ValidKeys(table, db.hasRK) && Still(fetches, table, limit)
    requires Issued(db, TokenCursor(token)) && Follows(db, listing, token, fetches) && Complete(fetches)
    requires |fetches| > 1
    ensures |Returned(fetches[1..])| > 0
  {
    var f, rest := fetches[0], fetches[1..];
    var k :| k in EligibleAt(db, listing, table, token) && !OnPage(k, f.res);
    EligibleBeyond(db, listing, table, token, k);
    StayerOnPageOrBeyond(db, listing, token, f, k);
    RestValid(db, fetches);
    WalkFindsStayer(db, listing, f.res.nextPageToken, rest, k);
  }

  // Pages of a still table are full up to the last one, which is empty only when there is nothing to list.
  lemma {:induction false} StillPages(db: Db, listing: Listing, token: string, table: Table, limit: int,
                                      fetches: seq<Fetch>)
    requires StrictTotalOrder(db.lt) && ValidKeys(table, db.hasRK) && Still(fetches, table, limit)
    requires Issued(db, TokenCursor(token)) && Follows(db, listing, token, fetches) && Complete(fetches)
    ensures IsPageCount(|fetches|, |Returned(fetches)|, PageLimit(limit))
    decreases |fetches|
  {
    var f, rest := fetches[0], fetches[1..];
    if rest != [] {
      NextIssued(db, listing, token, f);
      StillPages(db, listing, f.res.nextPageToken, table, limit, rest);
      NextNotEmpty(db, listing, token, table, limit, fetches);
      OneMorePage(|rest|, |Returned(rest)|, PageLimit(limit));
    } else {
      assert Returned(fetches) == PageKeys(f.res);
      OnePage(|Returned(fetches)|, PageLimit(limit));
    }
  }

  lemma StillReturns(db: Db, listing: Listing, table: Table, limit: int, fetches: seq<Fetch>, sorted: seq<Key>)
    requires StrictTotalOrder(db.lt) && ValidKeys(table, db.hasRK) && Still(fetches, table, limit)
    requires Follows(db, listing, "", fetches) && Complete(fetches)
    requires Ascending(KeyOrder(db.lt), sorted) && forall k :: k in sorted <==> k in Listed(db, listing, table)
    ensures Returned(fetches) == sorted
  {
    WalkUnderTraffic(db, listing, fetches);
    forall k | k in sorted
      ensures k in Returned(fetches)
    {
      assert multiset(Returned(fetches))[k] == 1;
    }
    KeyOrderStrict(db.lt);
    AscendingUnique(KeyOrder(db.lt), Returned(fetches), sorted);
  }

  // A complete walk of a still table returns exactly the sorted list of matching keys, in
  // max(1, ceil(n / limit)) pages, with an empty token on the last page only.
  lemma StillWalk(db: Db, listing: Listing, table: Table, limit: int, fetches: seq<Fetch>, sorted: seq<Key>)
    requires StrictTotalOrder(db.lt) && ValidKeys(table, db.hasRK) && Still(fetches, table, limit)
    requires Follows(db, listing, "", fetches) && Complete(fetches)
    requires Ascending(KeyOrder(db.lt), sorted) && forall k :: k in sorted <==> k in Listed(db, listing, table)
    ensures Returned(fetches) == sorted
    ensures IsPageCount(|fetches|, |sorted|, PageLimit(limit))
    ensures forall i | 0 <= i < |fetches| :: fetches[i].res.nextPageToken == "" <==> i == |fetches| - 1
  {
    StillReturns(db, listing, table, limit, fetches, sorted);
    StillPages(db, listing, "", table, limit, fetches);
    TokensInside(db, listing, "", fetches);
  }

  lemma {:induction false} TokensInside(db: Db, listing: Listing, token: string, fetches: seq<Fetch>)
    requires Follows(db, listing, token, fetches)
    ensures forall i | 0 <= i < |fetches| - 1 :: fetches[i].res.nextPageToken != ""
    decreases |fetches|
  {
    if fetches != [] {
      TokensInside(db, listing, fetches[0].res.nextPageToken, fetches[1..]);
      forall i | 0 <= i < |fetches| - 1
        ensures fetches[i].res.nextPageToken != ""
      {
        assert i > 0 ==> fetches[i] == fetches[1..][i - 1];
      }
    }
  }

  // The rows above the cursor strictly decrease from page to page of a still table.
  lemma TokenMakesProgress(db: Db, listing: Listing, table: Table, token: string, limit: int, res: ListResult)
    requires StrictTotalOrder(db.lt) && ValidKeys(table, db.hasRK) && Issued(db, TokenCursor(token))
    requires IsPage(db, table, EligibleAt(db, listing, table, token), limit, res) && res.nextPageToken != ""
    ensures EligibleAt(db, listing, table, res.nextPageToken) < EligibleAt(db, listing, table, token)
  {
    var before, after := EligibleAt(db, listing, table, token), EligibleAt(db, listing, table, res.nextPageToken);
    var last := LastKey(res);
    assert ValidKey(last, db.hasRK);
    forall k | k in after
      ensures k in before
    {
      EligibleBeyond(db, listing, table, res.nextPageToken, k);
      EligibleBeyond(db, listing, table, token, last);
      if TokenCursor(token).Some? {
        KeyLtTransitive(db, Key(TokenCursor(token).value.pk, TokenCursor(token).value.rk), last, k);
      }
      EligibleBeyond(db, listing, table, token, k);
    }
    EligibleBeyond(db, listing, table, res.nextPageToken, last);
    assert last in before && last !in after;
  }

  // ---------- a client that follows the tokens ----------

  method FetchPage(ghost db: Db, ghost table: Table, exec: Query -> seq<ResultRow>, hasRK: bool, listing: Listing,
                   token: string, limit: int)
    returns (res: ListResult)
    requires StrictTotalOrder(db.lt) && ValidKeys(table, db.hasRK) && Executes(db, table, exec) && hasRK == db.hasRK
    ensures IsPage(db, table, EligibleAt(db, listing, table, token), limit, res)
  {
    match listing {
      case Scan => res := ScanTable(db, table, exec, hasRK, ScanOptions(token).(limit := limit));
      case Partition(pk, opts) =>
        res := ListItems(db, table, exec, pk, hasRK, opts.(pageToken := token, limit := limit));
    }
  }

  function TokenAfter(token: string, fetches: seq<Fetch>): string {
    if fetches == [] then token else fetches[|fetches| - 1].res.nextPageToken
  }

  ghost predicate IsFetch(db: Db, listing: Listing, token: string, f: Fetch) {
    IsPage(db, f.table, EligibleAt(db, listing, f.table, token), f.limit, f.res)
  }

  lemma FollowsOne(db: Db, listing: Listing, token: string, f: Fetch)
    requires IsFetch(db, listing, token, f)
    ensures Follows(db, listing, token, [f])
  {
    assert [f][1..] == [];
  }

  lemma FollowsCons(db: Db, listing: Listing, token: string, f: Fetch, rest: seq<Fetch>)
    requires IsFetch(db, listing, token, f) && (rest != [] ==> f.res.nextPageToken != "")
    requires Follows(db, listing, f.res.nextPageToken, rest)
    ensures Follows(db, listing, token, [f] + rest)
  {
    assert ([f] + rest)[1..] == rest;
  }

  lemma {:induction false} FollowsAppend(db: Db, listing: Listing, token: string, fetches: seq<Fetch>, last: string,
                                         f: Fetch)
    requires Follows(db, listing, token, fetches) && last == TokenAfter(token, fetches)
    requires (fetches != [] ==> last != "") && IsFetch(db, listing, last, f)
    ensures Follows(db, listing, token, fetches + [f])
    decreases |fetches|
  {
    if fetches == [] {
      FollowsOne(db, listing, token, f);
      assert fetches + [f] == [f];
    } else {
      var first, rest := fetches[0], fetches[1..];
      assert fetches + [f] == [first] + (rest + [f]);
      FollowsAppend(db, listing, first.res.nextPageToken, rest, last, f);
      FollowsCons(db, listing, token, first, rest + [f]);
    }
  }

  // The client has made these requests of a still table so far.
  ghost predicate Walked(db: Db, listing: Listing, table: Table, limit: int, fetches: seq<Fetch>, token: string,
                         done: bool) {
    && Follows(db, listing, "", fetches) && Still(fetches, table, limit)
    && token == TokenAfter("", fetches) && Issued(db, TokenCursor(token))
    && if done then Complete(fetches) else fetches == [] || token != ""
  }

  lemma NextIssued(db: Db, listing: Listing, token: string, f: Fetch)
    requires ValidKeys(f.table, db.hasRK) && IsFetch(db, listing, token, f)
    ensures Issued(db, TokenCursor(f.res.nextPageToken))
  {
    if f.res.nextPageToken != "" {
      assert ValidKey(LastKey(f.res), db.hasRK);
    }
  }

  lemma StillOn(fetches: seq<Fetch>, table: Table, limit: int, f: Fetch)
    requires Still(fetches, table, limit) && f.table == table && f.limit == limit
    ensures Still(fetches + [f], table, limit) && TokenAfter("", fetches + [f]) == f.res.nextPageToken
  {
  }

  lemma WalkOn(db: Db, listing: Listing, table: Table, limit: int, fetches: seq<Fetch>, token: string, f: Fetch)
    requires ValidKeys(table, db.hasRK) && Walked(db, listing, table, limit, fetches, token, false)
    requires f.table == table && f.limit == limit && IsFetch(db, listing, token, f)
    ensures Walked(db, listing, table, limit, fetches + [f], f.res.nextPageToken, f.res.nextPageToken == "")
  {
    FollowsAppend(db, listing, "", fetches, token, f);
    NextIssued(db, listing, token, f);
    StillOn(fetches, table, limit, f);
  }

  // On a still table the client below stops, having made a complete walk.
  method FollowTokens(ghost db: Db, ghost table: Table, exec: Query -> seq<ResultRow>, hasRK: bool, listing: Listing,
                      limit: int)
    returns (pages: seq<ListResult>, ghost fetches: seq<Fetch>)
    requires StrictTotalOrder(db.lt) && ValidKeys(table, db.hasRK) && Executes(db, table, exec) && hasRK == db.hasRK
    ensures Follows(db, listing, "", fetches) && Complete(fetches) && Still(fetches, table, limit)
    ensures |fetches| == |pages| && forall i | 0 <= i < |pages| :: fetches[i].res == pages[i]
  {
    var token, done := "", false;
    pages, fetches := [], [];
    while !done
      invariant Walked(db, listing, table, limit, fetches, token, done)
      invariant |fetches| == |pages| && forall i | 0 <= i < |pages| :: fetches[i].res == pages[i]
      decreases !done, EligibleAt(db, listing, table, token)
    {
      var res := FetchPage(db, table, exec, hasRK, listing, token, limit);
      WalkOn(db, listing, table, limit, fetches, token, Fetch(table, limit, res));
      if res.nextPageToken != "" {
        TokenMakesProgress(db, listing, table, token, limit, res);
      }
      pages, fetches := pages + [res], fetches + [Fetch(table, limit, res)];
      token, done := res.nextPageToken, res.nextPageToken == "";
    }
  }
}
