/** Walks over an index: exactly when they stop, miss nothing and repeat nothing. */
module IndexWalks {
  import opened Text
  import opened Sequences
  import opened Rows
  import opened Queries
  import opened Lists
  import opened Indexes
  import opened IndexPages
  import K = KeyWalks

  // ---------- when walks stop ----------

  // Row k passes its own cursor, and row l, which passes it too, may be left over by a page that ends in k.
  ghost predicate Trap(db: Db, table: Table, index: IndexConfig, listing: IndexListing, k: Key, l: Key) {
    && k in Matching(db, table, index, listing) && l in Matching(db, table, index, listing) && k != l
    && k in table && l in table
    && LetsThrough(db, table, index, k, k) && LetsThrough(db, table, index, k, l)
    && !IndexBefore(db, table, index, l, k)
  }

  ghost predicate CanLoop(db: Db, table: Table, index: IndexConfig, listing: IndexListing) {
    exists k, l :: Trap(db, table, index, listing, k, l)
  }

  // A row passes its own cursor exactly if its index range value is greater than its base range key.
  lemma PassesItselfIff(db: Db, table: Table, index: IndexConfig, k: Key)
    requires StrictTotalOrder(db.lt) && k in table
    ensures LetsThrough(db, table, index, k, k) <==>
              index.rkField != "" && FieldText(db, table[k].data, index.rkField).Some?
              && db.lt(k.rk, FieldText(db, table[k].data, index.rkField).value)
  {
  }

  // Without a trap, each token names a greater position than the one before it.
  lemma CursorClimbs(db: Db, table: Table, index: IndexConfig, listing: IndexListing, k: Key, m: Key, l: Key)
    requires StrictTotalOrder(db.lt) && !CanLoop(db, table, index, listing)
    requires m in Matching(db, table, index, listing) && l in Matching(db, table, index, listing) && m != l
    requires m in table && l in table
    requires LetsThrough(db, table, index, k, m) && LetsThrough(db, table, index, k, l)
    requires !IndexBefore(db, table, index, l, m)
    ensures KeyLt(db.lt, k, m)
  {
    assert !Trap(db, table, index, listing, m, l);
  }

  lemma WalkClimbs(db: Db, table: Table, index: IndexConfig, listing: IndexListing)
    requires StrictTotalOrder(db.lt) && !CanLoop(db, table, index, listing)
    ensures K.Climbs(Order(db, table, index), Reach(db, table, index), Matching(db, table, index, listing),
                     KeyOrder(db.lt))
  {
    var before, reach, all := Order(db, table, index), Reach(db, table, index), Matching(db, table, index, listing);
    EligibleWithin(db, table, index, listing, "");
    forall k, m, l | m in all && l in all && m != l && reach(k, m) && reach(k, l) && !before(l, m)
      ensures KeyLt(db.lt, k, m)
    {
      CursorClimbs(db, table, index, listing, k, m, l);
    }
  }

  // Without a trap, a walk from any token has at most one page more than there are matching rows.
  lemma IndexWalkStops(db: Db, table: Table, index: IndexConfig, listing: IndexListing, token: string,
                       pages: seq<IndexFetch>)
    requires StrictTotalOrder(db.lt) && !CanLoop(db, table, index, listing)
    requires FollowsIndex(db, table, index, listing, token, pages)
    ensures |pages| <= |Matching(db, table, index, listing)| + 1
  {
    WalkByKeys(db, table, index, listing, token, pages);
    EligibleWithin(db, table, index, listing, token);
    KeyOrderStrict(db.lt);
    WalkClimbs(db, table, index, listing);
    K.WalkStops(Order(db, table, index), Reach(db, table, index), Matching(db, table, index, listing),
                KeyOrder(db.lt), IndexEligible(db, table, index, listing, token),
                KeyPages(pages));
  }

  // With a trap, there are walks of every length.
  lemma IndexWalkLoops(db: Db, table: Table, index: IndexConfig, listing: IndexListing, n: nat)
    returns (pages: seq<IndexFetch>)
    requires StrictTotalOrder(db.lt) && ValidKeys(table, db.hasRK) && CanLoop(db, table, index, listing)
    ensures FollowsIndex(db, table, index, listing, "", pages) && |pages| == n + 1
  {
    var k, l :| Trap(db, table, index, listing, k, l);
    OrderIsStrict(db, table, index);
    var all := Matching(db, table, index, listing);
    var walk := K.TrapLoops(Order(db, table, index), Reach(db, table, index), all, k, l, n);
    pages := WalkFromKeys(db, table, index, listing, "", walk);
    assert |KeyPages(pages)| == |pages|;
  }

  ghost predicate Bounded(db: Db, table: Table, index: IndexConfig, listing: IndexListing, bound: nat) {
    forall pages | FollowsIndex(db, table, index, listing, "", pages) :: |pages| <= bound
  }

  // With page limits free, the walks of a still table stop exactly if there is no trap.
  lemma IndexWalksStopIff(db: Db, table: Table, index: IndexConfig, listing: IndexListing)
    requires StrictTotalOrder(db.lt) && ValidKeys(table, db.hasRK)
    ensures (exists bound :: Bounded(db, table, index, listing, bound)) <==> !CanLoop(db, table, index, listing)
  {
    if CanLoop(db, table, index, listing) {
      forall bound: nat
        ensures !Bounded(db, table, index, listing, bound)
      {
        var pages := IndexWalkLoops(db, table, index, listing, bound);
      }
    } else {
      forall pages | FollowsIndex(db, table, index, listing, "", pages)
        ensures |pages| <= |Matching(db, table, index, listing)| + 1
      {
        IndexWalkStops(db, table, index, listing, "", pages);
      }
      assert Bounded(db, table, index, listing, |Matching(db, table, index, listing)| + 1);
    }
  }

  ghost function PkLt(lt: (string, string) -> bool): (Key, Key) -> bool {
    (a: Key, b: Key) => lt(a.pk, b.pk)
  }

  ghost function PkGt(lt: (string, string) -> bool): (Key, Key) -> bool {
    (a: Key, b: Key) => lt(b.pk, a.pk)
  }

  lemma LtTransitive(lt: (string, string) -> bool, a: string, b: string, c: string)
    requires StrictTotalOrder(lt)
    ensures !lt(a, a) && (lt(a, b) && lt(b, c) ==> lt(a, c))
  {
  }

  lemma PkLtStrict(lt: (string, string) -> bool)
    requires StrictTotalOrder(lt)
    ensures StrictOrder(PkLt(lt)) && StrictOrder(PkGt(lt))
  {
    forall a, b, c
      ensures !PkLt(lt)(a, a) && (PkLt(lt)(a, b) && PkLt(lt)(b, c) ==> PkLt(lt)(a, c))
      ensures !PkGt(lt)(a, a) && (PkGt(lt)(a, b) && PkGt(lt)(b, c) ==> PkGt(lt)(a, c))
    {
      LtTransitive(lt, a.pk, b.pk, c.pk);
      LtTransitive(lt, c.pk, b.pk, a.pk);
    }
  }

  lemma PkReachClimbs(db: Db, table: Table, index: IndexConfig)
    requires index.rkField == ""
    ensures forall a, b | Reach(db, table, index)(a, b) :: PkLt(db.lt)(a, b)
  {
  }

  // In a walk over an index without a range key the base pk of the cursor climbs: every row of a later page
  // has a base pk beyond the last one of an earlier page.
  lemma PkIndexWalkClimbs(db: Db, table: Table, index: IndexConfig, listing: IndexListing, token: string,
                          pages: seq<IndexFetch>, i: nat, j: nat, n: nat)
    requires StrictTotalOrder(db.lt) && index.rkField == ""
    requires FollowsIndex(db, table, index, listing, token, pages)
    requires i < j < |pages| && n < |pages[j].res.items|
    ensures pages[i].res.items != [] && db.lt(LastKey(pages[i].res).pk, pages[j].res.items[n].pk)
  {
    var x, walk := ItemKey(pages[j].res.items[n]), KeyPages(pages);
    WalkByKeys(db, table, index, listing, token, pages);
    PkLtStrict(db.lt);
    PkReachClimbs(db, table, index);
    assert walk[i] == KeyPage(pages[i]) && walk[j] == KeyPage(pages[j]);
    assert KeysOf(pages[j].res)[n] == x;
    K.LaterBeyond(Order(db, table, index), Reach(db, table, index), Matching(db, table, index, listing), PkLt(db.lt),
                  IndexEligible(db, table, index, listing, token), walk, i, j, x);
    LastIsLast(pages[i]);
  }

  lemma LastIsLast(p: IndexFetch)
    ensures |KeyPage(p).keys| == |p.res.items|
    ensures p.res.items != [] ==> K.Last(KeyPage(p)) == LastKey(p.res)
  {
  }

  // ---------- when walks miss nothing ----------

  predicate CompleteWalk(pages: seq<IndexFetch>) {
    pages != [] && pages[|pages| - 1].res.nextPageToken == ""
  }

  ghost predicate OnSomePage(k: Key, pages: seq<IndexFetch>) {
    exists i | 0 <= i < |pages| :: OnPage(k, pages[i].res)
  }

  // Every complete walk of the still table returns every matching row.
  ghost predicate NothingMissed(db: Db, table: Table, index: IndexConfig, listing: IndexListing) {
    forall pages, k | FollowsIndex(db, table, index, listing, "", pages) && CompleteWalk(pages)
                      && k in Matching(db, table, index, listing) ::
      OnSomePage(k, pages)
  }

  lemma OnSomePageIff(k: Key, pages: seq<IndexFetch>)
    ensures OnSomePage(k, pages) <==> K.Returned(k, KeyPages(pages))
  {
    forall i | 0 <= i < |pages| ensures OnPage(k, pages[i].res) <==> k in KeyPages(pages)[i].keys {
      OnPageIffKey(k, pages[i].res);
    }
    if OnSomePage(k, pages) {
      var i :| 0 <= i < |pages| && OnPage(k, pages[i].res);
      assert k in KeyPages(pages)[i].keys;
    }
    if K.Returned(k, KeyPages(pages)) {
      var i :| 0 <= i < |KeyPages(pages)| && k in KeyPages(pages)[i].keys;
      assert OnPage(k, pages[i].res);
    }
  }

  // Of any two matching rows, the second passes the cursor of the first or must come before it.
  ghost predicate NothingSkipped(db: Db, table: Table, index: IndexConfig, listing: IndexListing) {
    forall k, l | k in Matching(db, table, index, listing) && l in Matching(db, table, index, listing) && k != l ::
      k in table && l in table && (LetsThrough(db, table, index, k, l) || IndexBefore(db, table, index, l, k))
  }

  lemma WalkReturnsAll(db: Db, table: Table, index: IndexConfig, listing: IndexListing, pages: seq<IndexFetch>, k: Key)
    requires NothingSkipped(db, table, index, listing)
    requires FollowsIndex(db, table, index, listing, "", pages) && CompleteWalk(pages)
    requires k in Matching(db, table, index, listing)
    ensures OnSomePage(k, pages)
  {
    WalkByKeys(db, table, index, listing, "", pages);
    K.WalkReturns(Order(db, table, index), Reach(db, table, index), Matching(db, table, index, listing),
                  Matching(db, table, index, listing), KeyPages(pages), k);
    OnSomePageIff(k, pages);
  }

  lemma WalkCanMiss(db: Db, table: Table, index: IndexConfig, listing: IndexListing, k: Key, l: Key)
    returns (pages: seq<IndexFetch>)
    requires StrictTotalOrder(db.lt) && ValidKeys(table, db.hasRK)
    requires k in Matching(db, table, index, listing) && l in Matching(db, table, index, listing) && k != l
    requires k in table && l in table && !LetsThrough(db, table, index, k, l) && !IndexBefore(db, table, index, l, k)
    ensures FollowsIndex(db, table, index, listing, "", pages) && CompleteWalk(pages) && !OnSomePage(l, pages)
  {
    OrderIsStrict(db, table, index);
    var all := Matching(db, table, index, listing);
    var walk := K.SkippedIsMissed(Order(db, table, index), Reach(db, table, index), all, k, l);
    pages := WalkFromKeys(db, table, index, listing, "", walk);
    CompleteIff(pages);
    OnSomePageIff(l, pages);
  }

  lemma CompleteIff(pages: seq<IndexFetch>)
    ensures CompleteWalk(pages) <==> K.Complete(KeyPages(pages))
  {
    assert |KeyPages(pages)| == |pages|;
    assert pages != [] ==> KeyPages(pages)[|pages| - 1] == KeyPage(pages[|pages| - 1]);
  }

  // With page limits free, complete walks of a still table miss nothing exactly if nothing can be skipped.
  lemma IndexWalkCompleteIff(db: Db, table: Table, index: IndexConfig, listing: IndexListing)
    requires StrictTotalOrder(db.lt) && ValidKeys(table, db.hasRK)
    ensures NothingMissed(db, table, index, listing) <==> NothingSkipped(db, table, index, listing)
  {
    EligibleWithin(db, table, index, listing, "");
    if NothingSkipped(db, table, index, listing) {
      forall pages, k | FollowsIndex(db, table, index, listing, "", pages) && CompleteWalk(pages)
                        && k in Matching(db, table, index, listing)
        ensures OnSomePage(k, pages)
      {
        WalkReturnsAll(db, table, index, listing, pages, k);
      }
    } else {
      var all := Matching(db, table, index, listing);
      var k, l :| k in all && l in all && k != l && k in table && l in table
                  && !LetsThrough(db, table, index, k, l) && !IndexBefore(db, table, index, l, k);
      var pages := WalkCanMiss(db, table, index, listing, k, l);
    }
  }

  // For an index without a range key: of any two matching rows, the second has the greater base pk or must come before.
  lemma PkIndexWalkCompleteIff(db: Db, table: Table, index: IndexConfig, listing: IndexListing)
    requires StrictTotalOrder(db.lt) && ValidKeys(table, db.hasRK) && index.rkField == ""
    ensures Matching(db, table, index, listing) <= table.Keys
    ensures var all := Matching(db, table, index, listing);
            NothingMissed(db, table, index, listing) <==>
              forall k, l | k in all && l in all && k != l :: db.lt(k.pk, l.pk) || IndexBefore(db, table, index, l, k)
  {
    EligibleWithin(db, table, index, listing, "");
    IndexWalkCompleteIff(db, table, index, listing);
  }

  // ---------- when walks repeat nothing ----------

  // No row comes back after the page it was on.
  ghost predicate NothingRepeated(db: Db, table: Table, index: IndexConfig, listing: IndexListing) {
    forall pages | FollowsIndex(db, table, index, listing, "", pages) :: K.NoRepeats(KeyPages(pages))
  }

  // Row m passes the cursor of row k again, though a page may hold it, end in k and leave row l over.
  ghost predicate Readmits(db: Db, table: Table, index: IndexConfig, listing: IndexListing, k: Key, m: Key, l: Key) {
    var all := Matching(db, table, index, listing);
    && k in all && m in all && l in all && l != k && l != m && k in table && m in table && l in table
    && LetsThrough(db, table, index, k, m)
    && !IndexBefore(db, table, index, k, m) && !IndexBefore(db, table, index, l, k)
    && !IndexBefore(db, table, index, l, m)
  }

  lemma ReadmitsIff(db: Db, table: Table, index: IndexConfig, listing: IndexListing, k: Key, m: Key, l: Key)
    ensures var all := Matching(db, table, index, listing);
            Readmits(db, table, index, listing, k, m, l)
            <==> K.Readmits(Order(db, table, index), Reach(db, table, index), all, k, m, l)
  {
    EligibleWithin(db, table, index, listing, "");
  }

  // A cursor reaches all that a greater one reaches.
  lemma ReachShrinks(db: Db, table: Table, index: IndexConfig, a: Key, b: Key, c: Key)
    requires StrictTotalOrder(db.lt) && KeyLt(db.lt, a, b) && Reach(db, table, index)(b, c)
    ensures Reach(db, table, index)(a, c)
  {
  }

  // A trap readmits its own row.
  lemma TrapReadmits(db: Db, table: Table, index: IndexConfig, listing: IndexListing)
    requires StrictTotalOrder(db.lt) && CanLoop(db, table, index, listing)
    ensures exists k, m, l :: Readmits(db, table, index, listing, k, m, l)
  {
    var k, l :| Trap(db, table, index, listing, k, l);
    OrderLtStrict(db, IndexOrder(index), k, table[k].data, k, table[k].data, k, table[k].data);
    assert Readmits(db, table, index, listing, k, k, l);
  }

  lemma NoRepeat(db: Db, table: Table, index: IndexConfig, listing: IndexListing, pages: seq<IndexFetch>)
    requires StrictTotalOrder(db.lt) && FollowsIndex(db, table, index, listing, "", pages)
    requires forall k, m, l :: !Readmits(db, table, index, listing, k, m, l)
    ensures K.NoRepeats(KeyPages(pages))
  {
    var before, reach, all := Order(db, table, index), Reach(db, table, index), Matching(db, table, index, listing);
    var less := KeyOrder(db.lt);
    if CanLoop(db, table, index, listing) {
      TrapReadmits(db, table, index, listing);
    }
    WalkByKeys(db, table, index, listing, "", pages);
    OrderIsStrict(db, table, index);
    WalkClimbs(db, table, index, listing);
    forall a, b, c | less(a, b) && reach(b, c) ensures reach(a, c) { ReachShrinks(db, table, index, a, b, c); }
    forall k, m, l ensures !K.Readmits(before, reach, all, k, m, l) { ReadmitsIff(db, table, index, listing, k, m, l); }
    var walk := KeyPages(pages);
    forall i, j, x | 0 <= i < j < |walk| && x in walk[i].keys
      ensures x !in walk[j].keys
    {
      if x in walk[j].keys {
        K.RepeatIsReadmitted(before, reach, all, less, all, walk, i, j, x);
      }
    }
  }

  // With page limits free, walks of a still table return no row twice exactly if no row is readmitted.
  lemma IndexWalkRepeatsIff(db: Db, table: Table, index: IndexConfig, listing: IndexListing)
    requires StrictTotalOrder(db.lt) && ValidKeys(table, db.hasRK)
    ensures NothingRepeated(db, table, index, listing)
            <==> forall k, m, l :: !Readmits(db, table, index, listing, k, m, l)
  {
    if k, m, l :| Readmits(db, table, index, listing, k, m, l) {
      ReadmitsIff(db, table, index, listing, k, m, l);
      OrderIsStrict(db, table, index);
      var all := Matching(db, table, index, listing);
      var walk := K.ReadmittedRepeats(Order(db, table, index), Reach(db, table, index), all, k, m, l);
      var pages := WalkFromKeys(db, table, index, listing, "", walk);
    } else {
      forall pages | FollowsIndex(db, table, index, listing, "", pages)
        ensures K.NoRepeats(KeyPages(pages))
      {
        NoRepeat(db, table, index, listing, pages);
      }
    }
  }

  // ---------- one index value, one limit ----------

  // Every page has room for the same number of rows.
  predicate AtLimit(pages: seq<IndexFetch>, limit: nat) {
    forall i | 0 <= i < |pages| :: PageLimit(pages[i].limit) == limit
  }

  ghost predicate NothingMissedAt(db: Db, table: Table, index: IndexConfig, listing: IndexListing, limit: nat) {
    forall pages, k | FollowsIndex(db, table, index, listing, "", pages) && CompleteWalk(pages) && AtLimit(pages, limit)
                      && k in Matching(db, table, index, listing) ::
      OnSomePage(k, pages)
  }

  lemma OnePageReturnsAll(db: Db, table: Table, index: IndexConfig, listing: IndexListing, pages: seq<IndexFetch>,
                          limit: nat, k: Key)
    requires |Matching(db, table, index, listing)| <= limit && AtLimit(pages, limit)
    requires FollowsIndex(db, table, index, listing, "", pages) && pages != []
    requires k in Matching(db, table, index, listing)
    ensures OnSomePage(k, pages)
  {
    WalkByKeys(db, table, index, listing, "", pages);
    assert KeyPages(pages)[0] == KeyPage(pages[0]);
    K.RoomForAll(Order(db, table, index), Matching(db, table, index, listing), KeyPage(pages[0]));
    assert k in KeyPages(pages)[0].keys;
    OnSomePageIff(k, pages);
  }

  // Rows of one value of an index without a range key all tie.
  lemma QueryTies(db: Db, table: Table, index: IndexConfig, indexPk: string, opts: ListOptions, k: Key, l: Key)
    requires StrictTotalOrder(db.lt) && index.rkField == ""
    requires k in Matching(db, table, index, QueryFor(indexPk, opts))
    requires l in Matching(db, table, index, QueryFor(indexPk, opts))
    ensures !Order(db, table, index)(k, l)
  {
    var listing := QueryFor(indexPk, opts);
    EligibleWithin(db, table, index, listing, "");
    var order := IndexOrder(index);
    assert order == [DataField(index.pkField)] && order[1..] == [];
    assert FieldText(db, table[k].data, index.pkField) == Some(indexPk) == FieldText(db, table[l].data, index.pkField);
    assert !db.lt(indexPk, indexPk);
    assert !OrderLt(db, order[1..], k, table[k].data, l, table[l].data);
    assert !OrderLt(db, order, k, table[k].data, l, table[l].data);
  }

  // The cursor of the row with the greatest base pk lets nothing through.
  lemma SomeLast(db: Db, table: Table, index: IndexConfig, listing: IndexListing) returns (k: Key)
    requires StrictTotalOrder(db.lt) && index.rkField == "" && Matching(db, table, index, listing) != {}
    ensures k in Matching(db, table, index, listing)
    ensures K.Reached(Reach(db, table, index), Matching(db, table, index, listing), k) == {}
  {
    PkLtStrict(db.lt);
    k := SomeFirst(PkGt(db.lt), Matching(db, table, index, listing));
    assert forall l | l in Matching(db, table, index, listing) :: !PkGt(db.lt)(l, k);
  }

  // With one limit for all pages, walks of one index value miss nothing exactly if all its rows fit on a page.
  lemma PkIndexQueryCompleteIff(db: Db, table: Table, index: IndexConfig, indexPk: string, opts: ListOptions,
                                limit: nat)
    requires StrictTotalOrder(db.lt) && ValidKeys(table, db.hasRK) && index.rkField == "" && limit > 0
    ensures NothingMissedAt(db, table, index, QueryFor(indexPk, opts), limit)
            <==> |Matching(db, table, index, QueryFor(indexPk, opts))| <= limit
  {
    var listing := QueryFor(indexPk, opts);
    var all := Matching(db, table, index, listing);
    if |all| <= limit {
      forall pages, k | FollowsIndex(db, table, index, listing, "", pages) && CompleteWalk(pages)
                        && AtLimit(pages, limit) && k in all
        ensures OnSomePage(k, pages)
      {
        OnePageReturnsAll(db, table, index, listing, pages, limit, k);
      }
    } else {
      var pages, l := QueryCanMiss(db, table, index, indexPk, opts, limit);
    }
  }

  lemma QueryCanMiss(db: Db, table: Table, index: IndexConfig, indexPk: string, opts: ListOptions, limit: nat)
    returns (pages: seq<IndexFetch>, l: Key)
    requires StrictTotalOrder(db.lt) && ValidKeys(table, db.hasRK) && index.rkField == ""
    requires 0 < limit < |Matching(db, table, index, QueryFor(indexPk, opts))|
    ensures FollowsIndex(db, table, index, QueryFor(indexPk, opts), "", pages)
    ensures CompleteWalk(pages) && AtLimit(pages, limit)
    ensures l in Matching(db, table, index, QueryFor(indexPk, opts)) && !OnSomePage(l, pages)
  {
    var listing := QueryFor(indexPk, opts);
    var before, reach, all := Order(db, table, index), Reach(db, table, index), Matching(db, table, index, listing);
    var k := SomeLast(db, table, index, listing);
    forall a, b | a in all && b in all ensures !before(a, b) {
      QueryTies(db, table, index, indexPk, opts, a, b);
    }
    var walk;
    walk, l := K.TiesAreMissed(before, reach, all, limit, k);
    pages := WalkFromKeys(db, table, index, listing, "", walk);
    assert forall i | 0 <= i < |pages| :: walk[i] == KeyPage(pages[i]);
    CompleteIff(pages);
    OnSomePageIff(l, pages);
  }
}
