/** Walks of an index in which every page has the same limit: exactly when they stop. */
module SteadyWalks {
  import opened Text
  import opened Sequences
  import opened Rows
  import opened Queries
  import opened Indexes
  import opened IndexPages
  import opened Trails
  import I = IndexWalks
  import K = KeyWalks

  // ---------- walks of an index ----------

  // With this limit on every page, some cursor comes again.
  ghost predicate ComesAgain(db: Db, table: Table, index: IndexConfig, listing: IndexListing, limit: nat) {
    CanCircle(Order(db, table, index), Reach(db, table, index), Matching(db, table, index, listing), limit)
  }

  lemma KeyPagesAtLimit(pages: seq<IndexFetch>, limit: nat)
    ensures |KeyPages(pages)| == |pages| && (I.AtLimit(pages, limit) <==> K.AllOf(KeyPages(pages), limit))
  {
    assert forall i | 0 <= i < |pages| :: KeyPages(pages)[i] == KeyPage(pages[i]);
  }

  // Where none does, a walk has at most one page more than there are matching rows.
  lemma SteadyWalkStops(db: Db, table: Table, index: IndexConfig, listing: IndexListing, limit: nat,
                        pages: seq<IndexFetch>)
    requires StrictTotalOrder(db.lt) && !ComesAgain(db, table, index, listing, limit)
    requires FollowsIndex(db, table, index, listing, "", pages) && I.AtLimit(pages, limit)
    ensures |pages| <= |Matching(db, table, index, listing)| + 1
  {
    if pages != [] {
      var before, reach, all := Order(db, table, index), Reach(db, table, index), Matching(db, table, index, listing);
      OrderIsStrict(db, table, index);
      WalkByKeys(db, table, index, listing, "", pages);
      KeyPagesAtLimit(pages, limit);
      var trail := WalkLeavesTrail(before, reach, all, limit, all, KeyPages(pages));
      NoDuplicatesSize(trail);
      SubsetSize(Members(trail), all);
    }
  }

  // Where one does, there are walks of every length.
  lemma SteadyWalkLoops(db: Db, table: Table, index: IndexConfig, listing: IndexListing, limit: nat, n: nat)
    returns (pages: seq<IndexFetch>)
    requires StrictTotalOrder(db.lt) && ValidKeys(table, db.hasRK) && ComesAgain(db, table, index, listing, limit)
    ensures FollowsIndex(db, table, index, listing, "", pages) && I.AtLimit(pages, limit) && |pages| == n
  {
    var before, reach, all := Order(db, table, index), Reach(db, table, index), Matching(db, table, index, listing);
    OrderIsStrict(db, table, index);
    var trail :| IsTrail(before, reach, all, limit, all, trail) && !NoDuplicates(trail);
    var i, j :| 0 <= i < j < |trail| && trail[i] == trail[j];
    var long := RoundAndRound(before, reach, all, limit, trail, i, j, n);
    var walk := TrailIsWalked(before, reach, all, limit, all, long);
    pages := WalkFromKeys(db, table, index, listing, "", walk);
    KeyPagesAtLimit(pages, limit);
  }

  ghost predicate BoundedAt(db: Db, table: Table, index: IndexConfig, listing: IndexListing, limit: nat, bound: nat) {
    forall pages | FollowsIndex(db, table, index, listing, "", pages) && I.AtLimit(pages, limit) :: |pages| <= bound
  }

  // A client that keeps one limit stops on a still table exactly if no cursor can come again.
  lemma SteadyWalksStopIff(db: Db, table: Table, index: IndexConfig, listing: IndexListing, limit: nat)
    requires StrictTotalOrder(db.lt) && ValidKeys(table, db.hasRK)
    ensures (exists bound :: BoundedAt(db, table, index, listing, limit, bound))
            <==> !ComesAgain(db, table, index, listing, limit)
  {
    if ComesAgain(db, table, index, listing, limit) {
      forall bound: nat
        ensures !BoundedAt(db, table, index, listing, limit, bound)
      {
        var pages := SteadyWalkLoops(db, table, index, listing, limit, bound + 1);
      }
    } else {
      forall pages | FollowsIndex(db, table, index, listing, "", pages) && I.AtLimit(pages, limit)
        ensures |pages| <= |Matching(db, table, index, listing)| + 1
      {
        SteadyWalkStops(db, table, index, listing, limit, pages);
      }
      assert BoundedAt(db, table, index, listing, limit, |Matching(db, table, index, listing)| + 1);
    }
  }
}
