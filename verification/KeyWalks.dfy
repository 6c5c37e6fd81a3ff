/** Walks of pages seen from their keys alone: how the rows are sorted, and which rows the cursor of
    the last key of a page lets through to the next. */
module KeyWalks {
  import opened Sequences

  // A page of at most limit keys; more tells that some were left.
  datatype Page<K> = Page(limit: nat, keys: seq<K>, more: bool)

  function Last<K>(p: Page<K>): K
    requires p.keys != []
  {
    p.keys[|p.keys| - 1]
  }

  // The first eligible keys in order, ties broken at will, and full if any are left.
  ghost predicate IsPage<K(!new)>(before: (K, K) -> bool, eligible: set<K>, p: Page<K>) {
    && p.limit > 0 && |p.keys| <= p.limit
    && NoDuplicates(p.keys) && Ordered(before, p.keys)
    && (forall k | k in p.keys :: k in eligible)
    && (forall k, l | k in eligible && k !in p.keys && l in p.keys :: !before(k, l))
    && (p.more <==> exists k :: k in eligible && k !in p.keys)
    && (p.more ==> |p.keys| == p.limit)
  }

  ghost function Reached<K(!new)>(reaches: (K, K) -> bool, all: set<K>, k: K): set<K> {
    set l | l in all && reaches(k, l)
  }

  // The first page draws on the eligible keys, each later one on what the cursor before it reaches.
  ghost predicate IsWalk<K(!new)>(before: (K, K) -> bool, reaches: (K, K) -> bool, all: set<K>, eligible: set<K>,
                                  pages: seq<Page<K>>)
    decreases |pages|
  {
    pages == [] ||
    (IsPage(before, eligible, pages[0])
     && (|pages| > 1 ==>
           pages[0].more && IsWalk(before, reaches, all, Reached(reaches, all, Last(pages[0])), pages[1..])))
  }

  predicate Complete<K>(pages: seq<Page<K>>) {
    pages != [] && !pages[|pages| - 1].more
  }

  predicate Returned<K(==)>(k: K, pages: seq<Page<K>>) {
    exists i | 0 <= i < |pages| :: k in pages[i].keys
  }

  // ---------- when walks stop ----------

  // The cursor of k reaches k itself and some other key that a page ending in k may leave over.
  ghost predicate Trap<K(!new)>(before: (K, K) -> bool, reaches: (K, K) -> bool, all: set<K>, k: K, l: K) {
    k in all && l in all && k != l && reaches(k, k) && reaches(k, l) && !before(l, k)
  }

  ghost predicate CanLoop<K(!new)>(before: (K, K) -> bool, reaches: (K, K) -> bool, all: set<K>) {
    exists k, l :: Trap(before, reaches, all, k, l)
  }

  // The cursors climb: after k, a page that leaves some key over ends in a greater key.
  ghost predicate Climbs<K(!new)>(before: (K, K) -> bool, reaches: (K, K) -> bool, all: set<K>, less: (K, K) -> bool) {
    forall k, m, l | m in all && l in all && m != l && reaches(k, m) && reaches(k, l) && !before(l, m) :: less(k, m)
  }

  ghost function Above<K(!new)>(less: (K, K) -> bool, all: set<K>, k: K): set<K> {
    set l | l in all && less(k, l)
  }

  lemma {:induction false} ClimbingWalkStops<K(!new)>(before: (K, K) -> bool, reaches: (K, K) -> bool, all: set<K>,
                                                      less: (K, K) -> bool, k: K, pages: seq<Page<K>>)
    requires StrictOrder(less) && Climbs(before, reaches, all, less)
    requires IsWalk(before, reaches, all, Reached(reaches, all, k), pages)
    ensures |pages| <= |Above(less, all, k)| + 1
    decreases |pages|
  {
    if |pages| > 1 {
      var m := Last(pages[0]);
      var l :| l in Reached(reaches, all, k) && l !in pages[0].keys;
      assert m in pages[0].keys && less(k, m);
      ClimbingWalkStops(before, reaches, all, less, m, pages[1..]);
      assert Above(less, all, m) <= Above(less, all, k) && m in Above(less, all, k) && m !in Above(less, all, m);
      SubsetSize(Above(less, all, m), Above(less, all, k));
    }
  }

  // From any start, such a walk has at most one page more than there are keys.
  lemma WalkStops<K(!new)>(before: (K, K) -> bool, reaches: (K, K) -> bool, all: set<K>, less: (K, K) -> bool,
                           eligible: set<K>, pages: seq<Page<K>>)
    requires StrictOrder(less) && Climbs(before, reaches, all, less) && eligible <= all
    requires IsWalk(before, reaches, all, eligible, pages)
    ensures |pages| <= |all| + 1
  {
    if |pages| > 1 {
      var m := Last(pages[0]);
      assert m in pages[0].keys;
      ClimbingWalkStops(before, reaches, all, less, m, pages[1..]);
      assert Above(less, all, m) <= all && m in all && m !in Above(less, all, m);
      SubsetSize(Above(less, all, m), all);
    }
  }

  // Where a cursor reaches greater keys only, all that follows a key is greater.
  lemma {:induction false} AllBeyond<K(!new)>(before: (K, K) -> bool, reaches: (K, K) -> bool, all: set<K>,
                                              less: (K, K) -> bool, k: K, pages: seq<Page<K>>, j: nat, x: K)
    requires StrictOrder(less) && forall a, b | reaches(a, b) :: less(a, b)
    requires IsWalk(before, reaches, all, Reached(reaches, all, k), pages) && j < |pages| && x in pages[j].keys
    ensures less(k, x)
    decreases |pages|
  {
    if j > 0 {
      var m := Last(pages[0]);
      assert m in pages[0].keys && less(k, m);
      AllBeyond(before, reaches, all, less, m, pages[1..], j - 1, x);
    }
  }

  lemma {:induction false} LaterBeyond<K(!new)>(before: (K, K) -> bool, reaches: (K, K) -> bool, all: set<K>,
                                                less: (K, K) -> bool, eligible: set<K>, pages: seq<Page<K>>,
                                                i: nat, j: nat, x: K)
    requires StrictOrder(less) && forall a, b | reaches(a, b) :: less(a, b)
    requires IsWalk(before, reaches, all, eligible, pages) && i < j < |pages| && x in pages[j].keys
    ensures pages[i].keys != [] && less(Last(pages[i]), x)
    decreases |pages|
  {
    var m := Last(pages[0]);
    if i == 0 {
      AllBeyond(before, reaches, all, less, m, pages[1..], j - 1, x);
    } else {
      LaterBeyond(before, reaches, all, less, Reached(reaches, all, m), pages[1..], i - 1, j - 1, x);
    }
  }

  // ---------- making pages ----------

  // A page can end in any key that leaves another over.
  lemma PageEndingIn<K(!new)>(before: (K, K) -> bool, eligible: set<K>, k: K, l: K) returns (p: Page<K>)
    requires StrictOrder(before) && k in eligible && l in eligible && k != l && !before(l, k)
    ensures IsPage(before, eligible, p) && p.more && Last(p) == k && l !in p.keys
  {
    var front := Arrange(before, set m | m in eligible && before(m, k));
    var keys := front + [k];
    p := Page(|keys|, keys, true);
    assert forall m :: m in keys <==> m == k || m in front;
    assert forall i | 0 <= i < |front| :: front[i] in front;
    assert l !in keys;
  }

  lemma WholePage<K(!new)>(before: (K, K) -> bool, eligible: set<K>) returns (p: Page<K>)
    requires StrictOrder(before)
    ensures IsPage(before, eligible, p) && !p.more && forall k :: k in p.keys <==> k in eligible
  {
    var keys := Arrange(before, eligible);
    p := Page(|keys| + 1, keys, false);
  }

  // ---------- walks without end ----------

  ghost function Repeat<K(!new)>(p: Page<K>, n: nat): seq<Page<K>> {
    if n == 0 then [] else [p] + Repeat(p, n - 1)
  }

  lemma {:induction false} RepeatIsWalk<K(!new)>(before: (K, K) -> bool, reaches: (K, K) -> bool, all: set<K>,
                                                 p: Page<K>, n: nat)
    requires p.more && p.keys != [] && IsPage(before, Reached(reaches, all, Last(p)), p)
    ensures |Repeat(p, n)| == n && IsWalk(before, reaches, all, Reached(reaches, all, Last(p)), Repeat(p, n))
  {
    if n > 0 {
      RepeatIsWalk(before, reaches, all, p, n - 1);
      assert Repeat(p, n)[1..] == Repeat(p, n - 1);
    }
  }

  // From a trap, walks of every length.
  lemma TrapLoops<K(!new)>(before: (K, K) -> bool, reaches: (K, K) -> bool, all: set<K>, k: K, l: K, n: nat)
    returns (pages: seq<Page<K>>)
    requires StrictOrder(before) && Trap(before, reaches, all, k, l)
    ensures |pages| == n + 1 && IsWalk(before, reaches, all, all, pages)
  {
    var first := PageEndingIn(before, all, k, l);
    var again := PageEndingIn(before, Reached(reaches, all, k), k, l);
    RepeatIsWalk(before, reaches, all, again, n);
    pages := [first] + Repeat(again, n);
    assert pages[1..] == Repeat(again, n);
  }

  // ---------- when walks miss nothing ----------

  // Whatever a page ending in k may leave over, the cursor of k reaches.
  ghost predicate NothingSkipped<K(!new)>(before: (K, K) -> bool, reaches: (K, K) -> bool, all: set<K>) {
    forall k, l | k in all && l in all && k != l :: reaches(k, l) || before(l, k)
  }

  lemma {:induction false} WalkReturns<K(!new)>(before: (K, K) -> bool, reaches: (K, K) -> bool, all: set<K>,
                                                eligible: set<K>, pages: seq<Page<K>>, l: K)
    requires NothingSkipped(before, reaches, all) && eligible <= all && l in eligible
    requires IsWalk(before, reaches, all, eligible, pages) && Complete(pages)
    ensures Returned(l, pages)
    decreases |pages|
  {
    var p, rest := pages[0], pages[1..];
    if l !in p.keys {
      assert p.more && |pages| > 1;
      assert Last(p) in p.keys && rest[|rest| - 1] == pages[|pages| - 1];
      WalkReturns(before, reaches, all, Reached(reaches, all, Last(p)), rest, l);
      var i :| 0 <= i < |rest| && l in rest[i].keys;
      assert l in pages[i + 1].keys;
    }
  }

  // A key that a page may leave over and its cursor does not reach can be missed.
  lemma SkippedIsMissed<K(!new)>(before: (K, K) -> bool, reaches: (K, K) -> bool, all: set<K>, k: K, l: K)
    returns (pages: seq<Page<K>>)
    requires StrictOrder(before) && k in all && l in all && k != l && !reaches(k, l) && !before(l, k)
    ensures IsWalk(before, reaches, all, all, pages) && Complete(pages) && !Returned(l, pages)
  {
    var first := PageEndingIn(before, all, k, l);
    var rest := WholePage(before, Reached(reaches, all, k));
    pages := [first, rest];
    assert pages[1..] == [rest] && [rest][1..] == [];
  }

  // ---------- when walks repeat nothing ----------

  // The cursor of k lets through key m again, from a page that ends in k and leaves l over.
  ghost predicate Readmits<K(!new)>(before: (K, K) -> bool, reaches: (K, K) -> bool, all: set<K>, k: K, m: K, l: K) {
    && k in all && m in all && l in all && l != k && l != m && reaches(k, m)
    && !before(k, m) && !before(l, k) && !before(l, m)
  }

  ghost predicate NothingReadmitted<K(!new)>(before: (K, K) -> bool, reaches: (K, K) -> bool, all: set<K>) {
    forall k, m, l :: !Readmits(before, reaches, all, k, m, l)
  }

  ghost predicate NoRepeats<K(!new)>(pages: seq<Page<K>>) {
    forall i, j, x | 0 <= i < j < |pages| && x in pages[i].keys :: x !in pages[j].keys
  }

  // While the cursors climb, each reaches all that any later page holds.
  lemma {:induction false} ReachedThroughout<K(!new)>(before: (K, K) -> bool, reaches: (K, K) -> bool, all: set<K>,
                                                      less: (K, K) -> bool, k: K, pages: seq<Page<K>>, j: nat, x: K)
    requires Climbs(before, reaches, all, less) && forall a, b, c | less(a, b) && reaches(b, c) :: reaches(a, c)
    requires IsWalk(before, reaches, all, Reached(reaches, all, k), pages) && j < |pages| && x in pages[j].keys
    ensures reaches(k, x)
    decreases |pages|
  {
    if j > 0 {
      var m := Last(pages[0]);
      var l :| l in Reached(reaches, all, k) && l !in pages[0].keys;
      assert m in pages[0].keys && less(k, m);
      ReachedThroughout(before, reaches, all, less, m, pages[1..], j - 1, x);
    }
  }

  lemma {:induction false} RepeatIsReadmitted<K(!new)>(before: (K, K) -> bool, reaches: (K, K) -> bool, all: set<K>,
                                                       less: (K, K) -> bool, eligible: set<K>, pages: seq<Page<K>>,
                                                       i: nat, j: nat, x: K)
    requires Climbs(before, reaches, all, less) && forall a, b, c | less(a, b) && reaches(b, c) :: reaches(a, c)
    requires StrictOrder(before) && eligible <= all && IsWalk(before, reaches, all, eligible, pages)
    requires i < j < |pages| && x in pages[i].keys && x in pages[j].keys
    ensures !NothingReadmitted(before, reaches, all)
    decreases |pages|
  {
    var p, k := pages[0], Last(pages[0]);
    if i == 0 {
      var l :| l in eligible && l !in p.keys;
      assert k in p.keys;
      ReachedThroughout(before, reaches, all, less, k, pages[1..], j - 1, x);
      var n :| 0 <= n < |p.keys| && p.keys[n] == x;
      assert !before(k, x) by { assert n < |p.keys| - 1 ==> !before(p.keys[|p.keys| - 1], p.keys[n]); }
      assert Readmits(before, reaches, all, k, x, l);
    } else {
      RepeatIsReadmitted(before, reaches, all, less, Reached(reaches, all, k), pages[1..], i - 1, j - 1, x);
    }
  }

  // A page can hold m, end in k and leave l over.
  lemma PageHolding<K(!new)>(before: (K, K) -> bool, eligible: set<K>, k: K, m: K, l: K) returns (p: Page<K>)
    requires StrictOrder(before) && k in eligible && m in eligible && l in eligible && l != k && l != m
    requires !before(k, m) && !before(l, k) && !before(l, m)
    ensures IsPage(before, eligible, p) && p.more && Last(p) == k && m in p.keys
  {
    var others := set x | x in eligible && x != k && (x == m || before(x, k) || before(x, m));
    var front := Arrange(before, others);
    var keys := front + [k];
    p := Page(|keys|, keys, true);
    assert forall x :: x in keys <==> x == k || x in front;
    assert forall i | 0 <= i < |front| :: front[i] in front;
    assert forall x | x in others :: !before(k, x);
    assert l !in keys;
  }

  lemma ReadmittedRepeats<K(!new)>(before: (K, K) -> bool, reaches: (K, K) -> bool, all: set<K>, k: K, m: K, l: K)
    returns (pages: seq<Page<K>>)
    requires StrictOrder(before) && Readmits(before, reaches, all, k, m, l)
    ensures IsWalk(before, reaches, all, all, pages) && !NoRepeats(pages)
  {
    var first := PageHolding(before, all, k, m, l);
    var rest := WholePage(before, Reached(reaches, all, k));
    pages := [first, rest];
    assert pages[1..] == [rest] && [rest][1..] == [];
    assert m in pages[0].keys && m in pages[1].keys;
  }

  // ---------- one limit for all pages ----------

  ghost predicate AllOf<K(!new)>(pages: seq<Page<K>>, limit: nat) {
    forall i | 0 <= i < |pages| :: pages[i].limit == limit
  }

  // A walk whose first page has room for everything is that page.
  lemma RoomForAll<K(!new)>(before: (K, K) -> bool, eligible: set<K>, p: Page<K>)
    requires IsPage(before, eligible, p) && |eligible| <= p.limit
    ensures !p.more
  {
    if p.more {
      var l :| l in eligible && l !in p.keys;
      NoDuplicatesSize(p.keys);
      SubsetSize(Members(p.keys), eligible);
      assert false;
    }
  }

  lemma {:induction false} SomeOf<K(!new)>(s: set<K>, n: nat) returns (q: seq<K>)
    requires n <= |s|
    ensures |q| == n && NoDuplicates(q) && forall k | k in q :: k in s
  {
    q := [];
    if n > 0 {
      var x :| x in s;
      var rest := SomeOf(s - {x}, n - 1);
      q := [x] + rest;
      assert forall i | 0 <= i < |rest| :: rest[i] in rest;
    }
  }

  // Where all rows tie, a page of fewer can end in any key; if its cursor reaches nothing, the rest is missed.
  lemma TiesAreMissed<K(!new)>(before: (K, K) -> bool, reaches: (K, K) -> bool, all: set<K>, limit: nat, k: K)
    returns (pages: seq<Page<K>>, l: K)
    requires 0 < limit < |all| && k in all && Reached(reaches, all, k) == {}
    requires forall a, b | a in all && b in all :: !before(a, b)
    ensures IsWalk(before, reaches, all, all, pages) && Complete(pages) && AllOf(pages, limit)
    ensures l in all && !Returned(l, pages)
  {
    var others := SomeOf(all - {k}, limit - 1);
    var keys := others + [k];
    assert forall m :: m in keys <==> m == k || m in others;
    assert forall i | 0 <= i < |others| :: others[i] in others;
    NoDuplicatesSize(keys);
    assert Members(keys) != all;
    assert Members(keys) <= all;
    l :| l in all && l !in Members(keys);
    var first, rest := Page(limit, keys, true), Page(limit, [], false);
    pages := [first, rest];
    assert pages[1..] == [rest] && [rest][1..] == [];
  }
}
