/** Walks of keys in which every page has the same limit: the trails of their cursors. */
module Trails {
  import opened Sequences
  import opened KeyWalks

  // ---------- where a page of a given limit can end ----------

  ghost function Before<K(!new)>(before: (K, K) -> bool, s: set<K>, k: K): set<K> {
    set x | x in s && before(x, k)
  }

  ghost function NotAfter<K(!new)>(before: (K, K) -> bool, s: set<K>, k: K): set<K> {
    set x | x in s && !before(k, x)
  }

  ghost function Tied<K(!new)>(before: (K, K) -> bool, s: set<K>, k: K): set<K> {
    set x | x in s && x != k && !before(x, k) && !before(k, x)
  }

  // A page leaves some key over and ends in k: fewer than limit keys must come before k, and at least
  // limit keys, k among them, can come first.
  ghost predicate CanEnd<K(!new)>(before: (K, K) -> bool, eligible: set<K>, limit: nat, k: K) {
    k in eligible && |eligible| > limit
    && |Before(before, eligible, k)| < limit <= |NotAfter(before, eligible, k)|
  }

  lemma PageCanEnd<K(!new)>(before: (K, K) -> bool, eligible: set<K>, p: Page<K>)
    requires StrictOrder(before) && IsPage(before, eligible, p) && p.more
    ensures CanEnd(before, eligible, p.limit, Last(p))
  {
    var k, keys := Last(p), Members(p.keys);
    NoDuplicatesSize(p.keys);
    var l :| l in eligible && l !in p.keys;
    SubsetSize(keys, eligible);
    assert forall i | 0 <= i < |p.keys| - 1 :: !before(p.keys[|p.keys| - 1], p.keys[i]);
    SubsetSize(keys, NotAfter(before, eligible, k));
    assert Before(before, eligible, k) <= keys - {k};
    SubsetSize(Before(before, eligible, k), keys - {k});
  }

  lemma {:induction false} ArrangedSize<K(!new)>(q: seq<K>, s: set<K>)
    requires NoDuplicates(q) && forall x :: x in q <==> x in s
    ensures |q| == |s|
  {
    NoDuplicatesSize(q);
    assert Members(q) == s;
  }

  lemma NotAfterSize<K(!new)>(before: (K, K) -> bool, s: set<K>, k: K)
    requires StrictOrder(before) && k in s
    ensures |NotAfter(before, s, k)| == |Before(before, s, k)| + |Tied(before, s, k)| + 1
  {
    var a, t := Before(before, s, k), Tied(before, s, k);
    assert forall x | before(x, k) :: !before(k, x);
    assert NotAfter(before, s, k) == a + t + {k} && a !! t && k !in a + t;
  }

  lemma InOrderJoined<K(!new)>(before: (K, K) -> bool, a: seq<K>, b: seq<K>)
    requires NoDuplicates(a) && Ordered(before, a) && NoDuplicates(b) && Ordered(before, b)
    requires forall x, y | x in a && y in b :: x != y && !before(y, x)
    ensures NoDuplicates(a + b) && Ordered(before, a + b)
  {
    assert forall i | 0 <= i < |a| :: a[i] in a;
    assert forall i | 0 <= i < |b| :: b[i] in b;
  }

  // What a list in order leaves out at its end comes before nothing in it.
  lemma NoneLeftBefore<K(!new)>(before: (K, K) -> bool, q: seq<K>, n: nat, x: K, l: K)
    requires Ordered(before, q) && n <= |q| && x in q && x !in q[..n] && l in q[..n]
    ensures !before(x, l)
  {
    var i :| 0 <= i < n && q[..n][i] == l;
    var j :| 0 <= j < |q| && q[j] == x;
    assert forall m | 0 <= m < n :: q[m] == q[..n][m];
    assert i < j;
  }

  // The keys that must come first, some that may, and k.
  lemma PageKeys<K(!new)>(before: (K, K) -> bool, eligible: set<K>, limit: nat, k: K) returns (keys: seq<K>)
    requires StrictOrder(before) && CanEnd(before, eligible, limit, k)
    ensures |keys| == limit && keys[limit - 1] == k && NoDuplicates(keys) && Ordered(before, keys)
    ensures forall x | x in keys :: x in eligible
    ensures forall x, l | x in eligible && x !in keys && l in keys :: !before(x, l)
  {
    var must, may := Before(before, eligible, k), Tied(before, eligible, k);
    var first := Arrange(before, must);
    var ties := Arrange(before, may);
    ArrangedSize(first, must);
    ArrangedSize(ties, may);
    NotAfterSize(before, eligible, k);
    var n := limit - 1 - |first|;
    var some := ties[..n];
    assert forall x | x in some :: x in ties;
    InOrderJoined(before, first, some);
    InOrderJoined(before, first + some, [k]);
    keys := first + some + [k];
    assert forall x :: x in keys <==> x in first || x in some || x == k;
    forall x, l | x in eligible && x !in keys && l in keys
      ensures !before(x, l)
    {
      if l in some && x in ties {
        NoneLeftBefore(before, ties, n, x, l);
      }
    }
  }

  lemma PageAtLimit<K(!new)>(before: (K, K) -> bool, eligible: set<K>, limit: nat, k: K) returns (p: Page<K>)
    requires StrictOrder(before) && CanEnd(before, eligible, limit, k)
    ensures IsPage(before, eligible, p) && p.limit == limit && p.more && Last(p) == k
  {
    var keys := PageKeys(before, eligible, limit, k);
    p := Page(limit, keys, true);
    if eligible <= Members(keys) {
      NoDuplicatesSize(keys);
      SubsetSize(eligible, Members(keys));
      assert false;
    }
    var l :| l in eligible && l !in Members(keys);
  }

  // ---------- trails of cursors ----------

  ghost predicate Leads<K(!new)>(before: (K, K) -> bool, reaches: (K, K) -> bool, all: set<K>, limit: nat, k: K, m: K) {
    CanEnd(before, Reached(reaches, all, k), limit, m)
  }

  // The keys that pages can end in one after the other, the first of them drawing on the eligible keys.
  ghost predicate IsTrail<K(!new)>(before: (K, K) -> bool, reaches: (K, K) -> bool, all: set<K>, limit: nat,
                                   eligible: set<K>, trail: seq<K>) {
    && (trail != [] ==> CanEnd(before, eligible, limit, trail[0]))
    && forall i, j | 0 <= i && j == i + 1 && j < |trail| :: Leads(before, reaches, all, limit, trail[i], trail[j])
  }

  // Some trail comes to a key again.
  ghost predicate CanCircle<K(!new)>(before: (K, K) -> bool, reaches: (K, K) -> bool, all: set<K>, limit: nat) {
    exists trail :: IsTrail(before, reaches, all, limit, all, trail) && !NoDuplicates(trail)
  }

  lemma TrailRest<K(!new)>(before: (K, K) -> bool, reaches: (K, K) -> bool, all: set<K>, limit: nat,
                           eligible: set<K>, k: K, rest: seq<K>)
    ensures IsTrail(before, reaches, all, limit, eligible, [k] + rest)
            <==> CanEnd(before, eligible, limit, k)
                 && IsTrail(before, reaches, all, limit, Reached(reaches, all, k), rest)
  {
    var trail := [k] + rest;
    assert trail[0] == k && forall i | 0 <= i < |rest| :: rest[i] == trail[i + 1];
    if IsTrail(before, reaches, all, limit, eligible, trail) {
      if rest != [] {
        assert Leads(before, reaches, all, limit, trail[0], trail[1]);
      }
      forall i, j | 0 <= i && j == i + 1 && j < |rest|
        ensures Leads(before, reaches, all, limit, rest[i], rest[j])
      {
        assert Leads(before, reaches, all, limit, trail[i + 1], trail[j + 1]);
      }
    }
  }

  // The last keys of all pages but the last are a trail ...
  lemma {:induction false} WalkLeavesTrail<K(!new)>(before: (K, K) -> bool, reaches: (K, K) -> bool, all: set<K>,
                                                    limit: nat, eligible: set<K>, pages: seq<Page<K>>)
    returns (trail: seq<K>)
    requires StrictOrder(before) && eligible <= all && pages != [] && AllOf(pages, limit)
    requires IsWalk(before, reaches, all, eligible, pages)
    ensures |trail| == |pages| - 1 && IsTrail(before, reaches, all, limit, eligible, trail)
    ensures forall k | k in trail :: k in all
    decreases |pages|
  {
    trail := [];
    if |pages| > 1 {
      var k := Last(pages[0]);
      PageCanEnd(before, eligible, pages[0]);
      var rest := WalkLeavesTrail(before, reaches, all, limit, Reached(reaches, all, k), pages[1..]);
      TrailRest(before, reaches, all, limit, eligible, k, rest);
      trail := [k] + rest;
    }
  }

  // ... and each trail is left by a walk.
  lemma {:induction false} TrailIsWalked<K(!new)>(before: (K, K) -> bool, reaches: (K, K) -> bool, all: set<K>,
                                                  limit: nat, eligible: set<K>, trail: seq<K>)
    returns (pages: seq<Page<K>>)
    requires StrictOrder(before) && IsTrail(before, reaches, all, limit, eligible, trail)
    ensures |pages| == |trail| && IsWalk(before, reaches, all, eligible, pages) && AllOf(pages, limit)
    decreases |trail|
  {
    pages := [];
    if trail != [] {
      var k, rest := trail[0], trail[1..];
      assert trail == [k] + rest;
      TrailRest(before, reaches, all, limit, eligible, k, rest);
      var p := PageAtLimit(before, eligible, limit, k);
      var later := TrailIsWalked(before, reaches, all, limit, Reached(reaches, all, k), rest);
      pages := [p] + later;
      assert pages[1..] == later;
    }
  }

  // ---------- going round ----------

  // The place in the trail after n steps, going back from j to i.
  function Place(i: nat, j: nat, n: nat): (place: nat)
    requires i < j
    ensures place < j
  {
    if n == 0 then 0 else var next := Place(i, j, n - 1) + 1; if next == j then i else next
  }

  lemma RoundAndRound<K(!new)>(before: (K, K) -> bool, reaches: (K, K) -> bool, all: set<K>, limit: nat,
                               trail: seq<K>, i: nat, j: nat, n: nat) returns (long: seq<K>)
    requires IsTrail(before, reaches, all, limit, all, trail) && i < j < |trail| && trail[i] == trail[j]
    ensures |long| == n && IsTrail(before, reaches, all, limit, all, long)
  {
    long := seq(n, m requires 0 <= m < n => trail[Place(i, j, m)]);
    forall a, b | 0 <= a && b == a + 1 && b < n
      ensures Leads(before, reaches, all, limit, long[a], long[b])
    {
      var next := Place(i, j, a) + 1;
      assert Leads(before, reaches, all, limit, trail[Place(i, j, a)], trail[next]);
    }
  }
}
