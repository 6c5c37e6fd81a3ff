/** Sequences without repetition, in and out of order. */
module Sequences {

  predicate NoDuplicates<T(==)>(s: seq<T>) {
    forall i, j | 0 <= i < j < |s| :: s[i] != s[j]
  }

  ghost predicate StrictOrder<T(!new)>(less: (T, T) -> bool) {
    (forall a :: !less(a, a)) && (forall a, b, c :: less(a, b) && less(b, c) ==> less(a, c))
  }

  ghost predicate Ascending<T(!new)>(less: (T, T) -> bool, s: seq<T>) {
    forall i, j | 0 <= i < j < |s| :: less(s[i], s[j])
  }

  lemma AscendingNoDuplicates<T(!new)>(less: (T, T) -> bool, s: seq<T>)
    requires StrictOrder(less) && Ascending(less, s)
    ensures NoDuplicates(s)
  {
    forall i, j | 0 <= i < j < |s|
      ensures s[i] != s[j]
    {
      assert less(s[i], s[j]);
    }
  }

  lemma {:induction false} EachOnce<T(!new)>(s: seq<T>, x: T)
    requires NoDuplicates(s)
    ensures multiset(s)[x] == if x in s then 1 else 0
  {
    if s != [] {
      assert s == [s[0]] + s[1..];
      EachOnce(s[1..], x);
      assert forall k | 0 <= k < |s[1..]| :: s[1..][k] == s[k + 1] != s[0];
    }
  }

  // Two ascending sequences of the same elements are the same sequence.
  lemma {:induction false} AscendingUnique<T(!new)>(less: (T, T) -> bool, a: seq<T>, b: seq<T>)
    requires StrictOrder(less) && Ascending(less, a) && Ascending(less, b)
    requires forall x :: x in a <==> x in b
    ensures a == b
  {
    assert (a != [] ==> a[0] in b) && (b != [] ==> b[0] in a);
    if a != [] {
      FirstLeast(less, a, b[0]);
      FirstLeast(less, b, a[0]);
      assert a[0] == b[0];
      forall x
        ensures x in a[1..] <==> x in b[1..]
      {
        InRest(less, a, x);
        InRest(less, b, x);
      }
      AscendingUnique(less, a[1..], b[1..]);
    }
  }

  lemma FirstLeast<T(!new)>(less: (T, T) -> bool, s: seq<T>, x: T)
    requires Ascending(less, s) && x in s
    ensures x == s[0] || less(s[0], x)
  {
    var i :| 0 <= i < |s| && s[i] == x;
    assert i > 0 ==> less(s[0], s[i]);
  }

  lemma InRest<T(!new)>(less: (T, T) -> bool, s: seq<T>, x: T)
    requires StrictOrder(less) && Ascending(less, s) && s != []
    ensures x in s[1..] <==> x in s && x != s[0]
  {
    assert s == [s[0]] + s[1..];
    assert forall k | 0 <= k < |s[1..]| :: s[1..][k] == s[k + 1] && less(s[0], s[k + 1]);
  }

  // ---------- sets listed ----------

  function Members<T>(s: seq<T>): set<T> { set x | x in s }

  lemma {:induction false} SubsetSize<T(!new)>(a: set<T>, b: set<T>)
    requires a <= b
    ensures |a| <= |b|
    ensures a != b ==> |a| < |b|
  {
    if a != {} {
      var x :| x in a;
      SubsetSize(a - {x}, b - {x});
      assert a != b ==> a - {x} != b - {x};
    }
  }

  lemma {:induction false} NoDuplicatesSize<T(!new)>(s: seq<T>)
    requires NoDuplicates(s)
    ensures |Members(s)| == |s|
  {
    if s != [] {
      var last := |s| - 1;
      NoDuplicatesSize(s[..last]);
      assert Members(s) == Members(s[..last]) + {s[last]};
    }
  }

  // No element is before an earlier one.
  ghost predicate Ordered<T(!new)>(before: (T, T) -> bool, s: seq<T>) {
    forall i, j | 0 <= i < j < |s| :: !before(s[j], s[i])
  }

  lemma {:induction false} SomeFirst<T(!new)>(before: (T, T) -> bool, s: set<T>) returns (x: T)
    requires StrictOrder(before) && s != {}
    ensures x in s && forall y | y in s :: !before(y, x)
  {
    x :| x in s;
    var rest := s - {x};
    if rest != {} {
      var y := SomeFirst(before, rest);
      if !before(x, y) {
        x := y;
      }
    }
  }

  // Every finite set can be listed in order.
  lemma {:induction false} Arrange<T(!new)>(before: (T, T) -> bool, s: set<T>) returns (q: seq<T>)
    requires StrictOrder(before)
    ensures NoDuplicates(q) && Ordered(before, q) && forall x :: x in q <==> x in s
  {
    q := [];
    if s != {} {
      var x := SomeFirst(before, s);
      var rest := Arrange(before, s - {x});
      q := [x] + rest;
      assert forall i | 0 <= i < |rest| :: rest[i] in rest;
      assert forall y :: y in q <==> y == x || y in rest;
    }
  }
}
