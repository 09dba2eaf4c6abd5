/**
 * Orders and sorting. The source sorts with the standard library (`Vec::sort`
 * on strings, `sort_by` on the commit-type table); both are modelled by one
 * insertion sort, which for an antisymmetric total order yields the only
 * sorted permutation there is, so any correct sort agrees with it.
 */
module Ordering {

  ghost predicate Total<T(!new)>(le: (T, T) -> bool) {
    forall a, b :: le(a, b) || le(b, a)
  }

  ghost predicate Transitive<T(!new)>(le: (T, T) -> bool) {
    forall a, b, c :: le(a, b) && le(b, c) ==> le(a, c)
  }

  ghost predicate Antisymmetric<T(!new)>(le: (T, T) -> bool) {
    forall a, b :: le(a, b) && le(b, a) ==> a == b
  }

  ghost predicate TotalOrder<T(!new)>(le: (T, T) -> bool) {
    Total(le) && Transitive(le) && Antisymmetric(le)
  }

  predicate SortedBy<T>(s: seq<T>, le: (T, T) -> bool) {
    forall i, j :: 0 <= i < j < |s| ==> le(s[i], s[j])
  }

  // ---------------------------------------------------------------------------
  // Insertion sort
  // ---------------------------------------------------------------------------

  function Insert<T(!new)>(x: T, s: seq<T>, le: (T, T) -> bool): (r: seq<T>)
    requires Total(le) && Transitive(le)
    requires SortedBy(s, le)
    ensures SortedBy(r, le)
    ensures multiset(r) == multiset(s) + multiset{x}
  {
    if |s| == 0 then [x]
    else if le(x, s[0]) then [x] + s
    else
      var tail := Insert(x, s[1..], le);
      assert s == [s[0]] + s[1..];
      HeadBelowInserted(x, s, tail, le);
      [s[0]] + tail
  }

  /** When `x` goes after the head of `s`, the head stays below everything in the tail it is inserted into. */
  lemma HeadBelowInserted<T(!new)>(x: T, s: seq<T>, tail: seq<T>, le: (T, T) -> bool)
    requires Total(le) && |s| > 0 && SortedBy(s, le) && !le(x, s[0])
    requires multiset(tail) == multiset(s[1..]) + multiset{x}
    ensures forall k :: 0 <= k < |tail| ==> le(s[0], tail[k])
  {
    forall k | 0 <= k < |tail|
      ensures le(s[0], tail[k])
    {
      assert tail[k] in multiset(tail);
      if tail[k] != x {
        assert tail[k] in multiset(s[1..]);
        var j :| 0 <= j < |s[1..]| && s[1..][j] == tail[k];
        assert s[j + 1] == tail[k];
      }
    }
  }

  function Sort<T(!new)>(s: seq<T>, le: (T, T) -> bool): (r: seq<T>)
    requires Total(le) && Transitive(le)
    ensures SortedBy(r, le)
    ensures multiset(r) == multiset(s)
  {
    if |s| == 0 then []
    else
      assert s == [s[0]] + s[1..];
      Insert(s[0], Sort(s[1..], le), le)
  }

  /** Under an antisymmetric total order a sequence has exactly one sorted permutation. */
  lemma SortedPermutationUnique<T(!new)>(a: seq<T>, b: seq<T>, le: (T, T) -> bool)
    requires TotalOrder(le)
    requires SortedBy(a, le) && SortedBy(b, le)
    requires multiset(a) == multiset(b)
    ensures a == b
  {
    SortedPermutationUniqueOn(a, b, le);
  }

  /**
   * The same when the order is antisymmetric only on the elements at hand, as
   * an order on some keys of a record is on records whose keys differ.
   */
  lemma {:induction false} SortedPermutationUniqueOn<T(!new)>(a: seq<T>, b: seq<T>, le: (T, T) -> bool)
    requires Total(le) && Transitive(le)
    requires forall x, y :: x in a && y in a && le(x, y) && le(y, x) ==> x == y
    requires SortedBy(a, le) && SortedBy(b, le)
    requires multiset(a) == multiset(b)
    ensures a == b
  {
    if |a| > 0 {
      assert |b| == |multiset(b)| == |multiset(a)| == |a|;
      SortedFirstsAgree(a, b, le);
      TailsPermuted(a, b);
      assert forall x :: x in a[1..] ==> x in a;
      SortedPermutationUniqueOn(a[1..], b[1..], le);
    }
  }

  lemma SortedFirstsAgree<T(!new)>(a: seq<T>, b: seq<T>, le: (T, T) -> bool)
    requires |a| > 0 && |b| > 0
    requires Total(le) && Transitive(le)
    requires forall x, y :: x in a && y in a && le(x, y) && le(y, x) ==> x == y
    requires SortedBy(a, le) && SortedBy(b, le)
    requires multiset(a) == multiset(b)
    ensures a[0] == b[0]
  {
    assert a[0] in multiset(b);
    assert b[0] in multiset(a);
    var i :| 0 <= i < |b| && b[i] == a[0];
    var j :| 0 <= j < |a| && a[j] == b[0];
    assert le(b[0], a[0]) by { if i > 0 { assert le(b[0], b[i]); } }
    assert le(a[0], b[0]) by { if j > 0 { assert le(a[0], a[j]); } }
  }

  lemma TailsPermuted<T>(a: seq<T>, b: seq<T>)
    requires |a| > 0 && |b| > 0 && a[0] == b[0]
    requires multiset(a) == multiset(b)
    ensures multiset(a[1..]) == multiset(b[1..])
  {
    assert a == [a[0]] + a[1..];
    assert b == [b[0]] + b[1..];
    assert multiset(a) == multiset{a[0]} + multiset(a[1..]);
    assert multiset(b) == multiset{b[0]} + multiset(b[1..]);
    assert multiset(a[1..]) == multiset(a) - multiset{a[0]};
    assert multiset(b[1..]) == multiset(b) - multiset{b[0]};
  }

  /** Under a transitive order, a sequence whose neighbours are in order is sorted. */
  lemma {:induction false} ChainSorted<T(!new)>(s: seq<T>, le: (T, T) -> bool)
    requires Transitive(le)
    requires forall k :: 0 <= k < |s| - 1 ==> le(s[k], s[k + 1])
    ensures SortedBy(s, le)
  {
    if |s| > 1 {
      ChainSorted(s[1..], le);
      forall j | 1 <= j < |s|
        ensures le(s[0], s[j])
      {
        if j > 1 {
          assert le(s[1], s[j]) by { assert s[1..][0] == s[1] && s[1..][j - 1] == s[j]; }
        }
      }
      forall i, j | 0 <= i < j < |s|
        ensures le(s[i], s[j])
      {
        if i > 0 {
          assert s[1..][i - 1] == s[i] && s[1..][j - 1] == s[j];
        }
      }
    }
  }

  // ---------------------------------------------------------------------------
  // Lexicographic order on sequences (Rust `Ord` for `str` and `[u8]`)
  // ---------------------------------------------------------------------------

  /** `a` is a prefix of `b`, or smaller at the first position where they differ (ranked by `rank`). */
  function LexLe<T>(a: seq<T>, b: seq<T>, rank: T -> int): bool
  {
    |a| == 0 ||
    (|b| > 0 && (rank(a[0]) < rank(b[0]) || (rank(a[0]) == rank(b[0]) && LexLe(a[1..], b[1..], rank))))
  }

  ghost predicate Injective<T(!new)>(rank: T -> int) {
    forall x, y :: rank(x) == rank(y) ==> x == y
  }

  lemma {:induction false} LexLeTotal<T>(a: seq<T>, b: seq<T>, rank: T -> int)
    ensures LexLe(a, b, rank) || LexLe(b, a, rank)
  {
    if |a| > 0 && |b| > 0 && rank(a[0]) == rank(b[0]) {
      LexLeTotal(a[1..], b[1..], rank);
    }
  }

  lemma {:induction false} LexLeTransitive<T>(a: seq<T>, b: seq<T>, c: seq<T>, rank: T -> int)
    requires LexLe(a, b, rank) && LexLe(b, c, rank)
    ensures LexLe(a, c, rank)
  {
    if |a| > 0 && rank(a[0]) == rank(b[0]) && rank(b[0]) == rank(c[0]) {
      LexLeTransitive(a[1..], b[1..], c[1..], rank);
    }
  }

  lemma {:induction false} LexLeAntisymmetric<T(!new)>(a: seq<T>, b: seq<T>, rank: T -> int)
    requires Injective(rank)
    requires LexLe(a, b, rank) && LexLe(b, a, rank)
    ensures a == b
  {
    if |a| > 0 {
      LexLeAntisymmetric(a[1..], b[1..], rank);
      assert a == [a[0]] + a[1..];
      assert b == [b[0]] + b[1..];
    }
  }

  /** An order that is the lexicographic order under an injective rank is an antisymmetric total order. */
  lemma LexTotalOrder<T(!new)>(le: (seq<T>, seq<T>) -> bool, rank: T -> int)
    requires Injective(rank)
    requires forall a, b :: le(a, b) == LexLe(a, b, rank)
    ensures TotalOrder(le)
  {
    forall a, b ensures le(a, b) || le(b, a) {
      LexLeTotal(a, b, rank);
    }
    forall a, b, c | le(a, b) && le(b, c) ensures le(a, c) {
      LexLeTransitive(a, b, c, rank);
    }
    forall a, b | le(a, b) && le(b, a) ensures a == b {
      LexLeAntisymmetric(a, b, rank);
    }
  }
}
