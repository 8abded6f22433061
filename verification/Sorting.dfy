/** A stable sort under any total preorder, as the sorts of the program are. */
module Sorting {

  ghost predicate Orders<T(!new)>(le: (T, T) -> bool) {
    && (forall a, b :: le(a, b) || le(b, a))
    && (forall a, b, c :: le(a, b) && le(b, c) ==> le(a, c))
  }

  predicate Ascending<T>(s: seq<T>, le: (T, T) -> bool) {
    forall i, j :: 0 <= i < j < |s| ==> le(s[i], s[j])
  }

  /** Insertion behind the elements that are not greater. */
  function Insert<T>(s: seq<T>, x: T, le: (T, T) -> bool): (r: seq<T>)
    ensures |r| == |s| + 1
  {
    if s == [] || le(s[|s| - 1], x) then s + [x] else Insert(s[..|s| - 1], x, le) + [s[|s| - 1]]
  }

  function Sorted<T>(s: seq<T>, le: (T, T) -> bool): (r: seq<T>)
    ensures |r| == |s|
  {
    if s == [] then [] else Insert(Sorted(s[..|s| - 1], le), s[|s| - 1], le)
  }

  lemma {:induction false} InsertBound<T(!new)>(s: seq<T>, x: T, le: (T, T) -> bool, top: T)
    requires le(x, top) && forall i :: 0 <= i < |s| ==> le(s[i], top)
    ensures forall i :: 0 <= i <= |s| ==> le(Insert(s, x, le)[i], top)
  {
    if s != [] && !le(s[|s| - 1], x) {
      InsertBound(s[..|s| - 1], x, le, top);
    }
  }

  lemma {:induction false} InsertAscends<T(!new)>(s: seq<T>, x: T, le: (T, T) -> bool)
    requires Orders(le) && Ascending(s, le)
    ensures Ascending(Insert(s, x, le), le)
  {
    if s == [] {
    } else if le(s[|s| - 1], x) {
      forall i | 0 <= i < |s| ensures le(s[i], x) {
        if i < |s| - 1 {
          assert le(s[i], s[|s| - 1]);
        }
      }
    } else {
      var init, last := s[..|s| - 1], s[|s| - 1];
      InsertAscends(init, x, le);
      InsertBound(init, x, le, last);
    }
  }

  lemma {:induction false} InsertKeeps<T>(s: seq<T>, x: T, le: (T, T) -> bool)
    ensures multiset(Insert(s, x, le)) == multiset(s) + multiset{x}
  {
    if s != [] && !le(s[|s| - 1], x) {
      InsertKeeps(s[..|s| - 1], x, le);
      assert s == s[..|s| - 1] + [s[|s| - 1]];
    }
  }

  /** The sorted list is ascending and the same elements, each as often. */
  lemma {:induction false} SortedExact<T(!new)>(s: seq<T>, le: (T, T) -> bool)
    requires Orders(le)
    ensures Ascending(Sorted(s, le), le) && multiset(Sorted(s, le)) == multiset(s)
  {
    if s != [] {
      var init, last := s[..|s| - 1], s[|s| - 1];
      SortedExact(init, le);
      InsertAscends(Sorted(init, le), last, le);
      InsertKeeps(Sorted(init, le), last, le);
      assert s == init + [last];
    }
  }

  /** All but the element at `k`. */
  function Without<T>(s: seq<T>, k: nat): (r: seq<T>)
    requires k < |s|
    ensures |r| == |s| - 1
  {
    s[..k] + s[k + 1..]
  }

  lemma WithoutExact<T>(s: seq<T>, k: nat)
    requires k < |s|
    ensures multiset(Without(s, k)) == multiset(s) - multiset{s[k]}
    ensures forall m :: 0 <= m < |s| - 1 ==> Without(s, k)[m] == s[if m < k then m else m + 1]
  {
    WithoutAt(s, k);
    WithoutCounts(s, k);
    hide Without;
  }

  lemma WithoutAt<T>(s: seq<T>, k: nat)
    requires k < |s|
    ensures forall m :: 0 <= m < |s| - 1 ==> Without(s, k)[m] == s[if m < k then m else m + 1]
  {
  }

  lemma WithoutCounts<T>(s: seq<T>, k: nat)
    requires k < |s|
    ensures multiset(Without(s, k)) == multiset(s) - multiset{s[k]}
  {
    assert s == s[..k] + [s[k]] + s[k + 1..];
  }

  lemma IndexIn<T>(s: seq<T>, t: seq<T>, x: T) returns (k: nat)
    requires x in t && multiset(s) == multiset(t)
    ensures k < |s| && s[k] == x
  {
    assert x in multiset(s);
    k :| 0 <= k < |s| && s[k] == x;
  }

  /** Two places in a list are two places in any arrangement of it. */
  lemma PairIn<T>(a: seq<T>, b: seq<T>, i: nat, j: nat) returns (k: nat, m: nat)
    requires multiset(a) == multiset(b) && i < j < |a|
    ensures k < |b| && m < |b| && k != m && b[k] == a[i] && b[m] == a[j]
  {
    hide Without;
    k := IndexIn(b, a, a[i]);
    WithoutExact(a, i);
    WithoutExact(b, k);
    assert Without(a, i)[j - 1] == a[j];
    var n := IndexIn(Without(b, k), Without(a, i), a[j]);
    m := if n < k then n else n + 1;
  }

  /** What is in order stays as it is. */
  lemma {:induction false} SortedFixes<T(!new)>(s: seq<T>, le: (T, T) -> bool)
    requires Ascending(s, le)
    ensures Sorted(s, le) == s
  {
    if s != [] {
      var n := |s| - 1;
      SortedFixes(s[..n], le);
      assert n > 0 ==> le(s[n - 1], s[n]);
    }
  }
}
