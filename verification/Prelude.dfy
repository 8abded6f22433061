// Shared vocabulary: an optional value, minimum and maximum, and sums of sequences of naturals.

module Prelude {

  datatype Option<+T> = None | Some(value: T)

  function AsSet<T>(s: seq<T>): set<T> {
    set x | x in s
  }

  function Min(a: int, b: int): int {
    if a < b then a else b
  }

  function Max(a: int, b: int): int {
    if a < b then b else a
  }

  /** Without trailing slashes. */
  function StripSlashes(text: string): string {
    if text != [] && text[|text| - 1] == '/' then StripSlashes(text[..|text| - 1]) else text
  }

  function Sum(s: seq<nat>): nat {
    if s == [] then 0 else Sum(s[..|s| - 1]) + s[|s| - 1]
  }

  lemma {:induction false} SumMonotone(a: seq<nat>, b: seq<nat>)
    requires |a| == |b|
    requires forall i :: 0 <= i < |a| ==> a[i] <= b[i]
    ensures Sum(a) <= Sum(b)
  {
    if a != [] {
      SumMonotone(a[..|a| - 1], b[..|b| - 1]);
    }
  }

  lemma {:induction false} SumStrict(a: seq<nat>, b: seq<nat>, j: nat)
    requires |a| == |b| && j < |a|
    requires forall i :: 0 <= i < |a| ==> a[i] <= b[i]
    requires a[j] < b[j]
    ensures Sum(a) < Sum(b)
  {
    var n := |a| - 1;
    if j == n {
      SumMonotone(a[..n], b[..n]);
    } else {
      SumStrict(a[..n], b[..n], j);
    }
  }

  lemma {:induction false} SumUpdate(s: seq<nat>, j: nat, v: nat)
    requires j < |s|
    ensures Sum(s[j := v]) == Sum(s) - s[j] + v
  {
    var n := |s| - 1;
    if j == n {
      assert s[j := v][..n] == s[..n];
    } else {
      assert s[j := v][..n] == s[..n][j := v];
      SumUpdate(s[..n], j, v);
    }
  }

  lemma SumAppend(s: seq<nat>, v: nat)
    ensures Sum(s + [v]) == Sum(s) + v
  {
    assert (s + [v])[..|s|] == s;
  }

  lemma {:induction false} SumIsZero(s: seq<nat>)
    ensures Sum(s) == 0 <==> forall i :: 0 <= i < |s| ==> s[i] == 0
  {
    if s != [] {
      var n := |s| - 1;
      SumIsZero(s[..n]);
      assert forall i :: 0 <= i < n ==> s[..n][i] == s[i];
    }
  }
}
