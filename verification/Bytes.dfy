/** Byte strings, and concatenations of pieces. */
module Bytes {

  type byte = x: int | 0 <= x < 256

  function Flatten<T>(pieces: seq<seq<T>>): seq<T> {
    if pieces == [] then [] else Flatten(pieces[..|pieces| - 1]) + pieces[|pieces| - 1]
  }

  function Repeat<T>(x: T, n: nat): (r: seq<T>)
    ensures |r| == n && forall i :: 0 <= i < n ==> r[i] == x
  {
    seq(n, i => x)
  }

  lemma {:induction false} FlattenAppend<T>(a: seq<seq<T>>, b: seq<seq<T>>)
    ensures Flatten(a + b) == Flatten(a) + Flatten(b)
  {
    if b == [] {
      assert a + b == a;
    } else {
      var n := |b| - 1;
      assert (a + b)[..|a + b| - 1] == a + b[..n];
      FlattenAppend(a, b[..n]);
      assert Flatten(a) + (Flatten(b[..n]) + b[n]) == Flatten(a) + Flatten(b[..n]) + b[n];
    }
  }

  lemma FlattenSnoc<T>(a: seq<seq<T>>, x: seq<T>)
    ensures Flatten(a + [x]) == Flatten(a) + x
  {
    assert (a + [x])[..|a|] == a;
  }

  lemma {:induction false} FlattenLength<T>(pieces: seq<seq<T>>, size: nat)
    requires forall i :: 0 <= i < |pieces| ==> |pieces[i]| == size
    ensures |Flatten(pieces)| == |pieces| * size
  {
    if pieces != [] {
      var n := |pieces| - 1;
      FlattenLength(pieces[..n], size);
      assert (n + 1) * size == n * size + size;
    }
  }

  /** Concatenations of pieces of one size are equal only piece by piece. */
  lemma {:induction false} FlattenInjective<T>(a: seq<seq<T>>, b: seq<seq<T>>, size: nat)
    requires |a| == |b| && Flatten(a) == Flatten(b)
    requires forall i :: 0 <= i < |a| ==> |a[i]| == size && |b[i]| == size
    ensures a == b
  {
    if a != [] {
      var n := |a| - 1;
      FlattenLength(a[..n], size);
      FlattenLength(b[..n], size);
      assert Flatten(a)[..n * size] == Flatten(a[..n]) && Flatten(b)[..n * size] == Flatten(b[..n]);
      assert Flatten(a)[n * size..] == a[n] && Flatten(b)[n * size..] == b[n];
      FlattenInjective(a[..n], b[..n], size);
      assert a == a[..n] + [a[n]] && b == b[..n] + [b[n]];
    }
  }

  function Reversed(s: seq<byte>): (r: seq<byte>)
    ensures |r| == |s|
    ensures forall i :: 0 <= i < |s| ==> r[i] == s[|s| - 1 - i]
  {
    seq(|s|, i requires 0 <= i < |s| => s[|s| - 1 - i])
  }

  /** Every element of a concatenation is an element of a piece. */
  lemma {:induction false} FlattenMembers<T>(pieces: seq<seq<T>>, x: T)
    ensures x in Flatten(pieces) <==> exists i :: 0 <= i < |pieces| && x in pieces[i]
  {
    if pieces != [] {
      var n := |pieces| - 1;
      FlattenMembers(pieces[..n], x);
      assert forall i :: 0 <= i < n ==> pieces[..n][i] == pieces[i];
      if x in Flatten(pieces[..n]) {
        var i :| 0 <= i < n && x in pieces[..n][i];
        assert x in pieces[i];
      }
    }
  }
}
