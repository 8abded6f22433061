/** A slab cut into equal runs of neighbouring cells, and what coarser cuts have to do with finer ones. */
module Chunks {
  import opened Bytes

  lemma MulMonotone(a: nat, b: nat, f: nat)
    requires a <= b
    ensures a * f <= b * f
  {
  }

  lemma ScaleApart(x: int, f: int)
    requires f > 0
    ensures x >= 1 ==> x * f >= f
    ensures x <= -1 ==> x * f <= 0 - f
  {
    if x >= 1 {
      assert (x - 1) * f >= 0;
    }
    if x <= -1 {
      assert (x + 1) * f <= 0;
    }
  }

  lemma DivExact(n: nat, f: nat)
    requires f > 0
    ensures (n * f) / f == n && (n * f) % f == 0
  {
    var q, r := (n * f) / f, (n * f) % f;
    assert n * f == q * f + r;
    assert (n - q) * f == r;
    ScaleApart(n - q, f);
  }

  /** The `j`-th run of `f` cells. */
  function Run<T>(s: seq<T>, n: nat, f: nat, j: nat): (r: seq<T>)
    requires |s| == n * f && j < n
    ensures |r| == f
  {
    MulMonotone(j + 1, n, f);
    assert (j + 1) * f == j * f + f;
    s[j * f..(j + 1) * f]
  }

  /** The `n` runs of `f` cells that make up `s`. */
  function Cut<T>(s: seq<T>, n: nat, f: nat): (r: seq<seq<T>>)
    requires |s| == n * f
    ensures |r| == n
    ensures forall j :: 0 <= j < n ==> |r[j]| == f
  {
    seq(n, j requires 0 <= j < n => Run(s, n, f, j))
  }

  lemma CutAt<T>(s: seq<T>, n: nat, f: nat, j: nat)
    requires |s| == n * f && j < n
    ensures 0 <= j * f <= (j + 1) * f <= |s| && Cut(s, n, f)[j] == s[j * f..(j + 1) * f]
  {
    MulMonotone(j + 1, n, f);
  }

  lemma CutOfPrefix<T>(s: seq<T>, n: nat, f: nat, m: nat, j: nat)
    requires |s| == n * f && j < m <= n
    ensures m * f <= |s| && Cut(s[..m * f], m, f)[j] == Cut(s, n, f)[j]
  {
    MulMonotone(m, n, f);
    MulMonotone(j + 1, m, f);
    CutAt(s, n, f, j);
    CutAt(s[..m * f], m, f, j);
    hide Cut;
    SliceOfSlice(s, 0, m * f, j * f, (j + 1) * f);
    assert s[0..m * f] == s[..m * f];
  }

  /** The runs, put together in order, are the slab: every cell is in exactly one. */
  lemma {:induction false} CutPartitions<T>(s: seq<T>, n: nat, f: nat)
    requires |s| == n * f
    ensures Flatten(Cut(s, n, f)) == s
  {
    hide Cut;
    if n > 0 {
      var m := n - 1;
      MulMonotone(m, n, f);
      var head := s[..m * f];
      CutPartitions(head, m, f);
      forall j | 0 <= j < m ensures Cut(s, n, f)[j] == Cut(head, m, f)[j] {
        CutOfPrefix(s, n, f, m, j);
      }
      assert Cut(s, n, f)[..m] == Cut(head, m, f);
      CutAt(s, n, f, m);
      assert s == head + s[m * f..];
    }
  }

  lemma Reassociate(n: nat, g: nat, f: nat, j: nat)
    requires j < n
    ensures n * (g * f) == (n * g) * f && j * g <= (j + 1) * g <= n * g && (j + 1) * g == j * g + g
  {
    MulMonotone(j + 1, n, g);
  }

  /** The source cells of one coarse cell are those of its `g` finer cells, in order. */
  lemma CutNests<T>(s: seq<T>, n: nat, g: nat, f: nat, j: nat)
    requires |s| == n * (g * f) && j < n
    ensures |s| == (n * g) * f && 0 <= j * g <= (j + 1) * g <= n * g
    ensures Cut(s, n, g * f)[j] == Flatten(Cut(s, n * g, f)[j * g..(j + 1) * g])
  {
    hide Cut, Flatten;
    Reassociate(n, g, f, j);
    var coarse, fine, lo := Cut(s, n, g * f)[j], Cut(s, n * g, f), j * g;
    CutPartitions(coarse, g, f);
    forall m | 0 <= m < g ensures fine[lo + m] == Cut(coarse, g, f)[m] {
      FinerRun(s, n, g, f, j, m);
    }
    SliceIs(fine, lo, Cut(coarse, g, f));
  }

  lemma SliceIs<T>(s: seq<T>, lo: nat, part: seq<T>)
    requires lo + |part| <= |s| && forall m :: 0 <= m < |part| ==> s[lo + m] == part[m]
    ensures s[lo..lo + |part|] == part
  {
  }

  lemma FinerRun<T>(s: seq<T>, n: nat, g: nat, f: nat, j: nat, m: nat)
    requires |s| == n * (g * f) == (n * g) * f && j < n && m < g && j * g + m < n * g
    ensures Cut(s, n * g, f)[j * g + m] == Cut(Cut(s, n, g * f)[j], g, f)[m]
  {
    var lo, hi, a, b := j * (g * f), (j + 1) * (g * f), m * f, (m + 1) * f;
    var coarse := Cut(s, n, g * f)[j];
    CutAt(s, n, g * f, j);
    CutAt(coarse, g, f, m);
    CutAt(s, n * g, f, j * g + m);
    Rescale(j, g, f, m);
    RunBounds(n, g, f, j, m);
    hide Cut;
    SliceOfSlice(s, lo, hi, a, b);
  }

  lemma RunBounds(n: nat, g: nat, f: nat, j: nat, m: nat)
    requires j < n && m < g
    ensures (j + 1) * (g * f) - j * (g * f) == g * f && (m + 1) * f <= g * f
  {
    MulMonotone(m + 1, g, f);
  }

  lemma SliceOfSlice<T>(s: seq<T>, lo: nat, hi: nat, a: nat, b: nat)
    requires lo <= hi <= |s| && a <= b <= hi - lo
    ensures s[lo..hi][a..b] == s[lo + a..lo + b]
  {
    var x, y := s[lo..hi][a..b], s[lo + a..lo + b];
    forall k | 0 <= k < b - a ensures x[k] == y[k] {
      assert x[k] == s[lo..hi][a + k];
    }
  }

  lemma Rescale(j: nat, g: nat, f: nat, m: nat)
    ensures (j * g + m) * f == j * (g * f) + m * f
    ensures (j * g + m + 1) * f == j * (g * f) + (m + 1) * f
  {
  }

  function Pow4(n: nat): nat {
    if n == 0 then 1 else 4 * Pow4(n - 1)
  }

  lemma {:induction false} Pow4Positive(n: nat)
    ensures Pow4(n) > 0
  {
    if n > 0 {
      Pow4Positive(n - 1);
    }
  }

  lemma {:induction false} Pow4Adds(a: nat, b: nat)
    ensures Pow4(a + b) == Pow4(a) * Pow4(b)
  {
    if a > 0 {
      Pow4Adds(a - 1, b);
      assert 4 * (Pow4(a - 1) * Pow4(b)) == (4 * Pow4(a - 1)) * Pow4(b);
    }
  }

  /** Orders `node <= s <= r <= cell`: cell `j` of the group at order `s` draws on the leaf cells its `4^(r - s)`
      cells at order `r` draw on, in the same order. */
  lemma OrdersNest<T>(slab: seq<T>, node: nat, s: nat, r: nat, cell: nat, j: nat)
    requires node <= s <= r <= cell && |slab| == Pow4(cell - node) && j < Pow4(s - node)
    ensures |slab| == Pow4(s - node) * Pow4(cell - s) == Pow4(r - node) * Pow4(cell - r)
    ensures 0 <= j * Pow4(r - s) <= (j + 1) * Pow4(r - s) <= Pow4(r - node)
    ensures Cut(slab, Pow4(s - node), Pow4(cell - s))[j]
            == Flatten(Cut(slab, Pow4(r - node), Pow4(cell - r))[j * Pow4(r - s)..(j + 1) * Pow4(r - s)])
  {
    hide Cut, Flatten, Pow4;
    Pow4Adds(s - node, cell - s);
    Pow4Adds(r - node, cell - r);
    Pow4Adds(s - node, r - s);
    Pow4Adds(r - s, cell - r);
    CutNests(slab, Pow4(s - node), Pow4(r - s), Pow4(cell - r), j);
  }
}
