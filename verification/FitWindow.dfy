/** Fitting heights into a window of fixed width by trimming tails, over real numbers. */
module FitWindow {
  import opened Prelude
  import opened Sorting

  datatype Point = Point(z: real, w: real)

  type Points = seq<Point>

  function Total(s: Points): real {
    if s == [] then 0.0 else Total(s[..|s| - 1]) + s[|s| - 1].w
  }

  /** The weight that lands in `[lo, hi)`. */
  function Inside(s: Points, lo: real, hi: real): real {
    if s == [] then 0.0
    else Inside(s[..|s| - 1], lo, hi) + if lo <= s[|s| - 1].z < hi then s[|s| - 1].w else 0.0
  }

  // ---------------------------------------------------------------- the stable sort

  const LOWER_FIRST: (Point, Point) -> bool := (a: Point, b: Point) => a.z <= b.z

  lemma {:induction false} InsertSums(s: Points, p: Point, lo: real, hi: real)
    ensures Total(Insert(s, p, LOWER_FIRST)) == Total(s) + p.w
    ensures Inside(Insert(s, p, LOWER_FIRST), lo, hi) == Inside(s, lo, hi) + if lo <= p.z < hi then p.w else 0.0
  {
    if s == [] || LOWER_FIRST(s[|s| - 1], p) {
      assert (s + [p])[..|s|] == s;
    } else {
      var init, last := s[..|s| - 1], s[|s| - 1];
      InsertSums(init, p, lo, hi);
      assert (Insert(init, p, LOWER_FIRST) + [last])[..|s|] == Insert(init, p, LOWER_FIRST);
    }
  }

  /** Sorting moves points only: every window holds the same weight before and after. */
  lemma {:induction false} SortedSums(s: Points, lo: real, hi: real)
    ensures Total(Sorted(s, LOWER_FIRST)) == Total(s) && Inside(Sorted(s, LOWER_FIRST), lo, hi) == Inside(s, lo, hi)
  {
    if s != [] {
      SortedSums(s[..|s| - 1], lo, hi);
      InsertSums(Sorted(s[..|s| - 1], LOWER_FIRST), s[|s| - 1], lo, hi);
    }
  }

  // ---------------------------------------------------------------- the weighted quantile

  /** Where centroid `i` sits: the midpoint of its interval of cumulated weight. */
  function Mid(s: Points, i: nat): real
    requires i < |s|
  {
    Total(s[..i + 1]) - s[i].w / 2.0
  }

  /** The last centroid that sits at or below `x`. */
  function Below(s: Points, x: real, n: nat): (j: nat)
    requires n < |s| && Mid(s, 0) <= x
    ensures j <= n && Mid(s, j) <= x && forall i :: j < i <= n ==> x < Mid(s, i)
  {
    if Mid(s, n) <= x then n else Below(s, x, n - 1)
  }

  /** On the line between centroid `j` and the next. */
  function Between(s: Points, j: nat, x: real): real
    requires j < |s| - 1 && Mid(s, j) < Mid(s, j + 1)
  {
    s[j].z + (x - Mid(s, j)) / (Mid(s, j + 1) - Mid(s, j)) * (s[j + 1].z - s[j].z)
  }

  /** Linear interpolation of the heights over the midpoints, flat beyond both ends. */
  function Interp(s: Points, x: real): real
    requires s != []
  {
    if x < Mid(s, 0) then s[0].z
    else
      var j := Below(s, x, |s| - 1);
      if j == |s| - 1 then s[j].z else Between(s, j, x)
  }

  /** `_wq`. */
  function Quantile(s: Points, q: real): real
    requires s != []
  {
    if Total(s) <= 0.0 then s[0].z else Interp(s, q * Total(s))
  }

  lemma Ratio(t: real, d: real) returns (p: real)
    requires d > 0.0
    ensures p == t / d && p * d == t
  {
    p := t / d;
  }

  lemma Proportions(p: real, r: real, d: real, t: real, u: real)
    requires p * d == t && r * d == u && 0.0 <= t <= u < d
    ensures 0.0 <= p <= r <= 1.0
  {
    assert (r - p) * d == u - t;
    assert (1.0 - r) * d == d - u;
  }

  lemma Scaled(p: real, r: real, c: real)
    requires 0.0 <= p <= r <= 1.0 && c >= 0.0
    ensures 0.0 <= p * c <= r * c <= c
  {
    assert r * c - p * c == (r - p) * c;
    assert c - r * c == (1.0 - r) * c;
  }

  lemma Fraction(t: real, u: real, d: real, a: real, b: real)
    requires 0.0 <= t <= u < d && a <= b
    ensures a <= a + t / d * (b - a) <= a + u / d * (b - a) <= b
  {
    var p := Ratio(t, d);
    var r := Ratio(u, d);
    Proportions(p, r, d, t, u);
    var c := b - a;
    Scaled(p, r, c);
    assert t / d * (b - a) == p * c && u / d * (b - a) == r * c;
  }

  lemma BetweenMonotone(s: Points, j: nat, x: real, y: real)
    requires j < |s| - 1 && Mid(s, j) <= x <= y < Mid(s, j + 1) && s[j].z <= s[j + 1].z
    ensures s[j].z <= Between(s, j, x) <= Between(s, j, y) <= s[j + 1].z
  {
    Fraction(x - Mid(s, j), y - Mid(s, j), Mid(s, j + 1) - Mid(s, j), s[j].z, s[j + 1].z);
  }

  /** A quantile between two neighbouring centroids lies between their heights. */
  lemma InterpBounds(s: Points, x: real)
    requires s != [] && Ascending(s, LOWER_FIRST)
    ensures s[0].z <= Interp(s, x) <= s[|s| - 1].z
    ensures Mid(s, 0) <= x ==>
              var j := Below(s, x, |s| - 1);
              s[j].z <= Interp(s, x) && (j < |s| - 1 ==> Interp(s, x) <= s[j + 1].z)
  {
    hide Mid, Between;
    assert forall i, j :: 0 <= i < j < |s| ==> LOWER_FIRST(s[i], s[j]);
    if Mid(s, 0) <= x {
      var j := Below(s, x, |s| - 1);
      if j < |s| - 1 {
        BetweenMonotone(s, j, x, x);
      }
    }
  }

  lemma BelowMonotone(s: Points, x: real, y: real)
    requires s != [] && Mid(s, 0) <= x <= y
    ensures Below(s, x, |s| - 1) <= Below(s, y, |s| - 1)
  {
  }

  /** A higher quantile is never a lower height. */
  lemma InterpMonotone(s: Points, x: real, y: real)
    requires s != [] && Ascending(s, LOWER_FIRST) && x <= y
    ensures Interp(s, x) <= Interp(s, y)
  {
    hide Mid, Between;
    InterpBounds(s, x);
    InterpBounds(s, y);
    if Mid(s, 0) <= x {
      BelowMonotone(s, x, y);
      var i, j := Below(s, x, |s| - 1), Below(s, y, |s| - 1);
      if i < j {
        assert i + 1 < j ==> LOWER_FIRST(s[i + 1], s[j]);
      } else if j < |s| - 1 {
        assert LOWER_FIRST(s[j], s[j + 1]);
        BetweenMonotone(s, j, x, y);
      }
    }
  }

  lemma QuantileMonotone(s: Points, p: real, q: real)
    requires s != [] && Ascending(s, LOWER_FIRST) && p <= q
    ensures s[0].z <= Quantile(s, p) <= Quantile(s, q) <= s[|s| - 1].z
  {
    hide Interp, Total, Mid;
    assert |s| > 1 ==> LOWER_FIRST(s[0], s[|s| - 1]);
    if Total(s) > 0.0 {
      var x, y := p * Total(s), q * Total(s);
      assert x <= y;
      InterpMonotone(s, x, y);
      InterpBounds(s, x);
      InterpBounds(s, y);
    }
  }

  predicate Weighed(s: Points) {
    forall i :: 0 <= i < |s| ==> s[i].w > 0.0
  }

  lemma {:induction false} MidsAscend(s: Points, i: nat, j: nat)
    requires Weighed(s) && i < j < |s|
    ensures Mid(s, i) < Mid(s, j)
    decreases j
  {
    assert s[..j + 1][..j] == s[..j] && s[..j][..j - 1] == s[..j - 1];
    assert Total(s[..j + 1]) == Total(s[..j]) + s[j].w;
    if i < j - 1 {
      MidsAscend(s, i, j - 1);
    }
  }

  /** Interpolation passes through every centroid, at the midpoint of its own weight. */
  lemma QuantileAtMid(s: Points, i: nat)
    requires Weighed(s) && i < |s|
    ensures Interp(s, Mid(s, i)) == s[i].z
  {
    if i > 0 {
      MidsAscend(s, 0, i);
    }
    forall j | i < j < |s| ensures Mid(s, i) < Mid(s, j) {
      MidsAscend(s, i, j);
    }
    hide Mid;
    var j := Below(s, Mid(s, i), |s| - 1);
    assert j == i;
  }

  /** The median of two points of equal weight is halfway between them. */
  lemma MedianOfTwo(a: Point, b: Point)
    requires a.w == b.w > 0.0
    ensures Quantile([a, b], 0.5) == (a.z + b.z) / 2.0
  {
    var s := [a, b];
    assert s[..1] == [a] && s[..2] == s && [a][..0] == [];
    assert Total([a]) == a.w && Total(s) == 2.0 * a.w by {
      assert s[..|s| - 1] == [a];
    }
    assert Mid(s, 0) == a.w / 2.0 && Mid(s, 1) == 1.5 * a.w;
    assert Below(s, a.w, 1) == 0;
    Halfway(a.w, b.z - a.z);
  }

  lemma Halfway(w: real, c: real)
    requires w > 0.0
    ensures (w - w / 2.0) / (1.5 * w - w / 2.0) * c == c / 2.0
  {
    var r := (w - w / 2.0) / (1.5 * w - w / 2.0);
    assert r * w == w / 2.0;
    assert (r - 0.5) * w == 0.0;
  }

  // ---------------------------------------------------------------- the cuts

  /** The fractions taken off the low and the high tail after `k` cuts, which alternate from the far tail on. */
  function Cuts(first: real, step: real, highFirst: bool, k: nat): (real, real) {
    if k == 0 then (0.0, 0.0)
    else
      var (lo, hi), cut := Cuts(first, step, highFirst, k - 1), if k == 1 then first else step;
      if (k % 2 == 1) == highFirst then (lo, hi + cut) else (lo + cut, hi)
  }

  function Steps(n: int, step: real): real {
    n as real * step
  }

  lemma StepsAdd(n: int, step: real)
    ensures Steps(n, step) == Steps(n - 1, step) + step && Steps(0, step) == 0.0
  {
  }

  /** One tail has had `(k + 1) / 2` cuts, `first` among them, the other `k / 2`. */
  lemma {:induction false} CutsExact(first: real, step: real, highFirst: bool, k: nat)
    requires k >= 1
    ensures var (lo, hi) := Cuts(first, step, highFirst, k);
            var (near, far) := if highFirst then (lo, hi) else (hi, lo);
            && far == first + Steps((k + 1) / 2 - 1, step)
            && near == Steps(k / 2, step)
            && lo + hi == Dropped(first, step, k)
  {
    hide Steps;
    StepsAdd(0, step);
    if k > 1 {
      CutsExact(first, step, highFirst, k - 1);
      StepsAdd(k - 1, step);
      if k % 2 == 0 {
        assert k / 2 - 1 == (k - 1) / 2 && (k + 1) / 2 == k / 2;
        StepsAdd(k / 2, step);
      } else {
        assert (k + 1) / 2 - 1 == k / 2 && (k - 1) / 2 == k / 2;
        StepsAdd(k / 2, step);
      }
    }
  }

  /** What is cut after `k` cuts. */
  function Dropped(first: real, step: real, k: nat): real {
    if k == 0 then 0.0 else first + Steps(k - 1, step)
  }

  function Trimmed(s: Points, first: real, step: real, highFirst: bool, k: nat): (real, real)
    requires s != []
  {
    var (lo, hi) := Cuts(first, step, highFirst, k);
    (Quantile(s, lo), Quantile(s, 1.0 - hi))
  }

  predicate Fits(s: Points, first: real, step: real, highFirst: bool, span: real, k: nat)
    requires s != []
  {
    var (lo, hi) := Trimmed(s, first, step, highFirst, k);
    hi - lo <= span
  }

  lemma {:induction false} DroppedMonotone(first: real, step: real, j: nat, k: nat)
    requires step > 0.0 && first > 0.0 && j <= k
    ensures Dropped(first, step, j) <= Dropped(first, step, k)
  {
    if j < k {
      DroppedMonotone(first, step, j, k - 1);
      StepsAdd(k - 1, step);
    }
  }

  /** How many cuts the budget can pay for, at the most. */
  function Budget(first: real, step: real, maxDrop: real): int
    requires first > 0.0 && step > 0.0
  {
    ((if maxDrop < 0.0 then 0.0 else maxDrop) / step).Floor + 1
  }

  lemma CutsArePaid(first: real, step: real, maxDrop: real, k: nat)
    requires first > 0.0 && step > 0.0 && k >= 1 && Dropped(first, step, k) <= maxDrop
    ensures k <= Budget(first, step, maxDrop)
  {
    var r := maxDrop / step;
    assert r * step == maxDrop;
    if r < (k - 1) as real {
      assert r * step < (k - 1) as real * step;
    }
    assert maxDrop >= 0.0 by {
      DroppedMonotone(first, step, 0, k);
    }
  }

  datatype Outcome = Outcome(z0: real, drops: Option<(real, real)>, kept: real)

  function FloorOf(x: real): real {
    x.Floor as real
  }

  lemma {:induction false} AllInside(s: Points, lo: real, hi: real)
    requires forall i :: 0 <= i < |s| ==> lo <= s[i].z < hi
    ensures Inside(s, lo, hi) == Total(s)
  {
    if s != [] {
      AllInside(s[..|s| - 1], lo, hi);
    }
  }

  predicate FarTailIsHigh(s: Points)
    requires s != []
  {
    s[|s| - 1].z - Quantile(s, 0.5) >= Quantile(s, 0.5) - s[0].z
  }

  /** The loop: alternating cuts until the trimmed range is no wider than `span` or the budget is spent. */
  method Trim(s: Points, span: real, first: real, step: real, maxDrop: real) returns (cuts: Option<(real, real)>,
              ghost k: nat)
    requires s != [] && first > 0.0 && step > 0.0
    ensures cuts.Some? ==>
              && k >= 1 && cuts.value == Cuts(first, step, FarTailIsHigh(s), k)
              && Fits(s, first, step, FarTailIsHigh(s), span, k) && Dropped(first, step, k) <= maxDrop
              && forall j :: 1 <= j < k ==> !Fits(s, first, step, FarTailIsHigh(s), span, j)
    ensures cuts.None? ==>
              forall j: nat :: j >= 1 && Dropped(first, step, j) <= maxDrop ==>
                !Fits(s, first, step, FarTailIsHigh(s), span, j)
  {
    hide Quantile, Steps, Dropped, Budget;
    ghost var highFirst := FarTailIsHigh(s);
    var dropHigh, loD, hiD, cut := FarTailIsHigh(s), 0.0, 0.0, first;
    k := 0;
    DroppedNext(first, step, 0);
    while loD + hiD + cut <= maxDrop
      invariant (loD, hiD) == Cuts(first, step, highFirst, k)
      invariant dropHigh == ((k % 2 == 0) == highFirst) && cut == (if k == 0 then first else step)
      invariant loD + hiD == Dropped(first, step, k) && loD + hiD + cut == Dropped(first, step, k + 1)
      invariant forall j :: 1 <= j <= k ==> !Fits(s, first, step, highFirst, span, j)
      decreases Budget(first, step, maxDrop) - k
    {
      if dropHigh {
        hiD := hiD + cut;
      } else {
        loD := loD + cut;
      }
      dropHigh, cut := !dropHigh, step;
      k := k + 1;
      CutsArePaid(first, step, maxDrop, k);
      DroppedNext(first, step, k);
      var lo, hi := Quantile(s, loD), Quantile(s, 1.0 - hiD);
      if hi - lo <= span {
        return Some((loD, hiD)), k;
      }
    }
    forall j: nat | j >= 1 && Dropped(first, step, j) <= maxDrop ensures !Fits(s, first, step, highFirst, span, j) {
      if j > k {
        DroppedMonotone(first, step, k + 1, j);
      }
    }
    return None, k;
  }

  lemma DroppedNext(first: real, step: real, k: nat)
    ensures Dropped(first, step, 0) == 0.0
    ensures Dropped(first, step, k + 1) == Dropped(first, step, k) + if k == 0 then first else step
  {
    StepsAdd(0, step);
    StepsAdd(k, step);
  }

  /** The untrimmed data have weight and do not fit: the cuts are tried. */
  predicate Crowded(points: Points, span: real)
    requires points != []
  {
    var s := Sorted(points, LOWER_FIRST);
    && s != [] && Total(points) > 0.0 && FloorOf(s[0].z) + span <= s[|s| - 1].z
  }

  /**
   What `fit_window` promises of its result, `k` being the number of cuts. On every exit with weight to speak of, the
   early one included, `kept` is exactly the fraction of the weight in the window that is returned. Cuts are made only
   if the untrimmed data do not fit; then the result is that of the fewest alternating cuts after which the trimmed
   range is no wider than the window, or there is no such number of cuts within `maxDrop`.
   */
  ghost predicate IsFit(points: Points, span: real, first: real, step: real, maxDrop: real, r: Outcome, k: nat)
    requires points != []
  {
    var s := Sorted(points, LOWER_FIRST);
    && s != []
    && (Total(points) > 0.0 ==> r.kept == Inside(points, r.z0, r.z0 + span) / Total(points))
    && if !Crowded(points, span) then r == Outcome(FloorOf(s[0].z), Some((0.0, 0.0)), 1.0)
       else if r.drops.Some? then
         && k >= 1 && r.drops.value == Cuts(first, step, FarTailIsHigh(s), k)
         && Dropped(first, step, k) <= maxDrop
         && Fits(s, first, step, FarTailIsHigh(s), span, k)
         && r.z0 == FloorOf(Trimmed(s, first, step, FarTailIsHigh(s), k).0)
         && forall j :: 1 <= j < k ==> !Fits(s, first, step, FarTailIsHigh(s), span, j)
       else
         && r.z0 == FloorOf(Quantile(s, 0.5) - span / 2.0)
         && forall j: nat :: j >= 1 && Dropped(first, step, j) <= maxDrop ==>
              !Fits(s, first, step, FarTailIsHigh(s), span, j)
  }

  /** `fit_window`. It ends. */
  method Fit(points: Points, span: real, first: real, step: real, maxDrop: real) returns (r: Outcome, ghost k: nat)
    requires points != [] && first > 0.0 && step > 0.0
    ensures IsFit(points, span, first, step, maxDrop, r, k)
    ensures Ascending(Sorted(points, LOWER_FIRST), LOWER_FIRST)
    ensures multiset(Sorted(points, LOWER_FIRST)) == multiset(points)
  {
    hide Quantile, Sorted, Inside, Total, Cuts, Fits, Dropped, FarTailIsHigh;
    var s := Sorted(points, LOWER_FIRST);
    SortedExact(points, LOWER_FIRST);
    SortedSums(points, 0.0, 0.0);
    var total, z0 := Total(s), FloorOf(s[0].z);
    k := 0;
    if total <= 0.0 || s[|s| - 1].z < z0 + span {
      if total > 0.0 {
        AllInside(s, z0, z0 + span);
        SortedSums(points, z0, z0 + span);
      }
      r := Outcome(z0, Some((0.0, 0.0)), 1.0);
      return;
    }
    var cuts: Option<(real, real)>;
    cuts, k := Trim(s, span, first, step, maxDrop);
    z0 := FloorOf(if cuts.Some? then Quantile(s, cuts.value.0) else Quantile(s, 0.5) - span / 2.0);
    SortedSums(points, z0, z0 + span);
    r := Outcome(z0, cuts, Inside(s, z0, z0 + span) / total);
  }

  // ---------------------------------------------------------------- what the trimmed test leaves open

  predicate InWindow(z: real, z0: real, span: real) {
    z0 <= z < z0 + span
  }

  /** How far `x` lies above its whole metre. */
  function Above(x: real): (r: real)
    ensures 0.0 <= r < 1.0
  {
    x - FloorOf(x)
  }

  /** The data were crowded and some number of cuts was enough. */
  predicate WasCut(points: Points, span: real, r: Outcome)
    requires points != []
  {
    Crowded(points, span) && r.drops.Some?
  }

  /**
   Where cuts were made, the trimmed range is no wider than the window, and still need not lie in it, since the window
   starts at the whole metre at or below the range's bottom: it does exactly when the range's width and the distance
   of its bottom from that metre stay below `span` together. A range at least a metre narrower than the window always
   lies in it, and no range sticks out by a metre.
   */
  lemma TrimmedRangeExactly(points: Points, span: real, first: real, step: real, maxDrop: real, r: Outcome, k: nat)
    requires points != [] && first > 0.0 && step > 0.0
    requires IsFit(points, span, first, step, maxDrop, r, k) && WasCut(points, span, r)
    ensures var s := Sorted(points, LOWER_FIRST);
            var (lo, hi) := Trimmed(s, first, step, FarTailIsHigh(s), k);
            && (maxDrop <= 1.0 ==> lo <= hi)
            && ((forall z :: lo <= z <= hi ==> InWindow(z, r.z0, span)) <==> hi < lo || Above(lo) + (hi - lo) < span)
            && (lo <= hi <= lo + span - 1.0 ==> InWindow(lo, r.z0, span) && InWindow(hi, r.z0, span))
            && r.z0 <= lo && hi < r.z0 + span + 1.0
  {
    hide Quantile, Sorted, Inside, Total, FarTailIsHigh, Ascending;
    var s := Sorted(points, LOWER_FIRST);
    SortedExact(points, LOWER_FIRST);
    CutsExact(first, step, FarTailIsHigh(s), k);
    var (loD, hiD) := Cuts(first, step, FarTailIsHigh(s), k);
    if maxDrop <= 1.0 {
      QuantileMonotone(s, loD, 1.0 - hiD);
    }
    var (lo, hi) := Trimmed(s, first, step, FarTailIsHigh(s), k);
    if lo <= hi && forall z :: lo <= z <= hi ==> InWindow(z, r.z0, span) {
      assert InWindow(hi, r.z0, span);
    }
  }

  // ---------------------------------------------------------------- for which parameters it never sticks out

  /** The trimmed range after `k` cuts lies in the window that starts at `z0`. */
  ghost predicate RangeInside(points: Points, span: real, first: real, step: real, k: nat, z0: real)
    requires points != []
  {
    var s := Sorted(points, LOWER_FIRST);
    var (lo, hi) := Trimmed(s, first, step, FarTailIsHigh(s), k);
    forall z :: lo <= z <= hi ==> InWindow(z, z0, span)
  }

  /** Whatever centroids are fitted, a result with cuts has its trimmed range inside its window. */
  ghost predicate NeverSticksOut(span: real, first: real, step: real, maxDrop: real) {
    forall points: Points, r, k: nat ::
      points != [] && Weighed(points) && IsFit(points, span, first, step, maxDrop, r, k) && WasCut(points, span, r)
      ==> RangeInside(points, span, first, step, k, r.z0)
  }

  /** A list of points that one cut makes fit, and that still sticks out. */
  ghost predicate BadAfterOne(s: Points, span: real, first: real, step: real) {
    && s != [] && Weighed(s) && Sorted(s, LOWER_FIRST) == s && Crowded(s, span)
    && var (lo, hi) := Trimmed(s, first, step, FarTailIsHigh(s), 1);
       lo <= hi <= lo + span && FloorOf(lo) + span <= hi
  }

  lemma BadIsFit(s: Points, span: real, first: real, step: real, maxDrop: real)
    requires first > 0.0 && step > 0.0 && first <= maxDrop && BadAfterOne(s, span, first, step)
    ensures !NeverSticksOut(span, first, step, maxDrop)
  {
    hide Quantile, Total, Inside, FarTailIsHigh, Sorted, Cuts;
    var (lo, hi) := Trimmed(s, first, step, FarTailIsHigh(s), 1);
    var z0 := FloorOf(lo);
    var total := Total(s);
    var r := Outcome(z0, Some(Cuts(first, step, FarTailIsHigh(s), 1)), Inside(s, z0, z0 + span) / total);
    StepsAdd(0, step);
    assert IsFit(s, span, first, step, maxDrop, r, 1);
    assert !InWindow(hi, z0, span);
    assert !RangeInside(s, span, first, step, 1, z0);
  }

  lemma OnePoint(span: real, first: real, step: real)
    requires 0.0 <= span < 1.0 && first > 0.0
    ensures BadAfterOne([Point(span, 1.0)], span, first, step)
  {
    var s := [Point(span, 1.0)];
    SortedFixes(s, LOWER_FIRST);
    assert s[..0] == [] && Total(s) == 1.0;
    var (lo, hi) := Cuts(first, step, FarTailIsHigh(s), 1);
    QuantileOfOne(s, lo);
    QuantileOfOne(s, 1.0 - hi);
  }

  lemma QuantileOfOne(s: Points, q: real)
    requires |s| == 1
    ensures Quantile(s, q) == s[0].z
  {
  }

  /** Light tails at `0` and twice `span`, and everything between at `span`: the first cut leaves `0` to `span`. */
  function Flat(span: real, e: real): Points {
    [Point(0.0, e), Point(span, e), Point(span, 1.0 - 4.0 * e), Point(span, e), Point(2.0 * span, e)]
  }

  lemma FlatMids(span: real, e: real)
    ensures var s := Flat(span, e);
            Total(s) == 1.0 && Mid(s, 0) == e / 2.0 && Mid(s, 1) == 1.5 * e && Mid(s, 3) == 1.0 - 1.5 * e
  {
    var s := Flat(span, e);
    var a, b, c, d, f := s[0], s[1], s[2], s[3], s[4];
    assert s[..1] == [] + [a] && s[..2] == s[..1] + [b] && s[..3] == s[..2] + [c] && s[..4] == s[..3] + [d];
    assert s == s[..4] + [f];
    Sums([], a, 0.0, 0.0);
    Sums(s[..1], b, 0.0, 0.0);
    Sums(s[..2], c, 0.0, 0.0);
    Sums(s[..3], d, 0.0, 0.0);
    Sums(s[..4], f, 0.0, 0.0);
  }

  lemma FlatQuantiles(span: real, e: real, q: real)
    requires span > 0.0 && 0.0 < e < 0.25 && 1.5 * e <= q <= 1.0 - 1.5 * e
    ensures var s := Flat(span, e); Quantile(s, 0.0) == 0.0 && Quantile(s, q) == span
  {
    var s := Flat(span, e);
    hide Total, Mid, Interp, Quantile;
    FlatMids(span, e);
    FlatAscends(span, e);
    QuantileAtMid(s, 1);
    QuantileAtMid(s, 3);
    QuantileMonotone(s, 1.5 * e, q);
    QuantileMonotone(s, q, 1.0 - 1.5 * e);
    UnitQuantile(s, 1.5 * e);
    UnitQuantile(s, 1.0 - 1.5 * e);
    LowestFlat(s, 0.0);
    UnitQuantile(s, 0.0);
  }

  lemma UnitQuantile(s: Points, q: real)
    requires s != [] && Total(s) == 1.0
    ensures Quantile(s, q) == Interp(s, q)
  {
  }

  lemma FlatAscends(span: real, e: real)
    requires span > 0.0 && 0.0 < e < 0.25
    ensures Weighed(Flat(span, e)) && Ascending(Flat(span, e), LOWER_FIRST)
  {
  }

  lemma FlatIsBad(span: real, first: real, step: real, e: real)
    requires span > 0.0 && 0.0 < e < 0.25 && 1.5 * e <= 1.0 - first <= 1.0 - 1.5 * e && 1.5 * e <= 0.5
    ensures BadAfterOne(Flat(span, e), span, first, step)
  {
    var s := Flat(span, e);
    FlatAscends(span, e);
    SortedFixes(s, LOWER_FIRST);
    FlatMids(span, e);
    FlatQuantiles(span, e, 0.5);
    FlatQuantiles(span, e, 1.0 - first);
    hide Total, Mid, Quantile, Sorted;
    assert FarTailIsHigh(s);
    assert Cuts(first, step, true, 0) == (0.0, 0.0);
    assert Cuts(first, step, true, 1) == (0.0, first);
  }

  /** Cutting everything leaves one height. */
  lemma NothingLeft(s: Points, first: real, step: real)
    requires s != [] && Weighed(s) && first >= 1.0
    ensures var (lo, hi) := Trimmed(s, first, step, FarTailIsHigh(s), 1); lo == hi
  {
    hide FarTailIsHigh, Quantile;
    var high := FarTailIsHigh(s);
    assert Cuts(first, step, high, 0) == (0.0, 0.0);
    assert Cuts(first, step, high, 1) == if high then (0.0, first) else (first, 0.0);
    FlatEnds(s, if high then 0.0 else first);
    FlatEnds(s, if high then 1.0 - first else 1.0);
  }

  lemma FlatEnds(s: Points, q: real)
    requires s != [] && Weighed(s)
    ensures q <= 0.0 ==> Quantile(s, q) == s[0].z
    ensures q >= 1.0 ==> Quantile(s, q) == s[|s| - 1].z
  {
    hide Interp, Total;
    TotalPositive(s);
    var x := q * Total(s);
    Scaling(q, Total(s));
    if q <= 0.0 {
      LowestFlat(s, x);
    }
    if q >= 1.0 {
      HighestFlat(s, x);
    }
  }

  lemma Scaling(x: real, total: real)
    requires total > 0.0
    ensures x <= 0.0 ==> x * total <= 0.0
    ensures x >= 1.0 ==> x * total >= total
  {
    assert x * total - total == (x - 1.0) * total;
  }

  lemma LowestFlat(s: Points, x: real)
    requires s != [] && Weighed(s) && x <= 0.0
    ensures Interp(s, x) == s[0].z
  {
    assert s[..1] == [s[0]] && [s[0]][..0] == [];
    assert Total([s[0]]) == s[0].w;
  }

  lemma HighestFlat(s: Points, x: real)
    requires s != [] && Weighed(s) && x >= Total(s)
    ensures Interp(s, x) == s[|s| - 1].z
  {
    assert s[..|s|] == s;
    assert Mid(s, |s| - 1) <= x;
    if |s| > 1 {
      MidsAscend(s, 0, |s| - 1);
    }
  }

  lemma {:induction false} TotalPositive(s: Points)
    requires s != [] && Weighed(s)
    ensures Total(s) > 0.0
  {
    if |s| > 1 {
      TotalPositive(s[..|s| - 1]);
    }
  }

  lemma WideAndAllCut(points: Points, span: real, first: real, step: real, maxDrop: real, r: Outcome, k: nat)
    requires points != [] && Weighed(points) && first >= 1.0 && span >= 1.0 && step > 0.0
    requires IsFit(points, span, first, step, maxDrop, r, k) && WasCut(points, span, r)
    ensures RangeInside(points, span, first, step, k, r.z0)
  {
    hide Quantile, Total, Inside, FarTailIsHigh, Sorted, Cuts;
    var s := Sorted(points, LOWER_FIRST);
    SortedExact(points, LOWER_FIRST);
    SortedWeighed(points);
    NothingLeft(s, first, step);
    assert Fits(s, first, step, FarTailIsHigh(s), span, 1);
    assert k == 1;
  }

  lemma SortedWeighed(points: Points)
    requires Weighed(points)
    ensures Weighed(Sorted(points, LOWER_FIRST))
  {
    var s := Sorted(points, LOWER_FIRST);
    SortedExact(points, LOWER_FIRST);
    forall i | 0 <= i < |s| ensures s[i].w > 0.0 {
      assert s[i] in multiset(s);
      assert s[i] in multiset(points);
    }
  }

  lemma NoCutFits(points: Points, span: real, first: real, step: real, maxDrop: real, r: Outcome, k: nat)
    requires points != [] && first > 0.0 && step > 0.0 && (maxDrop < first || span < 0.0)
    requires IsFit(points, span, first, step, maxDrop, r, k) && WasCut(points, span, r)
    ensures RangeInside(points, span, first, step, k, r.z0)
  {
    hide Quantile, Total, Inside, FarTailIsHigh, Sorted, Cuts;
    DroppedMonotone(first, step, 1, k);
    StepsAdd(0, step);
  }

  /**
   The parameters for which no data whatsoever stick out: those with which no cut is ever made or none ever fits, and
   those whose first cut takes everything. With a window, a first cut of less than the whole and a budget that pays
   for it there always are centroids whose trimmed range the returned window does not hold.
   */
  lemma NeverSticksOutExactly(span: real, first: real, step: real, maxDrop: real)
    requires first > 0.0 && step > 0.0
    ensures NeverSticksOut(span, first, step, maxDrop)
            <==> maxDrop < first || span < 0.0 || (span >= 1.0 && first >= 1.0)
  {
    hide IsFit, WasCut, RangeInside, BadAfterOne;
    if maxDrop < first || span < 0.0 || (span >= 1.0 && first >= 1.0) {
      forall points: Points, r, k: nat
        | points != [] && Weighed(points) && IsFit(points, span, first, step, maxDrop, r, k) && WasCut(points, span, r)
        ensures RangeInside(points, span, first, step, k, r.z0)
      {
        if maxDrop < first || span < 0.0 {
          NoCutFits(points, span, first, step, maxDrop, r, k);
        } else {
          WideAndAllCut(points, span, first, step, maxDrop, r, k);
        }
      }
    } else if span < 1.0 {
      OnePoint(span, first, step);
      BadIsFit([Point(span, 1.0)], span, first, step, maxDrop);
    } else {
      var e := first * (1.0 - first) / 2.0;
      LightTail(first, e);
      FlatIsBad(span, first, step, e);
      BadIsFit(Flat(span, e), span, first, step, maxDrop);
    }
  }

  lemma LightTail(first: real, e: real)
    requires 0.0 < first < 1.0 && e == first * (1.0 - first) / 2.0
    ensures 0.0 < e < 0.25 && 1.5 * e <= 1.0 - first && 1.5 * e <= first && 1.5 * e <= 0.5
  {
    var g := 1.0 - first;
    assert first * g > 0.0 && first * g == first - first * first && first * g == g - g * g;
    assert first * first > 0.0 && g * g > 0.0;
  }

  // ---------------------------------------------------------------- an example

  lemma Sums(s: Points, p: Point, lo: real, hi: real)
    ensures Total(s + [p]) == Total(s) + p.w
    ensures Inside(s + [p], lo, hi) == Inside(s, lo, hi) + if lo <= p.z < hi then p.w else 0.0
  {
    assert (s + [p])[..|s|] == s;
  }

  const CANOPY: Points := [Point(0.9, 97.0), Point(10.8, 2.0), Point(100.0, 1.0)]

  lemma CanopyFacts()
    ensures Sorted(CANOPY, LOWER_FIRST) == CANOPY
    ensures Total(CANOPY) == 100.0 && Inside(CANOPY, 0.0, 10.0) == 97.0
    ensures Mid(CANOPY, 0) == 48.5 && Mid(CANOPY, 1) == 98.0 && Mid(CANOPY, 2) == 99.5
  {
    hide Sorted;
    var a, b, c := CANOPY[0], CANOPY[1], CANOPY[2];
    assert CANOPY == [a, b] + [c] && [a, b] == [a] + [b] && [a] == [] + [a];
    Sums([], a, 0.0, 10.0);
    Sums([a], b, 0.0, 10.0);
    Sums([a, b], c, 0.0, 10.0);
    assert CANOPY[..1] == [a] && CANOPY[..2] == [a, b] && CANOPY[..3] == CANOPY;
    CanopySorted();
  }

  lemma CanopySorted()
    ensures Sorted(CANOPY, LOWER_FIRST) == CANOPY
  {
    assert Ascending(CANOPY, LOWER_FIRST);
    SortedFixes(CANOPY, LOWER_FIRST);
  }

  lemma CanopyQuantiles()
    ensures Quantile(CANOPY, 0.5) == 1.2 && Quantile(CANOPY, 0.0) == 0.9 && Quantile(CANOPY, 0.98) == 10.8
  {
    CanopyFacts();
    hide Sorted, Total, Inside, Mid;
    assert Below(CANOPY, 50.0, 2) == 0 && Below(CANOPY, 98.0, 2) == 1;
  }

  /**
   Data whose trimmed range sticks out, whatever the fit returns: one cut of two in a hundred leaves 0.9 to 10.8,
   which a window of ten holds in width but not from the whole metre on. Three in a hundred are outside the window.
   */
  lemma SticksOut(r: Outcome, k: nat)
    requires IsFit(CANOPY, 10.0, 0.02, 0.05, 0.5, r, k)
    ensures WasCut(CANOPY, 10.0, r) && k == 1 && r.z0 == 0.0 && r.drops == Some((0.0, 0.02)) && r.kept == 0.97
    ensures FarTailIsHigh(Sorted(CANOPY, LOWER_FIRST))
    ensures Trimmed(Sorted(CANOPY, LOWER_FIRST), 0.02, 0.05, true, 1) == (0.9, 10.8) && !InWindow(10.8, r.z0, 10.0)
  {
    CanopyFacts();
    CanopyQuantiles();
    var s := CANOPY;
    hide Sorted, Total, Inside, Mid, Quantile;
    assert FarTailIsHigh(s) && Cuts(0.02, 0.05, true, 1) == (0.0, 0.02);
    assert Fits(s, 0.02, 0.05, true, 10.0, 1) && Dropped(0.02, 0.05, 1) == 0.02;
  }
}
