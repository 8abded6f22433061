/**
 The fold of a dense field under an exact law. What is stored is a number of the field's dtype or NaN, and a cell is
 missing when it is NaN or equals the field's fill, so a result that happens to equal the fill reads as missing
 at the next level. Floats are real numbers; integers wrap around within their dtype.
 */
module DenseFold {
  import opened Prelude
  import opened Bytes
  import opened Chunks

  // ---------------------------------------------------------------- reducing the present values

  datatype Law = Add | Least | Greatest

  /** Missing cells (`None`) are left out of the reduction. */
  function Combine(law: Law, a: Option<real>, b: Option<real>): Option<real> {
    if a.None? then b
    else if b.None? then a
    else match law
      case Add => Some(a.value + b.value)
      case Least => if a.value <= b.value then a else b
      case Greatest => if a.value >= b.value then a else b
  }

  function Reduce(law: Law, cells: seq<Option<real>>): Option<real> {
    if cells == [] then None else Combine(law, Reduce(law, cells[..|cells| - 1]), cells[|cells| - 1])
  }

  function Present(cells: seq<Option<real>>): seq<real> {
    if cells == [] then []
    else Present(cells[..|cells| - 1]) + if cells[|cells| - 1].Some? then [cells[|cells| - 1].value] else []
  }

  function Total(values: seq<real>): real {
    if values == [] then 0.0 else Total(values[..|values| - 1]) + values[|values| - 1]
  }

  predicate Extreme(law: Law, x: real, values: seq<real>) {
    x in values && forall i :: 0 <= i < |values| ==> if law.Least? then x <= values[i] else values[i] <= x
  }

  /** Missing for no values, or else their sum, the least or the greatest of them. */
  predicate Reduced(law: Law, r: Option<real>, values: seq<real>) {
    && (r.None? <==> values == [])
    && (r.Some? ==> if law.Add? then r.value == Total(values) else Extreme(law, r.value, values))
  }

  lemma ReducedSnoc(law: Law, r: Option<real>, values: seq<real>, y: real)
    requires Reduced(law, r, values)
    ensures Reduced(law, Combine(law, r, Some(y)), values + [y])
  {
    var longer := values + [y];
    assert longer[..|values|] == values && longer[|values|] == y;
    assert forall i :: 0 <= i < |values| ==> longer[i] == values[i];
    if values == [] {
      assert Total(values) == 0.0;
    }
  }

  /** A group of missing cells folds to missing; any other to the sum, the least or the greatest of the present ones. */
  lemma {:induction false} ReduceExact(law: Law, cells: seq<Option<real>>)
    ensures Reduced(law, Reduce(law, cells), Present(cells))
  {
    hide Reduced, Combine;
    if cells == [] {
      NothingReduced(law);
    } else {
      var init, last := cells[..|cells| - 1], cells[|cells| - 1];
      ReduceExact(law, init);
      if last.Some? {
        ReducedSnoc(law, Reduce(law, init), Present(init), last.value);
      } else {
        assert Present(init) + [] == Present(init);
        CombineMissing(law, Reduce(law, init));
      }
    }
  }

  lemma NothingReduced(law: Law)
    ensures Reduced(law, None, [])
  {
  }

  lemma CombineMissing(law: Law, r: Option<real>)
    ensures Combine(law, r, None) == r
  {
  }

  lemma {:induction false} ReduceAppend(law: Law, a: seq<Option<real>>, b: seq<Option<real>>)
    ensures Reduce(law, a + b) == Combine(law, Reduce(law, a), Reduce(law, b))
  {
    if b == [] {
      assert a + b == a;
    } else {
      var n := |b| - 1;
      assert (a + b)[..|a + b| - 1] == a + b[..n];
      ReduceAppend(law, a, b[..n]);
    }
  }

  lemma {:induction false} ReduceByRun(law: Law, runs: seq<seq<Option<real>>>, reduced: seq<Option<real>>)
    requires |runs| == |reduced| && forall i :: 0 <= i < |runs| ==> reduced[i] == Reduce(law, runs[i])
    ensures Reduce(law, Flatten(runs)) == Reduce(law, reduced)
  {
    if runs != [] {
      var n := |runs| - 1;
      ReduceByRun(law, runs[..n], reduced[..n]);
      ReduceAppend(law, Flatten(runs[..n]), runs[n]);
    }
  }

  lemma DenseCellNests(law: Law, slab: seq<Option<real>>, fine: seq<Option<real>>, n: nat, g: nat, f: nat, j: nat)
    requires |slab| == n * (g * f) == (n * g) * f && |fine| == n * g && j < n
    requires forall m :: 0 <= m < n * g ==> fine[m] == Reduce(law, Cut(slab, n * g, f)[m])
    ensures Reduce(law, Cut(fine, n, g)[j]) == Reduce(law, Cut(slab, n, g * f)[j])
  {
    hide Reduce, Cut, Flatten;
    CutNests(slab, n, g, f, j);
    CutAt(fine, n, g, j);
    var runs := Cut(slab, n * g, f)[j * g..(j + 1) * g];
    ReduceByRun(law, runs, Cut(fine, n, g)[j]);
  }

  // ---------------------------------------------------------------- stored cells

  datatype Cell = NaN | Num(value: real)

  /** An integer dtype holds the `size` whole numbers from `lo` on. */
  datatype Dtype = Floating | Integer(lo: int, size: nat) {
    predicate Ok() {
      Integer? ==> lo <= 0 && lo + size >= 4
    }
  }

  /** The declared fill: NaN, by token or value, or a number. */
  datatype Fill = NotANumber | Number(value: real)

  /** The whole number towards zero. */
  function Truncate(x: real): int {
    if x >= 0.0 then x.Floor else -((-x).Floor)
  }

  /** `_fill_scalar`: the fill in the dtype of the slab; nothing when it cannot be read there, which raises. */
  function FillCell(fill: Fill, dtype: Dtype): Option<Cell> {
    match dtype
    case Floating => Some(if fill.NotANumber? then NaN else Num(fill.value))
    case Integer(lo, size) =>
      if fill.Number? && lo <= Truncate(fill.value) < lo + size then Some(Num(Truncate(fill.value) as real)) else None
  }

  predicate Whole(x: real) {
    x == x.Floor as real
  }

  predicate InRange(dtype: Dtype, x: real) {
    dtype.Integer? ==> Whole(x) && dtype.lo as real <= x < (dtype.lo + dtype.size) as real
  }

  /** The cell is one of the dtype's. */
  predicate Holds(dtype: Dtype, c: Cell) {
    if c.NaN? then dtype.Floating? else InRange(dtype, c.value)
  }

  predicate AllHold(dtype: Dtype, cells: seq<Cell>) {
    forall i :: 0 <= i < |cells| ==> Holds(dtype, cells[i])
  }

  /** What `_is_missing` leaves of a cell. */
  function See(fill: Cell, c: Cell): Option<real> {
    if c.NaN? || c == fill then None else Some(c.value)
  }

  function Visible(fill: Cell, cells: seq<Cell>): (r: seq<Option<real>>)
    ensures |r| == |cells|
  {
    seq(|cells|, i requires 0 <= i < |cells| => See(fill, cells[i]))
  }

  /** What is left of a whole number in the dtype. */
  function Wrap(lo: int, size: nat, x: int): int
    requires size > 0
  {
    lo + (x - lo) % size
  }

  function Stored(dtype: Dtype, x: real): real
    requires dtype.Ok()
  {
    if dtype.Floating? then x else Wrap(dtype.lo, dtype.size, x.Floor) as real
  }

  /** One group of `fold_dense`. */
  function FoldRun(law: Law, dtype: Dtype, fill: Cell, cells: seq<Cell>): Cell
    requires dtype.Ok()
  {
    var r := Reduce(law, Visible(fill, cells));
    if r.None? then fill else Num(Stored(dtype, r.value))
  }

  /** `fold_dense`, `f` cells to one. */
  function FoldDense(law: Law, dtype: Dtype, fill: Cell, slab: seq<Cell>, n: nat, f: nat): (r: seq<Cell>)
    requires dtype.Ok() && |slab| == n * f
    ensures |r| == n
  {
    seq(n, j requires 0 <= j < n => FoldRun(law, dtype, fill, Cut(slab, n, f)[j]))
  }

  // ---------------------------------------------------------------- wrapping

  lemma WrapUnique(lo: int, size: nat, x: int, y: int, k: int)
    requires size > 0 && lo <= y < lo + size && x == y + k * size
    ensures Wrap(lo, size, x) == y
  {
    var v := x - lo;
    var q, r := v / size, v % size;
    assert v == q * size + r;
    assert (k - q) * size == r - (y - lo);
    ScaleApart(k - q, size);
  }

  lemma WrapAdds(lo: int, size: nat, a: int, b: int)
    requires size > 0
    ensures Wrap(lo, size, Wrap(lo, size, a) + b) == Wrap(lo, size, a + b)
  {
    var p, q, y := (a - lo) / size, (a + b - lo) / size, Wrap(lo, size, a + b);
    assert a == Wrap(lo, size, a) + p * size;
    assert a + b == y + q * size;
    assert (q - p) * size == q * size - p * size;
    WrapUnique(lo, size, Wrap(lo, size, a) + b, y, q - p);
  }

  predicate Summable(dtype: Dtype, x: real) {
    dtype.Integer? ==> Whole(x)
  }

  lemma WholeAdds(a: real, b: real)
    requires Whole(a) && Whole(b)
    ensures Whole(a + b) && (a + b).Floor == a.Floor + b.Floor
  {
  }

  /** Wrapping a summand first does not change what a sum wraps to. */
  lemma StoredAdds(dtype: Dtype, a: real, b: real)
    requires dtype.Ok() && Summable(dtype, a) && Summable(dtype, b)
    ensures Stored(dtype, Stored(dtype, a) + b) == Stored(dtype, a + b)
    ensures Summable(dtype, a + b) && InRange(dtype, Stored(dtype, a))
  {
    if dtype.Integer? {
      WrapAdds(dtype.lo, dtype.size, a.Floor, b.Floor);
      WholeAdds(a, b);
      WholeAdds(Stored(dtype, a), b);
    }
  }

  lemma StoredFixes(dtype: Dtype, x: real)
    requires dtype.Ok() && InRange(dtype, x)
    ensures Stored(dtype, x) == x
  {
    if dtype.Integer? {
      WrapUnique(dtype.lo, dtype.size, x.Floor, x.Floor, 0);
    }
  }

  // ---------------------------------------------------------------- one group

  predicate Fits(dtype: Dtype, fill: Cell) {
    dtype.Ok() && Holds(dtype, fill)
  }

  lemma FillFits(fill: Fill, dtype: Dtype)
    requires dtype.Ok() && FillCell(fill, dtype).Some?
    ensures Fits(dtype, FillCell(fill, dtype).value)
  {
  }

  predicate Genuine(dtype: Dtype, fill: Cell, values: seq<real>) {
    forall i :: 0 <= i < |values| ==> InRange(dtype, values[i]) && Num(values[i]) != fill
  }

  lemma {:induction false} PresentGenuine(dtype: Dtype, fill: Cell, cells: seq<Cell>)
    requires AllHold(dtype, cells)
    ensures Genuine(dtype, fill, Present(Visible(fill, cells)))
  {
    if cells != [] {
      var n := |cells| - 1;
      PresentGenuine(dtype, fill, cells[..n]);
      assert Visible(fill, cells)[..n] == Visible(fill, cells[..n]);
      assert Holds(dtype, cells[n]);
    }
  }

  lemma {:induction false} TotalSummable(dtype: Dtype, values: seq<real>)
    requires dtype.Ok() && forall i :: 0 <= i < |values| ==> InRange(dtype, values[i])
    ensures Summable(dtype, Total(values))
  {
    if values != [] {
      TotalSummable(dtype, values[..|values| - 1]);
      if dtype.Integer? {
        WholeAdds(Total(values[..|values| - 1]), values[|values| - 1]);
      }
    }
  }

  /**
   A group without present cells folds to the fill, any other to the sum of the present values as far as the dtype
   holds it, or to the least or greatest of them. The result is of the dtype, and it reads as missing exactly when no
   cell was present or the sum came out as the fill.
   */
  lemma FoldRunExact(law: Law, dtype: Dtype, fill: Cell, cells: seq<Cell>)
    requires Fits(dtype, fill) && AllHold(dtype, cells)
    ensures var r, present := FoldRun(law, dtype, fill, cells), Present(Visible(fill, cells));
            && (present == [] ==> r == fill)
            && (present != [] && law.Add? ==> r == Num(Stored(dtype, Total(present))))
            && (present != [] && !law.Add? ==> r.Num? && Extreme(law, r.value, present))
            && Holds(dtype, r)
            && (See(fill, r).None? <==> present == [] || (law.Add? && Num(Stored(dtype, Total(present))) == fill))
  {
    var seen := Visible(fill, cells);
    var present := Present(seen);
    ReduceExact(law, seen);
    PresentGenuine(dtype, fill, cells);
    if present != [] {
      TotalSummable(dtype, present);
      var x := Reduce(law, seen).value;
      if law.Add? {
        StoredAdds(dtype, x, 0.0);
      } else {
        StoredFixes(dtype, x);
      }
    }
  }

  /** No sum can come out as the fill. */
  predicate Transparent(law: Law, fill: Cell) {
    !law.Add? || fill.NaN?
  }

  lemma SeeFoldRun(law: Law, dtype: Dtype, fill: Cell, cells: seq<Cell>)
    requires Fits(dtype, fill) && AllHold(dtype, cells) && Transparent(law, fill)
    ensures See(fill, FoldRun(law, dtype, fill, cells)) == Reduce(law, Visible(fill, cells))
  {
    FoldRunExact(law, dtype, fill, cells);
    ReduceExact(law, Visible(fill, cells));
    PresentGenuine(dtype, fill, cells);
    var r := Reduce(law, Visible(fill, cells));
    if r.Some? && !law.Add? {
      StoredFixes(dtype, r.value);
    }
  }

  // ---------------------------------------------------------------- folds of folds

  lemma VisibleCut(fill: Cell, slab: seq<Cell>, n: nat, f: nat, j: nat)
    requires |slab| == n * f && j < n
    ensures Visible(fill, Cut(slab, n, f)[j]) == Cut(Visible(fill, slab), n, f)[j]
  {
    CutAt(slab, n, f, j);
    CutAt(Visible(fill, slab), n, f, j);
  }

  lemma CutHolds(dtype: Dtype, slab: seq<Cell>, n: nat, f: nat, j: nat)
    requires |slab| == n * f && j < n && AllHold(dtype, slab)
    ensures AllHold(dtype, Cut(slab, n, f)[j])
  {
    CutAt(slab, n, f, j);
  }

  /** Whether folding `g` times over a fold of `f` gives what folding `g * f` at once gives. */
  predicate Nests(law: Law, dtype: Dtype, fill: Cell, slab: seq<Cell>, n: nat, g: nat, f: nat)
    requires dtype.Ok() && |slab| == n * (g * f)
  {
    Reassociates(n, g, f);
    FoldDense(law, dtype, fill, FoldDense(law, dtype, fill, slab, n * g, f), n, g)
    == FoldDense(law, dtype, fill, slab, n, g * f)
  }

  lemma Reassociates(n: nat, g: nat, f: nat)
    ensures n * (g * f) == (n * g) * f
  {
  }

  lemma TransparentNests(law: Law, dtype: Dtype, fill: Cell, slab: seq<Cell>, n: nat, g: nat, f: nat)
    requires Fits(dtype, fill) && |slab| == n * (g * f) && AllHold(dtype, slab) && Transparent(law, fill)
    ensures Nests(law, dtype, fill, slab, n, g, f)
  {
    hide Cut, Reduce, See, AllHold;
    Reassociates(n, g, f);
    var fine := FoldDense(law, dtype, fill, slab, n * g, f);
    forall m | 0 <= m < n * g ensures Visible(fill, fine)[m] == Reduce(law, Cut(Visible(fill, slab), n * g, f)[m]) {
      CutHolds(dtype, slab, n * g, f, m);
      SeeFoldRun(law, dtype, fill, Cut(slab, n * g, f)[m]);
      VisibleCut(fill, slab, n * g, f, m);
    }
    forall j | 0 <= j < n
      ensures Reduce(law, Visible(fill, Cut(fine, n, g)[j])) == Reduce(law, Visible(fill, Cut(slab, n, g * f)[j]))
    {
      DenseCellNests(law, Visible(fill, slab), Visible(fill, fine), n, g, f, j);
      VisibleCut(fill, fine, n, g, j);
      VisibleCut(fill, slab, n, g * f, j);
    }
  }

  /** A fold of one cell to one: what is missing becomes the fill, everything else stays. */
  lemma FoldOne(law: Law, dtype: Dtype, fill: Cell, c: Cell)
    requires Fits(dtype, fill) && Holds(dtype, c)
    ensures FoldRun(law, dtype, fill, [c]) == if See(fill, c).None? then fill else c
  {
    var seen := Visible(fill, [c]);
    assert seen == [See(fill, c)] && seen[..0] == [];
    assert Reduce(law, seen) == See(fill, c);
    if See(fill, c).Some? {
      StoredFixes(dtype, c.value);
    }
  }

  lemma CutOnes(slab: seq<Cell>, n: nat, j: nat)
    requires |slab| == n * 1 && j < n
    ensures Cut(slab, n, 1)[j] == [slab[j]]
  {
    CutAt(slab, n, 1, j);
  }

  lemma FineOnesNest(law: Law, dtype: Dtype, fill: Cell, slab: seq<Cell>, n: nat, g: nat)
    requires Fits(dtype, fill) && |slab| == n * (g * 1) && AllHold(dtype, slab)
    ensures Nests(law, dtype, fill, slab, n, g, 1)
  {
    hide Cut, FoldRun;
    assert g * 1 == g;
    Reassociates(n, g, 1);
    var fine := FoldDense(law, dtype, fill, slab, n * g, 1);
    forall m | 0 <= m < n * g ensures See(fill, fine[m]) == See(fill, slab[m]) {
      CutOnes(slab, n * g, m);
      FoldOne(law, dtype, fill, slab[m]);
    }
    assert Visible(fill, fine) == Visible(fill, slab);
    forall j | 0 <= j < n
      ensures FoldRun(law, dtype, fill, Cut(fine, n, g)[j]) == FoldRun(law, dtype, fill, Cut(slab, n, g)[j])
    {
      VisibleCut(fill, fine, n, g, j);
      VisibleCut(fill, slab, n, g, j);
      SeenAlike(law, dtype, fill, Cut(fine, n, g)[j], Cut(slab, n, g)[j]);
    }
  }

  lemma SeenAlike(law: Law, dtype: Dtype, fill: Cell, a: seq<Cell>, b: seq<Cell>)
    requires dtype.Ok() && Visible(fill, a) == Visible(fill, b)
    ensures FoldRun(law, dtype, fill, a) == FoldRun(law, dtype, fill, b)
  {
  }

  lemma CoarseOnesNest(law: Law, dtype: Dtype, fill: Cell, slab: seq<Cell>, n: nat, f: nat)
    requires Fits(dtype, fill) && |slab| == n * (1 * f) && AllHold(dtype, slab)
    ensures Nests(law, dtype, fill, slab, n, 1, f)
  {
    hide Cut, AllHold, Reduce;
    assert 1 * f == f && n * 1 == n;
    Reassociates(n, 1, f);
    var fine := FoldDense(law, dtype, fill, slab, n, f);
    forall j | 0 <= j < n ensures FoldRun(law, dtype, fill, Cut(fine, n, 1)[j]) == fine[j] {
      CutHolds(dtype, slab, n, f, j);
      FoldRunExact(law, dtype, fill, Cut(slab, n, f)[j]);
      CutOnes(fine, n, j);
      FoldOne(law, dtype, fill, fine[j]);
    }
  }

  /** The sum of the values, NaN counting nothing. */
  function SumOf(cells: seq<Cell>): real {
    if cells == [] then 0.0
    else SumOf(cells[..|cells| - 1]) + if cells[|cells| - 1].NaN? then 0.0 else cells[|cells| - 1].value
  }

  lemma {:induction false} SumOfAppend(a: seq<Cell>, b: seq<Cell>)
    ensures SumOf(a + b) == SumOf(a) + SumOf(b)
  {
    if b == [] {
      assert a + b == a;
    } else {
      assert (a + b)[..|a + b| - 1] == a + b[..|b| - 1];
      SumOfAppend(a, b[..|b| - 1]);
    }
  }

  lemma {:induction false} SumSummable(dtype: Dtype, cells: seq<Cell>)
    requires dtype.Ok() && AllHold(dtype, cells)
    ensures Summable(dtype, SumOf(cells))
    ensures Total(Present(Visible(Num(0.0), cells))) == SumOf(cells)
  {
    if cells != [] {
      var n := |cells| - 1;
      SumSummable(dtype, cells[..n]);
      assert Visible(Num(0.0), cells)[..n] == Visible(Num(0.0), cells[..n]);
      assert Holds(dtype, cells[n]);
      var before, c := Present(Visible(Num(0.0), cells[..n])), cells[n];
      if See(Num(0.0), c).Some? {
        assert (before + [c.value])[..|before|] == before;
      } else {
        assert before + [] == before;
      }
      if dtype.Integer? {
        WholeAdds(SumOf(cells[..n]), c.value);
      }
    }
  }

  lemma ZeroFillRun(dtype: Dtype, cells: seq<Cell>)
    requires dtype.Ok() && AllHold(dtype, cells)
    ensures FoldRun(Add, dtype, Num(0.0), cells) == Num(Stored(dtype, SumOf(cells)))
    ensures Holds(dtype, FoldRun(Add, dtype, Num(0.0), cells))
  {
    SumSummable(dtype, cells);
    FoldRunExact(Add, dtype, Num(0.0), cells);
    StoredFixes(dtype, 0.0);
    assert Total([]) == 0.0;
  }

  lemma StoredStep(dtype: Dtype, a: real, b: real, c: real)
    requires dtype.Ok() && Summable(dtype, a) && Summable(dtype, b) && Summable(dtype, c)
    requires Stored(dtype, a) == Stored(dtype, b)
    ensures Stored(dtype, a + Stored(dtype, c)) == Stored(dtype, b + c)
    ensures Summable(dtype, a + Stored(dtype, c)) && Summable(dtype, b + c)
  {
    hide Stored;
    StoredAdds(dtype, c, a);
    assert a + Stored(dtype, c) == Stored(dtype, c) + a && c + a == a + c;
    StoredAdds(dtype, a, c);
    StoredAdds(dtype, b, c);
    StoredAdds(dtype, a, Stored(dtype, c));
  }

  lemma {:induction false} StoredSums(dtype: Dtype, runs: seq<seq<Cell>>, fine: seq<Cell>)
    requires dtype.Ok() && |runs| == |fine| && forall m :: 0 <= m < |runs| ==> AllHold(dtype, runs[m])
    requires forall m :: 0 <= m < |runs| ==> fine[m] == Num(Stored(dtype, SumOf(runs[m])))
    ensures Stored(dtype, SumOf(fine)) == Stored(dtype, SumOf(Flatten(runs)))
    ensures Summable(dtype, SumOf(fine)) && Summable(dtype, SumOf(Flatten(runs)))
  {
    hide Stored, AllHold, Summable, SumOf, Flatten;
    SumOfNothing();
    if runs != [] {
      var n := |runs| - 1;
      StoredSums(dtype, runs[..n], fine[..n]);
      FlattenSnoc(runs[..n], runs[n]);
      SumOfAppend(Flatten(runs[..n]), runs[n]);
      SumOfAppend(fine[..n], [fine[n]]);
      SumOfOne(fine[n]);
      SumSummable(dtype, runs[n]);
      StoredStep(dtype, SumOf(fine[..n]), SumOf(Flatten(runs[..n])), SumOf(runs[n]));
      assert runs == runs[..n] + [runs[n]] && fine == fine[..n] + [fine[n]];
    } else {
      ZeroSummable(dtype);
    }
  }

  lemma SumOfNothing()
    ensures SumOf([]) == 0.0 && Flatten<Cell>([]) == []
  {
  }

  lemma SumOfOne(c: Cell)
    ensures SumOf([c]) == if c.NaN? then 0.0 else c.value
  {
    assert [c][..0] == [];
  }

  lemma ZeroSummable(dtype: Dtype)
    ensures Summable(dtype, 0.0)
  {
  }

  lemma ZeroFillCell(dtype: Dtype, slab: seq<Cell>, fine: seq<Cell>, n: nat, g: nat, f: nat, j: nat)
    requires dtype.Ok() && |slab| == n * (g * f) == (n * g) * f && |fine| == n * g && j < n && AllHold(dtype, slab)
    requires forall m :: 0 <= m < n * g ==> fine[m] == FoldRun(Add, dtype, Num(0.0), Cut(slab, n * g, f)[m])
    ensures FoldRun(Add, dtype, Num(0.0), Cut(fine, n, g)[j]) == FoldRun(Add, dtype, Num(0.0), Cut(slab, n, g * f)[j])
  {
    hide Cut, Flatten, FoldRun, Sum, AllHold, Stored;
    CutNests(slab, n, g, f, j);
    CutAt(fine, n, g, j);
    var cuts, lo := Cut(slab, n * g, f), j * g;
    var runs, mine := cuts[lo..(j + 1) * g], Cut(fine, n, g)[j];
    forall m | 0 <= m < |runs|
      ensures AllHold(dtype, runs[m]) && mine[m] == Num(Stored(dtype, SumOf(runs[m]))) && Holds(dtype, mine[m])
    {
      assert runs[m] == cuts[lo + m] && mine[m] == fine[lo + m];
      CutHolds(dtype, slab, n * g, f, lo + m);
      ZeroFillRun(dtype, runs[m]);
    }
    StoredSums(dtype, runs, mine);
    CutHolds(dtype, slab, n, g * f, j);
    ZeroFillRun(dtype, Cut(slab, n, g * f)[j]);
    AllAreHeld(dtype, mine);
    ZeroFillRun(dtype, mine);
  }

  lemma AllAreHeld(dtype: Dtype, cells: seq<Cell>)
    requires forall i :: 0 <= i < |cells| ==> Holds(dtype, cells[i])
    ensures AllHold(dtype, cells)
  {
  }

  lemma ZeroFillNests(dtype: Dtype, slab: seq<Cell>, n: nat, g: nat, f: nat)
    requires dtype.Ok() && |slab| == n * (g * f) && AllHold(dtype, slab)
    ensures Nests(Add, dtype, Num(0.0), slab, n, g, f)
  {
    hide FoldRun, Cut, AllHold;
    Reassociates(n, g, f);
    var fine := FoldDense(Add, dtype, Num(0.0), slab, n * g, f);
    forall j | 0 <= j < n
      ensures FoldRun(Add, dtype, Num(0.0), Cut(fine, n, g)[j]) == FoldRun(Add, dtype, Num(0.0), Cut(slab, n, g * f)[j])
    {
      ZeroFillCell(dtype, slab, fine, n, g, f, j);
    }
  }

  // ---------------------------------------------------------------- a sum that comes out as the fill

  /** Two values, neither the fill, that sum to it. */
  function Pair(dtype: Dtype, fill: real): (real, real)
    requires dtype.Ok()
  {
    if fill == 1.0 then (Stored(dtype, -1.0), 2.0) else (Stored(dtype, fill - 1.0), 1.0)
  }

  lemma PairHitsFill(dtype: Dtype, fill: real)
    requires dtype.Ok() && InRange(dtype, fill) && fill != 0.0
    ensures var (x, y) := Pair(dtype, fill);
            && InRange(dtype, x) && InRange(dtype, y) && x != fill && y != fill
            && Stored(dtype, x + y) == fill && Stored(dtype, x + y + y) != y
  {
    var y := if fill == 1.0 then 2.0 else 1.0;
    var x := Pair(dtype, fill).0;
    assert x == Stored(dtype, fill - y);
    if dtype.Integer? {
      WholeAdds(fill, -y);
      StoredAdds(dtype, fill - y, y);
      StoredFixes(dtype, fill);
      WholeAdds(x, y);
      StoredAdds(dtype, x + y, y);
      WholeAdds(fill, y);
      NotShifted(dtype.lo, dtype.size, fill.Floor, y.Floor);
      NotShifted(dtype.lo, dtype.size, (-y).Floor, fill.Floor);
      assert (-y).Floor + fill.Floor == (fill - y).Floor;
    }
  }

  /** Adding something that is no multiple of the size moves the wrapped value. */
  lemma NotShifted(lo: int, size: nat, d: int, y: int)
    requires size > 0 && d != 0 && 0 - size < d < size && lo <= y < lo + size
    ensures Wrap(lo, size, d + y) != y
  {
    var q := (d + y - lo) / size;
    if Wrap(lo, size, d + y) == y {
      assert d == q * size;
      ScaleApart(q, size);
    }
  }

  lemma {:induction false} FillsReduceToNothing(law: Law, fill: Cell, n: nat)
    ensures Reduce(law, Visible(fill, Repeat(fill, n))) == None
  {
    if n > 0 {
      FillsReduceToNothing(law, fill, n - 1);
      assert Visible(fill, Repeat(fill, n))[..n - 1] == Visible(fill, Repeat(fill, n - 1));
    }
  }

  lemma ReducePadded(fill: Cell, head: seq<Cell>, n: nat)
    ensures Reduce(Add, Visible(fill, head + Repeat(fill, n))) == Reduce(Add, Visible(fill, head))
  {
    FillsReduceToNothing(Add, fill, n);
    ReduceAppend(Add, Visible(fill, head), Visible(fill, Repeat(fill, n)));
    assert Visible(fill, head + Repeat(fill, n)) == Visible(fill, head) + Visible(fill, Repeat(fill, n));
    CombineMissing(Add, Reduce(Add, Visible(fill, head)));
  }

  lemma ReduceTwo(fill: Cell, a: Cell, b: Cell)
    ensures Reduce(Add, Visible(fill, [a])) == See(fill, a)
    ensures Reduce(Add, Visible(fill, [a, b])) == Combine(Add, See(fill, a), See(fill, b))
  {
    var two := Visible(fill, [a, b]);
    assert two[..1] == [See(fill, a)] && [See(fill, a)][..0] == [];
    assert Reduce(Add, [See(fill, a)]) == See(fill, a);
    assert Visible(fill, [a]) == [See(fill, a)];
  }

  /** `[x, y]` in the first fine group and `y` in the second, nothing else. */
  function Misleading(fill: Cell, x: Cell, y: Cell, f: nat, length: nat): (r: seq<Cell>)
    requires 2 <= f && f + 1 <= length
    ensures |r| == length
  {
    [x, y] + Repeat(fill, f - 2) + [y] + Repeat(fill, length - f - 1)
  }

  lemma MisleadingRuns(fill: Cell, x: Cell, y: Cell, f: nat, length: nat, coarse: nat)
    requires 2 <= f && 2 * f <= coarse <= length
    ensures var r := Misleading(fill, x, y, f, length);
            && r[0..f] == [x, y] + Repeat(fill, f - 2)
            && r[f..2 * f] == [y] + Repeat(fill, f - 1)
            && (forall lo, hi :: 2 * f <= lo <= hi <= length ==> r[lo..hi] == Repeat(fill, hi - lo))
            && r[0..coarse] == ([x, y] + Repeat(fill, f - 2) + [y]) + Repeat(fill, coarse - f - 1)
  {
    var r := Misleading(fill, x, y, f, length);
    var run, want := r[f..2 * f], [y] + Repeat(fill, f - 1);
    forall i | 0 <= i < f ensures run[i] == want[i] {
      assert run[i] == r[f + i];
    }
  }

  /** The setting of the counterexample. */
  predicate Misled(dtype: Dtype, fill: Cell, x: Cell, y: Cell) {
    && dtype.Ok() && x.Num? && y.Num? && x != fill && y != fill
    && Num(Stored(dtype, x.value + y.value)) == fill && Stored(dtype, y.value) == y.value
    && Stored(dtype, x.value + y.value + y.value) != y.value
  }

  lemma MisleadingFine(dtype: Dtype, fill: Cell, x: Cell, y: Cell, n: nat, f: nat, m: nat)
    requires Misled(dtype, fill, x, y) && f >= 2 && m < n && 2 * f <= n * f
    ensures FoldRun(Add, dtype, fill, Cut(Misleading(fill, x, y, f, n * f), n, f)[m]) == if m == 1 then y else fill
  {
    hide Reduce, Misleading, Visible, Cut;
    var slab := Misleading(fill, x, y, f, n * f);
    CutAt(slab, n, f, m);
    MisleadingRuns(fill, x, y, f, n * f, 2 * f);
    ReduceTwo(fill, x, y);
    ReduceTwo(fill, y, y);
    if m == 0 {
      ReducePadded(fill, [x, y], f - 2);
    } else if m == 1 {
      ReducePadded(fill, [y], f - 1);
    } else {
      MulMonotone(2, m, f);
      FillsReduceToNothing(Add, fill, f);
    }
  }

  lemma MisleadingTwice(dtype: Dtype, fill: Cell, x: Cell, y: Cell, fine: seq<Cell>, n: nat, g: nat)
    requires Misled(dtype, fill, x, y) && n >= 1 && g >= 2 && |fine| == n * g
    requires g <= n * g && forall m :: 0 <= m < g ==> fine[m] == if m == 1 then y else fill
    ensures FoldRun(Add, dtype, fill, Cut(fine, n, g)[0]) == y
  {
    CutAt(fine, n, g, 0);
    assert fine[0..g] == [fill, y] + Repeat(fill, g - 2);
    ReduceTwo(fill, fill, y);
    hide Reduce, Visible;
    ReducePadded(fill, [fill, y], g - 2);
  }

  lemma MisleadingOnce(dtype: Dtype, fill: Cell, x: Cell, y: Cell, n: nat, coarse: nat, f: nat)
    requires Misled(dtype, fill, x, y) && n >= 1 && f >= 2 && 2 * f <= coarse <= n * coarse
    ensures FoldRun(Add, dtype, fill, Cut(Misleading(fill, x, y, f, n * coarse), n, coarse)[0]) != y
  {
    hide Reduce, Misleading, Visible, Cut;
    var slab := Misleading(fill, x, y, f, n * coarse);
    CutAt(slab, n, coarse, 0);
    MisleadingRuns(fill, x, y, f, n * coarse, coarse);
    ReduceTwo(fill, x, y);
    ReducePadded(fill, [x, y] + Repeat(fill, f - 2) + [y], coarse - f - 1);
    ReducePadded(fill, [x, y], f - 2);
    ReduceSnoc(fill, [x, y] + Repeat(fill, f - 2), y);
  }

  lemma MisleadingFolds(dtype: Dtype, fill: Cell, x: Cell, y: Cell, n: nat, g: nat, f: nat)
    requires Misled(dtype, fill, x, y) && n >= 1 && g >= 2 && f >= 2
    ensures 2 * f <= g * f <= n * (g * f)
    ensures !Nests(Add, dtype, fill, Misleading(fill, x, y, f, n * (g * f)), n, g, f)
  {
    MulMonotone(2, g, f);
    MulMonotone(1, n, g * f);
    Reassociates(n, g, f);
    MulMonotone(1, n, g);
    hide FoldRun, Misled, Misleading, Cut;
    var slab := Misleading(fill, x, y, f, n * (g * f));
    assert dtype.Ok() by {
      MisledIsOk(dtype, fill, x, y);
    }
    var fine := FoldDense(Add, dtype, fill, slab, n * g, f);
    forall m | 0 <= m < g ensures fine[m] == if m == 1 then y else fill {
      MisleadingFine(dtype, fill, x, y, n * g, f, m);
    }
    MisleadingTwice(dtype, fill, x, y, fine, n, g);
    MisleadingOnce(dtype, fill, x, y, n, g * f, f);
    var twice, once := FoldDense(Add, dtype, fill, fine, n, g), FoldDense(Add, dtype, fill, slab, n, g * f);
    assert twice[0] == y && once[0] != y;
  }

  lemma MisledIsOk(dtype: Dtype, fill: Cell, x: Cell, y: Cell)
    requires Misled(dtype, fill, x, y)
    ensures dtype.Ok()
  {
  }

  lemma ReduceSnoc(fill: Cell, head: seq<Cell>, c: Cell)
    ensures Reduce(Add, Visible(fill, head + [c])) == Combine(Add, Reduce(Add, Visible(fill, head)), See(fill, c))
  {
    var all := Visible(fill, head + [c]);
    assert all[..|head|] == Visible(fill, head);
  }

  lemma MisleadingHolds(dtype: Dtype, fill: Cell, x: Cell, y: Cell, f: nat, length: nat)
    requires 2 <= f && f + 1 <= length && Holds(dtype, fill) && Holds(dtype, x) && Holds(dtype, y)
    ensures AllHold(dtype, Misleading(fill, x, y, f, length))
  {
  }

  /**
   Folding a fold gives what folding at once gives, for every slab of the dtype, exactly when no sum of present values
   can be taken for the fill: under a least or greatest law, with a NaN fill, or with a zero fill; or when one of
   the two factors is one. With any other fill there is a slab whose partial sum reads as missing one level up, at every
   number of groups and for all factors of at least two.
   */
  lemma DenseNestsExactly(law: Law, dtype: Dtype, fill: Cell, n: nat, g: nat, f: nat)
    requires Fits(dtype, fill) && n >= 1 && g >= 1 && f >= 1
    ensures (forall slab :: |slab| == n * (g * f) && AllHold(dtype, slab) ==> Nests(law, dtype, fill, slab, n, g, f))
            <==> !law.Add? || fill.NaN? || fill == Num(0.0) || g == 1 || f == 1
  {
    hide Nests, Misleading, Stored, AllHold;
    if Safe(law, fill, g, f) {
      forall slab | |slab| == n * (g * f) && AllHold(dtype, slab) ensures Nests(law, dtype, fill, slab, n, g, f) {
        SafelyNests(law, dtype, fill, slab, n, g, f);
      }
    } else {
      PairHitsFill(dtype, fill.value);
      var (x, y) := Pair(dtype, fill.value);
      StoredFixes(dtype, y);
      assert Misled(dtype, fill, Num(x), Num(y));
      MisleadingFolds(dtype, fill, Num(x), Num(y), n, g, f);
      MisleadingHolds(dtype, fill, Num(x), Num(y), f, n * (g * f));
    }
  }

  predicate Safe(law: Law, fill: Cell, g: nat, f: nat) {
    Transparent(law, fill) || fill == Num(0.0) || g == 1 || f == 1
  }

  lemma SafelyNests(law: Law, dtype: Dtype, fill: Cell, slab: seq<Cell>, n: nat, g: nat, f: nat)
    requires Fits(dtype, fill) && Safe(law, fill, g, f) && |slab| == n * (g * f) && AllHold(dtype, slab)
    ensures Nests(law, dtype, fill, slab, n, g, f)
  {
    hide Nests;
    if Transparent(law, fill) {
      TransparentNests(law, dtype, fill, slab, n, g, f);
    } else if fill == Num(0.0) {
      ZeroFillNests(dtype, slab, n, g, f);
    } else if f == 1 {
      FineOnesNest(law, dtype, fill, slab, n, g);
    } else {
      CoarseOnesNest(law, dtype, fill, slab, n, f);
    }
  }

  lemma VisibleAppend(fill: Cell, a: seq<Cell>, b: seq<Cell>)
    ensures Visible(fill, a + b) == Visible(fill, a) + Visible(fill, b)
  {
  }

  /** One and minus two sum to a fill of minus one, and vanish from the fold of the fold. */
  lemma SumTakenForFill()
    ensures var cells, fill := [Num(1.0), Num(-2.0), Num(3.0), Num(0.0)], Num(-1.0);
            && FoldDense(Add, Floating, fill, FoldDense(Add, Floating, fill, cells, 2, 2), 1, 2) == [Num(3.0)]
            && FoldDense(Add, Floating, fill, cells, 1, 4) == [Num(2.0)]
  {
    hide Reduce, Visible, Cut;
    var cells, fill := [Num(1.0), Num(-2.0), Num(3.0), Num(0.0)], Num(-1.0);
    var low, high := [Num(1.0), Num(-2.0)], [Num(3.0), Num(0.0)];
    CutAt(cells, 2, 2, 0);
    CutAt(cells, 2, 2, 1);
    CutAt(cells, 1, 4, 0);
    assert cells[0..2] == low && cells[2..4] == high && cells[0..4] == low + high;
    ReduceTwo(fill, cells[0], cells[1]);
    ReduceTwo(fill, cells[2], cells[3]);
    ReduceTwo(fill, fill, Num(3.0));
    assert Visible(fill, low + high) == Visible(fill, low) + Visible(fill, high) by {
      VisibleAppend(fill, low, high);
    }
    ReduceAppend(Add, Visible(fill, low), Visible(fill, high));
    var fine := FoldDense(Add, Floating, fill, cells, 2, 2);
    assert fine == [fill, Num(3.0)];
    CutAt(fine, 1, 2, 0);
    assert fine[0..2] == fine;
  }
}
