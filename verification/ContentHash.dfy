/**
 The streaming content hash of an array whose rows arrive in any order.

 SHA-256 is left uninterpreted: a digest is identified with the bytes fed to it, so two digests are equal here
 exactly when their preimages are.
 */
module ContentHash {
  import opened Prelude
  import opened Bytes

  // ---------------------------------------------------------------- arrays

  datatype Dtype = Dtype(name: string, itemsize: nat, bigEndian: bool)

  /** An array in C order; `items[k]` is the k-th element as stored in memory. */
  datatype RawArray = RawArray(shape: seq<nat>, dtype: Dtype, items: seq<seq<byte>>) {
    predicate Ok() {
      && dtype.itemsize > 0
      && |items| == Product(shape)
      && forall k :: 0 <= k < |items| ==> |items[k]| == dtype.itemsize
    }
  }

  type NdArray = a: RawArray | a.Ok() witness RawArray([0], Dtype("u1", 1, false), [])

  function Product(shape: seq<nat>): nat {
    if shape == [] then 1 else shape[0] * Product(shape[1..])
  }

  /** An element in the canonical little-endian byte order. */
  function Canonical(dtype: Dtype, item: seq<byte>): (r: seq<byte>)
    ensures |r| == |item|
  {
    if dtype.bigEndian then Reversed(item) else item
  }

  function CanonicalItems(dtype: Dtype, items: seq<seq<byte>>): (r: seq<seq<byte>>)
    ensures |r| == |items|
  {
    seq(|items|, k requires 0 <= k < |items| => Canonical(dtype, items[k]))
  }

  /** The bytes `hash_array` digests for a fixed-width array. */
  function HashArray(a: NdArray): seq<byte> {
    Flatten(CanonicalItems(a.dtype, a.items))
  }

  // ---------------------------------------------------------------- what a sequence of calls means

  datatype Layout = Layout(shape: seq<nat>, dtype: Dtype, fill: Option<seq<byte>>) {
    predicate Ok() {
      dtype.itemsize > 0 && (fill.Some? ==> |fill.value| == dtype.itemsize)
    }

    function Rows(): nat {
      if shape == [] then 0 else shape[0]
    }

    function RowShape(): seq<nat> {
      if shape == [] then [] else shape[1..]
    }

    function RowItems(): nat {
      Product(RowShape())
    }

    function RowBytes(): nat {
      RowItems() * dtype.itemsize
    }

    predicate Fits(a: NdArray) {
      a.shape == RowShape() && a.dtype == dtype
    }
  }

  datatype Call = Update(index: int, row: NdArray) | Finalize

  datatype Reason = WrongShape | OutsideExtent | WrittenTwice | OverBudget | NoFill

  const STREAM_PENDING_MAX_BYTES: nat := 64 * 1024 * 1024

  /** The rows the calls wrote. */
  function Written(calls: seq<Call>): map<int, NdArray> {
    if calls == [] then map[]
    else
      var w := Written(calls[..|calls| - 1]);
      match calls[|calls| - 1]
      case Update(index, row) => w[index := row]
      case Finalize => w
  }

  predicate Sealed(calls: seq<Call>) {
    Finalize in calls
  }

  /** The first row from `k` on that nobody wrote. */
  function Gap(w: map<int, NdArray>, k: nat, n: nat): (g: nat)
    requires k <= n
    ensures k <= g <= n && (g < n ==> g !in w) && forall i :: k <= i < g ==> i in w
    decreases n - k
  {
    if k == n || k !in w then k else Gap(w, k + 1, n)
  }

  /** The rows from `k` on. */
  function From(w: map<int, NdArray>, k: int): map<int, NdArray> {
    map i | i in w && i >= k :: w[i]
  }

  /** The rows that wait for a predecessor. */
  function Parked(w: map<int, NdArray>, n: nat): map<int, NdArray> {
    From(w, Gap(w, 0, n))
  }

  lemma FromNext(w: map<int, NdArray>, k: int)
    requires k in w
    ensures k in From(w, k) && From(w, k)[k] == w[k]
    ensures From(w, k + 1) == From(w, k) - {k} && |From(w, k)| == |From(w, k + 1)| + 1
  {
    assert From(w, k).Keys == From(w, k + 1).Keys + {k};
  }

  lemma NothingBeyond(w: map<int, NdArray>, n: nat)
    requires forall i :: i in w ==> i < n
    ensures From(w, n) == map[]
  {
  }

  lemma ParkedIsBeyond(w: map<int, NdArray>, next: nat, row: NdArray, n: nat)
    requires next == Gap(w, 0, n) && next < n
    ensures Parked(w, n) == From(w[next := row], next + 1)
  {
  }

  /** The bytes of `count` rows. */
  function Cost(count: nat, size: nat): nat {
    if count == 0 then 0 else Cost(count - 1, size) + size
  }

  /** What is wrong with call `c` after the faultless calls `before`, if anything. */
  function Check(l: Layout, before: seq<Call>, c: Call): Option<Reason> {
    var w, n := Written(before), l.Rows();
    if c.Finalize? then
      if !Sealed(before) && Gap(w, 0, n) < n && l.fill.None? then Some(NoFill) else None
    else if !l.Fits(c.row) then Some(WrongShape)
    else if !(0 <= c.index < n) then Some(OutsideExtent)
    else if c.index in w || Sealed(before) then Some(WrittenTwice)
    else if c.index > Gap(w, 0, n) && Cost(|Parked(w[c.index := c.row], n)|, l.RowBytes()) > STREAM_PENDING_MAX_BYTES
      then Some(OverBudget)
    else None
  }

  /** Why the digest cannot be stood behind after these calls, if so: the first fault counts. */
  function Fault(l: Layout, calls: seq<Call>): Option<Reason> {
    if calls == [] then None
    else
      var before := calls[..|calls| - 1];
      if Fault(l, before).Some? then Fault(l, before) else Check(l, before, calls[|calls| - 1])
  }

  /** What row `i` feeds: the row as written, or the fill row as it lies in memory. */
  function Piece(l: Layout, w: map<int, NdArray>, i: nat): seq<byte> {
    if i in w then HashArray(w[i])
    else if l.fill.Some? then Flatten(Repeat(l.fill.value, l.RowItems()))
    else []
  }

  function Pieces(l: Layout, w: map<int, NdArray>, k: nat): (r: seq<seq<byte>>)
    ensures |r| == k && forall i :: 0 <= i < k ==> r[i] == Piece(l, w, i)
  {
    seq(k, i requires 0 <= i < k => Piece(l, w, i))
  }

  /** The bytes the first `k` rows feed. */
  function Fed(l: Layout, w: map<int, NdArray>, k: nat): seq<byte> {
    Flatten(Pieces(l, w, k))
  }

  lemma FedNext(l: Layout, w: map<int, NdArray>, k: nat)
    ensures Fed(l, w, k + 1) == Fed(l, w, k) + Piece(l, w, k)
  {
    assert Pieces(l, w, k + 1) == Pieces(l, w, k) + [Piece(l, w, k)];
    FlattenSnoc(Pieces(l, w, k), Piece(l, w, k));
  }

  /** Rows written beyond the first `k` do not change what those feed. */
  lemma FedPrefix(l: Layout, w: map<int, NdArray>, w': map<int, NdArray>, k: nat)
    requires forall i :: 0 <= i < k ==> (i in w <==> i in w') && (i in w ==> w[i] == w'[i])
    ensures Fed(l, w, k) == Fed(l, w', k)
  {
    assert Pieces(l, w, k) == Pieces(l, w', k);
  }

  lemma {:induction false} GapIsLeast(w: map<int, NdArray>, k: nat, n: nat, g: nat)
    requires k <= g <= n && (g < n ==> g !in w) && forall i :: k <= i < g ==> i in w
    ensures Gap(w, k, n) == g
    decreases n - k
  {
    if k < g {
      GapIsLeast(w, k + 1, n, g);
    }
  }

  lemma WrittenSnoc(calls: seq<Call>, c: Call)
    ensures Written(calls + [c]) == if c.Update? then Written(calls)[c.index := c.row] else Written(calls)
    ensures Sealed(calls + [c]) <==> Sealed(calls) || c.Finalize?
  {
    assert (calls + [c])[..|calls|] == calls;
  }

  lemma FaultSnoc(l: Layout, calls: seq<Call>, c: Call)
    ensures Fault(l, calls + [c]) == if Fault(l, calls).Some? then Fault(l, calls) else Check(l, calls, c)
  {
    assert (calls + [c])[..|calls|] == calls;
  }

  // ---------------------------------------------------------------- the class

  class StreamingArrayHash {
    const layout: Layout
    var invalidReason: Option<Reason>
    var digest: seq<byte>
    var next: nat
    var pending: map<int, NdArray>
    var pendingBytes: nat
    var fillRow: Option<Option<seq<byte>>> // the materialized fill row, once asked for
    ghost var calls: seq<Call>

    ghost predicate Valid()
      reads this
    {
      && layout.Ok()
      && invalidReason == Fault(layout, calls)
      && (fillRow.Some? ==> fillRow.value == Materialized(layout))
      && (invalidReason.Some? ==> pending == map[] && pendingBytes == 0)
      && (invalidReason.None? ==>
            var w, n := Written(calls), layout.Rows();
            && (forall i :: i in w ==> 0 <= i < n && layout.Fits(w[i]))
            && next == (if Sealed(calls) then n else Gap(w, 0, n))
            && digest == Fed(layout, w, next)
            && pending == (if Sealed(calls) then map[] else Parked(w, n))
            && pendingBytes == Cost(|pending|, layout.RowBytes())
            && pendingBytes <= STREAM_PENDING_MAX_BYTES)
    }

    constructor (layout: Layout)
      requires layout.Ok()
      ensures Valid() && calls == [] && this.layout == layout
    {
      this.layout := layout;
      invalidReason, digest, next, pending, pendingBytes, fillRow := None, [], 0, map[], 0, None;
      calls := [];
      new;
      assert Parked(map[], layout.Rows()) == map[];
      assert Fed(layout, map[], 0) == [];
    }

    /** Between calls no row rests in the parking that could be fed, and the parking is within its budget. */
    lemma NothingRests()
      requires Valid()
      ensures next !in pending && pendingBytes == Cost(|pending|, layout.RowBytes()) <= STREAM_PENDING_MAX_BYTES
      ensures forall i :: i in pending ==> next < i < layout.Rows()
    {
      assert invalidReason.Some? ==> |pending| == 0;
    }

    method Invalidate(reason: Reason)
      modifies this`invalidReason, this`pending, this`pendingBytes
      ensures invalidReason == (if old(invalidReason).None? then Some(reason) else old(invalidReason))
      ensures pending == map[] && pendingBytes == 0
    {
      if invalidReason.None? {
        invalidReason := Some(reason);
      }
      pending, pendingBytes := map[], 0;
    }

    /** Feed a parked row, out of the parking. */
    method Unpark(ghost w: map<int, NdArray>, index: nat)
      requires forall i :: i in w ==> layout.Fits(w[i])
      requires pending == From(w, index) && index in w
      requires digest == Fed(layout, w, index) && pendingBytes == Cost(|pending|, layout.RowBytes())
      modifies this`digest, this`pending, this`pendingBytes
      ensures digest == Fed(layout, w, index + 1)
      ensures pending == From(w, index + 1)
      ensures pendingBytes == Cost(|pending|, layout.RowBytes()) && pendingBytes <= old(pendingBytes)
    {
      hide Flatten, Product, Canonical, CanonicalItems, Gap, HashArray, Fed;
      FromNext(w, index);
      var row := pending[index];
      RowSize(layout, row);
      pending := pending - {index};
      pendingBytes := pendingBytes - NBytes(row);
      FedNext(layout, w, index);
      digest := digest + HashArray(row);
    }

    /** Feed the rows that the row just written unblocked. */
    method Drain(ghost w: map<int, NdArray>)
      requires next <= layout.Rows()
      requires forall i :: i in w ==> 0 <= i < layout.Rows() && layout.Fits(w[i])
      requires forall i :: 0 <= i < next ==> i in w
      requires digest == Fed(layout, w, next)
      requires pending == From(w, next)
      requires pendingBytes == Cost(|pending|, layout.RowBytes())
      modifies this`next, this`digest, this`pending, this`pendingBytes
      ensures next == Gap(w, 0, layout.Rows()) && digest == Fed(layout, w, next)
      ensures pending == Parked(w, layout.Rows())
      ensures pendingBytes == Cost(|pending|, layout.RowBytes()) && pendingBytes <= old(pendingBytes)
    {
      hide Flatten, Product, Canonical, CanonicalItems, Gap, HashArray, Fed, Cost;
      while next in pending
        invariant next <= layout.Rows() && forall i :: 0 <= i < next ==> i in w
        invariant digest == Fed(layout, w, next)
        invariant pending == From(w, next)
        invariant pendingBytes == Cost(|pending|, layout.RowBytes()) && pendingBytes <= old(pendingBytes)
        decreases layout.Rows() - next
      {
        Unpark(w, next);
        next := next + 1;
      }
      GapIsLeast(w, 0, layout.Rows(), next);
    }

    /** Park a row that came before its turn. */
    method Park(ghost w: map<int, NdArray>, index: int, row: NdArray)
      requires index !in w && layout.Fits(row) && next < index < layout.Rows() && next == Gap(w, 0, layout.Rows())
      requires pending == Parked(w, layout.Rows()) && pendingBytes == Cost(|pending|, layout.RowBytes())
      requires digest == Fed(layout, w, next)
      modifies this`pending, this`pendingBytes
      ensures next == Gap(w[index := row], 0, layout.Rows()) && digest == Fed(layout, w[index := row], next)
      ensures pending == Parked(w[index := row], layout.Rows()) && pendingBytes == Cost(|pending|, layout.RowBytes())
    {
      hide Flatten, Product, Canonical, CanonicalItems, Gap, HashArray, Fed;
      GapIsLeast(w[index := row], 0, layout.Rows(), next);
      FedPrefix(layout, w, w[index := row], next);
      RowSize(layout, row);
      assert index !in pending;
      pending := pending[index := row];
      pendingBytes := pendingBytes + NBytes(row);
    }

    /** Take in a good row. */
    method Accept(ghost w: map<int, NdArray>, index: int, row: NdArray)
      requires invalidReason.None? && layout.Fits(row) && next <= index < layout.Rows() && index !in w
      requires forall i :: i in w ==> 0 <= i < layout.Rows() && layout.Fits(w[i])
      requires next == Gap(w, 0, layout.Rows()) && digest == Fed(layout, w, next)
      requires pending == Parked(w, layout.Rows()) && pendingBytes == Cost(|pending|, layout.RowBytes())
      requires pendingBytes <= STREAM_PENDING_MAX_BYTES
      modifies this`next, this`digest, this`pending, this`pendingBytes, this`invalidReason
      ensures var w', n := w[index := row], layout.Rows();
        && invalidReason ==
             (if index > Gap(w, 0, n) && Cost(|Parked(w', n)|, layout.RowBytes()) > STREAM_PENDING_MAX_BYTES
              then Some(OverBudget) else None)
        && (invalidReason.None? ==>
              next == Gap(w', 0, n) && digest == Fed(layout, w', next) && pending == Parked(w', n)
              && pendingBytes == Cost(|pending|, layout.RowBytes()) && pendingBytes <= STREAM_PENDING_MAX_BYTES)
        && (invalidReason.Some? ==> pending == map[] && pendingBytes == 0)
    {
      hide Flatten, Product, Canonical, CanonicalItems, Gap, HashArray, Fed, Cost, Parked;
      if index > next {
        Park(w, index, row);
        if pendingBytes > STREAM_PENDING_MAX_BYTES {
          Invalidate(OverBudget);
        }
      } else {
        FeedNow(w, row);
      }
    }

    /** Feed the row whose turn it is, and those that it unblocks. */
    method FeedNow(ghost w: map<int, NdArray>, row: NdArray)
      requires layout.Fits(row) && next < layout.Rows() && next !in w
      requires forall i :: i in w ==> 0 <= i < layout.Rows() && layout.Fits(w[i])
      requires next == Gap(w, 0, layout.Rows()) && digest == Fed(layout, w, next)
      requires pending == Parked(w, layout.Rows()) && pendingBytes == Cost(|pending|, layout.RowBytes())
      modifies this`next, this`digest, this`pending, this`pendingBytes
      ensures next == Gap(w[old(next) := row], 0, layout.Rows()) && digest == Fed(layout, w[old(next) := row], next)
      ensures pending == Parked(w[old(next) := row], layout.Rows())
      ensures pendingBytes == Cost(|pending|, layout.RowBytes()) && pendingBytes <= old(pendingBytes)
    {
      hide Flatten, Product, Canonical, CanonicalItems, HashArray, Fed, Cost, Gap, Parked, From;
      GapIsLeast(w, 0, layout.Rows(), next);
      ghost var w' := w[next := row];
      ParkedIsBeyond(w, next, row, layout.Rows());
      FedPrefix(layout, w, w', next);
      FedNext(layout, w', next);
      digest := digest + HashArray(row);
      next := next + 1;
      Drain(w');
    }

    /** Record the row written at leading-axis `index`, in any order. */
    method Update(index: int, row: NdArray)
      requires Valid()
      modifies this
      ensures Valid() && calls == old(calls) + [Call.Update(index, row)]
    {
      hide Flatten, Product, Canonical, CanonicalItems, Gap, HashArray, Fed, Cost, Written, Fault, Parked;
      ghost var before, c := calls, Call.Update(index, row);
      ghost var w := Written(before);
      calls := calls + [c];
      WrittenSnoc(before, c);
      FaultSnoc(layout, before, c);
      if invalidReason.Some? {
        return;
      }
      if row.shape != layout.RowShape() || row.dtype != layout.dtype {
        Invalidate(WrongShape);
        return;
      }
      if !(0 <= index < layout.Rows()) {
        Invalidate(OutsideExtent);
        return;
      }
      if !Sealed(before) {
        InPending(w, layout.Rows(), index);
      }
      if index < next || index in pending {
        Invalidate(WrittenTwice);
        return;
      }
      Accept(w, index, row);
    }

    /** Feed row `index` from the fill, which is built on first use. */
    method FeedFill(ghost w: map<int, NdArray>, ghost index: nat) returns (ok: bool)
      requires layout.Ok() && (fillRow.Some? ==> fillRow.value == Materialized(layout))
      requires index !in w && digest == Fed(layout, w, index)
      modifies this`fillRow, this`digest
      ensures fillRow == Some(Materialized(layout)) && ok == layout.fill.Some?
      ensures ok ==> digest == Fed(layout, w, index + 1)
    {
      if fillRow.None? {
        fillRow := Some(Materialized(layout));
      }
      ok := fillRow.value.Some?;
      if ok {
        FedNext(layout, w, index);
        digest := digest + fillRow.value.value;
      }
    }

    /** The next row of the closing loop: parked, or from the fill. */
    method FeedNext(ghost w: map<int, NdArray>, index: nat) returns (ok: bool)
      requires layout.Ok() && (fillRow.Some? ==> fillRow.value == Materialized(layout))
      requires forall i :: i in w ==> layout.Fits(w[i])
      requires digest == Fed(layout, w, index) && pending == From(w, index)
      requires pendingBytes == Cost(|pending|, layout.RowBytes())
      modifies this`digest, this`pending, this`pendingBytes, this`fillRow
      ensures fillRow.Some? ==> fillRow.value == Materialized(layout)
      ensures ok <==> layout.fill.Some? || index in w
      ensures ok ==> digest == Fed(layout, w, index + 1) && pending == From(w, index + 1)
      ensures ok ==> pendingBytes == Cost(|pending|, layout.RowBytes())
    {
      hide Flatten, Product, Canonical, CanonicalItems, HashArray, Fed, Materialized, Cost;
      if index in pending {
        Unpark(w, index);
        ok := true;
      } else {
        ok := FeedFill(w, index);
        assert From(w, index + 1) == From(w, index);
      }
    }

    /** The closing loop: parked rows and fill rows, in order. */
    method FeedRest(ghost w: map<int, NdArray>) returns (ok: bool)
      requires layout.Ok() && (fillRow.Some? ==> fillRow.value == Materialized(layout))
      requires invalidReason.None? && next <= layout.Rows()
      requires forall i :: i in w ==> i < layout.Rows() && layout.Fits(w[i])
      requires digest == Fed(layout, w, next) && pending == From(w, next)
      requires pendingBytes == Cost(|pending|, layout.RowBytes())
      modifies this
      ensures next == old(next) && calls == old(calls) && (fillRow.Some? ==> fillRow.value == Materialized(layout))
      ensures ok <==> layout.fill.Some? || forall i :: next <= i < layout.Rows() ==> i in w
      ensures if ok then invalidReason.None? && digest == Fed(layout, w, layout.Rows())
              else invalidReason == Some(NoFill)
      ensures pending == map[] && pendingBytes == 0
    {
      hide Flatten, Product, Canonical, CanonicalItems, HashArray, Fed, Materialized, Gap, Written, Fault, From;
      for index := next to layout.Rows()
        invariant invalidReason.None? && next == old(next) && calls == old(calls)
        invariant fillRow.Some? ==> fillRow.value == Materialized(layout)
        invariant digest == Fed(layout, w, index) && pending == From(w, index)
        invariant pendingBytes == Cost(|pending|, layout.RowBytes())
        invariant layout.fill.None? ==> forall i :: next <= i < index ==> i in w
      {
        ok := FeedNext(w, index);
        if !ok {
          Invalidate(NoFill);
          return;
        }
      }
      NothingBeyond(w, layout.Rows());
      ok := true;
    }

    /**
     The digest, or nothing when it cannot be stood behind: the result is the concatenation of what every row
     feeds, exactly when no call so far (this one included) was at fault.
     */
    method Finish() returns (r: Option<seq<byte>>)
      requires Valid()
      modifies this
      ensures Valid() && calls == old(calls) + [Finalize]
      ensures r == if Fault(layout, calls).Some? then None else Some(Fed(layout, Written(calls), layout.Rows()))
    {
      hide Flatten, Product, Canonical, CanonicalItems, Gap, HashArray, Fed, Written, Fault, Materialized;
      ghost var before := calls;
      ghost var w := Written(before);
      calls := calls + [Finalize];
      WrittenSnoc(before, Finalize);
      FaultSnoc(layout, before, Finalize);
      if invalidReason.Some? {
        return None;
      }
      if Sealed(before) {
        assert pending == From(w, next);
      }
      var ok := FeedRest(w);
      if !ok {
        return None;
      }
      next := layout.Rows();
      return Some(digest);
    }
  }

  /** A row is parked exactly when it is written beyond the first gap. */
  lemma InPending(w: map<int, NdArray>, n: nat, index: int)
    requires 0 <= index < n
    ensures index in w <==> index < Gap(w, 0, n) || index in Parked(w, n)
  {
  }

  /** `nbytes` of an array. */
  function NBytes(a: NdArray): nat {
    |a.items| * a.dtype.itemsize
  }

  lemma RowSize(l: Layout, row: NdArray)
    requires l.Fits(row)
    ensures NBytes(row) == l.RowBytes()
  {
  }

  /** `np.full(row_shape, fill).tobytes()`, or nothing without a declared fill. */
  function Materialized(l: Layout): Option<seq<byte>> {
    if l.fill.None? then None else Some(Flatten(Repeat(l.fill.value, l.RowItems())))
  }
}

