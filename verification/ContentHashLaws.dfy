/** What the streamed digest is worth: it is the digest of the assembled array, in whatever order the rows came. */
module ContentHashLaws {
  import opened Prelude
  import opened Bytes
  import opened ContentHash

  // ---------------------------------------------------------------- the assembled array

  /** The elements of row `i`: as written, or the fill. */
  function RowElements(l: Layout, w: map<int, NdArray>, i: nat): seq<seq<byte>> {
    if i in w then w[i].items
    else if l.fill.Some? then Repeat(l.fill.value, l.RowItems())
    else []
  }

  function RowsUpTo(l: Layout, w: map<int, NdArray>, k: nat): (r: seq<seq<seq<byte>>>)
    ensures |r| == k && forall i :: 0 <= i < k ==> r[i] == RowElements(l, w, i)
  {
    seq(k, i requires 0 <= i < k => RowElements(l, w, i))
  }

  predicate Complete(l: Layout, w: map<int, NdArray>) {
    forall i :: 0 <= i < l.Rows() ==> i in w
  }

  /** The rows belong to the layout, and the rows nobody wrote can be filled. */
  predicate Assemblable(l: Layout, w: map<int, NdArray>) {
    && l.Ok() && l.shape != []
    && (forall i :: i in w ==> 0 <= i < l.Rows() && l.Fits(w[i]))
    && (Complete(l, w) || l.fill.Some?)
  }

  lemma RowElementsOk(l: Layout, w: map<int, NdArray>, i: nat)
    requires Assemblable(l, w) && i < l.Rows()
    ensures |RowElements(l, w, i)| == l.RowItems()
    ensures forall k :: 0 <= k < l.RowItems() ==> |RowElements(l, w, i)[k]| == l.dtype.itemsize
  {
  }

  /** The array the calls wrote, gaps filled. */
  function Assembled(l: Layout, w: map<int, NdArray>): NdArray
    requires Assemblable(l, w)
  {
    var rows := RowsUpTo(l, w, l.Rows());
    var items := Flatten(rows);
    AssembledOk(l, w);
    RawArray(l.shape, l.dtype, items)
  }

  lemma AssembledOk(l: Layout, w: map<int, NdArray>)
    requires Assemblable(l, w)
    ensures RawArray(l.shape, l.dtype, Flatten(RowsUpTo(l, w, l.Rows()))).Ok()
  {
    var rows := RowsUpTo(l, w, l.Rows());
    var items := Flatten(rows);
    forall i | 0 <= i < |rows| ensures |rows[i]| == l.RowItems() {
      RowElementsOk(l, w, i);
    }
    FlattenLength(rows, l.RowItems());
    forall k | 0 <= k < |items| ensures |items[k]| == l.dtype.itemsize {
      FlattenMembers(rows, items[k]);
      var i :| 0 <= i < |rows| && items[k] in rows[i];
      RowElementsOk(l, w, i);
    }
  }

  // ---------------------------------------------------------------- soundness

  lemma CanonicalAppend(dtype: Dtype, a: seq<seq<byte>>, b: seq<seq<byte>>)
    ensures CanonicalItems(dtype, a + b) == CanonicalItems(dtype, a) + CanonicalItems(dtype, b)
  {
  }

  /** Canonical bytes of a concatenation of rows, row by row. */
  lemma {:induction false} HashByRows(dtype: Dtype, rows: seq<seq<seq<byte>>>, pieces: seq<seq<byte>>)
    requires |rows| == |pieces|
    requires forall i :: 0 <= i < |rows| ==> pieces[i] == Flatten(CanonicalItems(dtype, rows[i]))
    ensures Flatten(CanonicalItems(dtype, Flatten(rows))) == Flatten(pieces)
  {
    hide CanonicalItems;
    if rows != [] {
      var n := |rows| - 1;
      HashByRows(dtype, rows[..n], pieces[..n]);
      var a, b := CanonicalItems(dtype, Flatten(rows[..n])), CanonicalItems(dtype, rows[n]);
      CanonicalAppend(dtype, Flatten(rows[..n]), rows[n]);
      FlattenAppend(a, b);
    }
  }

  /** The fill means the same in memory and in canonical order. */
  predicate FillIsCanonical(l: Layout) {
    l.RowItems() == 0 || l.fill.None? || Canonical(l.dtype, l.fill.value) == l.fill.value
  }

  function TruePiece(l: Layout, w: map<int, NdArray>, i: nat): seq<byte> {
    Flatten(CanonicalItems(l.dtype, RowElements(l, w, i)))
  }

  lemma PieceSizes(l: Layout, w: map<int, NdArray>, i: nat)
    requires Assemblable(l, w) && i < l.Rows()
    ensures |Piece(l, w, i)| == |TruePiece(l, w, i)| == l.RowItems() * l.dtype.itemsize
  {
    var items := RowElements(l, w, i);
    RowElementsOk(l, w, i);
    FlattenLength(CanonicalItems(l.dtype, items), l.dtype.itemsize);
    FlattenLength(items, l.dtype.itemsize);
  }

  /** A filled row feeds what the assembled array would, exactly when its bytes need no swap. */
  lemma FilledPieceExact(l: Layout, w: map<int, NdArray>, i: nat)
    requires Assemblable(l, w) && i < l.Rows() && i !in w
    ensures Piece(l, w, i) == TruePiece(l, w, i) <==> FillIsCanonical(l)
  {
    var stored := Repeat(l.fill.value, l.RowItems());
    var canonical := CanonicalItems(l.dtype, stored);
    assert Piece(l, w, i) == Flatten(stored) && TruePiece(l, w, i) == Flatten(canonical);
    if Flatten(stored) == Flatten(canonical) {
      FlattenInjective(stored, canonical, l.dtype.itemsize);
      if l.RowItems() > 0 {
        assert stored[0] == canonical[0];
      }
    }
    if FillIsCanonical(l) {
      assert stored == canonical;
    }
  }

  /**
   A digest that is handed out is the digest of the assembled array, except that a fill row goes in with the
   byte order it has in memory. So it is right exactly when no row was missing or the fill bytes read the same
   in little-endian order, which they always do under a little-endian dtype.
   */
  lemma DigestExact(l: Layout, calls: seq<Call>)
    requires l.Ok() && l.shape != [] && Fault(l, calls).None? && Sealed(calls)
    ensures var w := Written(calls);
            && Assemblable(l, w)
            && (Fed(l, w, l.Rows()) == HashArray(Assembled(l, w)) <==> Complete(l, w) || FillIsCanonical(l))
            && (!l.dtype.bigEndian ==> FillIsCanonical(l))
  {
    hide Fault, Written, Flatten, Fed, HashArray, CanonicalItems;
    var w := Written(calls);
    FaultlessRows(l, calls);
    FedExact(l, w);
    hide Canonical;
    assert Fed(l, w, l.Rows()) == HashArray(Assembled(l, w)) <==> Complete(l, w) || FillIsCanonical(l);
  }

  /** Any big-endian array with a fill that is no palindrome, finalized before a row was written: no fault, and a wrong
      digest. */
  lemma UnwrittenIsWrong(l: Layout)
    requires l.Ok() && l.shape != [] && l.Rows() > 0 && l.RowItems() > 0
    requires l.dtype.bigEndian && l.fill.Some? && Reversed(l.fill.value) != l.fill.value
    ensures Fault(l, [Finalize]).None? && Written([Finalize]) == map[] && Assemblable(l, map[])
    ensures Fed(l, map[], l.Rows()) != HashArray(Assembled(l, map[]))
  {
    hide Flatten, CanonicalItems;
    FaultSnoc(l, [], Finalize);
    WrittenSnoc([], Finalize);
    assert [] + [Finalize] == [Finalize];
    var w: map<int, NdArray> := map[];
    assert 0 !in w;
    DigestExact(l, [Finalize]);
  }

  const SHORTS: Layout := Layout([2], Dtype("i2", 2, true), Some([0, 1]))

  lemma ShortsFacts()
    ensures SHORTS.Ok() && SHORTS.shape != [] && SHORTS.RowItems() == 1 && SHORTS.Rows() == 2
    ensures Reversed([0, 1]) == [1, 0] && [1, 0] != [0, 1]
  {
    assert SHORTS.RowShape() == [];
    assert Reversed([0, 1]) == [1, 0];
  }

  /** Two 16-bit elements, both the fill one: fed most significant byte first, hashed the other way round. */
  lemma SwappedFill()
    ensures SHORTS.Ok() && Fault(SHORTS, [Finalize]).None? && Assemblable(SHORTS, map[])
    ensures Fed(SHORTS, map[], 2) == [0, 1, 0, 1] && HashArray(Assembled(SHORTS, map[])) == [1, 0, 1, 0]
  {
    ShortsFacts();
    UnwrittenIsWrong(SHORTS);
    ShortsFed();
    ShortsHashed();
  }

  lemma ShortsFed()
    ensures Fed(SHORTS, map[], 2) == [0, 1, 0, 1]
  {
    ShortsFacts();
    var l := SHORTS;
    var w: map<int, NdArray> := map[];
    FlattenSnoc([], l.fill.value);
    assert Repeat(l.fill.value, 1) == [] + [l.fill.value];
    assert Piece(l, w, 0) == Piece(l, w, 1) == [0, 1];
    FedNext(l, w, 0);
    FedNext(l, w, 1);
  }

  lemma ShortsHashed()
    requires Assemblable(SHORTS, map[])
    ensures HashArray(Assembled(SHORTS, map[])) == [1, 0, 1, 0]
  {
    ShortsFacts();
    var l := SHORTS;
    var w: map<int, NdArray> := map[];
    HashIsTruePieces(l, w);
    TrueFill(l, w, 0);
    TrueFill(l, w, 1);
    hide Flatten, HashArray, Assembled, TruePiece;
    var one := [] + [[1, 0]];
    assert TruePieces(l, w) == one + [[1, 0]];
    FlattenSnoc([], [1, 0]);
    FlattenSnoc(one, [1, 0]);
    assert Flatten<byte>([]) == [] by {
      FlattenNone();
    }
  }

  lemma FlattenNone()
    ensures Flatten<byte>([]) == []
  {
  }

  lemma TrueFill(l: Layout, w: map<int, NdArray>, i: nat)
    requires l.Ok() && l.fill.Some? && l.RowItems() == 1 && i !in w
    ensures TruePiece(l, w, i) == Canonical(l.dtype, l.fill.value)
  {
    var fill := Canonical(l.dtype, l.fill.value);
    assert RowElements(l, w, i) == [l.fill.value];
    assert CanonicalItems(l.dtype, [l.fill.value]) == [] + [fill];
    FlattenSnoc([], fill);
  }

  function TruePieces(l: Layout, w: map<int, NdArray>): (r: seq<seq<byte>>)
    ensures |r| == l.Rows() && forall i :: 0 <= i < |r| ==> r[i] == TruePiece(l, w, i)
  {
    seq(l.Rows(), i requires 0 <= i < l.Rows() => TruePiece(l, w, i))
  }

  lemma HashIsTruePieces(l: Layout, w: map<int, NdArray>)
    requires Assemblable(l, w)
    ensures HashArray(Assembled(l, w)) == Flatten(TruePieces(l, w))
  {
    HashByRows(l.dtype, RowsUpTo(l, w, l.Rows()), TruePieces(l, w));
  }

  lemma FedExact(l: Layout, w: map<int, NdArray>)
    requires Assemblable(l, w)
    ensures Fed(l, w, l.Rows()) == HashArray(Assembled(l, w)) <==> Complete(l, w) || FillIsCanonical(l)
    ensures !l.dtype.bigEndian ==> FillIsCanonical(l)
  {
    hide Flatten, CanonicalItems, HashArray, TruePiece, Piece;
    var n, fed, true_ := l.Rows(), Pieces(l, w, l.Rows()), TruePieces(l, w);
    HashIsTruePieces(l, w);
    forall i | 0 <= i < n
      ensures |fed[i]| == |true_[i]| == l.RowItems() * l.dtype.itemsize
      ensures fed[i] == true_[i] <==> i in w || FillIsCanonical(l)
    {
      PieceSizes(l, w, i);
      if i in w {
        WrittenPieceExact(l, w, i);
      } else {
        FilledPieceExact(l, w, i);
      }
    }
    if Flatten(fed) == Flatten(true_) {
      FlattenInjective(fed, true_, l.RowItems() * l.dtype.itemsize);
    }
    if Complete(l, w) || FillIsCanonical(l) {
      assert fed == true_;
    }
  }

  lemma WrittenPieceExact(l: Layout, w: map<int, NdArray>, i: nat)
    requires Assemblable(l, w) && i in w
    ensures Piece(l, w, i) == TruePiece(l, w, i)
  {
  }

  /** Faultless calls wrote rows of the layout, and closed no gap without a fill. */
  lemma {:induction false} FaultlessRows(l: Layout, calls: seq<Call>)
    requires Fault(l, calls).None?
    ensures forall i :: i in Written(calls) ==> 0 <= i < l.Rows() && l.Fits(Written(calls)[i])
    ensures Sealed(calls) ==> Complete(l, Written(calls)) || l.fill.Some?
  {
    if calls != [] {
      FaultlessRows(l, calls[..|calls| - 1]);
      var before, c := calls[..|calls| - 1], calls[|calls| - 1];
      assert calls == before + [c];
      WrittenSnoc(before, c);
    }
  }

  /** A row of the layout under an index of its extent. */
  predicate GoodUpdate(l: Layout, c: Call) {
    c.Update? ==> l.Fits(c.row) && 0 <= c.index < l.Rows()
  }

  lemma CheckedUpdate(l: Layout, before: seq<Call>, c: Call)
    requires Fault(l, before + [c]).None?
    ensures Fault(l, before).None? && GoodUpdate(l, c)
    ensures c.Update? ==> c.index !in Written(before) && !Sealed(before)
    ensures Written(before + [c]) == if c.Update? then Written(before)[c.index := c.row] else Written(before)
  {
    hide Gap, Cost, Parked;
    WrittenSnoc(before, c);
    FaultSnoc(l, before, c);
  }

  /** Nothing wrong passes unnoticed: the updates of a faultless history are good rows with indices of their own, all
      before the first time the digest was asked for. */
  lemma {:induction false} FaultlessUpdates(l: Layout, calls: seq<Call>)
    requires Fault(l, calls).None?
    ensures forall k :: 0 <= k < |calls| ==> GoodUpdate(l, calls[k])
    ensures forall k :: 0 <= k < |calls| && calls[k].Update? ==> calls[k].index in Written(calls)
    ensures forall j, k :: 0 <= j < k < |calls| && calls[k].Update? ==>
              calls[j].Update? && calls[j].index != calls[k].index
  {
    hide Fault, Written, Check, GoodUpdate;
    if calls != [] {
      var n := |calls| - 1;
      var before, c := calls[..n], calls[n];
      assert calls == before + [c];
      CheckedUpdate(l, before, c);
      FaultlessUpdates(l, before);
      assert forall k :: 0 <= k < n ==> before[k] == calls[k];
      if c.Update? {
        forall j | 0 <= j < n ensures calls[j].Update? && calls[j].index != c.index {
          assert calls[j] in before;
        }
      }
    }
  }

  /** A zero-dimensional array still has one element, which streaming rows never sees. */
  lemma NoAxisNoDigest(l: Layout, a: NdArray)
    requires l.Ok() && l.shape == [] && a.shape == []
    ensures Fed(l, map[], l.Rows()) == [] && HashArray(a) != []
  {
    var c := CanonicalItems(a.dtype, a.items);
    assert |a.items| == 1 && c == [c[0]];
    FlattenSnoc([], c[0]);
    assert [] + [c[0]] == c;
  }

  // ---------------------------------------------------------------- the latch

  /** A fault is never forgotten or replaced. */
  lemma {:induction false} FaultSticks(l: Layout, calls: seq<Call>, more: seq<Call>)
    requires Fault(l, calls).Some?
    ensures Fault(l, calls + more) == Fault(l, calls)
  {
    if more == [] {
      assert calls + more == calls;
    } else {
      var n := |more| - 1;
      FaultSticks(l, calls, more[..n]);
      assert calls + more == (calls + more[..n]) + [more[n]];
      FaultSnoc(l, calls + more[..n], more[n]);
    }
  }

  /** Asking for the digest again changes nothing. */
  lemma FinishIsIdempotent(l: Layout, calls: seq<Call>)
    requires Sealed(calls)
    ensures Fault(l, calls + [Finalize]) == Fault(l, calls) && Written(calls + [Finalize]) == Written(calls)
  {
    WrittenSnoc(calls, Finalize);
    FaultSnoc(l, calls, Finalize);
  }

  // ---------------------------------------------------------------- completeness and order

  /** Updates of distinct rows that fit the layout. */
  predicate CleanUpdates(l: Layout, calls: seq<Call>) {
    && (forall k :: 0 <= k < |calls| ==>
          calls[k].Update? && l.Fits(calls[k].row) && 0 <= calls[k].index < l.Rows())
    && (forall j, k :: 0 <= j < k < |calls| ==> calls[j].index != calls[k].index)
  }

  lemma {:induction false} WrittenExact(l: Layout, calls: seq<Call>)
    requires CleanUpdates(l, calls)
    ensures forall i :: i in Written(calls) ==> 0 <= i < l.Rows() && Update(i, Written(calls)[i]) in calls
    ensures forall k :: 0 <= k < |calls| ==>
            calls[k].index in Written(calls) && Written(calls)[calls[k].index] == calls[k].row
    ensures !Sealed(calls)
  {
    if calls != [] {
      var n := |calls| - 1;
      var before, c := calls[..n], calls[n];
      WrittenExact(l, before);
      assert calls == before + [c];
      WrittenSnoc(before, c);
      hide Written;
      assert forall k :: 0 <= k < n ==> before[k] == calls[k];
    }
  }

  lemma {:induction false} CostMonotone(a: nat, b: nat, size: nat)
    requires a <= b
    ensures Cost(a, size) <= Cost(b, size)
  {
    if a < b {
      CostMonotone(a, b - 1, size);
    }
  }

  function RowNumbers(n: nat): set<int> {
    if n == 0 then {} else RowNumbers(n - 1) + {n - 1}
  }

  lemma {:induction false} RowNumbersExact(n: nat)
    ensures |RowNumbers(n)| == n && forall i :: i in RowNumbers(n) <==> 0 <= i < n
  {
    if n > 0 {
      RowNumbersExact(n - 1);
    }
  }

  lemma BoundedKeys(s: set<int>, n: nat)
    requires forall i :: i in s ==> 0 <= i < n
    ensures |s| <= n
  {
    RowNumbersExact(n);
    var all := RowNumbers(n);
    forall i | i in s ensures i in all {
    }
    assert all == s + (all - s);
  }

  /** When the whole array fits the parking budget, distinct good rows are accepted in every order, and the digest
      is handed out if there is no gap or a fill is declared. */
  lemma {:induction false} CleanIsFaultless(l: Layout, calls: seq<Call>)
    requires l.Ok() && CleanUpdates(l, calls) && Cost(l.Rows(), l.RowBytes()) <= STREAM_PENDING_MAX_BYTES
    ensures Fault(l, calls).None?
    ensures Complete(l, Written(calls)) || l.fill.Some? ==> Fault(l, calls + [Finalize]).None?
  {
    assert Fault(l, []).None?;
    hide Fault, Check, Written, Cost, Complete, CleanUpdates, Product;
    if calls != [] {
      var n := |calls| - 1;
      var before, c := calls[..n], calls[n];
      assert calls == before + [c];
      CleanBefore(l, before, c);
      CleanIsFaultless(l, before);
      CleanIsChecked(l, before, c);
      FaultSnoc(l, before, c);
    }
    FaultSnoc(l, calls, Finalize);
    if Complete(l, Written(calls)) || l.fill.Some? {
      CleanIsSealed(l, calls);
    }
  }

  lemma CleanBefore(l: Layout, before: seq<Call>, c: Call)
    requires CleanUpdates(l, before + [c])
    ensures CleanUpdates(l, before)
  {
    assert forall k :: 0 <= k < |before| ==> (before + [c])[k] == before[k];
  }

  lemma CleanIsChecked(l: Layout, before: seq<Call>, c: Call)
    requires l.Ok() && CleanUpdates(l, before + [c]) && Cost(l.Rows(), l.RowBytes()) <= STREAM_PENDING_MAX_BYTES
    ensures Check(l, before, c).None?
  {
    hide Written, Cost, Gap;
    var calls := before + [c];
    assert calls[..|before|] == before && calls[|before|] == c;
    assert forall k :: 0 <= k < |before| ==> calls[k] == before[k];
    WrittenExact(l, before);
    var w := Written(before);
    assert c.index !in w;
    var parked := Parked(w[c.index := c.row], l.Rows());
    BoundedKeys(parked.Keys, l.Rows());
    CostMonotone(|parked|, l.Rows(), l.RowBytes());
  }

  lemma CleanIsSealed(l: Layout, calls: seq<Call>)
    requires Complete(l, Written(calls)) || l.fill.Some?
    ensures Check(l, calls, Finalize).None?
  {
  }

  /** The order of the rows is immaterial: two clean histories of the same rows feed the same bytes. */
  lemma OrderIsImmaterial(l: Layout, a: seq<Call>, b: seq<Call>)
    requires CleanUpdates(l, a) && multiset(a) == multiset(b)
    ensures CleanUpdates(l, b) && Written(a) == Written(b)
    ensures Fed(l, Written(a), l.Rows()) == Fed(l, Written(b), l.Rows())
  {
    forall k | 0 <= k < |b| ensures b[k] in a {
      assert b[k] in multiset(b);
    }
    forall j, k | 0 <= j < k < |b| ensures b[j].index != b[k].index {
      if b[j].index == b[k].index {
        SameIndexSameCall(l, a, b[j], b[k]);
        TwiceCounted(b, j, k);
        OnceCounted(l, a, b[j]);
        assert false;
      }
    }
    forall k | 0 <= k < |a| ensures a[k] in b {
      assert a[k] in multiset(a);
    }
    SameWritten(l, a, b);
  }

  lemma SameWritten(l: Layout, a: seq<Call>, b: seq<Call>)
    requires CleanUpdates(l, a) && CleanUpdates(l, b)
    requires forall c :: c in a <==> c in b
    ensures Written(a) == Written(b)
  {
    hide Written;
    WrittenExact(l, a);
    WrittenExact(l, b);
    forall i ensures i in Written(a) <==> i in Written(b) {
      if i in Written(a) {
        var k :| 0 <= k < |b| && b[k] == Update(i, Written(a)[i]);
      }
      if i in Written(b) {
        var k :| 0 <= k < |a| && a[k] == Update(i, Written(b)[i]);
      }
    }
    forall i | i in Written(a) ensures Written(a)[i] == Written(b)[i] {
      var k :| 0 <= k < |b| && b[k] == Update(i, Written(a)[i]);
    }
  }

  lemma SameIndexSameCall(l: Layout, a: seq<Call>, x: Call, y: Call)
    requires CleanUpdates(l, a) && x in a && y in a && x.index == y.index
    ensures x == y
  {
  }

  lemma TwiceCounted<T>(s: seq<T>, j: nat, k: nat)
    requires j < k < |s| && s[j] == s[k]
    ensures multiset(s)[s[j]] >= 2
  {
    assert s == s[..k] + s[k..];
    assert s[j] in s[..k] && s[k] in s[k..];
  }

  lemma {:induction false} OnceCounted(l: Layout, a: seq<Call>, x: Call)
    requires CleanUpdates(l, a)
    ensures multiset(a)[x] <= 1
  {
    if a != [] {
      var n := |a| - 1;
      OnceCounted(l, a[..n], x);
      assert a == a[..n] + [a[n]];
      if a[n] == x {
        assert x !in a[..n];
        assert multiset(a[..n])[x] == 0;
      }
    }
  }
}
