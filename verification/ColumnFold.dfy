/**
 The folds of a pyramid column's digests with their companion words, and of packed words with their divisor, each
 `factor` neighbouring leaf cells to one.

 The digest merge and the packed merge are parameters; `Lawful` states what is asked of the digest merge.
 Weights and values are real numbers.
 */
module ColumnFold {
  import opened Prelude
  import opened Bytes
  import opened Chunks

  // ---------------------------------------------------------------- digests

  datatype Centroid = Centroid(mean: real, weight: real)

  type Digest = seq<Centroid>

  type Words = seq<nat>

  /** A digest and one word vector per companion channel. */
  datatype Merged = Merged(digest: Digest, words: seq<Words>)

  type MergeKernel = (seq<Digest>, seq<seq<Words>>) -> Merged

  function Weight(d: Digest): real {
    if d == [] then 0.0 else Weight(d[..|d| - 1]) + d[|d| - 1].weight
  }

  function TotalWeight(ds: seq<Digest>): real {
    if ds == [] then 0.0 else TotalWeight(ds[..|ds| - 1]) + Weight(ds[|ds| - 1])
  }

  /** Every channel has one vector per digest, as long as the digest. */
  predicate Aligned(ds: seq<Digest>, channels: seq<seq<Words>>) {
    forall c :: 0 <= c < |channels| ==> |channels[c]| == |ds| && AlignedWith(ds, channels[c])
  }

  predicate AlignedWith(ds: seq<Digest>, words: seq<Words>)
    requires |words| == |ds|
  {
    forall i :: 0 <= i < |ds| ==> |words[i]| == |ds[i]|
  }

  /** What a merge of at least two non-empty digests must give: their weight, centroids, and a word per centroid. */
  ghost predicate Lawful(merge: MergeKernel) {
    forall ds, channels :: (forall i :: 0 <= i < |ds| ==> ds[i] != []) && |ds| >= 2 && Aligned(ds, channels) ==>
      var m := merge(ds, channels);
      && m.digest != []
      && Weight(m.digest) == TotalWeight(ds)
      && |m.words| == |channels|
      && forall c :: 0 <= c < |channels| ==> |m.words[c]| == |m.digest|
  }

  /** `fold_digests` on the non-empty digests of one group; nothing when a channel is not row-aligned. */
  function FoldDigests(merge: MergeKernel, ds: seq<Digest>, channels: seq<seq<Words>>): Option<Merged> {
    if !Aligned(ds, channels) then None
    else if ds == [] then Some(Merged([], Repeat([], |channels|)))
    else if |ds| == 1 then Some(Merged(ds[0], seq(|channels|, c requires 0 <= c < |channels| => channels[c][0])))
    else Some(merge(ds, channels))
  }

  /** The entries of `s` at the cells that hold a digest. */
  function Held<T>(cells: seq<Digest>, s: seq<T>): (r: seq<T>)
    requires |s| == |cells|
  {
    if cells == [] then []
    else
      var n := |cells| - 1;
      Held(cells[..n], s[..n]) + if cells[n] != [] then [s[n]] else []
  }

  predicate Shaped<T>(cells: seq<T>, channels: seq<seq<Words>>) {
    forall c :: 0 <= c < |channels| ==> |channels[c]| == |cells|
  }

  function HeldChannels(cells: seq<Digest>, channels: seq<seq<Words>>): (r: seq<seq<Words>>)
    requires Shaped(cells, channels)
    ensures |r| == |channels|
  {
    seq(|channels|, c requires 0 <= c < |channels| => Held(cells, channels[c]))
  }

  function FoldCell(merge: MergeKernel, cells: seq<Digest>, channels: seq<seq<Words>>): Option<Merged>
    requires Shaped(cells, channels)
  {
    FoldDigests(merge, Held(cells, cells), HeldChannels(cells, channels))
  }

  lemma {:induction false} HeldLength<T>(cells: seq<Digest>, s: seq<T>)
    requires |s| == |cells|
    ensures |Held(cells, s)| == |Held(cells, cells)|
  {
    if cells != [] {
      HeldLength(cells[..|cells| - 1], s[..|cells| - 1]);
    }
  }

  lemma {:induction false} HeldDigests(cells: seq<Digest>)
    ensures forall i :: 0 <= i < |Held(cells, cells)| ==> Held(cells, cells)[i] != []
    ensures Held(cells, cells) == [] <==> forall i :: 0 <= i < |cells| ==> cells[i] == []
    ensures TotalWeight(Held(cells, cells)) == TotalWeight(cells)
  {
    if cells != [] {
      var n := |cells| - 1;
      HeldDigests(cells[..n]);
      var h := Held(cells[..n], cells[..n]);
      assert (h + [cells[n]])[..|h|] == h && h + [] == h;
      assert Weight([]) == 0.0;
    }
  }

  predicate SameLengths(ds: seq<Digest>, words: seq<Words>)
    requires |ds| == |words|
  {
    forall i :: 0 <= i < |ds| && ds[i] != [] ==> |words[i]| == |ds[i]|
  }

  lemma SameLengthsSnoc(ds: seq<Digest>, words: seq<Words>, d: Digest, w: Words)
    requires |ds| == |words|
    ensures SameLengths(ds + [d], words + [w]) <==> SameLengths(ds, words) && (d != [] ==> |w| == |d|)
  {
    if SameLengths(ds + [d], words + [w]) {
      forall i | 0 <= i < |ds| && ds[i] != [] ensures |words[i]| == |ds[i]| {
        assert (ds + [d])[i] == ds[i] && (words + [w])[i] == words[i];
      }
      assert (ds + [d])[|ds|] == d && (words + [w])[|ds|] == w;
    }
  }

  lemma {:induction false} HeldWords(cells: seq<Digest>, words: seq<Words>)
    requires |words| == |cells|
    ensures |Held(cells, words)| == |Held(cells, cells)|
    ensures SameLengths(Held(cells, cells), Held(cells, words)) <==> SameLengths(cells, words)
  {
    HeldLength(cells, words);
    if cells != [] {
      var n := |cells| - 1;
      HeldWords(cells[..n], words[..n]);
      SameLengthsSnoc(cells[..n], words[..n], cells[n], words[n]);
      assert cells == cells[..n] + [cells[n]] && words == words[..n] + [words[n]];
      var h, w := Held(cells[..n], cells[..n]), Held(cells[..n], words[..n]);
      SameLengthsSnoc(h, w, cells[n], words[n]);
      assert h + [] == h && w + [] == w;
    }
  }

  /** Every digest of the slab has channel words of its own length. */
  predicate RowsAligned(cells: seq<Digest>, channels: seq<seq<Words>>)
    requires Shaped(cells, channels)
  {
    forall c :: 0 <= c < |channels| ==> SameLengths(cells, channels[c])
  }

  /** Alignment of the rows that are kept is alignment of the rows. */
  lemma HeldAligned(cells: seq<Digest>, channels: seq<seq<Words>>)
    requires Shaped(cells, channels)
    ensures Aligned(Held(cells, cells), HeldChannels(cells, channels)) <==> RowsAligned(cells, channels)
  {
    var ds, held := Held(cells, cells), HeldChannels(cells, channels);
    HeldDigests(cells);
    forall c | 0 <= c < |channels|
      ensures |held[c]| == |ds| && (AlignedWith(ds, held[c]) <==> SameLengths(cells, channels[c]))
    {
      HeldWords(cells, channels[c]);
      HeldAreFull(ds, held[c]);
    }
    hide Held, SameLengths;
  }

  lemma HeldAreFull(ds: seq<Digest>, words: seq<Words>)
    requires |words| == |ds| && forall i :: 0 <= i < |ds| ==> ds[i] != []
    ensures AlignedWith(ds, words) <==> SameLengths(ds, words)
  {
  }

  lemma SingleWeight(d: Digest)
    ensures TotalWeight([d]) == Weight(d) && TotalWeight([]) == 0.0 && Weight([]) == 0.0
  {
    assert [d][..0] == [];
  }

  /** A group folds exactly when its rows are aligned; the result carries the group's weight, is empty exactly when
      the group is, and every companion cell is as long as its payload cell. */
  lemma FoldCellExact(merge: MergeKernel, cells: seq<Digest>, channels: seq<seq<Words>>)
    requires Shaped(cells, channels) && Lawful(merge)
    ensures FoldCell(merge, cells, channels).Some? <==> RowsAligned(cells, channels)
    ensures FoldCell(merge, cells, channels).Some? ==>
              var m := FoldCell(merge, cells, channels).value;
              && Weight(m.digest) == TotalWeight(cells)
              && (m.digest == [] <==> forall i :: 0 <= i < |cells| ==> cells[i] == [])
              && |m.words| == |channels|
              && forall c :: 0 <= c < |channels| ==> |m.words[c]| == |m.digest|
  {
    hide Held, HeldChannels, RowsAligned, Weight, TotalWeight;
    var ds, held := Held(cells, cells), HeldChannels(cells, channels);
    HeldDigests(cells);
    HeldAligned(cells, channels);
    if Aligned(ds, held) {
      FoldDigestsExact(merge, ds, held);
    }
  }

  lemma FoldDigestsExact(merge: MergeKernel, ds: seq<Digest>, channels: seq<seq<Words>>)
    requires Lawful(merge) && Aligned(ds, channels) && forall i :: 0 <= i < |ds| ==> ds[i] != []
    ensures FoldDigests(merge, ds, channels).Some?
    ensures var m := FoldDigests(merge, ds, channels).value;
            && Weight(m.digest) == TotalWeight(ds)
            && (m.digest == [] <==> ds == [])
            && |m.words| == |channels|
            && forall c :: 0 <= c < |channels| ==> |m.words[c]| == |m.digest|
  {
    hide Weight, TotalWeight;
    SingleWeight(if ds == [] then [] else ds[0]);
    if |ds| == 1 {
      assert ds == [ds[0]];
    }
  }

  // ---------------------------------------------------------------- a whole group of digests

  function ChannelRuns(channels: seq<seq<Words>>, n: nat, f: nat, j: nat): (r: seq<seq<Words>>)
    requires j < n && forall c :: 0 <= c < |channels| ==> |channels[c]| == n * f
    ensures |r| == |channels| && forall c :: 0 <= c < |r| ==> |r[c]| == f
  {
    seq(|channels|, c requires 0 <= c < |channels| => Cut(channels[c], n, f)[j])
  }

  /** Cell `j` of the group that folds `f` leaf cells to one. */
  function FoldedCell(merge: MergeKernel, slab: seq<Digest>, channels: seq<seq<Words>>, n: nat, f: nat,
                      j: nat): Option<Merged>
    requires j < n && |slab| == n * f && Shaped(slab, channels)
  {
    FoldCell(merge, Cut(slab, n, f)[j], ChannelRuns(channels, n, f, j))
  }

  lemma SameLengthsAppend(a: seq<Digest>, b: seq<Digest>, x: seq<Words>, y: seq<Words>)
    requires |a| == |x| && |b| == |y|
    ensures SameLengths(a + b, x + y) <==> SameLengths(a, x) && SameLengths(b, y)
  {
    if SameLengths(a + b, x + y) {
      forall i | 0 <= i < |a| && a[i] != [] ensures |x[i]| == |a[i]| {
        assert (a + b)[i] == a[i] && (x + y)[i] == x[i];
      }
      forall i | 0 <= i < |b| && b[i] != [] ensures |y[i]| == |b[i]| {
        assert (a + b)[|a| + i] == b[i] && (x + y)[|a| + i] == y[i];
      }
    }
  }

  lemma {:induction false} SameLengthsByRun(ds: seq<seq<Digest>>, ws: seq<seq<Words>>)
    requires |ds| == |ws| && forall j :: 0 <= j < |ds| ==> |ds[j]| == |ws[j]|
    ensures |Flatten(ds)| == |Flatten(ws)|
    ensures SameLengths(Flatten(ds), Flatten(ws)) <==> forall j :: 0 <= j < |ds| ==> SameLengths(ds[j], ws[j])
  {
    if ds != [] {
      var n := |ds| - 1;
      SameLengthsByRun(ds[..n], ws[..n]);
      SameLengthsAppend(Flatten(ds[..n]), ds[n], Flatten(ws[..n]), ws[n]);
      assert forall j :: 0 <= j < n ==> ds[..n][j] == ds[j] && ws[..n][j] == ws[j];
    }
  }

  lemma TotalWeightAppend(a: seq<Digest>, b: seq<Digest>)
    ensures TotalWeight(a + b) == TotalWeight(a) + TotalWeight(b)
  {
    if b == [] {
      assert a + b == a;
    } else {
      assert (a + b)[..|a + b| - 1] == a + b[..|b| - 1];
      TotalWeightAppend(a, b[..|b| - 1]);
    }
  }

  lemma {:induction false} WeightByRun(runs: seq<seq<Digest>>, ds: seq<Digest>)
    requires |runs| == |ds| && forall j :: 0 <= j < |ds| ==> Weight(ds[j]) == TotalWeight(runs[j])
    ensures TotalWeight(ds) == TotalWeight(Flatten(runs))
  {
    if ds != [] {
      var n := |ds| - 1;
      WeightByRun(runs[..n], ds[..n]);
      TotalWeightAppend(Flatten(runs[..n]), runs[n]);
    }
  }

  /** A group can be folded exactly when the rows of the leaf are aligned, whatever the fold factor. */
  lemma GroupFoldsExactly(merge: MergeKernel, slab: seq<Digest>, channels: seq<seq<Words>>, n: nat, f: nat)
    requires |slab| == n * f && Shaped(slab, channels) && Lawful(merge)
    ensures (forall j :: 0 <= j < n ==> FoldedCell(merge, slab, channels, n, f, j).Some?)
            <==> RowsAligned(slab, channels)
  {
    hide Cut, FoldCell, Lawful;
    forall j | 0 <= j < n
      ensures FoldedCell(merge, slab, channels, n, f, j).Some?
              <==> forall c :: 0 <= c < |channels| ==> SameLengths(Cut(slab, n, f)[j], Cut(channels[c], n, f)[j])
    {
      var runs := ChannelRuns(channels, n, f, j);
      FoldCellExact(merge, Cut(slab, n, f)[j], runs);
      assert forall c :: 0 <= c < |channels| ==> runs[c] == Cut(channels[c], n, f)[j];
    }
    CutPartitions(slab, n, f);
    forall c | 0 <= c < |channels|
      ensures SameLengths(slab, channels[c])
              <==> forall j :: 0 <= j < n ==> SameLengths(Cut(slab, n, f)[j], Cut(channels[c], n, f)[j])
    {
      CutPartitions(channels[c], n, f);
      SameLengthsByRun(Cut(slab, n, f), Cut(channels[c], n, f));
    }
  }

  function GroupDigests(merge: MergeKernel, slab: seq<Digest>, channels: seq<seq<Words>>, n: nat,
                        f: nat): (r: seq<Digest>)
    requires |slab| == n * f && Shaped(slab, channels)
    requires forall j :: 0 <= j < n ==> FoldedCell(merge, slab, channels, n, f, j).Some?
    ensures |r| == n
  {
    seq(n, j requires 0 <= j < n => FoldedCell(merge, slab, channels, n, f, j).value.digest)
  }

  /** Every group, at every resolution, carries the weight of the whole leaf. */
  lemma GroupConservesWeight(merge: MergeKernel, slab: seq<Digest>, channels: seq<seq<Words>>, n: nat, f: nat)
    requires |slab| == n * f && Shaped(slab, channels) && Lawful(merge) && RowsAligned(slab, channels)
    ensures forall j :: 0 <= j < n ==> FoldedCell(merge, slab, channels, n, f, j).Some?
    ensures TotalWeight(GroupDigests(merge, slab, channels, n, f)) == TotalWeight(slab)
  {
    hide Cut, FoldCell, Lawful;
    GroupFoldsExactly(merge, slab, channels, n, f);
    var runs, ds := Cut(slab, n, f), GroupDigests(merge, slab, channels, n, f);
    forall j | 0 <= j < n ensures Weight(ds[j]) == TotalWeight(runs[j]) {
      FoldCellExact(merge, runs[j], ChannelRuns(channels, n, f, j));
    }
    WeightByRun(runs, ds);
    CutPartitions(slab, n, f);
  }

  // ---------------------------------------------------------------- the loops

  function Pick<T>(s: seq<T>, rows: seq<nat>): seq<T>
    requires forall k :: 0 <= k < |rows| ==> rows[k] < |s|
  {
    seq(|rows|, k requires 0 <= k < |rows| => s[rows[k]])
  }

  lemma HeldSnoc<T>(cells: seq<Digest>, s: seq<T>, lo: nat, i: nat)
    requires lo <= i < |cells| && |s| == |cells|
    ensures Held(cells[lo..i + 1], s[lo..i + 1]) == Held(cells[lo..i], s[lo..i]) + if cells[i] != [] then [s[i]] else []
  {
    assert cells[lo..i + 1][..i - lo] == cells[lo..i] && s[lo..i + 1][..i - lo] == s[lo..i];
    assert cells[lo..i + 1][i - lo] == cells[i] && s[lo..i + 1][i - lo] == s[i];
  }

  /** The rows of one group that hold a digest. */
  method HeldRows(slab: seq<Digest>, ghost channels: seq<seq<Words>>, lo: nat, hi: nat) returns (rows: seq<nat>)
    requires lo <= hi <= |slab| && Shaped(slab, channels)
    ensures forall k :: 0 <= k < |rows| ==> rows[k] < |slab|
    ensures Pick(slab, rows) == Held(slab[lo..hi], slab[lo..hi])
    ensures forall c :: 0 <= c < |channels| ==> Pick(channels[c], rows) == Held(slab[lo..hi], channels[c][lo..hi])
  {
    rows := [];
    for i := lo to hi
      invariant forall k :: 0 <= k < |rows| ==> rows[k] < |slab|
      invariant Pick(slab, rows) == Held(slab[lo..i], slab[lo..i])
      invariant forall c :: 0 <= c < |channels| ==> Pick(channels[c], rows) == Held(slab[lo..i], channels[c][lo..i])
    {
      HeldSnoc(slab, slab, lo, i);
      ghost var before := rows;
      if slab[i] != [] {
        rows := rows + [i];
      }
      forall c | 0 <= c < |channels| ensures Pick(channels[c], rows) == Held(slab[lo..i + 1], channels[c][lo..i + 1]) {
        HeldSnoc(slab, channels[c], lo, i);
        assert Pick(channels[c], rows) == Pick(channels[c], before) + if slab[i] != [] then [channels[c][i]] else [];
      }
      assert Pick(slab, rows) == Pick(slab, before) + if slab[i] != [] then [slab[i]] else [];
    }
  }

  /** One target cell, from the rows of its run. */
  method FoldRows(merge: MergeKernel, slab: seq<Digest>, channels: seq<seq<Words>>, n: nat, f: nat, j: nat)
    returns (m: Option<Merged>)
    requires j < n && |slab| == n * f && Shaped(slab, channels)
    ensures m == FoldedCell(merge, slab, channels, n, f, j)
  {
    hide FoldDigests, Held;
    CutAt(slab, n, f, j);
    var rows := HeldRows(slab, channels, j * f, (j + 1) * f);
    var cell := Pick(slab, rows);
    var words := seq(|channels|, c requires 0 <= c < |channels| => Pick(channels[c], rows));
    assert words == HeldChannels(Cut(slab, n, f)[j], ChannelRuns(channels, n, f, j)) by {
      forall c | 0 <= c < |channels| ensures Cut(channels[c], n, f)[j] == channels[c][j * f..(j + 1) * f] {
        CutAt(channels[c], n, f, j);
      }
    }
    m := FoldDigests(merge, cell, words);
  }

  /** The approximate fold of one field, payload and companions filled in place from one merge per cell. */
  method FoldApproximate(merge: MergeKernel, slab: seq<Digest>, channels: seq<seq<Words>>, f: nat)
    returns (folded: array<Digest>, words: array2<Words>, ok: bool)
    requires f > 0 && Shaped(slab, channels) && Lawful(merge)
    ensures ok <==> |slab| % f == 0 && RowsAligned(slab, channels)
    ensures ok ==>
              var n := |slab| / f;
              && folded.Length == words.Length0 == n && words.Length1 == |channels| && |slab| == n * f
              && forall j :: 0 <= j < n ==>
                   var m := FoldedCell(merge, slab, channels, n, f, j);
                   && m.Some? && folded[j] == m.value.digest && |m.value.words| == |channels|
                   && forall c :: 0 <= c < |channels| ==> words[j, c] == m.value.words[c]
  {
    hide FoldedCell, RowsAligned, Lawful;
    var n := |slab| / f;
    folded := new Digest[n](_ => []);
    words := new Words[n, |channels|]((_, _) => []);
    if |slab| % f != 0 {
      return folded, words, false;
    }
    assert |slab| == n * f;
    GroupFoldsExactly(merge, slab, channels, n, f);
    for j := 0 to n
      invariant forall i :: 0 <= i < j ==>
                  var m := FoldedCell(merge, slab, channels, n, f, i);
                  && m.Some? && folded[i] == m.value.digest && |m.value.words| == |channels|
                  && forall c :: 0 <= c < |channels| ==> words[i, c] == m.value.words[c]
    {
      var m := FoldRows(merge, slab, channels, n, f, j);
      if m.None? {
        return folded, words, false;
      }
      FoldedCellWidth(merge, slab, channels, n, f, j);
      folded[j] := m.value.digest;
      forall c | 0 <= c < |channels| {
        words[j, c] := m.value.words[c];
      }
    }
    ok := true;
  }

  lemma FoldedCellWidth(merge: MergeKernel, slab: seq<Digest>, channels: seq<seq<Words>>, n: nat, f: nat, j: nat)
    requires j < n && |slab| == n * f && Shaped(slab, channels) && Lawful(merge)
    requires FoldedCell(merge, slab, channels, n, f, j).Some?
    ensures |FoldedCell(merge, slab, channels, n, f, j).value.words| == |channels|
  {
    FoldCellExact(merge, Cut(slab, n, f)[j], ChannelRuns(channels, n, f, j));
  }

  // ---------------------------------------------------------------- packed words

  /** Rounding to the nearest whole number, halves to the even one. */
  function HalfEven(x: real): (n: int)
    ensures x - 0.5 <= n as real <= x + 0.5
    ensures n as real == x - 0.5 || n as real == x + 0.5 ==> n % 2 == 0
  {
    var f := x.Floor;
    if x - f as real < 0.5 then f
    else if x - f as real > 0.5 then f + 1
    else if f % 2 == 0 then f else f + 1
  }

  /** `payload_weight`: the stored count, zero for the empty cell. */
  function PayloadWeight(d: Digest): int {
    if d == [] then 0 else HalfEven(Weight(d))
  }

  type PackedKernel = seq<(nat, int)> -> nat

  /** The (word, count) pairs of the cells with signal. */
  function Parts(codes: seq<nat>, of: seq<Digest>): seq<(nat, int)>
    requires |codes| == |of|
  {
    if codes == [] then []
    else
      var m := |codes| - 1;
      Parts(codes[..m], of[..m]) + if PayloadWeight(of[m]) > 0 then [(codes[m], PayloadWeight(of[m]))] else []
  }

  function Divisor(parts: seq<(nat, int)>): int {
    if parts == [] then 0 else Divisor(parts[..|parts| - 1]) + parts[|parts| - 1].1
  }

  /** A cell without signal keeps the field's fill word. */
  function FoldedCode(merge: PackedKernel, fill: nat, codes: seq<nat>, of: seq<Digest>, n: nat, f: nat, j: nat): nat
    requires j < n && |codes| == |of| == n * f
  {
    var parts := Parts(Cut(codes, n, f)[j], Cut(of, n, f)[j]);
    if parts == [] then fill else merge(parts)
  }

  lemma PartsSnoc(codes: seq<nat>, of: seq<Digest>, lo: nat, i: nat)
    requires lo <= i < |codes| == |of|
    ensures Parts(codes[lo..i + 1], of[lo..i + 1]) ==
              Parts(codes[lo..i], of[lo..i])
              + if PayloadWeight(of[i]) > 0 then [(codes[i], PayloadWeight(of[i]))] else []
  {
    assert codes[lo..i + 1][..i - lo] == codes[lo..i] && of[lo..i + 1][..i - lo] == of[lo..i];
  }

  method CollectParts(codes: seq<nat>, of: seq<Digest>, lo: nat, hi: nat) returns (parts: seq<(nat, int)>)
    requires lo <= hi <= |codes| == |of|
    ensures parts == Parts(codes[lo..hi], of[lo..hi])
  {
    hide PayloadWeight;
    parts := [];
    for i := lo to hi
      invariant parts == Parts(codes[lo..i], of[lo..i])
    {
      PartsSnoc(codes, of, lo, i);
      var count := PayloadWeight(of[i]);
      if count > 0 {
        parts := parts + [(codes[i], count)];
      }
    }
  }

  /** The packed fold of one field against its `of` digest. */
  method FoldPacked(merge: PackedKernel, fill: nat, codes: seq<nat>, of: seq<Digest>, f: nat)
    returns (folded: array<nat>, ok: bool)
    requires f > 0 && |codes| == |of|
    ensures ok <==> |codes| % f == 0
    ensures ok ==>
              var n := |codes| / f;
              && folded.Length == n && |codes| == n * f
              && forall j :: 0 <= j < n ==> folded[j] == FoldedCode(merge, fill, codes, of, n, f, j)
  {
    hide Parts, Cut;
    var n := |codes| / f;
    folded := new nat[n](_ => fill);
    if |codes| % f != 0 {
      return folded, false;
    }
    assert |codes| == n * f;
    for j := 0 to n
      invariant forall i :: 0 <= i < j ==> folded[i] == FoldedCode(merge, fill, codes, of, n, f, i)
      invariant forall i :: j <= i < n ==> folded[i] == fill
    {
      CutAt(codes, n, f, j);
      CutAt(of, n, f, j);
      var parts := CollectParts(codes, of, j * f, (j + 1) * f);
      if parts != [] {
        folded[j] := merge(parts);
      }
    }
    ok := true;
  }

  predicate WholeCounts(of: seq<Digest>) {
    forall i :: 0 <= i < |of| ==> Weight(of[i]) >= 0.0 && Weight(of[i]) == Weight(of[i]).Floor as real
  }

  lemma {:induction false} DivisorIsWeight(codes: seq<nat>, of: seq<Digest>)
    requires |codes| == |of| && WholeCounts(of)
    ensures Divisor(Parts(codes, of)) as real == TotalWeight(of)
  {
    if codes != [] {
      var m := |codes| - 1;
      DivisorIsWeight(codes[..m], of[..m]);
      var before, count := Parts(codes[..m], of[..m]), PayloadWeight(of[m]);
      assert count as real == Weight(of[m]) by {
        assert of[m] == [] ==> Weight(of[m]) == 0.0;
      }
      if count > 0 {
        assert (before + [(codes[m], count)])[..|before|] == before;
      } else {
        assert before + [] == before;
      }
    }
  }

  /** The packed word and its divisor fold together: the counts a folded word averages over sum to the weight of
      the folded digest at the same cell, at every resolution. */
  lemma PackedDivisorAgrees(merge: MergeKernel, codes: seq<nat>, of: seq<Digest>, channels: seq<seq<Words>>,
                            n: nat, f: nat, j: nat)
    requires j < n && |codes| == |of| == n * f && Shaped(of, channels) && Lawful(merge) && RowsAligned(of, channels)
    requires WholeCounts(of)
    ensures FoldedCell(merge, of, channels, n, f, j).Some?
    ensures PayloadWeight(FoldedCell(merge, of, channels, n, f, j).value.digest)
            == Divisor(Parts(Cut(codes, n, f)[j], Cut(of, n, f)[j]))
  {
    var run, m := Cut(of, n, f)[j], FoldedCell(merge, of, channels, n, f, j);
    GroupFoldsExactly(merge, of, channels, n, f);
    FoldCellExact(merge, run, ChannelRuns(channels, n, f, j));
    CutAt(of, n, f, j);
    assert WholeCounts(run);
    DivisorIsWeight(Cut(codes, n, f)[j], run);
    assert m.value.digest == [] ==> Weight(m.value.digest) == 0.0;
  }
}
