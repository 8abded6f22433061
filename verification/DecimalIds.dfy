/** Names in a hive tree: decimal cell ids, digit nodes and leaf basenames. */
module DecimalIds {
  import opened Chunks
  import opened Prelude

  predicate In(c: char, lo: char, hi: char) {
    lo <= c <= hi
  }

  /** `{sign+base}`: an optional minus and one of the six base digits per hemisphere. */
  predicate IsBaseComponent(name: string) {
    var base := if name != [] && name[0] == '-' then name[1..] else name;
    |base| == 1 && In(base[0], '1', '6')
  }

  function BaseLength(d: string): (n: nat)
    ensures n <= |d|
  {
    if d == [] then 0 else if d[0] == '-' then Min(2, |d|) else 1
  }

  function BaseOf(d: string): string {
    d[..BaseLength(d)]
  }

  function TailOf(d: string): string {
    d[BaseLength(d)..]
  }

  predicate IsTail(tail: string) {
    forall i :: 0 <= i < |tail| ==> In(tail[i], '1', '4')
  }

  predicate IsDecimalId(d: string) {
    IsBaseComponent(BaseOf(d)) && IsTail(TailOf(d))
  }

  /** Levels past the base; the empty name and a lone minus come out negative. */
  function OrderOf(d: string): int {
    |d| - if d != [] && d[0] == '-' then 2 else 1
  }

  function DigitValue(c: char): int {
    c as int - '0' as int
  }

  predicate AllDigits(s: string) {
    forall i :: 0 <= i < |s| ==> In(s[i], '0', '9')
  }

  /** Base-4 value of a digit tail, `1..4` standing for `0..3`; the source raises unless `AllDigits(tail)`. */
  function TailRank(tail: string): int {
    if tail == [] then 0 else TailRank(tail[..|tail| - 1]) * 4 + (DigitValue(tail[|tail| - 1]) - 1)
  }

  function RankTail(rank: int, depth: nat): string
    decreases depth
  {
    if depth == 0 then []
    else RankTail(rank / 4, depth - 1) + [['1', '2', '3', '4'][rank % 4]]
  }

  /** Ranks number the tails of one depth from zero up, without gaps. */
  lemma {:induction false} TailRankRange(tail: string)
    requires IsTail(tail)
    ensures AllDigits(tail) && 0 <= TailRank(tail) < Pow4(|tail|)
    ensures RankTail(TailRank(tail), |tail|) == tail
  {
    if tail != [] {
      var init, c := tail[..|tail| - 1], tail[|tail| - 1];
      TailRankRange(init);
      var r := TailRank(init) * 4 + (DigitValue(c) - 1);
      assert In(c, '1', '4');
      assert r / 4 == TailRank(init) && r % 4 == DigitValue(c) - 1;
      assert tail == init + [c];
    }
  }

  lemma {:induction false} RankTailRange(rank: int, depth: nat)
    requires 0 <= rank < Pow4(depth)
    ensures IsTail(RankTail(rank, depth)) && |RankTail(rank, depth)| == depth
    ensures TailRank(RankTail(rank, depth)) == rank
  {
    if depth > 0 {
      RankTailRange(rank / 4, depth - 1);
      var t := RankTail(rank, depth);
      assert t[..|t| - 1] == RankTail(rank / 4, depth - 1);
    }
  }

  /** An id is its base, its order and its rank: two ids of one base and order with one rank are the same id. */
  lemma IdFromRank(a: string, b: string)
    requires IsDecimalId(a) && IsDecimalId(b) && BaseOf(a) == BaseOf(b) && OrderOf(a) == OrderOf(b)
    ensures AllDigits(TailOf(a)) && AllDigits(TailOf(b)) && |TailOf(a)| == |TailOf(b)| == OrderOf(a)
    ensures TailRank(TailOf(a)) == TailRank(TailOf(b)) <==> a == b
  {
    IdParts(a);
    IdParts(b);
    TailRankRange(TailOf(a));
    TailRankRange(TailOf(b));
  }

  lemma IdParts(d: string)
    requires IsDecimalId(d)
    ensures d == BaseOf(d) + TailOf(d) && |TailOf(d)| == OrderOf(d)
  {
  }

  // ---------------------------------------------------------------- leaf basenames

  const ZARR: string := ".zarr"
  const COLUMN_SUFFIX: string := ".pyramid.zarr"

  predicate EndsWith(s: string, suffix: string) {
    |suffix| <= |s| && s[|s| - |suffix|..] == suffix
  }

  function FirstUnderscore(s: string): (n: nat)
    ensures n <= |s| && (forall i :: 0 <= i < n ==> s[i] != '_') && (n < |s| ==> s[n] == '_')
  {
    if s == [] || s[0] == '_' then 0 else FirstUnderscore(s[1..]) + 1
  }

  predicate LabelChar(c: char) {
    In(c, '0', '9') || In(c, 'A', 'Z') || In(c, 'a', 'z') || c == '-'
  }

  /** The label pattern; its end anchor also lets one trailing newline through. */
  predicate IsLabel(w: string) {
    var core := if w != [] && w[|w| - 1] == '\n' then w[..|w| - 1] else w;
    1 <= |core| <= 32 && forall i :: 0 <= i < |core| ==> LabelChar(core[i])
  }

  /** The id of a leaf basename; nothing when the window label is malformed. */
  function LeafId(name: string): Option<string>
    requires EndsWith(name, ZARR)
  {
    var stem := name[..|name| - |ZARR|];
    var n := FirstUnderscore(stem);
    if n == |stem| then Some(stem)
    else if IsLabel(stem[n + 1..]) then Some(stem[..n])
    else None
  }

  function LeafName(id: string, window: Option<string>): string {
    id + (if window.None? then "" else "_" + window.value) + ZARR
  }

  lemma FirstUnderscoreIs(s: string, n: nat)
    requires n <= |s| && (forall i :: 0 <= i < n ==> s[i] != '_') && (n < |s| ==> s[n] == '_')
    ensures FirstUnderscore(s) == n
  {
    var m := FirstUnderscore(s);
  }

  /** The id a leaf was named with is read back, window or not. */
  lemma LeafNameSplitsBack(id: string, window: Option<string>)
    requires IsDecimalId(id) && (window.Some? ==> IsLabel(window.value))
    ensures EndsWith(LeafName(id, window), ZARR) && LeafId(LeafName(id, window)) == Some(id)
  {
    IdParts(id);
    var name := LeafName(id, window);
    var stem := name[..|name| - |ZARR|];
    assert name[|name| - |ZARR|..] == ZARR;
    assert stem == id + (if window.None? then "" else "_" + window.value);
    FirstUnderscoreIs(stem, |id|);
    if window.Some? {
      assert stem[|id| + 1..] == window.value && stem[..|id|] == id;
    } else {
      assert stem == id;
    }
  }
}
