/** The root coverage object: id ranges that list exactly the walked shards, and the latch on staleness warnings. */
module RootCoverage {
  import opened Prelude
  import opened DecimalIds
  import opened Coverage

  // ---------------------------------------------------------------- ranges

  type Range = (string, string)

  datatype Envelope = Envelope(order: int, ranges: seq<Range>, timeRange: Option<(int, int)>)

  /** A listed run of ids: one base, consecutive ranks. */
  predicate InRange(r: Range, d: string) {
    BaseOf(r.1) == BaseOf(r.0) && BaseOf(r.0) == BaseOf(d)
      && TailRank(TailOf(r.0)) <= TailRank(TailOf(d)) <= TailRank(TailOf(r.1))
  }

  /** The generator over the ranges, in order; nothing when an endpoint it reaches does not parse. */
  function AnyRange(ranges: seq<Range>, d: string): Option<bool> {
    if ranges == [] then Some(false)
    else
      var (lo, hi) := ranges[0];
      if BaseOf(hi) != BaseOf(lo) || BaseOf(lo) != BaseOf(d) then AnyRange(ranges[1..], d)
      else if !AllDigits(TailOf(lo)) then None
      else if TailRank(TailOf(lo)) > TailRank(TailOf(d)) then AnyRange(ranges[1..], d)
      else if !AllDigits(TailOf(hi)) then None
      else if TailRank(TailOf(d)) <= TailRank(TailOf(hi)) then Some(true)
      else AnyRange(ranges[1..], d)
  }

  /** `_ranges_contain`. */
  function RangesContain(envelope: Envelope, d: string): Option<bool> {
    if OrderOf(d) != envelope.order then Some(false) else AnyRange(envelope.ranges, d)
  }

  predicate AtOrder(d: string, order: int) {
    IsDecimalId(d) && OrderOf(d) == order
  }

  predicate GoodRange(r: Range, order: int) {
    AtOrder(r.0, order) && AtOrder(r.1, order) && BaseOf(r.0) == BaseOf(r.1)
  }

  lemma DigitsOf(d: string)
    requires IsDecimalId(d)
    ensures AllDigits(TailOf(d))
  {
  }

  predicate Within(ranges: seq<Range>, d: string) {
    exists k :: 0 <= k < |ranges| && InRange(ranges[k], d)
  }

  lemma {:induction false} AnyRangeExact(ranges: seq<Range>, order: int, d: string)
    requires AtOrder(d, order) && forall k :: 0 <= k < |ranges| ==> GoodRange(ranges[k], order)
    ensures AnyRange(ranges, d) == Some(Within(ranges, d))
  {
    DigitsOf(d);
    if ranges != [] {
      assert GoodRange(ranges[0], order);
      DigitsOf(ranges[0].0);
      DigitsOf(ranges[0].1);
      AnyRangeExact(ranges[1..], order, d);
      assert forall k :: 0 < k < |ranges| ==> ranges[1..][k - 1] == ranges[k];
      assert Within(ranges, d) <==> InRange(ranges[0], d) || Within(ranges[1..], d);
    }
  }

  /** A run grows by the next id. */
  lemma GrowRun(start: string, prev: string, dec: string, order: int, d: string)
    requires GoodRange((start, prev), order) && AtOrder(dec, order) && AtOrder(d, order) && BaseOf(dec) == BaseOf(prev)
    requires TailRank(TailOf(dec)) == TailRank(TailOf(prev)) + 1
    requires TailRank(TailOf(start)) <= TailRank(TailOf(prev))
    ensures InRange((start, dec), d) <==> InRange((start, prev), d) || d == dec
  {
    if BaseOf(d) == BaseOf(dec) {
      IdFromRank(d, dec);
    }
  }

  lemma OneRun(dec: string, order: int, d: string)
    requires AtOrder(dec, order) && AtOrder(d, order)
    ensures InRange((dec, dec), d) <==> d == dec
  {
    if BaseOf(d) == BaseOf(dec) {
      IdFromRank(d, dec);
    }
  }

  /** The ranges of a non-empty list of ids of one order, runs of consecutive ranks joined. Whatever the order of the
      list, an id is within them exactly when it is in the list. */
  method BuildRanges(decs: seq<string>, order: int) returns (ranges: Option<seq<Range>>)
    requires forall i :: 0 <= i < |decs| ==> IsDecimalId(decs[i])
    ensures ranges.Some? <==> decs != [] && forall i :: 0 <= i < |decs| ==> OrderOf(decs[i]) == order
    ensures ranges.Some? ==>
              && (forall k :: 0 <= k < |ranges.value| ==> GoodRange(ranges.value[k], order))
              && forall d :: AtOrder(d, order) ==> (Within(ranges.value, d) <==> d in decs)
  {
    hide IsDecimalId, OrderOf, BaseOf, TailOf, TailRank, Within, InRange;
    if decs == [] || exists i :: 0 <= i < |decs| && OrderOf(decs[i]) != order {
      return None;
    }
    assert AtOrder(decs[0], order);
    var done: seq<Range> := [];
    var start, prev := decs[0], decs[0];
    assert [] + [(start, prev)] == [(start, prev)];
    forall d | AtOrder(d, order) ensures Within([(start, prev)], d) <==> d == start {
      NothingWithin(d);
      OneRun(start, order, d);
      WithinSnoc([], (start, prev), d);
    }
    for i := 1 to |decs|
      invariant GoodRange((start, prev), order)
      invariant TailRank(TailOf(start)) <= TailRank(TailOf(prev))
      invariant forall k :: 0 <= k < |done| ==> GoodRange(done[k], order)
      invariant forall d :: AtOrder(d, order) ==> (Within(done + [(start, prev)], d) <==> d in decs[..i])
    {
      var dec := decs[i];
      assert AtOrder(dec, order);
      ghost var was, open := done, (start, prev);
      var sameRun := BaseOf(dec) == BaseOf(prev) && TailRank(TailOf(dec)) == TailRank(TailOf(prev)) + 1;
      if sameRun {
        prev := dec;
      } else {
        done := done + [(start, prev)];
        start, prev := dec, dec;
      }
      forall d | AtOrder(d, order) ensures Within(done + [(start, prev)], d) <==> d in decs[..i + 1] {
        assert decs[..i + 1] == decs[..i] + [dec];
        WithinSnoc(done, (start, prev), d);
        if sameRun {
          GrowRun(open.0, open.1, dec, order, d);
          WithinSnoc(was, open, d);
        } else {
          OneRun(dec, order, d);
        }
      }
    }
    assert decs[..|decs|] == decs;
    return Some(done + [(start, prev)]);
  }

  lemma NothingWithin(d: string)
    ensures !Within([], d)
  {
  }

  lemma WithinSnoc(ranges: seq<Range>, r: Range, d: string)
    ensures Within(ranges + [r], d) <==> Within(ranges, d) || InRange(r, d)
  {
    var longer := ranges + [r];
    assert forall k :: 0 <= k < |ranges| ==> longer[k] == ranges[k];
    assert longer[|ranges|] == r;
  }

  /** The carrier's ranges are the list, told by `_ranges_contain` for an id of any order. */
  lemma RangesRoundTrip(decs: seq<string>, envelope: Envelope, d: string)
    requires IsDecimalId(d) && forall i :: 0 <= i < |decs| ==> AtOrder(decs[i], envelope.order)
    requires forall k :: 0 <= k < |envelope.ranges| ==> GoodRange(envelope.ranges[k], envelope.order)
    requires forall x :: AtOrder(x, envelope.order) ==> (Within(envelope.ranges, x) <==> x in decs)
    ensures RangesContain(envelope, d) == Some(d in decs)
  {
    if OrderOf(d) == envelope.order {
      AnyRangeExact(envelope.ranges, envelope.order, d);
    }
  }

  // ---------------------------------------------------------------- the time range

  function Join(a: Option<(int, int)>, b: Option<(int, int)>): Option<(int, int)> {
    if a.None? then b else if b.None? then a else Some((Min(a.value.0, b.value.0), Max(a.value.1, b.value.1)))
  }

  function Union(ranges: seq<Option<(int, int)>>): Option<(int, int)> {
    if ranges == [] then None else Join(Union(ranges[..|ranges| - 1]), ranges[|ranges| - 1])
  }

  /** The union spans every stamp's range and no more. */
  lemma {:induction false} UnionExact(ranges: seq<Option<(int, int)>>)
    ensures Union(ranges).None? <==> forall i :: 0 <= i < |ranges| ==> ranges[i].None?
    ensures Union(ranges).Some? ==>
              && (forall i :: 0 <= i < |ranges| && ranges[i].Some? ==>
                    Union(ranges).value.0 <= ranges[i].value.0 && ranges[i].value.1 <= Union(ranges).value.1)
              && (exists i :: 0 <= i < |ranges| && ranges[i].Some? && ranges[i].value.0 == Union(ranges).value.0)
              && exists i :: 0 <= i < |ranges| && ranges[i].Some? && ranges[i].value.1 == Union(ranges).value.1
  {
    if ranges != [] {
      var n := |ranges| - 1;
      UnionExact(ranges[..n]);
      assert forall i :: 0 <= i < n ==> ranges[..n][i] == ranges[i];
      var last := ranges[n];
      if Union(ranges[..n]).Some? {
        var i :| 0 <= i < n && ranges[..n][i].Some? && ranges[..n][i].value.0 == Union(ranges[..n]).value.0;
        var j :| 0 <= j < n && ranges[..n][j].Some? && ranges[..n][j].value.1 == Union(ranges[..n]).value.1;
        assert ranges[i].Some? && ranges[j].Some?;
      }
    }
  }

  // ---------------------------------------------------------------- refresh and the staleness latch

  /** What a reader holds as the store's root object. */
  datatype Carrier = Absent | Malformed | Present(envelope: Envelope)

  predicate IsStale(carrier: Carrier, id: string) {
    match carrier
    case Absent => false
    case Malformed => true
    case Present(envelope) => RangesContain(envelope, id) != Some(true)
  }

  /** The bytes between ids and packed words: unique, sorted, and back to decimals. */
  ghost predicate Arranges(arrange: seq<string> -> seq<string>) {
    forall s, d :: d in arrange(s) <==> d in s
  }

  /** The envelope of a tree: nothing when no leaf is to be listed, or else one that tells exactly the listed shards. */
  ghost predicate Tells(envelope: Option<Envelope>, tree: seq<Entry>, order: int) {
    var leaves := LeavesIn([], tree, order);
    && (envelope.None? <==> leaves == multiset{})
    && (envelope.Some? ==>
          && envelope.value.order == order
          && forall d :: IsDecimalId(d) ==>
               RangesContain(envelope.value, d) == Some(exists leaf :: leaf in leaves && leaf.id == d))
  }

  method Rebuild(tree: seq<Entry>, order: int, temporal: bool, arrange: seq<string> -> seq<string>)
    returns (envelope: Option<Envelope>)
    requires Arranges(arrange)
    ensures Tells(envelope, tree, order)
  {
    hide LeavesIn, NodesIn, IsDecimalId, OrderOf, RangesContain, Within, GoodRange, Booked, Union;
    var h, visited, leaves := Walk(tree, order, temporal);
    if h.ids == [] {
      assert leaves == [];
      return None;
    }
    assert leaves[0] in multiset(leaves);
    var decs := arrange(h.ids);
    assert h.ids[0] in decs;
    WalkedIds(tree, order, leaves);
    forall i | 0 <= i < |decs| ensures IsDecimalId(decs[i]) && OrderOf(decs[i]) == order {
      assert decs[i] in decs;
    }
    var ranges := BuildRanges(decs, order);
    var built := Envelope(order, ranges.value, Union(h.timeRanges));
    forall d | IsDecimalId(d)
      ensures RangesContain(built, d) == Some(exists leaf :: leaf in LeavesIn([], tree, order) && leaf.id == d)
    {
      RangesRoundTrip(decs, built, d);
      IdsListed(leaves, d);
    }
    return Some(built);
  }

  /** Where a refresh breaks off: before the warning is armed again, or after it, with the write made or not. */
  datatype Fault = NoFault | WalkFails | WriteFails(landed: bool)

  function Replace(roots: map<string, Envelope>, key: string, envelope: Option<Envelope>): map<string, Envelope> {
    if envelope.Some? then roots[key := envelope.value] else roots - {key}
  }

  class Stores {
    var roots: map<string, Envelope>
    var warned: set<string>
    ghost var trace: seq<Event>

    /** The latch is what the history of checks and refreshes has left of it. */
    ghost predicate Valid()
      reads this
    {
      warned == Latch(trace)
    }

    constructor ()
      ensures Valid() && roots == map[] && trace == []
    {
      roots, warned, trace := map[], {}, [];
    }

    /**
     `refresh_root_coverage`. Without a manifest, or when the walk fails, it raises and touches nothing. Otherwise the
     store's warning is armed again, and then the root object is replaced by one that lists exactly the shards with
     a leaf to be listed in the tree, or deleted when there is none; when that fails the warning stays armed.
     */
    method Refresh(storeRoot: string, manifestOrder: Option<int>, tree: seq<Entry>, temporal: bool,
                   arrange: seq<string> -> seq<string>, fault: Fault)
      returns (raised: bool, envelope: Option<Envelope>, ghost built: Option<Envelope>)
      requires Valid() && Arranges(arrange)
      modifies this
      ensures Valid()
      ensures raised <==> manifestOrder.None? || !fault.NoFault?
      ensures manifestOrder.None? || fault.WalkFails? ==>
                roots == old(roots) && warned == old(warned) && trace == old(trace)
      ensures manifestOrder.Some? && !fault.WalkFails? ==>
                var key := StripSlashes(storeRoot);
                && Tells(built, tree, manifestOrder.value)
                && roots == (if fault == WriteFails(false) then old(roots) else Replace(old(roots), key, built))
                && warned == old(warned) - {key}
                && trace == old(trace) + [if fault.NoFault? then Refreshed(key) else RefreshFailed(key)]
      ensures envelope == if raised then None else built
    {
      hide Tells, Latch;
      if manifestOrder.None? || fault.WalkFails? {
        return true, None, None;
      }
      var key := StripSlashes(storeRoot);
      var made := Rebuild(tree, manifestOrder.value, temporal, arrange);
      built := made;
      warned := warned - {key};
      LatchSnoc(trace, if fault.NoFault? then Refreshed(key) else RefreshFailed(key));
      trace := trace + [if fault.NoFault? then Refreshed(key) else RefreshFailed(key)];
      if fault != WriteFails(false) {
        roots := Replace(roots, key, made);
      }
      raised := !fault.NoFault?;
      envelope := if raised then None else made;
    }

    /** `warn_if_stale` for a committed shard: absence is not staleness, and the latch decides about the warning. */
    method WarnIfStale(storeRoot: string, id: string, carrier: Carrier) returns (stale: bool, warns: bool)
      requires Valid()
      modifies this`warned, this`trace
      ensures Valid()
      ensures stale == IsStale(carrier, id)
      ensures warns <==> stale && StripSlashes(storeRoot) !in old(warned)
      ensures warned == old(warned) + if stale then {StripSlashes(storeRoot)} else {}
      ensures trace == old(trace) + [Checked(StripSlashes(storeRoot), stale)]
      ensures Warnings(trace, StripSlashes(storeRoot))
              == Warnings(old(trace), StripSlashes(storeRoot)) + if warns then 1 else 0
    {
      var key := StripSlashes(storeRoot);
      trace := trace + [Checked(key, IsStale(carrier, id))];
      assert trace[..|trace| - 1] == old(trace);
      if carrier.Absent? {
        return false, false;
      }
      if carrier.Present? {
        var listed := RangesContain(carrier.envelope, id);
        if listed == Some(true) {
          return false, false;
        }
      }
      stale, warns := true, key !in warned;
      if warns {
        warned := warned + {key};
      }
    }
  }

  lemma IdsListed(leaves: seq<Leaf>, d: string)
    ensures d in Ids(leaves) <==> exists leaf :: leaf in multiset(leaves) && leaf.id == d
  {
    if d in Ids(leaves) {
      var i :| 0 <= i < |leaves| && leaves[i].id == d;
      assert leaves[i] in multiset(leaves);
    }
    forall leaf | leaf in multiset(leaves) && leaf.id == d ensures d in Ids(leaves) {
      var i :| 0 <= i < |leaves| && leaves[i] == leaf;
      assert Ids(leaves)[i] == d;
    }
  }

  lemma {:induction false} LeavesAtOrder(path: seq<string>, entries: seq<Entry>, order: int, leaf: Leaf)
    requires leaf in LeavesIn(path, entries, order)
    ensures AtOrder(leaf.id, order)
    decreases entries
  {
    hide IsDecimalId, OrderOf, LeafId;
    var n := |entries| - 1;
    if leaf in LeavesIn(path, entries[..n], order) {
      LeavesAtOrder(path, entries[..n], order, leaf);
    } else {
      var e := entries[n];
      assert leaf in LeavesOf(path, e, order);
      if !IsZarr(e.name) {
        LeavesAtOrder(path + [e.name], e.below, order, leaf);
      }
    }
  }

  lemma WalkedIds(tree: seq<Entry>, order: int, leaves: seq<Leaf>)
    requires multiset(leaves) == LeavesIn([], tree, order)
    ensures forall i :: 0 <= i < |leaves| ==> AtOrder(leaves[i].id, order)
  {
    forall i | 0 <= i < |leaves| ensures AtOrder(leaves[i].id, order) {
      assert leaves[i] in multiset(leaves);
      LeavesAtOrder([], tree, order, leaves[i]);
    }
  }

  // ---------------------------------------------------------------- warnings over a whole history

  /** `RefreshFailed` is a refresh that raised at its write, the walk behind it. */
  datatype Event = Checked(key: string, stale: bool) | Refreshed(key: string) | RefreshFailed(key: string)

  function Latch(events: seq<Event>): set<string> {
    if events == [] then {}
    else
      var before, e := Latch(events[..|events| - 1]), events[|events| - 1];
      match e
      case Checked(key, stale) => if stale then before + {key} else before
      case Refreshed(key) => before - {key}
      case RefreshFailed(key) => before - {key}
  }

  function Warnings(events: seq<Event>, key: string): nat {
    if events == [] then 0
    else
      var init, e := events[..|events| - 1], events[|events| - 1];
      Warnings(init, key) + if e == Checked(key, true) && key !in Latch(init) then 1 else 0
  }

  /** Episodes of a store: stretches between successful refreshes in which some check came out stale. */
  function Episodes(events: seq<Event>, key: string): nat {
    if events == [] then 0
    else
      var init, e := events[..|events| - 1], events[|events| - 1];
      Episodes(init, key) + if e == Checked(key, true) && !StaleSince(init, key, {Refreshed(key)}) then 1 else 0
  }

  /** Some check was stale with none of `ends` after it. */
  predicate StaleSince(events: seq<Event>, key: string, ends: set<Event>) {
    exists i :: 0 <= i < |events| && events[i] == Checked(key, true) && NoneAfter(events, i, ends)
  }

  predicate NoneAfter(events: seq<Event>, i: nat, ends: set<Event>) {
    forall j :: i < j < |events| ==> events[j] !in ends
  }

  lemma StaleSinceSnoc(init: seq<Event>, e: Event, key: string, ends: set<Event>)
    requires Checked(key, true) !in ends
    ensures StaleSince(init + [e], key, ends)
            <==> e == Checked(key, true) || (StaleSince(init, key, ends) && e !in ends)
  {
    var events, n := init + [e], |init|;
    if e == Checked(key, true) {
      assert events[n] == e && NoneAfter(events, n, ends);
    } else if StaleSince(init, key, ends) && e !in ends {
      var i :| 0 <= i < n && init[i] == Checked(key, true) && NoneAfter(init, i, ends);
      assert events[i] == Checked(key, true) && NoneAfter(events, i, ends);
    }
    if StaleSince(events, key, ends) && e != Checked(key, true) {
      var i :| 0 <= i <= n && events[i] == Checked(key, true) && NoneAfter(events, i, ends);
      assert i < n && events[n] == e;
      forall j | i < j < n ensures init[j] !in ends {
        assert init[j] == events[j];
      }
      assert init[i] == Checked(key, true) && NoneAfter(init, i, ends);
    }
  }

  lemma LatchSnoc(events: seq<Event>, e: Event)
    ensures Latch(events + [e])
            == if !e.Checked? then Latch(events) - {e.key}
               else if e.stale then Latch(events) + {e.key}
               else Latch(events)
  {
    assert (events + [e])[..|events|] == events;
  }

  /** The latch holds a store since its last stale check, any refresh that got through its walk aside. */
  lemma {:induction false} LatchExact(events: seq<Event>, key: string)
    ensures key in Latch(events) <==> StaleSince(events, key, {Refreshed(key), RefreshFailed(key)})
  {
    if events != [] {
      var n := |events| - 1;
      LatchExact(events[..n], key);
      StaleSinceSnoc(events[..n], events[n], key, {Refreshed(key), RefreshFailed(key)});
      assert events[..n] + [events[n]] == events;
    }
  }

  /** Two stale checks of one episode with a refresh between them that failed at its write. */
  predicate Rearmed(events: seq<Event>, key: string) {
    exists i, j, k | 0 <= i < j < k < |events| :: RearmedAt(events, key, i, j, k)
  }

  predicate RearmedAt(events: seq<Event>, key: string, i: int, j: int, k: int) {
    && 0 <= i < j < k < |events| && events[i] == Checked(key, true) && events[j] == RefreshFailed(key)
    && events[k] == Checked(key, true) && Refreshed(key) !in events[i..k]
  }

  /** A latch opened in the middle of an episode. */
  predicate Reopened(events: seq<Event>, key: string) {
    key !in Latch(events) && StaleSince(events, key, {Refreshed(key)})
  }

  lemma ReopenedByFailure(events: seq<Event>, key: string) returns (i: nat, j: nat)
    requires Reopened(events, key)
    ensures i < j < |events| && events[i] == Checked(key, true) && events[j] == RefreshFailed(key)
    ensures NoneAfter(events, i, {Refreshed(key)})
  {
    LatchExact(events, key);
    i :| 0 <= i < |events| && events[i] == Checked(key, true) && NoneAfter(events, i, {Refreshed(key)});
    assert !NoneAfter(events, i, {Refreshed(key), RefreshFailed(key)});
    j :| i < j < |events| && events[j] in {Refreshed(key), RefreshFailed(key)};
  }

  lemma RearmedSnoc(init: seq<Event>, e: Event, key: string)
    ensures Rearmed(init + [e], key) <==> Rearmed(init, key) || (e == Checked(key, true) && Reopened(init, key))
  {
    var events, n := init + [e], |init|;
    if Rearmed(init, key) {
      var i, j, k :| 0 <= i < j < k < n && RearmedAt(init, key, i, j, k);
      assert events[i..k] == init[i..k];
      assert RearmedAt(events, key, i, j, k);
    } else if e == Checked(key, true) && Reopened(init, key) {
      var i, j := ReopenedByFailure(init, key);
      assert events[i..n] == init[i..n];
      assert forall m :: i < m < n ==> init[m] != Refreshed(key);
      assert RearmedAt(events, key, i, j, n);
    }
    if Rearmed(events, key) && !Rearmed(init, key) {
      var i, j, k :| 0 <= i < j < k <= n && RearmedAt(events, key, i, j, k);
      assert events[i..k] == init[i..k];
      if k < n {
        assert RearmedAt(init, key, i, j, k);
      } else {
        RearmedLast(init, key, i, j);
      }
    }
  }

  lemma RearmedLast(init: seq<Event>, key: string, i: nat, j: nat)
    requires i < j < |init| && init[i] == Checked(key, true) && init[j] == RefreshFailed(key)
    requires Refreshed(key) !in init[i..] && !Rearmed(init, key)
    ensures Reopened(init, key)
  {
    LatchExact(init, key);
    forall m | i < m < |init| ensures init[m] !in {Refreshed(key)} {
      assert init[m] == init[i..][m - i];
    }
    assert NoneAfter(init, i, {Refreshed(key)});
    if key in Latch(init) {
      var k :| 0 <= k < |init| && init[k] == Checked(key, true)
               && NoneAfter(init, k, {Refreshed(key), RefreshFailed(key)});
      assert j < k;
      assert RearmedAt(init, key, i, j, k);
    }
  }

  /**
   Over every history of checks and refreshes a store is warned about at least once per stale episode. It is exactly
   once per episode if and only if no refresh failed at its write between two stale checks of one episode.
   */
  lemma {:induction false} OneWarningPerEpisode(events: seq<Event>, key: string)
    ensures Warnings(events, key) >= Episodes(events, key)
    ensures Warnings(events, key) == Episodes(events, key) <==> !Rearmed(events, key)
  {
    hide Rearmed, StaleSince;
    if events == [] {
      NothingRearmed(key);
    } else {
      var n := |events| - 1;
      var init, e := events[..n], events[n];
      assert init + [e] == events;
      OneWarningPerEpisode(init, key);
      RearmedSnoc(init, e, key);
      if key in Latch(init) {
        LatchedIsStale(init, key);
      }
    }
  }

  lemma NothingRearmed(key: string)
    ensures !Rearmed([], key)
  {
  }

  lemma LatchedIsStale(events: seq<Event>, key: string)
    requires key in Latch(events)
    ensures StaleSince(events, key, {Refreshed(key)})
  {
    LatchExact(events, key);
    var i :| 0 <= i < |events| && events[i] == Checked(key, true)
             && NoneAfter(events, i, {Refreshed(key), RefreshFailed(key)});
    assert NoneAfter(events, i, {Refreshed(key)});
  }

  /** A refresh that fails at its write between two stale checks: one episode, two warnings. */
  lemma WarnedTwice(key: string)
    ensures var events := [Checked(key, true), RefreshFailed(key), Checked(key, true)];
            Warnings(events, key) == 2 && Episodes(events, key) == 1
  {
    var events := [Checked(key, true), RefreshFailed(key), Checked(key, true)];
    assert events[..2] == [Checked(key, true), RefreshFailed(key)] && events[..2][..1] == [Checked(key, true)];
    assert events[..2][..1][..0] == [];
    assert Latch([]) == {} && Latch(events[..2][..1]) == {key} && Latch(events[..2]) == {};
    assert Warnings(events[..2][..1], key) == 1 && Warnings(events[..2], key) == 1;
    StaleSinceSnoc([], events[0], key, {Refreshed(key)});
    StaleSinceSnoc([events[0]], events[1], key, {Refreshed(key)});
    assert [events[0]] + [events[1]] == events[..2] && [] + [events[0]] == [events[0]];
    hide Latch, Warnings, NoneAfter;
    assert !StaleSince([], key, {Refreshed(key)});
    assert Episodes(events[..2][..1], key) == 1 && Episodes(events[..2], key) == 1;
  }
}
