/**
 Explicit time windows: their two spellings, the validation of the declared list, and the whole-second windows that
 dispatch filters on. Instants are microseconds; rendering truncates to the second.
 */
module Windows {
  import opened Prelude
  import opened DecimalIds
  import opened Sorting

  // ---------------------------------------------------------------- declarations

  /** A value of an entry, by what it is good for: as a label, and as an instant. */
  datatype Value = Value(text: Option<string>, instant: Option<int>)

  type Fields = map<string, Value>

  datatype Entry = NotAMapping | Mapping(fields: Fields)

  datatype Declared = Missing | NotAList | List(entries: seq<Entry>)

  const SECOND: int := 1_000_000
  const SCHEDULE_NONE_TOKEN: string := "all"

  /** The second that contains an instant, which is what `iso_utc` renders. */
  function Truncated(t: int): int {
    t / SECOND * SECOND
  }

  lemma TruncatedExact(t: int)
    ensures Truncated(t) <= t < Truncated(t) + SECOND && Truncated(t) % SECOND == 0
    ensures forall s :: s % SECOND == 0 && s <= t < s + SECOND ==> s == Truncated(t)
  {
    forall s | s % SECOND == 0 && s <= t < s + SECOND ensures s == Truncated(t) {
      assert s == s / SECOND * SECOND;
    }
  }

  lemma TruncatedMonotone(s: int, t: int)
    requires s <= t
    ensures Truncated(s) <= Truncated(t)
  {
  }

  type Bounds = (int, int)

  /** `_explicit_window_bounds`: the declared bounds, or nothing when the entry is refused. */
  function ExplicitBounds(e: Fields): Option<Bounds> {
    if "timestamp" in e then
      if "start" in e || "end" in e then None
      else if e.Keys - {"label", "timestamp"} != {} then None
      else if e["timestamp"].instant.None? then None
      else Some((e["timestamp"].instant.value, e["timestamp"].instant.value + SECOND))
    else if e.Keys - {"label", "start", "end"} != {} then None
    else if "start" !in e || "end" !in e || e["start"].instant.None? || e["end"].instant.None? then None
    else
      var start, end := e["start"].instant.value, e["end"].instant.value;
      if start < end && Truncated(start) == Truncated(end) then None else Some((start, end))
  }

  datatype Window = Window(tag: string, start: int, end: int)

  predicate ShapeOk(e: Entry) {
    e.Mapping? && "label" in e.fields && (("start" in e.fields && "end" in e.fields) || "timestamp" in e.fields)
  }

  predicate LabelOk(e: Fields)
    requires "label" in e
  {
    e["label"].text.Some? && IsLabel(e["label"].text.value)
  }

  /** What one entry declares; nothing when a check on the entry alone refuses it. */
  function Read(e: Entry): Option<Window> {
    if !ShapeOk(e) || !LabelOk(e.fields) then None
    else
      var tag, bounds := e.fields["label"].text.value, ExplicitBounds(e.fields);
      if bounds.None? || tag == SCHEDULE_NONE_TOKEN || !(bounds.value.0 < bounds.value.1) then None
      else Some(Window(tag, bounds.value.0, bounds.value.1))
  }

  predicate Disjoint(a: Window, b: Window) {
    a.end <= b.start || b.end <= a.start
  }

  function AllRead(entries: seq<Entry>): (r: Option<seq<Window>>)
    ensures r.Some? ==> |r.value| == |entries|
    ensures r.Some? <==> forall i :: 0 <= i < |entries| ==> Read(entries[i]).Some?
    ensures r.Some? ==> forall i :: 0 <= i < |entries| ==> Read(entries[i]) == Some(r.value[i])
  {
    if entries == [] then Some([])
    else
      var init, last := AllRead(entries[..|entries| - 1]), Read(entries[|entries| - 1]);
      assert forall i :: 0 <= i < |entries| - 1 ==> entries[..|entries| - 1][i] == entries[i];
      if init.None? || last.None? then None else Some(init.value + [last.value])
  }

  predicate DistinctLabels(ws: seq<Window>) {
    forall i, j :: 0 <= i < j < |ws| ==> ws[i].tag != ws[j].tag
  }

  predicate PairwiseDisjoint(ws: seq<Window>) {
    forall i, j :: 0 <= i < j < |ws| ==> Disjoint(ws[i], ws[j])
  }

  // ---------------------------------------------------------------- sorting

  const STARTS_FIRST: (Window, Window) -> bool := (a: Window, b: Window) => a.start <= b.start

  function SortByStart(ws: seq<Window>): seq<Window> {
    Sorted(ws, STARTS_FIRST)
  }

  predicate NonEmpty(ws: seq<Window>) {
    forall i :: 0 <= i < |ws| ==> ws[i].start < ws[i].end
  }

  predicate NeighboursApart(ws: seq<Window>) {
    forall i :: 0 <= i < |ws| - 1 ==> ws[i].end <= ws[i + 1].start
  }

  lemma {:induction false} Chain(ws: seq<Window>, i: nat, j: nat)
    requires NonEmpty(ws) && NeighboursApart(ws) && i < j < |ws|
    ensures ws[i].end <= ws[j].start
    decreases j - i
  {
    if j > i + 1 {
      Chain(ws, i, j - 1);
      assert ws[j - 1].end <= ws[j - 1 + 1].start;
    }
  }

  /** Of non-empty windows in order of their starts, only neighbours need comparing. */
  lemma NeighboursSuffice(ws: seq<Window>)
    requires NonEmpty(ws) && Ascending(ws, STARTS_FIRST)
    ensures NeighboursApart(ws) <==> PairwiseDisjoint(ws)
  {
    if NeighboursApart(ws) {
      forall i, j | 0 <= i < j < |ws| ensures Disjoint(ws[i], ws[j]) {
        Chain(ws, i, j);
      }
    }
    if PairwiseDisjoint(ws) {
      forall i | 0 <= i < |ws| - 1 ensures ws[i].end <= ws[i + 1].start {
        assert Disjoint(ws[i], ws[i + 1]) && STARTS_FIRST(ws[i], ws[i + 1]);
      }
    }
  }

  lemma ArrangementDisjoint(a: seq<Window>, b: seq<Window>)
    requires multiset(a) == multiset(b) && PairwiseDisjoint(b)
    ensures PairwiseDisjoint(a)
  {
    forall i, j | 0 <= i < j < |a| ensures Disjoint(a[i], a[j]) {
      var k, m := PairIn(a, b, i, j);
      if k < m {
        assert Disjoint(b[k], b[m]);
      } else {
        assert Disjoint(b[m], b[k]);
      }
    }
  }

  lemma ArrangementNonEmpty(a: seq<Window>, b: seq<Window>)
    requires multiset(a) == multiset(b) && NonEmpty(b)
    ensures NonEmpty(a)
  {
    forall i | 0 <= i < |a| ensures a[i].start < a[i].end {
      assert a[i] in multiset(b);
      var k :| 0 <= k < |b| && b[k] == a[i];
    }
  }

  lemma SortKeepsDisjointness(ws: seq<Window>)
    requires NonEmpty(ws)
    ensures NonEmpty(SortByStart(ws)) && (NeighboursApart(SortByStart(ws)) <==> PairwiseDisjoint(ws))
  {
    var sorted := SortByStart(ws);
    SortedExact(ws, STARTS_FIRST);
    ArrangementNonEmpty(sorted, ws);
    NeighboursSuffice(sorted);
    if PairwiseDisjoint(ws) {
      ArrangementDisjoint(sorted, ws);
    }
    if PairwiseDisjoint(sorted) {
      ArrangementDisjoint(ws, sorted);
    }
  }

  // ---------------------------------------------------------------- validation

  /** A list is good when every entry can be read, no label repeats and no two windows share an instant. */
  ghost predicate Acceptable(schedule: string, declared: Declared) {
    if schedule != "explicit" then declared.Missing?
    else
      && declared.List? && declared.entries != []
      && AllRead(declared.entries).Some?
      && DistinctLabels(AllRead(declared.entries).value)
      && PairwiseDisjoint(AllRead(declared.entries).value)
  }

  method ReadAll(entries: seq<Entry>) returns (seen: Option<seq<Window>>)
    ensures seen.Some? <==> AllRead(entries).Some? && DistinctLabels(AllRead(entries).value)
    ensures seen.Some? ==> seen == AllRead(entries)
  {
    hide Read;
    var windows: seq<Window> := [];
    var labels: set<string> := {};
    for n := 0 to |entries|
      invariant |windows| == n && forall i :: 0 <= i < n ==> Read(entries[i]) == Some(windows[i])
      invariant labels == set i | 0 <= i < n :: windows[i].tag
      invariant DistinctLabels(windows)
    {
      var window := Read(entries[n]);
      if window.None? {
        return None;
      }
      if window.value.tag in labels {
        var i :| 0 <= i < n && windows[i].tag == window.value.tag;
        if AllRead(entries).Some? {
          assert AllRead(entries).value[i].tag == AllRead(entries).value[n].tag;
        }
        return None;
      }
      windows, labels := windows + [window.value], labels + {window.value.tag};
    }
    assert AllRead(entries).value == windows;
    return Some(windows);
  }

  /** `_validate_windowing_windows`: the per-entry checks, then the neighbours of the sorted list. */
  method ValidateWindows(schedule: string, declared: Declared) returns (ok: bool)
    ensures ok <==> Acceptable(schedule, declared)
  {
    hide AllRead, SortByStart, DistinctLabels, PairwiseDisjoint, NeighboursApart, NonEmpty;
    if schedule != "explicit" {
      return declared.Missing?;
    }
    if !declared.List? || declared.entries == [] {
      return false;
    }
    var seen := ReadAll(declared.entries);
    if seen.None? {
      return false;
    }
    ReadNonEmpty(declared.entries);
    SortKeepsDisjointness(seen.value);
    ok := Apart(SortByStart(seen.value));
  }

  method Apart(ordered: seq<Window>) returns (ok: bool)
    ensures ok <==> NeighboursApart(ordered)
  {
    for i := 0 to |ordered|
      invariant forall k :: 0 <= k < i && k < |ordered| - 1 ==> ordered[k].end <= ordered[k + 1].start
    {
      if i + 1 < |ordered| && ordered[i].end > ordered[i + 1].start {
        return false;
      }
    }
    return true;
  }

  lemma ReadNonEmpty(entries: seq<Entry>)
    ensures AllRead(entries).Some? ==> NonEmpty(AllRead(entries).value)
  {
    if AllRead(entries).Some? {
      var ws := AllRead(entries).value;
      assert forall i :: 0 <= i < |ws| ==> Read(entries[i]) == Some(ws[i]);
    }
  }

  // ---------------------------------------------------------------- normalization

  function Normal(w: Window): Window {
    Window(w.tag, Truncated(w.start), Truncated(w.end))
  }

  /** The windows `get_windowing` hands to dispatch and manifest, in declaration order. */
  method GetWindowing(declared: Declared) returns (windows: seq<Window>)
    requires Acceptable("explicit", declared)
    ensures |windows| == |declared.entries|
    ensures forall i :: 0 <= i < |windows| ==> windows[i] == Normal(AllRead(declared.entries).value[i])
  {
    windows := [];
    for n := 0 to |declared.entries|
      invariant |windows| == n
      invariant forall i :: 0 <= i < n ==> windows[i] == Normal(AllRead(declared.entries).value[i])
    {
      var fields := declared.entries[n].fields;
      assert Read(declared.entries[n]) == Some(AllRead(declared.entries).value[n]);
      var bounds := ExplicitBounds(fields).value;
      windows := windows + [Window(fields["label"].text.value, Truncated(bounds.0), Truncated(bounds.1))];
    }
  }

  /** Truncation neither empties a window that was read nor makes two disjoint ones overlap. */
  lemma NormalKeepsApart(a: Window, b: Window, e: Entry, f: Entry)
    requires Read(e) == Some(a) && Read(f) == Some(b)
    ensures Normal(a).start < Normal(a).end
    ensures Disjoint(a, b) ==> Disjoint(Normal(a), Normal(b))
  {
    TruncatedMonotone(a.start, a.end);
    if "timestamp" !in e.fields {
      assert Truncated(a.start) != Truncated(a.end);
    }
    if a.end <= b.start {
      TruncatedMonotone(a.end, b.start);
    }
    if b.end <= a.start {
      TruncatedMonotone(b.end, a.start);
    }
  }

  /** A structured filter on the time field. */
  datatype Filter = AtLeast(value: real) | Below(value: real)

  predicate Passes(x: real, f: Filter) {
    match f
    case AtLeast(v) => x >= v
    case Below(v) => x < v
  }

  /** `window_time_filters` of one window, in dataset units. */
  function TimeFilters(w: Window, convert: int -> real): (r: seq<Filter>)
    ensures |r| == 2
  {
    [AtLeast(convert(w.start)), Below(convert(w.end))]
  }

  predicate PassesAll(x: real, filters: seq<Filter>) {
    forall i :: 0 <= i < |filters| ==> Passes(x, filters[i])
  }

  ghost predicate Monotone(convert: int -> real) {
    forall s, t :: s <= t ==> convert(s) <= convert(t)
  }

  /**
   For every accepted list the normalized windows are non-empty runs of whole seconds, pairwise disjoint, under
   distinct labels; and no observation passes the filters of two of them, in whatever units the dataset keeps time.
   */
  lemma NormalizedApart(entries: seq<Entry>, convert: int -> real)
    requires Acceptable("explicit", List(entries)) && Monotone(convert)
    ensures var ws := seq(|entries|, i requires 0 <= i < |entries| => Normal(AllRead(entries).value[i]));
            && NonEmpty(ws) && PairwiseDisjoint(ws) && DistinctLabels(ws)
            && (forall i :: 0 <= i < |ws| ==> ws[i].start % SECOND == 0 && ws[i].end % SECOND == 0)
            && forall i, j, x :: 0 <= i < j < |ws| && PassesAll(x, TimeFilters(ws[i], convert))
                 ==> !PassesAll(x, TimeFilters(ws[j], convert))
  {
    hide Read, Truncated;
    var declared := AllRead(entries).value;
    var ws := seq(|entries|, i requires 0 <= i < |entries| => Normal(declared[i]));
    forall i | 0 <= i < |ws| ensures ws[i].start < ws[i].end && ws[i].start % SECOND == 0 && ws[i].end % SECOND == 0 {
      NormalKeepsApart(declared[i], declared[i], entries[i], entries[i]);
      TruncatedExact(declared[i].start);
      TruncatedExact(declared[i].end);
    }
    forall i, j | 0 <= i < j < |ws| ensures Disjoint(ws[i], ws[j]) {
      NormalKeepsApart(declared[i], declared[j], entries[i], entries[j]);
    }
    forall i, j, x | 0 <= i < j < |ws| && PassesAll(x, TimeFilters(ws[i], convert))
      ensures !PassesAll(x, TimeFilters(ws[j], convert))
    {
      assert Disjoint(ws[i], ws[j]);
      var f, g := TimeFilters(ws[i], convert), TimeFilters(ws[j], convert);
      assert Passes(x, f[0]) && Passes(x, f[1]);
      assert PassesAll(x, g) ==> Passes(x, g[0]) && Passes(x, g[1]);
    }
  }

  /** A point window keeps its instant: normalized, it is the very second that contains the timestamp. */
  lemma PointKeepsInstant(e: Entry)
    requires Read(e).Some? && "timestamp" in e.fields
    ensures var w, t := Normal(Read(e).value), e.fields["timestamp"].instant.value;
            w.start <= t < w.end && w.end == w.start + SECOND
  {
    TruncatedExact(e.fields["timestamp"].instant.value);
  }

  /** A range window is never widened at its end and never starts late: it differs from the declared one by less than
      a second on either side. */
  lemma RangeShifts(e: Entry)
    requires Read(e).Some?
    ensures var w, d := Normal(Read(e).value), Read(e).value;
            && d.start - SECOND < w.start <= d.start
            && d.end - SECOND < w.end <= d.end
  {
    TruncatedExact(Read(e).value.start);
    TruncatedExact(Read(e).value.end);
  }

  /** The list is judged before truncation: of two declared windows, the earlier first, truncation would separate what
      is refused exactly when they overlap within the second of the earlier one's end. */
  lemma RefusedThoughDisjoint(a: Window, b: Window, e: Entry, f: Entry)
    requires Read(e) == Some(a) && Read(f) == Some(b) && a.start <= b.start
    ensures !Disjoint(a, b) && Disjoint(Normal(a), Normal(b))
            <==> b.start < a.end && Truncated(b.start) == Truncated(a.end)
  {
    NormalKeepsApart(b, a, f, e);
    TruncatedMonotone(a.start, b.start);
    if b.start < a.end {
      TruncatedMonotone(b.start, a.end);
    }
  }

  function Ranged(tag: string, start: int, end: int): Entry {
    Mapping(map["label" := Value(Some(tag), None),
                "start" := Value(None, Some(start)),
                "end" := Value(None, Some(end))])
  }

  /** Two declared windows that overlap by a tenth of a second: the list is refused, truncated they are apart. */
  lemma OverlapWithinSecond()
    ensures var e, f := Ranged("a", 200_000, 1_200_000), Ranged("b", 1_100_000, 2_100_000);
            && Read(e).Some? && Read(f).Some? && !Acceptable("explicit", List([e, f]))
            && AllRead([e, f]).Some? && DistinctLabels(AllRead([e, f]).value)
            && Disjoint(Normal(Read(e).value), Normal(Read(f).value))
  {
    var e, f := Ranged("a", 200_000, 1_200_000), Ranged("b", 1_100_000, 2_100_000);
    assert e.fields.Keys == {"label", "start", "end"} && f.fields.Keys == {"label", "start", "end"};
    assert LabelChar("a"[0]) && LabelChar("b"[0]) && "a"[0] != '\n' && "b"[0] != '\n';
    assert "timestamp" !in e.fields && "timestamp" !in f.fields;
    var a, b := Window("a", 200_000, 1_200_000), Window("b", 1_100_000, 2_100_000);
    assert SCHEDULE_NONE_TOKEN != "a" && SCHEDULE_NONE_TOKEN != "b";
    assert Read(e) == Some(a) && Read(f) == Some(b);
    hide Read;
    var ws := AllRead([e, f]).value;
    assert [e, f][0] == e && [e, f][1] == f;
    assert ws[0] == a && ws[1] == b && !Disjoint(ws[0], ws[1]);
  }
}
