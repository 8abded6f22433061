/** Nested shard maps: how deep an entry sits, and an order in which parents come before what is nested in them. */
module Nesting {
  import opened Prelude
  import opened Sorting

  /** The entries by name, each with the name it is nested in, if any. */
  type Known = map<string, Option<string>>

  datatype Depth = Depth(hops: nat) | UnknownEntry | Cycle

  /** The entry `n` hops up. */
  function Up(known: Known, key: string, n: nat): Option<string> {
    if n == 0 then Some(key)
    else
      var below := Up(known, key, n - 1);
      if below.None? || below.value !in known then None else known[below.value]
  }

  /** `n` hops up there is an entry that is nested in nothing. */
  predicate HasDepth(known: Known, key: string, n: nat) {
    Up(known, key, n).Some? && Up(known, key, n).value in known && known[Up(known, key, n).value].None?
  }

  predicate LeadsOut(known: Known, key: string, n: nat) {
    Up(known, key, n).Some? && Up(known, key, n).value !in known
  }

  predicate Repeats(known: Known, key: string, i: nat, j: nat) {
    i < j && Up(known, key, i).Some? && Up(known, key, i) == Up(known, key, j)
  }

  lemma {:induction false} UpAdds(known: Known, key: string, m: nat, n: nat)
    requires Up(known, key, m).Some?
    ensures Up(known, key, m + n) == Up(known, Up(known, key, m).value, n)
  {
    if n > 0 {
      UpAdds(known, key, m, n - 1);
    }
  }

  lemma {:induction false} NoneStays(known: Known, key: string, m: nat, n: nat)
    requires m <= n && Up(known, key, m).None?
    ensures Up(known, key, n).None?
  {
    if m < n {
      NoneStays(known, key, m, n - 1);
    }
  }

  /** A chain that ends, at a root or at a missing entry, visits nothing twice. */
  lemma EndsOnce(known: Known, key: string, n: nat, i: nat, j: nat)
    requires Up(known, key, n).Some? && Up(known, key, n + 1).None?
    ensures !Repeats(known, key, i, j)
  {
    if Repeats(known, key, i, j) {
      if j > n {
        NoneStays(known, key, n + 1, j);
      } else {
        UpAdds(known, key, i, n + 1 - j);
        UpAdds(known, key, j, n + 1 - j);
        if Up(known, key, i + (n + 1 - j)).None? {
          NoneStays(known, key, i + (n + 1 - j), n);
        }
      }
      assert false;
    }
  }

  lemma EndsAtOnePlace(known: Known, key: string, m: nat, n: nat)
    requires Up(known, key, m).Some? && Up(known, key, m + 1).None?
    requires Up(known, key, n).Some? && Up(known, key, n + 1).None?
    ensures m == n
  {
    if m < n {
      NoneStays(known, key, m + 1, n);
    } else if n < m {
      NoneStays(known, key, n + 1, m);
    }
  }

  lemma {:induction false} BoundedDistinct(seen: seq<string>, keys: set<string>)
    requires forall i :: 0 <= i < |seen| ==> seen[i] in keys
    requires forall i, j :: 0 <= i < j < |seen| ==> seen[i] != seen[j]
    ensures |seen| <= |keys|
  {
    if seen != [] {
      var init, last := seen[..|seen| - 1], seen[|seen| - 1];
      forall i | 0 <= i < |init| ensures init[i] in keys - {last} {
        assert seen[i] != last;
      }
      BoundedDistinct(init, keys - {last});
    }
  }

  /** `nesting_depth`. It ends on every input. It gives the number of hops exactly when the chain of the key ends at an
      entry nested in nothing, and raises exactly when the chain leaves the map or comes back to an entry. */
  method NestingDepth(known: Known, key: string) returns (r: Depth)
    ensures r.Depth? ==> HasDepth(known, key, r.hops)
    ensures forall n: nat :: HasDepth(known, key, n) ==> r == Depth(n)
    ensures r.UnknownEntry? <==> exists n: nat :: LeadsOut(known, key, n)
    ensures r.Cycle? <==> exists i: nat, j: nat :: Repeats(known, key, i, j)
  {
    hide Up;
    var seen: seq<string> := [];
    var at := key;
    UpStart(known, key);
    while at in known && known[at].Some?
      invariant Up(known, key, |seen|) == Some(at) && at !in seen
      invariant forall i :: 0 <= i < |seen| ==> Up(known, key, i) == Some(seen[i]) && seen[i] in known
      invariant forall i, j :: 0 <= i < j < |seen| ==> seen[i] != seen[j]
      decreases |known| - |seen|
    {
      ghost var n := |seen|;
      seen := seen + [at];
      UpNext(known, key, n);
      at := known[at].value;
      BoundedDistinct(seen, known.Keys);
      if at in seen {
        ghost var i: nat :| i < |seen| && seen[i] == at;
        assert Repeats(known, key, i, n + 1);
        CycleOnly(known, key, i, n + 1);
        return Cycle;
      }
      BoundedDistinct(seen, known.Keys);
    }
    UpNext(known, key, |seen|);
    EndOnly(known, key, |seen|);
    if at !in known {
      assert LeadsOut(known, key, |seen|);
      return UnknownEntry;
    }
    return Depth(|seen|);
  }

  lemma UpStart(known: Known, key: string)
    ensures Up(known, key, 0) == Some(key)
  {
  }

  lemma UpNext(known: Known, key: string, n: nat)
    ensures Up(known, key, n + 1) ==
              if Up(known, key, n).None? || Up(known, key, n).value !in known then None
              else known[Up(known, key, n).value]
  {
  }

  lemma EndOnly(known: Known, key: string, n: nat)
    requires Up(known, key, n).Some? && Up(known, key, n + 1).None?
    ensures forall m: nat :: HasDepth(known, key, m) || LeadsOut(known, key, m) ==> m == n
    ensures forall i: nat, j: nat :: !Repeats(known, key, i, j)
  {
    hide Up;
    forall m: nat | HasDepth(known, key, m) || LeadsOut(known, key, m) ensures m == n {
      UpNext(known, key, m);
      EndsAtOnePlace(known, key, m, n);
    }
    forall i: nat, j: nat ensures !Repeats(known, key, i, j) {
      EndsOnce(known, key, n, i, j);
    }
  }

  lemma CycleOnly(known: Known, key: string, i: nat, j: nat)
    requires Repeats(known, key, i, j)
    ensures forall m: nat :: !HasDepth(known, key, m) && !LeadsOut(known, key, m)
  {
    hide Up;
    forall m: nat ensures !HasDepth(known, key, m) && !LeadsOut(known, key, m) {
      UpNext(known, key, m);
      if HasDepth(known, key, m) || LeadsOut(known, key, m) {
        EndsOnce(known, key, m, i, j);
        assert false;
      }
    }
  }

  /** A map whose links stay within it raises for a cycle only. */
  lemma {:induction false} ClosedMapRaisesForCyclesOnly(known: Known, key: string, n: nat)
    requires key in known && forall k :: k in known && known[k].Some? ==> known[k].value in known
    ensures !LeadsOut(known, key, n)
  {
    if n > 0 {
      ClosedMapRaisesForCyclesOnly(known, key, n - 1);
    }
  }

  // ---------------------------------------------------------------- the re-pin order

  /** An ancestor is shallower, by as many hops as it is up. */
  lemma {:induction false} AncestorDepth(known: Known, key: string, m: nat, n: nat)
    requires HasDepth(known, key, n) && Up(known, key, m).Some?
    ensures m <= n && HasDepth(known, Up(known, key, m).value, n - m)
  {
    if m > n {
      NoneStays(known, key, n + 1, m);
    }
    UpAdds(known, key, m, n - m);
  }

  type Keyed = (nat, string)

  const SHALLOWER: (Keyed, Keyed) -> bool := (a: Keyed, b: Keyed) => a.0 <= b.0

  function Names(s: seq<Keyed>): (r: seq<string>)
    ensures |r| == |s|
  {
    seq(|s|, i requires 0 <= i < |s| => s[i].1)
  }

  lemma {:induction false} InsertNames(s: seq<Keyed>, x: Keyed)
    ensures multiset(Names(Insert(s, x, SHALLOWER))) == multiset(Names(s)) + multiset{x.1}
  {
    if s == [] || SHALLOWER(s[|s| - 1], x) {
      assert Names(s + [x]) == Names(s) + [x.1];
    } else {
      var init, last := s[..|s| - 1], s[|s| - 1];
      InsertNames(init, x);
      assert Names(Insert(init, x, SHALLOWER) + [last]) == Names(Insert(init, x, SHALLOWER)) + [last.1];
      assert Names(s) == Names(init) + [last.1];
    }
  }

  lemma {:induction false} SortedNames(s: seq<Keyed>)
    ensures multiset(Names(Sorted(s, SHALLOWER))) == multiset(Names(s))
  {
    if s != [] {
      SortedNames(s[..|s| - 1]);
      InsertNames(Sorted(s[..|s| - 1], SHALLOWER), s[|s| - 1]);
      assert Names(s) == Names(s[..|s| - 1]) + [s[|s| - 1].1];
    }
  }

  /** In `order`, nobody comes before one of its ancestors. */
  ghost predicate AncestorsFirst(known: Known, order: seq<string>) {
    forall i, j, m: nat ::
      0 <= i < |order| && 0 <= j < |order| && m >= 1 && Up(known, order[i], m) == Some(order[j]) ==> j < i
  }

  ghost predicate Measured(known: Known, s: seq<Keyed>) {
    forall i :: 0 <= i < |s| ==> HasDepth(known, s[i].1, s[i].0)
  }

  ghost predicate Measurable(known: Known, key: string) {
    exists n: nat :: HasDepth(known, key, n)
  }

  /** The sorted loop of `main`: nothing is re-pinned when some depth raises; otherwise the chosen entries are, each
      after all of its chosen ancestors, whatever order the command line named them in. */
  method RepinOrder(known: Known, chosen: seq<string>) returns (order: Option<seq<string>>)
    ensures order.Some? <==> forall i :: 0 <= i < |chosen| ==> Measurable(known, chosen[i])
    ensures order.Some? ==> multiset(order.value) == multiset(chosen) && AncestorsFirst(known, order.value)
  {
    hide HasDepth, Up, LeadsOut, Repeats, AncestorsFirst, Sorted;
    var keyed: seq<Keyed> := [];
    for c := 0 to |chosen|
      invariant Measured(known, keyed) && Names(keyed) == chosen[..c]
      invariant forall i :: 0 <= i < c ==> Measurable(known, chosen[i])
    {
      var depth := NestingDepth(known, chosen[c]);
      if !depth.Depth? {
        return None;
      }
      keyed := keyed + [(depth.hops, chosen[c])];
    }
    assert chosen[..|chosen|] == chosen;
    var sorted := Sorted(keyed, SHALLOWER);
    SortedExact(keyed, SHALLOWER);
    SortedNames(keyed);
    SortedMeasured(known, keyed, sorted);
    SortedIsTopological(known, sorted);
    return Some(Names(sorted));
  }

  lemma SortedMeasured(known: Known, s: seq<Keyed>, r: seq<Keyed>)
    requires Measured(known, s) && multiset(r) == multiset(s)
    ensures Measured(known, r)
  {
    forall i | 0 <= i < |r| ensures HasDepth(known, r[i].1, r[i].0) {
      assert r[i] in multiset(s);
    }
  }

  lemma SortedIsTopological(known: Known, s: seq<Keyed>)
    requires Ascending(s, SHALLOWER) && Measured(known, s)
    ensures AncestorsFirst(known, Names(s))
  {
    hide Up, HasDepth;
    var order := Names(s);
    forall i, j, m: nat | 0 <= i < |order| && 0 <= j < |order| && m >= 1 && Up(known, order[i], m) == Some(order[j])
      ensures j < i
    {
      assert HasDepth(known, order[i], s[i].0) && HasDepth(known, order[j], s[j].0);
      AncestorDepth(known, order[i], m, s[i].0);
      OneDepth(known, order[j], s[j].0, s[i].0 - m);
    }
  }

  lemma OneDepth(known: Known, key: string, m: nat, n: nat)
    requires HasDepth(known, key, m) && HasDepth(known, key, n)
    ensures m == n
  {
    EndsAtOnePlace(known, key, m, n);
  }
}
