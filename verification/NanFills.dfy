/** Floats that strict JSON (section 6 of RFC 8259) has no number for: which of them loading a configuration rewrites,
    and which of them validation then refuses. */
module NanFills {
  import opened Prelude

  datatype FloatValue = Finite(value: real) | NaN | Infinite(positive: bool)

  datatype Pair = Pair(key: string, value: Node)

  datatype Node =
    | Float(float: FloatValue)
    | Text(text: string)
    | Dict(items: seq<Pair>)
    | Array(isTuple: bool, elems: seq<Node>)

  const FILL: string := "fill_value"

  predicate IsNanFill(p: Pair) {
    p.key == FILL && p.value == Float(NaN)
  }

  /** `_has_nan_fill`: it does not look into the value of a `fill_value`. */
  predicate HasNanFill(n: Node) {
    match n
    case Dict(items) =>
      exists i :: 0 <= i < |items| && (IsNanFill(items[i]) || (items[i].key != FILL && HasNanFill(items[i].value)))
    case Array(_, elems) => exists i :: 0 <= i < |elems| && HasNanFill(elems[i])
    case _ => false
  }

  /** `_normalize_nan_fills`: it does descend into the value of a `fill_value`, once it is under way. */
  function Normalize(n: Node): Node {
    if !HasNanFill(n) then n
    else match n
      case Dict(items) => Dict(seq(|items|, i requires 0 <= i < |items| => NormalizePair(items[i])))
      case Array(t, elems) => Array(t, seq(|elems|, i requires 0 <= i < |elems| => Normalize(elems[i])))
      case _ => n
  }

  function NormalizePair(p: Pair): Pair {
    Pair(p.key, if IsNanFill(p) then Text("NaN") else Normalize(p.value))
  }

  predicate AllFinite(n: Node) {
    match n
    case Float(f) => f.Finite?
    case Text(_) => true
    case Dict(items) => forall i :: 0 <= i < |items| ==> AllFinite(items[i].value)
    case Array(_, elems) => forall i :: 0 <= i < |elems| ==> AllFinite(elems[i])
  }

  // ---------------------------------------------------------------- the walk that names the offender

  datatype Hop = Key(key: string) | Index(i: nat)

  function Width(n: Node): nat {
    match n
    case Dict(items) => |items|
    case Array(_, elems) => |elems|
    case _ => 0
  }

  /** `_nonfinite_path`: the way to the first offender, if there is one. */
  function NonfinitePath(n: Node): Option<seq<Hop>>
    decreases n, Width(n) + 1
  {
    match n
    case Float(f) => if f.Finite? then None else Some([])
    case Text(_) => None
    case Dict(items) => FirstInDict(n, 0)
    case Array(_, elems) => FirstInArray(n, 0)
  }

  function FirstInDict(n: Node, i: nat): Option<seq<Hop>>
    requires n.Dict? && i <= |n.items|
    decreases n, |n.items| - i
  {
    if i == |n.items| then None
    else
      var hit := NonfinitePath(n.items[i].value);
      if hit.Some? then Some([Key(n.items[i].key)] + hit.value) else FirstInDict(n, i + 1)
  }

  function FirstInArray(n: Node, i: nat): Option<seq<Hop>>
    requires n.Array? && i <= |n.elems|
    decreases n, |n.elems| - i
  {
    if i == |n.elems| then None
    else
      var hit := NonfinitePath(n.elems[i]);
      if hit.Some? then Some([Index(i)] + hit.value) else FirstInArray(n, i + 1)
  }

  /** Following `path` from `n` can lead to `m`. */
  predicate Leads(n: Node, path: seq<Hop>, m: Node)
    decreases path
  {
    if path == [] then n == m
    else match path[0]
      case Key(key) =>
        n.Dict? && exists i :: 0 <= i < |n.items| && n.items[i].key == key && Leads(n.items[i].value, path[1..], m)
      case Index(i) => n.Array? && i < |n.elems| && Leads(n.elems[i], path[1..], m)
  }

  ghost predicate NamesOffender(n: Node, path: seq<Hop>) {
    exists f: FloatValue :: !f.Finite? && Leads(n, path, Float(f))
  }

  /** The walk comes back empty exactly from a tree without an offender; otherwise the path it gives leads to one. */
  lemma {:induction false} PathExact(n: Node)
    ensures NonfinitePath(n).None? <==> AllFinite(n)
    ensures NonfinitePath(n).Some? ==> NamesOffender(n, NonfinitePath(n).value)
    decreases n, Width(n) + 1
  {
    match n
    case Float(f) =>
      if !f.Finite? {
        assert Leads(n, [], Float(f));
      }
    case Text(_) =>
    case Dict(items) => DictPathExact(n, 0);
    case Array(_, elems) => ArrayPathExact(n, 0);
  }

  lemma {:induction false} DictPathExact(n: Node, i: nat)
    requires n.Dict? && i <= |n.items|
    ensures FirstInDict(n, i).None? <==> forall j :: i <= j < |n.items| ==> AllFinite(n.items[j].value)
    ensures FirstInDict(n, i).Some? ==> NamesOffender(n, FirstInDict(n, i).value)
    decreases n, |n.items| - i
  {
    if i < |n.items| {
      PathExact(n.items[i].value);
      DictPathExact(n, i + 1);
      var hit := NonfinitePath(n.items[i].value);
      if hit.Some? {
        var f: FloatValue :| !f.Finite? && Leads(n.items[i].value, hit.value, Float(f));
        var path := [Key(n.items[i].key)] + hit.value;
        assert path[1..] == hit.value;
        assert Leads(n, path, Float(f));
      }
    }
  }

  lemma {:induction false} ArrayPathExact(n: Node, i: nat)
    requires n.Array? && i <= |n.elems|
    ensures FirstInArray(n, i).None? <==> forall j :: i <= j < |n.elems| ==> AllFinite(n.elems[j])
    ensures FirstInArray(n, i).Some? ==> NamesOffender(n, FirstInArray(n, i).value)
    decreases n, |n.elems| - i
  {
    if i < |n.elems| {
      PathExact(n.elems[i]);
      ArrayPathExact(n, i + 1);
      var hit := NonfinitePath(n.elems[i]);
      if hit.Some? {
        var f: FloatValue :| !f.Finite? && Leads(n.elems[i], hit.value, Float(f));
        var path := [Index(i)] + hit.value;
        assert path[1..] == hit.value;
        assert Leads(n, path, Float(f));
      }
    }
  }

  // ---------------------------------------------------------------- load, then validate

  /** The only offenders are NaNs that stand directly under a `fill_value` key. */
  predicate OnlyNanFills(n: Node) {
    match n
    case Float(f) => f.Finite?
    case Text(_) => true
    case Dict(items) => forall i :: 0 <= i < |items| ==> IsNanFill(items[i]) || OnlyNanFills(items[i].value)
    case Array(_, elems) => forall i :: 0 <= i < |elems| ==> OnlyNanFills(elems[i])
  }

  /** A part of the tree in which the search sees no NaN fill although there is a NaN: it sits under a container that
      is itself the value of a `fill_value`. */
  predicate Overlooks(n: Node) {
    if !HasNanFill(n) then !AllFinite(n)
    else match n
      case Dict(items) => exists i :: 0 <= i < |items| && !IsNanFill(items[i]) && Overlooks(items[i].value)
      case Array(_, elems) => exists i :: 0 <= i < |elems| && Overlooks(elems[i])
      case _ => false
  }

  /** A loaded configuration passes the float check exactly when the search overlooks nothing. */
  lemma {:induction false} OverlooksExactly(n: Node)
    ensures AllFinite(Normalize(n)) <==> !Overlooks(n)
    ensures !Overlooks(n) ==> OnlyNanFills(n)
  {
    if HasNanFill(n) {
      match n
      case Dict(items) =>
        forall i | 0 <= i < |items|
          ensures AllFinite(NormalizePair(items[i]).value) <==> IsNanFill(items[i]) || !Overlooks(items[i].value)
          ensures !Overlooks(items[i].value) ==> OnlyNanFills(items[i].value)
        {
          OverlooksExactly(items[i].value);
        }
        var pairs := Normalize(n).items;
        assert |pairs| == |items| && forall i :: 0 <= i < |items| ==> pairs[i] == NormalizePair(items[i]);
      case Array(_, elems) =>
        forall i | 0 <= i < |elems|
          ensures AllFinite(Normalize(elems[i])) <==> !Overlooks(elems[i])
          ensures !Overlooks(elems[i]) ==> OnlyNanFills(elems[i])
        {
          OverlooksExactly(elems[i]);
        }
        var nodes := Normalize(n).elems;
        assert |nodes| == |elems| && forall i :: 0 <= i < |elems| ==> nodes[i] == Normalize(elems[i]);
    } else if AllFinite(n) {
      FiniteIsOnlyNanFills(n);
    }
  }

  // ---------------------------------------------------------------- the same, by positions in the input

  function Child(n: Node, i: nat): Node
    requires i < Width(n)
  {
    if n.Dict? then n.items[i].value else n.elems[i]
  }

  predicate UnderFill(n: Node, i: nat)
    requires i < Width(n)
  {
    n.Dict? && n.items[i].key == FILL
  }

  predicate IsFillChild(n: Node, i: nat)
    requires i < Width(n)
  {
    n.Dict? && IsNanFill(n.items[i])
  }

  lemma SearchByChild(n: Node)
    requires !n.Float?
    ensures HasNanFill(n) <==> exists i :: 0 <= i < Width(n) && FindsIn(n, i)
  {
    match n
    case Text(_) =>
    case Dict(items) =>
      if HasNanFill(n) {
        var i :| 0 <= i < |items| && (IsNanFill(items[i]) || (items[i].key != FILL && HasNanFill(items[i].value)));
        assert FindsIn(n, i);
      }
    case Array(_, elems) =>
      if HasNanFill(n) {
        var i :| 0 <= i < |elems| && HasNanFill(elems[i]);
        assert FindsIn(n, i);
      }
  }

  /** The recursive notions, one level down. */
  lemma ByChild(n: Node)
    requires !n.Float?
    ensures AllFinite(n) <==> forall i :: 0 <= i < Width(n) ==> AllFinite(Child(n, i))
    ensures OnlyNanFills(n) <==> forall i :: 0 <= i < Width(n) ==> IsFillChild(n, i) || OnlyNanFills(Child(n, i))
    ensures HasNanFill(n) ==>
              (Overlooks(n) <==> exists i :: 0 <= i < Width(n) && !IsFillChild(n, i) && Overlooks(Child(n, i)))
  {
    match n
    case Text(_) =>
    case Dict(items) =>
      assert forall i :: 0 <= i < |items| ==> Child(n, i) == items[i].value;
    case Array(_, elems) =>
      assert forall i :: 0 <= i < |elems| ==> Child(n, i) == elems[i];
  }

  predicate FindsIn(n: Node, i: nat)
    requires i < Width(n)
  {
    IsFillChild(n, i) || (!UnderFill(n, i) && HasNanFill(Child(n, i)))
  }

  /** A NaN fill stands where `path`, a way down by child numbers, leads. */
  predicate NanFillAt(n: Node, path: seq<nat>)
    decreases |path|
  {
    && path != [] && path[0] < Width(n)
    && if |path| == 1 then IsFillChild(n, path[0]) else NanFillAt(Child(n, path[0]), path[1..])
  }

  /** The way crosses no `fill_value` key but the last. */
  predicate InSight(n: Node, path: seq<nat>)
    requires NanFillAt(n, path)
    decreases |path|
  {
    |path| == 1 || (!UnderFill(n, path[0]) && InSight(Child(n, path[0]), path[1..]))
  }

  ghost predicate SeesFill(n: Node) {
    exists path :: NanFillAt(n, path) && InSight(n, path)
  }

  /** The container `k` steps down the way. */
  function Above(n: Node, path: seq<nat>, k: nat): Node
    requires NanFillAt(n, path) && k < |path|
    decreases k
  {
    if k == 0 then n else Above(Child(n, path[0]), path[1..], k - 1)
  }

  /** From every container above a NaN fill some NaN fill is in sight, that one or another. */
  ghost predicate EveryFillInSight(n: Node) {
    forall path, k: nat :: NanFillAt(n, path) && k < |path| ==> SeesFill(Above(n, path, k))
  }

  lemma SeesBy(n: Node, path: seq<nat>)
    requires NanFillAt(n, path) && InSight(n, path)
    ensures SeesFill(n)
  {
  }

  lemma SeesThrough(n: Node, i: nat)
    requires i < Width(n) && !UnderFill(n, i) && SeesFill(Child(n, i))
    ensures SeesFill(n)
  {
    var path :| NanFillAt(Child(n, i), path) && InSight(Child(n, i), path);
    var longer := [i] + path;
    assert longer[1..] == path;
    assert NanFillAt(n, longer) && InSight(n, longer);
  }

  /** The search finds a NaN fill exactly when one is in sight. */
  lemma {:induction false} SearchExact(n: Node)
    ensures HasNanFill(n) <==> SeesFill(n)
  {
    forall i | 0 <= i < Width(n) ensures HasNanFill(Child(n, i)) <==> SeesFill(Child(n, i)) {
      SearchExact(Child(n, i));
    }
    if n.Float? {
      return;
    }
    SearchByChild(n);
    if HasNanFill(n) {
      var i :| 0 <= i < Width(n) && FindsIn(n, i);
      if IsFillChild(n, i) {
        assert NanFillAt(n, [i]) && InSight(n, [i]);
      } else {
        SeesThrough(n, i);
      }
    }
    if SeesFill(n) {
      var path :| NanFillAt(n, path) && InSight(n, path);
      if |path| > 1 {
        SeesBy(Child(n, path[0]), path[1..]);
      }
      assert FindsIn(n, path[0]);
    }
  }

  lemma {:induction false} FiniteHasNoFill(n: Node, path: seq<nat>)
    requires AllFinite(n)
    ensures !NanFillAt(n, path)
    decreases |path|
  {
    if |path| > 1 && path[0] < Width(n) {
      FiniteHasNoFill(Child(n, path[0]), path[1..]);
    }
  }

  lemma {:induction false} SomeFill(n: Node) returns (path: seq<nat>)
    requires OnlyNanFills(n) && !AllFinite(n)
    ensures NanFillAt(n, path)
  {
    ByChild(n);
    var i :| 0 <= i < Width(n) && !AllFinite(Child(n, i));
    if IsFillChild(n, i) {
      path := [i];
    } else {
      var rest := SomeFill(Child(n, i));
      path := [i] + rest;
      assert path[1..] == rest;
    }
  }

  lemma SightSplits(n: Node)
    requires SeesFill(n)
    ensures EveryFillInSight(n) <==> forall i :: 0 <= i < Width(n) ==> EveryFillInSight(Child(n, i))
  {
    if EveryFillInSight(n) {
      forall i, path, k: nat | 0 <= i < Width(n) && NanFillAt(Child(n, i), path) && k < |path|
        ensures SeesFill(Above(Child(n, i), path, k))
      {
        var longer := [i] + path;
        assert longer[1..] == path;
        assert NanFillAt(n, longer) && Above(n, longer, k + 1) == Above(Child(n, i), path, k);
      }
    }
    if forall i :: 0 <= i < Width(n) ==> EveryFillInSight(Child(n, i)) {
      forall path, k: nat | NanFillAt(n, path) && k < |path| ensures SeesFill(Above(n, path, k)) {
        if k > 0 {
          var child, rest := Child(n, path[0]), path[1..];
          assert EveryFillInSight(child) && NanFillAt(child, rest);
          assert SeesFill(Above(child, rest, k - 1));
        }
      }
    }
  }

  lemma {:induction false} OverlooksByPosition(n: Node)
    ensures !Overlooks(n) <==> OnlyNanFills(n) && EveryFillInSight(n)
  {
    hide SeesFill, EveryFillInSight;
    SearchExact(n);
    if HasNanFill(n) {
      SightSplits(n);
      ByChild(n);
      forall i | 0 <= i < Width(n)
        ensures !Overlooks(Child(n, i)) <==> OnlyNanFills(Child(n, i)) && EveryFillInSight(Child(n, i))
      {
        OverlooksByPosition(Child(n, i));
      }
      forall i | 0 <= i < Width(n) && IsFillChild(n, i) ensures EveryFillInSight(Child(n, i)) {
        LeafInSight(Child(n, i));
      }
    } else if AllFinite(n) {
      FiniteIsOnlyNanFills(n);
      FiniteInSight(n);
    } else if OnlyNanFills(n) {
      HiddenFill(n);
    }
  }

  lemma LeafInSight(n: Node)
    requires Width(n) == 0
    ensures EveryFillInSight(n)
  {
  }

  lemma FiniteInSight(n: Node)
    requires AllFinite(n)
    ensures EveryFillInSight(n)
  {
    forall path | NanFillAt(n, path) ensures false {
      FiniteHasNoFill(n, path);
    }
  }

  lemma HiddenFill(n: Node)
    requires OnlyNanFills(n) && !AllFinite(n) && !SeesFill(n)
    ensures !EveryFillInSight(n)
  {
    var path := SomeFill(n);
    assert Above(n, path, 0) == n;
  }

  /**
   A loaded configuration passes the float check exactly when its only offenders are NaN fills and from every
   container above one of them some NaN fill can be reached without crossing a `fill_value` key. That all offenders
   are NaN fills is not enough: see `FillInFillRefused`.
   */
  lemma LoadedExactly(n: Node)
    ensures AllFinite(Normalize(n)) <==> OnlyNanFills(n) && EveryFillInSight(n)
  {
    OverlooksExactly(n);
    OverlooksByPosition(n);
  }

  lemma {:induction false} FiniteIsOnlyNanFills(n: Node)
    requires AllFinite(n)
    ensures OnlyNanFills(n)
  {
    match n
    case Float(_) =>
    case Text(_) =>
    case Dict(items) =>
      forall i | 0 <= i < |items| ensures OnlyNanFills(items[i].value) {
        FiniteIsOnlyNanFills(items[i].value);
      }
    case Array(_, elems) =>
      forall i | 0 <= i < |elems| ensures OnlyNanFills(elems[i]) {
        FiniteIsOnlyNanFills(elems[i]);
      }
  }

  /** No `fill_value` holds a container. */
  predicate FillsAreScalars(n: Node) {
    match n
    case Dict(items) =>
      forall i :: 0 <= i < |items| ==>
        FillsAreScalars(items[i].value) && (items[i].key == FILL ==> !items[i].value.Dict? && !items[i].value.Array?)
    case Array(_, elems) => forall i :: 0 <= i < |elems| ==> FillsAreScalars(elems[i])
    case _ => true
  }

  /** With scalar fills, as every declared field has, a configuration loads into strict JSON exactly when its only
      offending floats are NaN fills. */
  lemma {:induction false} ScalarFillsExactly(n: Node)
    requires FillsAreScalars(n)
    ensures AllFinite(Normalize(n)) <==> OnlyNanFills(n)
    ensures !HasNanFill(n) ==> (AllFinite(n) <==> OnlyNanFills(n))
  {
    OverlooksExactly(n);
    match n
    case Float(_) =>
    case Text(_) =>
    case Dict(items) =>
      forall i | 0 <= i < |items|
        ensures AllFinite(Normalize(items[i].value)) <==> OnlyNanFills(items[i].value)
        ensures !Overlooks(items[i].value) <==> OnlyNanFills(items[i].value)
        ensures !HasNanFill(items[i].value) ==> (AllFinite(items[i].value) <==> OnlyNanFills(items[i].value))
        ensures IsNanFill(items[i]) ==> !AllFinite(items[i].value)
      {
        ScalarFillsExactly(items[i].value);
        OverlooksExactly(items[i].value);
      }
    case Array(_, elems) =>
      forall i | 0 <= i < |elems|
        ensures AllFinite(Normalize(elems[i])) <==> OnlyNanFills(elems[i])
        ensures !Overlooks(elems[i]) <==> OnlyNanFills(elems[i])
        ensures !HasNanFill(elems[i]) ==> (AllFinite(elems[i]) <==> OnlyNanFills(elems[i]))
      {
        ScalarFillsExactly(elems[i]);
        OverlooksExactly(elems[i]);
      }
  }

  /** A NaN fill inside a fill is refused on its own and rewritten in company. */
  lemma FillInFillRefused()
    ensures var inner := Dict([Pair(FILL, Float(NaN))]);
            var alone := Dict([Pair(FILL, inner)]);
            var along := Dict([Pair(FILL, inner), Pair("other", inner)]);
            && OnlyNanFills(alone) && !AllFinite(Normalize(alone))
            && OnlyNanFills(along) && AllFinite(Normalize(along))
  {
    var inner := Dict([Pair(FILL, Float(NaN))]);
    var alone := Dict([Pair(FILL, inner)]);
    var along := Dict([Pair(FILL, inner), Pair("other", inner)]);
    assert IsNanFill(inner.items[0]);
    assert HasNanFill(inner);
    assert FILL != "other" by {
      assert FILL[0] == 'f';
    }
    assert !HasNanFill(alone);
    assert !AllFinite(inner.items[0].value);
    assert !AllFinite(alone.items[0].value);
    assert along.items[1].key != FILL && HasNanFill(along.items[1].value);
    assert HasNanFill(along);
    assert OnlyNanFills(inner);
    OverlooksExactly(alone);
    OverlooksExactly(along);
    assert !Overlooks(inner);
  }

  /** Rewriting leaves no NaN fill to be seen, and rewriting again changes nothing. */
  lemma {:induction false} NormalizeIsFinal(n: Node)
    ensures !HasNanFill(Normalize(n)) && Normalize(Normalize(n)) == Normalize(n)
  {
    if HasNanFill(n) {
      match n
      case Dict(items) =>
        forall i | 0 <= i < |items|
          ensures !IsNanFill(NormalizePair(items[i])) && !HasNanFill(NormalizePair(items[i]).value)
        {
          NormalizeIsFinal(items[i].value);
          KeepsNaN(items[i].value);
        }
      case Array(_, elems) =>
        forall i | 0 <= i < |elems| ensures !HasNanFill(Normalize(elems[i])) {
          NormalizeIsFinal(elems[i]);
        }
    }
  }

  lemma KeepsNaN(n: Node)
    ensures Normalize(n) == Float(NaN) <==> n == Float(NaN)
  {
  }
}
