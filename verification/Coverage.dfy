/** Rebuilding a store's root coverage from a walk of its tree, and noticing that it lags. */
module Coverage {
  import opened Prelude
  import opened DecimalIds
  import opened Sorting

  // ---------------------------------------------------------------- the tree

  /** What reading a leaf's temporal companion yields. */
  datatype Reading = Fails | Nothing | Got(word: int)

  /** One child of a node, as LIST names it. `stamp` and the rest are what opening it as a zarr finds: its commit
      stamp (with the time range that may be in it), a role attribute, its temporal companion. */
  datatype Entry = Entry(name: string, stamp: Option<Option<(int, int)>>, hasRole: bool, reading: Reading,
                         below: seq<Entry>)

  datatype Leaf = Leaf(id: string, timeRange: Option<(int, int)>, reading: Reading)

  predicate IsZarr(name: string) {
    EndsWith(name, ZARR)
  }

  /** A node the walk descends into; `path` is the node above, empty at the store root. */
  predicate IsDigitNode(path: seq<string>, name: string) {
    if path == [] then IsBaseComponent(name) else |name| == 1 && In(name[0], '1', '4')
  }

  /** The role attribute is looked at off the leaf depth, and for columns. */
  predicate SkippedAsDerived(path: seq<string>, e: Entry, order: int) {
    (|path| - 1 != order || EndsWith(e.name, COLUMN_SUFFIX)) && e.hasRole
  }

  predicate Conforming(name: string, order: int)
    requires IsZarr(name)
  {
    LeafId(name).Some? && IsDecimalId(LeafId(name).value) && OrderOf(LeafId(name).value) == order
  }

  /** A child the walk lists: a stamped source leaf with a well-formed id of the store's order. */
  predicate Listed(path: seq<string>, e: Entry, order: int) {
    IsZarr(e.name) && e.stamp.Some? && !SkippedAsDerived(path, e, order) && Conforming(e.name, order)
  }

  function LeafOf(e: Entry): Leaf
    requires IsZarr(e.name) && e.stamp.Some? && LeafId(e.name).Some?
  {
    Leaf(LeafId(e.name).value, e.stamp.value, e.reading)
  }

  /** Every leaf to be listed below `path`. */
  function LeavesIn(path: seq<string>, entries: seq<Entry>, order: int): multiset<Leaf>
    decreases entries
  {
    if entries == [] then multiset{}
    else LeavesIn(path, entries[..|entries| - 1], order) + LeavesOf(path, entries[|entries| - 1], order)
  }

  function LeavesOf(path: seq<string>, e: Entry, order: int): multiset<Leaf>
    decreases e
  {
    if IsZarr(e.name) then if Listed(path, e, order) then multiset{LeafOf(e)} else multiset{}
    else if IsDigitNode(path, e.name) then LeavesIn(path + [e.name], e.below, order)
    else multiset{}
  }

  /** The digit nodes strictly below `path`. */
  function NodesIn(path: seq<string>, entries: seq<Entry>): multiset<seq<string>>
    decreases entries
  {
    if entries == [] then multiset{}
    else NodesIn(path, entries[..|entries| - 1]) + NodesOf(path, entries[|entries| - 1])
  }

  function NodesOf(path: seq<string>, e: Entry): multiset<seq<string>>
    decreases e
  {
    if !IsZarr(e.name) && IsDigitNode(path, e.name)
    then multiset{path + [e.name]} + NodesIn(path + [e.name], e.below)
    else multiset{}
  }

  function Size(entries: seq<Entry>): nat
    decreases entries
  {
    if entries == [] then 0 else Size(entries[..|entries| - 1]) + 1 + Size(entries[|entries| - 1].below)
  }

  // ---------------------------------------------------------------- the walk

  type Node = (seq<string>, seq<Entry>)

  function PendingLeaves(stack: seq<Node>, order: int): multiset<Leaf> {
    if stack == [] then multiset{}
    else PendingLeaves(stack[..|stack| - 1], order) + LeavesIn(stack[|stack| - 1].0, stack[|stack| - 1].1, order)
  }

  function PendingNodes(stack: seq<Node>): multiset<seq<string>> {
    if stack == [] then multiset{}
    else
      PendingNodes(stack[..|stack| - 1]) + multiset{stack[|stack| - 1].0}
      + NodesIn(stack[|stack| - 1].0, stack[|stack| - 1].1)
  }

  function Work(stack: seq<Node>): nat {
    if stack == [] then 0 else Work(stack[..|stack| - 1]) + 1 + Size(stack[|stack| - 1].1)
  }

  lemma Push(stack: seq<Node>, node: Node, order: int)
    ensures PendingLeaves(stack + [node], order) == PendingLeaves(stack, order) + LeavesIn(node.0, node.1, order)
    ensures PendingNodes(stack + [node]) == PendingNodes(stack) + multiset{node.0} + NodesIn(node.0, node.1)
    ensures Work(stack + [node]) == Work(stack) + 1 + Size(node.1)
  {
    assert (stack + [node])[..|stack|] == stack;
  }

  function Ids(leaves: seq<Leaf>): (r: seq<string>)
    ensures |r| == |leaves|
  {
    seq(|leaves|, i requires 0 <= i < |leaves| => leaves[i].id)
  }

  function TimeRanges(leaves: seq<Leaf>): (r: seq<Option<(int, int)>>)
    ensures |r| == |leaves|
  {
    seq(|leaves|, i requires 0 <= i < |leaves| => leaves[i].timeRange)
  }

  predicate AnyFails(leaves: seq<Leaf>, id: string) {
    exists i :: 0 <= i < |leaves| && leaves[i].id == id && leaves[i].reading.Fails?
  }

  /** What the readable leaves of one shard contribute. */
  function Words(leaves: seq<Leaf>, id: string): seq<int> {
    if leaves == [] then []
    else
      var leaf := leaves[|leaves| - 1];
      Words(leaves[..|leaves| - 1], id) + if leaf.id == id && leaf.reading.Got? then [leaf.reading.word] else []
  }

  /** The temporal bookkeeping after these leaves: a shard is failed once any of its leaves failed, and only shards
      without a failure contribute, every one of their readable leaves. */
  ghost predicate Booked(leaves: seq<Leaf>, contributions: map<string, seq<int>>, failed: set<string>) {
    && (forall id :: id in failed <==> AnyFails(leaves, id))
    && (forall id :: id in contributions <==> !AnyFails(leaves, id) && Words(leaves, id) != [])
    && (forall id :: id in contributions ==> contributions[id] == Words(leaves, id))
  }

  lemma BookSnoc(leaves: seq<Leaf>, leaf: Leaf, id: string)
    ensures AnyFails(leaves + [leaf], id) <==> AnyFails(leaves, id) || (leaf.id == id && leaf.reading.Fails?)
    ensures Words(leaves + [leaf], id)
            == Words(leaves, id) + if leaf.id == id && leaf.reading.Got? then [leaf.reading.word] else []
  {
    var longer := leaves + [leaf];
    assert longer[..|leaves|] == leaves;
    assert longer[|leaves|] == leaf;
    assert forall i :: 0 <= i < |leaves| ==> longer[i] == leaves[i];
  }

  method Book(leaf: Leaf, contributions: map<string, seq<int>>, failed: set<string>, ghost leaves: seq<Leaf>)
    returns (contributions': map<string, seq<int>>, failed': set<string>)
    requires Booked(leaves, contributions, failed)
    ensures Booked(leaves + [leaf], contributions', failed')
  {
    hide AnyFails, Words;
    contributions', failed' := contributions, failed;
    assert leaf.id in failed <==> AnyFails(leaves, leaf.id);
    if leaf.id !in failed {
      match leaf.reading
      case Fails =>
        failed' := failed + {leaf.id};
        contributions' := contributions - {leaf.id};
      case Nothing =>
      case Got(word) =>
        var sofar := if leaf.id in contributions then contributions[leaf.id] else [];
        contributions' := contributions[leaf.id := sofar + [word]];
    }
    forall id
      ensures AnyFails(leaves + [leaf], id) <==> AnyFails(leaves, id) || (leaf.id == id && leaf.reading.Fails?)
      ensures Words(leaves + [leaf], id)
              == Words(leaves, id) + if leaf.id == id && leaf.reading.Got? then [leaf.reading.word] else []
    {
      BookSnoc(leaves, leaf, id);
    }
  }

  /** What the walk brings home. */
  datatype Harvest = Harvest(ids: seq<string>, timeRanges: seq<Option<(int, int)>>,
                             contributions: map<string, seq<int>>, failed: set<string>)

  ghost predicate Gathered(h: Harvest, leaves: seq<Leaf>, temporal: bool) {
    && h.ids == Ids(leaves) && h.timeRanges == TimeRanges(leaves)
    && if temporal then Booked(leaves, h.contributions, h.failed) else h.contributions == map[] && h.failed == {}
  }

  /** A `.zarr` child: read its stamp, and keep it or pass it over. */
  method Visit(path: seq<string>, e: Entry, order: int, temporal: bool, h: Harvest, ghost leaves: seq<Leaf>)
    returns (h': Harvest, ghost leaves': seq<Leaf>)
    requires IsZarr(e.name) && Gathered(h, leaves, temporal)
    ensures Gathered(h', leaves', temporal)
    ensures multiset(leaves') == multiset(leaves) + LeavesOf(path, e, order)
  {
    hide Booked, IsDecimalId, IsBaseComponent;
    h', leaves' := h, leaves;
    if e.stamp.None? {
      return;
    }
    if (|path| - 1 != order || EndsWith(e.name, COLUMN_SUFFIX)) && e.hasRole {
      return;
    }
    var id := LeafId(e.name);
    if id.None? {
      return;
    }
    if !IsDecimalId(id.value) || OrderOf(id.value) != order {
      return;
    }
    var leaf := LeafOf(e);
    leaves' := leaves + [leaf];
    h' := h'.(ids := h.ids + [id.value], timeRanges := h.timeRanges + [e.stamp.value]);
    if temporal {
      var contributions, failed := Book(leaf, h.contributions, h.failed, leaves);
      h' := h'.(contributions := contributions, failed := failed);
    }
  }

  /** One LIST: leaves are taken in, digit nodes go onto the stack. */
  method ScanNode(node: Node, stack: seq<Node>, order: int, temporal: bool, h: Harvest, ghost leaves: seq<Leaf>)
    returns (stack': seq<Node>, h': Harvest, ghost leaves': seq<Leaf>)
    requires Gathered(h, leaves, temporal)
    ensures Gathered(h', leaves', temporal)
    ensures multiset(leaves') + PendingLeaves(stack', order)
            == multiset(leaves) + PendingLeaves(stack, order) + LeavesIn(node.0, node.1, order)
    ensures PendingNodes(stack') == PendingNodes(stack) + NodesIn(node.0, node.1)
    ensures Work(stack') <= Work(stack) + Size(node.1)
  {
    hide Gathered, Listed, IsDigitNode, IsZarr, LeavesIn, NodesIn, Size, PendingLeaves, PendingNodes, Work;
    Unseen(node.0, order);
    var (path, entries) := node;
    stack', h', leaves' := stack, h, leaves;
    for i := 0 to |entries|
      invariant Gathered(h', leaves', temporal)
      invariant multiset(leaves') + PendingLeaves(stack', order)
                == multiset(leaves) + PendingLeaves(stack, order) + LeavesIn(path, entries[..i], order)
      invariant PendingNodes(stack') == PendingNodes(stack) + NodesIn(path, entries[..i])
      invariant Work(stack') <= Work(stack) + Size(entries[..i])
    {
      var e := entries[i];
      assert entries[..i + 1] == entries[..i] + [e];
      OneMore(path, entries[..i], e, order);
      ghost var before := multiset(leaves') + PendingLeaves(stack', order);
      if IsZarr(e.name) {
        h', leaves' := Visit(path, e, order, temporal, h', leaves');
      } else if IsDigitNode(path, e.name) {
        Push(stack', (path + [e.name], e.below), order);
        stack' := stack' + [(path + [e.name], e.below)];
      }
      assert multiset(leaves') + PendingLeaves(stack', order) == before + LeavesOf(path, e, order);
    }
    assert entries[..|entries|] == entries;
  }

  lemma Unseen(path: seq<string>, order: int)
    ensures LeavesIn(path, [], order) == multiset{} && NodesIn(path, []) == multiset{} && Size([]) == 0
  {
  }

  lemma OneMore(path: seq<string>, seen: seq<Entry>, e: Entry, order: int)
    ensures LeavesIn(path, seen + [e], order) == LeavesIn(path, seen, order) + LeavesOf(path, e, order)
    ensures NodesIn(path, seen + [e]) == NodesIn(path, seen) + NodesOf(path, e)
    ensures Size(seen + [e]) == Size(seen) + 1 + Size(e.below)
  {
    assert (seen + [e])[..|seen|] == seen;
  }

  /**
   The worklist walk, one LIST per digit node. Whatever the shape of the tree and the order of the listings, it ends,
   lists every digit node below the root exactly as often as it is there, and takes in exactly the leaves to be
   listed, each once.
   */
  method Walk(root: seq<Entry>, order: int, temporal: bool)
    returns (h: Harvest, visited: seq<seq<string>>, ghost leaves: seq<Leaf>)
    ensures multiset(visited) == multiset{[]} + NodesIn([], root)
    ensures Gathered(h, leaves, temporal) && multiset(leaves) == LeavesIn([], root, order)
  {
    hide LeavesIn, NodesIn, PendingLeaves, PendingNodes, Work, Gathered, Size;
    var stack: seq<Node> := [([], root)];
    assert stack == [] + [([], root)];
    Push([], ([], root), order);
    NothingPending(order, temporal);
    h, visited, leaves := Harvest([], [], map[], {}), [], [];
    while stack != []
      invariant Gathered(h, leaves, temporal)
      invariant multiset(leaves) + PendingLeaves(stack, order) == LeavesIn([], root, order)
      invariant multiset(visited) + PendingNodes(stack) == multiset{[]} + NodesIn([], root)
      decreases Work(stack)
    {
      var node, rest := stack[|stack| - 1], stack[..|stack| - 1];
      assert stack == rest + [node];
      Push(rest, node, order);
      visited := visited + [node.0];
      stack, h, leaves := ScanNode(node, rest, order, temporal, h, leaves);
    }
  }

  lemma NothingPending(order: int, temporal: bool)
    ensures PendingLeaves([], order) == multiset{} && PendingNodes([]) == multiset{} && Work([]) == 0
    ensures Gathered(Harvest([], [], map[], {}), [], temporal)
  {
  }

  // ---------------------------------------------------------------- once each

  /** LIST never names two children of one node alike. */
  predicate DistinctNames(entries: seq<Entry>)
    decreases entries
  {
    && (forall i, j :: 0 <= i < j < |entries| ==> entries[i].name != entries[j].name)
    && forall i :: 0 <= i < |entries| ==> DistinctNames(entries[i].below)
  }

  lemma {:induction false} NodesOnce(path: seq<string>, entries: seq<Entry>, p: seq<string>)
    requires DistinctNames(entries)
    ensures NodesIn(path, entries)[p] <= 1
    ensures p in NodesIn(path, entries) ==>
              |p| > |path| && p[..|path|] == path && exists i :: 0 <= i < |entries| && p[|path|] == entries[i].name
    decreases entries
  {
    hide IsZarr, IsDigitNode;
    if entries != [] {
      var n := |entries| - 1;
      var init, e := entries[..n], entries[n];
      assert DistinctNames(init);
      NodesOnce(path, init, p);
      NodesOnce(path + [e.name], e.below, p);
      var child := path + [e.name];
      if p in NodesIn(child, e.below) {
        assert p[..|child|][..|path|] == path && p[..|child|][|path|] == e.name;
      }
      if p in NodesIn(path, init) {
        var i :| 0 <= i < |init| && p[|path|] == init[i].name;
        assert init[i] == entries[i];
      }
    }
  }

  /** No digit node is listed twice. */
  lemma VisitsOnce(root: seq<Entry>, visited: seq<seq<string>>, p: seq<string>)
    requires DistinctNames(root) && multiset(visited) == multiset{[]} + NodesIn([], root)
    ensures multiset(visited)[p] <= 1
  {
    NodesOnce([], root, p);
  }

  // ---------------------------------------------------------------- the depth gate

  /** The role attribute, wherever the child sits, is what tells a derived artifact from source data. */
  predicate Source(e: Entry, order: int) {
    IsZarr(e.name) && e.stamp.Some? && !e.hasRole && Conforming(e.name, order)
  }

  /** A derived artifact that the gate lets through: at the leaf depth, no column, under a well-formed id of the store's
      order. */
  predicate Slips(path: seq<string>, e: Entry, order: int) {
    && IsZarr(e.name) && e.stamp.Some? && e.hasRole && Conforming(e.name, order)
    && |path| - 1 == order && !EndsWith(e.name, COLUMN_SUFFIX)
  }

  /** The source leaves below `path`, and the derived artifacts that slip through. */
  function SourcesIn(path: seq<string>, entries: seq<Entry>, order: int): (multiset<Leaf>, multiset<Leaf>)
    decreases entries
  {
    if entries == [] then (multiset{}, multiset{})
    else
      var a, b := SourcesIn(path, entries[..|entries| - 1], order), SourcesOf(path, entries[|entries| - 1], order);
      (a.0 + b.0, a.1 + b.1)
  }

  function SourcesOf(path: seq<string>, e: Entry, order: int): (multiset<Leaf>, multiset<Leaf>)
    decreases e
  {
    if IsZarr(e.name) then
      (if Source(e, order) then multiset{LeafOf(e)} else multiset{},
       if Slips(path, e, order) then multiset{LeafOf(e)} else multiset{})
    else if IsDigitNode(path, e.name) then SourcesIn(path + [e.name], e.below, order)
    else (multiset{}, multiset{})
  }

  /** The walk lists the source leaves and, besides, what slips through. */
  lemma {:induction false} WalkedIsSourceAndSlipped(path: seq<string>, entries: seq<Entry>, order: int)
    ensures var (source, slipped) := SourcesIn(path, entries, order); LeavesIn(path, entries, order) == source + slipped
    decreases entries
  {
    hide IsZarr, IsDigitNode, Conforming, EndsWith;
    if entries != [] {
      var init, e := entries[..|entries| - 1], entries[|entries| - 1];
      WalkedIsSourceAndSlipped(path, init, order);
      WalkedIsSourceAndSlipped(path + [e.name], e.below, order);
      GateExact(path, e, order);
    }
  }

  lemma GateExact(path: seq<string>, e: Entry, order: int)
    ensures Listed(path, e, order) <==> Source(e, order) || Slips(path, e, order)
    ensures !(Source(e, order) && Slips(path, e, order))
  {
  }

  /** Following `way`, entry by entry through digit nodes, leads to an artifact that slips through. */
  predicate SlipsAt(path: seq<string>, entries: seq<Entry>, way: seq<nat>, order: int)
    decreases |way|
  {
    && way != [] && way[0] < |entries|
    && var e := entries[way[0]];
       if |way| == 1 then Slips(path, e, order)
       else !IsZarr(e.name) && IsDigitNode(path, e.name) && SlipsAt(path + [e.name], e.below, way[1..], order)
  }

  lemma {:induction false} SlippedReached(path: seq<string>, entries: seq<Entry>, order: int) returns (way: seq<nat>)
    requires SourcesIn(path, entries, order).1 != multiset{}
    ensures SlipsAt(path, entries, way, order)
    decreases entries
  {
    hide IsZarr, IsDigitNode, Conforming, EndsWith;
    var n := |entries| - 1;
    if SourcesIn(path, entries[..n], order).1 != multiset{} {
      way := SlippedReached(path, entries[..n], order);
    } else if IsZarr(entries[n].name) {
      way := [n];
    } else {
      var rest := SlippedReached(path + [entries[n].name], entries[n].below, order);
      way := [n] + rest;
      assert way[1..] == rest;
    }
  }

  lemma {:induction false} ReachedIsSlipped(path: seq<string>, entries: seq<Entry>, way: seq<nat>, order: int)
    requires SlipsAt(path, entries, way, order)
    ensures SourcesIn(path, entries, order).1 != multiset{}
    decreases |way|, |entries|
  {
    hide IsZarr, IsDigitNode, Conforming, EndsWith;
    var n := |entries| - 1;
    if way[0] < n {
      ReachedIsSlipped(path, entries[..n], way, order);
    } else if |way| > 1 {
      ReachedIsSlipped(path + [entries[n].name], entries[n].below, way[1..], order);
    }
  }

  /** Looking at the role only off the leaf depth, or for columns, loses nothing over a whole tree exactly as long as no
      other derived artifact that the walk reaches at the leaf depth wears a well-formed id of the store's order. */
  lemma DepthGateExactly(tree: seq<Entry>, order: int)
    ensures LeavesIn([], tree, order) == SourcesIn([], tree, order).0 <==>
              forall way :: !SlipsAt([], tree, way, order)
  {
    WalkedIsSourceAndSlipped([], tree, order);
    var (source, slipped) := SourcesIn([], tree, order);
    if slipped != multiset{} {
      var way := SlippedReached([], tree, order);
      MultisetGrows(source, slipped);
    }
    forall way | SlipsAt([], tree, way, order) ensures slipped != multiset{} {
      ReachedIsSlipped([], tree, way, order);
    }
  }

  /** An overview of the store's only shard, under the name of a leaf: it is listed. */
  lemma OverviewListed()
    ensures var tree := [Entry("1", None, false, Nothing, [Entry("1.zarr", Some(None), true, Nothing, [])])];
            LeavesIn([], tree, 0) == multiset{Leaf("1", None, Nothing)} && SourcesIn([], tree, 0).0 == multiset{}
  {
    var overview := Entry("1.zarr", Some(None), true, Nothing, []);
    var tree := [Entry("1", None, false, Nothing, [overview])];
    assert EndsWith(overview.name, ZARR) && !EndsWith("1", ZARR) && !EndsWith(overview.name, COLUMN_SUFFIX);
    assert overview.name[..1] == "1" && LeafId(overview.name) == Some("1") by {
      assert FirstUnderscore("1") == 1;
    }
    assert Conforming(overview.name, 0);
    assert [overview][..0] == [] && tree[..0] == [];
    assert Listed(["1"], overview, 0) && !Source(overview, 0);
    assert LeavesIn(["1"], [overview], 0) == multiset{LeafOf(overview)};
    assert SourcesIn(["1"], [overview], 0).0 == multiset{};
    assert [] + ["1"] == ["1"];
  }

  lemma MultisetGrows(a: multiset<Leaf>, b: multiset<Leaf>)
    requires b != multiset{}
    ensures a + b != a
  {
    var x :| x in b;
    assert (a + b)[x] > a[x];
  }

  // ---------------------------------------------------------------- the bookkeeping does not depend on the order

  lemma {:induction false} WordsAppend(a: seq<Leaf>, b: seq<Leaf>, id: string)
    ensures Words(a + b, id) == Words(a, id) + Words(b, id)
  {
    if b == [] {
      assert a + b == a;
    } else {
      assert (a + b)[..|a + b| - 1] == a + b[..|b| - 1];
      WordsAppend(a, b[..|b| - 1], id);
    }
  }

  /** Pulling one leaf out. */
  lemma WordsWithout(s: seq<Leaf>, k: nat, id: string)
    requires k < |s|
    ensures multiset(Words(s, id)) == multiset(Words(Without(s, k), id)) + multiset(Words([s[k]], id))
  {
    var x, y, z := Words(s[..k], id), Words([s[k]], id), Words(s[k + 1..], id);
    assert s == s[..k] + [s[k]] + s[k + 1..];
    WordsAppend(s[..k] + [s[k]], s[k + 1..], id);
    WordsAppend(s[..k], [s[k]], id);
    WordsAppend(s[..k], s[k + 1..], id);
    hide Words;
    assert multiset(x + y + z) == multiset(x) + multiset(y) + multiset(z);
  }

  lemma {:induction false} WordsPermute(a: seq<Leaf>, b: seq<Leaf>, id: string)
    requires multiset(a) == multiset(b)
    ensures multiset(Words(a, id)) == multiset(Words(b, id))
    decreases |a|
  {
    hide Words, Without;
    if a == [] {
      assert |multiset(b)| == |b|;
    } else {
      var k := IndexIn(b, a, a[0]);
      WithoutExact(a, 0);
      WithoutExact(b, k);
      WordsWithout(a, 0, id);
      WordsWithout(b, k, id);
      WordsPermute(Without(a, 0), Without(b, k), id);
    }
  }

  /** The order of the listings decides nothing about the temporal section: which shards failed, which contribute and
      what they contribute are the same for every walk of one tree, although leaves of a shard already known to
      fail are no longer read. */
  lemma HarvestDetermined(a: seq<Leaf>, b: seq<Leaf>, h: Harvest, g: Harvest)
    requires multiset(a) == multiset(b) && Gathered(h, a, true) && Gathered(g, b, true)
    ensures h.failed == g.failed && h.contributions.Keys == g.contributions.Keys && h.contributions.Keys !! h.failed
    ensures forall id :: id in h.contributions ==> multiset(h.contributions[id]) == multiset(g.contributions[id])
  {
    hide Words, AnyFails;
    forall id
      ensures multiset(Words(a, id)) == multiset(Words(b, id)) && (Words(a, id) == [] <==> Words(b, id) == [])
      ensures AnyFails(a, id) <==> AnyFails(b, id)
    {
      WordsPermute(a, b, id);
      assert |multiset(Words(a, id))| == |Words(a, id)| && |multiset(Words(b, id))| == |Words(b, id)|;
      FailsPermute(a, b, id);
      FailsPermute(b, a, id);
    }
  }

  lemma FailsPermute(a: seq<Leaf>, b: seq<Leaf>, id: string)
    requires multiset(a) == multiset(b)
    ensures AnyFails(a, id) ==> AnyFails(b, id)
  {
    if !AnyFails(a, id) {
      return;
    }
    var i :| 0 <= i < |a| && a[i].id == id && a[i].reading.Fails?;
    assert a[i] in multiset(b);
    var j :| 0 <= j < |b| && b[j] == a[i];
  }
}
