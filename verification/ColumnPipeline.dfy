/** From the leaf writer's staged arrays to the groups of a column: which resolutions, which slabs, which folds. */
module ColumnPipeline {
  import opened Prelude
  import opened Bytes
  import opened Chunks
  import opened ColumnFold
  import opened DenseFold

  // ---------------------------------------------------------------- resolutions

  /** One declared level: the node order it hangs from and the cell orders it materializes. */
  datatype Level = Level(node: int, cells: seq<int>)

  /** Insertion into a strictly descending list. */
  function Place(x: int, s: seq<int>): seq<int> {
    if s == [] || x > s[0] then [x] + s
    else if x == s[0] then s
    else [s[0]] + Place(x, s[1..])
  }

  function PlaceFrom(orders: seq<int>, floor: int): seq<int> {
    if orders == [] then []
    else
      var rest := PlaceFrom(orders[1..], floor);
      if orders[0] >= floor then Place(orders[0], rest) else rest
  }

  function DeclaredCells(levels: seq<Level>): seq<int> {
    if levels == [] then [] else levels[0].cells + DeclaredCells(levels[1..])
  }

  function ColumnResolutions(levels: seq<Level>, node: int): seq<int> {
    if forall i :: 0 <= i < |levels| ==> levels[i].node != node then []
    else Place(node, PlaceFrom(DeclaredCells(levels), node))
  }

  predicate Descending(s: seq<int>) {
    forall i, j :: 0 <= i < j < |s| ==> s[i] > s[j]
  }

  lemma {:induction false} PlaceBelow(x: int, s: seq<int>, top: int)
    requires x < top && forall i :: 0 <= i < |s| ==> s[i] < top
    ensures forall i :: 0 <= i < |Place(x, s)| ==> Place(x, s)[i] < top
  {
    if s != [] && x < s[0] {
      PlaceBelow(x, s[1..], top);
    }
  }

  lemma {:induction false} PlaceExact(x: int, s: seq<int>)
    requires Descending(s)
    ensures Descending(Place(x, s))
    ensures forall y :: y in Place(x, s) <==> y == x || y in s
  {
    if s != [] && x < s[0] {
      PlaceExact(x, s[1..]);
      PlaceBelow(x, s[1..], s[0]);
      assert s == [s[0]] + s[1..];
    }
  }

  lemma {:induction false} PlaceFromExact(orders: seq<int>, floor: int)
    ensures Descending(PlaceFrom(orders, floor))
    ensures forall y :: y in PlaceFrom(orders, floor) <==> y >= floor && y in orders
  {
    if orders != [] {
      PlaceFromExact(orders[1..], floor);
      PlaceExact(orders[0], PlaceFrom(orders[1..], floor));
    }
  }

  lemma {:induction false} DeclaredExact(levels: seq<Level>, y: int)
    ensures y in DeclaredCells(levels) <==> exists i :: 0 <= i < |levels| && y in levels[i].cells
  {
    if levels != [] {
      DeclaredExact(levels[1..], y);
      assert forall i :: 0 < i < |levels| ==> levels[1..][i - 1] == levels[i];
    }
  }

  /** A leaf-node column carries, finest first and without repetition, every declared order that fits in the leaf,
      and always ends in the node order; with no declaration at the node there is no column. */
  lemma ResolutionsExact(levels: seq<Level>, node: int)
    ensures var r := ColumnResolutions(levels, node);
            && Descending(r)
            && (r == [] <==> forall i :: 0 <= i < |levels| ==> levels[i].node != node)
            && (r != [] ==>
                  && r[|r| - 1] == node
                  && forall y ::
                       y in r <==> y == node || (y >= node && exists i :: 0 <= i < |levels| && y in levels[i].cells))
  {
    var cells := DeclaredCells(levels);
    PlaceFromExact(cells, node);
    PlaceExact(node, PlaceFrom(cells, node));
    forall y ensures y in cells <==> exists i :: 0 <= i < |levels| && y in levels[i].cells {
      DeclaredExact(levels, y);
    }
    var r := ColumnResolutions(levels, node);
    if r != [] {
      assert node in r;
      var k :| 0 <= k < |r| && r[k] == node;
      assert r[|r| - 1] in r;
    }
  }

  // ---------------------------------------------------------------- fields and slabs

  /** The number types a slab can have. */
  type Scalar = d: Dtype | d.Ok() witness Floating

  /** A declared field: `law == None` is a law no reducer is known for, `of == ""` an absent linkage. Composition words
      are 64-bit. */
  datatype Meta =
    | Exact(law: Option<Law>, dtype: Scalar, fill: Fill)
    | Packed(of: string, fill: Fill)
    | Approximate(located: bool, timed: bool)
    | Uncomposable

  type Fields = seq<(string, Meta)>

  predicate Composable(meta: Meta) {
    match meta
    case Exact(_, _, _) => true
    case Packed(of, _) => of != ""
    case Approximate(_, _) => true
    case Uncomposable => false
  }

  /** The composable fields, in declaration order. */
  function ComposableFields(fields: Fields): (r: Fields)
    ensures forall field :: field in r <==> field in fields && Composable(field.1)
  {
    if fields == [] then []
    else
      var field := fields[|fields| - 1];
      ComposableFields(fields[..|fields| - 1]) + if Composable(field.1) then [field] else []
  }

  const LOCATIONS: string := "_locations"
  const TIMES: string := "_times"

  /** The companion arrays of a field, in the order the merge returns them. */
  function Companions(name: string, meta: Meta): (r: seq<string>)
    ensures |r| <= 2
  {
    if !meta.Approximate? then []
    else (if meta.located then [name + LOCATIONS] else []) + (if meta.timed then [name + TIMES] else [])
  }

  function ArrayNames(name: string, meta: Meta): set<string> {
    {name} + set c | c in Companions(name, meta)
  }

  /** A field's arrays have names of their own. */
  lemma CompanionsDistinct(name: string, meta: Meta)
    ensures name !in Companions(name, meta)
    ensures forall b, c :: 0 <= b < c < |Companions(name, meta)| ==>
            Companions(name, meta)[b] != Companions(name, meta)[c]
  {
    assert |name + LOCATIONS| == |name| + 10 && |name + TIMES| == |name| + 6;
  }

  datatype Slab =
    | Numbers(dtype: Scalar, cells: seq<Cell>)
    | Codes(codes: seq<nat>)
    | Digests(digests: seq<Digest>)
    | WordLists(words: seq<Words>)
  {
    function Extent(): nat {
      match this
      case Numbers(_, s) => |s|
      case Codes(s) => |s|
      case Digests(s) => |s|
      case WordLists(s) => |s|
    }
  }

  type Slabs = map<string, Slab>

  datatype Kernels = Kernels(digests: MergeKernel, codes: PackedKernel)

  predicate SameExtent(slabs: Slabs, n: nat) {
    forall key :: key in slabs ==> slabs[key].Extent() == n
  }

  predicate HasChannels(slabs: Slabs, siblings: seq<string>) {
    forall c :: 0 <= c < |siblings| ==> siblings[c] in slabs && slabs[siblings[c]].WordLists?
  }

  function Channels(slabs: Slabs, siblings: seq<string>): (r: seq<seq<Words>>)
    requires HasChannels(slabs, siblings)
    ensures |r| == |siblings|
  {
    seq(|siblings|, c requires 0 <= c < |siblings| => slabs[siblings[c]].words)
  }

  const WORD: Scalar := Integer(0, 0x1_0000_0000_0000_0000)

  /** The fill word of a packed field, if its fill reads as one. */
  function FillWord(fill: Fill): Option<nat> {
    var cell := FillCell(fill, WORD);
    if cell.None? then None else Some(cell.value.value.Floor)
  }

  /** The fold of one field meets no raise, the divisibility of the extent aside. */
  predicate Foldable(slabs: Slabs, n: nat, name: string, meta: Meta)
    requires SameExtent(slabs, n)
  {
    name in slabs &&
    match meta
    case Exact(law, _, fill) =>
      law.Some? && slabs[name].Numbers? && FillCell(fill, slabs[name].dtype).Some?
    case Packed(of, fill) => slabs[name].Codes? && of in slabs && slabs[of].Digests? && FillWord(fill).Some?
    case Approximate(_, _) =>
      slabs[name].Digests? && HasChannels(slabs, Companions(name, meta))
      && RowsAligned(slabs[name].digests, Channels(slabs, Companions(name, meta)))
    case Uncomposable => false
  }

  // ---------------------------------------------------------------- one field of one group

  /** The digests of a field folded `f` to one, each with its companion words. */
  ghost function FoldedCells(k: Kernels, slabs: Slabs, n: nat, f: nat, name: string, meta: Meta): (r: seq<Merged>)
    requires SameExtent(slabs, n * f) && meta.Approximate? && Foldable(slabs, n * f, name, meta) && Lawful(k.digests)
    ensures |r| == n && forall j :: 0 <= j < n ==> |r[j].words| == |Companions(name, meta)|
  {
    var slab, channels := slabs[name].digests, Channels(slabs, Companions(name, meta));
    CellsFold(k.digests, slab, channels, n, f);
    seq(n, j requires 0 <= j < n => FoldedCell(k.digests, slab, channels, n, f, j).value)
  }

  lemma CellsFold(merge: MergeKernel, slab: seq<Digest>, channels: seq<seq<Words>>, n: nat, f: nat)
    requires |slab| == n * f && Shaped(slab, channels) && Lawful(merge) && RowsAligned(slab, channels)
    ensures forall j :: 0 <= j < n ==> FoldedCell(merge, slab, channels, n, f, j).Some?
                                       && |FoldedCell(merge, slab, channels, n, f, j).value.words| == |channels|
  {
    GroupFoldsExactly(merge, slab, channels, n, f);
    forall j | 0 <= j < n ensures |FoldedCell(merge, slab, channels, n, f, j).value.words| == |channels| {
      FoldedCellWidth(merge, slab, channels, n, f, j);
    }
  }

  /** The array `key` that a field contributes to the group folding `f` cells to one. */
  ghost function FieldArray(k: Kernels, slabs: Slabs, n: nat, f: nat, name: string, meta: Meta, key: string): Slab
    requires SameExtent(slabs, n * f) && Foldable(slabs, n * f, name, meta) && Lawful(k.digests)
    requires key in ArrayNames(name, meta)
  {
    match meta
    case Exact(law, _, fill) =>
      var dtype := slabs[name].dtype;
      Numbers(dtype, FoldDense(law.value, dtype, FillCell(fill, dtype).value, slabs[name].cells, n, f))
    case Packed(of, fill) =>
      Codes(seq(n, j requires 0 <= j < n =>
        FoldedCode(k.codes, FillWord(fill).value, slabs[name].codes, slabs[of].digests, n, f, j)))
    case Approximate(_, _) =>
      var cells := FoldedCells(k, slabs, n, f, name, meta);
      if key == name then Digests(Payloads(cells))
      else WordLists(Channel(cells, if key == Companions(name, meta)[0] then 0 else 1))
  }

  ghost function FieldGroup(k: Kernels, slabs: Slabs, n: nat, f: nat, name: string, meta: Meta): Slabs
    requires SameExtent(slabs, n * f) && Foldable(slabs, n * f, name, meta) && Lawful(k.digests)
  {
    map key | key in ArrayNames(name, meta) :: FieldArray(k, slabs, n, f, name, meta, key)
  }

  function Payloads(cells: seq<Merged>): (r: seq<Digest>)
    ensures |r| == |cells|
  {
    seq(|cells|, j requires 0 <= j < |cells| => cells[j].digest)
  }

  function Channel(cells: seq<Merged>, c: nat): (r: seq<Words>)
    requires forall j :: 0 <= j < |cells| ==> c < |cells[j].words|
    ensures |r| == |cells|
  {
    seq(|cells|, j requires 0 <= j < |cells| => cells[j].words[c])
  }

  /** The filled arrays under their names. */
  method NameArrays(folded: array<Digest>, words: array2<Words>, name: string, siblings: seq<string>,
                    ghost cells: seq<Merged>)
    returns (arrays: Slabs)
    requires folded.Length == words.Length0 == |cells| && words.Length1 == |siblings| && name !in siblings
    requires forall b, c :: 0 <= b < c < |siblings| ==> siblings[b] != siblings[c]
    requires forall j :: 0 <= j < |cells| ==>
               && folded[j] == cells[j].digest && |cells[j].words| == |siblings|
               && forall c :: 0 <= c < |siblings| ==> words[j, c] == cells[j].words[c]
    ensures arrays.Keys == {name} + set s | s in siblings
    ensures arrays[name] == Digests(Payloads(cells))
    ensures forall c :: 0 <= c < |siblings| ==> arrays[siblings[c]] == WordLists(Channel(cells, c))
  {
    assert folded[..] == Payloads(cells);
    arrays := map[name := Digests(folded[..])];
    for c := 0 to |siblings|
      invariant arrays.Keys == {name} + (set s | s in siblings[..c])
      invariant arrays[name] == Digests(Payloads(cells))
      invariant forall b :: 0 <= b < c ==> arrays[siblings[b]] == WordLists(Channel(cells, b))
    {
      var column := seq(words.Length0, j requires 0 <= j < words.Length0 reads words => words[j, c]);
      assert column == Channel(cells, c);
      arrays := arrays[siblings[c] := WordLists(column)];
      assert siblings[..c + 1] == siblings[..c] + [siblings[c]];
    }
    assert siblings[..|siblings|] == siblings;
  }

  /** The merge itself refuses words that are not aligned with their payload. */
  method FoldDigestField(k: Kernels, slabs: Slabs, n: nat, f: nat, name: string,
                         meta: Meta) returns (group: Option<Slabs>)
    requires f > 0 && SameExtent(slabs, n * f) && meta.Approximate? && Lawful(k.digests)
    requires name in slabs && slabs[name].Digests? && HasChannels(slabs, Companions(name, meta))
    ensures group.Some? <==> Foldable(slabs, n * f, name, meta)
    ensures group.Some? ==> group.value == FieldGroup(k, slabs, n, f, name, meta)
  {
    hide FoldedCell, RowsAligned, Lawful, Payloads, Channel;
    var siblings := Companions(name, meta);
    CompanionsDistinct(name, meta);
    DivExact(n, f);
    var folded, words, ok := FoldApproximate(k.digests, slabs[name].digests, Channels(slabs, siblings), f);
    if !ok {
      return None;
    }
    var arrays := NameArrays(folded, words, name, siblings, FoldedCells(k, slabs, n, f, name, meta));
    assert arrays == FieldGroup(k, slabs, n, f, name, meta);
    return Some(arrays);
  }

  /** One field of one group. */
  method FoldField(k: Kernels, slabs: Slabs, n: nat, f: nat, name: string, meta: Meta) returns (group: Option<Slabs>)
    requires f > 0 && SameExtent(slabs, n * f) && Lawful(k.digests)
    ensures group.Some? <==> Foldable(slabs, n * f, name, meta)
    ensures group.Some? ==> group.value == FieldGroup(k, slabs, n, f, name, meta)
  {
    hide FoldedCell, Lawful, FoldedCode;
    if name !in slabs {
      return None; // KeyError
    }
    DivExact(n, f);
    match meta
    case Exact(law, _, fill) =>
      if law.None? || !slabs[name].Numbers? {
        return None;
      }
      var dtype := slabs[name].dtype;
      var cell := FillCell(fill, dtype);
      if cell.None? {
        return None;
      }
      return Some(map[name := Numbers(dtype, FoldDense(law.value, dtype, cell.value, slabs[name].cells, n, f))]);
    case Packed(of, fill) =>
      var word := FillWord(fill);
      if of !in slabs || !slabs[of].Digests? || !slabs[name].Codes? || word.None? {
        return None;
      }
      var folded, ok := FoldPacked(k.codes, word.value, slabs[name].codes, slabs[of].digests, f);
      assert folded[..] == seq(n, j requires 0 <= j < n =>
        FoldedCode(k.codes, word.value, slabs[name].codes, slabs[of].digests, n, f, j));
      return Some(map[name := Codes(folded[..])]);
    case Approximate(_, _) =>
      if !slabs[name].Digests? || !HasChannels(slabs, Companions(name, meta)) {
        return None;
      }
      group := FoldDigestField(k, slabs, n, f, name, meta);
    case Uncomposable =>
      return None;
  }

  // ---------------------------------------------------------------- the whole column

  ghost predicate AllFoldable(slabs: Slabs, n: nat, fields: Fields)
    requires SameExtent(slabs, n)
  {
    forall i :: 0 <= i < |fields| ==> Foldable(slabs, n, fields[i].0, fields[i].1)
  }

  /** A dictionary filled from `parts` in order: the last one to name a key decides. */
  function Merge<V>(parts: seq<map<string, V>>): map<string, V> {
    if parts == [] then map[] else Merge(parts[..|parts| - 1]) + parts[|parts| - 1]
  }

  lemma {:induction false} MergeExact<V>(parts: seq<map<string, V>>, key: string)
    ensures key in Merge(parts) <==> exists i :: 0 <= i < |parts| && key in parts[i]
    ensures forall i :: 0 <= i < |parts| && key in parts[i] && (forall j :: i < j < |parts| ==> key !in parts[j])
              ==> key in Merge(parts) && Merge(parts)[key] == parts[i][key]
  {
    if parts != [] {
      var n := |parts| - 1;
      MergeExact(parts[..n], key);
      assert forall i :: 0 <= i < n ==> parts[..n][i] == parts[i];
    }
  }

  lemma MergeSnoc<V>(parts: seq<map<string, V>>, part: map<string, V>)
    ensures Merge(parts + [part]) == Merge(parts) + part
  {
    assert (parts + [part])[..|parts|] == parts;
  }

  ghost function GroupParts(k: Kernels, slabs: Slabs, n: nat, f: nat, fields: Fields): (r: seq<Slabs>)
    requires SameExtent(slabs, n * f) && AllFoldable(slabs, n * f, fields) && Lawful(k.digests)
    ensures |r| == |fields|
  {
    seq(|fields|, i requires 0 <= i < |fields| => FieldGroup(k, slabs, n, f, fields[i].0, fields[i].1))
  }

  /** The group that folds `f` cells to one. */
  ghost function Group(k: Kernels, slabs: Slabs, n: nat, f: nat, fields: Fields): Slabs
    requires SameExtent(slabs, n * f) && AllFoldable(slabs, n * f, fields) && Lawful(k.digests)
  {
    Merge(GroupParts(k, slabs, n, f, fields))
  }

  /** All composable fields of one group. */
  method FoldGroup(k: Kernels, slabs: Slabs, n: nat, f: nat, fields: Fields) returns (group: Option<Slabs>)
    requires f > 0 && SameExtent(slabs, n * f) && Lawful(k.digests)
    ensures group.Some? <==> AllFoldable(slabs, n * f, fields)
    ensures group.Some? ==> group.value == Group(k, slabs, n, f, fields)
  {
    hide Lawful, Foldable, FieldGroup, Merge;
    var arrays: Slabs := map[];
    assert arrays == Merge(GroupParts(k, slabs, n, f, fields[..0])) by {
      MergeEmpty<Slab>();
    }
    for i := 0 to |fields|
      invariant AllFoldable(slabs, n * f, fields[..i])
      invariant arrays == Group(k, slabs, n, f, fields[..i])
    {
      var (name, meta) := fields[i];
      var one := FoldField(k, slabs, n, f, name, meta);
      if one.None? {
        return None;
      }
      MergeSnoc(GroupParts(k, slabs, n, f, fields[..i]), one.value);
      assert GroupParts(k, slabs, n, f, fields[..i + 1]) == GroupParts(k, slabs, n, f, fields[..i]) + [one.value];
      arrays := arrays + one.value;
    }
    assert fields[..|fields|] == fields;
    return Some(arrays);
  }

  lemma MergeEmpty<V>()
    ensures Merge<V>([]) == map[]
  {
  }

  predicate Divides(f: nat, n: nat)
    requires f > 0
  {
    n % f == 0
  }

  function Factor(cell: int, res: int): (f: nat)
    requires res <= cell
    ensures f > 0
  {
    Pow4Positive(cell - res);
    Pow4(cell - res)
  }

  /** The fold of this column meets no raise. */
  ghost predicate ColumnFolds(slabs: Slabs, n: nat, fields: Fields, cell: int, resolutions: seq<int>)
    requires SameExtent(slabs, n)
  {
    forall i :: 0 <= i < |resolutions| ==> GroupFolds(slabs, n, fields, cell, resolutions[i])
  }

  ghost predicate GroupFolds(slabs: Slabs, n: nat, fields: Fields, cell: int, res: int)
    requires SameExtent(slabs, n)
  {
    && res <= cell
    && (fields != [] ==> Divides(Factor(cell, res), n) && AllFoldable(slabs, n, fields))
  }

  ghost function GroupAt(k: Kernels, slabs: Slabs, n: nat, fields: Fields, cell: int, res: int): Slabs
    requires SameExtent(slabs, n) && GroupFolds(slabs, n, fields, cell, res) && Lawful(k.digests)
  {
    if fields == [] then map[]
    else
      var f := Factor(cell, res);
      assert n == n / f * f;
      Group(k, slabs, n / f, f, fields)
  }

  method FoldAt(k: Kernels, slabs: Slabs, n: nat, fields: Fields, cell: int, res: int) returns (group: Option<Slabs>)
    requires SameExtent(slabs, n) && Lawful(k.digests)
    ensures group.Some? <==> GroupFolds(slabs, n, fields, cell, res)
    ensures group.Some? ==> group.value == GroupAt(k, slabs, n, fields, cell, res)
  {
    hide Lawful, AllFoldable, Group;
    if res > cell {
      return None;
    }
    if fields == [] {
      return Some(map[]);
    }
    var f := Factor(cell, res);
    if n % f != 0 {
      return None;
    }
    assert n == n / f * f;
    group := FoldGroup(k, slabs, n / f, f, fields);
  }

  /** `fold_column`: every resolution from the leaf's own cells. Nothing comes back when the source raises. */
  method FoldColumn(k: Kernels, slabs: Slabs, n: nat, declared: Fields, cell: int, resolutions: seq<int>)
    returns (out: Option<map<int, Slabs>>)
    requires SameExtent(slabs, n) && Lawful(k.digests)
    ensures out.Some? <==> ColumnFolds(slabs, n, ComposableFields(declared), cell, resolutions)
    ensures out.Some? ==>
              && (forall res :: res in out.value <==> res in resolutions)
              && forall res :: res in out.value ==>
                   GroupFolds(slabs, n, ComposableFields(declared), cell, res)
                   && out.value[res] == GroupAt(k, slabs, n, ComposableFields(declared), cell, res)
  {
    hide Lawful, GroupFolds, GroupAt;
    var fields := ComposableFields(declared);
    var groups: map<int, Slabs> := map[];
    for i := 0 to |resolutions|
      invariant forall j :: 0 <= j < i ==> GroupFolds(slabs, n, fields, cell, resolutions[j])
      invariant forall res :: res in groups <==> res in resolutions[..i]
      invariant forall res :: res in groups ==>
                  GroupFolds(slabs, n, fields, cell, res) && groups[res] == GroupAt(k, slabs, n, fields, cell, res)
    {
      var group := FoldAt(k, slabs, n, fields, cell, resolutions[i]);
      if group.None? {
        return None;
      }
      groups := groups[resolutions[i] := group.value];
      assert resolutions[..i + 1] == resolutions[..i] + [resolutions[i]];
    }
    assert resolutions[..|resolutions|] == resolutions;
    return Some(groups);
  }

  // ---------------------------------------------------------------- the leaf's slabs

  /** The fill of the field's own array reads in its dtype. */
  predicate FillReads(meta: Meta) {
    match meta
    case Exact(_, dtype, fill) => FillCell(fill, dtype).Some?
    case Packed(_, fill) => FillWord(fill).Some?
    case _ => true
  }

  /** A cell-extent array nobody staged, where the fill reads. */
  function EmptySlab(name: string, meta: Meta, key: string, n: nat): (r: Slab)
    ensures r.Extent() == n
  {
    match meta
    case Exact(_, dtype, fill) =>
      var cell := FillCell(fill, dtype);
      Numbers(dtype, Repeat(if cell.Some? then cell.value else NaN, n))
    case Packed(_, fill) =>
      var word := FillWord(fill);
      Codes(Repeat(if word.Some? then word.value else 0, n))
    case Approximate(_, _) => if key == name then Digests(Repeat([], n)) else WordLists(Repeat([], n))
    case Uncomposable => Codes(Repeat(0, n))
  }

  function SlabFor(staged: Slabs, n: nat, name: string, meta: Meta, key: string): Slab {
    if key in staged then staged[key] else EmptySlab(name, meta, key, n)
  }

  function FieldSlabs(staged: Slabs, n: nat, name: string, meta: Meta): Slabs {
    map key | key in ArrayNames(name, meta) :: SlabFor(staged, n, name, meta, key)
  }

  function SlabParts(staged: Slabs, n: nat, fields: Fields): (r: seq<Slabs>)
    ensures |r| == |fields|
  {
    seq(|fields|, i requires 0 <= i < |fields| => FieldSlabs(staged, n, fields[i].0, fields[i].1))
  }

  /** What the sink holds of the field has the grid's extent; what it does not hold can be synthesized. */
  predicate StageOk(staged: Slabs, n: nat, name: string, meta: Meta) {
    forall key :: key in ArrayNames(name, meta) ==> Stageable(staged, n, meta, key)
  }

  predicate Stageable(staged: Slabs, n: nat, meta: Meta, key: string) {
    if key in staged then staged[key].Extent() == n else FillReads(meta)
  }

  /** `leaf_slabs` meets no raise. */
  predicate SinkAgrees(staged: Slabs, n: nat, fields: Fields) {
    forall i :: 0 <= i < |fields| ==> StageOk(staged, n, fields[i].0, fields[i].1)
  }

  method StageField(staged: Slabs, n: nat, name: string, meta: Meta) returns (slabs: Option<Slabs>)
    ensures slabs.Some? <==> StageOk(staged, n, name, meta)
    ensures slabs.Some? ==> slabs.value == FieldSlabs(staged, n, name, meta)
  {
    hide SlabFor, Companions;
    var names := [name] + Companions(name, meta);
    var r: Slabs := map[];
    for c := 0 to |names|
      invariant forall key :: key in r <==> key in names[..c]
      invariant forall key :: key in r ==> r[key] == SlabFor(staged, n, name, meta, key)
      invariant forall key :: key in r ==> Stageable(staged, n, meta, key)
    {
      assert names[c] in ArrayNames(name, meta);
      if !Stageable(staged, n, meta, names[c]) {
        return None;
      }
      r := r[names[c] := SlabFor(staged, n, name, meta, names[c])];
      assert names[..c + 1] == names[..c] + [names[c]];
    }
    assert names[..|names|] == names;
    assert r.Keys == ArrayNames(name, meta);
    return Some(r);
  }

  lemma OneMoreField(staged: Slabs, n: nat, fields: Fields, i: nat)
    requires i < |fields|
    ensures SinkAgrees(staged, n, fields[..i + 1]) <==>
              SinkAgrees(staged, n, fields[..i]) && StageOk(staged, n, fields[i].0, fields[i].1)
    ensures SlabParts(staged, n, fields[..i + 1])
            == SlabParts(staged, n, fields[..i]) + [FieldSlabs(staged, n, fields[i].0, fields[i].1)]
    ensures SinkAgrees(staged, n, fields) ==> StageOk(staged, n, fields[i].0, fields[i].1)
  {
    hide StageOk, FieldSlabs;
    var longer := fields[..i + 1];
    assert longer == fields[..i] + [fields[i]];
    if SinkAgrees(staged, n, longer) {
      assert forall j :: 0 <= j < i ==> fields[..i][j] == longer[j];
      assert longer[i] == fields[i];
    }
  }

  lemma NoFields(staged: Slabs, n: nat)
    ensures SinkAgrees(staged, n, []) && Merge(SlabParts(staged, n, [])) == map[]
  {
  }

  /** `leaf_slabs`: a staged array of another extent is refused, an absent one contributes fill. */
  method LeafSlabs(staged: Slabs, declared: Fields, n: nat) returns (slabs: Option<Slabs>)
    ensures slabs.Some? <==> SinkAgrees(staged, n, ComposableFields(declared))
    ensures slabs.Some? ==>
            slabs.value == Merge(SlabParts(staged, n, ComposableFields(declared))) && SameExtent(slabs.value, n)
  {
    hide Merge, StageOk, SinkAgrees, SlabParts, FieldSlabs, ComposableFields;
    var fields := ComposableFields(declared);
    var r: Slabs := map[];
    NoFields(staged, n);
    assert fields[..0] == [];
    for i := 0 to |fields|
      invariant SinkAgrees(staged, n, fields[..i])
      invariant r == Merge(SlabParts(staged, n, fields[..i]))
    {
      OneMoreField(staged, n, fields, i);
      var one := StageField(staged, n, fields[i].0, fields[i].1);
      if one.None? {
        return None;
      }
      MergeSnoc(SlabParts(staged, n, fields[..i]), one.value);
      r := r + one.value;
    }
    assert fields[..|fields|] == fields;
    SinkExtents(staged, n, fields);
    LeafExtent(staged, n, fields);
    return Some(r);
  }

  /** The arrays staged under a declared name have the grid's extent. */
  predicate ExtentsAgree(staged: Slabs, n: nat, fields: Fields) {
    forall i, key :: 0 <= i < |fields| && key in ArrayNames(fields[i].0, fields[i].1) && key in staged
      ==> staged[key].Extent() == n
  }

  lemma LeafExtent(staged: Slabs, n: nat, fields: Fields)
    requires ExtentsAgree(staged, n, fields)
    ensures SameExtent(Merge(SlabParts(staged, n, fields)), n)
  {
    hide Merge;
    var parts := SlabParts(staged, n, fields);
    forall key | key in Merge(parts) ensures Merge(parts)[key].Extent() == n {
      MergeExact(parts, key);
      var i := LastWith(parts, key);
      assert key in ArrayNames(fields[i].0, fields[i].1);
    }
  }

  /** The sink is taken exactly when what it holds has the right extent and the rest can be synthesized. */
  lemma SinkExtents(staged: Slabs, n: nat, fields: Fields)
    ensures SinkAgrees(staged, n, fields)
            <==> ExtentsAgree(staged, n, fields) && forall i, key ::
                   0 <= i < |fields| && key in ArrayNames(fields[i].0, fields[i].1) && key !in staged
                   ==> FillReads(fields[i].1)
  {
    hide Companions, ArrayNames, FillReads;
    if SinkAgrees(staged, n, fields) {
      forall i, key | 0 <= i < |fields| && key in ArrayNames(fields[i].0, fields[i].1)
        ensures Stageable(staged, n, fields[i].1, key)
      {
        assert StageOk(staged, n, fields[i].0, fields[i].1);
      }
    }
  }

  lemma LastWith<V>(parts: seq<map<string, V>>, key: string) returns (i: nat)
    requires exists j :: 0 <= j < |parts| && key in parts[j]
    ensures i < |parts| && key in parts[i] && forall j :: i < j < |parts| ==> key !in parts[j]
  {
    i := |parts| - 1;
    while key !in parts[i]
      invariant i < |parts| && forall j :: i < j < |parts| ==> key !in parts[j]
      decreases i
    {
      i := i - 1;
    }
  }

  // ---------------------------------------------------------------- the whole path

  /** No two fields share an array name. */
  predicate Separate(fields: Fields) {
    forall i, j :: 0 <= i < j < |fields| ==>
      ArrayNames(fields[i].0, fields[i].1) !! ArrayNames(fields[j].0, fields[j].1)
  }

  predicate SameKind(a: Slab, b: Slab) {
    match (a, b)
    case (Numbers(dtype, _), Numbers(declared, _)) => dtype == declared
    case (Codes(_), Codes(_)) => true
    case (Digests(_), Digests(_)) => true
    case (WordLists(_), WordLists(_)) => true
    case (_, _) => false
  }

  /** What is staged under a declared name is an array of the declared kind. */
  predicate KindsAgree(staged: Slabs, n: nat, fields: Fields) {
    forall i, key :: 0 <= i < |fields| && key in ArrayNames(fields[i].0, fields[i].1) && key in staged
      ==> SameKind(staged[key], EmptySlab(fields[i].0, fields[i].1, key, n))
  }

  lemma LeafHas(staged: Slabs, n: nat, fields: Fields, i: nat, key: string)
    requires Separate(fields) && i < |fields| && key in ArrayNames(fields[i].0, fields[i].1)
    ensures var slabs := Merge(SlabParts(staged, n, fields));
            key in slabs && slabs[key] == SlabFor(staged, n, fields[i].0, fields[i].1, key)
  {
    var parts := SlabParts(staged, n, fields);
    MergeExact(parts, key);
    forall j | i < j < |parts| ensures key !in parts[j] {
      assert ArrayNames(fields[i].0, fields[i].1) !! ArrayNames(fields[j].0, fields[j].1);
    }
    assert key in parts[i];
  }

  predicate NamesDigest(fields: Fields, name: string) {
    exists j :: 0 <= j < |fields| && fields[j].0 == name && fields[j].1.Approximate?
  }

  lemma DigestsExactly(staged: Slabs, n: nat, fields: Fields, of: string)
    requires Separate(fields) && KindsAgree(staged, n, fields)
    requires forall i :: 0 <= i < |fields| ==> Composable(fields[i].1)
    ensures var slabs := Merge(SlabParts(staged, n, fields));
            of in slabs && slabs[of].Digests? <==> NamesDigest(fields, of)
  {
    hide Merge, Companions;
    var parts := SlabParts(staged, n, fields);
    MergeExact(parts, of);
    if of in Merge(parts) {
      var j := LastWith(parts, of);
      LeafHas(staged, n, fields, j, of);
      if Merge(parts)[of].Digests? {
        assert fields[j].1.Approximate? && fields[j].0 == of;
      }
    }
    if NamesDigest(fields, of) {
      var j :| 0 <= j < |fields| && fields[j].0 == of && fields[j].1.Approximate?;
      LeafHas(staged, n, fields, j, of);
    }
  }

  /** What a field of the declaration needs beyond being composable. */
  ghost predicate Ready(slabs: Slabs, n: nat, fields: Fields, name: string, meta: Meta)
    requires SameExtent(slabs, n)
  {
    match meta
    case Exact(law, dtype, fill) => law.Some? && FillCell(fill, dtype).Some?
    case Packed(of, fill) => NamesDigest(fields, of) && FillWord(fill).Some?
    case Approximate(_, _) =>
      name in slabs && slabs[name].Digests? && HasChannels(slabs, Companions(name, meta))
      && RowsAligned(slabs[name].digests, Channels(slabs, Companions(name, meta)))
    case Uncomposable => false
  }

  lemma FieldFoldsExactly(staged: Slabs, n: nat, fields: Fields, i: nat)
    requires Separate(fields) && KindsAgree(staged, n, fields) && i < |fields|
    requires SameExtent(Merge(SlabParts(staged, n, fields)), n)
    requires forall j :: 0 <= j < |fields| ==> Composable(fields[j].1)
    ensures var slabs, (name, meta) := Merge(SlabParts(staged, n, fields)), fields[i];
            Foldable(slabs, n, name, meta) <==> Ready(slabs, n, fields, name, meta)
  {
    hide Merge, RowsAligned, Companions, FillCell;
    var (name, meta) := fields[i];
    LeafHas(staged, n, fields, i, name);
    if meta.Packed? {
      DigestsExactly(staged, n, fields, meta.of);
    }
  }

  lemma ResolutionDivides(node: nat, res: int, cell: nat)
    requires node <= res <= cell
    ensures Divides(Factor(cell, res), Pow4(cell - node))
  {
    Pow4Adds(res - node, cell - res);
    DivExact(Pow4(res - node), Factor(cell, res));
  }

  /**
   From staged sink to column. When what is staged has the extent and the kinds of the declaration, and no declared
   order lies beyond the leaf's own, the whole path meets no raise exactly when every exact law is a known one with a
   fill its dtype can hold, every packed field names a digest field and has a fill that reads as a word, and every
   digest's companion words are row-aligned with it. In particular a packed field whose `of` is composable but not
   a digest is refused, and so is an integer field with the default NaN fill, staged or not.
   */
  lemma PipelineTotal(staged: Slabs, fields: Fields, levels: seq<Level>, node: nat, cell: nat)
    requires node <= cell && (forall i :: 0 <= i < |fields| ==> Composable(fields[i].1)) && Separate(fields)
    requires KindsAgree(staged, Pow4(cell - node), fields) && ExtentsAgree(staged, Pow4(cell - node), fields)
    requires var resolutions := ColumnResolutions(levels, node);
             resolutions != [] && forall i :: 0 <= i < |resolutions| ==> resolutions[i] <= cell
    ensures var n, slabs := Pow4(cell - node), Merge(SlabParts(staged, Pow4(cell - node), fields));
            && SameExtent(slabs, n)
            && (SinkAgrees(staged, n, fields) && ColumnFolds(slabs, n, fields, cell, ColumnResolutions(levels, node))
                <==> forall i :: 0 <= i < |fields| ==> Ready(slabs, n, fields, fields[i].0, fields[i].1))
  {
    hide Merge, Ready, Foldable, KindsAgree, ExtentsAgree, SinkAgrees, Separate, SlabParts, Pow4, ColumnResolutions;
    var n, resolutions := Pow4(cell - node), ColumnResolutions(levels, node);
    var slabs := Merge(SlabParts(staged, n, fields));
    LeafExtent(staged, n, fields);
    ResolutionsExact(levels, node);
    forall i | 0 <= i < |resolutions| ensures Divides(Factor(cell, resolutions[i]), n) {
      assert resolutions[i] in resolutions;
      ResolutionDivides(node, resolutions[i], cell);
    }
    hide Divides, Factor;
    forall i | 0 <= i < |fields|
      ensures var (name, meta) := fields[i]; Foldable(slabs, n, name, meta) <==> Ready(slabs, n, fields, name, meta)
      ensures Ready(slabs, n, fields, fields[i].0, fields[i].1) ==> FillReads(fields[i].1)
    {
      FieldFoldsExactly(staged, n, fields, i);
      if Ready(slabs, n, fields, fields[i].0, fields[i].1) {
        ReadyFills(slabs, n, fields, fields[i].0, fields[i].1);
      }
    }
    SinkExtents(staged, n, fields);
    if ColumnFolds(slabs, n, fields, cell, resolutions) {
      assert GroupFolds(slabs, n, fields, cell, resolutions[0]);
    }
  }

  lemma ReadyFills(slabs: Slabs, n: nat, fields: Fields, name: string, meta: Meta)
    requires SameExtent(slabs, n) && Ready(slabs, n, fields, name, meta)
    ensures FillReads(meta)
  {
  }

  lemma GroupHas(k: Kernels, slabs: Slabs, n: nat, f: nat, fields: Fields, i: nat, key: string)
    requires SameExtent(slabs, n * f) && AllFoldable(slabs, n * f, fields) && Lawful(k.digests)
    requires Separate(fields) && i < |fields| && key in ArrayNames(fields[i].0, fields[i].1)
    ensures var g := Group(k, slabs, n, f, fields);
            key in g && g[key] == FieldArray(k, slabs, n, f, fields[i].0, fields[i].1, key)
  {
    hide Foldable, FieldArray, Lawful, Merge;
    var parts := GroupParts(k, slabs, n, f, fields);
    MergeExact(parts, key);
    forall j | i < j < |parts| ensures key !in parts[j] {
      assert ArrayNames(fields[i].0, fields[i].1) !! ArrayNames(fields[j].0, fields[j].1);
    }
    assert key in parts[i];
  }

  /** A digest field of any group carries the leaf's whole weight, and each companion array is aligned with it row
      by row: empty exactly where the payload is. */
  lemma GroupSound(k: Kernels, slabs: Slabs, n: nat, f: nat, fields: Fields, i: nat)
    requires SameExtent(slabs, n * f) && AllFoldable(slabs, n * f, fields) && Lawful(k.digests)
    requires Separate(fields) && i < |fields| && fields[i].1.Approximate?
    ensures var g, name := Group(k, slabs, n, f, fields), fields[i].0;
            && name in g && g[name].Digests? && |g[name].digests| == n
            && TotalWeight(g[name].digests) == TotalWeight(slabs[name].digests)
            && (forall j :: 0 <= j < n ==>
                  (g[name].digests[j] == [] <==> forall m :: 0 <= m < f ==> Cut(slabs[name].digests, n, f)[j][m] == []))
            && forall key :: key in Companions(name, fields[i].1) ==>
                 && key in g && g[key].WordLists? && |g[key].words| == n
                 && forall j :: 0 <= j < n ==> |g[key].words[j]| == |g[name].digests[j]|
  {
    hide Foldable, Lawful, Group, FoldedCell, RowsAligned;
    var (name, meta) := fields[i];
    GroupHas(k, slabs, n, f, fields, i, name);
    var g, siblings := Group(k, slabs, n, f, fields), Companions(name, meta);
    assert Foldable(slabs, n * f, name, meta);
    var slab, channels := DigestInputs(slabs, n * f, name, meta);
    CompanionsDistinct(name, meta);
    GroupConservesWeight(k.digests, slab, channels, n, f);
    assert g[name].digests == GroupDigests(k.digests, slab, channels, n, f);
    forall j | 0 <= j < n
      ensures g[name].digests[j] == [] <==> forall m :: 0 <= m < f ==> Cut(slabs[name].digests, n, f)[j][m] == []
    {
      CellAligned(k.digests, slab, channels, n, f, j);
    }
    forall key | key in siblings ensures key in g && g[key].WordLists? && |g[key].words| == n
                                         && forall j :: 0 <= j < n ==> |g[key].words[j]| == |g[name].digests[j]| {
      GroupHas(k, slabs, n, f, fields, i, key);
      forall j | 0 <= j < n ensures |g[key].words[j]| == |g[name].digests[j]| {
        CellAligned(k.digests, slab, channels, n, f, j);
      }
    }
  }

  lemma DigestInputs(slabs: Slabs, n: nat, name: string, meta: Meta) returns (slab: seq<Digest>,
                     channels: seq<seq<Words>>)
    requires SameExtent(slabs, n) && meta.Approximate? && Foldable(slabs, n, name, meta)
    ensures name in slabs && slabs[name].Digests? && slab == slabs[name].digests && |slab| == n
    ensures HasChannels(slabs, Companions(name, meta)) && channels == Channels(slabs, Companions(name, meta))
    ensures Shaped(slab, channels) && RowsAligned(slab, channels)
  {
    slab, channels := slabs[name].digests, Channels(slabs, Companions(name, meta));
  }

  lemma CellAligned(merge: MergeKernel, slab: seq<Digest>, channels: seq<seq<Words>>, n: nat, f: nat, j: nat)
    requires j < n && |slab| == n * f && Shaped(slab, channels) && Lawful(merge) && RowsAligned(slab, channels)
    ensures FoldedCell(merge, slab, channels, n, f, j).Some?
    ensures var m := FoldedCell(merge, slab, channels, n, f, j).value;
            && |m.words| == |channels| && (forall c :: 0 <= c < |channels| ==> |m.words[c]| == |m.digest|)
            && (m.digest == [] <==> forall i :: 0 <= i < f ==> Cut(slab, n, f)[j][i] == [])
  {
    GroupFoldsExactly(merge, slab, channels, n, f);
    FoldCellExact(merge, Cut(slab, n, f)[j], ChannelRuns(channels, n, f, j));
  }

  /** An exact field of any group holds, cell by cell, what its leaf cells reduce to: the fill where none is present, or
      else their sum as far as the dtype holds it, the least or the greatest. */
  lemma GroupReduces(k: Kernels, slabs: Slabs, n: nat, f: nat, fields: Fields, i: nat, j: nat)
    requires SameExtent(slabs, n * f) && AllFoldable(slabs, n * f, fields) && Lawful(k.digests) && Separate(fields)
    requires i < |fields| && fields[i].1.Exact? && j < n
    requires fields[i].0 in slabs && slabs[fields[i].0].Numbers?
    requires AllHold(slabs[fields[i].0].dtype, slabs[fields[i].0].cells)
    ensures var g, name, law := Group(k, slabs, n, f, fields), fields[i].0, fields[i].1.law;
            var dtype := slabs[name].dtype;
            && name in g && g[name].Numbers? && g[name].dtype == dtype && |g[name].cells| == n && law.Some?
            && FillCell(fields[i].1.fill, dtype).Some?
            && var fill, c := FillCell(fields[i].1.fill, dtype).value, g[name].cells[j];
               var present := Present(Visible(fill, Cut(slabs[name].cells, n, f)[j]));
               && Holds(dtype, c) && (present == [] ==> c == fill)
               && (present != [] && law.value.Add? ==> c == Num(Stored(dtype, Total(present))))
               && (present != [] && !law.value.Add? ==> c.Num? && Extreme(law.value, c.value, present))
  {
    hide Lawful, Group, Cut, FoldRun, Stored, Present, Visible, Extreme, FillCell, AllHold;
    var (name, meta) := fields[i];
    assert Foldable(slabs, n * f, name, meta);
    GroupHas(k, slabs, n, f, fields, i, name);
    var dtype, cells := slabs[name].dtype, slabs[name].cells;
    var fill := FillCell(meta.fill, dtype).value;
    FillFits(meta.fill, dtype);
    CutHolds(dtype, cells, n, f, j);
    FoldRunExact(meta.law.value, dtype, fill, Cut(cells, n, f)[j]);
  }

  /** A composition word folds together with its divisor at every resolution: the counts that a word of the group
      averages over add up to the weight of the digest the group holds at the same cell. */
  lemma GroupDivisorAgrees(k: Kernels, slabs: Slabs, n: nat, f: nat, fields: Fields, i: nat, d: nat, j: nat)
    requires SameExtent(slabs, n * f) && AllFoldable(slabs, n * f, fields) && Lawful(k.digests) && Separate(fields)
    requires i < |fields| && d < |fields| && j < n
    requires fields[i].1.Packed? && fields[i].1.of == fields[d].0 && fields[d].1.Approximate?
    requires WholeCounts(slabs[fields[d].0].digests)
    ensures var g, name, of := Group(k, slabs, n, f, fields), fields[i].0, fields[d].0;
            && name in g && g[name].Codes? && |g[name].codes| == n && of in g && g[of].Digests? && |g[of].digests| == n
            && var parts := Parts(Cut(slabs[name].codes, n, f)[j], Cut(slabs[of].digests, n, f)[j]);
            && g[name].codes[j] == (if parts == [] then FillWord(fields[i].1.fill).value else k.codes(parts))
            && PayloadWeight(g[of].digests[j]) == Divisor(parts)
  {
    hide Lawful, Group, FoldedCell, RowsAligned, Parts, Cut, WholeCounts;
    var name, of := fields[i].0, fields[d].0;
    assert Foldable(slabs, n * f, name, fields[i].1) && Foldable(slabs, n * f, of, fields[d].1);
    GroupHas(k, slabs, n, f, fields, i, name);
    GroupHas(k, slabs, n, f, fields, d, of);
    var slab, channels := DigestInputs(slabs, n * f, of, fields[d].1);
    PackedDivisorAgrees(k.digests, slabs[name].codes, slab, channels, n, f, j);
  }

  /** A packed field whose `of` is composable, but exact, passes every filter and still cannot be folded. */
  lemma ComposableLinkIsNotEnough(n: nat)
    ensures var fields: Fields := [("code", Packed("height", Number(0.0))),
                                   ("height", Exact(Some(Add), Floating, NotANumber))];
            var slabs := Merge(SlabParts(map[], n, fields));
            && ComposableFields(fields) == fields && SinkAgrees(map[], n, fields)
            && SameExtent(slabs, n) && !AllFoldable(slabs, n, fields)
  {
    hide Merge, Companions;
    var fields: Fields := [("code", Packed("height", Number(0.0))),
                           ("height", Exact(Some(Add), Floating, NotANumber))];
    PairIsComposable(fields[0], fields[1]);
    SinkExtents(map[], n, fields);
    LeafExtent(map[], n, fields);
    PlainFieldsSeparate(fields);
    LeafHas(map[], n, fields, 1, "height");
    hide SlabParts;
    assert !Foldable(Merge(SlabParts(map[], n, fields)), n, fields[0].0, fields[0].1);
  }

  /** An exact field of integer dtype that declares no fill takes the NaN token, and cannot be folded even where every
      cell of it was staged. */
  lemma IntegersNeedFill(slabs: Slabs, n: nat, law: Law, lo: int, size: nat, name: string)
    requires lo <= 0 && lo + size >= 4 && SameExtent(slabs, n)
    requires name in slabs && slabs[name].Numbers? && slabs[name].dtype == Integer(lo, size)
    ensures Composable(Exact(Some(law), Integer(lo, size), NotANumber))
    ensures !Foldable(slabs, n, name, Exact(Some(law), Integer(lo, size), NotANumber))
    ensures forall x: real :: lo as real <= x < (lo + size) as real ==>
              Foldable(slabs, n, name, Exact(Some(law), Integer(lo, size), Number(x)))
  {
    forall x: real | lo as real <= x < (lo + size) as real
      ensures Foldable(slabs, n, name, Exact(Some(law), Integer(lo, size), Number(x)))
    {
      assert lo <= Truncate(x) < lo + size;
    }
  }

  lemma PairIsComposable(a: (string, Meta), b: (string, Meta))
    requires Composable(a.1) && Composable(b.1)
    ensures ComposableFields([a, b]) == [a, b]
  {
    assert [a, b][..1] == [a] && [a][..0] == [];
    assert ComposableFields([a]) == [a];
  }

  lemma PlainFieldsSeparate(fields: Fields)
    requires forall i :: 0 <= i < |fields| ==> !fields[i].1.Approximate?
    requires forall i, j :: 0 <= i < j < |fields| ==> fields[i].0 != fields[j].0
    ensures Separate(fields)
  {
  }
}
