/**
 Writing and clearing a column, one store operation at a time, by a worker that may die between any two of them.

 The root document of the prefix carries both the role attributes and the commit stamp. Clearing and writing the
 statistics sidecar are fail-open: either may fail without the worker noticing.
 */
module ColumnStore {
  import opened Prelude
  import opened ColumnPipeline

  // ---------------------------------------------------------------- what is stored

  /** One group's arrays in the order the fold lists them, and the groups of one fold. */
  type Members = seq<(string, Slab)>
  type Folded = seq<(int, Members)>

  type Key = (int, string)

  datatype Write = Write(folded: Folded, declared: Fields, node: int, cell: int, window: Option<string>, granules: nat)

  datatype Attrs = Attrs(node: int, cell: int, window: Option<string>, fields: Fields, groups: seq<int>, finest: int)

  datatype Stamp = Stamp(cellsWithData: nat, granules: nat, window: Option<string>)

  datatype Sidecar = Sidecar(arrays: map<Key, Slab>, cellsWithData: nat, granules: nat)

  datatype Store = Store(template: Option<set<Key>>, arrays: map<Key, Slab>, attrs: Option<Attrs>, stamp: Option<Stamp>,
                         sidecar: Option<Sidecar>)

  const EMPTY: Store := Store(None, map[], None, None, None)

  /** The cell words of the shard's node at a resolution, and the number of populated cells of a group. */
  datatype Site = Site(morton: int -> seq<nat>, populated: (Members, Fields) -> nat)

  datatype Op =
    | DeletePrefix
    | DeleteSidecar(fails: bool)
    | PutTemplate(members: set<Key>)
    | PutArray(key: Key, slab: Slab)
    | PutAttrs(attrs: Attrs)
    | PutStamp(stamp: Stamp)
    | PutSidecar(sidecar: Sidecar, fails: bool)

  /** A worker is still going, or it stopped for good. */
  datatype Progress = Going(store: Store) | Stopped(store: Store)

  function Apply(s: Store, op: Op): Progress {
    match op
    case DeletePrefix => Going(s.(template := None, arrays := map[], attrs := None, stamp := None))
    case DeleteSidecar(fails) => Going(if fails then s else s.(sidecar := None))
    case PutTemplate(members) => Going(s.(template := Some(members), attrs := None, stamp := None))
    case PutArray(key, slab) =>
      if s.template.Some? && key in s.template.value then Going(s.(arrays := s.arrays[key := slab]))
      else Stopped(s) // no such array to open
    case PutAttrs(attrs) => Going(s.(attrs := Some(attrs)))
    case PutStamp(stamp) => Going(s.(stamp := Some(stamp)))
    case PutSidecar(sidecar, fails) => Going(if fails then s else s.(sidecar := Some(sidecar)))
  }

  function ApplyAll(s: Store, ops: seq<Op>): Progress {
    if ops == [] then Going(s)
    else
      var before := ApplyAll(s, ops[..|ops| - 1]);
      if before.Stopped? then before else Apply(before.store, ops[|ops| - 1])
  }

  // ---------------------------------------------------------------- what a write asks for

  function KeysOf(folded: Folded): (r: seq<int>)
    ensures |r| == |folded| && forall i :: 0 <= i < |r| ==> r[i] == folded[i].0
  {
    seq(|folded|, i requires 0 <= i < |folded| => folded[i].0)
  }

  function SortDown(keys: seq<int>): seq<int> {
    if keys == [] then [] else Place(keys[0], SortDown(keys[1..]))
  }

  lemma {:induction false} SortDownExact(keys: seq<int>)
    ensures Descending(SortDown(keys)) && forall y :: y in SortDown(keys) <==> y in keys
  {
    if keys != [] {
      SortDownExact(keys[1..]);
      PlaceExact(keys[0], SortDown(keys[1..]));
    }
  }

  function Resolutions(w: Write): seq<int> {
    SortDown(KeysOf(w.folded))
  }

  /** A fold without the node-order member is refused before anything is touched. */
  predicate Accepted(w: Write) {
    w.node in Resolutions(w)
  }

  function Lookup(folded: Folded, res: int): Members
    requires res in KeysOf(folded)
  {
    if folded[0].0 == res then folded[0].1
    else
      assert KeysOf(folded[1..]) == KeysOf(folded)[1..];
      Lookup(folded[1..], res)
  }

  function MembersAt(w: Write, res: int): Members {
    if res in KeysOf(w.folded) then Lookup(w.folded, res) else []
  }

  const MORTON: string := "morton"

  function Template(w: Write): set<Key> {
    var fields := ComposableFields(w.declared);
    set res, i, name | res in Resolutions(w) && 0 <= i < |fields| && name in ArrayNames(fields[i].0, fields[i].1) ::
      (res, name)
  }

  function TemplateKeys(w: Write): set<Key> {
    Template(w) + set res | res in Resolutions(w) :: (res, MORTON)
  }

  function Pairs(res: int, members: Members): (r: seq<(Key, Slab)>)
    ensures |r| == |members|
  {
    seq(|members|, i requires 0 <= i < |members| => ((res, members[i].0), members[i].1))
  }

  /** The arrays a write stages, in order: for every resolution its cell words and then the folded arrays. */
  function Staged(site: Site, w: Write, resolutions: seq<int>): seq<(Key, Slab)> {
    if resolutions == [] then []
    else
      var init, res := resolutions[..|resolutions| - 1], resolutions[|resolutions| - 1];
      Staged(site, w, init) + [((res, MORTON), Codes(site.morton(res)))] + Pairs(res, MembersAt(w, res))
  }

  function AllStaged(site: Site, w: Write): seq<(Key, Slab)> {
    Staged(site, w, Resolutions(w))
  }

  function Dict(pairs: seq<(Key, Slab)>): map<Key, Slab> {
    if pairs == [] then map[] else Dict(pairs[..|pairs| - 1])[pairs[|pairs| - 1].0 := pairs[|pairs| - 1].1]
  }

  function Populated(site: Site, w: Write): nat {
    if Resolutions(w) == [] then 0 else site.populated(MembersAt(w, Resolutions(w)[0]), ComposableFields(w.declared))
  }

  function AttrsOf(w: Write): Attrs {
    Attrs(w.node, w.cell, w.window, ComposableFields(w.declared), Resolutions(w),
          if Resolutions(w) == [] then 0 else Resolutions(w)[0])
  }

  function StampOf(site: Site, w: Write): Stamp {
    Stamp(Populated(site, w), w.granules, w.window)
  }

  function SidecarOf(site: Site, w: Write): Sidecar {
    Sidecar(Dict(AllStaged(site, w)), Populated(site, w), w.granules)
  }

  function ArrayOps(pairs: seq<(Key, Slab)>): (r: seq<Op>)
    ensures |r| == |pairs|
  {
    seq(|pairs|, i requires 0 <= i < |pairs| => PutArray(pairs[i].0, pairs[i].1))
  }

  function Opening(w: Write, clearFails: bool): seq<Op> {
    [DeletePrefix, DeleteSidecar(clearFails), PutTemplate(TemplateKeys(w))]
  }

  function Closing(site: Site, w: Write, putFails: bool): seq<Op> {
    [PutAttrs(AttrsOf(w)), PutStamp(StampOf(site, w)), PutSidecar(SidecarOf(site, w), putFails)]
  }

  /** Everything `write_column` does to the store, in order. */
  function WriteOps(site: Site, w: Write, clearFails: bool, putFails: bool): (r: seq<Op>)
    ensures Accepted(w) ==> |r| == |AllStaged(site, w)| + 6
  {
    if !Accepted(w) then []
    else Opening(w, clearFails) + ArrayOps(AllStaged(site, w)) + Closing(site, w, putFails)
  }

  function ClearOps(clearFails: bool): seq<Op> {
    [DeletePrefix, DeleteSidecar(clearFails)]
  }

  // ---------------------------------------------------------------- the writer

  /** A worker with the prefix it writes; `life` is how many more store operations it survives. */
  class ColumnWriter {
    var store: Store
    var life: nat
    var dead: bool

    constructor (store: Store, life: nat)
      ensures this.store == store && this.life == life && !dead
    {
      this.store, this.life, dead := store, life, false;
    }

    method Do(op: Op)
      modifies this
      ensures var next := Apply(old(store), op);
              if old(dead) || old(life) == 0 then store == old(store) && dead && life == old(life)
              else store == next.store && dead == next.Stopped? && life == old(life) - 1
    {
      if dead || life == 0 {
        dead := true;
        return;
      }
      var next := Apply(store, op);
      store, dead, life := next.store, next.Stopped?, life - 1;
    }

    /** After the operations `done` of a worker that began at `s` with `life0`. */
    ghost predicate After(s: Store, life0: nat, done: seq<Op>)
      reads this
    {
      && store == ApplyAll(s, done[..Min(life0, |done|)]).store
      && (dead <==> life0 < |done| || ApplyAll(s, done[..Min(life0, |done|)]).Stopped?)
      && (!dead ==> life == life0 - |done|)
    }

    method Perform(op: Op, ghost s: Store, ghost life0: nat, ghost done: seq<Op>)
      requires After(s, life0, done)
      modifies this
      ensures After(s, life0, done + [op])
    {
      ghost var longer := done + [op];
      assert longer[..|done|] == done;
      if life0 < |longer| {
        assert longer[..life0] == done[..life0];
      } else {
        assert longer[..|longer|] == longer && done[..|done|] == done;
      }
      StopsForGood(s, done, life0);
      Do(op);
    }

    /** The arrays of one resolution. */
    method PutGroup(site: Site, w: Write, res: int, ghost s: Store, ghost life0: nat, ghost done: seq<Op>)
      requires After(s, life0, done)
      modifies this
      ensures After(s, life0,
                    done + ArrayOps([((res, MORTON), Codes(site.morton(res)))] + Pairs(res, MembersAt(w, res))))
    {
      hide ApplyAll, Apply;
      var members := MembersAt(w, res);
      ghost var first: (Key, Slab) := ((res, MORTON), Codes(site.morton(res)));
      Perform(PutArray((res, MORTON), Codes(site.morton(res))), s, life0, done);
      assert done + [PutArray(first.0, first.1)] == done + ArrayOps([first] + Pairs(res, members[..0]));
      for i := 0 to |members|
        invariant After(s, life0, done + ArrayOps([first] + Pairs(res, members[..i])))
      {
        ghost var sofar := done + ArrayOps([first] + Pairs(res, members[..i]));
        Perform(PutArray((res, members[i].0), members[i].1), s, life0, sofar);
        assert sofar + [PutArray((res, members[i].0), members[i].1)]
            == done + ArrayOps([first] + Pairs(res, members[..i + 1]));
      }
      assert members[..|members|] == members;
    }

    method Open(w: Write, clearFails: bool, ghost s: Store, ghost life0: nat)
      requires After(s, life0, [])
      modifies this
      ensures After(s, life0, Opening(w, clearFails))
    {
      hide ApplyAll, Apply, After;
      var template := PutTemplate(TemplateKeys(w));
      Perform(DeletePrefix, s, life0, []);
      Perform(DeleteSidecar(clearFails), s, life0, [] + [DeletePrefix]);
      Perform(template, s, life0, [] + [DeletePrefix] + [DeleteSidecar(clearFails)]);
      assert [] + [DeletePrefix] + [DeleteSidecar(clearFails)] + [template] == Opening(w, clearFails);
    }

    method PutGroups(site: Site, w: Write, resolutions: seq<int>, ghost s: Store, ghost life0: nat, ghost done: seq<Op>)
      requires After(s, life0, done)
      modifies this
      ensures After(s, life0, done + ArrayOps(Staged(site, w, resolutions)))
    {
      hide ApplyAll, Apply, After, Pairs, MembersAt;
      assert done == done + ArrayOps(Staged(site, w, resolutions[..0]));
      for i := 0 to |resolutions|
        invariant After(s, life0, done + ArrayOps(Staged(site, w, resolutions[..i])))
      {
        ghost var before, res := Staged(site, w, resolutions[..i]), resolutions[i];
        PutGroup(site, w, resolutions[i], s, life0, done + ArrayOps(before));
        ghost var group := [((res, MORTON), Codes(site.morton(res)))] + Pairs(res, MembersAt(w, res));
        assert resolutions[..i + 1][..i] == resolutions[..i];
        assert Staged(site, w, resolutions[..i + 1]) == before + group;
        assert done + ArrayOps(before) + ArrayOps(group) == done + ArrayOps(before + group);
      }
      assert resolutions[..|resolutions|] == resolutions;
    }

    method Close(site: Site, w: Write, putFails: bool, ghost s: Store, ghost life0: nat, ghost done: seq<Op>)
      requires After(s, life0, done)
      modifies this
      ensures After(s, life0, done + Closing(site, w, putFails))
    {
      hide ApplyAll, Apply, After;
      var attrs, stamp, sidecar :=
        PutAttrs(AttrsOf(w)), PutStamp(StampOf(site, w)), PutSidecar(SidecarOf(site, w), putFails);
      Perform(attrs, s, life0, done);
      Perform(stamp, s, life0, done + [attrs]);
      Perform(sidecar, s, life0, done + [attrs] + [stamp]);
      assert done + [attrs] + [stamp] + [sidecar] == done + Closing(site, w, putFails);
    }

    /** `write_column`. The worker may die after any operation; an operation that raises ends it as well. */
    method WriteColumn(site: Site, w: Write, clearFails: bool, putFails: bool) returns (refused: bool)
      requires !dead
      modifies this
      ensures refused <==> !Accepted(w)
      ensures After(old(store), old(life), WriteOps(site, w, clearFails, putFails))
    {
      hide ApplyAll, Apply, After;
      ghost var s, life0 := store, life;
      Fresh(s);
      var resolutions := Resolutions(w);
      if w.node !in resolutions {
        return true;
      }
      Open(w, clearFails, s, life0);
      PutGroups(site, w, resolutions, s, life0, Opening(w, clearFails));
      Close(site, w, putFails, s, life0, Opening(w, clearFails) + ArrayOps(AllStaged(site, w)));
      return false;
    }

    lemma Fresh(s: Store)
      requires !dead && store == s
      ensures After(s, life, [])
    {
    }

    /** `_clear_column`. */
    method ClearColumn(clearFails: bool)
      requires !dead
      modifies this
      ensures After(old(store), old(life), ClearOps(clearFails))
    {
      hide ApplyAll, Apply;
      ghost var s, life0 := store, life;
      Fresh(s);
      Perform(DeletePrefix, s, life0, []);
      Perform(DeleteSidecar(clearFails), s, life0, [] + [DeletePrefix]);
      assert [] + [DeletePrefix] + [DeleteSidecar(clearFails)] == ClearOps(clearFails);
    }
  }

  /** A worker that stopped does nothing more. */
  lemma {:induction false} StopsForGood(s: Store, ops: seq<Op>, k: nat)
    ensures k <= |ops| && ApplyAll(s, ops[..k]).Stopped? ==> ApplyAll(s, ops) == ApplyAll(s, ops[..k])
  {
    if k <= |ops| && ApplyAll(s, ops[..k]).Stopped? {
      if k == |ops| {
        assert ops[..k] == ops;
      } else {
        var init := ops[..|ops| - 1];
        assert init[..k] == ops[..k];
        StopsForGood(s, init, k);
      }
    }
  }
}
