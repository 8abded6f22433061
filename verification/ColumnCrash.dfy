/** What a reader can find in a column prefix after any history of writers that were cut short anywhere. */
module ColumnCrash {
  import opened Prelude
  import opened ColumnFold
  import opened ColumnPipeline
  import opened ColumnStore

  // ---------------------------------------------------------------- histories

  /** One invocation, with the number of store operations its worker survived. */
  datatype Run =
    | Writing(w: Write, clearFails: bool, putFails: bool, life: nat)
    | Clearing(clearFails: bool, life: nat)

  function OpsOf(site: Site, run: Run): seq<Op> {
    match run
    case Writing(w, clearFails, putFails, _) => WriteOps(site, w, clearFails, putFails)
    case Clearing(clearFails, _) => ClearOps(clearFails)
  }

  function AfterRun(site: Site, s: Store, run: Run): Store {
    var ops := OpsOf(site, run);
    ApplyAll(s, ops[..Min(run.life, |ops|)]).store
  }

  function AfterAll(site: Site, runs: seq<Run>): Store {
    if runs == [] then EMPTY else AfterRun(site, AfterAll(site, runs[..|runs| - 1]), runs[|runs| - 1])
  }

  /** The invocation got as far as the delete that opens it. */
  predicate Touches(run: Run) {
    run.life >= 1 && (run.Writing? ==> Accepted(run.w))
  }

  predicate Writable(site: Site, w: Write) {
    forall i :: 0 <= i < |AllStaged(site, w)| ==> AllStaged(site, w)[i].0 in TemplateKeys(w)
  }

  /** The invocation got as far as its commit stamp. */
  predicate Completes(site: Site, run: Run) {
    run.Writing? && Accepted(run.w) && Writable(site, run.w) && run.life >= |AllStaged(site, run.w)| + 5
  }

  predicate RecordsFresh(site: Site, run: Run) {
    Completes(site, run) && !run.putFails && run.life >= |AllStaged(site, run.w)| + 6
  }

  /** The prefix is the whole of one fold: its template, all its arrays, its attributes and its stamp. */
  predicate Holds(site: Site, s: Store, w: Write) {
    && s.template == Some(TemplateKeys(w))
    && s.arrays == Dict(AllStaged(site, w))
    && s.attrs == Some(AttrsOf(w))
    && s.stamp == Some(StampOf(site, w))
  }

  // ---------------------------------------------------------------- one run

  lemma {:induction false} ApplyAppend(s: Store, a: seq<Op>, b: seq<Op>)
    ensures ApplyAll(s, a + b) == if ApplyAll(s, a).Stopped? then ApplyAll(s, a) else ApplyAll(ApplyAll(s, a).store, b)
  {
    if b == [] {
      assert a + b == a;
    } else {
      assert (a + b)[..|a + b| - 1] == a + b[..|b| - 1];
      ApplyAppend(s, a, b[..|b| - 1]);
    }
  }

  lemma {:induction false} ApplyArrays(s: Store, pairs: seq<(Key, Slab)>)
    requires s.template.Some? && s.arrays == map[]
    ensures var t := ApplyAll(s, ArrayOps(pairs));
            && t.store == s.(arrays := t.store.arrays)
            && (t.Going? <==> forall i :: 0 <= i < |pairs| ==> pairs[i].0 in s.template.value)
            && (t.Going? ==> t.store.arrays == Dict(pairs))
  {
    if pairs != [] {
      var n := |pairs| - 1;
      ApplyArrays(s, pairs[..n]);
      assert ArrayOps(pairs)[..n] == ArrayOps(pairs[..n]);
      assert forall i :: 0 <= i < n ==> pairs[..n][i] == pairs[i];
    }
  }

  function Cleared(s: Store, clearFails: bool): Store {
    Store(None, map[], None, None, if clearFails then s.sidecar else None)
  }

  lemma ApplyOpening(s: Store, w: Write, clearFails: bool)
    ensures ApplyAll(s, Opening(w, clearFails)[..1]).store
            == s.(template := None, arrays := map[], attrs := None, stamp := None)
    ensures ApplyAll(s, ClearOps(clearFails)) == Going(Cleared(s, clearFails))
    ensures Opening(w, clearFails)[..2] == ClearOps(clearFails)
            && Opening(w, clearFails)[..1] == ClearOps(clearFails)[..1]
    ensures ApplyAll(s, Opening(w, clearFails)) == Going(Cleared(s, clearFails).(template := Some(TemplateKeys(w))))
  {
    var ops := Opening(w, clearFails);
    assert ops[..1][..0] == [] && ops[..1][0] == DeletePrefix;
    assert ops[..2][..1] == ops[..1];
    assert ApplyAll(s, ops[..1]) == Apply(s, DeletePrefix);
    assert ops[..2] == ClearOps(clearFails) && ClearOps(clearFails)[..1] == ops[..1];
  }

  lemma ApplyClosing(t: Store, site: Site, w: Write, putFails: bool, j: nat)
    requires j <= 3
    ensures ApplyAll(t, Closing(site, w, putFails)[..j])
            == Going(Store(t.template, t.arrays, if j >= 1 then Some(AttrsOf(w)) else t.attrs,
                                if j >= 2 then Some(StampOf(site, w)) else t.stamp,
                                if j >= 3 && !putFails then Some(SidecarOf(site, w)) else t.sidecar))
  {
    hide AttrsOf, StampOf, SidecarOf, ApplyAll;
    var attrs, stamp, sidecar :=
      PutAttrs(AttrsOf(w)), PutStamp(StampOf(site, w)), PutSidecar(SidecarOf(site, w), putFails);
    ApplyNone(t);
    ApplySnoc(t, [], attrs);
    ApplySnoc(t, [] + [attrs], stamp);
    ApplySnoc(t, [] + [attrs] + [stamp], sidecar);
    assert Closing(site, w, putFails)[..j] ==
      if j == 0 then [] else if j == 1 then [] + [attrs] else if j == 2 then [] + [attrs] + [stamp]
      else [] + [attrs] + [stamp] + [sidecar];
  }

  lemma ApplyNone(s: Store)
    ensures ApplyAll(s, []) == Going(s)
  {
  }

  lemma ApplySnoc(s: Store, ops: seq<Op>, op: Op)
    ensures ApplyAll(s, ops + [op])
            == if ApplyAll(s, ops).Stopped? then ApplyAll(s, ops) else Apply(ApplyAll(s, ops).store, op)
  {
    assert (ops + [op])[..|ops|] == ops;
  }

  /** A write cut after the template and the first `m` arrays. */
  lemma CutInArrays(site: Site, s: Store, w: Write, clearFails: bool, m: nat)
    requires m <= |AllStaged(site, w)|
    ensures var t := ApplyAll(s, Opening(w, clearFails) + ArrayOps(AllStaged(site, w)[..m]));
            && t.store.stamp.None? && t.store.sidecar == Cleared(s, clearFails).sidecar
            && (t.Going? <==> forall i :: 0 <= i < m ==> AllStaged(site, w)[i].0 in TemplateKeys(w))
            && (t.Going? ==>
                  t.store.template == Some(TemplateKeys(w)) && t.store.arrays == Dict(AllStaged(site, w)[..m]))
  {
    hide ApplyAll, TemplateKeys, AllStaged, Opening;
    var pairs, ready := AllStaged(site, w)[..m], Cleared(s, clearFails).(template := Some(TemplateKeys(w)));
    ApplyOpening(s, w, clearFails);
    ApplyAppend(s, Opening(w, clearFails), ArrayOps(pairs));
    ApplyArrays(ready, pairs);
    assert forall i :: 0 <= i < m ==> pairs[i] == AllStaged(site, w)[i];
  }

  /** What a run leaves, wherever it is cut. */
  lemma RunExact(site: Site, s: Store, run: Run)
    ensures var t := AfterRun(site, s, run);
            && (!Touches(run) ==> t == s)
            && (Touches(run) ==> (t.stamp.Some? <==> Completes(site, run)))
            && (Completes(site, run) ==> Holds(site, t, run.w))
            && t.sidecar == (if RecordsFresh(site, run) then Some(SidecarOf(site, run.w))
                             else if Touches(run) && run.life >= 2 && !run.clearFails then None
                             else s.sidecar)
  {
    if run.life == 0 {
      assert OpsOf(site, run)[..0] == [];
    } else if run.Clearing? {
      ClearExact(site, s, run);
    } else if Accepted(run.w) {
      WriteExact(site, s, run);
    }
  }

  lemma ClearExact(site: Site, s: Store, run: Run)
    requires run.Clearing? && run.life >= 1
    ensures var t := AfterRun(site, s, run);
            t.stamp.None? && t.sidecar == if run.life >= 2 && !run.clearFails then None else s.sidecar
  {
    var any := Write([], [], 0, 0, None, 0);
    ApplyOpening(s, any, run.clearFails);
    var ops := OpsOf(site, run);
    assert ops[..2] == ops;
  }

  lemma WriteExact(site: Site, s: Store, run: Run)
    requires run.Writing? && run.life >= 1 && Accepted(run.w)
    ensures var t := AfterRun(site, s, run);
            && (t.stamp.Some? <==> Completes(site, run))
            && (Completes(site, run) ==> Holds(site, t, run.w))
            && t.sidecar == (if RecordsFresh(site, run) then Some(SidecarOf(site, run.w))
                             else if run.life >= 2 && !run.clearFails then None
                             else s.sidecar)
  {
    hide ApplyAll, AllStaged, TemplateKeys, AttrsOf, StampOf, SidecarOf, Accepted, Dict, Opening, Closing;
    var w, pairs := run.w, AllStaged(site, run.w);
    var open, arrays, close := Opening(w, run.clearFails), ArrayOps(AllStaged(site, w)), Closing(site, w, run.putFails);
    var ops, n := open + arrays + close, |pairs|;
    assert |open| == 3 && |close| == 3 by {
      ClosingLengths(site, w, run.clearFails, run.putFails);
    }
    if run.life < 3 {
      assert ops[..run.life] == open[..run.life];
      ApplyOpening(s, w, run.clearFails);
    } else if run.life <= n + 3 {
      assert ops[..run.life] == open + ArrayOps(pairs[..run.life - 3]);
      CutInArrays(site, s, w, run.clearFails, run.life - 3);
    } else {
      var j := Min(run.life, |ops|) - 3 - n;
      assert ops[..Min(run.life, |ops|)] == (open + ArrayOps(pairs[..n])) + close[..j] by {
        assert pairs[..n] == pairs;
      }
      CutInArrays(site, s, w, run.clearFails, n);
      var t := ApplyAll(s, open + ArrayOps(pairs[..n]));
      ApplyAppend(s, open + ArrayOps(pairs[..n]), close[..j]);
      ApplyClosing(t.store, site, w, run.putFails, j);
      assert pairs[..n] == pairs;
    }
  }

  lemma ClosingLengths(site: Site, w: Write, clearFails: bool, putFails: bool)
    ensures |Opening(w, clearFails)| == 3 && |Closing(site, w, putFails)| == 3
  {
  }

  // ---------------------------------------------------------------- any history

  /** The last invocation that touched the prefix. */
  function Last(runs: seq<Run>): (r: Option<nat>)
    ensures r.Some? ==> r.value < |runs| && Touches(runs[r.value])
    ensures forall i :: (r.None? || r.value < i) && 0 <= i < |runs| ==> !Touches(runs[i])
  {
    if runs == [] then None
    else if Touches(runs[|runs| - 1]) then Some(|runs| - 1)
    else Last(runs[..|runs| - 1])
  }

  /**
   Whatever runs came before and wherever each was cut: a stamped column is, whole and unmixed, the fold of the
   last run that touched the prefix, and it is stamped exactly when that run was a write that reached its stamp.
   */
  lemma {:induction false} StampedExactly(site: Site, runs: seq<Run>)
    ensures var s := AfterAll(site, runs);
            if Last(runs).None? then s == EMPTY
            else
              var run := runs[Last(runs).value];
              && (s.stamp.Some? <==> Completes(site, run))
              && (s.stamp.Some? ==> Holds(site, s, run.w) && Accepted(run.w))
  {
    if runs != [] {
      StampedExactly(site, runs[..|runs| - 1]);
      RunExact(site, AfterAll(site, runs[..|runs| - 1]), runs[|runs| - 1]);
    }
  }

  /** The sidecar beside a stamped column describes another fold. */
  predicate Stale(site: Site, s: Store, w: Write) {
    s.sidecar.Some? && s.sidecar.value != SidecarOf(site, w)
  }

  lemma {:induction false} QuietSince(site: Site, runs: seq<Run>, i: nat)
    requires i < |runs| && forall j :: i < j < |runs| ==> !Touches(runs[j])
    ensures AfterAll(site, runs) == AfterRun(site, AfterAll(site, runs[..i]), runs[i])
  {
    hide AfterRun, ApplyAll, Holds, Completes, RecordsFresh;
    if i < |runs| - 1 {
      var init := runs[..|runs| - 1];
      assert init[..i] == runs[..i];
      QuietSince(site, init, i);
      RunExact(site, AfterAll(site, init), runs[|runs| - 1]);
    }
  }

  /**
   The sidecar of a stamped column is either absent or its own, unless the fail-open delete failed and no fresh
   sidecar followed: it is stale exactly when the delete failed, the put failed or was never reached, and another
   fold's sidecar had been there. So a failing put alone leaves the record absent, but both failing leave it stale.
   */
  lemma SidecarExactly(site: Site, runs: seq<Run>)
    requires AfterAll(site, runs).stamp.Some?
    ensures Last(runs).Some? && runs[Last(runs).value].Writing?
    ensures var i := Last(runs).value;
            var run, before := runs[i], AfterAll(site, runs[..i]).sidecar;
            Stale(site, AfterAll(site, runs), run.w) <==>
              && run.clearFails
              && (run.putFails || run.life == |AllStaged(site, run.w)| + 5)
              && before.Some? && before.value != SidecarOf(site, run.w)
  {
    hide AfterRun, AllStaged, SidecarOf, Holds;
    StampedExactly(site, runs);
    var i := Last(runs).value;
    QuietSince(site, runs, i);
    RunExact(site, AfterAll(site, runs[..i]), runs[i]);
  }

  /** Two writes that both reach their stamp, the second with neither sidecar step done: its column stands beside the
      first one's record. */
  lemma BothStepsFail(site: Site, first: Write, second: Write)
    requires Accepted(first) && Writable(site, first) && Accepted(second) && Writable(site, second)
    requires SidecarOf(site, first) != SidecarOf(site, second)
    ensures var runs := [Writing(first, false, false, |AllStaged(site, first)| + 6),
                         Writing(second, true, true, |AllStaged(site, second)| + 6)];
            && Holds(site, AfterAll(site, runs), second) && Stale(site, AfterAll(site, runs), second)
            && AfterAll(site, runs).sidecar == Some(SidecarOf(site, first))
  {
    hide AllStaged, SidecarOf, Accepted, Writable, AfterRun, Holds;
    var run := Writing(first, false, false, |AllStaged(site, first)| + 6);
    var runs := [run, Writing(second, true, true, |AllStaged(site, second)| + 6)];
    assert [run][..0] == [] && runs[..1] == [run];
    RunExact(site, EMPTY, run);
    assert AfterAll(site, runs[..1]) == AfterRun(site, EMPTY, run);
    assert RecordsFresh(site, run) && Completes(site, runs[1]) && !RecordsFresh(site, runs[1]);
    RunExact(site, AfterAll(site, runs[..1]), runs[1]);
  }

  /** A shard written with no granule and again with one: the stamp counts one, the sidecar none. */
  lemma StaleSidecar(site: Site)
    ensures var none, one := Write([(0, [])], [], 0, 0, None, 0), Write([(0, [])], [], 0, 0, None, 1);
            var s := AfterAll(site, [Writing(none, false, false, 7), Writing(one, true, true, 7)]);
            s.stamp.Some? && s.stamp.value.granules == 1 && s.sidecar.Some? && s.sidecar.value.granules == 0
  {
    var none, one := Write([(0, [])], [], 0, 0, None, 0), Write([(0, [])], [], 0, 0, None, 1);
    BareWrite(site, none);
    BareWrite(site, one);
    BothStepsFail(site, none, one);
  }

  lemma BareWrite(site: Site, w: Write)
    requires w.folded == [(0, [])] && w.node == 0
    ensures Accepted(w) && Writable(site, w) && |AllStaged(site, w)| == 1
  {
    assert KeysOf(w.folded) == [0] && SortDown([0][1..]) == [];
    assert Resolutions(w) == [0];
    assert [0][..0] == [] && MembersAt(w, 0) == [] && Staged(site, w, [0][..0]) == [];
    assert AllStaged(site, w) == [((0, MORTON), Codes(site.morton(0)))];
  }

  // ---------------------------------------------------------------- what a stamped column holds

  predicate NoDuplicates(pairs: seq<(Key, Slab)>) {
    forall i, j :: 0 <= i < j < |pairs| ==> pairs[i].0 != pairs[j].0
  }

  lemma {:induction false} DictExact(pairs: seq<(Key, Slab)>)
    ensures forall key :: key in Dict(pairs) <==> exists i :: 0 <= i < |pairs| && pairs[i].0 == key
    ensures NoDuplicates(pairs) ==> forall i :: 0 <= i < |pairs| ==>
            pairs[i].0 in Dict(pairs) && Dict(pairs)[pairs[i].0] == pairs[i].1
  {
    if pairs != [] {
      var n := |pairs| - 1;
      DictExact(pairs[..n]);
      assert forall i :: 0 <= i < n ==> pairs[..n][i] == pairs[i];
    }
  }

  /** The folded arrays of one group have names of their own, none of them that of the cell words. */
  predicate Named(members: Members) {
    && (forall i :: 0 <= i < |members| ==> members[i].0 != MORTON)
    && forall i, j :: 0 <= i < j < |members| ==> members[i].0 != members[j].0
  }

  lemma {:induction false} StagedExact(site: Site, w: Write, resolutions: seq<int>)
    requires Descending(resolutions) && forall res :: res in resolutions ==> Named(MembersAt(w, res))
    ensures var staged := Staged(site, w, resolutions);
            && NoDuplicates(staged)
            && (forall i :: 0 <= i < |staged| ==> staged[i].0.0 in resolutions)
            && forall res :: res in resolutions ==>
                 && ((res, MORTON), Codes(site.morton(res))) in staged
                 && forall m :: m in MembersAt(w, res) ==> ((res, m.0), m.1) in staged
  {
    hide MembersAt;
    if resolutions != [] {
      var n := |resolutions| - 1;
      var init, res := resolutions[..n], resolutions[n];
      StagedExact(site, w, init);
      var before, group := Staged(site, w, init), Pairs(res, MembersAt(w, res));
      var first: (Key, Slab) := ((res, MORTON), Codes(site.morton(res)));
      assert Staged(site, w, resolutions) == before + [first] + group;
      assert forall r :: r in resolutions <==> r in init || r == res;
      forall m | m in MembersAt(w, res) ensures ((res, m.0), m.1) in group {
        var i :| 0 <= i < |MembersAt(w, res)| && MembersAt(w, res)[i] == m;
        assert group[i] == ((res, m.0), m.1);
      }
    }
  }

  /** A stamped column carries every group of its fold, the node-order one among them: the cell words and each
      folded array, as they were handed to the writer. */
  lemma StampedHasEveryGroup(site: Site, s: Store, w: Write, res: int)
    requires Holds(site, s, w) && Accepted(w) && res in KeysOf(w.folded)
    requires forall i :: 0 <= i < |w.folded| ==> Named(MembersAt(w, w.folded[i].0))
    ensures w.node in KeysOf(w.folded)
    ensures (res, MORTON) in s.arrays && s.arrays[(res, MORTON)] == Codes(site.morton(res))
    ensures forall m :: m in MembersAt(w, res) ==> (res, m.0) in s.arrays && s.arrays[(res, m.0)] == m.1
    ensures s.attrs.value.finest in KeysOf(w.folded) && forall r :: r in KeysOf(w.folded) ==> r <= s.attrs.value.finest
  {
    hide MembersAt, Named, Staged, Dict;
    var resolutions, keys := Resolutions(w), KeysOf(w.folded);
    SortDownExact(keys);
    forall r | r in resolutions ensures Named(MembersAt(w, r)) {
      var i :| 0 <= i < |keys| && keys[i] == r;
      assert w.folded[i].0 == r;
    }
    StagedExact(site, w, resolutions);
    DictExact(AllStaged(site, w));
    assert resolutions != [] && resolutions[0] in resolutions;
  }

  lemma GroupNames(k: Kernels, slabs: Slabs, n: nat, f: nat, fields: Fields, key: string)
    requires SameExtent(slabs, n * f) && AllFoldable(slabs, n * f, fields) && Lawful(k.digests)
    requires key in Group(k, slabs, n, f, fields)
    ensures exists i :: 0 <= i < |fields| && key in ArrayNames(fields[i].0, fields[i].1)
  {
    hide Lawful, Foldable, FieldArray;
    MergeExact(GroupParts(k, slabs, n, f, fields), key);
  }

  /** What `fold_column` returns can be written in full: every array it folds is in the template. */
  lemma FoldIsWritable(k: Kernels, site: Site, slabs: Slabs, n: nat, w: Write)
    requires SameExtent(slabs, n) && Lawful(k.digests)
    requires forall i :: 0 <= i < |w.folded| ==>
               var res := w.folded[i].0;
               && GroupFolds(slabs, n, ComposableFields(w.declared), w.cell, res)
               && forall m :: m in MembersAt(w, res) ==>
                  m.0 in GroupAt(k, slabs, n, ComposableFields(w.declared), w.cell, res)
    ensures Writable(site, w)
  {
    hide MembersAt, GroupFolds, Lawful;
    var fields, keys := ComposableFields(w.declared), KeysOf(w.folded);
    SortDownExact(keys);
    forall res, m | res in Resolutions(w) && m in MembersAt(w, res) ensures (res, m.0) in TemplateKeys(w) {
      var i :| 0 <= i < |keys| && keys[i] == res;
      assert w.folded[i].0 == res;
      GroupAtNames(k, slabs, n, fields, w.cell, res, m.0);
    }
    StagedInTemplate(site, w, Resolutions(w));
  }

  lemma GroupAtNames(k: Kernels, slabs: Slabs, n: nat, fields: Fields, cell: int, res: int, key: string)
    requires SameExtent(slabs, n) && GroupFolds(slabs, n, fields, cell, res) && Lawful(k.digests)
    requires key in GroupAt(k, slabs, n, fields, cell, res)
    ensures exists i :: 0 <= i < |fields| && key in ArrayNames(fields[i].0, fields[i].1)
  {
    hide Group, Lawful, AllFoldable;
    var f := Factor(cell, res);
    assert n == n / f * f;
    GroupNames(k, slabs, n / f, f, fields, key);
  }

  lemma {:induction false} StagedInTemplate(site: Site, w: Write, resolutions: seq<int>)
    requires forall res :: res in resolutions ==> res in Resolutions(w)
    requires forall res, m :: res in Resolutions(w) && m in MembersAt(w, res) ==> (res, m.0) in TemplateKeys(w)
    ensures forall i :: 0 <= i < |Staged(site, w, resolutions)| ==> Staged(site, w, resolutions)[i].0 in TemplateKeys(w)
  {
    hide MembersAt, Template;
    if resolutions != [] {
      var res := resolutions[|resolutions| - 1];
      StagedInTemplate(site, w, resolutions[..|resolutions| - 1]);
      var group := Pairs(res, MembersAt(w, res));
      forall i | 0 <= i < |group| ensures group[i].0 in TemplateKeys(w) {
        assert MembersAt(w, res)[i] in MembersAt(w, res);
      }
    }
  }

  // ---------------------------------------------------------------- a delete that is not atomic

  /** The objects of a prefix: the root document with attributes and stamp, and one object per array. */
  datatype Object = Root | ArrayObject(key: Key)

  function Remove(s: Store, item: Object): Store {
    match item
    case Root => s.(template := None, attrs := None, stamp := None)
    case ArrayObject(key) => s.(arrays := s.arrays - {key})
  }

  function RemoveAll(s: Store, order: seq<Object>): Store {
    if order == [] then s else Remove(RemoveAll(s, order[..|order| - 1]), order[|order| - 1])
  }

  ghost predicate Lists(order: seq<Object>, s: Store) {
    forall o :: o in order <==> o == Root || (o.ArrayObject? && o.key in s.arrays)
  }

  lemma {:induction false} RootGone(s: Store, order: seq<Object>)
    requires order != [] && order[0] == Root
    ensures RemoveAll(s, order).stamp.None?
  {
    if |order| > 1 {
      RootGone(s, order[..|order| - 1]);
    }
  }

  /** Deleting a stamped prefix object by object never shows a stamped column with arrays missing, whatever the
      moment of the crash, exactly when the root document goes first. */
  lemma DeleteOrderExactly(s: Store, order: seq<Object>)
    requires s.stamp.Some? && Lists(order, s)
    ensures (forall k :: 0 <= k <= |order| ==>
               var t := RemoveAll(s, order[..k]); t.stamp.Some? ==> t.arrays == s.arrays)
            <==> order != [] && order[0] == Root
  {
    assert Root in order;
    assert order[..0] == [];
    assert order[..1][..|order[..1]| - 1] == [] && order[..1][0] == order[0];
    if order[0] == Root {
      forall k | 0 < k <= |order| ensures RemoveAll(s, order[..k]).stamp.None? {
        RootGone(s, order[..k]);
      }
    } else {
      assert order[0] in order;
      var one := order[..1];
      assert RemoveAll(s, []) == s && one[..|one| - 1] == [];
      var t := RemoveAll(s, one);
      assert t == Remove(s, one[0]);
      assert t.stamp.Some? && order[0].key !in t.arrays && order[0].key in s.arrays;
    }
  }
}
