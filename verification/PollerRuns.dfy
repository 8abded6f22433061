/** What the invariant of the poller gives for whole runs, and the runs that show the bounds are exact. */
module PollerRuns {
  import opened Prelude
  import opened PollerModel
  import opened PollerSafety

  // ---------------------------------------------------------------- one entry along a run

  /** `b` continues `a`: the same shard, and an entry whose future is done never changes again. */
  predicate Continues(a: Entry, b: Entry) {
    && a.key == b.key && a.live == b.live
    && a.attempts <= b.attempts && a.accepted <= b.accepted && a.lost <= b.lost
    && (a.Done() ==> b == a)
  }

  lemma LookContinues(cfg: Config, e: Entry, listed: set<string>, at: real, objects: map<string, Content>,
                      getFaults: bool)
    ensures Continues(e, Look(cfg, e, listed, at, objects, getFaults).entry)
  {
  }

  lemma FireContinues(cfg: Config, e: Entry, now: real, outcome: InvokeOutcome)
    requires e.Flying()
    ensures Continues(e, StartFire(e, now)) && Continues(e, EndFire(cfg, e, now, outcome))
  {
  }

  lemma StepContinues(s: State, ev: Event, i: nat)
    requires Inv(s) && Enabled(s, ev) && i < |s.entries|
    ensures |s.entries| <= |Step(s, ev).entries| && Continues(s.entries[i], Step(s, ev).entries[i])
    ensures s.refused <= Step(s, ev).refused
  {
    hide Look, EndFire, StartFire, Batch, EntryOk;
    if ev.ScanStep? {
      LookContinues(s.cfg, s.entries[ev.i], s.ctl.listed, s.ctl.at, s.objects, ev.getFaults);
    } else if ev.FireBegin? {
      FireContinues(s.cfg, s.entries[ev.i], s.now, Accepted);
    } else if ev.FireEnd? {
      FireContinues(s.cfg, s.entries[ev.i], s.now, ev.outcome);
    }
    if ev.Select? {
      BatchExact(s.cfg, s.entries, ev.at);
    }
  }

  /** Prefixes of a run are runs, and every future resolved by then is untouched by the rest. */
  lemma {:induction false} ResolvedIsFinal(cfg: Config, start: real, es: seq<Event>, n: nat, i: nat)
    requires ValidConfig(cfg) && CanRun(Init(cfg, start), es) && n <= |es|
    ensures CanRun(Init(cfg, start), es[..n])
    ensures var s, t := Exec(Init(cfg, start), es[..n]), Exec(Init(cfg, start), es);
            i < |s.entries| ==> i < |t.entries| && Continues(s.entries[i], t.entries[i])
  {
    if n == |es| {
      assert es[..n] == es;
    } else {
      var pre := es[..|es| - 1];
      assert pre[..n] == es[..n];
      ResolvedIsFinal(cfg, start, pre, n, i);
      RunsKeep(cfg, start, pre);
      var s := Exec(Init(cfg, start), pre);
      if i < |Exec(Init(cfg, start), es[..n]).entries| {
        StepContinues(s, es[|es| - 1], i);
      }
    }
  }

  /** A shard's future is resolved at most once, and only for the reason its verdict states. */
  lemma VerdictsSound(cfg: Config, start: real, es: seq<Event>, i: nat)
    requires ValidConfig(cfg) && CanRun(Init(cfg, start), es)
    requires i < |Exec(Init(cfg, start), es).entries|
    ensures var s := Exec(Init(cfg, start), es);
            var e := s.entries[i];
            && |e.verdicts| <= 1
            && (e.Done() ==> !e.queued && Justified(cfg, e, e.verdicts[0], s.now))
  {
    RunsKeep(cfg, start, es);
    var s := Exec(Init(cfg, start), es);
    assert EntryOk(s.cfg, s.entries[i], RoleOf(s.ctl, i), s.now);
    CfgFixed(cfg, start, es);
  }

  lemma {:induction false} CfgFixed(cfg: Config, start: real, es: seq<Event>)
    requires CanRun(Init(cfg, start), es)
    ensures Exec(Init(cfg, start), es).cfg == cfg
  {
    if es != [] {
      CfgFixed(cfg, start, es[..|es| - 1]);
    }
  }

  // ---------------------------------------------------------------- verdicts rest on objects that were there

  /** At event `k` of the run the poller looked at entry `i`, whose key had been listed, and its GET was answered
      with `obj`. */
  ghost predicate LookedAt(s0: State, es: seq<Event>, k: nat, i: nat, obj: StatusObject)
    requires CanRun(s0, es)
  {
    && k < |es| && es[k].ScanStep? && es[k].i == i && CanRun(s0, es[..k])
    && var s := Exec(s0, es[..k]);
    && i < |s.entries| && s.ctl.Scanning? && s.entries[i].key in s.ctl.listed && !es[k].getFaults
    && s.entries[i].key in s.objects && s.objects[s.entries[i].key] == Parsed(obj)
  }

  lemma NewVerdict(s: State, ev: Event, i: nat, obj: StatusObject)
    requires Inv(s) && Enabled(s, ev) && i < |Step(s, ev).entries|
    requires i < |s.entries| ==> !s.entries[i].Done()
    requires var e := Step(s, ev).entries[i];
             e.Done() && (e.verdicts[0] == Succeeded(obj) || e.verdicts[0] == WorkerFailed(obj))
    ensures ev.ScanStep? && ev.i == i
    ensures i < |s.entries| && s.entries[i].key in s.ctl.listed && !ev.getFaults
    ensures s.entries[i].key in s.objects && s.objects[s.entries[i].key] == Parsed(obj)
  {
    hide Batch, FlyingBelow, ControlOk;
  }

  /** Success and worker failure are only ever reported from a status object the poller fetched for that shard. */
  lemma {:induction false} VerdictHasObject(cfg: Config, start: real, es: seq<Event>, i: nat, obj: StatusObject)
    requires ValidConfig(cfg) && CanRun(Init(cfg, start), es)
    requires var s := Exec(Init(cfg, start), es);
             i < |s.entries| && s.entries[i].Done()
             && (s.entries[i].verdicts[0] == Succeeded(obj) || s.entries[i].verdicts[0] == WorkerFailed(obj))
    ensures exists k: nat :: LookedAt(Init(cfg, start), es, k, i, obj)
  {
    var s0 := Init(cfg, start);
    var n := |es| - 1;
    var pre := es[..n];
    var s := Exec(s0, pre);
    RunsKeep(cfg, start, pre);
    if i < |s.entries| && s.entries[i].Done() {
      StepContinues(s, es[n], i);
      VerdictHasObject(cfg, start, pre, i, obj);
      var k: nat :| LookedAt(s0, pre, k, i, obj);
      assert pre[..k] == es[..k];
      assert LookedAt(s0, es, k, i, obj);
    } else {
      NewVerdict(s, es[n], i, obj);
      assert LookedAt(s0, es, n, i, obj);
    }
  }

  // ---------------------------------------------------------------- billing

  /** Dispatches are bounded by the retry budget, returned invokes by two, in every reachable state. */
  lemma BillingBound(cfg: Config, start: real, es: seq<Event>, i: nat)
    requires ValidConfig(cfg) && CanRun(Init(cfg, start), es)
    requires i < |Exec(Init(cfg, start), es).entries|
    ensures var e := Exec(Init(cfg, start), es).entries[i];
            && (e.live ==> e.attempts <= cfg.maxRetries && e.dropRefires <= MAX_DROP_REFIRES)
            && (!e.live ==> e.attempts == 1 && e.Billed() == 0)
            && e.accepted <= 2
            && e.Billed() <= cfg.maxRetries
            && (e.lost == 0 ==> e.Billed() <= 2)
            && (e.live && e.queued ==> e.accepted == e.dropRefires)
  {
    RunsKeep(cfg, start, es);
    CfgFixed(cfg, start, es);
    var s := Exec(Init(cfg, start), es);
    assert EntryOk(s.cfg, s.entries[i], RoleOf(s.ctl, i), s.now);
  }

  /** A shard whose every invoke reply gets lost, stopped just after its `k`-th dispatch. */
  ghost predicate Losing(s: State, cfg: Config, k: nat) {
    && s.cfg == cfg && s.ctl.Idle? && |s.entries| == 1 && s.refused == []
    && var e := s.entries[0];
    && e.live && e.attempts == e.lost == k && e.accepted == 0
    && (k < cfg.maxRetries ==> e.queued && !e.Done())
  }

  lemma OneShardBatch(s: State)
    requires |s.entries| == 1 && Eligible(s.entries[0], s.now)
    requires s.cfg.window.Some? ==> s.cfg.window.value >= 1
    ensures Batch(s.cfg, s.entries, s.now) == [0]
  {
    assert FlyingBelow(s.entries, 0) == [];
    assert EligibleBelow(s.entries, s.now, 0) == [];
    assert FlyingBelow(s.entries, 1) == [];
    assert EligibleBelow(s.entries, s.now, 1) == [0];
  }

  /** Once the backoff is over the shard is picked. */
  lemma LosingPick(s: State, cfg: Config, k: nat)
    requires Losing(s, cfg, k) && k < cfg.maxRetries && (cfg.window.Some? ==> cfg.window.value >= 1)
    requires s.now >= s.entries[0].notBefore
    ensures Enabled(s, Select(s.now))
    ensures Step(s, Select(s.now)) == s.(entries := [s.entries[0].(queued := false)], ctl := Dispatching([0], false))
  {
    OneShardBatch(s);
    assert MarkSelected(s.entries, [0]) == [s.entries[0].(queued := false)];
  }

  lemma LosingFire(s: State, cfg: Config, k: nat)
    requires s.cfg == cfg && s.ctl == Dispatching([0], false) && |s.entries| == 1 && s.refused == []
             && k < cfg.maxRetries
    requires var e := s.entries[0]; e.live && e.attempts == e.lost == k && e.accepted == 0 && !e.queued && !e.Done()
    ensures Enabled(s, FireBegin(0)) && Enabled(Step(s, FireBegin(0)), FireEnd(0, LostReply))
    ensures Losing(Step(Step(s, FireBegin(0)), FireEnd(0, LostReply)), cfg, k + 1)
  {
  }

  /** The service can be made to run a shard as often as the retry budget allows. */
  lemma {:induction false} LosingRun(cfg: Config, start: real, k: nat) returns (es: seq<Event>)
    requires ValidConfig(cfg) && k <= cfg.maxRetries
    requires cfg.window.Some? ==> cfg.window.value >= 1
    ensures CanRun(Init(cfg, start), es) && Losing(Exec(Init(cfg, start), es), cfg, k)
  {
    var s0 := Init(cfg, start);
    if k == 0 {
      ExecAppend(s0, [], Register("shard", true, None));
      es := [] + [Register("shard", true, None)];
    } else {
      es := LosingRun(cfg, start, k - 1);
      hide Exec, CanRun, Batch;
      var s := Exec(s0, es);
      var later := if s.now < s.entries[0].notBefore then s.entries[0].notBefore else s.now;
      es := Extend(s0, es, World(later, s.objects));
      LosingPick(Exec(s0, es), cfg, k - 1);
      es := Extend(s0, es, Select(later));
      LosingFire(Exec(s0, es), cfg, k - 1);
      hide Step;
      es := Extend(s0, es, FireBegin(0));
      es := Extend(s0, es, FireEnd(0, LostReply));
    }
  }

  lemma Extend(s0: State, es: seq<Event>, ev: Event) returns (longer: seq<Event>)
    requires CanRun(s0, es) && Enabled(Exec(s0, es), ev)
    ensures CanRun(s0, longer) && Exec(s0, longer) == Step(Exec(s0, es), ev)
  {
    ExecAppend(s0, es, ev);
    longer := es + [ev];
  }

  ghost predicate AtMostTwoBilled(cfg: Config, start: real) {
    forall es, i :: CanRun(Init(cfg, start), es) && 0 <= i < |Exec(Init(cfg, start), es).entries|
      ==> Exec(Init(cfg, start), es).entries[i].Billed() <= 2
  }

  /** A window of zero or less dispatches nothing. */
  lemma {:induction false} ShutWindow(cfg: Config, start: real, es: seq<Event>, i: nat)
    requires ValidConfig(cfg) && CanRun(Init(cfg, start), es) && cfg.window.Some? && cfg.window.value <= 0
    ensures var s := Exec(Init(cfg, start), es);
            !s.ctl.Dispatching? && (i < |s.entries| ==> s.entries[i].Billed() == 0)
  {
    if es != [] {
      ShutWindow(cfg, start, es[..|es| - 1], i);
      CfgFixed(cfg, start, es[..|es| - 1]);
    }
  }

  /**
   The bound of two billed executions per shard that the class comment states holds exactly when the
   retry budget is at most two (or nothing is ever dispatched): an invoke may raise after the service
   took the event, and such a dispatch is retried under the budget of fault class (c).
   */
  lemma TwoBilledExactly(cfg: Config, start: real)
    requires ValidConfig(cfg)
    ensures AtMostTwoBilled(cfg, start) <==> cfg.maxRetries <= 2 || (cfg.window.Some? && cfg.window.value <= 0)
  {
    if cfg.maxRetries <= 2 || (cfg.window.Some? && cfg.window.value <= 0) {
      forall es, i | CanRun(Init(cfg, start), es) && 0 <= i < |Exec(Init(cfg, start), es).entries|
        ensures Exec(Init(cfg, start), es).entries[i].Billed() <= 2
      {
        BillingBound(cfg, start, es, i);
        if cfg.maxRetries > 2 {
          ShutWindow(cfg, start, es, i);
        }
      }
    } else {
      var es := LosingRun(cfg, start, 3);
      assert Exec(Init(cfg, start), es).entries[0].Billed() == 3;
    }
  }

  // ---------------------------------------------------------------- deduplication

  /** For a shard still waiting, the ids already consumed are exactly those of objects with an unusable body;
      no other object is ever passed over. */
  lemma PassedOverExactly(cfg: Config, start: real, es: seq<Event>, i: nat, obj: StatusObject)
    requires ValidConfig(cfg) && CanRun(Init(cfg, start), es)
    requires var s := Exec(Init(cfg, start), es); i < |s.entries| && !s.entries[i].Done()
    ensures var e := Exec(Init(cfg, start), es).entries[i];
            && e.consumed == e.misread
            && (AlreadyConsumed(e, obj) <==> obj.attemptId != "" && obj.attemptId in e.misread)
  {
    RunsKeep(cfg, start, es);
    var s := Exec(Init(cfg, start), es);
    assert EntryOk(s.cfg, s.entries[i], RoleOf(s.ctl, i), s.now);
  }

  ghost predicate BodiesUsable(es: seq<Event>) {
    forall k, key :: 0 <= k < |es| && es[k].World? && key in es[k].objects && es[k].objects[key].Parsed?
      ==> es[k].objects[key].obj.bodyUsable
  }

  predicate ObjectsUsable(objects: map<string, Content>) {
    forall key :: key in objects && objects[key].Parsed? ==> objects[key].obj.bodyUsable
  }

  lemma StepObjects(s: State, ev: Event)
    requires Enabled(s, ev)
    ensures Step(s, ev).objects == if ev.World? then ev.objects else s.objects
  {
  }

  lemma StepMisreadsNothing(s: State, ev: Event, i: nat)
    requires Inv(s) && Enabled(s, ev) && ObjectsUsable(s.objects)
    requires i < |s.entries| ==> s.entries[i].misread == {}
    ensures i < |Step(s, ev).entries| ==> Step(s, ev).entries[i].misread == {}
  {
    hide EntryOk, ControlOk, Batch, FlyingBelow;
  }

  /** With usable bodies a waiting shard has consumed nothing: acting on an object always ends the wait. */
  lemma {:induction false} NothingConsumedWhileWaiting(cfg: Config, start: real, es: seq<Event>, i: nat)
    requires ValidConfig(cfg) && CanRun(Init(cfg, start), es) && BodiesUsable(es)
    ensures var s := Exec(Init(cfg, start), es);
            && ObjectsUsable(s.objects)
            && (i < |s.entries| ==>
               s.entries[i].misread == {} && (!s.entries[i].Done() ==> s.entries[i].consumed == {}))
  {
    RunsKeep(cfg, start, es);
    if es != [] {
      var pre := es[..|es| - 1];
      RunsKeep(cfg, start, pre);
      NothingConsumedWhileWaiting(cfg, start, pre, i);
      var s, t, ev := Exec(Init(cfg, start), pre), Exec(Init(cfg, start), es), es[|es| - 1];
      StepMisreadsNothing(s, ev, i);
      StepObjects(s, ev);
      hide Step;
      if i < |t.entries| {
        assert EntryOk(t.cfg, t.entries[i], RoleOf(t.ctl, i), t.now);
      }
    }
  }

  const REPORT: StatusObject := StatusObject("ok", "attempt-1", false)

  /** One pass of the scan over the single shard in flight. */
  lemma ScanPass(s0: State, es: seq<Event>, at: real, content: Content) returns (longer: seq<Event>)
    requires CanRun(s0, es) && Exec(s0, es).ctl.Idle? && Exec(s0, es).now <= at
    requires |Exec(s0, es).entries| == 1 && Exec(s0, es).entries[0].Flying() && Exec(s0, es).entries[0].key == "shard"
    ensures CanRun(s0, longer)
    ensures var s, t := Exec(s0, es), Exec(s0, longer);
            var seen := Look(s.cfg, s.entries[0], {"shard"}, at, map["shard" := content], false);
            t == s.(now := at, objects := map["shard" := content], entries := [seen.entry])
  {
    hide Exec, CanRun, Look;
    longer := Extend(s0, es, World(at, map["shard" := content]));
    var s := Exec(s0, longer);
    assert FlyingBelow(s.entries, 0) == [];
    assert FlyingBelow(s.entries, 1) == [0];
    longer := Extend(s0, longer, BeginScan({"shard"}));
    longer := Extend(s0, longer, ScanClock);
    longer := Extend(s0, longer, ScanStep(0, false));
  }

  function Told(usable: bool): map<string, Content> {
    map["shard" := Parsed(REPORT.(bodyUsable := usable))]
  }

  lemma FirstLook(cfg: Config, e: Entry, at: real)
    requires e.key == "shard" && e.Flying() && e.consumed == e.misread == {}
    ensures Look(cfg, e, {"shard"}, at, Told(false), false).entry
            == e.(consumed := {REPORT.attemptId}, misread := {REPORT.attemptId})
  {
  }

  lemma LateLook(cfg: Config, e: Entry, at: real, mended: bool)
    requires e.key == "shard" && e.Flying() && e.consumed == {REPORT.attemptId} && !e.live && PastDeadline(cfg, e, at)
    ensures Look(cfg, e, {"shard"}, at, Told(mended), false).entry == Resolve(e, FailedUnknown(at))
  {
  }

  /** A worker reports success in an object whose body cannot be used. The look at it consumes the id, and the shard
      ends as failed for unknown reasons, whether or not the body has been put right by then. */
  lemma ReportLost(cfg: Config, start: real, mended: bool) returns (es: seq<Event>)
    requires ValidConfig(cfg)
    ensures CanRun(Init(cfg, start), es)
    ensures var s := Exec(Init(cfg, start), es);
            && s.objects == map["shard" := Parsed(REPORT.(bodyUsable := mended))]
            && |s.entries| == 1 && s.entries[0].key == "shard" && s.entries[0].misread == {REPORT.attemptId}
            && s.entries[0].verdicts == [FailedUnknown(start + cfg.dropTimeout)]
  {
    var s0, first := Init(cfg, start), NewEntry("shard", false, Some(start), start);
    es := Registered(cfg, start);
    hide Exec, CanRun, Look, Init;
    es := ScanPass(s0, es, start, Parsed(REPORT.(bodyUsable := false)));
    FirstLook(cfg, first, start);
    var read := first.(consumed := {REPORT.attemptId}, misread := {REPORT.attemptId});
    assert Exec(s0, es).entries == [read];
    es := ScanPass(s0, es, start + cfg.dropTimeout, Parsed(REPORT.(bodyUsable := mended)));
    LateLook(cfg, read, start + cfg.dropTimeout, mended);
  }

  lemma Registered(cfg: Config, start: real) returns (es: seq<Event>)
    ensures CanRun(Init(cfg, start), es)
    ensures var s := Exec(Init(cfg, start), es);
            && s.cfg == cfg && s.ctl.Idle? && s.now == start
            && s.entries == [NewEntry("shard", false, Some(start), start)]
  {
    ExecAppend(Init(cfg, start), [], Register("shard", false, Some(start)));
    es := [] + [Register("shard", false, Some(start))];
  }

  // ---------------------------------------------------------------- shutdown

  lemma StepStopped(s: State, ev: Event)
    requires Inv(s) && Enabled(s, ev)
    ensures var t := Step(s, ev);
            && (s.stopped || ev.Shutdown? ==>
                  t.stopped && |t.entries| == |s.entries|
                  && |t.refused| == |s.refused| + if ev.Register? then 1 else 0)
  {
  }

  /** Registration and shutdown race for the entry lock: whichever comes second decides. A registration after
      shutdown is resolved at once and never tracked; one before it is tracked from then on. */
  lemma {:induction false} RegistrationAfterShutdown(cfg: Config, start: real, es: seq<Event>, n: nat)
    requires ValidConfig(cfg) && CanRun(Init(cfg, start), es) && n < |es| && es[n].Shutdown?
    ensures CanRun(Init(cfg, start), es[..n])
    ensures var s, t := Exec(Init(cfg, start), es[..n]), Exec(Init(cfg, start), es);
            && t.stopped && |t.entries| == |s.entries|
            && |t.refused| == |s.refused| + Registrations(es[n..])
            && forall j :: 0 <= j < |t.refused| ==>
               t.refused[j].verdicts == [NotDispatched] && t.refused[j].Billed() == 0
  {
    RunsKeep(cfg, start, es);
    var pre := es[..|es| - 1];
    RunsKeep(cfg, start, pre);
    StepStopped(Exec(Init(cfg, start), pre), es[|es| - 1]);
    hide Step;
    if n == |es| - 1 {
      assert es[n..] == [es[n]];
      assert Registrations(es[n..]) == Registrations([]);
    } else {
      assert pre[..n] == es[..n];
      RegistrationAfterShutdown(cfg, start, pre, n);
      assert es[n..][..|es[n..]| - 1] == pre[n..];
      assert es[n..][|es[n..]| - 1] == es[|es| - 1];
    }
  }

  function Registrations(es: seq<Event>): nat {
    if es == [] then 0 else Registrations(es[..|es| - 1]) + if es[|es| - 1].Register? then 1 else 0
  }

  // ---------------------------------------------------------------- backoff

  /** Entry `i` is either parked behind its stamp or the clock has reached the stamp. */
  predicate Held(s: State, i: nat, stamp: real) {
    i < |s.entries| && ((s.entries[i].queued && !s.entries[i].Done() && s.entries[i].notBefore == stamp)
      || s.now >= stamp)
  }

  lemma StepHolds(s: State, ev: Event, i: nat, stamp: real)
    requires Inv(s) && Enabled(s, ev) && Held(s, i, stamp)
    ensures Held(Step(s, ev), i, stamp)
    ensures ev == FireBegin(i) ==> s.now >= stamp
  {
    if ev.Select? {
      BatchExact(s.cfg, s.entries, ev.at);
    }
  }

  /** After a faulted invoke of shard `i` at event `n`, no later dispatch of that shard starts before the
      backoff has run out. */
  lemma {:induction false} BackoffRespected(cfg: Config, start: real, es: seq<Event>, n: nat, i: nat)
    requires ValidConfig(cfg) && CanRun(Init(cfg, start), es) && n < |es|
    requires es[n].FireEnd? && es[n].i == i && !es[n].outcome.Accepted? && CanRun(Init(cfg, start), es[..n])
    requires var s := Exec(Init(cfg, start), es[..n]);
             Enabled(s, es[n]) && s.entries[i].live && s.entries[i].attempts < cfg.maxRetries
    ensures var s, t := Exec(Init(cfg, start), es[..n]), Exec(Init(cfg, start), es);
            && Held(t, i, s.now + Backoff(s.entries[i].attempts))
            && (Enabled(t, FireBegin(i)) ==> t.now >= s.now + Backoff(s.entries[i].attempts))
  {
    var s := Exec(Init(cfg, start), es[..n]);
    var stamp := s.now + Backoff(s.entries[i].attempts);
    var pre := es[..|es| - 1];
    CfgFixed(cfg, start, es[..n]);
    RunsKeep(cfg, start, es[..n]);
    assert EntryOk(s.cfg, s.entries[i], RoleOf(s.ctl, i), s.now);
    if n == |es| - 1 {
      assert Held(Exec(Init(cfg, start), es), i, stamp);
    } else {
      assert pre[..n] == es[..n];
      BackoffRespected(cfg, start, pre, n, i);
      RunsKeep(cfg, start, pre);
      StepHolds(Exec(Init(cfg, start), pre), es[|es| - 1], i, stamp);
    }
    RunsKeep(cfg, start, es);
    var t := Exec(Init(cfg, start), es);
    if Enabled(t, FireBegin(i)) {
      StepHolds(t, FireBegin(i), i, stamp);
    }
  }
}
