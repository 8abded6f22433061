/** Pacing and termination of the status poller: both are sums over the entries. */
module PollerProgress {
  import opened Prelude
  import opened PollerModel
  import opened PollerSafety
  import PollerRuns

  // ---------------------------------------------------------------- pacing

  function Flags(entries: seq<Entry>): (r: seq<nat>)
    ensures |r| == |entries|
  {
    seq(|entries|, i requires 0 <= i < |entries| => if entries[i].live && entries[i].Flying() then 1 else 0)
  }

  /** Live shards dispatched (or picked for dispatch) and not resolved. */
  function LiveFlying(entries: seq<Entry>): nat {
    Sum(Flags(entries))
  }

  lemma {:induction false} LiveFlyingBound(entries: seq<Entry>, n: nat)
    requires n <= |entries|
    ensures Sum(Flags(entries)[..n]) <= |FlyingBelow(entries, n)|
  {
    if n > 0 {
      LiveFlyingBound(entries, n - 1);
      assert Flags(entries)[..n][..n - 1] == Flags(entries)[..n - 1];
    }
  }

  /** Setting the flags of `batch`, one at a time. */
  lemma {:induction false} SelectAdds(flags: seq<nat>, batch: seq<nat>, after: seq<nat>)
    requires |flags| == |after| && Distinct(batch)
    requires forall k :: 0 <= k < |batch| ==> batch[k] < |flags| && flags[batch[k]] == 0 && after[batch[k]] == 1
    requires forall i :: 0 <= i < |flags| && i !in batch ==> after[i] == flags[i]
    ensures Sum(after) == Sum(flags) + |batch|
    decreases |batch|
  {
    if batch == [] {
      assert after == flags;
    } else {
      var n := |batch| - 1;
      var i := batch[n];
      var one := flags[i := 1];
      SumUpdate(flags, i, 1);
      assert forall j :: j in batch <==> j in batch[..n] || j == i;
      SelectAdds(one, batch[..n], after);
    }
  }

  lemma BatchFits(cfg: Config, entries: seq<Entry>, at: real)
    requires cfg.window.Some?
    ensures |Batch(cfg, entries, at)| <= Max(cfg.window.value - |FlyingBelow(entries, |entries|)|, 0)
  {
  }

  lemma SelectFlags(s: State, at: real, i: nat)
    requires Inv(s) && s.ctl.Idle? && at <= s.now && i < |s.entries|
    ensures var batch := Batch(s.cfg, s.entries, at);
            var before, after := Flags(s.entries)[i], Flags(MarkSelected(s.entries, batch))[i];
            if i in batch then before == 0 && after == 1 else after == before
  {
    assert EntryOk(s.cfg, s.entries[i], RoleOf(s.ctl, i), s.now);
    hide Batch, EntryOk;
    BatchExact(s.cfg, s.entries, at);
    if i in Batch(s.cfg, s.entries, at) {
      SelectedKeeps(s.cfg, s.entries[i], s.now);
    }
  }

  lemma SelectPaced(s: State, at: real)
    requires Inv(s) && s.ctl.Idle? && at <= s.now && s.cfg.window.Some?
    requires LiveFlying(s.entries) <= Max(s.cfg.window.value, 0)
    ensures LiveFlying(Step(s, Select(at)).entries) <= Max(s.cfg.window.value, 0)
  {
    hide EntryOk, Batch, FlyingBelow, Flags, MarkSelected, Sum;
    var batch := Batch(s.cfg, s.entries, at);
    BatchExact(s.cfg, s.entries, at);
    BatchFits(s.cfg, s.entries, at);
    LiveFlyingBound(s.entries, |s.entries|);
    var before, after := Flags(s.entries), Flags(MarkSelected(s.entries, batch));
    assert before[..|s.entries|] == before;
    forall i | 0 <= i < |s.entries|
      ensures if i in batch then before[i] == 0 && after[i] == 1 else after[i] == before[i]
    {
      SelectFlags(s, at, i);
    }
    forall k | 0 <= k < |batch| ensures batch[k] < |before| && before[batch[k]] == 0 && after[batch[k]] == 1 {
      assert batch[k] in batch;
    }
    SelectAdds(before, batch, after);
  }

  lemma StepPaced(s: State, ev: Event)
    requires Inv(s) && Enabled(s, ev) && s.cfg.window.Some?
    requires LiveFlying(s.entries) <= Max(s.cfg.window.value, 0)
    ensures LiveFlying(Step(s, ev).entries) <= Max(s.cfg.window.value, 0)
  {
    var s' := Step(s, ev);
    if ev.Select? {
      SelectPaced(s, ev.at);
    } else if ev.Register? && !s.stopped {
      assert Flags(s'.entries) == Flags(s.entries) + [0];
      SumAppend(Flags(s.entries), 0);
    } else {
      forall i | 0 <= i < |s.entries| ensures Flags(s'.entries)[i] <= Flags(s.entries)[i] {
        PollerRuns.StepContinues(s, ev, i);
        assert EntryOk(s.cfg, s.entries[i], RoleOf(s.ctl, i), s.now);
      }
      SumMonotone(Flags(s'.entries), Flags(s.entries));
    }
  }

  /** In every reachable state the live shards in flight fit the window, faults and re-fires included and
      whatever observe-only shards are registered beside them. */
  lemma {:induction false} PacingWindow(cfg: Config, start: real, es: seq<Event>)
    requires ValidConfig(cfg) && CanRun(Init(cfg, start), es) && cfg.window.Some?
    ensures LiveFlying(Exec(Init(cfg, start), es).entries) <= Max(cfg.window.value, 0)
  {
    if es != [] {
      var pre := es[..|es| - 1];
      PacingWindow(cfg, start, pre);
      RunsKeep(cfg, start, pre);
      PollerRuns.CfgFixed(cfg, start, pre);
      StepPaced(Exec(Init(cfg, start), pre), es[|es| - 1]);
    }
  }

  /** Picking respects the backoff stamps, never touches an observe-only or resolved shard, and stops short of
      a shard that could go only for want of room. */
  lemma SelectExact(s: State, at: real)
    requires Inv(s) && s.ctl.Idle?
    ensures var batch := Batch(s.cfg, s.entries, at);
            && (forall i :: i in batch ==> i < |s.entries| && Eligible(s.entries[i], at) && s.entries[i].live)
            && (s.cfg.window.None? ==> forall i :: 0 <= i < |s.entries| && Eligible(s.entries[i], at) ==> i in batch)
            && (s.cfg.window.Some? && (exists i :: 0 <= i < |s.entries| && Eligible(s.entries[i], at) && i !in batch)
                ==> |batch| == Max(s.cfg.window.value - |FlyingBelow(s.entries, |s.entries|)|, 0))
  {
    BatchExact(s.cfg, s.entries, at);
    EligibleBelowExact(s.entries, at, |s.entries|);
    var queued := EligibleBelow(s.entries, at, |s.entries|);
    var batch := Batch(s.cfg, s.entries, at);
    forall i | i in batch ensures s.entries[i].live {
      assert EntryOk(s.cfg, s.entries[i], Free, s.now);
    }
    if |batch| == |queued| {
      assert batch == queued;
    }
  }

  // ---------------------------------------------------------------- rank

  /** How far one entry is from its end. */
  function EntryRank(cfg: Config, e: Entry, role: Role): nat {
    if e.Done() then 0
    else if !e.live then 1
    else
      4 * Max(cfg.maxRetries - e.attempts, 0) +
      if role.Invoking? then 3 else if role.Waiting? then 0 else if e.queued then 1 else 2
  }

  function Ranks(s: State): (r: seq<nat>)
    ensures |r| == |s.entries|
  {
    seq(|s.entries|, i requires 0 <= i < |s.entries| => EntryRank(s.cfg, s.entries[i], RoleOf(s.ctl, i)))
  }

  function Rank(s: State): nat {
    Sum(Ranks(s))
  }

  /** The poller did something: picked shards, called or returned from an invoke, settled or re-queued a shard. */
  predicate Acts(s: State, ev: Event)
    requires Enabled(s, ev)
  {
    match ev
    case Select(at) => Batch(s.cfg, s.entries, at) != []
    case FireBegin(i) => true
    case FireEnd(i, outcome) => true
    case ScanStep(i, getFaults) => Step(s, ev).entries[i].Done() || Step(s, ev).entries[i].queued
    case _ => false
  }

  lemma LookRank(cfg: Config, e: Entry, listed: set<string>, at: real, objects: map<string, Content>,
                 getFaults: bool, now: real)
    requires EntryOk(cfg, e, Free, now) && e.Flying()
    ensures var e' := Look(cfg, e, listed, at, objects, getFaults).entry;
            && EntryRank(cfg, e', Free) <= EntryRank(cfg, e, Free)
            && (e'.Done() || e'.queued ==> EntryRank(cfg, e', Free) < EntryRank(cfg, e, Free))
  {
  }

  lemma FireRank(cfg: Config, e: Entry, now: real, outcome: InvokeOutcome)
    requires e.Flying() && e.live
    ensures EntryOk(cfg, e, Waiting, now) ==> EntryRank(cfg, StartFire(e, now), Invoking) < EntryRank(cfg, e, Waiting)
    ensures EntryOk(cfg, e, Invoking, now) ==>
            EntryRank(cfg, EndFire(cfg, e, now, outcome), Free) < EntryRank(cfg, e, Invoking)
  {
  }

  lemma SelectRank(cfg: Config, e: Entry, now: real)
    requires EntryOk(cfg, e, Free, now) && e.queued && !e.Done()
    ensures EntryRank(cfg, e.(queued := false), Waiting) < EntryRank(cfg, e, Free)
  {
  }

  lemma FireRanks(s: State, ev: Event, i: nat)
    requires Inv(s) && Enabled(s, ev) && i < |s.entries| && (ev.FireBegin? || ev.FireEnd?)
    ensures if i == ev.i then Ranks(Step(s, ev))[i] < Ranks(s)[i] else Ranks(Step(s, ev))[i] == Ranks(s)[i]
  {
    assert EntryOk(s.cfg, s.entries[i], RoleOf(s.ctl, i), s.now);
    hide EntryOk, EntryRank, StartFire, EndFire;
    if ev.FireBegin? {
      if i == ev.i {
        FireRank(s.cfg, s.entries[i], s.now, Accepted);
      }
    } else {
      NextFireRoles(s.ctl.batch, true, i);
      if i == ev.i {
        FireRank(s.cfg, s.entries[i], s.now, ev.outcome);
      }
    }
  }

  lemma SelectRanks(s: State, at: real, i: nat)
    requires Inv(s) && Enabled(s, Select(at)) && i < |s.entries|
    ensures if i in Batch(s.cfg, s.entries, at) then Ranks(Step(s, Select(at)))[i] < Ranks(s)[i]
            else Ranks(Step(s, Select(at)))[i] == Ranks(s)[i]
  {
    assert EntryOk(s.cfg, s.entries[i], RoleOf(s.ctl, i), s.now);
    hide EntryOk, EntryRank, Batch;
    BatchExact(s.cfg, s.entries, at);
    if i in Batch(s.cfg, s.entries, at) {
      SelectRank(s.cfg, s.entries[i], s.now);
    }
  }

  lemma RankPointwise(s: State, ev: Event, i: nat)
    requires Inv(s) && Enabled(s, ev) && i < |s.entries|
    ensures Ranks(Step(s, ev))[i] <= Ranks(s)[i]
    ensures ev.Select? && i in Batch(s.cfg, s.entries, ev.at) ==> Ranks(Step(s, ev))[i] < Ranks(s)[i]
    ensures (ev.FireBegin? || ev.FireEnd?) && i == ev.i ==> Ranks(Step(s, ev))[i] < Ranks(s)[i]
    ensures ev.ScanStep? && i == ev.i && Acts(s, ev) ==> Ranks(Step(s, ev))[i] < Ranks(s)[i]
  {
    assert EntryOk(s.cfg, s.entries[i], RoleOf(s.ctl, i), s.now);
    hide EntryOk, EntryRank, Look, StartFire, EndFire, Batch;
    if ev.Select? {
      SelectRanks(s, ev.at, i);
    } else if ev.FireBegin? || ev.FireEnd? {
      FireRanks(s, ev, i);
    } else if ev.ScanStep? && i == ev.i {
      LookRank(s.cfg, s.entries[i], s.ctl.listed, s.ctl.at, s.objects, ev.getFaults, s.now);
    }
  }

  lemma IdleStepRanks(s: State, ev: Event)
    requires Inv(s) && Enabled(s, ev) && !Acts(s, ev) && !(ev.Register? && !s.stopped)
    ensures Ranks(Step(s, ev)) == Ranks(s)
  {
    var s' := Step(s, ev);
    forall i | 0 <= i < |s.entries| ensures Ranks(s')[i] == Ranks(s)[i] {
      assert EntryOk(s.cfg, s.entries[i], RoleOf(s.ctl, i), s.now);
      assert RoleOf(s'.ctl, i) == RoleOf(s.ctl, i);
    }
  }

  lemma RegisterRank(s: State, ev: Event)
    requires Inv(s) && Enabled(s, ev) && ev.Register? && !s.stopped
    ensures Rank(Step(s, ev)) <= Rank(s) + 4 * s.cfg.maxRetries + 1
  {
    hide EntryOk;
    var s', n := Step(s, ev), |s.entries|;
    assert Ranks(s') == Ranks(s) + [Ranks(s')[n]];
    SumAppend(Ranks(s), Ranks(s')[n]);
  }

  /** Every act of the poller lowers the rank; only a registration raises it, by the shard's whole budget. */
  lemma StepRank(s: State, ev: Event)
    requires Inv(s) && Enabled(s, ev)
    ensures Rank(Step(s, ev)) + (if Acts(s, ev) then 1 else 0)
            <= Rank(s) + if ev.Register? then 4 * s.cfg.maxRetries + 1 else 0
    ensures !Acts(s, ev) && !ev.Register? ==> Rank(Step(s, ev)) == Rank(s)
  {
    hide EntryOk, Look, StartFire, EndFire, Batch, FlyingBelow, NextFire;
    var s' := Step(s, ev);
    if ev.Register? && !s.stopped {
      RegisterRank(s, ev);
    } else {
      hide EntryRank, ControlOk;
      forall i | 0 <= i < |s.entries| ensures Ranks(s')[i] <= Ranks(s)[i] {
        RankPointwise(s, ev, i);
      }
      SumMonotone(Ranks(s'), Ranks(s));
      if Acts(s, ev) {
        var j := if ev.Select? then Batch(s.cfg, s.entries, ev.at)[0]
                 else ev.i;
        if ev.Select? {
          assert j in Batch(s.cfg, s.entries, ev.at);
          BatchExact(s.cfg, s.entries, ev.at);
        }
        RankPointwise(s, ev, j);
        SumStrict(Ranks(s'), Ranks(s), j);
      } else {
        IdleStepRanks(s, ev);
      }
    }
  }

  ghost function ActCount(s: State, es: seq<Event>): nat
    requires CanRun(s, es)
    decreases |es|
  {
    if es == [] then 0
    else ActCount(s, es[..|es| - 1]) + if Acts(Exec(s, es[..|es| - 1]), es[|es| - 1]) then 1 else 0
  }

  lemma Budget(c: nat, r: nat, rank: nat, acts: nat, rank': nat, act: nat, reg: nat)
    requires rank + acts <= c * r && rank' + act <= rank + (if reg == 1 then c else 0) && reg <= 1
    ensures rank' + (acts + act) <= c * (r + reg)
  {
    assert c * (r + 1) == c * r + c;
  }

  lemma NothingToDo(cfg: Config, start: real)
    ensures Rank(Exec(Init(cfg, start), [])) == 0
  {
  }

  /** Over a whole run the poller acts at most `4 * maxRetries + 1` times per registration, however the world
      behaves: it cannot loop on faults, drops or re-fires. */
  lemma {:induction false} ActsBounded(cfg: Config, start: real, es: seq<Event>)
    requires ValidConfig(cfg) && CanRun(Init(cfg, start), es)
    ensures Rank(Exec(Init(cfg, start), es)) + ActCount(Init(cfg, start), es)
            <= (4 * cfg.maxRetries + 1) * PollerRuns.Registrations(es)
  {
    hide Rank, Acts, Inv, Step, Enabled;
    if es == [] {
      NothingToDo(cfg, start);
    } else {
      var pre := es[..|es| - 1];
      ActsBounded(cfg, start, pre);
      RunsKeep(cfg, start, pre);
      PollerRuns.CfgFixed(cfg, start, pre);
      var s, ev := Exec(Init(cfg, start), pre), es[|es| - 1];
      StepRank(s, ev);
      var c, r := 4 * cfg.maxRetries + 1, PollerRuns.Registrations(pre);
      Budget(c, r, Rank(s), ActCount(Init(cfg, start), pre), Rank(Step(s, ev)), if Acts(s, ev) then 1 else 0,
             if ev.Register? then 1 else 0);
    }
  }

  /** The rank is zero exactly when every future is resolved. */
  lemma RankZero(s: State)
    requires Inv(s)
    ensures Rank(s) == 0 <==> forall i :: 0 <= i < |s.entries| ==> s.entries[i].Done()
  {
    SumIsZero(Ranks(s));
    forall i | 0 <= i < |s.entries| ensures Ranks(s)[i] == 0 <==> s.entries[i].Done() {
      assert EntryOk(s.cfg, s.entries[i], RoleOf(s.ctl, i), s.now);
    }
    if Rank(s) == 0 {
      forall i | 0 <= i < |s.entries| ensures s.entries[i].Done() {
        assert Ranks(s)[i] == 0;
      }
    }
  }

  // ---------------------------------------------------------------- what a tick can rely on

  /** Every deadline and every backoff stamp has been reached. */
  predicate Ready(s: State) {
    forall i :: 0 <= i < |s.entries| && !s.entries[i].Done() ==>
      if s.entries[i].queued then s.entries[i].notBefore <= s.now else PastDeadline(s.cfg, s.entries[i], s.now)
  }

  lemma ReadyAnyObjects(s: State, objects: map<string, Content>)
    ensures Ready(s) == Ready(s.(objects := objects))
  {
  }

  lemma {:induction false} NoneFlying(entries: seq<Entry>, n: nat)
    requires n <= |entries| && forall j :: 0 <= j < n ==> !entries[j].Flying()
    ensures FlyingBelow(entries, n) == []
  {
    if n > 0 {
      NoneFlying(entries, n - 1);
    }
  }

  lemma SomethingToPick(cfg: Config, entries: seq<Entry>, at: real, i: nat)
    requires i < |entries| && Eligible(entries[i], at)
    requires forall j :: 0 <= j < |entries| ==> !entries[j].Flying()
    requires cfg.window.Some? ==> cfg.window.value >= 1
    ensures Batch(cfg, entries, at) != []
  {
    NoneFlying(entries, |entries|);
    EligibleBelowExact(entries, at, |entries|);
    assert i in EligibleBelow(entries, at, |entries|);
  }

  /** With every stamp reached and nothing in flight, the next pass picks something. */
  lemma NextPassPicks(s: State, at: real, i: nat)
    requires Ready(s) && s.now <= at && i < |s.entries| && !s.entries[i].Done()
    requires forall j :: 0 <= j < |s.entries| ==> !s.entries[j].Flying()
    requires s.cfg.window.Some? ==> s.cfg.window.value >= 1
    ensures Batch(s.cfg, s.entries, at) != []
  {
    SomethingToPick(s.cfg, s.entries, at, i);
  }

  // ---------------------------------------------------------------- looks that end a tick

  /** The GET is answered with something that is no JSON object, or with a new object whose body cannot be used. */
  predicate Unreadable(e: Entry, listed: set<string>, objects: map<string, Content>, getFaults: bool) {
    && !e.Done() && e.key in listed && e.key in objects && !getFaults
    && (objects[e.key].Parsed? ==> !AlreadyConsumed(e, objects[e.key].obj) && !objects[e.key].obj.bodyUsable)
  }

  /** The scan step raises. */
  predicate Spoils(s: State, ev: Event) {
    && ev.ScanStep? && s.ctl.Scanning? && ev.i < |s.entries|
    && Unreadable(s.entries[ev.i], s.ctl.listed, s.objects, ev.getFaults)
  }

  /** What the scans and ticks of a run have come to: the shards looked at, those of them whose look raised, the ticks
      that a LIST fault ended, and the ticks that went through to an empty batch. */
  datatype Tally = Tally(looked: seq<nat>, spoilt: seq<nat>, missed: nat, passed: nat) {
    /** The ticks that a fault ended. */
    function Ended(): nat {
      missed + |spoilt|
    }

    function Ticks(): nat {
      Ended() + passed
    }
  }

  function Tallied(t: Tally, s: State, ev: Event): Tally {
    match ev
    case ScanStep(i, _) => t.(looked := t.looked + [i], spoilt := t.spoilt + if Spoils(s, ev) then [i] else [])
    case ListFault => t.(missed := t.missed + 1)
    case Select(at) => if Batch(s.cfg, s.entries, at) == [] then t.(passed := t.passed + 1) else t
    case _ => t
  }

  ghost function TallyOf(s: State, es: seq<Event>): Tally
    requires CanRun(s, es)
    decreases |es|
  {
    if es == [] then Tally([], [], 0, 0)
    else Tallied(TallyOf(s, es[..|es| - 1]), Exec(s, es[..|es| - 1]), es[|es| - 1])
  }

  /** Every status object is a JSON object with a usable body. */
  predicate Readable(objects: map<string, Content>) {
    forall key :: key in objects ==> objects[key].Parsed? && objects[key].obj.bodyUsable
  }

  predicate AllReadable(es: seq<Event>) {
    forall k :: 0 <= k < |es| && es[k].World? ==> Readable(es[k].objects)
  }

  /** As long as all objects are readable no look ends a tick. */
  lemma {:induction false} ReadableSpoilsNothing(s: State, past: seq<Event>, es: seq<Event>)
    requires CanRun(s, past) && CanRun(s, es) && past <= es
    requires Readable(Exec(s, past).objects) && AllReadable(es[|past|..])
    ensures TallyOf(s, es).spoilt == TallyOf(s, past).spoilt && Readable(Exec(s, es).objects)
  {
    hide Step, Enabled, Unreadable, Batch, Readable;
    if |es| == |past| {
      assert es == past;
    } else {
      var n := |es| - 1;
      var init, ev := es[..n], es[n];
      TailOfTail(past, es);
      ReadableSpoilsNothing(s, past, init);
      PollerRuns.StepObjects(Exec(s, init), ev);
      if Spoils(Exec(s, init), ev) {
        NoneUnreadable(Exec(s, init), ev);
      }
    }
  }

  lemma TailOfTail(past: seq<Event>, es: seq<Event>)
    requires past <= es && |past| < |es| && AllReadable(es[|past|..])
    ensures past <= es[..|es| - 1] && AllReadable(es[..|es| - 1][|past|..])
    ensures es[|es| - 1].World? ==> Readable(es[|es| - 1].objects)
  {
    var n := |es| - 1;
    assert es[|past|..][n - |past|] == es[n];
    forall k | 0 <= k < n - |past| && es[..n][|past|..][k].World? ensures Readable(es[..n][|past|..][k].objects) {
      assert es[|past|..][k] == es[..n][|past|..][k];
    }
  }

  lemma NoneUnreadable(s: State, ev: Event)
    requires Readable(s.objects)
    ensures !Spoils(s, ev)
  {
  }

  /** Nothing but the clock and the scan. */
  predicate OnlyScans(past: seq<Event>, all: seq<Event>) {
    past <= all && forall k :: |past| <= k < |all| ==> OfScan(all[k])
  }

  predicate OfScan(ev: Event) {
    ev.World? || ev.BeginScan? || ev.ListFault? || ev.ScanClock? || ev.ScanStep?
  }

  lemma ScansGoOn(a: seq<Event>, b: seq<Event>, c: seq<Event>)
    requires OnlyScans(a, b) && OnlyScans(b, c)
    ensures OnlyScans(a, c)
  {
    forall k | |a| <= k < |c| ensures OfScan(c[k]) {
      if k < |b| {
        assert c[k] == b[k];
      }
    }
  }

  /** An object that raises at every look: nothing is remembered of it. */
  predicate Lasting(c: Content) {
    c.Parsed? ==> c.obj.attemptId == "" && !c.obj.bodyUsable
  }

  /** The looks of a run that raised at a lasting object. */
  ghost function LastingLooks(s: State, es: seq<Event>): nat
    requires CanRun(s, es)
    decreases |es|
  {
    if es == [] then 0
    else
      var init, ev := es[..|es| - 1], es[|es| - 1];
      var before := Exec(s, init);
      LastingLooks(s, init) + if Spoils(before, ev) && Lasting(before.objects[before.entries[ev.i].key]) then 1 else 0
  }

  function MisreadCounts(entries: seq<Entry>): (r: seq<nat>)
    ensures |r| == |entries|
  {
    seq(|entries|, i requires 0 <= i < |entries| => |entries[i].misread|)
  }

  lemma StepMisreads(s: State, ev: Event, i: nat)
    requires Inv(s) && Enabled(s, ev) && i < |s.entries|
    ensures var s' := Step(s, ev);
            |s'.entries[i].misread| == |s.entries[i].misread| +
              if Spoils(s, ev) && ev.i == i && !Lasting(s.objects[s.entries[i].key]) then 1 else 0
  {
    assert EntryOk(s.cfg, s.entries[i], RoleOf(s.ctl, i), s.now);
    if ev.ScanStep? {
      LookMisreads(s.cfg, s.entries[ev.i], s.ctl.listed, s.ctl.at, s.objects, ev.getFaults);
    }
    hide EntryOk, ControlOk, Batch, FlyingBelow, NextFire, AfterScan, Look, Unreadable, Lasting;
  }

  lemma LookMisreads(cfg: Config, e: Entry, listed: set<string>, at: real, objects: map<string, Content>,
                     getFaults: bool)
    requires !e.Done() ==> e.consumed == e.misread
    ensures |Look(cfg, e, listed, at, objects, getFaults).entry.misread|
            == |e.misread| + if Unreadable(e, listed, objects, getFaults) && !Lasting(objects[e.key]) then 1 else 0
  {
  }

  lemma StepSpoilt(s: State, ev: Event)
    requires Inv(s) && Enabled(s, ev)
    ensures Sum(MisreadCounts(Step(s, ev).entries))
            == Sum(MisreadCounts(s.entries))
               + if Spoils(s, ev) && !Lasting(s.objects[s.entries[ev.i].key]) then 1 else 0
  {
    hide Inv, Lasting, Look, StartFire, EndFire, Batch, FlyingBelow, AfterScan;
    var before, after := MisreadCounts(s.entries), MisreadCounts(Step(s, ev).entries);
    forall i | 0 <= i < |s.entries|
      ensures after[i]
              == before[i] + if Spoils(s, ev) && ev.i == i && !Lasting(s.objects[s.entries[i].key]) then 1 else 0
    {
      StepMisreads(s, ev, i);
    }
    if ev.Register? && !s.stopped {
      assert after == before + [0];
      SumAppend(before, 0);
    } else if Spoils(s, ev) {
      SumUpdate(before, ev.i, after[ev.i]);
      assert after == before[ev.i := after[ev.i]];
    } else {
      assert after == before;
    }
  }

  /** A body that cannot be used ends one tick per attempt id and shard; only an object that is none, or one without an
      id, ends every tick that reads it. */
  lemma {:induction false} SpoiltExactly(cfg: Config, start: real, es: seq<Event>)
    requires ValidConfig(cfg) && CanRun(Init(cfg, start), es)
    ensures |TallyOf(Init(cfg, start), es).spoilt|
            == LastingLooks(Init(cfg, start), es) + Sum(MisreadCounts(Exec(Init(cfg, start), es).entries))
  {
    hide Step, Enabled, Inv, Unreadable, Lasting, MisreadCounts, Batch;
    if es == [] {
      NothingMisread(cfg, start);
    } else {
      SpoiltExactly(cfg, start, es[..|es| - 1]);
      RunsKeep(cfg, start, es[..|es| - 1]);
      StepSpoilt(Exec(Init(cfg, start), es[..|es| - 1]), es[|es| - 1]);
    }
  }

  lemma NothingMisread(cfg: Config, start: real)
    ensures MisreadCounts(Exec(Init(cfg, start), []).entries) == []
  {
  }
}
