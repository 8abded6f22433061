/** Safety of the status poller over every run: billing, verdicts, deduplication and pacing. */
module PollerSafety {
  import opened Prelude
  import opened PollerModel

  // ---------------------------------------------------------------- the invariant

  predicate ValidConfig(cfg: Config) {
    cfg.maxRetries >= 1 && cfg.dropTimeout >= 0.0
  }

  /** The poller thread's hold on entry `i` between two of its steps. */
  datatype Role = Free | Waiting | Invoking

  function RoleOf(ctl: Control, i: nat): Role {
    if ctl.Dispatching? && i in ctl.batch then
      if ctl.invoking && ctl.batch[0] == i then Invoking else Waiting
    else Free
  }

  /** A fault-free account of the dispatches of one live entry. */
  predicate LiveAccount(cfg: Config, e: Entry, role: Role) {
    && e.attempts <= cfg.maxRetries
    && e.dropRefires <= MAX_DROP_REFIRES
    && e.attempts == e.accepted + e.rejected + e.lost + (if role.Invoking? then 1 else 0)
    && (e.attempts == 0 <==> e.dispatchedAt.None?)
    && (!e.Done() ==> e.accepted == e.dropRefires + if role.Free? && !e.queued then 1 else 0)
    && (!e.Done() && (e.queued || role.Waiting?) ==> e.attempts < cfg.maxRetries)
  }

  predicate WatchedAccount(e: Entry) {
    && !e.queued && e.attempts == 1 && e.dispatchedAt.Some?
    && e.accepted == e.rejected == e.lost == e.dropRefires == 0
  }

  /** What a resolved entry must have seen. */
  predicate Justified(cfg: Config, e: Entry, v: Verdict, now: real) {
    match v
    case Succeeded(obj) => Positive(obj) && (e.live ==> e.accepted == e.dropRefires + 1)
    case WorkerFailed(obj) => !Positive(obj) && (e.live ==> e.accepted == e.dropRefires + 1)
    case FailedUnknown(at) =>
      && at <= now
      && PastDeadline(cfg, e, at)
      && (e.live ==> e.accepted == e.dropRefires + 1
                     && (e.dropRefires == MAX_DROP_REFIRES || e.attempts == cfg.maxRetries))
    case InvokeFailed => e.live && e.attempts == cfg.maxRetries && e.accepted == e.dropRefires
    case NotDispatched => false
  }

  predicate EntryOk(cfg: Config, e: Entry, role: Role, now: real) {
    && |e.verdicts| <= 1
    && (if e.live then LiveAccount(cfg, e, role) else WatchedAccount(e) && role.Free?)
    && (e.Done() ==> !e.queued && role.Free? && Justified(cfg, e, e.verdicts[0], now))
    && (!role.Free? ==> !e.queued)
    && (!e.Done() ==> e.consumed == e.misread)
  }

  predicate Distinct(s: seq<nat>) {
    forall i, j :: 0 <= i < j < |s| ==> s[i] != s[j]
  }

  predicate ControlOk(s: State) {
    match s.ctl
    case Idle => true
    case Listing(todo, listed) =>
      && todo != [] && Distinct(todo)
      && forall k :: 0 <= k < |todo| ==> todo[k] < |s.entries| && s.entries[todo[k]].Flying()
    case Scanning(todo, listed, at) =>
      && todo != [] && Distinct(todo) && at <= s.now
      && forall k :: 0 <= k < |todo| ==> todo[k] < |s.entries| && s.entries[todo[k]].Flying()
    case Dispatching(batch, invoking) =>
      && batch != [] && Distinct(batch)
      && forall k :: 0 <= k < |batch| ==>
         batch[k] < |s.entries| && s.entries[batch[k]].Flying() && s.entries[batch[k]].live
  }

  predicate Refused(e: Entry) {
    e.verdicts == [NotDispatched] && !e.queued && e.Billed() == 0
  }

  predicate Inv(s: State) {
    && ValidConfig(s.cfg)
    && ControlOk(s)
    && (forall i :: 0 <= i < |s.entries| ==> EntryOk(s.cfg, s.entries[i], RoleOf(s.ctl, i), s.now))
    && (forall i :: 0 <= i < |s.refused| ==> Refused(s.refused[i]))
    && (forall i, j :: 0 <= i < j < |s.entries| ==> s.entries[i].key != s.entries[j].key)
  }

  // ---------------------------------------------------------------- choosing

  lemma {:induction false} FlyingBelowExact(entries: seq<Entry>, n: nat)
    requires n <= |entries|
    ensures Distinct(FlyingBelow(entries, n))
    ensures forall i :: i in FlyingBelow(entries, n) <==> 0 <= i < n && entries[i].Flying()
  {
    if n > 0 {
      FlyingBelowExact(entries, n - 1);
    }
  }

  lemma {:induction false} EligibleBelowExact(entries: seq<Entry>, now: real, n: nat)
    requires n <= |entries|
    ensures Distinct(EligibleBelow(entries, now, n))
    ensures forall i :: i in EligibleBelow(entries, now, n) <==> 0 <= i < n && Eligible(entries[i], now)
  {
    if n > 0 {
      EligibleBelowExact(entries, now, n - 1);
    }
  }

  lemma BatchExact(cfg: Config, entries: seq<Entry>, now: real)
    ensures Distinct(Batch(cfg, entries, now))
    ensures forall i :: i in Batch(cfg, entries, now) ==> i < |entries| && Eligible(entries[i], now)
  {
    EligibleBelowExact(entries, now, |entries|);
    var q := EligibleBelow(entries, now, |entries|);
    assert forall i :: i in Batch(cfg, entries, now) ==> i in q;
  }

  // ---------------------------------------------------------------- every step keeps the invariant

  lemma RegisterKeeps(s: State, key: string, live: bool, at: Option<real>)
    requires Inv(s) && Enabled(s, Register(key, live, at))
    ensures Inv(Step(s, Register(key, live, at)))
  {
    var s' := Step(s, Register(key, live, at));
    if !s.stopped {
      var n := |s.entries|;
      assert RoleOf(s.ctl, n) == Free;
      assert EntryOk(s.cfg, s'.entries[n], Free, s.now);
    }
  }

  lemma WorldKeeps(s: State, now: real, objects: map<string, Content>)
    requires Inv(s) && s.now <= now
    ensures Inv(Step(s, World(now, objects)))
  {
    var s' := Step(s, World(now, objects));
    forall i | 0 <= i < |s.entries|
      ensures EntryOk(s.cfg, s'.entries[i], RoleOf(s'.ctl, i), now)
    {
      assert EntryOk(s.cfg, s.entries[i], RoleOf(s.ctl, i), s.now);
    }
  }

  lemma BeginScanKeeps(s: State, listed: set<string>)
    requires Inv(s) && s.ctl.Idle?
    ensures Inv(Step(s, BeginScan(listed)))
  {
    FlyingBelowExact(s.entries, |s.entries|);
    var s' := Step(s, BeginScan(listed));
    var todo := FlyingBelow(s.entries, |s.entries|);
    assert forall k :: 0 <= k < |todo| ==> todo[k] in todo;
    assert forall i :: 0 <= i < |s.entries| ==> RoleOf(s'.ctl, i) == RoleOf(s.ctl, i);
  }

  lemma ListedKeeps(s: State, ev: Event)
    requires Inv(s) && Enabled(s, ev) && (ev.ListFault? || ev.ScanClock?)
    ensures Inv(Step(s, ev))
  {
    assert forall i :: 0 <= i < |s.entries| ==> RoleOf(Step(s, ev).ctl, i) == RoleOf(s.ctl, i);
  }

  lemma LookKeeps(cfg: Config, e: Entry, listed: set<string>, at: real, objects: map<string, Content>,
                  getFaults: bool, now: real)
    requires ValidConfig(cfg) && EntryOk(cfg, e, Free, now) && e.Flying() && at <= now
    ensures var e' := Look(cfg, e, listed, at, objects, getFaults).entry;
            EntryOk(cfg, e', Free, now) && e'.key == e.key
  {
    if PastDeadline(cfg, e, at) {
      DropKeeps(cfg, e, at, now);
    }
    if e.key in objects && objects[e.key].Parsed? && !AlreadyConsumed(e, objects[e.key].obj) {
      ConsumeKeeps(cfg, e, objects[e.key].obj, now);
    }
    hide EntryOk, Consume, Drop, PastDeadline, AlreadyConsumed;
  }

  lemma ConsumeKeeps(cfg: Config, e: Entry, obj: StatusObject, now: real)
    requires EntryOk(cfg, e, Free, now) && e.Flying() && !AlreadyConsumed(e, obj)
    ensures EntryOk(cfg, Consume(e, obj), Free, now) && Consume(e, obj).key == e.key
  {
  }

  lemma DropKeeps(cfg: Config, e: Entry, at: real, now: real)
    requires EntryOk(cfg, e, Free, now) && e.Flying() && at <= now && PastDeadline(cfg, e, at)
    ensures EntryOk(cfg, Drop(cfg, e, at), Free, now) && Drop(cfg, e, at).key == e.key
  {
  }

  /** Putting a sound entry back for the first one of the scan keeps the invariant. */
  lemma PutBack(s: State, e: Entry, ctl: Control)
    requires Inv(s) && s.ctl.Scanning?
    requires EntryOk(s.cfg, e, Free, s.now) && e.key == s.entries[s.ctl.todo[0]].key
    requires ctl == Idle || ctl == AfterScan(s, s.ctl.todo[1..])
    ensures Inv(s.(entries := s.entries[s.ctl.todo[0] := e], ctl := ctl))
  {
    var i := s.ctl.todo[0];
    var s' := s.(entries := s.entries[i := e], ctl := ctl);
    forall j | 0 <= j < |s.entries| ensures EntryOk(s.cfg, s'.entries[j], RoleOf(ctl, j), s.now) {
      assert EntryOk(s.cfg, s.entries[j], RoleOf(s.ctl, j), s.now);
    }
    var rest := s.ctl.todo[1..];
    assert forall k :: 0 <= k < |rest| ==> rest[k] == s.ctl.todo[k + 1] && rest[k] != i;
  }

  lemma ScanStepKeeps(s: State, i: nat, getFaults: bool)
    requires Inv(s) && Enabled(s, ScanStep(i, getFaults))
    ensures Inv(Step(s, ScanStep(i, getFaults)))
  {
    assert i == s.ctl.todo[0];
    assert EntryOk(s.cfg, s.entries[i], RoleOf(s.ctl, i), s.now);
    LookKeeps(s.cfg, s.entries[i], s.ctl.listed, s.ctl.at, s.objects, getFaults, s.now);
    var seen := Look(s.cfg, s.entries[i], s.ctl.listed, s.ctl.at, s.objects, getFaults);
    PutBack(s, seen.entry, if seen.raises then Idle else AfterScan(s, s.ctl.todo[1..]));
  }

  lemma SelectedKeeps(cfg: Config, e: Entry, now: real)
    requires EntryOk(cfg, e, Free, now) && e.queued && !e.Done()
    ensures EntryOk(cfg, e.(queued := false), Waiting, now) && e.(queued := false).Flying() && e.live
  {
  }

  lemma SelectKeeps(s: State, at: real)
    requires Inv(s) && s.ctl.Idle? && at <= s.now
    ensures Inv(Step(s, Select(at)))
  {
    hide EntryOk, Batch;
    var batch := Batch(s.cfg, s.entries, at);
    BatchExact(s.cfg, s.entries, at);
    var s' := Step(s, Select(at));
    if batch != [] {
      forall k | 0 <= k < |batch|
        ensures batch[k] < |s'.entries| && s'.entries[batch[k]].Flying() && s'.entries[batch[k]].live
      {
        assert batch[k] in batch;
        assert EntryOk(s.cfg, s.entries[batch[k]], RoleOf(s.ctl, batch[k]), s.now);
        SelectedKeeps(s.cfg, s.entries[batch[k]], s.now);
      }
      forall i | 0 <= i < |s.entries| ensures EntryOk(s.cfg, s'.entries[i], RoleOf(s'.ctl, i), s.now) {
        assert EntryOk(s.cfg, s.entries[i], RoleOf(s.ctl, i), s.now);
        if i in batch {
          SelectedKeeps(s.cfg, s.entries[i], s.now);
        }
      }
    }
  }

  lemma NextFireRoles(batch: seq<nat>, invoking: bool, i: nat)
    requires batch != [] && Distinct(batch)
    ensures RoleOf(NextFire(batch), i) == if i in batch && i != batch[0] then Waiting else Free
    ensures NextFire(batch).Dispatching? ==>
              NextFire(batch).batch != [] && Distinct(NextFire(batch).batch)
              && forall k :: 0 <= k < |batch| - 1 ==> NextFire(batch).batch[k] == batch[k + 1]
  {
    if |batch| > 1 {
      assert i in batch[1..] <==> i in batch && i != batch[0];
    }
  }

  lemma StartFireKeeps(cfg: Config, e: Entry, now: real)
    requires ValidConfig(cfg) && EntryOk(cfg, e, Waiting, now) && e.Flying()
    ensures e.live && EntryOk(cfg, StartFire(e, now), Invoking, now)
  {
  }

  lemma FireBeginKeeps(s: State, i: nat)
    requires Inv(s) && Enabled(s, FireBegin(i))
    ensures Inv(Step(s, FireBegin(i)))
  {
    assert EntryOk(s.cfg, s.entries[i], RoleOf(s.ctl, i), s.now);
    StartFireKeeps(s.cfg, s.entries[i], s.now);
    hide EntryOk;
    var s' := Step(s, FireBegin(i));
    assert i == s.ctl.batch[0];
    forall j | 0 <= j < |s.entries| ensures EntryOk(s.cfg, s'.entries[j], RoleOf(s'.ctl, j), s.now) {
      assert EntryOk(s.cfg, s.entries[j], RoleOf(s.ctl, j), s.now);
    }
  }

  lemma EndFireKeeps(cfg: Config, e: Entry, now: real, outcome: InvokeOutcome)
    requires ValidConfig(cfg) && EntryOk(cfg, e, Invoking, now) && e.Flying() && e.live
    ensures EntryOk(cfg, EndFire(cfg, e, now, outcome), Free, now) && EndFire(cfg, e, now, outcome).key == e.key
  {
  }

  /** Putting a sound entry back for the one whose invoke ended keeps the invariant. */
  lemma PutDispatched(s: State, e: Entry)
    requires Inv(s) && s.ctl.Dispatching? && s.ctl.invoking
    requires EntryOk(s.cfg, e, Free, s.now) && e.key == s.entries[s.ctl.batch[0]].key
    ensures Inv(s.(entries := s.entries[s.ctl.batch[0] := e], ctl := NextFire(s.ctl.batch)))
  {
    hide EntryOk;
    var batch := s.ctl.batch;
    var i := batch[0];
    var s' := s.(entries := s.entries[i := e], ctl := NextFire(batch));
    forall j | 0 <= j < |s.entries| ensures EntryOk(s.cfg, s'.entries[j], RoleOf(s'.ctl, j), s.now) {
      assert EntryOk(s.cfg, s.entries[j], RoleOf(s.ctl, j), s.now);
      NextFireRoles(batch, true, j);
    }
    NextFireRoles(batch, true, 0);
    assert forall k :: 0 < k < |batch| ==> batch[k] != batch[0];
  }

  lemma FireEndKeeps(s: State, i: nat, outcome: InvokeOutcome)
    requires Inv(s) && Enabled(s, FireEnd(i, outcome))
    ensures Inv(Step(s, FireEnd(i, outcome)))
  {
    assert EntryOk(s.cfg, s.entries[i], RoleOf(s.ctl, i), s.now);
    EndFireKeeps(s.cfg, s.entries[i], s.now, outcome);
    hide EntryOk, EndFire;
    PutDispatched(s, EndFire(s.cfg, s.entries[i], s.now, outcome));
  }

  lemma StepKeeps(s: State, ev: Event)
    requires Inv(s) && Enabled(s, ev)
    ensures Inv(Step(s, ev))
  {
    match ev
    case Register(key, live, at) => RegisterKeeps(s, key, live, at);
    case Shutdown =>
    case World(now, objects) => WorldKeeps(s, now, objects);
    case BeginScan(listed) => BeginScanKeeps(s, listed);
    case ListFault => ListedKeeps(s, ev);
    case ScanClock => ListedKeeps(s, ev);
    case ScanStep(i, getFaults) => ScanStepKeeps(s, i, getFaults);
    case Select(at) => SelectKeeps(s, at);
    case FireBegin(i) => FireBeginKeeps(s, i);
    case FireEnd(i, outcome) => FireEndKeeps(s, i, outcome);
  }

  /** Every reachable state satisfies the invariant. */
  lemma {:induction false} RunsKeep(cfg: Config, start: real, es: seq<Event>)
    requires ValidConfig(cfg) && CanRun(Init(cfg, start), es)
    ensures Inv(Exec(Init(cfg, start), es))
  {
    if es != [] {
      var pre := es[..|es| - 1];
      RunsKeep(cfg, start, pre);
      StepKeeps(Exec(Init(cfg, start), pre), es[|es| - 1]);
    }
  }
}
