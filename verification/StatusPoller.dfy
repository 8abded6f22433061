/**
 The status poller itself: the entry map, the two loops of a tick and the three retry classes, on mutable
 objects. Every lock region or call into the outside world is recorded in the ghost field `trace`, and
 `Valid` says that the fields are what the machine of `PollerModel` reaches by that trace; so everything
 proved there about runs holds of this class.
 */
module StatusPolling {
  import opened Prelude
  import opened PollerModel
  import opened PollerSafety
  import opened PollerProgress

  /** What the poller cannot control: the clock, the status objects, and how long anything takes. */
  class Outside {
    var now: real
    var objects: map<string, Content>
    const standing: map<string, Content> // status objects nobody overwrites or deletes
    const reliable: bool // every GET is answered

    constructor (standing: map<string, Content>, reliable: bool, now: real)
      ensures this.standing == standing && this.reliable == reliable && this.now == now && Stands()
    {
      this.standing, this.reliable, this.now, objects := standing, reliable, now, standing;
    }

    predicate Stands()
      reads this
    {
      forall key :: key in standing ==> key in objects && objects[key] == standing[key]
    }

    /** Time passes, until `atLeast` or later; workers may write and a lifecycle rule may delete. */
    method Pass(atLeast: real)
      modifies this
      ensures Stands() && now >= old(now) && now >= atLeast
    {
      var t: real := *;
      now := if t < now then now else t;
      if now < atLeast {
        now := atLeast;
      }
      var written: map<string, Content> := *;
      objects := written + standing;
    }
  }

  class ShardEntry {
    const key: string
    const live: bool
    var queued: bool
    var attempts: nat
    var dropRefires: nat
    var notBefore: real
    var dispatchedAt: Option<real>
    var consumed: set<string>
    var result: Option<Verdict> // the future
    ghost var accepted: nat
    ghost var rejected: nat
    ghost var lost: nat
    ghost var misread: set<string>

    ghost function Snap(): Entry
      reads this
    {
      Entry(key, live, queued, attempts, dropRefires, notBefore, dispatchedAt, consumed,
            if result.None? then [] else [result.value], accepted, rejected, lost, misread)
    }

    constructor (key: string, live: bool, since: Option<real>, now: real)
      ensures Snap() == NewEntry(key, live, since, now)
    {
      this.key, this.live := key, live;
      queued, attempts, dispatchedAt := true, 0, None;
      dropRefires, notBefore, consumed, result := 0, 0.0, {}, None;
      accepted, rejected, lost, misread := 0, 0, 0, {};
      if !live {
        queued, attempts := false, 1;
        dispatchedAt := if since.Some? then since else Some(now);
      }
    }

    /** A future can be set once. */
    method SetResult(v: Verdict)
      requires result.None?
      modifies this`result
      ensures Snap() == Resolve(old(Snap()), v) && result == Some(v)
    {
      result := Some(v);
    }
  }

  class StatusPoller {
    const cfg: Config
    const outside: Outside
    var entries: seq<ShardEntry> // the entry map in insertion order
    var stopped: bool
    ghost const start: real
    ghost var refused: seq<Entry>
    ghost var ctl: Control
    ghost var trace: seq<Event>
    ghost var tally: Tally

    // -------------------------------------------------------------- abstraction

    ghost function Snaps(): (r: seq<Entry>)
      reads this, entries
      ensures |r| == |entries|
    {
      seq(|entries|, i requires 0 <= i < |entries| reads this, entries => entries[i].Snap())
    }

    ghost function State(): State
      reads this, outside, entries
    {
      PollerModel.State(cfg, Snaps(), refused, stopped, outside.now, outside.objects, ctl)
    }

    ghost predicate Valid()
      reads this, outside, entries
    {
      && ValidConfig(cfg)
      && outside.Stands()
      && (forall i, j :: 0 <= i < j < |entries| ==> entries[i] != entries[j])
      && CanRun(Init(cfg, start), trace)
      && State() == Exec(Init(cfg, start), trace)
      && tally == TallyOf(Init(cfg, start), trace)
    }

    /** The machine's invariant, at any moment of this object's life. */
    lemma Sound()
      requires Valid()
      ensures Inv(State())
    {
      RunsKeep(cfg, start, trace);
    }

    ghost method Record(ev: Event, was: PollerModel.State)
      requires ValidConfig(cfg) && outside.Stands()
      requires forall i, j :: 0 <= i < j < |entries| ==> entries[i] != entries[j]
      requires CanRun(Init(cfg, start), trace) && was == Exec(Init(cfg, start), trace)
      requires Enabled(was, ev) && State() == Step(was, ev)
      requires tally == TallyOf(Init(cfg, start), trace)
      modifies this`trace, this`tally
      ensures Valid() && trace == old(trace) + [ev]
      ensures tally == Tallied(old(tally), was, ev)
      ensures Acts(was, ev) ==> Rank(State()) < Rank(was)
      ensures !Acts(was, ev) && !ev.Register? ==> Rank(State()) == Rank(was)
    {
      hide Step, Enabled, Inv, Rank, Spoils, Batch;
      RunsKeep(cfg, start, trace);
      StepRank(was, ev);
      ExecAppend(Init(cfg, start), trace, ev);
      assert (trace + [ev])[..|trace|] == trace;
      tally, trace := Tallied(tally, was, ev), trace + [ev];
    }

    constructor (cfg: Config, outside: Outside)
      requires ValidConfig(cfg) && outside.Stands()
      ensures Valid() && this.cfg == cfg && this.outside == outside && entries == [] && !stopped && ctl.Idle?
      ensures trace == [World(outside.now, outside.objects)] && tally == Tally([], [], 0, 0)
    {
      this.cfg, this.outside := cfg, outside;
      entries, stopped := [], false;
      start, refused, ctl, tally := outside.now, [], Idle, Tally([], [], 0, 0);
      trace := [World(outside.now, outside.objects)];
      new;
      ExecAppend(Init(cfg, start), [], World(outside.now, outside.objects));
      assert [] + trace == trace && trace[..0] == [];
    }

    // -------------------------------------------------------------- other threads

    method Register(key: string, live: bool, since: Option<real>) returns (e: ShardEntry)
      requires Valid()
      requires forall i :: 0 <= i < |entries| ==> entries[i].key != key
      modifies this
      ensures Valid() && fresh(e) && trace == old(trace) + [Event.Register(key, live, since)]
      ensures stopped == old(stopped)
      ensures !stopped ==> entries == old(entries) + [e] && e.result.None?
      ensures stopped ==> entries == old(entries) && e.result == Some(NotDispatched)
    {
      ghost var was := State();
      e := new ShardEntry(key, live, since, outside.now);
      if !stopped {
        entries := entries + [e];
        assert State().entries == was.entries + [e.Snap()];
      } else {
        e.queued := false;
        e.SetResult(NotDispatched);
        refused := refused + [e.Snap()];
        assert State().entries == was.entries;
      }
      Record(Event.Register(key, live, since), was);
    }

    method Shutdown()
      requires Valid()
      modifies this
      ensures Valid() && stopped && entries == old(entries) && trace == old(trace) + [Event.Shutdown]
    {
      ghost var was := State();
      stopped := true;
      assert State().entries == was.entries;
      Record(Event.Shutdown, was);
    }

    /** Read the clock, some time after the last thing that happened. */
    method Clock(atLeast: real) returns (t: real)
      requires Valid()
      modifies outside, this`trace, this`tally
      ensures Valid() && outside.Stands() && t == outside.now && t >= old(outside.now) && t >= atLeast
      ensures trace == old(trace) + [World(t, outside.objects)]
      ensures Snaps() == old(Snaps()) && tally == old(tally)
              && Rank(State()) == old(Rank(State()))
    {
      ghost var was := State();
      outside.Pass(atLeast);
      assert Snaps() == was.entries;
      Record(World(outside.now, outside.objects), was);
      t := outside.now;
    }

    // -------------------------------------------------------------- the scan

    /** GET one listed status object and act on it; `raised` is an exception leaving this call. */
    method Consume(e: ShardEntry, getFaults: bool) returns (acted: bool, raised: bool)
      requires e.result.None?
      modifies e
      ensures
        if e.key !in outside.objects || getFaults then !acted && !raised && e.Snap() == old(e.Snap())
        else match outside.objects[e.key]
          case NotAnObject => !acted && raised && e.Snap() == old(e.Snap())
          case Parsed(obj) =>
            if AlreadyConsumed(old(e.Snap()), obj) then !acted && !raised && e.Snap() == old(e.Snap())
            else e.Snap() == PollerModel.Consume(old(e.Snap()), obj) && raised == !obj.bodyUsable && acted == !raised
    {
      if e.key !in outside.objects || getFaults {
        return false, false;
      }
      if outside.objects[e.key].NotAnObject? {
        return false, true;
      }
      var obj := outside.objects[e.key].obj;
      if obj.attemptId != "" {
        if obj.attemptId in e.consumed {
          return false, false;
        }
        e.consumed := e.consumed + {obj.attemptId};
      }
      if !obj.bodyUsable {
        e.misread := e.misread + if obj.attemptId == "" then {} else {obj.attemptId};
        return false, true;
      }
      if Positive(obj) {
        e.SetResult(Succeeded(obj));
      } else {
        e.SetResult(WorkerFailed(obj));
      }
      return true, false;
    }

    method Dropped(e: ShardEntry, at: real)
      requires e.result.None?
      modifies e
      ensures e.Snap() == Drop(cfg, old(e.Snap()), at)
    {
      if e.live && e.dropRefires < MAX_DROP_REFIRES && e.attempts < cfg.maxRetries {
        e.dropRefires := e.dropRefires + 1;
        e.queued := true;
        return;
      }
      e.SetResult(FailedUnknown(at));
    }

    /** The body of the scan loop. */
    method LookAt(e: ShardEntry, listed: set<string>, at: real, getFaults: bool) returns (acted: bool, raised: bool)
      requires !e.queued
      modifies e
      ensures raised <==> Unreadable(old(e.Snap()), listed, outside.objects, getFaults)
      ensures Seen(e.Snap(), raised) == Look(cfg, old(e.Snap()), listed, at, outside.objects, getFaults)
      ensures acted <==> !old(e.Snap().Done()) && (e.Snap().Done() || e.queued)
      ensures !old(e.Snap().Done()) && PastDeadline(cfg, old(e.Snap()), at) ==> acted == !raised
      ensures raised ==> !acted && (Lasting(outside.objects[e.key]) ==> e.Snap() == old(e.Snap()))
      ensures !old(e.Snap().Done()) && !raised && !acted ==> e.Snap() == old(e.Snap())
    {
      acted, raised := false, false;
      if e.result.None? {
        if e.key in listed {
          acted, raised := Consume(e, getFaults);
        }
        if !acted && !raised && e.dispatchedAt.Some? && at >= e.dispatchedAt.value + cfg.dropTimeout {
          Dropped(e, at);
          acted := true;
        }
      }
    }

    /** The tally after looks at these shards, the last of which raised or not. */
    static function After(t: Tally, looks: seq<nat>, raised: bool): Tally
      requires looks != []
    {
      t.(looked := t.looked + looks, spoilt := t.spoilt + if raised then [looks[|looks| - 1]] else [])
    }

    /** One round of the scan loop, recorded. */
    method ScanOne(i: nat, listed: set<string>, at: real, getFaults: bool) returns (acted: bool, raised: bool)
      requires Valid() && i < |entries| && Enabled(State(), ScanStep(i, getFaults))
      requires ctl.listed == listed && ctl.at == at
      requires !entries[i].queued && entries[i].result.None?
      modifies this`ctl, this`trace, this`tally, entries[i]
      ensures Valid() && trace == old(trace) + [ScanStep(i, getFaults)]
      ensures State() == Step(old(State()), ScanStep(i, getFaults))
      ensures raised <==> Unreadable(old(entries[i].Snap()), listed, outside.objects, getFaults)
      ensures tally == After(old(tally), [i], raised)
      ensures ctl == if raised then Idle else AfterScan(old(State()), old(ctl).todo[1..])
      ensures Snaps() == old(Snaps())[i := entries[i].Snap()]
      ensures acted <==> Snaps()[i].Done() || Snaps()[i].queued
      ensures raised ==> !acted && (Lasting(outside.objects[entries[i].key]) ==> Snaps() == old(Snaps()))
      ensures if acted then Rank(State()) < old(Rank(State())) else Rank(State()) == old(Rank(State()))
      ensures PastDeadline(cfg, old(entries[i].Snap()), at) ==> acted == !raised
      ensures !raised && !acted ==> Snaps() == old(Snaps())
    {
      hide Exec, CanRun, Rank, Look, TallyOf, PastDeadline;
      ghost var was := State();
      acted, raised := LookAt(entries[i], listed, at, getFaults);
      ctl := if raised then Idle else AfterScan(was, was.ctl.todo[1..]);
      assert Snaps() == was.entries[i := entries[i].Snap()];
      Record(ScanStep(i, getFaults), was);
    }

    /** The shards in flight, in map order. */
    method Pending() returns (pending: seq<nat>)
      ensures pending == FlyingBelow(Snaps(), |entries|)
    {
      pending := [];
      for n := 0 to |entries|
        invariant pending == FlyingBelow(Snaps(), n)
      {
        if !entries[n].queued && entries[n].result.None? {
          pending := pending + [n];
        }
      }
    }

    ghost predicate Since(was: PollerModel.State, before: seq<ShardEntry>, past: seq<Event>)
      reads this, outside
    {
      entries == before && stopped == was.stopped && refused == was.refused && outside.now >= was.now && past <= trace
    }

    /** A step that moves the thread but no shard. */
    ghost method Move(to: Control, ev: Event)
      requires Valid() && Enabled(State(), ev) && Step(State(), ev) == State().(ctl := to)
      requires !Acts(State(), ev) && (ev.BeginScan? || ev.ListFault? || ev.ScanClock?)
      modifies this`ctl, this`trace, this`tally
      ensures Valid() && ctl == to && trace == old(trace) + [ev]
      ensures tally == if ev.ListFault? then old(tally).(missed := old(tally.missed) + 1) else old(tally)
      ensures Snaps() == old(Snaps()) && Rank(State()) == old(Rank(State()))
    {
      var was := State();
      ctl := to;
      assert Snaps() == was.entries;
      Record(ev, was);
    }

    /** LIST the run prefix, then read the clock the deadlines are held against. */
    method ListKeys(pending: seq<nat>, listFaults: bool) returns (listed: set<string>, at: real, raised: bool)
      requires Valid() && ctl.Idle? && pending == FlyingBelow(Snaps(), |entries|) && pending != []
      modifies this`ctl, this`trace, this`tally, outside
      ensures Valid() && Since(old(State()), entries, old(trace)) && raised == listFaults && at >= old(outside.now)
      ensures ctl == (if raised then Idle else Scanning(pending, listed, at)) && outside.standing.Keys <= listed
      ensures OnlyScans(old(trace), trace)
      ensures tally == if raised then old(tally).(missed := old(tally.missed) + 1) else old(tally)
      ensures Snaps() == old(Snaps())
              && Rank(State()) == old(Rank(State()))
    {
      hide Exec, CanRun, Rank, Snaps, FlyingBelow, Valid;
      at := Clock(outside.now);
      listed, raised := outside.objects.Keys, listFaults;
      Move(Listing(pending, listed), BeginScan(listed));
      if listFaults {
        Move(Idle, ListFault);
      } else {
        at := Clock(outside.now);
        Move(Scanning(pending, listed, at), ScanClock);
      }
    }

    lemma HeadFlies(i: nat)
      requires Valid() && ctl.Scanning? && ctl.todo != [] && ctl.todo[0] == i
      ensures i < |entries| && Snaps()[i].Flying()
    {
      Sound();
    }

    /** The shard's object raises at every look and stays where it is. */
    predicate Blocked(key: string) {
      outside.reliable && key in outside.standing && Lasting(outside.standing[key])
    }

    /** The next round of the scan loop. */
    method ScanHead(todo: seq<nat>, listed: set<string>, at: real) returns (acted: bool, raised: bool)
      requires Valid() && ctl == Scanning(todo, listed, at) && todo != []
      modifies this`ctl, this`trace, this`tally, outside, entries
      ensures Valid() && Since(old(State()), old(entries), old(trace)) && OnlyScans(old(trace), trace)
      ensures ctl == if raised || |todo| == 1 then Idle else Scanning(todo[1..], listed, at)
      ensures tally == After(old(tally), [todo[0]], raised)
      ensures todo[0] < |entries| && forall j :: 0 <= j < |entries| && j != todo[0] ==> Snaps()[j] == old(Snaps())[j]
      ensures acted <==> Snaps()[todo[0]].Done() || Snaps()[todo[0]].queued
      ensures raised ==> !acted
      ensures Blocked(old(Snaps())[todo[0]].key) && outside.standing.Keys <= listed ==>
              raised && Snaps() == old(Snaps())
      ensures if acted then Rank(State()) < old(Rank(State())) else Rank(State()) == old(Rank(State()))
      ensures PastDeadline(cfg, old(Snaps())[todo[0]], at) ==> acted == !raised
      ensures !raised && !acted ==> Snaps() == old(Snaps())
    {
      hide Exec, CanRun, Rank, Step, Look, TallyOf, FlyingBelow, PastDeadline;
      var _ := Clock(outside.now);
      var i, unanswered: bool := todo[0], *;
      var getFaults := unanswered && !outside.reliable;
      HeadFlies(i);
      acted, raised := ScanOne(i, listed, at, getFaults);
    }

    /**
     The first `m` of the `pending` shards have been looked at, the last of them in vain if the call raised: of the
     shards past their deadline at `at` exactly the others among these `m` are settled, that is resolved or
     queued again, and what was not looked at is as before.
     */
    ghost predicate Scanned(before: seq<Entry>, after: seq<Entry>, pending: seq<nat>, m: nat, raised: bool, at: real)
      requires |before| == |after| && forall k :: 0 <= k < |pending| ==> pending[k] < |before|
    {
      (raised || m == |pending|) && Upto(before, after, pending, m, raised, at)
    }

    ghost predicate Upto(before: seq<Entry>, after: seq<Entry>, pending: seq<nat>, m: nat, raised: bool, at: real)
      requires |before| == |after| && forall k :: 0 <= k < |pending| ==> pending[k] < |before|
    {
      && m <= |pending| && (raised ==> m >= 1)
      && (forall i :: 0 <= i < |before| && i !in pending[..m] ==> after[i] == before[i])
      && forall k :: 0 <= k < m && PastDeadline(cfg, before[pending[k]], at) ==>
           (Settled(after[pending[k]]) <==> !(raised && k == m - 1))
    }

    static lemma ScansNothing(past: seq<Event>)
      ensures OnlyScans(past, past)
    {
    }

    lemma UptoNone(before: seq<Entry>, pending: seq<nat>, at: real)
      requires forall k :: 0 <= k < |pending| ==> pending[k] < |before|
      ensures Upto(before, before, pending, 0, false, at)
    {
    }

    lemma UptoNext(before: seq<Entry>, mid: seq<Entry>, after: seq<Entry>, pending: seq<nat>, m: nat, raised: bool,
                   at: real)
      requires |before| == |mid| == |after| && forall k :: 0 <= k < |pending| ==> pending[k] < |before|
      requires Distinct(pending) && m < |pending| && Upto(before, mid, pending, m, false, at)
      requires forall j :: 0 <= j < |before| && j != pending[m] ==> after[j] == mid[j]
      requires PastDeadline(cfg, mid[pending[m]], at) ==> Settled(after[pending[m]]) == !raised
      ensures Upto(before, after, pending, m + 1, raised, at)
    {
      hide PastDeadline, Settled;
      assert pending[..m + 1] == pending[..m] + [pending[m]];
      assert pending[m] !in pending[..m];
    }

    predicate Settled(e: Entry) {
      e.Done() || e.queued
    }

    /** The scan loop. */
    method ScanAll(pending: seq<nat>, listed: set<string>, at: real) returns (progressed: bool, raised: bool)
      requires Valid() && ctl == Scanning(pending, listed, at) && pending != []
      requires Distinct(pending) && outside.standing.Keys <= listed
      requires forall k :: 0 <= k < |pending| ==> pending[k] < |entries|
      modifies this`ctl, this`trace, this`tally, outside, entries
      ensures Valid() && ctl.Idle? && Since(old(State()), old(entries), old(trace))
      ensures OnlyScans(old(trace), trace)
      ensures var m := |tally.looked| - |old(tally.looked)|;
              && m >= 1 && Scanned(old(Snaps()), Snaps(), pending, m, raised, at)
              && tally == After(old(tally), pending[..m], raised)
              && (Blocked(old(Snaps())[pending[0]].key) ==> raised && m == 1 && Snaps() == old(Snaps()))
      ensures Rank(State()) <= old(Rank(State()))
      ensures progressed <==> Rank(State()) < old(Rank(State()))
      ensures !raised && !progressed ==> Snaps() == old(Snaps())
    {
      hide Exec, CanRun, Rank, Step, Enabled, Look, TallyOf, FlyingBelow, Snaps, PastDeadline, Blocked, Upto,
        Valid, OnlyScans;
      ghost var first := Snaps();
      UptoNone(first, pending, at);
      ScansNothing(trace);
      ghost var rank := Rank(State());
      progressed, raised := false, false;
      var k := 0;
      while k < |pending|
        invariant 0 <= k <= |pending| && Valid() && Since(old(State()), old(entries), old(trace))
        invariant ctl == if k == |pending| then Idle else Scanning(pending[k..], listed, at)
        invariant OnlyScans(old(trace), trace)
        invariant tally == old(tally).(looked := old(tally.looked) + pending[..k])
        invariant Upto(first, Snaps(), pending, k, false, at)
        invariant Rank(State()) <= rank && (progressed <==> Rank(State()) < rank)
        invariant !progressed ==> Snaps() == first
        invariant (k == 0 ==> Snaps() == first) && (Blocked(first[pending[0]].key) ==> k == 0)
      {
        assert pending[k..][0] == pending[k] && pending[k..][1..] == pending[k + 1..];
        assert pending[..k + 1] == pending[..k] + [pending[k]];
        ghost var mid, past := Snaps(), trace;
        var acted, failed := ScanHead(pending[k..], listed, at);
        UptoNext(first, mid, Snaps(), pending, k, failed, at);
        ScansGoOn(old(trace), past, trace);
        if failed {
          return progressed, true;
        }
        progressed := progressed || acted;
        k := k + 1;
      }
      assert pending[..|pending|] == pending;
    }

    /**
     Consume newly-landed status objects; settle or re-queue shards past their deadline. A LIST fault ends the call
     before any deadline is looked at, and an unreadable object before the deadlines behind it are.
     */
    method ResolveLanded(listFaults: bool) returns (progressed: bool, raised: bool)
      requires Valid() && ctl.Idle?
      modifies this`ctl, this`trace, this`tally, outside, entries
      ensures Valid() && ctl.Idle? && Since(old(State()), old(entries), old(trace))
      ensures Swept(old(Snaps()), old(tally), old(outside.now), listFaults, raised) && OnlyScans(old(trace), trace)
      ensures Rank(State()) <= old(Rank(State()))
      ensures progressed ==> Rank(State()) < old(Rank(State()))
      ensures !raised ==> (progressed <==> Rank(State()) < old(Rank(State())))
      ensures !raised && !progressed ==> Snaps() == old(Snaps())
    {
      hide Exec, CanRun, Rank, Look, TallyOf, Blocked, PastDeadline, FlyingBelow, Upto, Valid, OnlyScans, Scanned;
      ScansNothing(trace);
      ghost var before, from := Snaps(), outside.now;
      progressed, raised := false, false;
      var pending := Pending();
      FlyingBelowExact(Snaps(), |entries|);
      PendingInRange(pending);
      if pending == [] {
        return;
      }
      var listed, at;
      listed, at, raised := ListKeys(pending, listFaults);
      ghost var past := trace;
      if !raised {
        progressed, raised := ScanAll(pending, listed, at);
        ScannedEarlier(before, Snaps(), pending, |tally.looked| - |old(tally.looked)|, raised, from, at);
        ScansGoOn(old(trace), past, trace);
      }
    }

    lemma ScannedEarlier(before: seq<Entry>, after: seq<Entry>, pending: seq<nat>, m: nat, raised: bool, from: real,
                         at: real)
      requires |before| == |after| && forall k :: 0 <= k < |pending| ==> pending[k] < |before|
      requires Scanned(before, after, pending, m, raised, at) && from <= at
      ensures Scanned(before, after, pending, m, raised, from)
    {
    }

    lemma PendingInRange(pending: seq<nat>)
      requires pending == FlyingBelow(Snaps(), |entries|)
      ensures forall k :: 0 <= k < |pending| ==> pending[k] < |entries| && Snaps()[pending[k]].Flying()
      ensures Distinct(pending)
    {
      FlyingBelowExact(Snaps(), |entries|);
      forall k | 0 <= k < |pending| ensures pending[k] < |entries| && Snaps()[pending[k]].Flying() {
        assert pending[k] in pending;
      }
    }

    /**
     What a scan made of the shards that were `before`. It raised exactly when the LIST did, with something in flight,
     or the last object it looked at was unreadable. Of the shards in flight past their deadline it settled exactly
     those it looked at before that object; none when the LIST raised, all when nothing did.
     */
    ghost predicate Swept(before: seq<Entry>, was: Tally, at: real, listFaults: bool, raised: bool)
      requires |before| == |entries|
      reads this, entries, outside
    {
      var pending, m := FlyingBelow(before, |before|), |tally.looked| - |was.looked|;
      && (forall k :: 0 <= k < |pending| ==> pending[k] < |before| && before[pending[k]].Flying())
      && (forall i :: 0 <= i < |before| && before[i].Flying() ==> i in pending)
      && if pending == [] || listFaults then
           && raised == (pending != []) && Snaps() == before
           && tally == if raised then was.(missed := was.missed + 1) else was
         else
           && m >= 1 && Scanned(before, Snaps(), pending, m, raised, at)
           && tally == After(was, pending[..m], raised)
           && (Blocked(before[pending[0]].key) ==> raised && m == 1 && Snaps() == before)
    }

    // -------------------------------------------------------------- the dispatch loop

    /** One pass over the map under the lock: who may go, how many are out, who fits. */
    method Choose(at: real) returns (batch: seq<nat>)
      ensures batch == Batch(cfg, Snaps(), at)
    {
      var queued: seq<nat>, inFlight := [], 0;
      for n := 0 to |entries|
        invariant queued == EligibleBelow(Snaps(), at, n)
        invariant inFlight == |FlyingBelow(Snaps(), n)|
      {
        var e := entries[n];
        if e.queued && e.result.None? && e.notBefore <= at {
          queued := queued + [n];
        }
        if !e.queued && e.result.None? {
          inFlight := inFlight + 1;
        }
      }
      var room := if cfg.window.None? then |queued| else cfg.window.value - inFlight;
      batch := queued[..Min(|queued|, Max(room, 0))];
    }

    static lemma MarkOneMore(all: seq<Entry>, batch: seq<nat>, k: nat)
      requires k < |batch| && batch[k] < |all|
      ensures var i, marked := batch[k], MarkSelected(all, batch[..k]);
              MarkSelected(all, batch[..k + 1]) == marked[i := marked[i].(queued := false)]
    {
      assert batch[..k + 1] == batch[..k] + [batch[k]];
    }

    /** Take the chosen entries off the queue. */
    method Unqueue(batch: seq<nat>)
      requires forall k :: 0 <= k < |batch| ==> batch[k] < |entries|
      requires forall i, j :: 0 <= i < j < |entries| ==> entries[i] != entries[j]
      modifies entries
      ensures Snaps() == MarkSelected(old(Snaps()), batch)
    {
      for k := 0 to |batch|
        invariant Snaps() == MarkSelected(old(Snaps()), batch[..k])
      {
        ghost var before := Snaps();
        entries[batch[k]].queued := false;
        assert entries[batch[k]].Snap() == before[batch[k]].(queued := false);
        assert Snaps() == before[batch[k] := before[batch[k]].(queued := false)];
        MarkOneMore(old(Snaps()), batch, k);
      }
      assert batch[..|batch|] == batch;
    }

    method SelectBatch(at: real) returns (batch: seq<nat>)
      requires Valid() && ctl.Idle? && at <= outside.now
      modifies this`ctl, this`trace, this`tally, entries
      ensures Valid() && trace == old(trace) + [Select(at)] && batch == Batch(cfg, old(Snaps()), at)
      ensures tally == if batch == [] then old(tally).(passed := old(tally.passed) + 1) else old(tally)
      ensures ctl == if batch == [] then Idle else Dispatching(batch, false)
      ensures batch == [] ==> Snaps() == old(Snaps())
      ensures if batch == [] then Rank(State()) == old(Rank(State())) else Rank(State()) < old(Rank(State()))
    {
      hide Exec, CanRun, TallyOf, Rank, Batch, MarkSelected, FlyingBelow, EligibleBelow;
      ghost var was := State();
      batch := Choose(at);
      BatchExact(cfg, Snaps(), at);
      assert forall k :: 0 <= k < |batch| ==> batch[k] in batch;
      assert Enabled(was, Select(at)) && Step(was, Select(at)) ==
        if batch == [] then was
        else was.(entries := MarkSelected(was.entries, batch), ctl := Dispatching(batch, false));
      assert Acts(was, Select(at)) == (batch != []);
      hide Step, Enabled, Acts;
      if batch != [] {
        Unqueue(batch);
        ctl := Dispatching(batch, false);
      }
      assert batch == [] ==> Snaps() == was.entries;
      Record(Select(at), was);
    }

    method InvokeFaulted(e: ShardEntry)
      requires e.result.None?
      modifies e
      ensures e.Snap() == Faulted(cfg, old(e.Snap()), outside.now)
    {
      if e.live && e.attempts < cfg.maxRetries {
        e.notBefore := outside.now + Backoff(e.attempts);
        e.queued := true;
        return;
      }
      e.SetResult(InvokeFailed);
    }

    /** The invoke has returned or raised. */
    method Settle(e: ShardEntry, outcome: InvokeOutcome)
      requires e.result.None?
      modifies e
      ensures e.Snap() == EndFire(cfg, old(e.Snap()), outside.now, outcome)
    {
      match outcome
      case Accepted => e.accepted := e.accepted + 1;
      case Rejected =>
        e.rejected := e.rejected + 1;
        InvokeFaulted(e);
      case LostReply =>
        e.lost := e.lost + 1;
        InvokeFaulted(e);
    }

    lemma BatchHead(i: nat)
      requires Valid() && ctl.Dispatching? && ctl.batch != [] && ctl.batch[0] == i
      ensures i < |entries| && Snaps()[i].Flying() && Snaps()[i].live
    {
      Sound();
    }

    /** The counters and stamps of a dispatch, set just before the invoke. */
    method Stamp(i: nat)
      requires Valid() && ctl.Dispatching? && !ctl.invoking && ctl.batch != [] && ctl.batch[0] == i && i < |entries|
      modifies this`ctl, this`trace, this`tally, entries[i]
      ensures Valid() && trace == old(trace) + [FireBegin(i)] && tally == old(tally)
      ensures ctl == Dispatching(old(ctl.batch), true) && Rank(State()) < old(Rank(State()))
    {
      hide Exec, CanRun, TallyOf, Rank;
      BatchHead(i);
      ghost var was := State();
      var e := entries[i];
      e.attempts, e.notBefore, e.dispatchedAt := e.attempts + 1, 0.0, Some(outside.now);
      ctl := Dispatching(ctl.batch, true);
      assert Snaps() == was.entries[i := e.Snap()];
      Record(FireBegin(i), was);
    }

    method Finish(i: nat, outcome: InvokeOutcome)
      requires Valid() && ctl.Dispatching? && ctl.invoking && ctl.batch != [] && ctl.batch[0] == i && i < |entries|
      modifies this`ctl, this`trace, this`tally, entries[i]
      ensures Valid() && trace == old(trace) + [FireEnd(i, outcome)] && tally == old(tally)
      ensures ctl == NextFire(old(ctl.batch)) && Rank(State()) < old(Rank(State()))
    {
      hide Exec, CanRun, TallyOf, Rank;
      BatchHead(i);
      ghost var was := State();
      Settle(entries[i], outcome);
      ctl := NextFire(ctl.batch);
      assert Snaps() == was.entries[i := entries[i].Snap()];
      Record(FireEnd(i, outcome), was);
    }

    /** One Event invoke. It may take its time, and it may raise. */
    method Fire(i: nat)
      requires Valid() && ctl.Dispatching? && !ctl.invoking && ctl.batch != [] && ctl.batch[0] == i
      modifies this`ctl, this`trace, this`tally, outside, entries
      ensures Valid() && Since(old(State()), old(entries), old(trace)) && tally == old(tally)
      ensures ctl == NextFire(old(ctl.batch)) && Rank(State()) < old(Rank(State()))
    {
      hide Exec, CanRun, TallyOf, Rank;
      BatchHead(i);
      var t := Clock(outside.now);
      Stamp(i);
      t := Clock(outside.now);
      var outcome: InvokeOutcome := *;
      Finish(i, outcome);
    }

    method FireAll(batch: seq<nat>)
      requires Valid() && ctl == Dispatching(batch, false) && batch != []
      modifies this`ctl, this`trace, this`tally, outside, entries
      ensures Valid() && Since(old(State()), old(entries), old(trace)) && tally == old(tally)
      ensures ctl.Idle? && Rank(State()) < old(Rank(State()))
    {
      hide Exec, CanRun, TallyOf, Rank, Snaps;
      var k := 0;
      while k < |batch|
        invariant 0 <= k <= |batch| && Valid() && Since(old(State()), old(entries), old(trace))
        invariant tally == old(tally)
        invariant ctl == if k == |batch| then Idle else Dispatching(batch[k..], false)
        invariant Rank(State()) + k <= old(Rank(State()))
      {
        assert batch[k..][0] == batch[k] && batch[k..][1..] == batch[k + 1..];
        Fire(batch[k]);
        k := k + 1;
      }
    }

    /** Fire queued shards while the in-flight window has room. */
    method DispatchUpToWindow() returns (dispatched: bool)
      requires Valid() && ctl.Idle?
      modifies this`ctl, this`trace, this`tally, outside, entries
      ensures Valid() && ctl.Idle? && Since(old(State()), old(entries), old(trace))
      ensures tally == old(tally).(passed := old(tally.passed) + 1)
      ensures Batch(cfg, Snaps(), outside.now) == []
      ensures if dispatched then Rank(State()) < old(Rank(State()))
              else Snaps() == old(Snaps()) && Rank(State()) == old(Rank(State()))
    {
      hide Exec, CanRun, TallyOf, Rank, Batch, Valid;
      dispatched := false;
      ghost var rank := Rank(State());
      while true
        invariant Valid() && ctl.Idle? && Since(old(State()), old(entries), old(trace))
        invariant tally == old(tally)
        invariant if dispatched then Rank(State()) < rank else Snaps() == old(Snaps()) && Rank(State()) == rank
        decreases Rank(State())
      {
        var at := Clock(outside.now);
        var batch := SelectBatch(at);
        if batch == [] {
          return;
        }
        FireAll(batch);
        dispatched := true;
      }
    }

    // -------------------------------------------------------------- a tick

    ghost predicate Unresolved()
      reads this, entries
    {
      exists i :: 0 <= i < |entries| && !Snaps()[i].Done()
    }

    predicate CanDispatch() {
      cfg.window.Some? ==> cfg.window.value >= 1
    }

    lemma SweptSettles(before: seq<Entry>, was: Tally, at: real, listFaults: bool, i: nat)
      requires |before| == |entries| && Swept(before, was, at, listFaults, false)
      requires i < |entries| && before[i].Flying() && PastDeadline(cfg, before[i], at)
      ensures Settled(Snaps()[i])
    {
      hide PastDeadline, Blocked;
      var pending := FlyingBelow(before, |before|);
      var k :| 0 <= k < |pending| && pending[k] == i;
    }

    /**
     One tick of the loop. It raises exactly when its scan does, and then dispatches nothing. Otherwise it reports
     progress exactly when the rank went down and leaves no shard eligible while the window has room; and once
     every deadline and backoff has been reached it does make progress.
     */
    method Tick(listFaults: bool) returns (progressed: bool, raised: bool)
      requires Valid() && ctl.Idle?
      modifies this`ctl, this`trace, this`tally, outside, entries
      ensures Valid() && ctl.Idle? && Since(old(State()), old(entries), old(trace))
      ensures raised <==>
                (listFaults && old(FlyingBelow(Snaps(), |entries|)) != []) || tally.spoilt != old(tally.spoilt)
      ensures raised ==>
                Swept(old(Snaps()), old(tally), old(outside.now), listFaults, raised) && OnlyScans(old(trace), trace)
      ensures tally.Ended() == old(tally.Ended()) + if raised then 1 else 0
      ensures tally.Ticks() == old(tally.Ticks()) + 1
      ensures tally.missed <= old(tally.missed) + if listFaults then 1 else 0
      ensures !listFaults && old(FlyingBelow(Snaps(), |entries|) != [] && Blocked(Snaps()[First()].key)) ==> raised
      ensures Rank(State()) <= old(Rank(State()))
      ensures !raised ==>
                && (progressed <==> Rank(State()) < old(Rank(State())))
                && Batch(cfg, Snaps(), outside.now) == []
                && tally.looked == old(tally.looked) + (if listFaults then [] else old(FlyingBelow(Snaps(), |entries|)))
      ensures !raised && CanDispatch() && old(Ready(State()) && Unresolved()) ==> Rank(State()) < old(Rank(State()))
    {
      hide Exec, CanRun, TallyOf, Rank, Batch, FlyingBelow, Blocked, Valid, PastDeadline;
      ghost var first := State();
      progressed, raised := ResolveLanded(listFaults);
      if raised {
        return;
      }
      ghost var after := Snaps();
      forall i | 0 <= i < |entries| && Ready(first) && first.entries[i].Flying() ensures Settled(after[i]) {
        SweptSettles(first.entries, old(tally), first.now, listFaults, i);
      }
      var dispatched := DispatchUpToWindow();
      if CanDispatch() && Ready(first) && !progressed && !dispatched && Unresolved() {
        ghost var i :| 0 <= i < |entries| && !Snaps()[i].Done();
        assert Snaps() == first.entries;
        NextPassPicks(first, outside.now, i);
      }
      progressed := dispatched || progressed;
    }

    // -------------------------------------------------------------- over many ticks

    lemma FlyingIsStamped(i: nat)
      requires Valid() && ctl.Idle? && i < |entries| && Snaps()[i].Flying()
      ensures Snaps()[i].dispatchedAt.Some?
    {
      Sound();
      assert EntryOk(cfg, Snaps()[i], Free, outside.now);
    }

    /** A moment by which every deadline and backoff stamp has been reached. */
    method LatestStamp() returns (t: real)
      requires Valid() && ctl.Idle?
      ensures forall now :: now >= t ==> Ready(State().(now := now))
    {
      t := outside.now;
      for n := 0 to |entries|
        invariant forall i :: 0 <= i < n && !Snaps()[i].Done() ==>
                                if Snaps()[i].queued then Snaps()[i].notBefore <= t
                                else PastDeadline(cfg, Snaps()[i], t)
      {
        var e := entries[n];
        if e.result.None? {
          if !e.queued {
            FlyingIsStamped(n);
          }
          var stamp := if e.queued then e.notBefore else e.dispatchedAt.value + cfg.dropTimeout;
          t := if t < stamp then stamp else t;
        }
      }
    }

    lemma RankOpen()
      requires Valid()
      ensures Unresolved() <==> Rank(State()) > 0
    {
      hide Rank;
      Sound();
      RankZero(State());
    }

    /** A tick when all stamps have been reached: unless a fault ends it, it brings an unresolved poller closer to the
        end. */
    method PatientTick(listFaults: bool)
      requires Valid() && ctl.Idle? && CanDispatch()
      modifies this`ctl, this`trace, this`tally, outside, entries
      ensures Valid() && ctl.Idle? && Since(old(State()), old(entries), old(trace))
      ensures tally.Ticks() == old(tally.Ticks()) + 1 && tally.missed <= old(tally.missed) + if listFaults then 1 else 0
      ensures Unresolved() ==>
                old(Unresolved()) && 1 + Rank(State()) <= old(Rank(State())) + (tally.Ended() - old(tally.Ended()))
    {
      hide Exec, CanRun, TallyOf, Rank, Batch, FlyingBelow, Ready, Swept, Valid, OnlyScans;
      var t := LatestStamp();
      ghost var s := State();
      t := Clock(t);
      assert State() == s.(now := outside.now, objects := outside.objects);
      ReadyAnyObjects(s.(now := outside.now), outside.objects);
      RankOpen();
      var progressed, raised := Tick(listFaults);
      RankOpen();
    }

    static function Trues(faults: seq<bool>): nat {
      if faults == [] then 0 else Trues(faults[..|faults| - 1]) + if faults[|faults| - 1] then 1 else 0
    }

    /**
     As many ticks as `faults` is long, time going on before each; `faults` says which of their LISTs fail. Every
     future gets resolved, faults or not: whatever the LIST does and whatever the status objects hold, once there have
     been more ticks than the rank and the ticks that a LIST fault or an unreadable object has ended, no shard is
     unresolved.
     */
    method Drain(faults: seq<bool>)
      requires Valid() && ctl.Idle? && CanDispatch()
      modifies this`ctl, this`trace, this`tally, outside, entries
      ensures Valid() && ctl.Idle? && Since(old(State()), old(entries), old(trace))
      ensures tally.Ticks() == old(tally.Ticks()) + |faults| && tally.missed <= old(tally.missed) + Trues(faults)
      ensures |faults| > old(Rank(State())) + (tally.Ended() - old(tally.Ended())) ==> !Unresolved()
    {
      hide Exec, CanRun, TallyOf, Rank, Valid, Unresolved;
      for n := 0 to |faults|
        invariant Valid() && ctl.Idle? && Since(old(State()), old(entries), old(trace))
        invariant tally.Ticks() == old(tally.Ticks()) + n && tally.missed <= old(tally.missed) + Trues(faults[..n])
        invariant Unresolved() ==> n + Rank(State()) <= old(Rank(State())) + (tally.Ended() - old(tally.Ended()))
      {
        PatientTick(faults[n]);
        assert faults[..n + 1][..n] == faults[..n];
      }
      assert faults[..|faults|] == faults;
    }

    /**
     What a caller can count on. If no more than `most` ticks are ended by faults, all futures are resolved after one
     tick more than these and the rank. And if every status object is readable all along, only the failing LISTs count.
     */
    method Resolve(faults: seq<bool>, ghost most: nat)
      requires Valid() && ctl.Idle? && CanDispatch()
      modifies this`ctl, this`trace, this`tally, outside, entries
      ensures Valid() && ctl.Idle? && Since(old(State()), old(entries), old(trace))
      ensures tally.Ended() - old(tally.Ended()) <= most && |faults| == old(Rank(State())) + most + 1 ==> !Unresolved()
      ensures old(Readable(outside.objects)) && AllReadable(trace[|old(trace)|..]) ==>
                |faults| > old(Rank(State())) + Trues(faults) ==> !Unresolved()
    {
      hide Rank, Exec, TallyOf, Readable, AllReadable;
      ghost var before, past := State(), trace;
      Drain(faults);
      if Readable(before.objects) && AllReadable(trace[|past|..]) {
        ReadableSpoilsNothing(Init(cfg, start), past, trace);
      }
    }

    /** A tick, some time later, that comes to nothing. */
    method WastedTick(listFaults: bool)
      requires Valid() && ctl.Idle? && FlyingBelow(Snaps(), |entries|) != []
      requires listFaults || Blocked(Snaps()[First()].key)
      modifies this`ctl, this`trace, this`tally, outside, entries
      ensures Valid() && ctl.Idle? && Since(old(State()), old(entries), old(trace)) && Snaps() == old(Snaps())
      ensures OnlyScans(old(trace), trace)
      ensures tally == if listFaults then old(tally).(missed := old(tally.missed) + 1)
                       else After(old(tally), [old(First())], true)
    {
      hide Exec, CanRun, TallyOf, Rank, Batch, FlyingBelow, Valid, Blocked, OnlyScans;
      var wait: real := *;
      var t := Clock(wait);
      ghost var waited := trace;
      var progressed, raised := Tick(listFaults);
      ScansAfterClock(old(trace), waited, trace);
    }

    static lemma ScansAfterClock(past: seq<Event>, waited: seq<Event>, all: seq<Event>)
      requires exists t, objects :: waited == past + [World(t, objects)]
      requires OnlyScans(waited, all)
      ensures OnlyScans(past, all)
    {
      assert OnlyScans(past, waited);
      ScansGoOn(past, waited, all);
    }

    /**
     While the LIST keeps failing, however long, a poller with a shard in flight resolves nothing and dispatches
     nothing: all the ticks are ended by the fault, and nothing happens in them but the LIST. The comment on the loop
     says a persistent fault shows through the drop deadline; for a LIST fault it does not, since the deadline is only
     held against shards once the LIST has answered.
     */
    method Outage(ticks: nat)
      requires Valid() && ctl.Idle? && FlyingBelow(Snaps(), |entries|) != []
      modifies this`ctl, this`trace, this`tally, outside, entries
      ensures Valid() && Since(old(State()), old(entries), old(trace)) && Snaps() == old(Snaps())
      ensures tally == old(tally).(missed := old(tally.missed) + ticks) && OnlyScans(old(trace), trace)
    {
      hide Exec, CanRun, TallyOf, FlyingBelow, Valid, OnlyScans;
      ScansNothing(trace);
      for n := 0 to ticks
        invariant Valid() && ctl.Idle? && Since(old(State()), old(entries), old(trace)) && Snaps() == old(Snaps())
        invariant tally == old(tally).(missed := old(tally.missed) + n) && OnlyScans(old(trace), trace)
      {
        ghost var past := trace;
        WastedTick(true);
        ScansGoOn(old(trace), past, trace);
      }
    }

    /**
     Nor does a shard whose object cannot be read give way: while the first shard in flight has one that is no JSON
     object, or one with an unusable body and no attempt id, no shard is resolved or dispatched, that one included:
     each tick looks at that one and ends.
     */
    method Blockade(ticks: nat)
      requires Valid() && ctl.Idle? && FlyingBelow(Snaps(), |entries|) != []
      requires Blocked(Snaps()[First()].key)
      modifies this`ctl, this`trace, this`tally, outside, entries
      ensures Valid() && Since(old(State()), old(entries), old(trace)) && Snaps() == old(Snaps())
      ensures tally == old(tally).(looked := old(tally.looked) + Times(old(First()), ticks),
                                   spoilt := old(tally.spoilt) + Times(old(First()), ticks))
      ensures OnlyScans(old(trace), trace)
    {
      hide Exec, CanRun, TallyOf, FlyingBelow, Valid, OnlyScans, Blocked;
      ghost var first := First();
      ScansNothing(trace);
      for n := 0 to ticks
        invariant Valid() && ctl.Idle? && Since(old(State()), old(entries), old(trace)) && Snaps() == old(Snaps())
        invariant tally == old(tally).(looked := old(tally.looked) + Times(first, n),
                                       spoilt := old(tally.spoilt) + Times(first, n))
        invariant OnlyScans(old(trace), trace)
      {
        ghost var past := trace;
        WastedTick(false);
        ScansGoOn(old(trace), past, trace);
        assert Times(first, n + 1) == Times(first, n) + [first];
      }
    }

    static function Times(i: nat, n: nat): (r: seq<nat>)
      ensures |r| == n
    {
      seq(n, k requires 0 <= k < n => i)
    }

    ghost function First(): (i: nat)
      reads this, entries
      requires FlyingBelow(Snaps(), |entries|) != []
      ensures i < |entries|
    {
      PendingInRange(FlyingBelow(Snaps(), |entries|));
      FlyingBelow(Snaps(), |entries|)[0]
    }
  }
}
