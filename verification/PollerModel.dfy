/**
 The Event-transport status poller as a state machine.

 One `Event` is one atomic step of one thread: a registration or the shutdown flag (both taken under the
 entry lock), a move of the outside world (the clock and the status objects), or one step of the poller
 thread. Registrations, shutdown and world moves are possible between any two poller steps, so a run of
 this machine is an arbitrary interleaving of the three.
 */
module PollerModel {
  import opened Prelude

  // ---------------------------------------------------------------- data

  /** A status object that parsed as a JSON object. `attemptId == ""` stands for a falsy or absent id;
      `bodyUsable` is false when `body` is a truthy value without a `get` method. */
  datatype StatusObject = StatusObject(status: string, attemptId: string, bodyUsable: bool)

  /** What a GET of a listed key yields when the request itself does not fault. */
  datatype Content = NotAnObject | Parsed(obj: StatusObject)

  /** What a future can be resolved with. */
  datatype Verdict =
    | Succeeded(obj: StatusObject)
    | WorkerFailed(obj: StatusObject)
    | FailedUnknown(at: real)
    | InvokeFailed
    | NotDispatched

  /** The fate of one `client.invoke`: it returned, it raised without effect, or it raised although the
      service had already taken the event (a read timeout, a reset connection). */
  datatype InvokeOutcome = Accepted | Rejected | LostReply

  datatype Config = Config(dropTimeout: real, maxRetries: nat, window: Option<int>)

  /** One shard's transport state. The last four fields are history: they record what happened to the
      shard and no branch reads them, except that a future is done when `verdicts` is not empty. */
  datatype Entry = Entry(
    key: string,
    live: bool, // false: observe-only, no dispatch closure
    queued: bool,
    attempts: nat,
    dropRefires: nat,
    notBefore: real,
    dispatchedAt: Option<real>,
    consumed: set<string>,
    verdicts: seq<Verdict>,
    accepted: nat, // invokes that returned
    rejected: nat, // invokes that raised without effect
    lost: nat, // invokes that raised after the service took the event
    misread: set<string> // attempt ids of consumed objects whose body was unusable
  ) {
    predicate Done() {
      verdicts != []
    }

    predicate Flying() {
      !queued && !Done()
    }

    /** Executions the service may bill for this shard. */
    function Billed(): nat {
      accepted + lost
    }
  }

  /** Where the poller thread stands. */
  datatype Control =
    | Idle
    | Listing(todo: seq<nat>, listed: set<string>)
    | Scanning(todo: seq<nat>, listed: set<string>, at: real)
    | Dispatching(batch: seq<nat>, invoking: bool)

  datatype State = State(
    cfg: Config,
    entries: seq<Entry>, // the entry map, in insertion order; an index names one entry for good
    refused: seq<Entry>, // registrations that came after shutdown
    stopped: bool,
    now: real,
    objects: map<string, Content>,
    ctl: Control
  )

  datatype Event =
    | Register(key: string, live: bool, since: Option<real>)
    | Shutdown
    | World(now: real, objects: map<string, Content>)
    | BeginScan(listed: set<string>) // snapshot of the shards in flight, and what the LIST will say
    | ListFault // the LIST raises, which ends the tick
    | ScanClock // the clock reading the deadlines are held against
    | ScanStep(i: nat, getFaults: bool)
    | Select(at: real) // `at` is the clock reading taken just before the lock
    | FireBegin(i: nat)
    | FireEnd(i: nat, outcome: InvokeOutcome)

  const MAX_DROP_REFIRES: nat := 1
  const RETRY_BACKOFF_CAP: real := 30.0

  // ---------------------------------------------------------------- the pieces of a step

  function Pow2(n: nat): nat {
    if n == 0 then 1 else 2 * Pow2(n - 1)
  }

  /** Seconds a faulted invoke waits before its next attempt. */
  function Backoff(attempts: nat): real {
    var p := Pow2(attempts) as real;
    if p < RETRY_BACKOFF_CAP then p else RETRY_BACKOFF_CAP
  }

  /** The wait doubles from one second up to the cap, and stays there from the fifth attempt on. */
  lemma {:induction false} BackoffDoubles(attempts: nat)
    ensures Backoff(0) == 1.0 && Pow2(attempts) >= 1
    ensures Backoff(attempts + 1) == if attempts < 4 then 2.0 * Backoff(attempts) else RETRY_BACKOFF_CAP
  {
    if attempts > 0 {
      BackoffDoubles(attempts - 1);
    }
    if attempts > 4 {
      assert Pow2(attempts) >= 30;
    }
  }

  function NewEntry(key: string, live: bool, at: Option<real>, now: real): Entry {
    Entry(key, live, live, if live then 0 else 1, 0, 0.0,
          if live then None else if at.Some? then at else Some(now), {}, [], 0, 0, 0, {})
  }

  function Resolve(e: Entry, v: Verdict): Entry {
    e.(verdicts := e.verdicts + [v])
  }

  predicate Positive(obj: StatusObject) {
    obj.status == "ok" || obj.status == "no_data"
  }

  function ObjectVerdict(obj: StatusObject): Verdict {
    if Positive(obj) then Succeeded(obj) else WorkerFailed(obj)
  }

  predicate AlreadyConsumed(e: Entry, obj: StatusObject) {
    obj.attemptId != "" && obj.attemptId in e.consumed
  }

  /** The id is recorded before the result is built, so an unusable body leaves it behind. */
  function Consume(e: Entry, obj: StatusObject): Entry
    requires !AlreadyConsumed(e, obj)
  {
    var ids := if obj.attemptId == "" then {} else {obj.attemptId};
    var read := e.(consumed := e.consumed + ids);
    if obj.bodyUsable then Resolve(read, ObjectVerdict(obj)) else read.(misread := read.misread + ids)
  }

  predicate PastDeadline(cfg: Config, e: Entry, at: real) {
    e.dispatchedAt.Some? && at >= e.dispatchedAt.value + cfg.dropTimeout
  }

  predicate MayRefire(cfg: Config, e: Entry) {
    e.live && e.dropRefires < MAX_DROP_REFIRES && e.attempts < cfg.maxRetries
  }

  /** Fault class (b): no status object by the deadline. */
  function Drop(cfg: Config, e: Entry, at: real): Entry {
    if MayRefire(cfg, e) then e.(dropRefires := e.dropRefires + 1, queued := true)
    else Resolve(e, FailedUnknown(at))
  }

  /** What one scan step makes of its entry, and whether the exception it may raise ends the tick. */
  datatype Seen = Seen(entry: Entry, raises: bool)

  function Look(cfg: Config, e: Entry, listed: set<string>, at: real,
                objects: map<string, Content>, getFaults: bool): Seen {
    if e.Done() then Seen(e, false)
    else if e.key in listed && e.key in objects && !getFaults then
      match objects[e.key]
      case NotAnObject => Seen(e, true)
      case Parsed(obj) =>
        if !AlreadyConsumed(e, obj) then Seen(Consume(e, obj), !obj.bodyUsable)
        else if PastDeadline(cfg, e, at) then Seen(Drop(cfg, e, at), false)
        else Seen(e, false)
    else if PastDeadline(cfg, e, at) then Seen(Drop(cfg, e, at), false)
    else Seen(e, false)
  }

  /** Fault class (c): the invoke call raised. */
  function Faulted(cfg: Config, e: Entry, now: real): Entry {
    if e.live && e.attempts < cfg.maxRetries
    then e.(notBefore := now + Backoff(e.attempts), queued := true)
    else Resolve(e, InvokeFailed)
  }

  function StartFire(e: Entry, now: real): Entry {
    e.(attempts := e.attempts + 1, notBefore := 0.0, dispatchedAt := Some(now))
  }

  function EndFire(cfg: Config, e: Entry, now: real, outcome: InvokeOutcome): Entry {
    match outcome
    case Accepted => e.(accepted := e.accepted + 1)
    case Rejected => Faulted(cfg, e.(rejected := e.rejected + 1), now)
    case LostReply => Faulted(cfg, e.(lost := e.lost + 1), now)
  }

  // ---------------------------------------------------------------- choosing what to look at and what to fire

  predicate Eligible(e: Entry, now: real) {
    e.queued && !e.Done() && e.notBefore <= now
  }

  /** Indices below `n` of the entries in flight, in map order. */
  function FlyingBelow(entries: seq<Entry>, n: nat): seq<nat>
    requires n <= |entries|
  {
    if n == 0 then []
    else FlyingBelow(entries, n - 1) + if entries[n - 1].Flying() then [n - 1] else []
  }

  /** Indices below `n` of the entries that may be fired at `now`, in map order. */
  function EligibleBelow(entries: seq<Entry>, now: real, n: nat): seq<nat>
    requires n <= |entries|
  {
    if n == 0 then []
    else EligibleBelow(entries, now, n - 1) + if Eligible(entries[n - 1], now) then [n - 1] else []
  }

  function Batch(cfg: Config, entries: seq<Entry>, now: real): seq<nat> {
    var queued := EligibleBelow(entries, now, |entries|);
    var room := if cfg.window.None? then |queued| else cfg.window.value - |FlyingBelow(entries, |entries|)|;
    queued[..Min(|queued|, Max(room, 0))]
  }

  function MarkSelected(entries: seq<Entry>, batch: seq<nat>): (r: seq<Entry>)
    ensures |r| == |entries|
  {
    seq(|entries|, i requires 0 <= i < |entries| =>
      if i in batch then entries[i].(queued := false) else entries[i])
  }

  function AfterScan(s: State, todo: seq<nat>): Control
    requires s.ctl.Scanning?
  {
    if todo == [] then Idle else Scanning(todo, s.ctl.listed, s.ctl.at)
  }

  // ---------------------------------------------------------------- the machine

  function Init(cfg: Config, now: real): State {
    State(cfg, [], [], false, now, map[], Idle)
  }

  predicate Enabled(s: State, ev: Event) {
    match ev
    case Register(key, live, since) =>
      forall i :: 0 <= i < |s.entries| ==> s.entries[i].key != key // status keys name one shard each
    case Shutdown => true
    case World(now, objects) => s.now <= now
    case BeginScan(listed) => s.ctl.Idle?
    case ListFault => s.ctl.Listing?
    case ScanClock => s.ctl.Listing?
    case ScanStep(i, getFaults) => s.ctl.Scanning? && i < |s.entries| && s.ctl.todo != [] && s.ctl.todo[0] == i
    case Select(at) => s.ctl.Idle? && at <= s.now
    case FireBegin(i) =>
      && s.ctl.Dispatching? && !s.ctl.invoking && i < |s.entries| && s.ctl.batch != []
      && s.ctl.batch[0] == i
    case FireEnd(i, outcome) =>
      && s.ctl.Dispatching? && s.ctl.invoking && i < |s.entries| && s.ctl.batch != []
      && s.ctl.batch[0] == i
  }

  function Step(s: State, ev: Event): State
    requires Enabled(s, ev)
  {
    match ev
    case Register(key, live, since) =>
      var e := NewEntry(key, live, since, s.now);
      if s.stopped then s.(refused := s.refused + [Resolve(e.(queued := false), NotDispatched)])
      else s.(entries := s.entries + [e])
    case Shutdown => s.(stopped := true)
    case World(now, objects) => s.(now := now, objects := objects)
    case BeginScan(listed) =>
      var todo := FlyingBelow(s.entries, |s.entries|);
      if todo == [] then s else s.(ctl := Listing(todo, listed))
    case ListFault => s.(ctl := Idle)
    case ScanClock => s.(ctl := Scanning(s.ctl.todo, s.ctl.listed, s.now))
    case ScanStep(i, getFaults) =>
      var seen := Look(s.cfg, s.entries[i], s.ctl.listed, s.ctl.at, s.objects, getFaults);
      s.(entries := s.entries[i := seen.entry],
         ctl := if seen.raises then Idle else AfterScan(s, s.ctl.todo[1..]))
    case Select(at) =>
      var batch := Batch(s.cfg, s.entries, at);
      if batch == [] then s
      else s.(entries := MarkSelected(s.entries, batch), ctl := Dispatching(batch, false))
    case FireBegin(i) =>
      if !s.entries[i].live then s.(ctl := NextFire(s.ctl.batch))
      else s.(entries := s.entries[i := StartFire(s.entries[i], s.now)], ctl := Dispatching(s.ctl.batch, true))
    case FireEnd(i, outcome) =>
      s.(entries := s.entries[i := EndFire(s.cfg, s.entries[i], s.now, outcome)], ctl := NextFire(s.ctl.batch))
  }

  function NextFire(batch: seq<nat>): Control
    requires batch != []
  {
    if |batch| == 1 then Idle else Dispatching(batch[1..], false)
  }

  /** `es` is a possible run from `s`. */
  ghost predicate CanRun(s: State, es: seq<Event>)
    decreases |es|, 0
  {
    es == [] ||
    (CanRun(s, es[..|es| - 1]) && Enabled(Exec(s, es[..|es| - 1]), es[|es| - 1]))
  }

  /** The state after the run `es`. */
  ghost function Exec(s: State, es: seq<Event>): State
    requires CanRun(s, es)
    decreases |es|, 1
  {
    if es == [] then s else Step(Exec(s, es[..|es| - 1]), es[|es| - 1])
  }

  lemma ExecAppend(s: State, es: seq<Event>, ev: Event)
    requires CanRun(s, es) && Enabled(Exec(s, es), ev)
    ensures CanRun(s, es + [ev]) && Exec(s, es + [ev]) == Step(Exec(s, es), ev)
  {
    assert (es + [ev])[..|es|] == es;
  }
}
