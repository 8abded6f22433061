/**
 The post-run tail and its completion marker. Any number of tails work on one run: the one that dispatched it and
 those of reattached handles. Each waits for the shards, finalizes if the layout asks for it, and fires a stats event
 whose delivery writes the marker. Events get lost, delayed and repeated, and a tail can die at any point.
 */
module Tail {
  import opened Prelude

  // ---------------------------------------------------------------- data

  /** An exception of the finalize invoke. */
  datatype Error = Error(name: string, message: string)

  /** The facade reports the text of the exception, the command line also its type. */
  datatype Kind = Facade | CommandLine

  datatype Phase = Waiting | Finalizing(failures: nat) | Reporting(error: Option<string>) | Over

  /** `finalized` and `skipped` are history. */
  datatype Worker = Worker(kind: Kind, attached: bool, phase: Phase, finalized: bool, skipped: bool)

  datatype StatsEvent = StatsEvent(from: nat, finalizeError: Option<string>)

  /** `needs`: the layout asks for a finalize. The marker exists when some tail's event wrote it. */
  datatype State = State(needs: bool, workers: seq<Worker>, sent: seq<StatsEvent>, writers: set<nat>) {
    predicate Recorded() {
      writers != {}
    }
  }

  datatype Event =
    | Begin(kind: Kind, attached: bool)
    | Look(i: nat, readFaults: bool) // every shard has settled
    | Attempt(i: nat, failure: Option<Error>) // one finalize invoke
    | Report(i: nat, fires: bool) // the stats invoke may be skipped or fail
    | Crash(i: nat)
    | Deliver(k: nat, recordFails: bool, putFails: bool)

  const FINALIZE_RETRIES: nat := 1

  function Described(kind: Kind, e: Error): string {
    if kind.Facade? then e.message else e.name + ": " + e.message
  }

  /** An empty text is as good as none to the worker. */
  predicate Withheld(finalizeError: Option<string>) {
    finalizeError.Some? && finalizeError.value != ""
  }

  function AfterLook(w: Worker, recorded: bool, needs: bool): Worker {
    if w.attached && recorded then w.(phase := Over, skipped := true)
    else w.(phase := if needs then Finalizing(0) else Reporting(None))
  }

  function AfterAttempt(w: Worker, failure: Option<Error>): Worker
    requires w.phase.Finalizing?
  {
    if failure.None? then w.(phase := Reporting(None), finalized := true)
    else if w.phase.failures < FINALIZE_RETRIES then w.(phase := Finalizing(w.phase.failures + 1))
    else w.(phase := Reporting(Some(Described(w.kind, failure.value))))
  }

  predicate Enabled(s: State, ev: Event) {
    match ev
    case Begin(_, _) => true
    case Look(i, _) => i < |s.workers| && s.workers[i].phase.Waiting?
    case Attempt(i, _) => i < |s.workers| && s.workers[i].phase.Finalizing?
    case Report(i, _) => i < |s.workers| && s.workers[i].phase.Reporting?
    case Crash(i) => i < |s.workers|
    case Deliver(k, _, _) => k < |s.sent|
  }

  function Step(s: State, ev: Event): State
    requires Enabled(s, ev)
  {
    match ev
    case Begin(kind, attached) => s.(workers := s.workers + [Worker(kind, attached, Waiting, false, false)])
    case Look(i, readFaults) =>
      s.(workers := s.workers[i := AfterLook(s.workers[i], s.Recorded() && !readFaults, s.needs)])
    case Attempt(i, failure) => s.(workers := s.workers[i := AfterAttempt(s.workers[i], failure)])
    case Report(i, fires) =>
      s.(workers := s.workers[i := s.workers[i].(phase := Over)],
         sent := if fires then s.sent + [StatsEvent(i, s.workers[i].phase.error)] else s.sent)
    case Crash(i) => s.(workers := s.workers[i := s.workers[i].(phase := Over)])
    case Deliver(k, recordFails, putFails) =>
      if recordFails || putFails || Withheld(s.sent[k].finalizeError) then s
      else s.(writers := s.writers + {s.sent[k].from})
  }

  function Init(needs: bool): State {
    State(needs, [], [], {})
  }

  ghost predicate CanRun(s: State, es: seq<Event>)
    decreases |es|, 0
  {
    es == [] || (CanRun(s, es[..|es| - 1]) && Enabled(Exec(s, es[..|es| - 1]), es[|es| - 1]))
  }

  ghost function Exec(s: State, es: seq<Event>): State
    requires CanRun(s, es)
    decreases |es|, 1
  {
    if es == [] then s else Step(Exec(s, es[..|es| - 1]), es[|es| - 1])
  }

  lemma Extend(s: State, es: seq<Event>, ev: Event) returns (longer: seq<Event>)
    requires CanRun(s, es) && Enabled(Exec(s, es), ev)
    ensures CanRun(s, longer) && Exec(s, longer) == Step(Exec(s, es), ev) && longer == es + [ev]
  {
    longer := es + [ev];
    assert longer[..|es|] == es;
  }

  // ---------------------------------------------------------------- what the marker stands for

  predicate Settled(s: State, i: nat)
    requires i < |s.workers|
  {
    s.workers[i].finalized || !s.needs
  }

  predicate HasWriter(s: State, i: nat) {
    exists k :: 0 <= k < |s.sent| && s.sent[k].from == i && !Withheld(s.sent[k].finalizeError)
  }

  predicate Inv(s: State) {
    && (forall i :: 0 <= i < |s.workers| && s.workers[i].phase == Reporting(None) ==> Settled(s, i))
    && (forall k :: 0 <= k < |s.sent| ==> s.sent[k].from < |s.workers|)
    && (forall k :: 0 <= k < |s.sent| && s.sent[k].finalizeError.None? ==> Settled(s, s.sent[k].from))
    && (forall i :: i in s.writers ==> HasWriter(s, i))
    && (forall i :: 0 <= i < |s.workers| && s.workers[i].skipped ==> s.workers[i].attached && s.Recorded())
    && (forall i :: 0 <= i < |s.workers| && s.workers[i].phase.Waiting? ==> !s.workers[i].skipped)
  }

  lemma StepKeeps(s: State, ev: Event)
    requires Inv(s) && Enabled(s, ev)
    ensures Inv(Step(s, ev))
  {
    forall i | i in Step(s, ev).writers ensures HasWriter(Step(s, ev), i) {
      WriterKeeps(s, ev, i);
    }
    hide HasWriter, Withheld, Described;
  }

  lemma WriterKeeps(s: State, ev: Event, i: nat)
    requires Inv(s) && Enabled(s, ev) && i in Step(s, ev).writers
    ensures HasWriter(Step(s, ev), i)
  {
    if i in s.writers {
      var k :| 0 <= k < |s.sent| && s.sent[k].from == i && !Withheld(s.sent[k].finalizeError);
      assert Step(s, ev).sent[k] == s.sent[k];
    } else {
      assert Step(s, ev).sent[ev.k] == s.sent[ev.k];
    }
  }

  lemma {:induction false} RunsKeep(needs: bool, es: seq<Event>)
    requires CanRun(Init(needs), es)
    ensures Inv(Exec(Init(needs), es)) && Exec(Init(needs), es).needs == needs
  {
    if es != [] {
      RunsKeep(needs, es[..|es| - 1]);
      StepKeeps(Exec(Init(needs), es[..|es| - 1]), es[|es| - 1]);
    }
  }

  /** Every exception of a finalize in the run carries one of these texts. */
  ghost predicate Speaks(es: seq<Event>, texts: set<string>) {
    forall k :: 0 <= k < |es| && es[k].Attempt? && es[k].failure.Some? ==> es[k].failure.value.message in texts
  }

  predicate Loud(s: State) {
    && (forall i :: 0 <= i < |s.workers| && s.workers[i].phase.Reporting? ==> s.workers[i].phase.error != Some(""))
    && (forall k :: 0 <= k < |s.sent| ==> s.sent[k].finalizeError != Some(""))
  }

  lemma DescribedIsLoud(kind: Kind, e: Error)
    ensures Described(kind, e) == "" <==> kind.Facade? && e.message == ""
  {
    assert kind.CommandLine? ==> |Described(kind, e)| == |e.name| + 2 + |e.message|;
  }

  lemma {:induction false} RunsLoud(needs: bool, es: seq<Event>, texts: set<string>)
    requires CanRun(Init(needs), es) && Speaks(es, texts) && "" !in texts
    ensures Loud(Exec(Init(needs), es))
  {
    if es != [] {
      var s, ev := Exec(Init(needs), es[..|es| - 1]), es[|es| - 1];
      RunsLoud(needs, es[..|es| - 1], texts);
      if ev.Attempt? && ev.failure.Some? {
        DescribedIsLoud(s.workers[ev.i].kind, ev.failure.value);
      }
    }
  }

  /** Over every run whose finalizes fail with these texts, each tail that wrote the marker had finalized, or had no
      need to. */
  ghost predicate MarkerSound(needs: bool, texts: set<string>) {
    forall es, i :: CanRun(Init(needs), es) && Speaks(es, texts) && i in Exec(Init(needs), es).writers
      ==> i < |Exec(Init(needs), es).workers| && Settled(Exec(Init(needs), es), i)
  }

  lemma LoudWriters(needs: bool, es: seq<Event>, texts: set<string>, i: nat)
    requires CanRun(Init(needs), es) && Speaks(es, texts) && i in Exec(Init(needs), es).writers
    requires needs ==> "" !in texts
    ensures i < |Exec(Init(needs), es).workers| && Settled(Exec(Init(needs), es), i)
  {
    RunsKeep(needs, es);
    if needs {
      RunsLoud(needs, es, texts);
    }
  }

  /** A facade tail whose finalize fails twice without a word, and is recorded all the same. */
  lemma MuteRun() returns (es: seq<Event>)
    ensures CanRun(Init(true), es) && Speaks(es, {""})
    ensures var s := Exec(Init(true), es); 0 in s.writers && |s.workers| == 1 && !s.workers[0].finalized && s.needs
  {
    hide Exec, CanRun;
    var s0, mute := Init(true), Some(Error("Exception", ""));
    var at0 := Worker(Facade, false, Waiting, false, false);
    Nothing(s0);
    es := Extend(s0, [], Begin(Facade, false));
    assert Exec(s0, es) == State(true, [at0], [], {});
    es := Extend(s0, es, Look(0, false));
    assert Exec(s0, es) == State(true, [at0.(phase := Finalizing(0))], [], {});
    es := Extend(s0, es, Attempt(0, mute));
    assert Exec(s0, es) == State(true, [at0.(phase := Finalizing(1))], [], {});
    es := Extend(s0, es, Attempt(0, mute));
    assert Exec(s0, es) == State(true, [at0.(phase := Reporting(Some("")))], [], {});
    es := Extend(s0, es, Report(0, true));
    assert Exec(s0, es) == State(true, [at0.(phase := Over)], [StatsEvent(0, Some(""))], {});
    es := Extend(s0, es, Deliver(0, false, false));
    assert Exec(s0, es) == State(true, [at0.(phase := Over)], [StatsEvent(0, Some(""))], {0});
  }

  lemma Nothing(s: State)
    ensures CanRun(s, []) && Exec(s, []) == s
  {
  }

  /**
   The marker says that the store is finalized, under any interleaving of tails, reattachments, crashes and lost, late
   or repeated stats events, exactly when no finalize exception has an empty text (or none is needed): the worker
   withholds the marker on a truthy error text, and an exception without a message has none.
   */
  lemma MarkerSoundExactly(needs: bool, texts: set<string>)
    ensures MarkerSound(needs, texts) <==> !needs || "" !in texts
  {
    if !needs || "" !in texts {
      forall es, i | CanRun(Init(needs), es) && Speaks(es, texts) && i in Exec(Init(needs), es).writers
        ensures i < |Exec(Init(needs), es).workers| && Settled(Exec(Init(needs), es), i)
      {
        LoudWriters(needs, es, texts, i);
      }
    } else {
      var es := MuteRun();
      assert Speaks(es, texts);
      assert 0 in Exec(Init(needs), es).writers && !Settled(Exec(Init(needs), es), 0);
    }
  }

  /** A reattached handle skips the tail only of a run that some other tail has recorded, and then rightly so as long
      as finalize failures speak. No other tail is ever skipped. */
  lemma SkipsOnlyRecorded(needs: bool, es: seq<Event>, texts: set<string>, i: nat)
    requires CanRun(Init(needs), es) && Speaks(es, texts)
    requires i < |Exec(Init(needs), es).workers| && Exec(Init(needs), es).workers[i].skipped
    ensures var s := Exec(Init(needs), es);
            && s.workers[i].attached && s.Recorded()
            && ("" !in texts ==> exists j :: 0 <= j < |s.workers| && j in s.writers && Settled(s, j))
  {
    RunsKeep(needs, es);
    var s := Exec(Init(needs), es);
    var j :| j in s.writers;
    if "" !in texts {
      LoudWriters(needs, es, texts, j);
    }
  }

  /** Once recorded, a run stays recorded. */
  lemma {:induction false} RecordIsFinal(s: State, es: seq<Event>)
    requires CanRun(s, es)
    ensures s.writers <= Exec(s, es).writers
  {
    if es != [] {
      RecordIsFinal(s, es[..|es| - 1]);
    }
  }

  // ---------------------------------------------------------------- the loops of a tail

  /** How many of these invokes are made: up to the first that succeeds, or all of them. */
  function TriesOf(outcomes: seq<Option<Error>>): (n: nat)
    requires outcomes != []
    ensures 1 <= n <= |outcomes| && (forall k :: 0 <= k < n - 1 ==> outcomes[k].Some?)
    ensures outcomes[n - 1].Some? ==> n == |outcomes|
  {
    if |outcomes| == 1 || outcomes[0].None? then 1 else 1 + TriesOf(outcomes[1..])
  }

  lemma {:induction false} TriesUnique(outcomes: seq<Option<Error>>, n: nat)
    requires 1 <= n <= |outcomes| && (forall k :: 0 <= k < n - 1 ==> outcomes[k].Some?)
    requires outcomes[n - 1].Some? ==> n == |outcomes|
    ensures n == TriesOf(outcomes)
  {
    if n > 1 {
      TriesUnique(outcomes[1..], n - 1);
    }
  }

  /** `_finalize_with_retry`, `outcomes` being what each invoke would come to: a first attempt and `retries` more while
      it keeps failing, and the last error, if all did. */
  method FinalizeWithRetry(retries: nat, outcomes: seq<Option<Error>>) returns (error: Option<Error>, tries: nat)
    requires |outcomes| == retries + 1
    ensures tries == TriesOf(outcomes) && error == outcomes[tries - 1]
    ensures error.None? <==> None in outcomes
  {
    tries, error := 0, None;
    for attempt := 0 to retries + 1
      invariant tries == attempt && forall k :: 0 <= k < attempt ==> outcomes[k].Some?
      invariant attempt > 0 ==> error == outcomes[attempt - 1]
    {
      error := outcomes[attempt];
      tries := tries + 1;
      if error.None? {
        TriesUnique(outcomes, tries);
        return;
      }
    }
    TriesUnique(outcomes, tries);
  }

  function AfterAttempts(w: Worker, tries: seq<Option<Error>>): Worker
    requires w.phase.Finalizing? && tries != []
    requires forall k :: 0 <= k < |tries| - 1 ==> tries[k].Some?
    requires w.phase.failures + |tries| <= FINALIZE_RETRIES + 1
    decreases |tries|
  {
    if |tries| == 1 then AfterAttempt(w, tries[0]) else AfterAttempts(AfterAttempt(w, tries[0]), tries[1..])
  }

  /** What a shard's future holds. */
  datatype Future<T> = Returned(result: T) | ShardFailed(payload: T) | Broken(error: Error)

  datatype Row<T> = FromWorker(payload: T) | Synthesized(shard: int, text: string)

  function RowOf<T>(shard: int, future: Future<T>): Row<T> {
    match future
    case Returned(r) => FromWorker(r)
    case ShardFailed(p) => FromWorker(p)
    case Broken(e) => Synthesized(shard, e.name + ": " + e.message)
  }

  /** The tail of one handle, on the worker it is in the machine: the rows of all shards, then the finalize, then what
      the stats event says. */
  method RunTail<T>(w: Worker, needs: bool, futures: seq<(int, Future<T>)>, outcomes: seq<Option<Error>>)
    returns (rows: seq<Row<T>>, w': Worker, handleError: Option<Error>)
    requires w.phase == if needs then Finalizing(0) else Reporting(None)
    requires |outcomes| == FINALIZE_RETRIES + 1
    ensures |rows| == |futures| && forall k :: 0 <= k < |futures| ==> rows[k] == RowOf(futures[k].0, futures[k].1)
    ensures w'.phase.Reporting?
    ensures if needs then
              && w' == AfterAttempts(w, outcomes[..TriesOf(outcomes)])
              && handleError == outcomes[TriesOf(outcomes) - 1] && w'.finalized == (w.finalized || None in outcomes)
            else w' == w && handleError.None?
    ensures w'.phase.error == if handleError.None? then None else Some(Described(w.kind, handleError.value))
  {
    rows := [];
    for n := 0 to |futures|
      invariant |rows| == n && forall k :: 0 <= k < n ==> rows[k] == RowOf(futures[k].0, futures[k].1)
    {
      rows := rows + [RowOf(futures[n].0, futures[n].1)];
    }
    w', handleError := w, None;
    if needs {
      var tries;
      handleError, tries := FinalizeWithRetry(FINALIZE_RETRIES, outcomes);
      if tries == 2 {
        assert outcomes[..2][1..] == [outcomes[1]];
      }
      assert AfterAttempts(w, outcomes[..tries]).phase.Reporting?;
      if handleError.None? {
        w' := w.(phase := Reporting(None), finalized := true);
      } else {
        w' := w.(phase := Reporting(Some(Described(w.kind, handleError.value))));
      }
    }
  }

  // ---------------------------------------------------------------- reading the handle

  predicate Failed<T>(f: Future<T>) {
    !f.Returned?
  }

  function CountFailed<T>(futures: seq<Option<Future<T>>>): nat {
    if futures == [] then 0
    else
      var last := futures[|futures| - 1];
      CountFailed(futures[..|futures| - 1]) + if last.Some? && Failed(last.value) then 1 else 0
  }

  function CountPending<T>(futures: seq<Option<Future<T>>>): nat {
    if futures == [] then 0
    else CountPending(futures[..|futures| - 1]) + if futures[|futures| - 1].None? then 1 else 0
  }

  /** `RunHandle.status`: every future is counted once; `None` is one that is not done. */
  method Status<T>(futures: seq<Option<Future<T>>>) returns (pending: nat, ok: nat, failed: nat)
    ensures pending == CountPending(futures) && failed == CountFailed(futures) && pending + ok + failed == |futures|
  {
    pending, ok, failed := 0, 0, 0;
    for n := 0 to |futures|
      invariant pending == CountPending(futures[..n]) && failed == CountFailed(futures[..n])
                && pending + ok + failed == n
    {
      assert futures[..n + 1][..n] == futures[..n];
      if futures[n].None? {
        pending := pending + 1;
      } else if Failed(futures[n].value) {
        failed := failed + 1;
      } else {
        ok := ok + 1;
      }
    }
    assert futures[..|futures|] == futures;
  }

  /** What `RunHandle.results` does in the end: raise what the tail recorded, raise the failure of one shard, or
      return the mapping. */
  datatype Collected = TailRaised(error: Error) | ShardRaised(k: nat) | Mapped

  /**
   `RunHandle.results`. The failure of the first failed shard in key order is what propagates exactly when some shard
   failed, exceptions are not to be returned, and the tail recorded no error: the tail is joined first, and what it
   recorded, the finalize error before any other, hides the shards'.
   */
  method Results<T>(futures: seq<(int, Future<T>)>, finalizeError: Option<Error>, tailError: Option<Error>,
                    returnExceptions: bool) returns (r: Collected)
    ensures r.ShardRaised? <==>
              && (exists k :: 0 <= k < |futures| && Failed(futures[k].1))
              && !returnExceptions && finalizeError.None? && tailError.None?
    ensures r.ShardRaised? ==>
              r.k < |futures| && Failed(futures[r.k].1) && forall j :: 0 <= j < r.k ==> !Failed(futures[j].1)
    ensures r.TailRaised? <==> finalizeError.Some? || tailError.Some?
    ensures r.TailRaised? ==> Some(r.error) == if finalizeError.Some? then finalizeError else tailError
  {
    var first: Option<nat> := None;
    for n := 0 to |futures|
      invariant first.None? ==> forall j :: 0 <= j < n ==> !Failed(futures[j].1)
      invariant first.Some? ==>
                  && first.value < n && Failed(futures[first.value].1)
                  && forall j :: 0 <= j < first.value ==> !Failed(futures[j].1)
    {
      if Failed(futures[n].1) && first.None? {
        first := Some(n);
      }
    }
    if finalizeError.Some? {
      return TailRaised(finalizeError.value);
    }
    if tailError.Some? {
      return TailRaised(tailError.value);
    }
    return if first.Some? && !returnExceptions then ShardRaised(first.value) else Mapped;
  }

  /** The run's status prefix as far as the marker goes. `trace` is everything that has happened to the run, and the
      marker stands where the machine above says so. */
  class StatusPrefix {
    var recorded: bool
    ghost const needs: bool
    ghost var trace: seq<Event>

    ghost function State(): State
      requires CanRun(Init(needs), trace)
      reads this
    {
      Exec(Init(needs), trace)
    }

    ghost predicate Valid()
      reads this
    {
      CanRun(Init(needs), trace) && recorded == State().Recorded()
    }

    constructor (ghost needs: bool)
      ensures Valid() && this.needs == needs && trace == [] && !recorded
    {
      recorded, this.needs, trace := false, needs, [];
    }

    /** What happens elsewhere: tails begin, finalize, report and die. */
    ghost method Elsewhere(ev: Event)
      requires Valid() && Enabled(State(), ev) && !ev.Deliver? && !ev.Look?
      modifies this`trace
      ensures Valid() && trace == old(trace) + [ev] && State() == Step(old(State()), ev)
    {
      trace := Extend(Init(needs), trace, ev);
    }

    /** `write_tail_status` of the stats event `k`, fail-open. */
    method WriteTailStatus(ghost k: nat, named: bool, finalizeError: Option<string>, putFails: bool)
      requires Valid() && k < |State().sent| && finalizeError == State().sent[k].finalizeError
      modifies this
      ensures Valid() && trace == old(trace) + if named then [Deliver(k, false, putFails)] else []
      ensures recorded == (old(recorded) || (named && !Withheld(finalizeError) && !putFails))
    {
      hide Exec, CanRun;
      if !named {
        return;
      }
      trace := Extend(Init(needs), trace, Deliver(k, false, putFails));
      if finalizeError.Some? && finalizeError.value != "" {
        return;
      }
      if !putFails {
        recorded := true;
      }
    }

    /** The stats handler on the event `k`: the run record first, and the marker only if that landed or there was none
        to write. */
    method HandleStats(ghost k: nat, rows: nat, readFails: bool, writeFails: bool, finalizeError: Option<string>,
                       putFails: bool)
      returns (ok: bool)
      requires Valid() && k < |State().sent| && finalizeError == State().sent[k].finalizeError
      modifies this
      ensures ok <==> !readFails && (rows == 0 || !writeFails)
      ensures Valid() && trace == old(trace) + [Deliver(k, !ok, putFails)]
      ensures recorded == (old(recorded) || (ok && !Withheld(finalizeError) && !putFails))
    {
      hide Exec, CanRun;
      if readFails || (rows != 0 && writeFails) {
        trace := Extend(Init(needs), trace, Deliver(k, true, putFails));
        return false;
      }
      WriteTailStatus(k, true, finalizeError, putFails);
      return true;
    }

    /** `tail_recorded`: a read that faults says no. */
    method TailRecorded(readFaults: bool) returns (r: bool)
      requires Valid()
      ensures r <==> !readFaults && exists i :: i in State().writers
    {
      r := recorded && !readFaults;
    }

    /** The tail `i` has seen every shard settle. It is skipped, for good, exactly when it belongs to a reattached
        handle that finds the marker. */
    method ShardsSettled(ghost i: nat, attached: bool, readFaults: bool) returns (skips: bool)
      requires Valid() && Enabled(State(), Look(i, readFaults)) && attached == State().workers[i].attached
      modifies this`trace
      ensures Valid() && trace == old(trace) + [Look(i, readFaults)]
      ensures i < |State().workers| && (skips <==> State().workers[i].skipped)
      ensures skips ==> State().workers[i].phase.Over?
      ensures !skips ==> State().workers[i].phase == if needs then Finalizing(0) else Reporting(None)
    {
      hide Exec, CanRun;
      Sound();
      skips := false;
      if attached {
        skips := TailRecorded(readFaults);
      }
      trace := Extend(Init(needs), trace, Look(i, readFaults));
    }

    /** The machine's invariant, at any moment of the run. */
    lemma Sound()
      requires Valid()
      ensures Inv(State()) && State().needs == needs
    {
      RunsKeep(needs, trace);
    }

    /** Whoever finds the marker can rely on a tail that finalized, or had no need to, unless a finalize failed without
        a word. */
    lemma MarkerJustified(texts: set<string>)
      requires Valid() && recorded && Speaks(trace, texts) && (needs ==> "" !in texts)
      ensures exists j :: 0 <= j < |State().workers| && j in State().writers && Settled(State(), j)
    {
      var j :| j in State().writers;
      LoudWriters(needs, trace, texts, j);
    }
  }
}
