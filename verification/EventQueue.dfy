/** The event-log queue of EventLoggingBase.cpp as a transition system.

    Producers append under the critical section and signal an auto-reset event; shutdown
    sets a flag and signals; one consumer thread waits, swaps the whole queue out, reports
    the items and stops after a swap that saw the flag.  Each critical section is one step.
    SetEvent, the wait and CoInitialize may fail. */
module EventQueue {

  /** wEventType and tsEventLog of an EventLogItem. */
  datatype Item = Item(kind: nat, text: string)

  const MAX_LENGTH: nat := 65536

  datatype Consumer =
    | Starting
    | Waiting
    | Woken            // past the wait, before the swap
    | Reporting        // past the swap
    | Exited(drained: bool)

  /** `accepted` and `reported` are the history of pushes and of LogEvent calls. */
  datatype State = State(
    queue: seq<Item>, length: nat, signaled: bool, shutdown: bool,
    consumer: Consumer, local: seq<Item>, sawShutdown: bool,
    accepted: seq<Item>, reported: seq<Item>)

  const INITIAL: State := State([], 0, false, false, Starting, [], false, [], [])

  datatype Event =
    | Append(item: Item, setEvent: bool)   // setEvent: whether SetEvent succeeds
    | Shutdown(setEvent: bool)
    | Start(coInitialize: bool)
    | Wait(ok: bool)                       // ok: WaitForSingleObject returns WAIT_OBJECT_0
    | Swap
    | Report

  datatype Status = S_OK | E_SETEVENT | E_NOT_SUFFICIENT_BUFFER

  predicate Admits(s: State, item: Item) {
    !s.shutdown && s.length < MAX_LENGTH && item.text != ""
  }

  function Appended(s: State, item: Item, setEvent: bool): State {
    if !Admits(s, item) then s
    else s.(queue := s.queue + [item], length := s.length + |item.text|,
            signaled := s.signaled || setEvent, accepted := s.accepted + [item])
  }

  /** One step of the consumer thread; a step that is not enabled changes nothing. */
  function Step(s: State, e: Event): State {
    match e
    case Append(item, setEvent) => Appended(s, item, setEvent)
    case Shutdown(setEvent) => s.(shutdown := true, signaled := s.signaled || setEvent)
    case Start(ok) =>
      if s.consumer != Starting then s
      else s.(consumer := if ok then Waiting else Exited(false))
    case Wait(ok) =>
      if s.consumer != Waiting then s
      else if !ok then s.(consumer := Exited(false))
      else if s.signaled then s.(consumer := Woken, signaled := false)
      else s
    case Swap =>
      if s.consumer != Woken then s
      else s.(consumer := Reporting, local := s.queue, queue := [], length := 0, sawShutdown := s.shutdown)
    case Report =>
      if s.consumer != Reporting then s
      else if s.local == [] then s.(consumer := if s.sawShutdown then Exited(true) else Waiting)
      else if s.local[0].text != "" then s.(local := s.local[1..], reported := s.reported + [s.local[0]])
      else s.(local := s.local[1..])
  }

  function Run(s: State, events: seq<Event>): State {
    if events == [] then s
    else Step(Run(s, events[..|events| - 1]), events[|events| - 1])
  }

  // ---------- accounting ----------

  function TotalLength(items: seq<Item>): nat {
    if items == [] then 0 else TotalLength(items[..|items| - 1]) + |items[|items| - 1].text|
  }

  ghost predicate NoneEmpty(items: seq<Item>) {
    forall k :: 0 <= k < |items| ==> items[k].text != ""
  }

  /** The counter is the sum of the queued lengths, nothing empty is queued, and what was
      queued before the last item stayed under the limit. */
  ghost predicate Accounted(s: State) {
    && s.length == TotalLength(s.queue)
    && NoneEmpty(s.queue) && NoneEmpty(s.local)
    && (s.queue != [] ==> TotalLength(s.queue[..|s.queue| - 1]) < MAX_LENGTH)
  }

  /** Accepted items are reported, in the consumer's batch, or queued: each once, in order. */
  ghost predicate Conserved(s: State) {
    && s.accepted == s.reported + s.local + s.queue
    && (s.consumer == Starting || s.consumer == Waiting || s.consumer == Woken || s.consumer.Exited? ==> s.local == [])
  }

  ghost predicate ShutdownOk(s: State) {
    && (s.sawShutdown ==> s.shutdown && s.queue == [] && (s.consumer == Reporting || s.consumer.Exited?))
    && (s.consumer == Exited(true) ==> s.sawShutdown)
  }

  ghost predicate Inv(s: State) {
    Accounted(s) && Conserved(s) && ShutdownOk(s)
  }

  lemma {:induction false} StepAccounted(s: State, e: Event)
    requires Accounted(s)
    ensures Accounted(Step(s, e))
  {
    if e.Append? && Admits(s, e.item) {
      assert (s.queue + [e.item])[..|s.queue|] == s.queue;
    }
  }

  lemma {:induction false} StepConserves(s: State, e: Event)
    requires Conserved(s) && NoneEmpty(s.local)
    ensures Conserved(Step(s, e))
  {
    if e.Append? && Admits(s, e.item) {
      assert s.reported + s.local + (s.queue + [e.item]) == (s.reported + s.local + s.queue) + [e.item];
    } else if e.Report? && s.consumer == Reporting && s.local != [] {
      assert s.local == [s.local[0]] + s.local[1..];
      assert (s.reported + [s.local[0]]) + s.local[1..] == s.reported + s.local;
    }
  }

  lemma {:induction false} StepPreservesInv(s: State, e: Event)
    requires Inv(s)
    ensures Inv(Step(s, e))
  {
    StepAccounted(s, e);
    StepConserves(s, e);
  }

  lemma {:induction false} RunPreservesInv(s: State, events: seq<Event>)
    requires Inv(s)
    ensures Inv(Run(s, events))
  {
    if events != [] {
      RunPreservesInv(s, events[..|events| - 1]);
      StepPreservesInv(Run(s, events[..|events| - 1]), events[|events| - 1]);
    }
  }

  /** In every run, whatever fails: each accepted item is reported, in the consumer's batch
      or queued, exactly once and in order; and the length counter is exact. */
  lemma {:induction false} ExactlyOnceInOrder(events: seq<Event>)
    ensures var s := Run(INITIAL, events);
      && s.accepted == s.reported + s.local + s.queue
      && s.length == TotalLength(s.queue)
      && NoneEmpty(s.queue)
      && (s.queue != [] ==> TotalLength(s.queue[..|s.queue| - 1]) < 65536)
  {
    RunPreservesInv(INITIAL, events);
  }

  lemma {:induction false} AfterShutdown(s: State, events: seq<Event>)
    requires s.shutdown
    ensures Run(s, events).shutdown && Run(s, events).accepted == s.accepted
  {
    if events != [] {
      AfterShutdown(s, events[..|events| - 1]);
    }
  }

  lemma {:induction false} StaysExited(s: State, events: seq<Event>)
    requires Inv(s) && s.consumer == Exited(true)
    ensures var r := Run(s, events);
      r.consumer == Exited(true) && r.reported == s.reported
  {
    if events != [] {
      StaysExited(s, events[..|events| - 1]);
    }
  }

  /** Once the consumer has exited normally everything ever accepted has been reported, and
      no continuation of the run accepts or reports anything more. */
  lemma {:induction false} DrainedOnExit(events: seq<Event>, later: seq<Event>)
    requires Run(INITIAL, events).consumer == Exited(true)
    ensures var s := Run(INITIAL, events);
      && s.reported == s.accepted
      && Run(s, later).accepted == s.accepted
      && Run(s, later).reported == s.accepted
  {
    RunPreservesInv(INITIAL, events);
    AfterShutdown(Run(INITIAL, events), later);
    StaysExited(Run(INITIAL, events), later);
  }

  lemma {:induction false} StaysFailed(s: State, events: seq<Event>)
    requires s.consumer == Exited(false)
    ensures var r := Run(s, events);
      r.consumer == Exited(false) && r.reported == s.reported && s.queue <= r.queue
  {
    if events != [] {
      StaysFailed(s, events[..|events| - 1]);
    }
  }

  lemma {:induction false} FailsIff(s: State, e: Event)
    requires s.consumer != Exited(false)
    ensures Step(s, e).consumer == Exited(false) <==>
      (s.consumer == Starting && e == Start(false)) || (s.consumer == Waiting && e == Wait(false))
    ensures Step(s, e).consumer == Exited(false) ==>
      Step(s, e).reported == s.reported && Step(s, e).queue == s.queue
  {
  }

  /** A failed CoInitialize or wait ends the consumer for good: what is queued then, and all
      that is accepted later, is never reported, and nothing else makes the thread fail. */
  lemma {:induction false} FailedConsumerReportsNothing(events: seq<Event>, e: Event, later: seq<Event>)
    requires Run(INITIAL, events).consumer != Exited(false)
    ensures
      var s := Run(INITIAL, events);
      var failed, end := Step(s, e), Run(Step(s, e), later);
      && (failed.consumer == Exited(false)
          <==> (s.consumer == Starting && e == Start(false)) || (s.consumer == Waiting && e == Wait(false)))
      && (failed.consumer == Exited(false) ==>
            && end.consumer == Exited(false) && end.reported == s.reported
            && s.queue <= end.queue && end.accepted == s.reported + end.queue)
  {
    FailsIff(Run(INITIAL, events), e);
    ReachedByOneMore(events, e);
    var failed := Step(Run(INITIAL, events), e);
    if failed.consumer == Exited(false) {
      StaysFailed(failed, later);
      RunPreservesInv(failed, later);
      NothingInTheBatch(Run(failed, later));
    }
  }

  lemma {:induction false} ReachedByOneMore(events: seq<Event>, e: Event)
    ensures Inv(Step(Run(INITIAL, events), e))
  {
    RunPreservesInv(INITIAL, events);
    StepPreservesInv(Run(INITIAL, events), e);
  }

  lemma {:induction false} NothingInTheBatch(s: State)
    requires Inv(s) && s.consumer.Exited?
    ensures s.accepted == s.reported + s.queue
  {
    assert s.reported + [] == s.reported;
  }

  // ---------- wake-ups ----------

  /** There is something the consumer has to do and has not yet noticed. */
  predicate WorkPending(s: State) {
    s.queue != [] || (s.shutdown && !s.sawShutdown)
  }

  /** The event is signalled, or the consumer has taken the signal and not yet swapped. */
  predicate WillNotice(s: State) {
    s.signaled || s.consumer == Woken
  }

  predicate Lost(s: State) {
    WorkPending(s) && !WillNotice(s)
  }

  predicate SetEventFails(e: Event) {
    (e.Append? || e.Shutdown?) && !e.setEvent
  }

  /** One step loses a wake-up exactly when it creates work, its SetEvent fails, and the
      consumer was not going to look anyway. */
  lemma {:induction false} WakeupLostIff(s: State, e: Event)
    requires Inv(s) && !Lost(s)
    ensures Lost(Step(s, e)) <==>
      && SetEventFails(e) && !WillNotice(s)
      && (if e.Append? then Admits(s, e.item) else !s.sawShutdown)
  {
  }

  /** What gets a lost wake-up back: a later call whose own SetEvent succeeds. */
  predicate Rewakes(s: State, e: Event) {
    (e.Append? && e.setEvent && Admits(s, e.item)) || (e.Shutdown? && e.setEvent)
  }

  lemma {:induction false} StaysLostIff(s: State, e: Event)
    requires Inv(s) && Lost(s)
    ensures Lost(Step(s, e)) <==> !Rewakes(s, e)
  {
  }

  lemma {:induction false} RunNext(s: State, events: seq<Event>, k: nat)
    requires k < |events|
    ensures Run(s, events[..k + 1]) == Step(Run(s, events[..k]), events[k])
  {
    assert events[..k + 1][..k] == events[..k];
  }

  lemma {:induction false} LostUntilRewoken(s: State, events: seq<Event>, k: nat)
    requires Inv(s) && Lost(s) && k <= |events|
    requires forall j :: 0 <= j < k ==> !Rewakes(Run(s, events[..j]), events[j])
    ensures Inv(Run(s, events[..k])) && Lost(Run(s, events[..k]))
  {
    if k > 0 {
      LostUntilRewoken(s, events, k - 1);
      RunNext(s, events, k - 1);
      StepPreservesInv(Run(s, events[..k - 1]), events[k - 1]);
      StaysLostIff(Run(s, events[..k - 1]), events[k - 1]);
    }
  }

  /** Through a whole run a lost wake-up stays lost exactly as long as no call rewakes. */
  lemma {:induction false} LostThroughoutIff(s: State, events: seq<Event>)
    requires Inv(s) && Lost(s)
    ensures (forall k :: 0 <= k <= |events| ==> Lost(Run(s, events[..k])))
      <==> forall k :: 0 <= k < |events| ==> !Rewakes(Run(s, events[..k]), events[k])
  {
    if forall k :: 0 <= k <= |events| ==> Lost(Run(s, events[..k])) {
      forall k | 0 <= k < |events| ensures !Rewakes(Run(s, events[..k]), events[k]) {
        assert Lost(Run(s, events[..k + 1]));
        RunNext(s, events, k);
        RunPreservesInv(s, events[..k]);
        StaysLostIff(Run(s, events[..k]), events[k]);
      }
    } else if forall k :: 0 <= k < |events| ==> !Rewakes(Run(s, events[..k]), events[k]) {
      forall k | 0 <= k <= |events| ensures Lost(Run(s, events[..k])) {
        LostUntilRewoken(s, events, k);
      }
    }
  }

  predicate ShutdownWakes(e: Event) {
    e.Shutdown? && e.setEvent
  }

  lemma {:induction false} FullQueueStays(s: State, events: seq<Event>)
    requires Inv(s) && Lost(s) && s.length >= MAX_LENGTH
    requires forall k :: 0 <= k < |events| ==> !ShutdownWakes(events[k])
    ensures
      var r := Run(s, events);
      Inv(r) && Lost(r) && r.queue == s.queue && r.accepted == s.accepted && r.length == s.length
  {
    if events != [] {
      FullQueueStays(s, events[..|events| - 1]);
      OneMoreStays(Run(s, events[..|events| - 1]), events[|events| - 1]);
    }
  }

  lemma {:induction false} OneMoreStays(s: State, e: Event)
    requires Inv(s) && Lost(s) && s.length >= MAX_LENGTH && !ShutdownWakes(e)
    ensures
      var r := Step(s, e);
      Inv(r) && Lost(r) && r.queue == s.queue && r.accepted == s.accepted && r.length == s.length
  {
    StepPreservesInv(s, e);
    StaysLostIff(s, e);
  }

  /** Once 64K are stranded no append is accepted any more, so the wake-up stays lost exactly
      until a Shutdown whose SetEvent succeeds. */
  lemma {:induction false} FullQueueNeedsShutdown(s: State, events: seq<Event>)
    requires Inv(s) && Lost(s) && s.length >= MAX_LENGTH
    ensures (forall k :: 0 <= k <= |events| ==> Lost(Run(s, events[..k])))
      <==> forall k :: 0 <= k < |events| ==> !ShutdownWakes(events[k])
  {
    if forall k :: 0 <= k < |events| ==> !ShutdownWakes(events[k]) {
      forall k | 0 <= k <= |events| ensures Lost(Run(s, events[..k])) {
        FullQueueStays(s, events[..k]);
      }
    } else {
      LostThroughoutIff(s, events);
      var k :| 0 <= k < |events| && ShutdownWakes(events[k]);
      assert Rewakes(Run(s, events[..k]), events[k]);
    }
  }

  lemma {:induction false} NoLostWakeupFrom(s: State, events: seq<Event>)
    requires Inv(s) && !Lost(s)
    requires forall k :: 0 <= k < |events| ==> !SetEventFails(events[k])
    ensures Inv(Run(s, events)) && !Lost(Run(s, events))
  {
    if events != [] {
      NoLostWakeupFrom(s, events[..|events| - 1]);
      StepPreservesInv(Run(s, events[..|events| - 1]), events[|events| - 1]);
      WakeupLostIff(Run(s, events[..|events| - 1]), events[|events| - 1]);
    }
  }

  /** If every SetEvent succeeds, pending work always finds the event signalled or the
      consumer already on its way to the swap. */
  lemma {:induction false} NoLostWakeup(events: seq<Event>)
    requires forall k :: 0 <= k < |events| ==> !SetEventFails(events[k])
    ensures var s := Run(INITIAL, events);
      WorkPending(s) ==> WillNotice(s)
  {
    NoLostWakeupFrom(INITIAL, events);
  }

  /** A failed SetEvent does lose one: the item sits in the queue of a sleeping consumer. */
  lemma {:induction false} FailedSetEventStrandsItem(item: Item)
    requires item.text != ""
    ensures var s := Run(INITIAL, [Start(true), Append(item, false)]);
      s.consumer == Waiting && !s.signaled && s.queue == [item]
  {
    var one := [Start(true)];
    var two := [Start(true), Append(item, false)];
    assert two[..1] == one && one[..0] == [];
    assert Run(INITIAL, one) == Step(INITIAL, Start(true));
  }

  // ---------- the consumer on its own ----------

  /** The consumer's next successful step. */
  function ConsumerEvent(s: State): Event {
    match s.consumer
    case Starting => Start(true)
    case Waiting => Wait(true)
    case Woken => Swap
    case Reporting => Report
    case Exited(_) => Report
  }

  function RunConsumer(s: State, n: nat): State
    decreases n
  {
    if n == 0 then s else RunConsumer(Step(s, ConsumerEvent(s)), n - 1)
  }

  /** Nothing left to do: stopped for good, or asleep with an empty queue and no signal. */
  predicate Quiescent(s: State) {
    s.consumer == Exited(true) || (s.consumer == Waiting && !s.signaled)
  }

  function StepsToQuiescence(s: State): nat {
    match s.consumer
    case Starting => 1 + (if s.signaled then 3 + |s.queue| else 0)
    case Waiting => if s.signaled then 3 + |s.queue| else 0
    case Woken => 2 + |s.queue| + (if s.signaled && !s.shutdown then 3 else 0)
    case Reporting => 1 + |s.local| + (if s.signaled && !s.sawShutdown then 3 + |s.queue| else 0)
    case Exited(_) => 0
  }

  lemma {:induction false} DrainsFrom(s: State)
    requires Inv(s) && !Lost(s) && s.consumer != Exited(false)
    ensures var r := RunConsumer(s, StepsToQuiescence(s));
      Quiescent(r) && r.reported == s.accepted && (s.shutdown ==> r.consumer == Exited(true))
    decreases StepsToQuiescence(s)
  {
    if StepsToQuiescence(s) != 0 {
      var s' := Step(s, ConsumerEvent(s));
      StepPreservesInv(s, ConsumerEvent(s));
      WakeupLostIff(s, ConsumerEvent(s));
      assert StepsToQuiescence(s') == StepsToQuiescence(s) - 1;
      DrainsFrom(s');
    }
  }

  /** Drain: after any run whose SetEvents succeed and whose consumer has not failed, letting
      the consumer run on its own reports everything accepted; then it sleeps, or, after a
      shutdown, it has exited. */
  lemma {:induction false} ConsumerDrains(events: seq<Event>)
    requires forall k :: 0 <= k < |events| ==> !SetEventFails(events[k])
    requires Run(INITIAL, events).consumer != Exited(false)
    ensures var s := Run(INITIAL, events);
      var r := RunConsumer(s, StepsToQuiescence(s));
      && r.reported == s.accepted
      && Quiescent(r)
      && (s.shutdown <==> r.consumer == Exited(true))
  {
    NoLostWakeupFrom(INITIAL, events);
    RunPreservesInv(INITIAL, events);
    DrainsFrom(Run(INITIAL, events));
    ConsumerKeepsFlag(Run(INITIAL, events), StepsToQuiescence(Run(INITIAL, events)));
  }

  lemma {:induction false} ConsumerKeepsFlag(s: State, n: nat)
    requires Inv(s)
    ensures Inv(RunConsumer(s, n)) && RunConsumer(s, n).shutdown == s.shutdown
    decreases n
  {
    if n != 0 {
      StepPreservesInv(s, ConsumerEvent(s));
      ConsumerKeepsFlag(Step(s, ConsumerEvent(s)), n - 1);
    }
  }
}
