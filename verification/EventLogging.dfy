/** AppendToQueue, TerminateEventSource and LogEventThreadProc in the form of
    EventLoggingBase.cpp: methods over the fields the critical section guards, proved to
    walk the transition system of EventQueue. */
module EventLogging {
  import opened EventQueue

  predicate FromProducer(e: Event) {
    e.Append? || e.Shutdown?
  }

  ghost predicate AllFromProducers(calls: seq<Event>) {
    forall k :: 0 <= k < |calls| ==> FromProducer(calls[k])
  }

  class EventLoggingBase {
    // guarded by m_cs
    var eventQueue: seq<Item>
    var eventQueueLength: nat
    var isShutdown: bool
    // the auto-reset event
    var processEvent: bool
    // the consumer thread: where it stands and its two locals
    var consumer: Consumer
    var batch: seq<Item>
    var sawShutdown: bool
    // what LogEvent has been called with
    var reported: seq<Item>
    ghost var accepted: seq<Item>
    ghost var history: seq<Event>

    ghost function Now(): State
      reads this
    {
      State(eventQueue, eventQueueLength, processEvent, isShutdown, consumer, batch, sawShutdown, accepted, reported)
    }

    ghost predicate Valid()
      reads this
    {
      Now() == Run(INITIAL, history)
    }

    constructor ()
      ensures Valid() && history == [] && Now() == INITIAL
    {
      eventQueue, eventQueueLength, isShutdown, processEvent := [], 0, false, false;
      consumer, batch, sawShutdown, reported := Starting, [], false, [];
      accepted, history := [], [];
    }

    method AppendToQueue(kind: nat, text: string, setEvent: bool) returns (hr: Status)
      requires Valid()
      modifies this
      ensures Valid() && history == old(history) + [Append(Item(kind, text), setEvent)]
      ensures
        if old(isShutdown) || old(eventQueueLength) >= 65536 || text == "" then
          && eventQueue == old(eventQueue) && eventQueueLength == old(eventQueueLength)
          && processEvent == old(processEvent) && accepted == old(accepted)
        else
          && eventQueue == old(eventQueue) + [Item(kind, text)]
          && eventQueueLength == old(eventQueueLength) + |text|
          && processEvent == (old(processEvent) || setEvent)
          && accepted == old(accepted) + [Item(kind, text)]
      ensures hr ==
        if old(isShutdown) then S_OK
        else if old(eventQueueLength) >= 65536 || text == "" then E_NOT_SUFFICIENT_BUFFER
        else if setEvent then S_OK else E_SETEVENT
      ensures isShutdown == old(isShutdown) && reported == old(reported)
      ensures consumer == old(consumer) && batch == old(batch) && sawShutdown == old(sawShutdown)
    {
      RunSnoc(INITIAL, history, Append(Item(kind, text), setEvent));
      history := history + [Append(Item(kind, text), setEvent)];
      hr := Admit(kind, text, setEvent);
    }

    method Admit(kind: nat, text: string, setEvent: bool) returns (hr: Status)
      modifies this`eventQueue, this`eventQueueLength, this`processEvent, this`accepted
      ensures Now() == Appended(old(Now()), Item(kind, text), setEvent)
      ensures
        if old(isShutdown) || old(eventQueueLength) >= 65536 || text == "" then
          && eventQueue == old(eventQueue) && eventQueueLength == old(eventQueueLength)
          && processEvent == old(processEvent) && accepted == old(accepted)
        else
          && eventQueue == old(eventQueue) + [Item(kind, text)]
          && eventQueueLength == old(eventQueueLength) + |text|
          && processEvent == (old(processEvent) || setEvent)
          && accepted == old(accepted) + [Item(kind, text)]
      ensures hr ==
        if old(isShutdown) then S_OK
        else if old(eventQueueLength) >= 65536 || text == "" then E_NOT_SUFFICIENT_BUFFER
        else if setEvent then S_OK else E_SETEVENT
    {
      if !isShutdown {
        if eventQueueLength < 64 * 1024 && text != "" {
          var logItem := Item(kind, text);
          eventQueue := eventQueue + [logItem];
          accepted := accepted + [logItem];
          eventQueueLength := eventQueueLength + |text|;
          if !setEvent {
            return E_SETEVENT;
          }
          processEvent := true;
        } else {
          return E_NOT_SUFFICIENT_BUFFER;
        }
      }
      return S_OK;
    }

    /** The first critical section of TerminateEventSource. */
    method SignalShutdown(setEvent: bool) returns (hr: Status)
      requires Valid()
      modifies this
      ensures Valid() && history == old(history) + [Shutdown(setEvent)]
      ensures isShutdown && processEvent == (old(processEvent) || setEvent) && (hr == S_OK <==> setEvent)
      ensures consumer == old(consumer) && batch == old(batch) && sawShutdown == old(sawShutdown)
      ensures accepted == old(accepted) && eventQueue == old(eventQueue) && reported == old(reported)
    {
      RunSnoc(INITIAL, history, Shutdown(setEvent));
      history := history + [Shutdown(setEvent)];
      isShutdown := true;
      if !setEvent {
        return E_SETEVENT;
      }
      processEvent := true;
      return S_OK;
    }

    /** Another thread makes a call. */
    method Produce(call: Event)
      requires Valid() && FromProducer(call)
      modifies this
      ensures Valid() && history == old(history) + [call]
      ensures consumer == old(consumer) && batch == old(batch) && sawShutdown == old(sawShutdown)
      ensures (old(processEvent) ==> processEvent) && (old(isShutdown) ==> isShutdown)
      ensures reported == old(reported) && old(accepted) <= accepted
    {
      var hr: Status;
      match call {
        case Append(item, ok) => hr := AppendToQueue(item.kind, item.text, ok);
        case Shutdown(ok) => hr := SignalShutdown(ok);
      }
    }

    /** Other threads make these calls, one after another. */
    method Producers(calls: seq<Event>)
      requires Valid() && AllFromProducers(calls)
      modifies this
      ensures Valid() && old(history) <= history == old(history) + calls
      ensures consumer == old(consumer) && batch == old(batch) && sawShutdown == old(sawShutdown)
      ensures (old(processEvent) ==> processEvent) && (old(isShutdown) ==> isShutdown)
      ensures reported == old(reported) && old(accepted) <= accepted
    {
      for k := 0 to |calls|
        invariant Valid() && history == old(history) + calls[..k]
        invariant consumer == old(consumer) && batch == old(batch) && sawShutdown == old(sawShutdown)
        invariant (old(processEvent) ==> processEvent) && (old(isShutdown) ==> isShutdown)
        invariant reported == old(reported) && old(accepted) <= accepted
      {
        Produce(calls[k]);
        assert calls[..k + 1] == calls[..k] + [calls[k]];
      }
      assert calls[..|calls|] == calls;
    }

    /** The block that swaps the queue out under the critical section. */
    method SwapOut()
      requires Valid() && consumer == Woken
      modifies this
      ensures Valid() && old(history) <= history && consumer == Reporting
      ensures batch == old(eventQueue) && eventQueue == [] && eventQueueLength == 0
      ensures sawShutdown == old(isShutdown) && reported == old(reported)
    {
      RunSnoc(INITIAL, history, Swap);
      history := history + [Swap];
      batch, eventQueue := eventQueue, [];
      eventQueueLength := 0;
      sawShutdown := isShutdown;
      consumer := Reporting;
    }

    /** Reports the batch front to back while producers go on calling. */
    method ReportBatch(env: nat -> seq<Event>)
      requires Valid() && consumer == Reporting
      requires forall k :: AllFromProducers(env(k))
      modifies this
      ensures Valid() && old(history) <= history && batch == [] && consumer == Reporting
      ensures reported == old(reported) + old(batch) && sawShutdown == old(sawShutdown)
    {
      var k := 0;
      while batch != []
        invariant Valid() && old(history) <= history && consumer == Reporting
        invariant reported + batch == old(reported) + old(batch) && sawShutdown == old(sawShutdown)
        decreases |batch|
      {
        assert batch == [batch[0]] + batch[1..];
        assert reported + batch == reported + [batch[0]] + batch[1..];
        ReportOne(env(k));
        k := k + 1;
      }
      assert reported + [] == reported;
    }

    method ReportOne(calls: seq<Event>)
      requires Valid() && consumer == Reporting && batch != [] && AllFromProducers(calls)
      modifies this
      ensures Valid() && old(history) <= history && consumer == Reporting
      ensures reported == old(reported) + [old(batch)[0]] && batch == old(batch)[1..]
      ensures sawShutdown == old(sawShutdown)
    {
      Producers(calls);
      RunPreservesInv(INITIAL, history);
      RunSnoc(INITIAL, history, Report);
      history := history + [Report];
      var logItem := batch[0];
      // an empty item would be skipped; none is ever queued
      if logItem.text != "" {
        reported := reported + [logItem];
      }
      batch := batch[1..];
    }

    /** A successful wait consumes the auto-reset event. */
    method TakeSignal()
      requires Valid() && consumer == Waiting && processEvent
      modifies this
      ensures Valid() && old(history) <= history && consumer == Woken && !processEvent
      ensures reported == old(reported) && accepted == old(accepted) && isShutdown == old(isShutdown)
    {
      RunSnoc(INITIAL, history, Wait(true));
      history := history + [Wait(true)];
      processEvent := false;
      consumer := Woken;
    }

    /** The loop test once the batch is empty. */
    method TestLoop() returns (fShutdown: bool)
      requires Valid() && consumer == Reporting && batch == []
      modifies this
      ensures Valid() && old(history) <= history && fShutdown == old(sawShutdown)
      ensures reported == old(reported)
      ensures consumer == if fShutdown then Exited(true) else Waiting
    {
      RunSnoc(INITIAL, history, Report);
      history := history + [Report];
      fShutdown := sawShutdown;
      consumer := if fShutdown then Exited(true) else Waiting;
    }

    /** Outside the reporting loop all that is accepted is reported or queued. */
    lemma {:induction false} NothingHeldBack()
      requires Valid() && consumer != Reporting
      ensures accepted == reported + eventQueue
    {
      RunPreservesInv(INITIAL, history);
      assert reported + [] == reported;
    }

    /** One successful wait and everything up to the next wait or the exit: all that was accepted
        before is reported, and a shutdown before is noticed. */
    method Round(env: nat -> seq<Event>) returns (fShutdown: bool)
      requires Valid() && consumer == Waiting && processEvent
      requires forall k :: AllFromProducers(env(k))
      modifies this
      ensures Valid() && old(history) <= history
      ensures consumer == if fShutdown then Exited(true) else Waiting
      ensures old(accepted) <= reported && old(reported) <= reported && (old(isShutdown) ==> fShutdown)
    {
      TakeSignal();
      Producers(env(0));
      NothingHeldBack();
      SwapOut();
      ReportBatch((k: nat) => env(k + 1));
      fShutdown := TestLoop();
    }

    /** CoInitialize, at the start of the thread. */
    method StartThread(coInitialize: bool)
      requires Valid() && consumer == Starting
      modifies this
      ensures Valid() && old(history) <= history && reported == old(reported) && accepted == old(accepted)
      ensures processEvent == old(processEvent) && isShutdown == old(isShutdown)
      ensures consumer == if coInitialize then Waiting else Exited(false)
    {
      RunSnoc(INITIAL, history, Start(coInitialize));
      history := history + [Start(coInitialize)];
      consumer := if coInitialize then Waiting else Exited(false);
    }

    /** One turn of the loop; a turn in which the event stays clear is spent blocked. */
    method Turn(wait: bool, env: nat -> seq<Event>)
      requires Valid() && consumer == Waiting
      requires forall k :: AllFromProducers(env(k))
      modifies this
      ensures Valid() && old(history) <= history
      ensures consumer == Waiting || consumer.Exited?
      ensures consumer == Exited(false) <==> !wait
      ensures !wait ==> reported == old(reported)
      ensures old(reported) <= reported
      // with the event set, what was accepted before the turn is reported in it
      ensures wait && old(processEvent) ==>
        old(accepted) <= reported && (old(isShutdown) ==> consumer == Exited(true))
    {
      Producers(env(0));
      if !wait {
        RunSnoc(INITIAL, history, Wait(false));
        history := history + [Wait(false)];
        consumer := Exited(false);
      } else if processEvent {
        var fShutdown := Round((k: nat) => env(k + 1));
      }
    }

    /** The consumer thread, watched for `rounds` turns of its loop.  If it has left the loop
        normally then everything accepted so far, by anyone, has been reported in order. */
    method LogEventThreadProc(coInitialize: bool, waits: nat -> bool, env: (nat, nat) -> seq<Event>, rounds: nat)
      returns (exited: bool)
      requires Valid() && consumer == Starting
      requires forall i, k :: AllFromProducers(env(i, k))
      modifies this
      ensures Valid() && old(history) <= history
      ensures exited <==> consumer == Exited(true)
      ensures exited ==> reported == accepted && isShutdown
      ensures reported <= accepted
      ensures !coInitialize ==> reported == old(reported) && consumer == Exited(false)
      // a failed wait ends the thread; as long as all go well it ends only by the flag
      ensures consumer == Exited(false) ==> !coInitialize || exists i :: 0 <= i < rounds && !waits(i)
      ensures consumer == Waiting ==> coInitialize && forall i :: 0 <= i < rounds ==> waits(i)
      ensures consumer == Waiting || consumer.Exited?
      // the first turn reports what was accepted before the thread started
      ensures coInitialize && rounds > 0 && waits(0) && old(processEvent) ==>
        old(accepted) <= reported && (old(isShutdown) ==> exited)
    {
      StartThread(coInitialize);
      var i := 0;
      while consumer == Waiting && i < rounds
        invariant Valid() && old(history) <= history
        invariant 0 <= i <= rounds && (consumer == Waiting || consumer.Exited?)
        invariant consumer == Exited(false) ==> !coInitialize || exists k :: 0 <= k < i && !waits(k)
        invariant consumer == Waiting ==> coInitialize && forall k :: 0 <= k < i ==> waits(k)
        invariant i == 0 ==> accepted == old(accepted) && isShutdown == old(isShutdown)
        invariant i == 0 && coInitialize ==> consumer == Waiting && processEvent == old(processEvent)
        invariant i > 0 && waits(0) && old(processEvent) ==>
          old(accepted) <= reported && (old(isShutdown) ==> consumer == Exited(true))
        invariant !coInitialize ==> reported == old(reported) && consumer == Exited(false)
      {
        Turn(waits(i), (k: nat) => env(i, k));
        i := i + 1;
      }
      exited := consumer == Exited(true);
      RunPreservesInv(INITIAL, history);
      assert accepted == reported + (batch + eventQueue);
    }
  }

  lemma {:induction false} RunSnoc(s: State, events: seq<Event>, e: Event)
    ensures Run(s, events + [e]) == Step(Run(s, events), e)
  {
    assert (events + [e])[..|events + [e]| - 1] == events;
  }
}
