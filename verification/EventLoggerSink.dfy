/** The event-log sink of EventLoggerSink.cpp: its Reset, LogError and Shutdown drive the
    initialise-once cell and the event queue.  Calls on one sink run one at a time here;
    the interleavings inside the two parts are the subject of InitOnce and EventQueue. */
module EventLoggerSink {
  import opened EventQueue
  import opened EventLogging

  datatype Flags = Flags(errors: bool, trace: bool, results: bool)

  const NONE: Flags := Flags(false, false, false)

  const OK: int := 0
  const E_POINTER: int := -2147467261

  /** The sequential initialise-once cell: the calls of the function and what they gave. */
  datatype Cell = Cell(created: bool, result: int, calls: nat)

  function CellGet(c: Cell, funcResult: int): Cell {
    if c.created then c else Cell(true, funcResult, c.calls + 1)
  }

  function CellReset(c: Cell): Cell {
    if c.created then c.(created := false, result := OK) else c
  }

  datatype SinkOp =
    | Reset(defaultFlags: Flags, pEffectiveFlags: bool, funcResult: int)  // pEffectiveFlags: non-null
    | LogError(message: string, setEvent: bool)
    | Shutdown(setEvent: bool)
    | Consumer(event: Event)

  datatype SinkState = SinkState(cell: Cell, log: State)

  const FRESH_SINK: SinkState := SinkState(Cell(false, OK, 0), INITIAL)

  const ERROR_TYPE: nat := 1

  function SinkStep(s: SinkState, op: SinkOp): SinkState {
    match op
    case Reset(flags, nonNull, funcResult) =>
      if nonNull && flags.errors then s.(cell := CellGet(s.cell, funcResult)) else s
    case LogError(message, ok) => s.(log := Step(s.log, Event.Append(Item(ERROR_TYPE, message), ok)))
    case Shutdown(ok) => SinkState(CellReset(s.cell), Step(s.log, Event.Shutdown(ok)))
    case Consumer(e) => if FromProducer(e) then s else s.(log := Step(s.log, e))
  }

  function SinkRun(s: SinkState, ops: seq<SinkOp>): SinkState {
    if ops == [] then s
    else SinkStep(SinkRun(s, ops[..|ops| - 1]), ops[|ops| - 1])
  }

  function Shutdowns(ops: seq<SinkOp>): nat {
    if ops == [] then 0
    else Shutdowns(ops[..|ops| - 1]) + (if ops[|ops| - 1].Shutdown? then 1 else 0)
  }

  /** InitializeEventSource runs at most once more often than the sink is shut down, and
      an initialised sink is one initialisation ahead of its effective shutdowns. */
  lemma {:induction false} InitialisationsBounded(ops: seq<SinkOp>)
    ensures var s := SinkRun(FRESH_SINK, ops);
      s.cell.calls <= Shutdowns(ops) + (if s.cell.created then 1 else 0)
  {
    if ops != [] {
      InitialisationsBounded(ops[..|ops| - 1]);
    }
  }

  /** Nothing is queued after the first Shutdown, however often the sink is reset again. */
  lemma {:induction false} NothingQueuedAfterShutdown(s: SinkState, ok: bool, later: seq<SinkOp>)
    ensures var down := SinkStep(s, SinkOp.Shutdown(ok));
      var end := SinkRun(down, later);
      end.log.shutdown && end.log.accepted == s.log.accepted
  {
    if later != [] {
      NothingQueuedAfterShutdown(s, ok, later[..|later| - 1]);
    }
  }

  /** The queue is closed exactly if the sink was ever shut down. */
  lemma {:induction false} ClosedIffShutDown(ops: seq<SinkOp>)
    ensures SinkRun(FRESH_SINK, ops).log.shutdown <==> Shutdowns(ops) > 0
  {
    if ops != [] {
      ClosedIffShutDown(ops[..|ops| - 1]);
    }
  }

  /** In every run, whatever Reset has announced, an error is queued if and only if the sink was
      never shut down, the message is not empty and the queue has room. */
  lemma {:induction false} ErrorQueuedIff(ops: seq<SinkOp>, message: string, ok: bool)
    ensures
      var s := SinkRun(FRESH_SINK, ops);
      var after := SinkRun(FRESH_SINK, ops + [SinkOp.LogError(message, ok)]);
      && (after.log.accepted == s.log.accepted + [Item(1, message)]
          <==> Shutdowns(ops) == 0 && message != "" && TotalLength(s.log.queue) < 65536)
      && (after.log.accepted != s.log.accepted + [Item(1, message)] ==> after.log == s.log)
  {
    ClosedIffShutDown(ops);
    LengthIsExact(ops);
    SinkRunSnoc(FRESH_SINK, ops, SinkOp.LogError(message, ok));
  }

  /** The sink drives the queue only by its events, so the accounting of the queue holds. */
  lemma {:induction false} LengthIsExact(ops: seq<SinkOp>)
    ensures Inv(SinkRun(FRESH_SINK, ops).log)
  {
    if ops != [] {
      LengthIsExact(ops[..|ops| - 1]);
      var s := SinkRun(FRESH_SINK, ops[..|ops| - 1]).log;
      match ops[|ops| - 1]
      case Reset(_, _, _) =>
      case LogError(message, ok) => StepPreservesInv(s, Event.Append(Item(ERROR_TYPE, message), ok));
      case Shutdown(ok) => StepPreservesInv(s, Event.Shutdown(ok));
      case Consumer(e) => StepPreservesInv(s, e);
    }
  }

  /** So a Reset that announces errors keeps its word exactly if no Shutdown came before it:
      the next non-empty error, if there is room, is queued, and else none ever is. */
  lemma {:induction false} AnnouncedErrorsAreQueuedIff(ops: seq<SinkOp>, flags: Flags, hr: int,
      message: string, ok: bool)
    requires flags.errors && message != "" && TotalLength(SinkRun(FRESH_SINK, ops).log.queue) < 65536
    ensures
      var up := ops + [Reset(flags, true, hr)];
      var s, after := SinkRun(FRESH_SINK, up), SinkRun(FRESH_SINK, up + [SinkOp.LogError(message, ok)]);
      && s.cell.created
      && (after.log.accepted == s.log.accepted + [Item(1, message)] <==> Shutdowns(ops) == 0)
  {
    var up := ops + [Reset(flags, true, hr)];
    SinkRunSnoc(FRESH_SINK, ops, Reset(flags, true, hr));
    assert up[..|ops|] == ops;
    ErrorQueuedIff(up, message, ok);
  }

  /** A sink that is reset after a Shutdown initialises again and announces that it takes
      errors, yet no error it is given is ever queued. */
  lemma {:induction false} ReinitialisedSinkIsDeaf(before: seq<SinkOp>, ok: bool, flags: Flags, hr: int,
      later: seq<SinkOp>)
    requires flags.errors
    ensures var s := SinkRun(FRESH_SINK, before);
      var up := SinkStep(SinkStep(s, SinkOp.Shutdown(ok)), Reset(flags, true, hr));
      && up.cell.created && up.cell.calls == s.cell.calls + 1 && up.cell.result == hr
      && SinkRun(up, later).log.accepted == s.log.accepted
  {
    var s := SinkRun(FRESH_SINK, before);
    var up := [Reset(flags, true, hr)];
    assert up[..0] == [];
    var down := SinkStep(s, SinkOp.Shutdown(ok));
    assert SinkRun(down, up) == SinkStep(down, Reset(flags, true, hr));
    SinkRunAppend(SinkStep(s, SinkOp.Shutdown(ok)), up, later);
    NothingQueuedAfterShutdown(s, ok, up + later);
  }

  lemma {:induction false} SinkRunAppend(s: SinkState, first: seq<SinkOp>, rest: seq<SinkOp>)
    ensures SinkRun(s, first + rest) == SinkRun(SinkRun(s, first), rest)
  {
    if rest == [] {
      assert first + rest == first;
    } else {
      assert (first + rest)[..|first + rest| - 1] == first + rest[..|rest| - 1];
      SinkRunAppend(s, first, rest[..|rest| - 1]);
    }
  }

  class CInitOnce {
    var isCreated: bool
    var result: int
    ghost var calls: nat

    ghost function Now(): Cell
      reads this
    {
      Cell(isCreated, result, calls)
    }

    constructor ()
      ensures Now() == Cell(false, OK, 0)
    {
      isCreated, result, calls := false, OK, 0;
    }

    /** `funcResult` is what m_func returns if it is called. */
    method Get(funcResult: int) returns (hr: int)
      modifies this
      ensures Now() == CellGet(old(Now()), funcResult) && hr == result && isCreated
      ensures if old(isCreated) then result == old(result) && calls == old(calls)
        else result == funcResult && calls == old(calls) + 1
    {
      if !isCreated {
        result, calls := funcResult, calls + 1;
        isCreated := true;
      }
      return result;
    }

    method Reset() returns (hr: int)
      modifies this
      ensures Now() == CellReset(old(Now())) && hr == result && !isCreated && calls == old(calls)
      ensures result == if old(isCreated) then 0 else old(result)
    {
      if isCreated {
        result := OK;
        isCreated := false;
      }
      return result;
    }
  }

  class CEventLoggerSink {
    const initEventSource: CInitOnce
    const base: EventLoggingBase
    ghost var ops: seq<SinkOp>

    ghost function Now(): SinkState
      reads this, initEventSource, base
    {
      SinkState(initEventSource.Now(), base.Now())
    }

    ghost predicate Valid()
      reads this, initEventSource, base
    {
      base.Valid() && Now() == SinkRun(FRESH_SINK, ops)
    }

    constructor ()
      ensures Valid() && ops == [] && fresh(initEventSource) && fresh(base)
    {
      initEventSource := new CInitOnce();
      base := new EventLoggingBase();
      ops := [];
    }

    method Reset(defaultFlags: Flags, pEffectiveFlags: bool, funcResult: int)
      returns (hr: int, effectiveFlags: Flags)
      requires Valid()
      modifies this, initEventSource
      ensures Valid() && ops == old(ops) + [SinkOp.Reset(defaultFlags, pEffectiveFlags, funcResult)]
      ensures !pEffectiveFlags ==> hr == E_POINTER
      // the event source is initialised only for errors, and only once
      ensures pEffectiveFlags && defaultFlags.errors ==> initEventSource.isCreated
      ensures pEffectiveFlags && defaultFlags.errors && !old(initEventSource.isCreated) ==>
        initEventSource.result == funcResult && initEventSource.calls == old(initEventSource.calls) + 1
      ensures !pEffectiveFlags || !defaultFlags.errors || old(initEventSource.isCreated) ==>
        && initEventSource.isCreated == old(initEventSource.isCreated)
        && initEventSource.result == old(initEventSource.result)
        && initEventSource.calls == old(initEventSource.calls)
      // its failure is reported and lets nothing through; else errors, and only errors, are
      ensures pEffectiveFlags && defaultFlags.errors && initEventSource.result < 0 ==>
        hr == initEventSource.result && effectiveFlags == Flags(false, false, false)
      ensures pEffectiveFlags && (!defaultFlags.errors || initEventSource.result >= 0) ==>
        hr == 0 && effectiveFlags == Flags(defaultFlags.errors, false, false)
      ensures !pEffectiveFlags ==> effectiveFlags == Flags(false, false, false)
    {
      SinkRunSnoc(FRESH_SINK, ops, SinkOp.Reset(defaultFlags, pEffectiveFlags, funcResult));
      ops := ops + [SinkOp.Reset(defaultFlags, pEffectiveFlags, funcResult)];
      effectiveFlags := NONE;
      if !pEffectiveFlags {
        return E_POINTER, effectiveFlags;
      }
      var effective := Flags(defaultFlags.errors, false, false);
      if effective != NONE {
        hr := initEventSource.Get(funcResult);
        if hr < 0 {
          return hr, effectiveFlags;
        }
      }
      return OK, effective;
    }

    method LogError(message: string, setEvent: bool)
      requires Valid()
      modifies this, base
      ensures Valid() && ops == old(ops) + [SinkOp.LogError(message, setEvent)]
      ensures
        if !old(base.isShutdown) && message != "" && old(base.eventQueueLength) < 65536 then
          && base.eventQueue == old(base.eventQueue) + [Item(1, message)]
          && base.accepted == old(base.accepted) + [Item(1, message)]
        else
          base.eventQueue == old(base.eventQueue) && base.accepted == old(base.accepted)
    {
      SinkRunSnoc(FRESH_SINK, ops, SinkOp.LogError(message, setEvent));
      ops := ops + [SinkOp.LogError(message, setEvent)];
      var hr := base.AppendToQueue(ERROR_TYPE, message, setEvent);
    }

    method Shutdown(setEvent: bool) returns (hr: Status)
      requires Valid()
      modifies this, base, initEventSource
      ensures Valid() && ops == old(ops) + [SinkOp.Shutdown(setEvent)]
      ensures base.isShutdown && !initEventSource.isCreated && initEventSource.calls == old(initEventSource.calls)
      ensures base.accepted == old(base.accepted) && base.eventQueue == old(base.eventQueue)
      ensures hr == S_OK <==> setEvent
    {
      SinkRunSnoc(FRESH_SINK, ops, SinkOp.Shutdown(setEvent));
      ops := ops + [SinkOp.Shutdown(setEvent)];
      RunSnoc(INITIAL, base.history, Event.Shutdown(setEvent));
      hr := base.SignalShutdown(setEvent);
      var ignored := initEventSource.Reset();
    }
  }

  lemma {:induction false} SinkRunSnoc(s: SinkState, ops: seq<SinkOp>, op: SinkOp)
    ensures SinkRun(s, ops + [op]) == SinkStep(SinkRun(s, ops), op)
  {
    assert (ops + [op])[..|ops + [op]| - 1] == ops;
  }
}
