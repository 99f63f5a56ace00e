/** CInitOnce of InitOnce.h as a transition system: double-checked initialisation with
    Reset, for any number of concurrent Get, Reset and IsSuccessful calls. */
module InitOnce {

  datatype Op = Get | Reset | IsSuccessful

  datatype Pc =
    | FastCheck
    | Acquire
    | Recheck | CallFunc | SetFlag | ClearResult | ClearFlag | Unlock  // mutex held
    | ReadResult
    | Done(value: int)

  datatype Mutex = Free | Held(owner: nat)

  /** m_isCreated and m_result; `calls` counts the calls of m_func and `cleared` holds the
      Resets that had an effect. */
  datatype Shared = Shared(created: bool, result: int, calls: nat, cleared: set<nat>)

  datatype State = State(shared: Shared, mutex: Mutex, threads: seq<Pc>)

  const S_OK: int := 0

  predicate Succeeded(hr: int) { hr >= 0 }

  ghost function Init(ops: seq<Op>): State {
    State(Shared(false, 0, 0, {}), Free, seq(|ops|, i => FastCheck))
  }

  /** One access of thread t to the object; `results(n)` is what the n-th call of m_func
      returns. */
  function Access(results: nat -> int, m: Shared, pc: Pc, op: Op, t: nat): (Shared, Pc) {
    match pc
    case FastCheck =>
      if op.IsSuccessful? then (m, if m.created then ReadResult else Done(0))
      else (m, if m.created == op.Get? then ReadResult else Acquire)
    case Acquire => (m, Recheck)
    case Recheck =>
      (m, if m.created == op.Get? then Unlock else if op.Get? then CallFunc else ClearResult)
    case CallFunc => (m.(result := results(m.calls), calls := m.calls + 1), SetFlag)
    case SetFlag => (m.(created := true), Unlock)
    case ClearResult => (m.(result := S_OK), ClearFlag)
    case ClearFlag => (m.(created := false, cleared := m.cleared + {t}), Unlock)
    case Unlock => (m, ReadResult)
    case ReadResult =>
      (m, Done(if !op.IsSuccessful? then m.result else if Succeeded(m.result) then 1 else 0))
    case Done(_) => (m, pc)
  }

  /** A thread that finds the mutex taken stays where it is. */
  function Step(ops: seq<Op>, results: nat -> int, s: State, t: nat): State
    requires |s.threads| == |ops|
  {
    if t >= |ops| || (s.threads[t] == Acquire && s.mutex.Held?) then s else
    var (m, pc) := Access(results, s.shared, s.threads[t], ops[t], t);
    var mutex := if s.threads[t] == Acquire then Held(t) else if s.threads[t] == Unlock then Free else s.mutex;
    State(m, mutex, s.threads[t := pc])
  }

  function Run(ops: seq<Op>, results: nat -> int, s: State, schedule: seq<nat>): (r: State)
    requires |s.threads| == |ops|
    ensures |r.threads| == |ops|
  {
    if schedule == [] then s
    else Step(ops, results, Run(ops, results, s, schedule[..|schedule| - 1]), schedule[|schedule| - 1])
  }

  ghost function Reached(ops: seq<Op>, results: nat -> int, schedule: seq<nat>): State {
    Run(ops, results, Init(ops), schedule)
  }

  // ---------- invariant ----------

  predicate Inside(pc: Pc) {
    pc == Recheck || pc == CallFunc || pc == SetFlag || pc == ClearResult || pc == ClearFlag || pc == Unlock
  }

  /** No initialisation or reset half done. */
  ghost predicate Settled(results: nat -> int, m: Shared) {
    if m.created then m.calls == |m.cleared| + 1 && m.result == results(m.calls - 1)
    else m.calls == |m.cleared| && m.result == S_OK
  }

  ghost predicate HolderOk(results: nat -> int, m: Shared, pc: Pc, op: Op) {
    match pc
    case Recheck => Settled(results, m) && !op.IsSuccessful?
    case CallFunc => Settled(results, m) && !m.created && op.Get?
    case SetFlag => !m.created && op.Get? && m.calls == |m.cleared| + 1 && m.result == results(m.calls - 1)
    case ClearResult => Settled(results, m) && m.created && op.Reset?
    case ClearFlag => m.created && op.Reset? && m.calls == |m.cleared| + 1 && m.result == S_OK
    case Unlock => Settled(results, m) && !op.IsSuccessful?
    case _ => false
  }

  /** What holds of a thread wherever it is. */
  ghost predicate LocalOk(results: nat -> int, m: Shared, pc: Pc, op: Op, t: nat) {
    && (pc == Acquire ==> !op.IsSuccessful?)
    && (t in m.cleared ==> op.Reset? && (pc == Unlock || pc == ReadResult || pc.Done?))
    && (pc.Done? && !op.IsSuccessful? ==> Returnable(results, m, pc.value))
  }

  /** S_OK, or what some call of m_func has returned. */
  ghost predicate Returnable(results: nat -> int, m: Shared, value: int) {
    value == S_OK || exists k: nat :: k < m.calls && value == results(k)
  }

  ghost predicate ThreadOk(ops: seq<Op>, results: nat -> int, s: State, t: nat)
    requires t < |s.threads| == |ops|
  {
    && LocalOk(results, s.shared, s.threads[t], ops[t], t)
    && (Inside(s.threads[t]) <==> s.mutex == Held(t))
  }

  ghost predicate Inv(ops: seq<Op>, results: nat -> int, s: State) {
    && |s.threads| == |ops|
    && (forall t :: 0 <= t < |ops| ==> ThreadOk(ops, results, s, t))
    && (match s.mutex
        case Free => Settled(results, s.shared)
        case Held(h) => h < |ops| && HolderOk(results, s.shared, s.threads[h], ops[h]))
    && (forall t :: t in s.shared.cleared ==> t < |ops|)
    && Returnable(results, s.shared, s.shared.result)
  }

  lemma {:induction false} AccessOutside(results: nat -> int, m: Shared, pc: Pc, op: Op, t: nat)
    requires LocalOk(results, m, pc, op, t) && Returnable(results, m, m.result) && !Inside(pc)
    ensures var (m', pc') := Access(results, m, pc, op, t);
      m' == m && LocalOk(results, m', pc', op, t) && (Inside(pc') <==> pc == Acquire)
      && (pc == Acquire && Settled(results, m) ==> HolderOk(results, m', pc', op))
  {
  }

  lemma {:induction false} AccessInside(results: nat -> int, m: Shared, pc: Pc, op: Op, t: nat)
    requires LocalOk(results, m, pc, op, t) && HolderOk(results, m, pc, op)
    requires Returnable(results, m, m.result)
    ensures var (m', pc') := Access(results, m, pc, op, t);
      && LocalOk(results, m', pc', op, t)
      && (if pc == Unlock then !Inside(pc') && Settled(results, m') else HolderOk(results, m', pc', op))
      && (m'.cleared == m.cleared || m'.cleared == m.cleared + {t})
      && m.calls <= m'.calls && Returnable(results, m', m'.result)
  {
    if pc == CallFunc {
      var m' := Access(results, m, pc, op, t).0;
      assert m.calls < m'.calls && m'.result == results(m.calls);
    }
  }

  lemma {:induction false} OthersStayOk(results: nat -> int, m: Shared, m': Shared, pc: Pc, op: Op, u: nat)
    requires LocalOk(results, m, pc, op, u) && m.calls <= m'.calls
    requires u in m'.cleared ==> u in m.cleared
    ensures LocalOk(results, m', pc, op, u)
  {
  }

  lemma {:induction false} StepPreservesInv(ops: seq<Op>, results: nat -> int, s: State, t: nat)
    requires Inv(ops, results, s)
    ensures Inv(ops, results, Step(ops, results, s, t))
  {
    if t < |ops| {
      assert ThreadOk(ops, results, s, t);
      if Inside(s.threads[t]) {
        AccessInside(results, s.shared, s.threads[t], ops[t], t);
      } else {
        AccessOutside(results, s.shared, s.threads[t], ops[t], t);
      }
      var s' := Step(ops, results, s, t);
      forall u | 0 <= u < |ops| ensures ThreadOk(ops, results, s', u) {
        assert ThreadOk(ops, results, s, u);
        if u != t {
          OthersStayOk(results, s.shared, s'.shared, s.threads[u], ops[u], u);
        }
      }
    }
  }

  lemma {:induction false} RunPreservesInv(ops: seq<Op>, results: nat -> int, s: State, schedule: seq<nat>)
    requires Inv(ops, results, s)
    ensures Inv(ops, results, Run(ops, results, s, schedule))
  {
    if schedule != [] {
      var before := schedule[..|schedule| - 1];
      RunPreservesInv(ops, results, s, before);
      StepPreservesInv(ops, results, Run(ops, results, s, before), schedule[|schedule| - 1]);
    }
  }

  lemma {:induction false} ReachedInv(ops: seq<Op>, results: nat -> int, schedule: seq<nat>)
    ensures Inv(ops, results, Reached(ops, results, schedule))
  {
    RunPreservesInv(ops, results, Init(ops), schedule);
  }

  // ---------- main results ----------

  /** Whenever the mutex is free, the calls of m_func exceed the effective Resets by one if
      the object is created and by none otherwise, and m_result is the last call's result. */
  lemma {:induction false} InitialisedOnce(ops: seq<Op>, results: nat -> int, schedule: seq<nat>)
    requires Reached(ops, results, schedule).mutex.Free?
    ensures var s := Reached(ops, results, schedule);
      && s.shared.calls - |s.shared.cleared| == (if s.shared.created then 1 else 0)
      && s.shared.result == (if s.shared.created then results(s.shared.calls - 1) else S_OK)
  {
    ReachedInv(ops, results, schedule);
  }

  ghost function ResetsIn(ops: seq<Op>): set<nat> {
    set t: nat | t < |ops| && ops[t].Reset?
  }

  lemma {:induction false} SubsetSize<T>(a: set<T>, b: set<T>)
    requires a <= b
    ensures |a| <= |b|
  {
    assert b == a + (b - a);
  }

  lemma {:induction false} ClearedAreResets(ops: seq<Op>, results: nat -> int, s: State)
    requires Inv(ops, results, s)
    ensures s.shared.cleared <= ResetsIn(ops)
  {
    forall t | t in s.shared.cleared ensures t in ResetsIn(ops) {
      assert ThreadOk(ops, results, s, t);
    }
  }

  /** At most one more call of m_func than there are calls of Reset. */
  lemma {:induction false} CallsBounded(ops: seq<Op>, results: nat -> int, schedule: seq<nat>)
    ensures Reached(ops, results, schedule).shared.calls <= 1 + |ResetsIn(ops)|
  {
    ReachedInv(ops, results, schedule);
    var s := Reached(ops, results, schedule);
    ClearedAreResets(ops, results, s);
    SubsetSize(s.shared.cleared, ResetsIn(ops));
  }

  /** Whatever the interleaving, Get and Reset return S_OK or the result of some call. */
  lemma {:induction false} ReturnsSomeResult(ops: seq<Op>, results: nat -> int, schedule: seq<nat>, t: nat)
    requires t < |ops| && !ops[t].IsSuccessful?
    requires Reached(ops, results, schedule).threads[t].Done?
    ensures var s := Reached(ops, results, schedule);
      Returnable(results, s.shared, s.threads[t].value)
  {
    ReachedInv(ops, results, schedule);
    assert ThreadOk(ops, results, Reached(ops, results, schedule), t);
  }

  // ---------- runs without Reset ----------

  ghost predicate NoReset(ops: seq<Op>) {
    forall t :: 0 <= t < |ops| ==> !ops[t].Reset?
  }

  /** Without Reset the flag, once set, stays set over the one result. */
  ghost predicate PcFrozen(results: nat -> int, m: Shared, pc: Pc, op: Op) {
    && (pc == ReadResult || pc == Unlock ==> m.created)
    && (pc.Done? && op.Get? ==> m.created && pc.value == results(0))
    && (pc == Done(1) && op.IsSuccessful? ==> m.created && Succeeded(results(0)))
  }

  ghost predicate Frozen(ops: seq<Op>, results: nat -> int, s: State)
    requires |s.threads| == |ops|
  {
    && (s.shared.created ==> s.shared.result == results(0))
    && forall t :: 0 <= t < |ops| ==> PcFrozen(results, s.shared, s.threads[t], ops[t])
  }

  lemma {:induction false} AccessFrozen(results: nat -> int, m: Shared, pc: Pc, op: Op, t: nat)
    requires !op.Reset? && m.cleared == {}
    requires Inside(pc) ==> HolderOk(results, m, pc, op)
    requires PcFrozen(results, m, pc, op) && (m.created ==> m.result == results(0))
    ensures var (m', pc') := Access(results, m, pc, op, t);
      && PcFrozen(results, m', pc', op)
      && (m.created ==> m'.created)
      && (m'.created ==> m'.result == results(0))
  {
  }

  lemma {:induction false} StaysFrozen(ops: seq<Op>, results: nat -> int, schedule: seq<nat>)
    requires NoReset(ops)
    ensures Frozen(ops, results, Reached(ops, results, schedule))
  {
    if schedule != [] {
      var before, t := schedule[..|schedule| - 1], schedule[|schedule| - 1];
      StaysFrozen(ops, results, before);
      ReachedInv(ops, results, before);
      var s := Reached(ops, results, before);
      ClearedAreResets(ops, results, s);
      if t < |ops| {
        assert ThreadOk(ops, results, s, t);
        AccessFrozen(results, s.shared, s.threads[t], ops[t], t);
      }
    }
  }

  /** Without Reset m_func runs at most once, every finished Get returns that one call's
      result, and IsSuccessful answers yes only if that call succeeded. */
  lemma {:induction false} GetReturnsTheOneResult(ops: seq<Op>, results: nat -> int, schedule: seq<nat>, t: nat)
    requires NoReset(ops) && t < |ops|
    ensures var s := Reached(ops, results, schedule);
      && s.shared.calls <= 1
      && (ops[t].Get? && s.threads[t].Done? ==> s.shared.calls == 1 && s.threads[t].value == results(0))
      && (ops[t].IsSuccessful? && s.threads[t] == Done(1) ==> s.shared.calls == 1 && Succeeded(results(0)))
  {
    StaysFrozen(ops, results, schedule);
    CallsBounded(ops, results, schedule);
    ReachedInv(ops, results, schedule);
    var s := Reached(ops, results, schedule);
    assert PcFrozen(results, s.shared, s.threads[t], ops[t]);
  }

  /** An IsSuccessful that has not yet read the flag of a created object. */
  ghost predicate WillAnswer(results: nat -> int, m: Shared, pc: Pc) {
    && m.created && m.result == results(0)
    && (pc == FastCheck || pc == ReadResult || pc == Done(if results(0) >= 0 then 1 else 0))
  }

  /** Without Reset, an IsSuccessful that starts when the object is created answers, whatever
      runs in between, yes exactly if the one call of m_func succeeded. */
  lemma {:induction false} YesIffSucceeded(ops: seq<Op>, results: nat -> int, first: seq<nat>, later: seq<nat>, t: nat)
    requires NoReset(ops) && t < |ops| && ops[t].IsSuccessful?
    requires Reached(ops, results, first).shared.created && Reached(ops, results, first).threads[t] == FastCheck
    ensures
      var pc := Reached(ops, results, first + later).threads[t];
      pc.Done? ==> pc.value == if results(0) >= 0 then 1 else 0
  {
    StaysFrozen(ops, results, first);
    AnswersLater(ops, results, first, later, t);
  }

  lemma {:induction false} AnswersLater(ops: seq<Op>, results: nat -> int, first: seq<nat>, later: seq<nat>, t: nat)
    requires NoReset(ops) && t < |ops| && ops[t].IsSuccessful?
    requires WillAnswer(results, Reached(ops, results, first).shared, Reached(ops, results, first).threads[t])
    ensures
      var s := Reached(ops, results, first + later);
      WillAnswer(results, s.shared, s.threads[t])
    decreases |later|
  {
    if later == [] {
      assert first + later == first;
    } else {
      var n := |later| - 1;
      var s := Reached(ops, results, first + later[..n]);
      AnswersLater(ops, results, first, later[..n], t);
      assert (first + later)[..|first + later| - 1] == first + later[..n];
      if later[n] < |ops| {
        StaysFrozen(ops, results, first + later[..n]);
        ReachedInv(ops, results, first + later[..n]);
        ClearedAreResets(ops, results, s);
        assert ThreadOk(ops, results, s, later[n]) && PcFrozen(results, s.shared, s.threads[later[n]], ops[later[n]]);
        AccessFrozen(results, s.shared, s.threads[later[n]], ops[later[n]], later[n]);
      }
    }
  }

  /** A call that nobody interrupts, from any state in which the mutex is free: Get calls m_func
      exactly if nothing is created, and returns the result that it leaves; Reset leaves nothing
      created and S_OK behind; IsSuccessful changes nothing. */
  lemma {:induction false} UninterruptedCall(ops: seq<Op>, results: nat -> int, s: State, t: nat)
    requires |s.threads| == |ops| && t < |ops| && s.threads[t] == FastCheck && s.mutex.Free?
    ensures
      var r := Run(ops, results, s, [t, t, t, t, t, t] + [t]);
      var was, now := s.shared, r.shared;
      && r.mutex.Free? && r.threads[t].Done?
      && match ops[t]
         case Get =>
           && now.created && r.threads[t].value == now.result
           && (was.created ==> now == was)
           && (!was.created ==> now.result == results(was.calls) && now.calls == was.calls + 1)
         case Reset =>
           && !now.created && now.calls == was.calls && r.threads[t].value == now.result
           && now.result == if was.created then 0 else was.result
         case IsSuccessful =>
           now == was && r.threads[t].value == if was.created && was.result >= 0 then 1 else 0
  {
    var six := RunSix(ops, results, s, t, t, t, t, t, t);
    RunAppend(ops, results, s, [t, t, t, t, t, t], [t]);
    assert [t][..0] == [];
    assert Run(ops, results, six, [t]) == Step(ops, results, six, t);
    AccessSeven(ops, results, s, t);
  }

  lemma {:induction false} AccessSeven(ops: seq<Op>, results: nat -> int, s: State, t: nat)
    requires |s.threads| == |ops| && t < |ops| && s.threads[t] == FastCheck && s.mutex.Free?
    ensures
      var two := Step(ops, results, Step(ops, results, s, t), t);
      var four := Step(ops, results, Step(ops, results, two, t), t);
      var six := Step(ops, results, Step(ops, results, four, t), t);
      var r := Step(ops, results, six, t);
      var was, now := s.shared, r.shared;
      && r.mutex.Free? && r.threads[t].Done?
      && (ops[t].Get? ==>
           && now.created && r.threads[t].value == now.result
           && (was.created ==> now == was)
           && (!was.created ==> now.result == results(was.calls) && now.calls == was.calls + 1))
      && (ops[t].Reset? ==>
           && !now.created && now.calls == was.calls && r.threads[t].value == now.result
           && now.result == if was.created then 0 else was.result)
      && (ops[t].IsSuccessful? ==>
           now == was && r.threads[t].value == if was.created && was.result >= 0 then 1 else 0)
  {
    var two := Step(ops, results, Step(ops, results, s, t), t);
    if ops[t].IsSuccessful? || s.shared.created == ops[t].Get? {
      assert two.threads[t].Done? && two.mutex.Free?;
    } else {
      assert two.mutex == Held(t) && two.shared == s.shared && two.threads[t] == Recheck;
      var four := Step(ops, results, Step(ops, results, two, t), t);
      assert four.threads[t] == if ops[t].Get? then SetFlag else ClearFlag;
    }
  }

  /** A finished Get that reports S_OK although every call of m_func has failed. */
  ghost predicate FalseSuccess(ops: seq<Op>, results: nat -> int, schedule: seq<nat>) {
    var s := Reached(ops, results, schedule);
    exists t :: 0 <= t < |ops| && ops[t].Get? && s.threads[t] == Done(S_OK)
  }

  /** An IsSuccessful that answers yes although every call of m_func has failed. */
  ghost predicate FalseYes(ops: seq<Op>, results: nat -> int, schedule: seq<nat>) {
    var s := Reached(ops, results, schedule);
    exists t :: 0 <= t < |ops| && ops[t].IsSuccessful? && s.threads[t] == Done(1)
  }

  ghost predicate HasCall(ops: seq<Op>, op: Op) {
    exists t :: 0 <= t < |ops| && ops[t] == op
  }

  /** With an initialisation that always fails, some interleaving lets a Get report success
      if and only if there is a Get and a Reset. */
  lemma {:induction false} FalseSuccessIffReset(ops: seq<Op>, results: nat -> int)
    requires forall k: nat :: results(k) < 0
    ensures (exists schedule :: FalseSuccess(ops, results, schedule)) <==> HasCall(ops, Get) && HasCall(ops, Reset)
  {
    if !HasCall(ops, Reset) {
      forall schedule ensures !FalseSuccess(ops, results, schedule) {
        forall t | 0 <= t < |ops| && ops[t].Get?
          ensures Reached(ops, results, schedule).threads[t] != Done(S_OK)
        {
          GetReturnsTheOneResult(ops, results, schedule, t);
        }
      }
    } else if HasCall(ops, Get) {
      var g :| 0 <= g < |ops| && ops[g] == Get;
      var r :| 0 <= r < |ops| && ops[r] == Reset;
      ResetBeforeRead(ops, results, g, r);
    }
  }

  /** And some interleaving lets an IsSuccessful answer yes if and only if there is an
      IsSuccessful, a Get and a Reset. */
  lemma {:induction false} FalseYesIffReset(ops: seq<Op>, results: nat -> int)
    requires forall k: nat :: results(k) < 0
    ensures (exists schedule :: FalseYes(ops, results, schedule))
      <==> HasCall(ops, IsSuccessful) && HasCall(ops, Get) && HasCall(ops, Reset)
  {
    if !HasCall(ops, Reset) {
      forall schedule ensures !FalseYes(ops, results, schedule) {
        forall t | 0 <= t < |ops| && ops[t].IsSuccessful?
          ensures Reached(ops, results, schedule).threads[t] != Done(1)
        {
          GetReturnsTheOneResult(ops, results, schedule, t);
        }
      }
    } else if !HasCall(ops, Get) {
      forall schedule ensures !FalseYes(ops, results, schedule) {
        NeverCreated(ops, results, schedule);
        assert forall t :: 0 <= t < |ops| ==> WithoutGet(Reached(ops, results, schedule).threads[t], ops[t]);
      }
    } else if HasCall(ops, IsSuccessful) {
      var i :| 0 <= i < |ops| && ops[i] == IsSuccessful;
      var g :| 0 <= g < |ops| && ops[g] == Get;
      var r :| 0 <= r < |ops| && ops[r] == Reset;
      ResetBetweenReads(ops, results, g, r, i);
    }
  }

  /** Where a thread can be as long as nothing is created. */
  predicate WithoutGet(pc: Pc, op: Op) {
    pc == FastCheck || (op.Reset? && (pc == ReadResult || pc.Done?)) || (op.IsSuccessful? && pc == Done(0))
  }

  lemma {:induction false} NeverCreated(ops: seq<Op>, results: nat -> int, schedule: seq<nat>)
    requires !HasCall(ops, Get)
    ensures
      var s := Reached(ops, results, schedule);
      !s.shared.created && forall t :: 0 <= t < |ops| ==> WithoutGet(s.threads[t], ops[t])
  {
    if schedule != [] {
      var before, t := schedule[..|schedule| - 1], schedule[|schedule| - 1];
      NeverCreated(ops, results, before);
      if t < |ops| {
        assert ops[t] != Get && WithoutGet(Reached(ops, results, before).threads[t], ops[t]);
      }
    }
  }

  /** Six steps of a Get that finds nothing created and the mutex free. */
  lemma {:induction false} GetInitialises(ops: seq<Op>, results: nat -> int, s: State, g: nat)
    requires |s.threads| == |ops| && g < |ops| && ops[g].Get? && s.threads[g] == FastCheck
    requires !s.shared.created && s.mutex.Free?
    ensures
      var r := Run(ops, results, s, [g, g, g, g, g, g]);
      r.shared.created && r.mutex.Free? && r.threads == s.threads[g := ReadResult]
  {
    var r := RunSix(ops, results, s, g, g, g, g, g, g);
    var a := Step(ops, results, Step(ops, results, s, g), g);
    assert a.mutex == Held(g) && a.shared == s.shared && a.threads == s.threads[g := Recheck];
    var b := Step(ops, results, Step(ops, results, a, g), g);
    assert b.threads == s.threads[g := SetFlag];
  }

  /** A Reset up to the release of the mutex, then the last step of a call that has decided to
      read the result. */
  lemma {:induction false} ResetThenRead(ops: seq<Op>, results: nat -> int, s: State, r: nat, g: nat)
    requires |s.threads| == |ops| && r < |ops| && g < |ops| && ops[r].Reset? && !ops[g].Reset?
    requires s.threads[r] == FastCheck && s.threads[g] == ReadResult
    requires s.shared.created && s.mutex.Free?
    ensures Run(ops, results, s, [r, r, r, r, r, g]).threads[g] == Done(if ops[g].Get? then S_OK else 1)
  {
    var q := RunSix(ops, results, s, r, r, r, r, r, g);
    var a := Step(ops, results, Step(ops, results, s, r), r);
    assert a.mutex == Held(r) && a.shared == s.shared && a.threads == s.threads[r := Recheck];
    var b := Step(ops, results, Step(ops, results, a, r), r);
    assert b.threads == s.threads[r := ClearFlag] && b.shared.result == S_OK;
  }

  /** The Get initialises and releases the mutex; the Reset clears; then the Get reads. */
  lemma {:induction false} ResetBeforeRead(ops: seq<Op>, results: nat -> int, g: nat, r: nat)
    requires g < |ops| && ops[g].Get? && r < |ops| && ops[r].Reset?
    ensures FalseSuccess(ops, results, [g, g, g, g, g, g] + [r, r, r, r, r, g])
  {
    var gets, rest := [g, g, g, g, g, g], [r, r, r, r, r, g];
    GetInitialises(ops, results, Init(ops), g);
    ResetThenRead(ops, results, Run(ops, results, Init(ops), gets), r, g);
    RunAppend(ops, results, Init(ops), gets, rest);
  }

  /** The Get initialises; the IsSuccessful sees the flag; the Reset clears; then it reads. */
  lemma {:induction false} ResetBetweenReads(ops: seq<Op>, results: nat -> int, g: nat, r: nat, i: nat)
    requires g < |ops| && ops[g].Get? && r < |ops| && ops[r].Reset? && i < |ops| && ops[i].IsSuccessful?
    ensures FalseYes(ops, results, [g, g, g, g, g, g] + [i] + [r, r, r, r, r, i])
  {
    var gets, rest := [g, g, g, g, g, g], [r, r, r, r, r, i];
    var s0 := Init(ops);
    GetInitialises(ops, results, s0, g);
    var s1 := Run(ops, results, s0, gets);
    FlagSeen(ops, results, s1, i);
    ResetThenRead(ops, results, Run(ops, results, s1, [i]), r, i);
    RunAppend(ops, results, s0, gets, [i]);
    RunAppend(ops, results, s0, gets + [i], rest);
  }

  lemma {:induction false} FlagSeen(ops: seq<Op>, results: nat -> int, s: State, i: nat)
    requires |s.threads| == |ops| && i < |ops| && ops[i].IsSuccessful? && s.threads[i] == FastCheck && s.shared.created
    ensures Run(ops, results, s, [i]) == s.(threads := s.threads[i := ReadResult])
  {
    assert [i][..0] == [];
  }

  lemma {:induction false} RunSix(ops: seq<Op>, results: nat -> int, s: State, a: nat, b: nat, c: nat, d: nat,
      e: nat, f: nat)
    returns (r: State)
    requires |s.threads| == |ops|
    ensures r == Run(ops, results, s, [a, b, c, d, e, f])
    ensures
      var two := Step(ops, results, Step(ops, results, s, a), b);
      var four := Step(ops, results, Step(ops, results, two, c), d);
      r == Step(ops, results, Step(ops, results, four, e), f)
  {
    r := Run(ops, results, s, [a, b, c, d, e, f]);
    assert [a, b, c, d, e, f][..5] == [a, b, c, d, e];
    assert [a, b, c, d, e][..4] == [a, b, c, d];
    assert [a, b, c, d][..3] == [a, b, c];
    assert [a, b, c][..2] == [a, b];
    assert [a, b][..1] == [a];
    assert [a][..0] == [];
    assert Run(ops, results, s, [a]) == Step(ops, results, s, a);
    assert Run(ops, results, s, [a, b, c]) == Step(ops, results, Run(ops, results, s, [a, b]), c);
    assert Run(ops, results, s, [a, b, c, d, e]) == Step(ops, results, Run(ops, results, s, [a, b, c, d]), e);
  }

  lemma {:induction false} RunAppend(ops: seq<Op>, results: nat -> int, s: State, first: seq<nat>, rest: seq<nat>)
    requires |s.threads| == |ops|
    ensures Run(ops, results, s, first + rest) == Run(ops, results, Run(ops, results, s, first), rest)
  {
    if rest == [] {
      assert first + rest == first;
    } else {
      assert (first + rest)[..|first + rest| - 1] == first + rest[..|rest| - 1];
      RunAppend(ops, results, s, first, rest[..|rest| - 1]);
    }
  }
}
