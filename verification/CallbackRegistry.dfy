/** The callback registry of PublicContract.cs as a small-step transition system.

    Any number of calls of AddCallbacks and RemoveCallbacks run at once on one arity's
    three dictionaries.  Each call retries a compare-and-swap on the lock, copies the
    three dictionaries, edits the copies, publishes them one by one and releases the
    lock.  Every step is one access to shared memory; a schedule says whose step is next. */
module CallbackRegistry {
  import opened Sequences

  /** A delegate argument of AddCallbacks; the source allows null. */
  datatype Delegate = Null | Delegate(id: nat)

  type Dictionary = map<int, Delegate>

  datatype Tables = Tables(begin: Dictionary, end: Dictionary, exception: Dictionary)

  const EMPTY: Tables := Tables(map[], map[], map[])

  datatype Request =
    | Add(methodId: int, onBegin: Delegate, onEnd: Delegate, onException: Delegate)
    | Remove(methodId: int)

  datatype Outcome = Applied | DuplicateKey | Contention

  const MAX_ATTEMPTS: nat := 20

  // ---------- the sequential meaning of one call ----------

  /** Dictionary.Add throws on a key that is already there; Remove never throws. */
  predicate Throws(d: Dictionary, r: Request) {
    r.Add? && r.methodId in d
  }

  function Edit(d: Dictionary, r: Request, value: Delegate): Dictionary {
    if r.Add? then d[r.methodId := value] else d - {r.methodId}
  }

  function Begin(r: Request): Delegate { if r.Add? then r.onBegin else Null }
  function End(r: Request): Delegate { if r.Add? then r.onEnd else Null }
  function Exception(r: Request): Delegate { if r.Add? then r.onException else Null }

  function Updated(t: Tables, r: Request): Tables {
    Tables(Edit(t.begin, r, Begin(r)), Edit(t.end, r, End(r)), Edit(t.exception, r, Exception(r)))
  }

  /** One call on its own: a duplicate key leaves all three dictionaries alone. */
  function Sequential(t: Tables, r: Request): Tables {
    if Throws(t.begin, r) then t else Updated(t, r)
  }

  ghost predicate InRange(reqs: seq<Request>, order: seq<nat>) {
    forall k :: 0 <= k < |order| ==> order[k] < |reqs|
  }

  /** The calls of `order`, one after another, from empty dictionaries. */
  ghost function Fold(reqs: seq<Request>, order: seq<nat>): Tables
    requires InRange(reqs, order)
  {
    if order == [] then EMPTY
    else Sequential(Fold(reqs, order[..|order| - 1]), reqs[order[|order| - 1]])
  }

  /** What the k-th call of `order` reports when the calls run one after another. */
  ghost function FoldOutcome(reqs: seq<Request>, order: seq<nat>, k: nat): Outcome
    requires InRange(reqs, order) && k < |order|
  {
    if Throws(Fold(reqs, order[..k]).begin, reqs[order[k]]) then DuplicateKey else Applied
  }

  // ---------- the transition system ----------

  datatype Pc =
    | Attempt(i: nat)
    | CopyBegin | CopyEnd | CopyException
    | EditBegin | EditEnd | EditException
    | PublishBegin | PublishEnd | PublishException
    | Release(pending: Outcome)
    | Ended(outcome: Outcome)

  /** `tries` counts the compare-and-swaps executed and `wrote` says whether the call has
      replaced a published dictionary; the program itself reads neither. */
  datatype Thread = Thread(
    pc: Pc,
    newBegin: Dictionary, newEnd: Dictionary, newException: Dictionary,
    tries: nat, wrote: bool)

  /** `acquired` lists the calls in the order in which they took the lock. */
  datatype State = State(lock: int, tables: Tables, threads: seq<Thread>, acquired: seq<nat>)

  const FRESH: Thread := Thread(Attempt(0), map[], map[], map[], 0, false)

  ghost function Init(reqs: seq<Request>): State {
    State(0, EMPTY, seq(|reqs|, i => FRESH), [])
  }

  predicate Inside(pc: Pc) {
    !pc.Attempt? && !pc.Ended?
  }

  function CompareExchange(s: State, t: nat): State
    requires t < |s.threads| && s.threads[t].pc.Attempt?
  {
    var th := s.threads[t].(tries := s.threads[t].tries + 1);
    if s.lock == 0 then
      State(1, s.tables, s.threads[t := th.(pc := CopyBegin)], s.acquired + [t])
    else if th.pc.i < MAX_ATTEMPTS - 1 then
      s.(threads := s.threads[t := th.(pc := Attempt(th.pc.i + 1))])
    else
      s.(threads := s.threads[t := th.(pc := Ended(Contention))])
  }

  /** One line of the critical section: its effect on the dictionaries and the locals. */
  function CriticalStep(tables: Tables, th: Thread, r: Request): (Tables, Thread)
    requires Inside(th.pc) && !th.pc.Release?
  {
    match th.pc
    case CopyBegin => (tables, th.(pc := CopyEnd, newBegin := tables.begin))
    case CopyEnd => (tables, th.(pc := CopyException, newEnd := tables.end))
    case CopyException => (tables, th.(pc := EditBegin, newException := tables.exception))
    case EditBegin =>
      if Throws(th.newBegin, r) then (tables, th.(pc := Release(DuplicateKey)))
      else (tables, th.(pc := EditEnd, newBegin := Edit(th.newBegin, r, Begin(r))))
    case EditEnd =>
      if Throws(th.newEnd, r) then (tables, th.(pc := Release(DuplicateKey)))
      else (tables, th.(pc := EditException, newEnd := Edit(th.newEnd, r, End(r))))
    case EditException =>
      if Throws(th.newException, r) then (tables, th.(pc := Release(DuplicateKey)))
      else (tables, th.(pc := PublishBegin, newException := Edit(th.newException, r, Exception(r))))
    case PublishBegin => (tables.(begin := th.newBegin), th.(pc := PublishEnd, wrote := true))
    case PublishEnd => (tables.(end := th.newEnd), th.(pc := PublishException, wrote := true))
    case PublishException =>
      (tables.(exception := th.newException), th.(pc := Release(Applied), wrote := true))
  }

  /** The next step of call t: one line of the source inside or around the lock. */
  function Step(reqs: seq<Request>, s: State, t: nat): State
    requires |s.threads| == |reqs|
  {
    if t >= |reqs| then s else
    var th := s.threads[t];
    match th.pc
    case Attempt(_) => CompareExchange(s, t)
    case Release(o) => State(0, s.tables, s.threads[t := th.(pc := Ended(o))], s.acquired)
    case Ended(_) => s
    case _ =>
      var (tables, th') := CriticalStep(s.tables, th, reqs[t]);
      State(s.lock, tables, s.threads[t := th'], s.acquired)
  }

  function Run(reqs: seq<Request>, s: State, schedule: seq<nat>): (r: State)
    requires |s.threads| == |reqs|
    ensures |r.threads| == |reqs|
  {
    if schedule == [] then s
    else Step(reqs, Run(reqs, s, schedule[..|schedule| - 1]), schedule[|schedule| - 1])
  }

  // ---------- the invariant ----------

  ghost predicate SameKeys(t: Tables) {
    t.begin.Keys == t.end.Keys == t.exception.Keys
  }

  lemma {:induction false} FoldSameKeys(reqs: seq<Request>, order: seq<nat>)
    requires InRange(reqs, order)
    ensures SameKeys(Fold(reqs, order))
  {
    if order != [] {
      FoldSameKeys(reqs, order[..|order| - 1]);
    }
  }

  /** The dictionaries before the call that now holds the lock. */
  ghost function Base(reqs: seq<Request>, s: State): Tables
    requires InRange(reqs, s.acquired) && s.acquired != []
  {
    Fold(reqs, s.acquired[..|s.acquired| - 1])
  }

  /** What is known about the holder's locals and the published dictionaries, line by line. */
  ghost predicate HolderOk(base: Tables, tables: Tables, th: Thread, r: Request) {
    var up := Updated(base, r);
    match th.pc
    case CopyBegin => tables == base && !th.wrote
    case CopyEnd => tables == base && !th.wrote && th.newBegin == base.begin
    case CopyException => tables == base && !th.wrote && th.newBegin == base.begin && th.newEnd == base.end
    case EditBegin =>
      tables == base && !th.wrote && Tables(th.newBegin, th.newEnd, th.newException) == base
    case EditEnd =>
      && tables == base && !th.wrote && !Throws(base.begin, r)
      && Tables(th.newBegin, th.newEnd, th.newException) == base.(begin := up.begin)
    case EditException =>
      && tables == base && !th.wrote && !Throws(base.begin, r)
      && Tables(th.newBegin, th.newEnd, th.newException) == up.(exception := base.exception)
    case PublishBegin =>
      && tables == base && !th.wrote && !Throws(base.begin, r)
      && Tables(th.newBegin, th.newEnd, th.newException) == up
    case PublishEnd =>
      && tables == base.(begin := up.begin) && th.wrote && !Throws(base.begin, r)
      && Tables(th.newBegin, th.newEnd, th.newException) == up
    case PublishException =>
      && tables == up.(exception := base.exception) && th.wrote && !Throws(base.begin, r)
      && Tables(th.newBegin, th.newEnd, th.newException) == up
    case Release(o) =>
      || (o == Applied && tables == up && th.wrote && !Throws(base.begin, r))
      || (o == DuplicateKey && tables == base && !th.wrote && Throws(base.begin, r))
    case _ => false
  }

  ghost predicate ThreadOk(s: State, t: nat)
    requires t < |s.threads|
  {
    var th := s.threads[t];
    match th.pc
    case Attempt(i) => i < MAX_ATTEMPTS && th.tries == i && t !in s.acquired && !th.wrote
    case Ended(Contention) => th.tries == MAX_ATTEMPTS && t !in s.acquired && !th.wrote
    case Ended(o) => 1 <= th.tries <= MAX_ATTEMPTS && t in s.acquired && (th.wrote <==> o == Applied)
    case _ =>
      && 1 <= th.tries <= MAX_ATTEMPTS
      && s.lock == 1 && s.acquired != [] && t == s.acquired[|s.acquired| - 1]
  }

  ghost predicate OutcomesOk(reqs: seq<Request>, s: State)
    requires InRange(reqs, s.acquired) && |s.threads| == |reqs|
  {
    forall k :: 0 <= k < |s.acquired| && s.threads[s.acquired[k]].pc.Ended? ==>
      s.threads[s.acquired[k]].pc.outcome == FoldOutcome(reqs, s.acquired, k)
  }

  ghost predicate Inv(reqs: seq<Request>, s: State) {
    && |s.threads| == |reqs|
    && InRange(reqs, s.acquired)
    && Distinct(s.acquired)
    && (s.lock == 0 || s.lock == 1)
    && (forall t :: 0 <= t < |reqs| ==> ThreadOk(s, t))
    && (s.lock == 0 ==> s.tables == Fold(reqs, s.acquired))
    && (s.lock == 1 ==>
          && s.acquired != []
          && var h := s.acquired[|s.acquired| - 1];
             HolderOk(Base(reqs, s), s.tables, s.threads[h], reqs[h]))
    && OutcomesOk(reqs, s)
  }

  lemma {:induction false} InitInv(reqs: seq<Request>)
    ensures Inv(reqs, Init(reqs))
  {
  }

  lemma {:induction false} FailedAttemptPreservesInv(reqs: seq<Request>, s: State, t: nat)
    requires Inv(reqs, s) && t < |reqs| && s.threads[t].pc.Attempt? && s.lock == 1
    ensures Inv(reqs, Step(reqs, s, t))
  {
    assert ThreadOk(s, t);
    var s' := Step(reqs, s, t);
    forall u | 0 <= u < |reqs| ensures ThreadOk(s', u) {
      assert ThreadOk(s, u);
    }
    forall k | 0 <= k < |s.acquired| ensures s'.threads[s.acquired[k]] == s.threads[s.acquired[k]] {
      assert s.acquired[k] in s.acquired;
    }
  }

  lemma {:induction false} AcquirePreservesInv(reqs: seq<Request>, s: State, t: nat)
    requires Inv(reqs, s) && t < |reqs| && s.threads[t].pc.Attempt? && s.lock == 0
    ensures Inv(reqs, Step(reqs, s, t))
  {
    assert ThreadOk(s, t);
    var s' := Step(reqs, s, t);
    forall u | 0 <= u < |reqs| ensures ThreadOk(s', u) {
      assert ThreadOk(s, u);
    }
    assert s'.acquired[..|s'.acquired| - 1] == s.acquired;
    AcquireKeepsOutcomes(reqs, s, s', t);
  }

  lemma {:induction false} AcquireKeepsOutcomes(reqs: seq<Request>, s: State, s': State, t: nat)
    requires |s.threads| == |reqs| == |s'.threads| && t < |reqs| && InRange(reqs, s.acquired) && OutcomesOk(reqs, s)
    requires s'.acquired == s.acquired + [t] && InRange(reqs, s'.acquired) && !s'.threads[t].pc.Ended?
    requires forall u :: 0 <= u < |reqs| && u != t ==> s'.threads[u] == s.threads[u]
    ensures OutcomesOk(reqs, s')
  {
    forall k | 0 <= k < |s'.acquired| && s'.threads[s'.acquired[k]].pc.Ended?
      ensures s'.threads[s'.acquired[k]].pc.outcome == FoldOutcome(reqs, s'.acquired, k)
    {
      assert s'.acquired[..k] == s.acquired[..k];
    }
  }

  lemma {:induction false} CriticalStepOk(base: Tables, tables: Tables, th: Thread, r: Request)
    requires SameKeys(base) && HolderOk(base, tables, th, r) && !th.pc.Release?
    ensures Inside(th.pc)
    ensures var (tables', th') := CriticalStep(tables, th, r);
      HolderOk(base, tables', th', r) && Inside(th'.pc) && th'.tries == th.tries
  {
    if th.pc.CopyBegin? || th.pc.CopyEnd? || th.pc.CopyException? {
      CopyStepOk(base, tables, th, r);
    } else if th.pc.EditBegin? || th.pc.EditEnd? || th.pc.EditException? {
      EditStepOk(base, tables, th, r);
    } else {
      PublishStepOk(base, tables, th, r);
    }
  }

  lemma {:induction false} CopyStepOk(base: Tables, tables: Tables, th: Thread, r: Request)
    requires SameKeys(base) && HolderOk(base, tables, th, r)
    requires th.pc.CopyBegin? || th.pc.CopyEnd? || th.pc.CopyException?
    ensures var (tables', th') := CriticalStep(tables, th, r);
      HolderOk(base, tables', th', r) && Inside(th'.pc) && th'.tries == th.tries
  {
  }

  lemma {:induction false} EditStepOk(base: Tables, tables: Tables, th: Thread, r: Request)
    requires SameKeys(base) && HolderOk(base, tables, th, r)
    requires th.pc.EditBegin? || th.pc.EditEnd? || th.pc.EditException?
    ensures var (tables', th') := CriticalStep(tables, th, r);
      HolderOk(base, tables', th', r) && Inside(th'.pc) && th'.tries == th.tries
  {
  }

  lemma {:induction false} PublishStepOk(base: Tables, tables: Tables, th: Thread, r: Request)
    requires HolderOk(base, tables, th, r)
    requires th.pc.PublishBegin? || th.pc.PublishEnd? || th.pc.PublishException?
    ensures var (tables', th') := CriticalStep(tables, th, r);
      HolderOk(base, tables', th', r) && Inside(th'.pc) && th'.tries == th.tries
  {
  }

  /** A step inside the critical section that does not end it. */
  lemma {:induction false} InsidePreservesInv(reqs: seq<Request>, s: State, t: nat)
    requires Inv(reqs, s) && t < |reqs|
    requires Inside(s.threads[t].pc) && !s.threads[t].pc.Release?
    ensures Inv(reqs, Step(reqs, s, t))
  {
    assert ThreadOk(s, t);
    FoldSameKeys(reqs, s.acquired[..|s.acquired| - 1]);
    CriticalStepOk(Base(reqs, s), s.tables, s.threads[t], reqs[t]);
    var s' := Step(reqs, s, t);
    forall u | 0 <= u < |reqs| ensures ThreadOk(s', u) {
      assert ThreadOk(s, u);
    }
  }

  lemma {:induction false} ReleasePreservesInv(reqs: seq<Request>, s: State, t: nat)
    requires Inv(reqs, s) && t < |reqs| && s.threads[t].pc.Release?
    ensures Inv(reqs, Step(reqs, s, t))
  {
    assert ThreadOk(s, t);
    var s' := Step(reqs, s, t);
    forall u | 0 <= u < |reqs| ensures ThreadOk(s', u) {
      assert ThreadOk(s, u);
    }
    assert s.acquired[..|s.acquired| - 1] == s'.acquired[..|s'.acquired| - 1];
  }

  lemma {:induction false} StepPreservesInv(reqs: seq<Request>, s: State, t: nat)
    requires Inv(reqs, s)
    ensures Inv(reqs, Step(reqs, s, t))
  {
    if t < |reqs| {
      match s.threads[t].pc
      case Attempt(_) =>
        if s.lock == 0 { AcquirePreservesInv(reqs, s, t); } else { FailedAttemptPreservesInv(reqs, s, t); }
      case Ended(_) =>
      case Release(_) => ReleasePreservesInv(reqs, s, t);
      case _ => InsidePreservesInv(reqs, s, t);
    }
  }

  lemma {:induction false} RunPreservesInv(reqs: seq<Request>, s: State, schedule: seq<nat>)
    requires Inv(reqs, s)
    ensures Inv(reqs, Run(reqs, s, schedule))
  {
    if schedule != [] {
      RunPreservesInv(reqs, s, schedule[..|schedule| - 1]);
      StepPreservesInv(reqs, Run(reqs, s, schedule[..|schedule| - 1]), schedule[|schedule| - 1]);
    }
  }

  /** The state after any interleaving of any calls, from the static initial values. */
  ghost function Reached(reqs: seq<Request>, schedule: seq<nat>): State {
    Run(reqs, Init(reqs), schedule)
  }

  lemma {:induction false} ReachedInv(reqs: seq<Request>, schedule: seq<nat>)
    ensures Inv(reqs, Reached(reqs, schedule))
  {
    InitInv(reqs);
    RunPreservesInv(reqs, Init(reqs), schedule);
  }

  // ---------- main results, for every set of calls and every schedule ----------

  /** The lock is 1 exactly when some call is inside, and never two calls are. */
  lemma {:induction false} MutualExclusion(reqs: seq<Request>, schedule: seq<nat>)
    ensures var s := Reached(reqs, schedule);
      && (s.lock == 1 <==> exists t :: 0 <= t < |reqs| && Inside(s.threads[t].pc))
      && (s.lock == 0 || s.lock == 1)
      && forall t, u | 0 <= t < |reqs| && 0 <= u < |reqs| && Inside(s.threads[t].pc) && Inside(s.threads[u].pc) ::
           t == u
  {
    ReachedInv(reqs, schedule);
    var s := Reached(reqs, schedule);
    assert forall t :: 0 <= t < |reqs| ==> ThreadOk(s, t);
    if s.lock == 1 {
      var h := s.acquired[|s.acquired| - 1];
      assert HolderOk(Base(reqs, s), s.tables, s.threads[h], reqs[h]);
      assert Inside(s.threads[h].pc);
    }
    forall t, u | 0 <= t < |reqs| && 0 <= u < |reqs| && Inside(s.threads[t].pc) && Inside(s.threads[u].pc)
      ensures t == u && s.lock == 1
    {
      assert ThreadOk(s, t) && ThreadOk(s, u);
    }
  }

  /** Whenever the lock is free the dictionaries are those of running the finished calls
      one by one in lock order, each finished call reported what it reports in that
      sequential run, and the finished calls are exactly those of the order. */
  lemma {:induction false} NoLostUpdates(reqs: seq<Request>, schedule: seq<nat>)
    requires Reached(reqs, schedule).lock == 0
    ensures var s := Reached(reqs, schedule);
      && InRange(reqs, s.acquired) && Distinct(s.acquired)
      && s.tables == Fold(reqs, s.acquired)
      && (forall k :: 0 <= k < |s.acquired| ==>
            s.threads[s.acquired[k]].pc == Ended(FoldOutcome(reqs, s.acquired, k)))
      && (forall t :: 0 <= t < |reqs| ==>
            (t in s.acquired <==> s.threads[t].pc == Ended(Applied) || s.threads[t].pc == Ended(DuplicateKey)))
  {
    ReachedInv(reqs, schedule);
    var s := Reached(reqs, schedule);
    forall k | 0 <= k < |s.acquired|
      ensures s.threads[s.acquired[k]].pc == Ended(FoldOutcome(reqs, s.acquired, k))
    {
      assert s.acquired[k] in s.acquired;
      assert ThreadOk(s, s.acquired[k]);
    }
    forall t | 0 <= t < |reqs|
      ensures t in s.acquired <==> s.threads[t].pc == Ended(Applied) || s.threads[t].pc == Ended(DuplicateKey)
    {
      assert ThreadOk(s, t);
    }
  }

  /** Outside the lock the key sets agree; inside they differ at most on the holder's id,
      nested begin over end over exception during an Add and the other way in a Remove. */
  lemma {:induction false} PublicationOrder(reqs: seq<Request>, schedule: seq<nat>)
    ensures var s := Reached(reqs, schedule);
      && (s.lock == 0 ==> SameKeys(s.tables))
      && forall t :: 0 <= t < |reqs| && Inside(s.threads[t].pc) ==>
           var id := {reqs[t].methodId};
           && s.tables.begin.Keys - id == s.tables.end.Keys - id == s.tables.exception.Keys - id
           && (reqs[t].Add? ==> s.tables.exception.Keys <= s.tables.end.Keys <= s.tables.begin.Keys)
           && (reqs[t].Remove? ==> s.tables.begin.Keys <= s.tables.end.Keys <= s.tables.exception.Keys)
  {
    ReachedInv(reqs, schedule);
    var s := Reached(reqs, schedule);
    if s.lock == 0 {
      FoldSameKeys(reqs, s.acquired);
    }
    forall t | 0 <= t < |reqs| && Inside(s.threads[t].pc)
      ensures
        var id := {reqs[t].methodId};
        && s.tables.begin.Keys - id == s.tables.end.Keys - id == s.tables.exception.Keys - id
        && (reqs[t].Add? ==> s.tables.exception.Keys <= s.tables.end.Keys <= s.tables.begin.Keys)
        && (reqs[t].Remove? ==> s.tables.begin.Keys <= s.tables.end.Keys <= s.tables.exception.Keys)
    {
      assert ThreadOk(s, t);
      FoldSameKeys(reqs, s.acquired[..|s.acquired| - 1]);
      HolderKeys(Base(reqs, s), s.tables, s.threads[t], reqs[t]);
    }
  }

  lemma {:induction false} HolderKeys(base: Tables, tables: Tables, th: Thread, r: Request)
    requires SameKeys(base) && HolderOk(base, tables, th, r)
    ensures var id := {r.methodId};
      && tables.begin.Keys - id == tables.end.Keys - id == tables.exception.Keys - id
      && (r.Add? ==> tables.exception.Keys <= tables.end.Keys <= tables.begin.Keys)
      && (r.Remove? ==> tables.begin.Keys <= tables.end.Keys <= tables.exception.Keys)
  {
  }

  /** Of the three Adds only the first can throw: once it has passed, the other two pass. */
  lemma {:induction false} OnlyTheFirstAddThrows(reqs: seq<Request>, schedule: seq<nat>, t: nat)
    requires t < |reqs|
    ensures var th := Reached(reqs, schedule).threads[t];
      && (th.pc == EditEnd ==> !Throws(th.newEnd, reqs[t]))
      && (th.pc == EditException ==> !Throws(th.newException, reqs[t]))
  {
    ReachedInv(reqs, schedule);
    var s := Reached(reqs, schedule);
    assert ThreadOk(s, t);
    if s.lock == 1 {
      FoldSameKeys(reqs, s.acquired[..|s.acquired| - 1]);
    }
  }

  /** Every call makes at most 20 attempts; one that has ended does not hold the lock, has
      published exactly when it reports success, and gives up only after 20 failures. */
  lemma {:induction false} CallOutcomes(reqs: seq<Request>, schedule: seq<nat>, t: nat)
    requires t < |reqs|
    ensures var s := Reached(reqs, schedule);
      var th := s.threads[t];
      && th.tries <= 20
      && (th.pc.Ended? ==>
            && (th.wrote <==> th.pc.outcome == Applied)
            && (th.pc.outcome == Contention <==> t !in s.acquired)
            && (th.pc.outcome == Contention ==> th.tries == 20)
            && (th.pc.outcome == DuplicateKey ==> reqs[t].Add?))
      && (th.pc.Ended? && s.lock == 1 ==> s.acquired != [] && t != s.acquired[|s.acquired| - 1])
  {
    ReachedInv(reqs, schedule);
    var s := Reached(reqs, schedule);
    assert ThreadOk(s, t);
    if s.threads[t].pc.Ended? && t in s.acquired {
      var k :| 0 <= k < |s.acquired| && s.acquired[k] == t;
      assert s.threads[t].pc.outcome == FoldOutcome(reqs, s.acquired, k);
    }
  }

  lemma {:induction false} StepKeepsWrote(reqs: seq<Request>, s: State, u: nat, t: nat)
    requires |s.threads| == |reqs| && t < |reqs| && s.threads[t].wrote
    ensures Step(reqs, s, u).threads[t].wrote
  {
  }

  lemma {:induction false} WroteStays(reqs: seq<Request>, s: State, schedule: seq<nat>, t: nat)
    requires |s.threads| == |reqs| && t < |reqs| && s.threads[t].wrote
    ensures Run(reqs, s, schedule).threads[t].wrote
  {
    if schedule != [] {
      var n := |schedule| - 1;
      WroteStays(reqs, s, schedule[..n], t);
      StepKeepsWrote(reqs, Run(reqs, s, schedule[..n]), schedule[n], t);
    }
  }

  /** A call that ends in either throw never changed a dictionary at any of its steps. */
  lemma {:induction false} FailedCallChangedNothing(reqs: seq<Request>, schedule: seq<nat>, k: nat, t: nat)
    requires k < |schedule| && schedule[k] == t && t < |reqs|
    requires Reached(reqs, schedule).threads[t].pc.Ended?
    requires Reached(reqs, schedule).threads[t].pc.outcome != Applied
    ensures Reached(reqs, schedule[..k + 1]).tables == Reached(reqs, schedule[..k]).tables
  {
    var before, after := Reached(reqs, schedule[..k]), Reached(reqs, schedule[..k + 1]);
    assert schedule[..k + 1][..k] == schedule[..k];
    if after.tables != before.tables {
      assert after.threads[t].wrote;
      assert schedule == schedule[..k + 1] + schedule[k + 1..];
      RunAppend(reqs, Init(reqs), schedule[..k + 1], schedule[k + 1..]);
      WroteStays(reqs, after, schedule[k + 1..], t);
      CallOutcomes(reqs, schedule, t);
    }
  }

  lemma {:induction false} RunAppend(reqs: seq<Request>, s: State, first: seq<nat>, rest: seq<nat>)
    requires |s.threads| == |reqs|
    ensures Run(reqs, s, first + rest) == Run(reqs, Run(reqs, s, first), rest)
  {
    if rest == [] {
      assert first + rest == first;
    } else {
      assert (first + rest)[..|first + rest| - 1] == first + rest[..|rest| - 1];
      RunAppend(reqs, s, first, rest[..|rest| - 1]);
    }
  }

  /** A lock-free reader of any of the three tables sees the sequential table after all the
      calls that took the lock, or after all but the last of them: never a torn dictionary.
      Of the three the begin table is never behind the end table, nor that behind the
      exception table, and outside the lock all are up to date. */
  lemma {:induction false} ReadersSeePrefixes(reqs: seq<Request>, schedule: seq<nat>)
    ensures var s := Reached(reqs, schedule);
      && InRange(reqs, s.acquired)
      && exists b, e, x :: SeenPrefixes(reqs, s, b, e, x)
  {
    ReachedInv(reqs, schedule);
    var s := Reached(reqs, schedule);
    var n := |s.acquired|;
    assert s.acquired[..n] == s.acquired;
    if s.lock == 0 {
      assert SeenPrefixes(reqs, s, n, n, n);
    } else {
      var h := s.acquired[n - 1];
      assert ThreadOk(s, h);
      HolderSees(reqs, s, s.threads[h]);
    }
  }

  /** The tables are those after the first b, e and x calls in lock order. */
  ghost predicate SeenPrefixes(reqs: seq<Request>, s: State, b: nat, e: nat, x: nat)
    requires InRange(reqs, s.acquired)
  {
    var n := |s.acquired|;
    && n - 1 <= x <= e <= b <= n && (s.lock == 0 ==> x == n)
    && s.tables.begin == Fold(reqs, s.acquired[..b]).begin
    && s.tables.end == Fold(reqs, s.acquired[..e]).end
    && s.tables.exception == Fold(reqs, s.acquired[..x]).exception
  }

  lemma {:induction false} HolderSees(reqs: seq<Request>, s: State, th: Thread)
    requires InRange(reqs, s.acquired) && s.acquired != [] && s.lock == 1
    requires HolderOk(Base(reqs, s), s.tables, th, reqs[s.acquired[|s.acquired| - 1]])
    ensures exists b, e, x :: SeenPrefixes(reqs, s, b, e, x)
  {
    var n := |s.acquired|;
    var r := reqs[s.acquired[n - 1]];
    assert s.acquired[..n] == s.acquired;
    assert !Throws(Base(reqs, s).begin, r) ==> Fold(reqs, s.acquired) == Updated(Base(reqs, s), r);
    if th.pc == PublishEnd {
      assert SeenPrefixes(reqs, s, n, n - 1, n - 1);
    } else if th.pc == PublishException {
      assert SeenPrefixes(reqs, s, n, n, n - 1);
    } else if th.pc == Release(Applied) {
      assert SeenPrefixes(reqs, s, n, n, n);
    } else {
      assert SeenPrefixes(reqs, s, n - 1, n - 1, n - 1);
    }
  }

  // ---------- what the readers find ----------

  /** OnBegin, OnEnd and OnException: the delegate that runs, Null when none does. */
  function Lookup(d: Dictionary, methodId: int): Delegate {
    if methodId in d then d[methodId] else Null
  }

  ghost predicate OwnsItsId(reqs: seq<Request>, t: nat)
    requires t < |reqs|
  {
    reqs[t].Add? && forall u :: 0 <= u < |reqs| && u != t ==> reqs[u].methodId != reqs[t].methodId
  }

  lemma {:induction false} FoldOfOwnedId(reqs: seq<Request>, order: seq<nat>, t: nat)
    requires InRange(reqs, order) && Distinct(order) && t < |reqs| && OwnsItsId(reqs, t)
    ensures var f := Fold(reqs, order);
      var id := reqs[t].methodId;
      if t in order then
        && id in f.begin && f.begin[id] == reqs[t].onBegin
        && id in f.end && f.end[id] == reqs[t].onEnd
        && id in f.exception && f.exception[id] == reqs[t].onException
      else
        id !in f.begin && id !in f.end && id !in f.exception
  {
    if order != [] {
      var n := |order| - 1;
      assert order == order[..n] + [order[n]];
      FoldOfOwnedId(reqs, order[..n], t);
      FoldSameKeys(reqs, order[..n]);
    }
  }

  /** A half-published call leaves every other id's entries as they were. */
  lemma {:induction false} HolderLeavesOtherIds(base: Tables, tables: Tables, th: Thread, r: Request, id: int)
    requires HolderOk(base, tables, th, r) && id != r.methodId
    ensures Lookup(tables.begin, id) == Lookup(base.begin, id)
    ensures Lookup(tables.end, id) == Lookup(base.end, id)
    ensures Lookup(tables.exception, id) == Lookup(base.exception, id)
  {
  }

  ghost predicate Found(t: Tables, r: Request)
    requires r.Add?
  {
    && Lookup(t.begin, r.methodId) == r.onBegin
    && Lookup(t.end, r.methodId) == r.onEnd
    && Lookup(t.exception, r.methodId) == r.onException
  }

  /** However many calls race, an Add whose id no other call uses never reports a duplicate
      key, and once it has succeeded every reader finds its three delegates. */
  lemma {:induction false} AddedCallbacksAreFound(reqs: seq<Request>, schedule: seq<nat>, t: nat)
    requires t < |reqs| && OwnsItsId(reqs, t)
    ensures var s := Reached(reqs, schedule);
      && s.threads[t].pc != Ended(DuplicateKey)
      && (s.threads[t].pc == Ended(Applied) ==> Found(s.tables, reqs[t]))
  {
    ReachedInv(reqs, schedule);
    var s := Reached(reqs, schedule);
    assert ThreadOk(s, t);
    if s.threads[t].pc.Ended? && t in s.acquired {
      var k :| 0 <= k < |s.acquired| && s.acquired[k] == t;
      FoldOfOwnedId(reqs, s.acquired[..k], t);
      assert s.threads[t].pc.outcome == FoldOutcome(reqs, s.acquired, k);
      if s.lock == 0 {
        FoldOfOwnedId(reqs, s.acquired, t);
      } else {
        EndedIsFoundDuring(reqs, s, t);
      }
    }
  }

  lemma {:induction false} EndedIsFoundDuring(reqs: seq<Request>, s: State, t: nat)
    requires Inv(reqs, s) && s.lock == 1
    requires t < |reqs| && OwnsItsId(reqs, t) && t in s.acquired && s.threads[t].pc.Ended?
    ensures Found(s.tables, reqs[t])
  {
    var n := |s.acquired| - 1;
    var h := s.acquired[n];
    assert s.acquired == s.acquired[..n] + [h];
    assert HolderOk(Base(reqs, s), s.tables, s.threads[h], reqs[h]);
    FoldOfOwnedId(reqs, s.acquired[..n], t);
    HolderLeavesOtherIds(Base(reqs, s), s.tables, s.threads[h], reqs[h], reqs[t].methodId);
  }

  // ---------- what the tables hold ----------

  /** The k-th call of `order` adds the id, and no later one removes it. */
  ghost predicate Standing(reqs: seq<Request>, order: seq<nat>, id: int, k: nat)
    requires InRange(reqs, order) && k < |order|
  {
    && reqs[order[k]].Add? && reqs[order[k]].methodId == id
    && forall j :: k < j < |order| ==> reqs[order[j]] != Remove(id)
  }

  /** It is the first Add of the id since the last Remove of it. */
  ghost predicate FirstStanding(reqs: seq<Request>, order: seq<nat>, id: int, k: nat)
    requires InRange(reqs, order) && k < |order|
  {
    Standing(reqs, order, id, k) && forall j :: 0 <= j < k ==> !Standing(reqs, order, id, j)
  }

  ghost predicate HoldsDelegatesOf(t: Tables, id: int, r: Request) {
    && r.Add?
    && id in t.begin && t.begin[id] == r.onBegin
    && id in t.end && t.end[id] == r.onEnd
    && id in t.exception && t.exception[id] == r.onException
  }

  ghost predicate HoldsNothing(t: Tables, id: int) {
    id !in t.begin && id !in t.end && id !in t.exception
  }

  lemma {:induction false} OneCallMore(reqs: seq<Request>, order: seq<nat>, id: int, k: nat)
    requires InRange(reqs, order) && k < |order|
    ensures
      var n := |order| - 1;
      Standing(reqs, order, id, k) <==>
        if k == n then reqs[order[n]].Add? && reqs[order[n]].methodId == id
        else Standing(reqs, order[..n], id, k) && reqs[order[n]] != Remove(id)
  {
    var n := |order| - 1;
    if k < n && Standing(reqs, order[..n], id, k) && reqs[order[n]] != Remove(id) {
      forall j | k < j < |order| ensures reqs[order[j]] != Remove(id) {
        assert j < n ==> order[..n][j] == order[j];
      }
    }
  }

  /** The tables hold what the calls so far say, for one id. */
  ghost predicate AsSaid(reqs: seq<Request>, order: seq<nat>, id: int, t: Tables)
    requires InRange(reqs, order)
  {
    && (forall k :: 0 <= k < |order| && FirstStanding(reqs, order, id, k) ==>
          HoldsDelegatesOf(t, id, reqs[order[k]]))
    && (forall k :: 0 <= k < |order| && Standing(reqs, order, id, k) ==> id in t.begin)
    && ((forall k :: 0 <= k < |order| ==> !Standing(reqs, order, id, k)) ==> HoldsNothing(t, id))
  }

  lemma {:induction false} OneCallHolds(reqs: seq<Request>, order: seq<nat>, id: int, t: Tables)
    requires InRange(reqs, order) && order != [] && SameKeys(t)
    requires AsSaid(reqs, order[..|order| - 1], id, t)
    ensures AsSaid(reqs, order, id, Sequential(t, reqs[order[|order| - 1]]))
  {
    var n := |order| - 1;
    forall k | 0 <= k <= n
      ensures Standing(reqs, order, id, k) <==>
        if k == n then reqs[order[n]].Add? && reqs[order[n]].methodId == id
        else Standing(reqs, order[..n], id, k) && reqs[order[n]] != Remove(id)
    {
      OneCallMore(reqs, order, id, k);
    }
    assert forall k :: 0 <= k < n ==> order[..n][k] == order[k];
    if reqs[order[n]].methodId == id && reqs[order[n]].Add? {
      assert Standing(reqs, order, id, n);
      forall k | 0 <= k <= n && FirstStanding(reqs, order, id, k)
        ensures if k == n then id !in t.begin else FirstStanding(reqs, order[..n], id, k)
      {
        FirstOneCallMore(reqs, order, id, k);
      }
    } else if reqs[order[n]] != Remove(id) {
      forall k | 0 <= k < n && FirstStanding(reqs, order, id, k) ensures FirstStanding(reqs, order[..n], id, k) {
        FirstOneCallMore(reqs, order, id, k);
      }
    }
  }

  lemma {:induction false} FirstOneCallMore(reqs: seq<Request>, order: seq<nat>, id: int, k: nat)
    requires InRange(reqs, order) && k < |order| && FirstStanding(reqs, order, id, k)
    ensures
      var n := |order| - 1;
      reqs[order[n]] != Remove(id) ==>
        if k == n then forall j :: 0 <= j < n ==> !Standing(reqs, order[..n], id, j)
        else FirstStanding(reqs, order[..n], id, k)
  {
    var n := |order| - 1;
    OneCallMore(reqs, order, id, k);
    forall j | 0 <= j < k && reqs[order[n]] != Remove(id) ensures !Standing(reqs, order[..n], id, j) {
      OneCallMore(reqs, order, id, j);
    }
  }

  lemma {:induction false} SequentialHolds(reqs: seq<Request>, order: seq<nat>, id: int)
    requires InRange(reqs, order)
    ensures AsSaid(reqs, order, id, Fold(reqs, order))
  {
    if order != [] {
      var n := |order| - 1;
      SequentialHolds(reqs, order[..n], id);
      FoldSameKeys(reqs, order[..n]);
      OneCallHolds(reqs, order, id, Fold(reqs, order[..n]));
    }
  }

  /** Whenever the lock is free the tables hold under every id the three delegates of the first
      Add since the last Remove of that id in lock order, and nothing, so that readers find
      Null, if there is no such Add. */
  lemma {:induction false} TablesHoldFirstAdds(reqs: seq<Request>, schedule: seq<nat>, id: int)
    requires Reached(reqs, schedule).lock == 0
    ensures
      var s := Reached(reqs, schedule);
      && InRange(reqs, s.acquired) && Distinct(s.acquired)
      && (forall k :: 0 <= k < |s.acquired| && FirstStanding(reqs, s.acquired, id, k) ==>
            HoldsDelegatesOf(s.tables, id, reqs[s.acquired[k]]))
      && ((forall k :: 0 <= k < |s.acquired| ==> !Standing(reqs, s.acquired, id, k)) ==>
            HoldsNothing(s.tables, id)
            && Lookup(s.tables.begin, id) == Lookup(s.tables.end, id) == Lookup(s.tables.exception, id) == Null)
  {
    ReachedInv(reqs, schedule);
    SequentialHolds(reqs, Reached(reqs, schedule).acquired, id);
  }

  /** And the k-th call in lock order ended with a duplicate key exactly if it is an Add behind
      an Add of its id that was still standing; otherwise it was applied. */
  lemma {:induction false} DuplicateIffStanding(reqs: seq<Request>, schedule: seq<nat>, k: nat)
    requires Reached(reqs, schedule).lock == 0 && k < |Reached(reqs, schedule).acquired|
    ensures
      var s := Reached(reqs, schedule);
      && InRange(reqs, s.acquired)
      && var (t, before) := (s.acquired[k], s.acquired[..k]);
         s.threads[t].pc == Ended(
           if reqs[t].Add? && exists j :: 0 <= j < k && Standing(reqs, before, reqs[t].methodId, j)
           then DuplicateKey else Applied)
  {
    NoLostUpdates(reqs, schedule);
    var s := Reached(reqs, schedule);
    SequentialHolds(reqs, s.acquired[..k], reqs[s.acquired[k]].methodId);
  }

  /** The first of several standing Adds exists, so the two cases above are all there are. */
  lemma {:induction false} FirstOfTheStanding(reqs: seq<Request>, order: seq<nat>, id: int, k: nat) returns (i: nat)
    requires InRange(reqs, order) && k < |order| && Standing(reqs, order, id, k)
    ensures i <= k && FirstStanding(reqs, order, id, i)
  {
    if j: nat :| j < k && Standing(reqs, order, id, j) {
      i := FirstOfTheStanding(reqs, order, id, j);
    } else {
      i := k;
    }
  }

  /** Just before it frees the lock, a call that has not thrown has left the tables with its
      delegates under its id, or without the id if it is a Remove. */
  lemma {:induction false} AppliedCallHasEdited(reqs: seq<Request>, schedule: seq<nat>, t: nat)
    requires t < |reqs| && Reached(reqs, schedule).threads[t].pc == Release(Applied)
    ensures
      var s := Reached(reqs, schedule);
      if reqs[t].Add? then HoldsDelegatesOf(s.tables, reqs[t].methodId, reqs[t])
      else HoldsNothing(s.tables, reqs[t].methodId)
  {
    ReachedInv(reqs, schedule);
    assert ThreadOk(Reached(reqs, schedule), t);
  }

  /** And one that has thrown is an Add of an id that all three tables hold. */
  lemma {:induction false} ThrownCallFoundItsId(reqs: seq<Request>, schedule: seq<nat>, t: nat)
    requires t < |reqs| && Reached(reqs, schedule).threads[t].pc == Release(DuplicateKey)
    ensures
      var s := Reached(reqs, schedule);
      && reqs[t].Add? && reqs[t].methodId in s.tables.begin
      && reqs[t].methodId in s.tables.end && reqs[t].methodId in s.tables.exception
  {
    ReachedInv(reqs, schedule);
    var s := Reached(reqs, schedule);
    assert ThreadOk(s, t);
    FoldSameKeys(reqs, s.acquired[..|s.acquired| - 1]);
  }

  // ---------- progress ----------

  function StepsLeft(pc: Pc): nat {
    match pc
    case Attempt(_) => 11
    case CopyBegin => 10 case CopyEnd => 9 case CopyException => 8
    case EditBegin => 7 case EditEnd => 6 case EditException => 5
    case PublishBegin => 4 case PublishEnd => 3 case PublishException => 2
    case Release(_) => 1
    case Ended(_) => 0
  }

  /** No deadlock: from every reachable state a call that is inside, or any waiting call
      when the lock is free, ends within eleven steps of its own, frees the lock and does
      not report contention. */
  lemma {:induction false} CanAlwaysEnd(reqs: seq<Request>, s: State, t: nat) returns (n: nat)
    requires Inv(reqs, s) && t < |reqs|
    requires Inside(s.threads[t].pc) || (s.threads[t].pc.Attempt? && s.lock == 0)
    ensures 0 < n <= StepsLeft(s.threads[t].pc)
    ensures var s' := Run(reqs, s, seq(n, i => t));
      s'.lock == 0 && s'.threads[t].pc.Ended? && s'.threads[t].pc.outcome != Contention
    decreases StepsLeft(s.threads[t].pc)
  {
    var s1 := Step(reqs, s, t);
    OneStepOn(reqs, s, t);
    if s1.threads[t].pc.Ended? {
      n := 1;
      assert seq(1, i => t) == [t];
      RunCons(reqs, s, t, []);
    } else {
      var m := CanAlwaysEnd(reqs, s1, t);
      n := m + 1;
      assert seq(n, i => t) == [t] + seq(m, i => t);
      RunCons(reqs, s, t, seq(m, i => t));
    }
  }

  lemma {:induction false} OneStepOn(reqs: seq<Request>, s: State, t: nat)
    requires Inv(reqs, s) && t < |reqs|
    requires Inside(s.threads[t].pc) || (s.threads[t].pc.Attempt? && s.lock == 0)
    ensures
      var s1 := Step(reqs, s, t);
      Inv(reqs, s1) &&
      if s1.threads[t].pc.Ended? then s1.lock == 0 && s1.threads[t].pc.outcome != Contention
      else Inside(s1.threads[t].pc) && StepsLeft(s1.threads[t].pc) < StepsLeft(s.threads[t].pc)
  {
    StepPreservesInv(reqs, s, t);
    ReleasesWithAnOutcome(reqs, s, t);
    StepAdvances(reqs, s, t);
  }

  lemma {:induction false} ReleasesWithAnOutcome(reqs: seq<Request>, s: State, t: nat)
    requires Inv(reqs, s) && t < |reqs|
    ensures s.threads[t].pc.Release? ==> s.threads[t].pc.pending != Contention
  {
    assert ThreadOk(s, t);
  }

  lemma {:induction false} StepAdvances(reqs: seq<Request>, s: State, t: nat)
    requires |s.threads| == |reqs| && t < |reqs|
    requires Inside(s.threads[t].pc) || (s.threads[t].pc.Attempt? && s.lock == 0)
    requires s.threads[t].pc.Release? ==> s.threads[t].pc.pending != Contention
    ensures
      var s1 := Step(reqs, s, t);
      if s1.threads[t].pc.Ended? then s1.lock == 0 && s1.threads[t].pc.outcome != Contention
      else Inside(s1.threads[t].pc) && StepsLeft(s1.threads[t].pc) < StepsLeft(s.threads[t].pc)
  {
  }

  lemma {:induction false} RunCons(reqs: seq<Request>, s: State, t: nat, rest: seq<nat>)
    requires |s.threads| == |reqs|
    ensures Run(reqs, s, [t] + rest) == Run(reqs, Step(reqs, s, t), rest)
  {
    var all := [t] + rest;
    if rest == [] {
      assert all[..|all| - 1] == [];
    } else {
      assert all[..|all| - 1] == [t] + rest[..|rest| - 1];
      RunCons(reqs, s, t, rest[..|rest| - 1]);
    }
  }
}
