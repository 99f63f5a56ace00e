/** AddCallbacks and RemoveCallbacks in the form of PublicContract.cs: a retry loop over
    static fields, with the other calls running between any two accesses.  The methods are
    proved to walk the transition system of CallbackRegistry, so its results hold of them. */
module PublicContract {
  import opened CallbackRegistry

  class StaticTables {
    const reqs: seq<Request>
    // BCB<int>.Lock and the three static dictionaries
    var lock: int
    var begin: Dictionary
    var end: Dictionary
    var exception: Dictionary
    // the locals of all calls in flight and the history
    var threads: seq<Thread>
    var acquired: seq<nat>
    ghost var schedule: seq<nat>

    function Now(): State
      reads this
    {
      State(lock, Tables(begin, end, exception), threads, acquired)
    }

    ghost predicate Valid()
      reads this
    {
      |threads| == |reqs| && Now() == Reached(reqs, schedule)
    }

    constructor (reqs: seq<Request>)
      ensures Valid() && this.reqs == reqs && schedule == []
    {
      this.reqs := reqs;
      lock := 0;
      begin, end, exception := map[], map[], map[];
      threads := seq(|reqs|, i => FRESH);
      acquired := [];
      schedule := [];
    }

    /** Another call takes its next step. */
    method OtherStep(t: nat, u: nat)
      requires Valid() && t < |reqs| && u != t
      modifies this
      ensures Valid() && threads[t] == old(threads[t]) && schedule == old(schedule) + [u]
    {
      var s := Step(reqs, Now(), u);
      StepLeavesOthers(reqs, Now(), u, t);
      ReachedSnoc(reqs, schedule, u);
      lock, threads, acquired := s.lock, s.threads, s.acquired;
      begin, end, exception := s.tables.begin, s.tables.end, s.tables.exception;
      schedule := schedule + [u];
    }

    /** The other calls take the steps of `others`; call t takes none. */
    method Interleave(t: nat, others: seq<nat>)
      requires Valid() && t < |reqs| && t !in others
      modifies this
      ensures Valid() && threads[t] == old(threads[t])
      ensures old(schedule) <= schedule == old(schedule) + others
    {
      for k := 0 to |others|
        invariant Valid() && threads[t] == old(threads[t]) && schedule == old(schedule) + others[..k]
      {
        OtherStep(t, others[k]);
        assert others[..k + 1] == others[..k] + [others[k]];
      }
      assert others[..|others|] == others;
    }

    /** Records that call t has just made the step that leaves its locals at `th`. */
    method Tick(t: nat, th: Thread)
      requires |threads| == |reqs| && t < |reqs|
      requires Now().(threads := threads[t := th]) == Step(reqs, Reached(reqs, schedule), t)
      modifies this`threads, this`schedule
      ensures Valid() && threads == old(threads)[t := th] && schedule == old(schedule) + [t]
    {
      ReachedSnoc(reqs, schedule, t);
      threads := threads[t := th];
      schedule := schedule + [t];
    }

    // ---------- the statements of the try block, one access each ----------

    method CopyBeginTable(t: nat) returns (newBegin: Dictionary)
      requires Valid() && t < |reqs| && threads[t].pc == CopyBegin
      modifies this
      ensures Valid() && old(schedule) <= schedule
      ensures newBegin == old(begin) && threads[t] == old(threads[t]).(pc := CopyEnd, newBegin := newBegin)
    {
      newBegin := begin;
      Tick(t, threads[t].(pc := CopyEnd, newBegin := newBegin));
    }

    method CopyEndTable(t: nat) returns (newEnd: Dictionary)
      requires Valid() && t < |reqs| && threads[t].pc == CopyEnd
      modifies this
      ensures Valid() && old(schedule) <= schedule
      ensures newEnd == old(end) && threads[t] == old(threads[t]).(pc := CopyException, newEnd := newEnd)
    {
      newEnd := end;
      Tick(t, threads[t].(pc := CopyException, newEnd := newEnd));
    }

    method CopyExceptionTable(t: nat) returns (newException: Dictionary)
      requires Valid() && t < |reqs| && threads[t].pc == CopyException
      modifies this
      ensures Valid() && old(schedule) <= schedule
      ensures newException == old(exception)
      ensures threads[t] == old(threads[t]).(pc := EditBegin, newException := newException)
    {
      newException := exception;
      Tick(t, threads[t].(pc := EditBegin, newException := newException));
    }

    /** Add or Remove on the first local copy; `throws` says that Add threw. */
    method EditBeginCopy(t: nat, d: Dictionary) returns (throws: bool, d': Dictionary)
      requires Valid() && t < |reqs| && threads[t].pc == EditBegin && d == threads[t].newBegin
      modifies this
      ensures Valid() && old(schedule) <= schedule && throws == Throws(d, reqs[t])
      ensures throws ==> threads[t].pc == Release(DuplicateKey)
      ensures !throws ==> d' == Edit(d, reqs[t], Begin(reqs[t]))
      ensures !throws ==> threads[t] == old(threads[t]).(pc := EditEnd, newBegin := d')
    {
      throws, d' := Throws(d, reqs[t]), d;
      if throws {
        Tick(t, threads[t].(pc := Release(DuplicateKey)));
      } else {
        d' := Edit(d, reqs[t], Begin(reqs[t]));
        Tick(t, threads[t].(pc := EditEnd, newBegin := d'));
      }
    }

    method EditEndCopy(t: nat, d: Dictionary) returns (throws: bool, d': Dictionary)
      requires Valid() && t < |reqs| && threads[t].pc == EditEnd && d == threads[t].newEnd
      modifies this
      ensures Valid() && old(schedule) <= schedule && throws == Throws(d, reqs[t])
      ensures throws ==> threads[t].pc == Release(DuplicateKey)
      ensures !throws ==> d' == Edit(d, reqs[t], End(reqs[t]))
      ensures !throws ==> threads[t] == old(threads[t]).(pc := EditException, newEnd := d')
    {
      throws, d' := Throws(d, reqs[t]), d;
      if throws {
        Tick(t, threads[t].(pc := Release(DuplicateKey)));
      } else {
        d' := Edit(d, reqs[t], End(reqs[t]));
        Tick(t, threads[t].(pc := EditException, newEnd := d'));
      }
    }

    method EditExceptionCopy(t: nat, d: Dictionary) returns (throws: bool, d': Dictionary)
      requires Valid() && t < |reqs| && threads[t].pc == EditException && d == threads[t].newException
      modifies this
      ensures Valid() && old(schedule) <= schedule && throws == Throws(d, reqs[t])
      ensures throws ==> threads[t].pc == Release(DuplicateKey)
      ensures !throws ==> d' == Edit(d, reqs[t], Exception(reqs[t]))
      ensures !throws ==> threads[t] == old(threads[t]).(pc := PublishBegin, newException := d')
    {
      throws, d' := Throws(d, reqs[t]), d;
      if throws {
        Tick(t, threads[t].(pc := Release(DuplicateKey)));
      } else {
        d' := Edit(d, reqs[t], Exception(reqs[t]));
        Tick(t, threads[t].(pc := PublishBegin, newException := d'));
      }
    }

    method PublishBeginTable(t: nat, newBegin: Dictionary)
      requires Valid() && t < |reqs| && threads[t].pc == PublishBegin && threads[t].newBegin == newBegin
      modifies this
      ensures Valid() && old(schedule) <= schedule && begin == newBegin
      ensures threads[t] == old(threads[t]).(pc := PublishEnd, wrote := true)
    {
      begin := newBegin;
      Tick(t, threads[t].(pc := PublishEnd, wrote := true));
    }

    method PublishEndTable(t: nat, newEnd: Dictionary)
      requires Valid() && t < |reqs| && threads[t].pc == PublishEnd && threads[t].newEnd == newEnd
      modifies this
      ensures Valid() && old(schedule) <= schedule && end == newEnd
      ensures threads[t] == old(threads[t]).(pc := PublishException, wrote := true)
    {
      end := newEnd;
      Tick(t, threads[t].(pc := PublishException, wrote := true));
    }

    method PublishExceptionTable(t: nat, newException: Dictionary)
      requires Valid() && t < |reqs| && threads[t].pc == PublishException && threads[t].newException == newException
      modifies this
      ensures Valid() && old(schedule) <= schedule && exception == newException
      ensures threads[t].pc == Release(Applied)
    {
      exception := newException;
      Tick(t, threads[t].(pc := Release(Applied), wrote := true));
    }

    /** Interlocked.CompareExchange(ref Lock, 1, 0) in attempt i. */
    method TryLock(t: nat, i: nat) returns (originalValue: int)
      requires Valid() && t < |reqs| && threads[t].pc == Attempt(i)
      modifies this
      ensures Valid() && old(schedule) <= schedule && originalValue == old(lock)
      ensures originalValue == 0 ==> lock == 1 && threads[t].pc == CopyBegin
      ensures originalValue != 0 ==>
        threads[t].pc == if i < 19 then Attempt(i + 1) else Ended(Contention)
    {
      originalValue := lock;
      var th := threads[t].(tries := threads[t].tries + 1);
      if originalValue == 0 {
        lock, acquired := 1, acquired + [t];
        Tick(t, th.(pc := CopyBegin));
      } else if i < MAX_ATTEMPTS - 1 {
        Tick(t, th.(pc := Attempt(i + 1)));
      } else {
        Tick(t, th.(pc := Ended(Contention)));
      }
    }

    /** What a call has done to the dictionaries when it returns or throws. */
    ghost predicate Done(r: Request, outcome: Outcome)
      reads this
    {
      match outcome
      case Applied =>
        if r.Add? then
          && r.methodId in begin && begin[r.methodId] == r.onBegin
          && r.methodId in end && end[r.methodId] == r.onEnd
          && r.methodId in exception && exception[r.methodId] == r.onException
        else
          r.methodId !in begin && r.methodId !in end && r.methodId !in exception
      case DuplicateKey =>
        r.Add? && r.methodId in begin && r.methodId in end && r.methodId in exception
      case Contention => true
    }

    /** The finally block. */
    method Unlock(t: nat, pending: Outcome)
      requires Valid() && t < |reqs| && threads[t].pc == Release(pending) && pending != Contention
      modifies this
      ensures Valid() && old(schedule) <= schedule && lock == 0 && threads[t].pc == Ended(pending)
      ensures Done(reqs[t], pending)
    {
      if pending == Applied {
        AppliedCallHasEdited(reqs, schedule, t);
      } else {
        ThrownCallFoundItsId(reqs, schedule, t);
      }
      lock := 0;
      Tick(t, threads[t].(pc := Ended(pending)));
    }

    method Copy(t: nat, env: nat -> seq<nat>)
      returns (newBegin: Dictionary, newEnd: Dictionary, newException: Dictionary)
      requires Valid() && t < |reqs| && threads[t].pc == CopyBegin
      requires forall k :: t !in env(k)
      modifies this
      ensures Valid() && old(schedule) <= schedule && threads[t].pc == EditBegin
      ensures threads[t].newBegin == newBegin && threads[t].newEnd == newEnd && threads[t].newException == newException
    {
      Interleave(t, env(0));
      newBegin := CopyBeginTable(t);
      Interleave(t, env(1));
      newEnd := CopyEndTable(t);
      Interleave(t, env(2));
      newException := CopyExceptionTable(t);
    }

    method EditCopies(t: nat, env: nat -> seq<nat>, d0: Dictionary, d1: Dictionary, d2: Dictionary)
      returns (throws: bool, newBegin: Dictionary, newEnd: Dictionary, newException: Dictionary)
      requires Valid() && t < |reqs| && threads[t].pc == EditBegin
      requires threads[t].newBegin == d0 && threads[t].newEnd == d1 && threads[t].newException == d2
      requires forall k :: t !in env(k)
      modifies this
      ensures Valid() && old(schedule) <= schedule
      ensures throws ==> threads[t].pc == Release(DuplicateKey)
      ensures !throws ==> threads[t].pc == PublishBegin
      ensures !throws ==>
        threads[t].newBegin == newBegin && threads[t].newEnd == newEnd && threads[t].newException == newException
    {
      newEnd, newException := d1, d2;
      Interleave(t, env(3));
      throws, newBegin := EditBeginCopy(t, d0);
      if throws { return; }
      Interleave(t, env(4));
      throws, newEnd := EditEndCopy(t, d1);
      if throws { return; }
      Interleave(t, env(5));
      throws, newException := EditExceptionCopy(t, d2);
    }

    method Publish(t: nat, env: nat -> seq<nat>, newBegin: Dictionary, newEnd: Dictionary, newException: Dictionary)
      requires Valid() && t < |reqs| && threads[t].pc == PublishBegin
      requires threads[t].newBegin == newBegin && threads[t].newEnd == newEnd && threads[t].newException == newException
      requires forall k :: t !in env(k)
      modifies this
      ensures Valid() && threads[t].pc == Release(Applied) && old(schedule) <= schedule
    {
      Interleave(t, env(6));
      PublishBeginTable(t, newBegin);
      Interleave(t, env(7));
      PublishEndTable(t, newEnd);
      Interleave(t, env(8));
      PublishExceptionTable(t, newException);
    }

    /** The try block: copy, edit, publish.  A throw leaves through the same exit. */
    method TryBlock(t: nat, env: nat -> seq<nat>) returns (pending: Outcome)
      requires Valid() && t < |reqs| && threads[t].pc == CopyBegin
      requires forall k :: t !in env(k)
      modifies this
      ensures Valid() && threads[t].pc == Release(pending) && old(schedule) <= schedule
      ensures pending != Contention
    {
      var newBegin, newEnd, newException := Copy(t, env);
      var throws: bool;
      throws, newBegin, newEnd, newException := EditCopies(t, env, newBegin, newEnd, newException);
      if throws {
        return DuplicateKey;
      }
      Publish(t, env, newBegin, newEnd, newException);
      pending := Applied;
    }

    /** One call of AddCallbacks or RemoveCallbacks, whatever the other calls do meanwhile. */
    method Call(t: nat, env: (nat, nat) -> seq<nat>) returns (outcome: Outcome)
      requires Valid() && t < |reqs| && threads[t] == FRESH
      requires forall i, k :: t !in env(i, k)
      modifies this
      ensures Valid() && threads[t].pc == Ended(outcome) && old(schedule) <= schedule
      ensures outcome != Contention ==> lock == 0 && Done(reqs[t], outcome)
      ensures outcome == Contention <==> t !in acquired
    {
      outcome := Contention;
      var i := 0;
      while i < MAX_ATTEMPTS
        invariant 0 <= i <= MAX_ATTEMPTS
        invariant Valid() && old(schedule) <= schedule
        invariant threads[t].pc == if i < MAX_ATTEMPTS then Attempt(i) else Ended(Contention)
      {
        Interleave(t, env(i, 9));
        var originalValue := TryLock(t, i);
        if originalValue == 0 {
          outcome := InsideTheLock(t, k => env(i, k));
          break;
        }
        i := i + 1;
      }
      CallOutcomes(reqs, schedule, t);
    }

    /** The try block and the finally behind it. */
    method InsideTheLock(t: nat, env: nat -> seq<nat>) returns (pending: Outcome)
      requires Valid() && t < |reqs| && threads[t].pc == CopyBegin
      requires forall k :: t !in env(k)
      modifies this
      ensures Valid() && threads[t].pc == Ended(pending) && old(schedule) <= schedule
      ensures pending != Contention && lock == 0 && Done(reqs[t], pending)
    {
      pending := TryBlock(t, env);
      Interleave(t, env(10));
      Unlock(t, pending);
    }
  }

  lemma {:induction false} StepLeavesOthers(reqs: seq<Request>, s: State, u: nat, t: nat)
    requires |s.threads| == |reqs| && t < |reqs| && t != u
    ensures Step(reqs, s, u).threads[t] == s.threads[t]
  {
  }

  lemma {:induction false} ReachedSnoc(reqs: seq<Request>, schedule: seq<nat>, t: nat)
    ensures Reached(reqs, schedule + [t]) == Step(reqs, Reached(reqs, schedule), t)
  {
    assert (schedule + [t])[..|schedule + [t]| - 1] == schedule;
  }
}
