/** EnumeratorImpl.h: an enumerator over a copied array.  The loop of Next advances both its
    own counter and the cursor, and adds the two for the place it reads. */
module Enumerator {
  import opened Results

  const TwoTo32 := 0x1_0000_0000

  type dword = x: int | 0 <= x < TwoTo32

  function Wrap(x: nat): dword {
    x % TwoTo32
  }

  // ---------- what a call of Next delivers ----------

  /** How many members: every second one that is left, but no more than asked for. */
  function Fetched(length: nat, cursor: nat, celt: nat): nat {
    if cursor >= length then 0
    else if celt <= (length - cursor + 1) / 2 then celt
    else (length - cursor + 1) / 2
  }

  function Delivered<T>(members: seq<T>, cursor: nat, celt: nat): (r: seq<T>)
    ensures |r| == Fetched(|members|, cursor, celt)
  {
    seq(Fetched(|members|, cursor, celt),
      k requires 0 <= k < Fetched(|members|, cursor, celt) => members[cursor + 2 * k])
  }

  /** Every second member from the cursor on, until enough are delivered or the end is passed. */
  lemma {:induction false} EverySecondMember<T>(members: seq<T>, cursor: nat, celt: nat)
    requires cursor <= |members|
    ensures
      var d := Delivered(members, cursor, celt);
      && (forall k :: 0 <= k < |d| ==> cursor + 2 * k < |members| && d[k] == members[cursor + 2 * k])
      && |d| <= celt && (|d| < celt ==> cursor + 2 * |d| >= |members|)
  {
  }

  /** What IEnumXxx::Next is documented to deliver: the next members, one after the other. */
  function NextMembers<T>(members: seq<T>, cursor: nat, celt: nat): seq<T>
    requires cursor <= |members|
  {
    if celt <= |members| - cursor then members[cursor..cursor + celt] else members[cursor..]
  }

  function SkipTo(length: nat, cursor: nat, celt: nat): nat {
    if Wrap(cursor + celt) >= length then length else Wrap(cursor + celt)
  }

  // ---------- the enumerator ----------

  class CEnumerator<T(0)> {
    var members: array<T>
    var length: dword
    var current: dword

    /** One member short of all that a DWORD can count, so that cursor plus counter,
        which passes the end by one at most, does not wrap. */
    ghost predicate Valid()
      reads this
    {
      length == members.Length && length < TwoTo32 - 1 && current <= length
    }

    constructor ()
      ensures Valid() && length == 0 && current == 0
    {
      members := new T[0];
      length, current := 0, 0;
    }

    /** The cursor stays where it was. */
    method Initialize(items: seq<T>)
      requires |items| < TwoTo32 - 1
      modifies this
      ensures members[..] == items && length == |items| && current == old(current) && fresh(members)
    {
      members := new T[|items|];
      length := |items|;
      var i := 0;
      while i < length
        invariant 0 <= i <= length == |items| == members.Length && fresh(members) && current == old(current)
        invariant members[..i] == items[..i]
      {
        members[i] := items[i];
        i := i + 1;
      }
    }

    method Next(celt: dword, rgelt: array<Option<T>>) returns (hr: HResult, fetched: dword)
      requires Valid() && celt <= rgelt.Length && rgelt as object != members
      modifies this`current, rgelt
      ensures Valid() && fetched == Fetched(length, old(current), celt)
      ensures hr == if fetched == celt then S_OK else S_FALSE
      ensures current == old(current) + fetched
      ensures forall k :: 0 <= k < fetched ==> rgelt[k] == Some(Delivered(members[..], old(current), celt)[k])
      ensures forall k :: fetched <= k < celt ==> rgelt[k] == None
      ensures forall k :: celt <= k < rgelt.Length ==> rgelt[k] == old(rgelt[k])
    {
      forall k | 0 <= k < celt {
        rgelt[k] := None;
      }
      var origCurrIndex := current;
      var i := 0;
      while i < celt && Wrap(i + current) < length
        invariant 0 <= i <= celt && current == origCurrIndex + i <= length
        invariant i > 0 ==> origCurrIndex + 2 * (i - 1) < length
        invariant forall k {:trigger rgelt[k]} :: 0 <= k < i ==>
          origCurrIndex + 2 * k < length && rgelt[k] == Some(members[origCurrIndex + 2 * k])
        invariant forall k :: i <= k < celt ==> rgelt[k] == None
        invariant forall k :: celt <= k < rgelt.Length ==> rgelt[k] == old(rgelt[k])
      {
        assert Wrap(i + current) == origCurrIndex + 2 * i;
        rgelt[i] := Some(members[Wrap(i + current)]);
        current := current + 1;
        i := i + 1;
      }
      fetched := current - origCurrIndex;
      if celt == fetched {
        return S_OK, fetched;
      }
      return S_FALSE, fetched;
    }

    method Skip(celt: dword) returns (hr: HResult)
      requires Valid()
      modifies this`current
      ensures Valid() && current == SkipTo(length, old(current), celt)
      ensures var sum := (old(current) + celt) % 0x1_0000_0000;
        current == if sum >= length then length else sum
      ensures hr == if Wrap(old(current) + celt) < length then S_OK else S_FALSE
    {
      current := Wrap(current + celt);
      if current >= length {
        current := length;
        return S_FALSE;
      }
      return S_OK;
    }

    method Reset()
      requires Valid()
      modifies this`current
      ensures Valid() && current == 0
    {
      current := 0;
    }

    /** The copy starts over, wherever the original is. */
    method Clone() returns (copy: CEnumerator<T>)
      requires Valid()
      ensures fresh(copy) && copy.Valid() && copy.members[..] == members[..] && copy.current == 0
    {
      copy := new CEnumerator();
      copy.Initialize(members[..]);
    }

    /** The loop of the clients, one member a call: it sees every member once, in order. */
    method ForEach() returns (seen: seq<T>)
      requires Valid()
      modifies this`current
      ensures Valid() && seen == members[old(current)..] && current == length
    {
      seen := [];
      var item := new Option<T>[1];
      var hr, fetched := Next(1, item);
      while hr == S_OK
        invariant Valid() && fresh(item) && item.Length == 1 && item as object != members
        invariant hr == S_OK ==> current > old(current) && item[0] == Some(members[current - 1])
        invariant hr != S_OK ==> current == length
        invariant seen == members[old(current)..if hr == S_OK then current - 1 else current]
        decreases length - current, hr == S_OK
      {
        seen := seen + [item[0].value];
        hr, fetched := Next(1, item);
      }
    }
  }

  // ---------- when the methods do what their interface says ----------

  /** Next is the documented one exactly if one member is asked for or at most one is left. */
  lemma {:induction false} NextIsOrdinaryIff(length: nat, cursor: nat, celt: nat)
    requires cursor <= length
    ensures
      (forall members: seq<int> ::
        |members| == length ==> Delivered(members, cursor, celt) == NextMembers(members, cursor, celt))
      <==> celt <= 1 || length - cursor <= 1
  {
    if celt <= 1 || length - cursor <= 1 {
      forall members: seq<int> | |members| == length
        ensures Delivered(members, cursor, celt) == NextMembers(members, cursor, celt)
      {
      }
    } else {
      var members := seq(length, (k: nat) => k);
      if Fetched(length, cursor, celt) > 1 {
        assert Delivered(members, cursor, celt)[1] == cursor + 2;
        assert NextMembers(members, cursor, celt)[1] == cursor + 1;
      }
      assert Delivered(members, cursor, celt) != NextMembers(members, cursor, celt);
    }
  }

  /** Skip moves on by `celt` or to the end exactly if the sum fits: otherwise it goes back. */
  lemma {:induction false} SkipIsOrdinaryIff(length: dword, cursor: dword, celt: dword)
    requires cursor <= length
    ensures SkipTo(length, cursor, celt) == (if cursor + celt < length then cursor + celt else length)
      <==> cursor + celt < TwoTo32 || cursor == length == 0
    ensures cursor + celt >= TwoTo32 ==> SkipTo(length, cursor, celt) < cursor
  {
  }

  datatype Op = Next(celt: dword) | Skip(celt: dword) | Reset

  function CursorAfter(length: nat, ops: seq<Op>): nat {
    if ops == [] then 0
    else
      var c := CursorAfter(length, ops[..|ops| - 1]);
      match ops[|ops| - 1]
      case Next(celt) => c + Fetched(length, c, celt)
      case Skip(celt) => SkipTo(length, c, celt)
      case Reset => 0
  }

  /** Over any run the cursor stays within the members. */
  lemma {:induction false} CursorStaysIn(length: nat, ops: seq<Op>)
    ensures CursorAfter(length, ops) <= length
  {
    if ops != [] {
      CursorStaysIn(length, ops[..|ops| - 1]);
    }
  }

  /** A member that a call of Next stepped over is lost until Reset or a wrapped Skip: no later
      call of Next delivers it. */
  lemma {:induction false} SteppedOverIsLost(length: nat, before: seq<Op>, celt: dword, after: seq<Op>)
    requires celt >= 2 && CursorAfter(length, before) + 3 <= length
    requires forall op :: op in after ==> op.Next?
    ensures CursorAfter(length, before) + 1 < CursorAfter(length, before + [Next(celt)] + after)
    ensures forall k :: 0 <= k < Fetched(length, CursorAfter(length, before), celt) ==>
      CursorAfter(length, before) + 2 * k != CursorAfter(length, before) + 1
  {
    var all := before + [Next(celt)] + after;
    if after == [] {
      assert all[..|all| - 1] == before;
    } else {
      var n := |after| - 1;
      assert all[..|all| - 1] == before + [Next(celt)] + after[..n];
      assert after[n] in after;
      SteppedOverIsLost(length, before, celt, after[..n]);
    }
  }
}
