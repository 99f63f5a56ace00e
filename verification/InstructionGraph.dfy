/** The doubly linked instruction list of InstructionGraph.cpp.  Every method changes the
    same links in the same order as the source, error paths included. */
module InstructionGraph {
  import opened Results
  import opened Sequences
  import opened Cil

  class Instruction {
    const op: Op
    var next: Instruction?
    var previous: Instruction?
    var graph: Graph?
    var isRemoved: bool

    constructor (op: Op)
      ensures this.op == op && next == null && previous == null && graph == null && !isRemoved
    {
      this.op := op;
      next, previous, graph, isRemoved := null, null, null, false;
    }
  }

  function Ops(s: seq<Instruction>): seq<Op> {
    seq(|s|, i requires 0 <= i < |s| => s[i].op)
  }

  class Graph {
    const ofMethod: bool    // it belongs to a method, and so to a list of exception clauses
    var first: Instruction?
    var last: Instruction?
    ghost var nodes: seq<Instruction>
    ghost var code: seq<Op>

    /** `nodes` is exactly the list that the links spell out in both directions. */
    ghost predicate Valid()
      reads this, nodes
    {
      && Distinct(nodes)
      && code == Ops(nodes)
      && (forall i :: 0 <= i < |nodes| ==> nodes[i].graph == this)
      && (if nodes == [] then first == null && last == null
          else
            && first == nodes[0] && last == nodes[|nodes| - 1]
            && first.previous == null && last.next == null)
      && (forall i {:trigger nodes[i].next} :: 0 <= i < |nodes| - 1 ==> nodes[i].next == nodes[i + 1])
      && (forall i {:trigger nodes[i].previous} :: 1 <= i < |nodes| ==> nodes[i].previous == nodes[i - 1])
    }

    ghost function Footprint(): set<object>
      reads this
    {
      {this} + (set n: object | n in nodes)
    }

    constructor (ofMethod: bool)
      ensures Valid() && nodes == [] && this.ofMethod == ofMethod
    {
      this.ofMethod := ofMethod;
      first, last, nodes, code := null, null, [], [];
    }

    /** After the anchor, or, without an anchor, as the only instruction: whatever the list
        held before is then dropped.  The new instruction's own `next` is set only if the
        anchor has a successor, so a stale one survives at the end of the list. */
    method InsertAfter(anchor: Instruction?, x: Instruction) returns (hr: HResult, ghost k: nat)
      requires Valid() && anchor != x
      requires anchor != null && anchor.graph == this ==> anchor in nodes
      modifies this, nodes, x
      ensures hr == if old(x.graph) == null && (anchor == null || old(anchor.graph) == this) then S_OK else E_UNEXPECTED
      ensures hr != S_OK ==> Valid() && nodes == old(nodes)
      ensures hr != S_OK ==> x.graph == if old(x.graph) == null then this else old(x.graph)
      ensures hr == S_OK && anchor == null ==> nodes == [x] && (Valid() <==> old(x.next) == null)
      ensures hr == S_OK && anchor != null ==>
        && k < |old(nodes)| && old(nodes)[k] == anchor
        && nodes == old(nodes)[..k + 1] + [x] + old(nodes)[k + 1..]
        && (Valid() <==> k + 1 < |old(nodes)| || old(x.next) == null)
        && (k + 1 == |old(nodes)| ==> last == x && x.next == old(x.next))
    {
      k := 0;
      if x.graph != null {
        return E_UNEXPECTED, 0;
      }
      x.graph := this;
      x.previous := anchor;
      if anchor != null {
        if anchor.graph != this {
          return E_UNEXPECTED, 0;
        }
        k :| 0 <= k < |nodes| && nodes[k] == anchor;
        LinkAfter(anchor, x, k);
      } else {
        first := x;
        last := x;
        nodes := [x];
        code := Ops(nodes);
      }
      hr := S_OK;
    }

    method LinkAfter(anchor: Instruction, x: Instruction, ghost k: nat)
      requires Valid() && k < |nodes| && nodes[k] == anchor
      requires x !in nodes && x.graph == this && x.previous == anchor
      modifies this, nodes, x
      ensures nodes == old(nodes)[..k + 1] + [x] + old(nodes)[k + 1..]
      ensures Valid() <==> k + 1 < |old(nodes)| || old(x.next) == null
      ensures k + 1 == |old(nodes)| ==> last == x && x.next == old(x.next)
    {
      var next := anchor.next;
      assert next == if k + 1 < |nodes| then nodes[k + 1] else null;
      anchor.next := x;
      if next != null {
        if next != x {
          next.previous := x;
          x.next := next;
        }
      } else {
        last := x;
      }
      ghost var was := nodes;
      nodes := was[..k + 1] + [x] + was[k + 1..];
      code := Ops(nodes);
      if k + 1 < |was| || old(x.next) == null {
        assert forall i :: 0 <= i < |was| && i != k ==> was[i] != anchor;
        Spliced(was, k + 1, x);
      }
    }

    /** Before the anchor.  The new instruction's own `previous` is set only if the anchor
        has a predecessor. */
    method InsertBefore(anchor: Instruction, x: Instruction) returns (hr: HResult, ghost k: nat)
      requires Valid() && anchor != x
      requires anchor.graph == this ==> anchor in nodes
      modifies this, nodes, x
      ensures hr == if old(x.graph) == null && old(anchor.graph) == this then S_OK else E_UNEXPECTED
      ensures hr != S_OK ==> nodes == old(nodes) && Valid()
      ensures hr == S_OK ==>
        && k < |old(nodes)| && old(nodes)[k] == anchor
        && nodes == old(nodes)[..k] + [x] + old(nodes)[k..]
        && (Valid() <==> k > 0 || old(x.previous) == null)
    {
      k := 0;
      if anchor.graph != this || x.graph != null {
        return E_UNEXPECTED, 0;
      }
      x.graph := this;
      k :| 0 <= k < |nodes| && nodes[k] == anchor;
      var previous := anchor.previous;
      anchor.previous := x;
      x.next := anchor;
      if previous != null {
        if previous != x {
          previous.next := x;
          x.previous := previous;
        }
      } else {
        first := x;
      }
      nodes := nodes[..k] + [x] + nodes[k..];
      code := Ops(nodes);
      hr := S_OK;
      if k > 0 || old(x.previous) == null {
        Spliced(old(nodes), k, x);
      }
    }

    /** Takes the place of `orig`, which keeps its own links but leaves the graph. */
    method Replace(orig: Instruction, x: Instruction) returns (hr: HResult, ghost k: nat)
      requires Valid()
      requires orig.graph == this ==> orig in nodes
      modifies this, nodes, x
      ensures hr == if old(orig.graph) == this && old(x.graph) == null then S_OK else E_UNEXPECTED
      ensures hr != S_OK ==> nodes == old(nodes) && Valid()
      ensures hr == S_OK ==>
        && k < |old(nodes)| && old(nodes)[k] == orig
        && nodes == old(nodes)[k := x]
        && orig.isRemoved && orig.graph == null
        && (Valid() <==> (k > 0 || old(x.previous) == null) && (k + 1 < |old(nodes)| || old(x.next) == null))
    {
      k := 0;
      if orig.graph != this || x.graph != null {
        return E_UNEXPECTED, 0;
      }
      k :| 0 <= k < |nodes| && nodes[k] == orig;
      Exchange(orig, x, k);
      hr := S_OK;
    }

    method Exchange(orig: Instruction, x: Instruction, ghost k: nat)
      requires Valid() && k < |nodes| && nodes[k] == orig && x.graph == null
      modifies this, nodes, x
      ensures nodes == old(nodes)[k := x] && orig.isRemoved && orig.graph == null
      ensures Valid() <==> (k > 0 || old(x.previous) == null) && (k + 1 < |old(nodes)| || old(x.next) == null)
    {
      x.graph := this;
      var previous, next := orig.previous, orig.next;
      assert previous == if k > 0 then nodes[k - 1] else null;
      assert next == if k + 1 < |nodes| then nodes[k + 1] else null;
      orig.isRemoved, orig.graph := true, null;
      if previous != null {
        previous.next := x;
        x.previous := previous;
      } else {
        first := x;
      }
      if next != null {
        next.previous := x;
        x.next := next;
      } else {
        last := x;
      }
      ghost var was := old(nodes);
      nodes := was[k := x];
      code := Ops(nodes);
      if (k > 0 || old(x.previous) == null) && (k + 1 < |was| || old(x.next) == null) {
        assert forall i :: 0 <= i < |was| && i != k ==> was[i] != orig && was[i] != x && was[i].graph == this;
        Swapped(was, k, x);
      }
    }

    /** Unlinks the instruction; its own links stay as they were.  The only instruction of a
        method is unlinked too, but reported as an invalid program. */
    method Remove(x: Instruction) returns (hr: HResult, ghost k: nat)
      requires Valid()
      requires x.graph == this ==> x in nodes
      modifies this, nodes
      ensures hr ==
        if old(x.graph) != this then E_UNEXPECTED
        else if ofMethod && old(nodes) == [x] then E_FAIL
        else S_OK
      ensures Valid()
      ensures hr == E_UNEXPECTED ==> nodes == old(nodes)
      ensures hr != E_UNEXPECTED ==>
        && k < |old(nodes)| && old(nodes)[k] == x
        && nodes == old(nodes)[..k] + old(nodes)[k + 1..]
        && x.isRemoved && x.graph == null
        && x.next == old(x.next) && x.previous == old(x.previous)
    {
      k := 0;
      if x.graph != this {
        return E_UNEXPECTED, 0;
      }
      k :| 0 <= k < |nodes| && nodes[k] == x;
      var alone := x.previous == null && x.next == null;
      assert alone <==> nodes == [x];
      Unlink(x, k);
      hr := if ofMethod && alone then E_FAIL else S_OK;
    }

    method Unlink(x: Instruction, ghost k: nat)
      requires Valid() && k < |nodes| && nodes[k] == x
      modifies this, nodes
      ensures Valid() && nodes == old(nodes)[..k] + old(nodes)[k + 1..]
      ensures x.isRemoved && x.graph == null && x.next == old(x.next) && x.previous == old(x.previous)
    {
      var previous, next := x.previous, x.next;
      assert previous == if k > 0 then nodes[k - 1] else null;
      assert next == if k + 1 < |nodes| then nodes[k + 1] else null;
      x.isRemoved, x.graph := true, null;
      if previous != null {
        previous.next := next;
      } else {
        first := next;
      }
      if next != null {
        next.previous := previous;
      } else {
        last := previous;
      }
      ghost var was := nodes;
      nodes := was[..k] + was[k + 1..];
      code := Ops(nodes);
      assert forall i :: 0 <= i < |was| && i != k ==> was[i] != x && was[i].graph == this;
      Cut(was, k);
    }

    /** Unlinks every instruction, links and all, so each can be inserted again. */
    method RemoveAll()
      requires Valid()
      modifies this, nodes
      ensures Valid() && nodes == [] && first == null && last == null
      ensures forall n :: n in old(nodes) ==>
        n.next == null && n.previous == null && n.graph == null && n.isRemoved
    {
      var instr := first;
      ghost var i := 0;
      while instr != null
        invariant 0 <= i <= |nodes| && nodes == old(nodes) && Distinct(nodes)
        invariant instr == if i < |nodes| then nodes[i] else null
        invariant forall j :: i <= j < |nodes| ==> nodes[j].next == old(nodes[j].next)
        invariant forall j :: 0 <= j < i ==>
          nodes[j].next == null && nodes[j].previous == null && nodes[j].graph == null && nodes[j].isRemoved
        decreases |nodes| - i
      {
        assert forall j :: 0 <= j < |nodes| && j != i ==> nodes[j] != instr;
        instr.isRemoved, instr.graph := true, null;
        var next := instr.next;
        instr.next := null;
        instr.previous := null;
        instr := next;
        i := i + 1;
      }
      first, last := null, null;
      nodes, code := [], [];
    }

    /** The links around a new node, and untouched links elsewhere, spell out the new list. */
    lemma {:induction false} Spliced(was: seq<Instruction>, p: nat, x: Instruction)
      requires p <= |was| && was != [] && Distinct(was) && x !in was && x.graph == this
      requires nodes == was[..p] + [x] + was[p..]
      requires code == Ops(nodes) && forall i :: 0 <= i < |was| ==> was[i].graph == this
      requires first == (if p == 0 then x else was[0]) && last == (if p < |was| then was[|was| - 1] else x)
      requires first.previous == null && last.next == null
      requires forall i {:trigger was[i].next} :: 0 <= i < |was| - 1 && i + 1 != p ==> was[i].next == was[i + 1]
      requires forall i {:trigger was[i].previous} :: 1 <= i < |was| && i != p ==> was[i].previous == was[i - 1]
      requires p > 0 ==> was[p - 1].next == x && x.previous == was[p - 1]
      requires p < |was| ==> x.next == was[p] && was[p].previous == x
      ensures Valid()
    {
      assert nodes[p] == x;
      forall i | 0 <= i < |nodes| - 1 ensures nodes[i].next == nodes[i + 1] {
        if i < p { assert nodes[i] == was[i]; } else if i > p { assert nodes[i] == was[i - 1]; }
      }
      forall i | 1 <= i < |nodes| ensures nodes[i].previous == nodes[i - 1] {
        if i < p { assert nodes[i] == was[i]; } else if i > p { assert nodes[i] == was[i - 1]; }
      }
    }

    lemma {:induction false} Swapped(was: seq<Instruction>, k: nat, x: Instruction)
      requires k < |was| && Distinct(was) && x !in was && x.graph == this
      requires nodes == was[k := x] && code == Ops(nodes)
      requires forall i :: 0 <= i < |was| && i != k ==> was[i].graph == this
      requires first == nodes[0] && last == nodes[|nodes| - 1]
      requires first.previous == null && last.next == null
      requires forall i {:trigger was[i].next} :: 0 <= i < |was| - 1 && i != k && i + 1 != k ==>
        was[i].next == was[i + 1]
      requires forall i {:trigger was[i].previous} :: 1 <= i < |was| && i != k && i != k + 1 ==>
        was[i].previous == was[i - 1]
      requires k > 0 ==> was[k - 1].next == x && x.previous == was[k - 1]
      requires k + 1 < |was| ==> x.next == was[k + 1] && was[k + 1].previous == x
      ensures Valid()
    {
    }

    lemma {:induction false} Cut(was: seq<Instruction>, k: nat)
      requires k < |was| && Distinct(was)
      requires nodes == was[..k] + was[k + 1..]
      requires code == Ops(nodes) && forall i :: 0 <= i < |was| && i != k ==> was[i].graph == this
      requires first == (if k > 0 then was[0] else if |was| > 1 then was[1] else null)
      requires last == (if k + 1 < |was| then was[|was| - 1] else if |was| > 1 then was[|was| - 2] else null)
      requires first != null ==> first.previous == null
      requires last != null ==> last.next == null
      requires forall i {:trigger was[i].next} :: 0 <= i < |was| - 1 && i != k && i + 1 != k ==>
        was[i].next == was[i + 1]
      requires forall i {:trigger was[i].previous} :: 1 <= i < |was| && i != k && i != k + 1 ==>
        was[i].previous == was[i - 1]
      requires 0 < k < |was| - 1 ==> was[k - 1].next == was[k + 1] && was[k + 1].previous == was[k - 1]
      ensures Valid()
    {
      forall i | 0 <= i < |nodes| ensures nodes[i].graph == this {
        assert nodes[i] == if i < k then was[i] else was[i + 1];
      }
      forall i | 0 <= i < |nodes| - 1 ensures nodes[i].next == nodes[i + 1] {
        assert nodes[i] == if i < k then was[i] else was[i + 1];
      }
      forall i | 1 <= i < |nodes| ensures nodes[i].previous == nodes[i - 1] {
        assert nodes[i] == if i < k then was[i] else was[i + 1];
      }
    }
  }

  /** Removing an instruction and appending it again gives a proper list only if it was the
      last one: otherwise its stale link leads from the end back into the list. */
  method RemoveThenAppend(g: Graph, x: Instruction)
    requires g.Valid() && |g.nodes| >= 2 && x in g.nodes
    modifies g, g.nodes
    ensures g.Valid() <==> old(g.last) == x
    ensures old(g.last) != x ==> g.last == x && g.last.next in g.nodes
  {
    var hr, k := g.Remove(x);
    assert x !in g.nodes;
    assert old(g.last) != x ==> x.next == old(g.nodes)[k + 1] && x.next == g.nodes[k];
    ghost var rest := g.nodes;
    hr, k := g.InsertAfter(g.last, x);
    assert forall n :: n in rest ==> n in g.nodes;
  }
}

/** What the emitters share: the description of a method and the step that creates one
    instruction and puts it after the current one. */
module Emission {
  import opened Results
  import opened Sequences
  import opened Cil
  import opened InstructionGraph

  /** `token` is present when the type offers ITokenType, and `of` says of a generic instance
      whether it is one of a class or of a value type (ECMA-335 II.23.2.12). */
  datatype TypeInfo = TypeInfo(element: byte, token: Option<Token>, of: byte)

  datatype MethodInfo = MethodInfo(
    name: string,
    signature: seq<byte>,
    isStatic: bool,
    declaringType: TypeInfo,
    parameters: seq<TypeInfo>,
    returnType: TypeInfo,
    instructions: Graph)

  /** The current instruction is the p-th; there is none only in an empty graph. */
  ghost predicate At(g: Graph, current: Instruction?, p: nat)
    reads g
  {
    if current == null then p == 0 && g.nodes == []
    else 0 < p <= |g.nodes| && g.nodes[p - 1] == current
  }

  method Emit(g: Graph, current: Instruction?, op: Op, ghost p: nat) returns (x: Instruction)
    requires g.Valid() && At(g, current, p)
    modifies g.Footprint()
    ensures g.Valid() && At(g, x, p + 1) && |g.nodes| == old(|g.nodes|) + 1
    ensures fresh(g.Footprint() - old(g.Footprint()))
    ensures g.code == old(g.code)[..p] + [op] + old(g.code)[p..]
  {
    x := new Instruction(op);
    ghost var was := g.nodes;
    var hr, k := g.InsertAfter(current, x);
    if current != null {
      assert k == p - 1;
    }
    OpsSpliced(was, p, x);
  }

  lemma {:induction false} OpsSpliced(was: seq<Instruction>, p: nat, x: Instruction)
    requires p <= |was|
    ensures Ops(was[..p] + [x] + was[p..]) == Ops(was)[..p] + [x.op] + Ops(was)[p..]
  {
  }

  /** Emit at the end of the list. */
  method Append(g: Graph, current: Instruction?, op: Op) returns (x: Instruction)
    requires g.Valid() && At(g, current, |g.nodes|)
    modifies g.Footprint()
    ensures g.Valid() && At(g, x, |g.nodes|)
    ensures fresh(g.Footprint() - old(g.Footprint()))
    ensures g.code == old(g.code) + [op]
  {
    x := Emit(g, current, op, |g.nodes|);
  }

  /** Emit in the middle, between `head` and `tail`. */
  method EmitInto(g: Graph, current: Instruction?, op: Op, ghost head: seq<Op>, ghost tail: seq<Op>)
    returns (x: Instruction)
    requires g.Valid() && At(g, current, |head|) && g.code == head + tail
    modifies g.Footprint()
    ensures g.Valid() && At(g, x, |head| + 1) && g.code == head + [op] + tail
    ensures fresh(g.Footprint() - old(g.Footprint()))
  {
    x := Emit(g, current, op, |head|);
  }

  /** ldarg for the arguments 0 to n - 1; the index is an unsigned short. */
  function Loads(n: nat): (r: seq<Op>)
    ensures |r| == n
  {
    seq(n, (k: nat) => LoadArg(k % 65536))
  }

  lemma {:induction false} LoadsPushArguments(env: Env, i: nat, n: nat, args: seq<Value>, m: Machine)
    requires i <= n && i <= |args| < 256 && m.Running?
    ensures Run(env, Loads(n)[i..], args, m) ==
      if n <= |args| then Running(m.stack + args[i..n], m.calls) else Fault
    decreases n - i
  {
    if i < n {
      var code := Loads(n)[i..];
      NextLoad(i, n);
      if i == |args| {
        RunStopped(env, code[1..], args, Fault);
      } else {
        LoadsPushArguments(env, i + 1, n, args, Push(m, args[i]));
        if n <= |args| {
          assert args[i..n] == [args[i]] + args[i + 1..n];
          Associative(m.stack, [args[i]], args[i + 1..n]);
        }
      }
    }
  }

  lemma {:induction false} NextLoad(i: nat, n: nat)
    requires i < n && i < 256
    ensures Loads(n)[i..] != [] && Loads(n)[i..][0] == LoadArg(i) && Loads(n)[i..][1..] == Loads(n)[i + 1..]
  {
  }

  /** A body that ends by calling something on the whole stack and returning its result. */
  function CalledAndReturned(env: Env, target: CallTarget, sig: Signature, stack: seq<Value>): Machine {
    if !ArgumentsFit(sig, stack) then Fault
    else
      var call := CallRecord(target, sig, stack);
      Returned(if sig.ret == Simple(ELEMENT_TYPE_VOID) then None else Some(env.result(call)), [call])
  }

  lemma {:induction false} CallThenRet(env: Env, target: CallTarget, sig: Signature, args: seq<Value>,
      stack: seq<Value>)
    requires env.returnsValue == (sig.ret != Simple(ELEMENT_TYPE_VOID))
    ensures Exec(env, Ret, args, DoCall(env, Running(stack, []), target, sig))
      == CalledAndReturned(env, target, sig, stack)
  {
    var n := ArgumentCount(sig);
    if |stack| >= n {
      assert stack[|stack| - n..] == if |stack| == n then stack else stack[|stack| - n..];
      assert |stack| == n ==> stack[..0] == [];
    }
  }
}
