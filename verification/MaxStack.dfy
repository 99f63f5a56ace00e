/** InstructionGraph.cpp and Instruction.cpp: the linear pass that computes the maxstack of a
    rewritten method.  Instructions are named by their index here; their offsets are distinct. */
module MaxStack {
  import opened Results

  const TwoTo32 := 0x1_0000_0000

  /** What decides the stack behaviour of an opcode. */
  datatype Kind =
    | Plain(pop: nat, push: nat)
    | Call(params: nat, hasThis: bool, gives: bool)
    | Calli(params: nat, hasThis: bool, gives: bool)
    | Newobj(params: nat)
    | Ret(gives: bool)
    | Leave

  /** `targets` are those of a branch or a switch; `firstOfHandler` marks the first instruction
      of a catch or filter block. */
  datatype Instruction = Instruction(kind: Kind, targets: seq<nat>, fallsThrough: bool, firstOfHandler: bool)

  function One(b: bool): nat {
    if b then 1 else 0
  }

  /** CInstruction::GetStackImpact.  The function pointer that calli pops is not counted. */
  function StackImpact(kind: Kind, depth: int): int {
    match kind
    case Leave => -depth
    case Plain(pop, push) => push - pop
    case Call(params, hasThis, gives) => One(gives) - params - One(hasThis)
    case Calli(params, hasThis, gives) => One(gives) - params - One(hasThis)
    case Newobj(params) => 1 - params
    case Ret(gives) => 0 - One(gives)
  }

  // ---------- the pass ----------

  /** Depths as unsigned 32-bit numbers, and the greatest depth seen for each branch target. */
  datatype Pass = Pass(depth: int, maximum: int, atTarget: map<nat, int>)

  function InsertOrUpdate(m: map<nat, int>, target: nat, depth: int): map<nat, int> {
    if target in m && depth <= m[target] then m else m[target := depth]
  }

  function InsertAll(m: map<nat, int>, targets: seq<nat>, depth: int): map<nat, int>
    decreases |targets|
  {
    if targets == [] then m else InsertAll(InsertOrUpdate(m, targets[0], depth), targets[1..], depth)
  }

  /** The depth the pass gives the instruction before its own effect. */
  function EntryDepth(p: Pass, i: nat, ins: Instruction): int {
    if ins.firstOfHandler then 1
    else if i in p.atTarget && p.atTarget[i] > p.depth then p.atTarget[i]
    else p.depth
  }

  function Step(p: Pass, i: nat, ins: Instruction): Pass {
    var entry := EntryDepth(p, i, ins);
    var depth := (entry + StackImpact(ins.kind, entry)) % TwoTo32;
    var before := if ins.firstOfHandler && p.maximum < 1 then 1 else p.maximum;
    Pass(depth, if depth > before then depth else before, InsertAll(p.atTarget, ins.targets, depth))
  }

  function Prefix(code: seq<Instruction>, i: nat): Pass
    requires i <= |code|
  {
    if i == 0 then Pass(0, 0, map[]) else Step(Prefix(code, i - 1), i - 1, code[i - 1])
  }

  method CalculateMaxStack(code: seq<Instruction>) returns (maxStack: int)
    ensures maxStack == Prefix(code, |code|).maximum
  {
    var maxStackDepth, stackDepth := 0, 0;
    var offsetToStackDepth: map<nat, int> := map[];
    var i := 0;
    while i < |code|
      invariant 0 <= i <= |code|
      invariant Prefix(code, i) == Pass(stackDepth, maxStackDepth, offsetToStackDepth)
    {
      if i in offsetToStackDepth && offsetToStackDepth[i] > stackDepth {
        stackDepth := offsetToStackDepth[i];
      }
      if code[i].firstOfHandler {
        stackDepth := 1;
        if maxStackDepth < 1 {
          maxStackDepth := 1;
        }
      }
      stackDepth := (stackDepth + StackImpact(code[i].kind, stackDepth)) % TwoTo32;
      var k := 0;
      ghost var was := offsetToStackDepth;
      while k < |code[i].targets|
        invariant 0 <= k <= |code[i].targets|
        invariant InsertAll(offsetToStackDepth, code[i].targets[k..], stackDepth)
          == InsertAll(was, code[i].targets, stackDepth)
      {
        offsetToStackDepth := InsertOrUpdate(offsetToStackDepth, code[i].targets[k], stackDepth);
        assert code[i].targets[k..][1..] == code[i].targets[k + 1..];
        k := k + 1;
      }
      if stackDepth > maxStackDepth {
        maxStackDepth := stackDepth;
      }
      i := i + 1;
    }
    maxStack := maxStackDepth;
  }

  // ---------- what the stack really does ----------

  function Pops(kind: Kind): nat {
    match kind
    case Leave => 0
    case Plain(pop, _) => pop
    case Call(params, hasThis, _) => params + One(hasThis)
    case Calli(params, hasThis, _) => params + One(hasThis) + 1
    case Newobj(params) => params
    case Ret(gives) => One(gives)
  }

  function Pushes(kind: Kind): nat {
    match kind
    case Leave => 0
    case Plain(_, push) => push
    case Call(_, _, gives) => One(gives)
    case Calli(_, _, gives) => One(gives)
    case Newobj(_) => 1
    case Ret(_) => 0
  }

  /** The stack depth in front of each instruction that can be reached. */
  type Depths = seq<Option<nat>>

  /** The depth behind an instruction; leave empties the stack. */
  function Exit(kind: Kind, depth: nat): nat
    requires depth >= Pops(kind)
  {
    if kind.Leave? then 0 else depth - Pops(kind) + Pushes(kind)
  }

  /** ECMA-335 III.1.7.4: wherever control comes from, the depth is the same. */
  ghost predicate Consistent(code: seq<Instruction>, d: Depths) {
    && |d| == |code|
    && (|code| > 0 ==> d[0] == Some(One(code[0].firstOfHandler)))
    && forall i :: 0 <= i < |code| ==> Follows(code, d, i)
  }

  ghost predicate Follows(code: seq<Instruction>, d: Depths, i: nat)
    requires |d| == |code| && i < |code|
  {
    && (code[i].firstOfHandler && d[i].Some? ==> d[i].value == 1)
    && (d[i].Some? ==>
          && d[i].value >= Pops(code[i].kind)
          && (code[i].fallsThrough && i + 1 < |code| ==> d[i + 1] == Some(Exit(code[i].kind, d[i].value)))
          && (forall t :: t in code[i].targets ==> t < |code| && d[t] == Some(Exit(code[i].kind, d[i].value))))
  }

  ghost predicate ComesFrom(code: seq<Instruction>, d: Depths, j: nat, i: nat)
    requires |d| == |code| && j < i < |code|
  {
    d[j].Some? && ((j + 1 == i && code[j].fallsThrough) || i in code[j].targets)
  }

  /** ECMA-335 III.1.7.5: where control does not come from an earlier instruction, the stack
      is empty, but for the exception in a catch or filter block. */
  ghost predicate ForwardRule(code: seq<Instruction>, d: Depths)
    requires |d| == |code|
  {
    forall i :: 0 <= i < |code| && d[i].Some? && d[i].value != 0 && !code[i].firstOfHandler ==>
      exists j: nat :: j < i && ComesFrom(code, d, j, i)
  }

  /** The limits of the format: a signature counts fewer than 2^29 parameters, no opcode pushes
      more than two values, and code that is counted in 32 bits has fewer instructions. */
  ghost predicate InRange(code: seq<Instruction>) {
    && |code| <= 0x2000_0000
    && forall i :: 0 <= i < |code| ==> Pops(code[i].kind) <= 0x2000_0002 && Pushes(code[i].kind) <= 2
  }

  lemma {:induction false} ImpactIsEnough(kind: Kind, entry: int, depth: nat)
    requires entry >= depth >= Pops(kind)
    ensures entry + StackImpact(kind, entry) >= Exit(kind, depth)
    ensures StackImpact(kind, entry) == (if kind.Leave? then -entry else Pushes(kind) - Pops(kind) + One(kind.Calli?))
  {
  }

  lemma {:induction false} InsertAllKeeps(m: map<nat, int>, targets: seq<nat>, depth: int, bound: int)
    requires depth <= bound && forall t :: t in m ==> m[t] <= bound
    ensures forall t :: t in m ==> t in InsertAll(m, targets, depth) && InsertAll(m, targets, depth)[t] >= m[t]
    ensures forall t :: t in targets ==> t in InsertAll(m, targets, depth) && InsertAll(m, targets, depth)[t] >= depth
    ensures forall t :: t in InsertAll(m, targets, depth) ==> InsertAll(m, targets, depth)[t] <= bound
    decreases |targets|
  {
    if targets != [] {
      InsertAllKeeps(InsertOrUpdate(m, targets[0], depth), targets[1..], depth, bound);
      assert forall t :: t in targets ==> t == targets[0] || t in targets[1..];
    }
  }

  lemma {:induction false} DepthsAreSmall(code: seq<Instruction>, d: Depths, i: nat)
    requires Consistent(code, d) && ForwardRule(code, d) && InRange(code) && i < |code|
    ensures d[i].Some? ==> d[i].value <= 2 * i + 1
    decreases i
  {
    if d[i].Some? && d[i].value != 0 && !code[i].firstOfHandler {
      var j: nat :| j < i && ComesFrom(code, d, j, i);
      DepthsAreSmall(code, d, j);
      assert Follows(code, d, j);
    } else {
      assert Follows(code, d, i);
    }
  }

  /** Beyond every real depth: where the count of code that is never reached wrapped around. */
  const Beyond := 0x8000_0000

  ghost predicate Covers(code: seq<Instruction>, d: Depths, i: nat, p: Pass)
    requires |d| == |code| && i <= |code|
  {
    && 0 <= p.depth <= p.maximum <= 2 * i + 1
    && (forall t :: t in p.atTarget ==> p.atTarget[t] <= p.maximum)
    && (forall j :: 0 <= j < i && d[j].Some? ==> Covered(code, d, j, p))
    && (i > 0 && d[i - 1].Some? ==>
          d[i - 1].value >= Pops(code[i - 1].kind) && p.depth >= Exit(code[i - 1].kind, d[i - 1].value))
  }

  ghost predicate Covered(code: seq<Instruction>, d: Depths, j: nat, p: Pass)
    requires |d| == |code| && j < |code| && d[j].Some?
  {
    && d[j].value >= Pops(code[j].kind)
    && p.maximum >= d[j].value && p.maximum >= Exit(code[j].kind, d[j].value)
    && forall t :: t in code[j].targets ==> t in p.atTarget && p.atTarget[t] >= Exit(code[j].kind, d[j].value)
  }

  lemma {:induction false} EntryIsEnough(code: seq<Instruction>, d: Depths, i: nat, p: Pass)
    requires Consistent(code, d) && ForwardRule(code, d) && i < |code| && d[i].Some?
    requires Covers(code, d, i, p)
    ensures EntryDepth(p, i, code[i]) >= d[i].value
  {
    assert Follows(code, d, i);
    if d[i].value != 0 && !code[i].firstOfHandler {
      var j: nat :| j < i && ComesFrom(code, d, j, i);
      assert Follows(code, d, j) && Covered(code, d, j, p);
    }
  }

  lemma {:induction false} StepCovers(code: seq<Instruction>, d: Depths, i: nat, p: Pass)
    requires Consistent(code, d) && ForwardRule(code, d) && InRange(code) && i < |code|
    requires Covers(code, d, i, p)
    ensures Covers(code, d, i + 1, Step(p, i, code[i])) || Step(p, i, code[i]).maximum >= Beyond
  {
    var kind, entry := code[i].kind, EntryDepth(p, i, code[i]);
    var depth := entry + StackImpact(kind, entry);
    assert Follows(code, d, i) && Pushes(kind) <= 2 && Pops(kind) <= 0x2000_0002;
    assert 0 <= entry <= 2 * i + 1;
    ImpactInRange(kind, entry);
    if d[i].Some? {
      EntryIsEnough(code, d, i, p);
      ImpactIsEnough(kind, entry, d[i].value);
    }
    if depth >= 0 {
      ExactStepCovers(code, d, i, p, depth);
    }
  }

  lemma {:induction false} ImpactInRange(kind: Kind, entry: nat)
    requires Pushes(kind) <= 2 && Pops(kind) <= 0x2000_0002
    ensures entry + StackImpact(kind, entry) <= entry + 2 || kind.Leave?
    ensures entry + StackImpact(kind, entry) >= -0x2000_0002
    ensures kind.Leave? ==> entry + StackImpact(kind, entry) == 0
  {
  }

  lemma {:induction false} ExactStepCovers(code: seq<Instruction>, d: Depths, i: nat, p: Pass, depth: nat)
    requires |d| == |code| && i < |code| <= 0x2000_0000 && Covers(code, d, i, p)
    requires depth == EntryDepth(p, i, code[i]) + StackImpact(code[i].kind, EntryDepth(p, i, code[i])) <= 2 * i + 3
    requires d[i].Some? ==>
      && EntryDepth(p, i, code[i]) >= d[i].value >= Pops(code[i].kind)
      && depth >= Exit(code[i].kind, d[i].value)
    ensures Covers(code, d, i + 1, Step(p, i, code[i]))
  {
    var q := Step(p, i, code[i]);
    assert q.depth == depth && q.atTarget == InsertAll(p.atTarget, code[i].targets, depth);
    InsertAllKeeps(p.atTarget, code[i].targets, depth, q.maximum);
    assert forall t :: t in q.atTarget ==> q.atTarget[t] <= q.maximum;
    forall j | 0 <= j < i + 1 && d[j].Some? ensures Covered(code, d, j, q) {
      if j < i {
        assert Covered(code, d, j, p);
      }
    }
  }

  lemma {:induction false} PrefixCovers(code: seq<Instruction>, d: Depths, i: nat)
    requires Consistent(code, d) && ForwardRule(code, d) && InRange(code) && i <= |code|
    ensures Covers(code, d, i, Prefix(code, i)) || Prefix(code, i).maximum >= Beyond
  {
    if i > 0 {
      PrefixCovers(code, d, i - 1);
      if Covers(code, d, i - 1, Prefix(code, i - 1)) {
        StepCovers(code, d, i - 1, Prefix(code, i - 1));
      }
    }
  }

  /** For code that keeps to the rules the maximum is enough in front of and behind every
      instruction that can be reached, whatever the code that cannot be reached does. */
  lemma {:induction false} MaxStackIsEnough(code: seq<Instruction>, d: Depths, i: nat)
    requires Consistent(code, d) && ForwardRule(code, d) && InRange(code)
    requires i < |code| && d[i].Some?
    ensures d[i].value >= Pops(code[i].kind)
    ensures Prefix(code, |code|).maximum >= d[i].value
    ensures Prefix(code, |code|).maximum >= Exit(code[i].kind, d[i].value)
  {
    assert Follows(code, d, i);
    PrefixCovers(code, d, |code|);
    DepthsAreSmall(code, d, i);
    if Covers(code, d, |code|, Prefix(code, |code|)) {
      assert Covered(code, d, i, Prefix(code, |code|));
    }
  }

  /** Every instruction is reached, none is a calli, and where control does not fall through the
      code behind goes on with at least the depth that is left. */
  ghost predicate KeepsCount(code: seq<Instruction>, d: Depths)
    requires Consistent(code, d)
  {
    forall i :: 0 <= i < |code| ==>
      && d[i].Some? && !code[i].kind.Calli?
      && (i + 1 < |code| && d[i + 1].Some? && !code[i].fallsThrough && !code[i + 1].firstOfHandler
            && Follows(code, d, i) ==>
          Exit(code[i].kind, d[i].value) <= d[i + 1].value)
  }

  /** The depth in front of or behind one of the first i instructions. */
  ghost predicate Occurs(code: seq<Instruction>, d: Depths, i: nat, depth: int)
    requires |d| == |code| && i <= |code|
  {
    exists j :: 0 <= j < i && d[j].Some? && d[j].value >= Pops(code[j].kind)
      && (depth == d[j].value || depth == Exit(code[j].kind, d[j].value))
  }

  /** The pass knows the real depths so far. */
  ghost predicate Exact(code: seq<Instruction>, d: Depths, i: nat, p: Pass)
    requires |d| == |code| && i <= |code|
  {
    && (if i == 0 then p.depth == 0
        else d[i - 1].Some? && d[i - 1].value >= Pops(code[i - 1].kind)
             && p.depth == Exit(code[i - 1].kind, d[i - 1].value))
    && (forall t :: t in p.atTarget ==> t < |code| && d[t] == Some(p.atTarget[t]))
    && (forall j, t :: 0 <= j < i && t in code[j].targets ==> t in p.atTarget)
    && (p.maximum == 0 || Occurs(code, d, i, p.maximum))
  }

  lemma {:induction false} InsertAllExact(m: map<nat, int>, targets: seq<nat>, depth: int, d: Depths)
    requires forall t :: t in m ==> t < |d| && d[t] == Some(m[t])
    requires forall t :: t in targets ==> t < |d| && d[t] == Some(depth)
    ensures
      var r := InsertAll(m, targets, depth);
      && (forall t :: t in r ==> t < |d| && d[t] == Some(r[t]))
      && (forall t :: t in m || t in targets ==> t in r)
    decreases |targets|
  {
    if targets != [] {
      assert targets[0] in targets;
      assert forall t :: t in targets[1..] ==> t in targets;
      InsertAllExact(InsertOrUpdate(m, targets[0], depth), targets[1..], depth, d);
      assert forall t :: t in targets ==> t == targets[0] || t in targets[1..];
    }
  }

  lemma {:induction false} EntryIsExact(code: seq<Instruction>, d: Depths, i: nat, p: Pass)
    requires Consistent(code, d) && ForwardRule(code, d) && KeepsCount(code, d)
    requires i < |code| && Exact(code, d, i, p)
    ensures d[i].Some? && EntryDepth(p, i, code[i]) == d[i].value
  {
    assert Follows(code, d, i);
    if i > 0 {
      assert Follows(code, d, i - 1);
      if !code[i].firstOfHandler && !code[i - 1].fallsThrough {
        assert p.depth <= d[i].value;
        if d[i].value != 0 {
          var j: nat :| j < i && ComesFrom(code, d, j, i);
          assert i in p.atTarget;
        }
      }
    }
  }

  lemma {:induction false} StepIsExact(code: seq<Instruction>, d: Depths, i: nat, p: Pass)
    requires Consistent(code, d) && ForwardRule(code, d) && InRange(code) && KeepsCount(code, d)
    requires i < |code| && Exact(code, d, i, p)
    ensures Exact(code, d, i + 1, Step(p, i, code[i]))
  {
    EntryIsExact(code, d, i, p);
    DepthsAreSmall(code, d, i);
    assert Follows(code, d, i);
    var kind, depth := code[i].kind, Exit(code[i].kind, d[i].value);
    assert Pushes(kind) <= 2 && !kind.Calli?;
    ImpactIsEnough(kind, d[i].value, d[i].value);
    assert (d[i].value + StackImpact(kind, d[i].value)) % TwoTo32 == depth;
    InsertAllExact(p.atTarget, code[i].targets, depth, d);
    var q := Step(p, i, code[i]);
    if q.maximum == p.maximum && p.maximum != 0 {
      OccursLater(code, d, i, p.maximum);
    } else {
      assert q.maximum == depth || q.maximum == d[i].value || q.maximum == 0;
    }
  }

  lemma {:induction false} OccursLater(code: seq<Instruction>, d: Depths, i: nat, depth: int)
    requires |d| == |code| && i < |code| && Occurs(code, d, i, depth)
    ensures Occurs(code, d, i + 1, depth)
  {
  }

  lemma {:induction false} PrefixIsExact(code: seq<Instruction>, d: Depths, i: nat)
    requires Consistent(code, d) && ForwardRule(code, d) && InRange(code) && KeepsCount(code, d) && i <= |code|
    ensures Exact(code, d, i, Prefix(code, i))
  {
    if i > 0 {
      PrefixIsExact(code, d, i - 1);
      StepIsExact(code, d, i - 1, Prefix(code, i - 1));
    }
  }

  /** On such code the result is the greatest depth that occurs in front of or behind any
      instruction, and not more. */
  lemma {:induction false} MaxStackIsExact(code: seq<Instruction>, d: Depths)
    requires Consistent(code, d) && ForwardRule(code, d) && InRange(code) && KeepsCount(code, d)
    ensures code != [] ==> Occurs(code, d, |code|, Prefix(code, |code|).maximum)
    ensures forall depth :: Occurs(code, d, |code|, depth) ==> depth <= Prefix(code, |code|).maximum
    ensures code == [] ==> Prefix(code, |code|).maximum == 0
  {
    PrefixIsExact(code, d, |code|);
    forall depth | Occurs(code, d, |code|, depth) ensures depth <= Prefix(code, |code|).maximum {
      var j :| 0 <= j < |code| && d[j].Some? && d[j].value >= Pops(code[j].kind)
        && (depth == d[j].value || depth == Exit(code[j].kind, d[j].value));
      MaxStackIsEnough(code, d, j);
    }
    if code != [] {
      assert Follows(code, d, 0);
      assert Occurs(code, d, |code|, d[0].value);
    }
  }

  function PushThenBranchBack(): seq<Instruction> {
    var ldc := Instruction(Plain(0, 1), [], true, false);
    var throw := Instruction(Plain(1, 0), [], false, false);
    [Instruction(Plain(0, 0), [3], false, false), ldc, throw, ldc, ldc, Instruction(Plain(0, 0), [1], false, false)]
  }

  lemma {:induction false} PlainStep(code: seq<Instruction>, i: nat, ins: Instruction, p: Pass, q: Pass)
    requires i < |code| && code[i] == ins && Prefix(code, i) == p && ins.kind.Plain? && !ins.firstOfHandler
    requires |ins.targets| <= 1 && (i in p.atTarget ==> p.atTarget[i] <= p.depth)
    requires ins.kind.pop <= p.depth < 10 && ins.kind.push < 10
    requires q.depth == p.depth - ins.kind.pop + ins.kind.push
    requires q.maximum == if q.depth > p.maximum then q.depth else p.maximum
    requires q.atTarget == if ins.targets == [] then p.atTarget else InsertOrUpdate(p.atTarget, ins.targets[0], q.depth)
    ensures Prefix(code, i + 1) == q
  {
    InsertAtMostOne(p.atTarget, ins.targets, q.depth);
    assert EntryDepth(p, i, ins) == p.depth;
    assert (p.depth + StackImpact(ins.kind, p.depth)) % TwoTo32 == q.depth;
    assert Step(p, i, ins) == q;
    assert Prefix(code, i + 1) == Step(Prefix(code, i), i, code[i]);
  }

  lemma {:induction false} InsertAtMostOne(m: map<nat, int>, targets: seq<nat>, depth: int)
    requires |targets| <= 1
    ensures InsertAll(m, targets, depth) == if targets == [] then m else InsertOrUpdate(m, targets[0], depth)
  {
    if targets != [] {
      assert targets[1..] == [];
    }
  }

  lemma {:induction false} MaximumOf(code: seq<Instruction>, br3: Instruction, ldc: Instruction, throw: Instruction,
      br1: Instruction)
    requires code == [br3, ldc, throw, ldc, ldc, br1]
    requires br3 == Instruction(Plain(0, 0), [3], false, false) && br1 == Instruction(Plain(0, 0), [1], false, false)
    requires ldc == Instruction(Plain(0, 1), [], true, false) && throw == Instruction(Plain(1, 0), [], false, false)
    ensures Prefix(code, 6).maximum == 2
  {
    PlainStep(code, 0, br3, Pass(0, 0, map[]), Pass(0, 0, map[3 := 0]));
    PlainStep(code, 1, ldc, Pass(0, 0, map[3 := 0]), Pass(1, 1, map[3 := 0]));
    PlainStep(code, 2, throw, Pass(1, 1, map[3 := 0]), Pass(0, 1, map[3 := 0]));
    PlainStep(code, 3, ldc, Pass(0, 1, map[3 := 0]), Pass(1, 1, map[3 := 0]));
    PlainStep(code, 4, ldc, Pass(1, 1, map[3 := 0]), Pass(2, 2, map[3 := 0]));
    PlainStep(code, 5, br1, Pass(2, 2, map[3 := 0]), Pass(2, 2, map[3 := 0, 1 := 2]));
  }

  function DepthsOfTheExample(): Depths {
    [Some(0), Some(2), Some(3), Some(0), Some(1), Some(2)]
  }

  lemma {:induction false} ExampleIsConsistent()
    ensures Consistent(PushThenBranchBack(), DepthsOfTheExample()) && InRange(PushThenBranchBack())
  {
    var code, d := PushThenBranchBack(), DepthsOfTheExample();
    assert |code| == 6;
    assert Follows(code, d, 0);
    assert Follows(code, d, 1);
    assert Follows(code, d, 2);
    assert Follows(code, d, 3);
    assert Follows(code, d, 4);
    assert Follows(code, d, 5);
    forall i | 0 <= i < |code| ensures Follows(code, d, i) {
      assert i == 0 || i == 1 || i == 2 || i == 3 || i == 4 || i == 5;
    }
  }

  lemma {:induction false} ExampleBreaksTheRule()
    ensures !ForwardRule(PushThenBranchBack(), DepthsOfTheExample())
  {
    var code, d := PushThenBranchBack(), DepthsOfTheExample();
    forall j: nat | j < 1 ensures !ComesFrom(code, d, j, 1) {
      assert code[0].targets == [3] && !code[0].fallsThrough;
    }
    assert d[1].Some? && d[1].value != 0 && !code[1].firstOfHandler;
  }

  /** Without the forward rule it may be too small: here the values are pushed at the end, and
      the branch back to where one more is pushed is not seen in time. */
  lemma {:induction false} ForwardRuleIsNeeded() returns (code: seq<Instruction>, d: Depths)
    ensures Consistent(code, d) && InRange(code) && !ForwardRule(code, d)
    ensures exists i :: 0 <= i < |code| && d[i].Some? && d[i].value > Prefix(code, |code|).maximum
  {
    code, d := PushThenBranchBack(), DepthsOfTheExample();
    ExampleIsConsistent();
    ExampleBreaksTheRule();
    MaximumOf(code, code[0], code[1], code[2], code[5]);
    assert d[2].value > Prefix(code, |code|).maximum;
  }
}
