/** LoadArgumentsHelper.cpp: blocks that load all arguments of a method as objects, and that
    box its return value for a callback and unbox what the callback gives back. */
module LoadArgumentsHelper {
  import opened Results
  import opened Sequences
  import opened Cil
  import opened InstructionGraph
  import opened Emission

  predicate IsValueType(cet: byte) {
    IsStandardType(cet) || cet == ELEMENT_TYPE_VALUETYPE
  }

  /** The keys of m_typeMap: the twelve primitive types from BOOLEAN to R8, IntPtr and
      UIntPtr.  The names that the map gives them stay opaque. */
  predicate IsStandardType(cet: byte) {
    ELEMENT_TYPE_BOOLEAN <= cet <= ELEMENT_TYPE_R8 || cet == ELEMENT_TYPE_I || cet == ELEMENT_TYPE_U
  }

  /** The token to box with; none for a value type that offers no token. */
  function BoxToken(t: TypeInfo): Option<Token>
    requires IsValueType(t.element)
  {
    if IsStandardType(t.element) then Some(WellKnownType(t.element)) else t.token
  }

  predicate HasBoxToken(t: TypeInfo) {
    IsValueType(t.element) ==> BoxToken(t).Some?
  }

  // ---------- what is emitted ----------

  function BoxCode(t: TypeInfo): seq<Op> {
    if IsValueType(t.element) && BoxToken(t).Some? then [Box(BoxToken(t).value)] else []
  }

  function UnboxCode(t: TypeInfo): seq<Op> {
    if IsValueType(t.element) then (if BoxToken(t).Some? then [UnboxAny(BoxToken(t).value)] else [])
    else if t.token.Some? then [Castclass(t.token.value)]
    else []
  }

  function NextIndex(u: ushort): ushort {
    if u == 65535 then 0 else u + 1
  }

  function OneLoad(u: ushort, t: TypeInfo): seq<Op> {
    [LoadArg(u)] + BoxCode(t)
  }

  /** The argument index is an unsigned short.  Stops after the load of the first argument
      whose type has no token. */
  function LoadCode(u: ushort, types: seq<TypeInfo>): seq<Op>
    decreases |types|
  {
    if types == [] then []
    else
      OneLoad(u, types[0])
      + (if HasBoxToken(types[0]) then LoadCode(NextIndex(u), types[1..]) else [])
  }

  function AllTypes(info: MethodInfo): seq<TypeInfo> {
    if info.isStatic then info.parameters else [info.declaringType] + info.parameters
  }

  predicate AllTokens(types: seq<TypeInfo>) {
    types == [] || (HasBoxToken(types[0]) && AllTokens(types[1..]))
  }

  // ---------- the emitters ----------

  method GetBoxToken(t: TypeInfo) returns (hr: HResult, isValueType: bool, token: Option<Token>)
    ensures isValueType == (IsPrimitive(t.element) || t.element == ELEMENT_TYPE_VALUETYPE)
    ensures hr == if t.element == ELEMENT_TYPE_VALUETYPE && t.token.None? then E_NOINTERFACE else S_OK
    ensures token ==
      if IsPrimitive(t.element) then Some(WellKnownType(t.element))
      else if t.element == ELEMENT_TYPE_VALUETYPE then t.token
      else None
  {
    token := None;
    isValueType := IsValueType(t.element);
    if isValueType {
      if IsStandardType(t.element) {
        token := Some(WellKnownType(t.element));
      } else {
        if t.token.None? {
          return E_NOINTERFACE, isValueType, token;
        }
        token := t.token;
      }
    }
    hr := S_OK;
  }

  /** What is on the stack is boxed if its type needs it. */
  method BoxIfNeeded(g: Graph, t: TypeInfo, current: Instruction?, ghost head: seq<Op>, ghost tail: seq<Op>)
    returns (hr: HResult, last: Instruction?)
    requires g.Valid() && At(g, current, |head|) && g.code == head + tail
    modifies g.Footprint()
    ensures fresh(g.Footprint() - old(g.Footprint()))
    ensures hr == if t.element == ELEMENT_TYPE_VALUETYPE && t.token.None? then E_NOINTERFACE else S_OK
    ensures g.Valid() && At(g, last, |head + BoxCode(t)|) && g.code == head + BoxCode(t) + tail
  {
    last := current;
    assert head + [] == head;
    var isValueType, token;
    hr, isValueType, token := GetBoxToken(t);
    if hr == S_OK && isValueType {
      last := EmitInto(g, last, Box(token.value), head, tail);
    }
  }

  /** One argument: the load, and a box instruction if its type is a value type. */
  method LoadOne(g: Graph, u: ushort, t: TypeInfo, current: Instruction?, ghost head: seq<Op>, ghost tail: seq<Op>)
    returns (hr: HResult, last: Instruction?)
    requires g.Valid() && At(g, current, |head|) && g.code == head + tail
    modifies g.Footprint()
    ensures fresh(g.Footprint() - old(g.Footprint()))
    ensures hr == if HasBoxToken(t) then S_OK else E_NOINTERFACE
    ensures g.Valid() && At(g, last, |head + OneLoad(u, t)|) && g.code == head + OneLoad(u, t) + tail
  {
    Associative(head, [LoadArg(u)], BoxCode(t));
    last := EmitInto(g, current, LoadArg(u), head, tail);
    hr, last := BoxIfNeeded(g, t, last, head + [LoadArg(u)], tail);
  }

  method InternalLoadArgumentsAsObjects(g: Graph, first: ushort, types: seq<TypeInfo>, current: Instruction?,
                                        ghost head: seq<Op>, ghost tail: seq<Op>)
    returns (hr: HResult, last: Instruction?)
    requires g.Valid() && At(g, current, |head|) && g.code == head + tail
    modifies g.Footprint()
    ensures hr == if AllTokens(types) then S_OK else E_NOINTERFACE
    ensures g.Valid() && At(g, last, |WithLoads(head, first, types)|) && g.code == WithLoads(head, first, types) + tail
  {
    last := current;
    var usParamIndex, rest := first, types;
    ghost var done, whole := head, WithLoads(head, first, types);
    while rest != []
      invariant fresh(g.Footprint() - old(g.Footprint()))
      invariant AllTokens(rest) == AllTokens(types) && WithLoads(done, usParamIndex, rest) == whole
      invariant g.Valid() && At(g, last, |done|) && g.code == done + tail
      decreases |rest|
    {
      hr, last, done := LoadNext(g, usParamIndex, rest, last, done, tail);
      if hr != S_OK {
        return;
      }
      usParamIndex, rest := NextIndex(usParamIndex), rest[1..];
    }
    hr := S_OK;
  }

  method LoadNext(g: Graph, u: ushort, rest: seq<TypeInfo>, current: Instruction?,
                  ghost done: seq<Op>, ghost tail: seq<Op>)
    returns (hr: HResult, last: Instruction?, ghost next: seq<Op>)
    requires rest != []
    requires g.Valid() && At(g, current, |done|) && g.code == done + tail
    modifies g.Footprint()
    ensures fresh(g.Footprint() - old(g.Footprint()))
    ensures hr == if HasBoxToken(rest[0]) then S_OK else E_NOINTERFACE
    ensures WithLoads(done, u, rest) == if hr == S_OK then WithLoads(next, NextIndex(u), rest[1..]) else next
    ensures AllTokens(rest) <==> hr == S_OK && AllTokens(rest[1..])
    ensures g.Valid() && At(g, last, |next|) && g.code == next + tail
  {
    hr, last := LoadOne(g, u, rest[0], current, done, tail);
    next := done + OneLoad(u, rest[0]);
  }

  /** The loads, collected in the order in which they are emitted. */
  ghost function WithLoads(done: seq<Op>, u: ushort, rest: seq<TypeInfo>): seq<Op>
    decreases |rest|
  {
    if rest == [] then done
    else
      var more := done + OneLoad(u, rest[0]);
      if HasBoxToken(rest[0]) then WithLoads(more, NextIndex(u), rest[1..]) else more
  }

  lemma {:induction false} LoadsAppended(done: seq<Op>, u: ushort, rest: seq<TypeInfo>)
    ensures WithLoads(done, u, rest) == done + LoadCode(u, rest)
    decreases |rest|
  {
    if rest == [] {
      assert done + [] == done;
    } else {
      var one := OneLoad(u, rest[0]);
      if HasBoxToken(rest[0]) {
        LoadsAppended(done + one, NextIndex(u), rest[1..]);
        Associative(done, one, LoadCode(NextIndex(u), rest[1..]));
      } else {
        assert LoadCode(u, rest) == one;
      }
    }
  }

  method InternalLoadInstanceArgumentsAsObjects(info: MethodInfo, current: Instruction?, ghost head: seq<Op>,
      ghost tail: seq<Op>)
    returns (hr: HResult, last: Instruction?)
    requires !info.isStatic && info.instructions.Valid()
    requires At(info.instructions, current, |head|) && info.instructions.code == head + tail
    modifies info.instructions.Footprint()
    ensures hr == if AllTokens(AllTypes(info)) then S_OK else E_NOINTERFACE
    ensures info.instructions.Valid() && At(info.instructions, last, |WithLoads(head, 0, AllTypes(info))|)
    ensures info.instructions.code == WithLoads(head, 0, AllTypes(info)) + tail
  {
    ghost var types, this0 := AllTypes(info), OneLoad(0, info.declaringType);
    assert types[0] == info.declaringType && types[1..] == info.parameters;
    assert WithLoads(head, 0, types) ==
      if HasBoxToken(types[0]) then WithLoads(head + this0, 1, info.parameters) else head + this0;
    hr, last := LoadOne(info.instructions, 0, info.declaringType, current, head, tail);
    if hr == S_OK {
      hr, last := InternalLoadArgumentsAsObjects(info.instructions, 1, info.parameters, last, head + this0, tail);
    }
  }

  /** The block goes in after the current instruction, between `head` and `tail`. */
  method LoadArgumentsAsObjects(info: MethodInfo, current: Instruction?, ghost head: seq<Op>, ghost tail: seq<Op>)
    returns (hr: HResult, last: Instruction?)
    requires info.instructions.Valid()
    requires At(info.instructions, current, |head|) && info.instructions.code == head + tail
    modifies info.instructions.Footprint()
    ensures hr == if TokensThere(info) then S_OK else E_NOINTERFACE
    ensures info.instructions.Valid() && At(info.instructions, last, |head + LoadCode(0, AllTypes(info))|)
    ensures info.instructions.code == head + LoadCode(0, AllTypes(info)) + tail
  {
    TypesInOrder(info);
    LoadsAppended(head, 0, AllTypes(info));
    if info.isStatic {
      hr, last := InternalLoadArgumentsAsObjects(info.instructions, 0, info.parameters, current, head, tail);
    } else {
      hr, last := InternalLoadInstanceArgumentsAsObjects(info, current, head, tail);
    }
  }

  method BoxRetValueIfNeeded(info: MethodInfo, current: Instruction?, ghost head: seq<Op>, ghost tail: seq<Op>)
    returns (hr: HResult, last: Instruction?)
    requires info.instructions.Valid()
    requires At(info.instructions, current, |head|) && info.instructions.code == head + tail
    modifies info.instructions.Footprint()
    ensures hr ==
      if info.returnType.element == ELEMENT_TYPE_VALUETYPE && info.returnType.token.None? then E_NOINTERFACE else S_OK
    ensures info.instructions.Valid() && At(info.instructions, last, |head + BoxCode(info.returnType)|)
    ensures info.instructions.code == head + BoxCode(info.returnType) + tail
  {
    hr, last := BoxIfNeeded(info.instructions, info.returnType, current, head, tail);
  }

  method UnBoxRetValueIfNeeded(info: MethodInfo, current: Instruction?, ghost head: seq<Op>, ghost tail: seq<Op>)
    returns (hr: HResult, last: Instruction?)
    requires info.instructions.Valid()
    requires At(info.instructions, current, |head|) && info.instructions.code == head + tail
    modifies info.instructions.Footprint()
    ensures hr ==
      if info.returnType.element == ELEMENT_TYPE_VALUETYPE && info.returnType.token.None? then E_NOINTERFACE else S_OK
    ensures info.instructions.Valid() && At(info.instructions, last, |head + UnboxCode(info.returnType)|)
    ensures info.instructions.code == head + UnboxCode(info.returnType) + tail
  {
    last := current;
    assert head + [] == head;
    var isValueType, token;
    hr, isValueType, token := GetBoxToken(info.returnType);
    if hr != S_OK {
      return;
    }
    if isValueType {
      last := EmitInto(info.instructions, last, UnboxAny(token.value), head, tail);
    } else if info.returnType.token.Some? {
      last := EmitInto(info.instructions, last, Castclass(info.returnType.token.value), head, tail);
    }
  }

  // ---------- what the blocks mean ----------

  function AsObject(t: TypeInfo, v: Value): Value
    requires HasBoxToken(t)
  {
    if IsValueType(t.element) then Boxed(BoxToken(t).value, v) else v
  }

  function LowByte(u: ushort): byte {
    u % 256
  }

  /** Every load from index `u` on finds its argument. */
  predicate InReach(u: ushort, count: nat, args: seq<Value>) {
    |args| >= 256 || u + count <= |args|
  }

  /** What the loads push: an index keeps only its low byte. */
  function Pushed(u: ushort, types: seq<TypeInfo>, args: seq<Value>): (r: seq<Value>)
    requires AllTokens(types) && InReach(u, |types|, args)
    ensures |r| == |types|
    decreases |types|
  {
    if types == [] then [] else [AsObject(types[0], args[LowByte(u)])] + Pushed(NextIndex(u), types[1..], args)
  }

  /** A box instruction never meets a managed pointer. */
  predicate NoPointerBoxed(u: ushort, types: seq<TypeInfo>, args: seq<Value>)
    requires InReach(u, |types|, args)
    decreases |types|
  {
    types == []
    || ((IsValueType(types[0].element) ==> !args[LowByte(u)].Pointer?)
       && NoPointerBoxed(NextIndex(u), types[1..], args))
  }

  lemma {:induction false} OneArgument(env: Env, u: ushort, t: TypeInfo, args: seq<Value>, m: Machine)
    requires HasBoxToken(t) && m.Running? && InReach(u, 1, args)
    requires IsValueType(t.element) ==> !args[LowByte(u)].Pointer?
    ensures Run(env, OneLoad(u, t), args, m) == Running(m.stack + [AsObject(t, args[LowByte(u)])], m.calls)
  {
    var loaded := Running(m.stack + [args[LowByte(u)]], m.calls);
    assert Exec(env, LoadArg(u), args, m) == loaded;
    RunAppend(env, [LoadArg(u)], BoxCode(t), args, m);
    RunOne(env, LoadArg(u), args, m);
    if IsValueType(t.element) {
      RunOne(env, Box(BoxToken(t).value), args, loaded);
      assert loaded.stack[..|m.stack|] == m.stack;
    }
  }

  lemma {:induction false} LoadCodeRuns(env: Env, u: ushort, types: seq<TypeInfo>, args: seq<Value>, m: Machine)
    requires AllTokens(types) && m.Running? && InReach(u, |types|, args) && NoPointerBoxed(u, types, args)
    ensures Run(env, LoadCode(u, types), args, m) == Running(m.stack + Pushed(u, types, args), m.calls)
    decreases |types|
  {
    if types == [] {
      assert m.stack + [] == m.stack;
    } else {
      var v, rest := AsObject(types[0], args[LowByte(u)]), Pushed(NextIndex(u), types[1..], args);
      OneArgument(env, u, types[0], args, m);
      LoadCodeRuns(env, NextIndex(u), types[1..], args, Running(m.stack + [v], m.calls));
      LoadCodeUnfolds(u, types);
      RunJoined(env, LoadCode(u, types), OneLoad(u, types[0]), LoadCode(NextIndex(u), types[1..]), args, m);
      Associative(m.stack, [v], rest);
    }
  }

  lemma {:induction false} LoadCodeUnfolds(u: ushort, types: seq<TypeInfo>)
    requires types != [] && HasBoxToken(types[0])
    ensures LoadCode(u, types) == OneLoad(u, types[0]) + LoadCode(NextIndex(u), types[1..])
  {
  }

  lemma {:induction false} RunJoined(env: Env, code: seq<Op>, a: seq<Op>, b: seq<Op>, args: seq<Value>, m: Machine)
    requires code == a + b
    ensures Run(env, code, args, m) == Run(env, b, args, Run(env, a, args, m))
  {
    RunAppend(env, a, b, args, m);
  }

  /** What decides the values of a type: for an instance of a generic type whether that is a
      class or a value type. */
  function ElementOf(t: TypeInfo): byte {
    if t.element == ELEMENT_TYPE_GENERICINST && (t.of == ELEMENT_TYPE_CLASS || t.of == ELEMENT_TYPE_VALUETYPE) then t.of
    else t.element
  }

  /** The types whose values are always references. */
  predicate IsReferenceType(t: TypeInfo) {
    IsReferenceElement(ElementOf(t))
  }

  /** The types whose values never are, boxed here or not. */
  predicate HoldsValues(t: TypeInfo) {
    IsPrimitive(t.element) || ElementOf(t) == ELEMENT_TYPE_VALUETYPE
  }

  /** What an argument of a type can be.  `this` of a value type is a managed pointer; what a
      generic parameter stands for is settled only elsewhere. */
  predicate Holds(t: TypeInfo, isThis: bool, v: Value) {
    if isThis && HoldsValues(t) then v.Pointer? else FitsElement(ElementOf(t), v)
  }

  // The arguments of a method: `this`, unless it is static, and behind it the parameters.

  function Count(info: MethodInfo): nat {
    |info.parameters| + (if info.isStatic then 0 else 1)
  }

  predicate IsThis(info: MethodInfo, k: nat) {
    k == 0 && !info.isStatic
  }

  function TypeOfArgument(info: MethodInfo, k: nat): TypeInfo
    requires k < Count(info)
  {
    if IsThis(info, k) then info.declaringType
    else info.parameters[k - (if info.isStatic then 0 else 1)]
  }

  /** What a method of this shape can be called with. */
  predicate Fits(info: MethodInfo, args: seq<Value>) {
    && |args| == Count(info)
    && forall k :: 0 <= k < |args| ==> Holds(TypeOfArgument(info, k), IsThis(info, k), args[k])
  }

  /** Every argument of a value type that is not primitive offers its token. */
  predicate TokensThere(info: MethodInfo) {
    forall k :: 0 <= k < Count(info) ==>
      (TypeOfArgument(info, k).element == ELEMENT_TYPE_VALUETYPE ==> TypeOfArgument(info, k).token.Some?)
  }

  predicate IsSettled(t: TypeInfo) {
    IsPrimitive(t.element) || t.element == ELEMENT_TYPE_VALUETYPE || IsReferenceType(t)
  }

  /** Every parameter is of a kind that is boxed or of one that is a reference as it is, and
      `this`, if there is one, is a reference. */
  predicate AlwaysObjects(info: MethodInfo) {
    && (info.isStatic || IsReferenceType(info.declaringType))
    && forall k :: 0 <= k < |info.parameters| ==> IsSettled(info.parameters[k])
  }

  /** What `v` of type `t` is handed on as: a number boxed as what its own element type names,
      a value of another value type boxed with the token of that type, all else as it is. */
  predicate HandedOnAs(t: TypeInfo, v: Value, o: Value) {
    if IsPrimitive(t.element) then o == Boxed(WellKnownType(t.element), v)
    else if t.element == ELEMENT_TYPE_VALUETYPE then t.token.Some? && o == Boxed(t.token.value, v)
    else o == v
  }

  /** What the block is for: one object per argument, in order, on top of the stack. */
  predicate LoadsAll(env: Env, info: MethodInfo, args: seq<Value>, m: Machine)
    requires |args| == Count(info) && m.Running?
  {
    var end := Run(env, LoadCode(0, AllTypes(info)), args, m);
    && end.Running? && end.calls == m.calls
    && m.stack <= end.stack && AreObjectsOf(info, args, end.stack[|m.stack|..])
  }

  predicate AreObjectsOf(info: MethodInfo, args: seq<Value>, objects: seq<Value>)
    requires |args| == Count(info)
  {
    && |objects| == |args|
    && (forall k :: 0 <= k < |args| ==> IsReference(objects[k]))
    && forall k :: 0 <= k < |args| ==> HandedOnAs(TypeOfArgument(info, k), args[k], objects[k])
  }

  lemma {:induction false} TypesInOrder(info: MethodInfo)
    ensures |AllTypes(info)| == Count(info)
    ensures forall k :: 0 <= k < Count(info) ==> AllTypes(info)[k] == TypeOfArgument(info, k)
    ensures AllTokens(AllTypes(info)) <==> TokensThere(info)
  {
    forall k | 0 <= k < Count(info) ensures AllTypes(info)[k] == TypeOfArgument(info, k) {
      TypeAt(info, k);
    }
    AllTokensIff(AllTypes(info));
  }

  lemma {:induction false} TypeAt(info: MethodInfo, k: nat)
    requires k < Count(info)
    ensures |AllTypes(info)| == Count(info) && AllTypes(info)[k] == TypeOfArgument(info, k)
  {
  }

  lemma {:induction false} AllTokensIff(types: seq<TypeInfo>)
    ensures AllTokens(types) <==>
      forall k :: 0 <= k < |types| ==> (types[k].element == ELEMENT_TYPE_VALUETYPE ==> types[k].token.Some?)
  {
    if types != [] {
      AllTokensIff(types[1..]);
      assert forall k :: 0 < k < |types| ==> types[k] == types[1..][k - 1];
      assert forall k :: 0 <= k < |types[1..]| ==> types[1..][k] == types[k + 1];
    }
  }

  lemma {:induction false} AsObjectIsHandedOn(t: TypeInfo, v: Value, o: Value)
    requires HasBoxToken(t)
    ensures HandedOnAs(t, v, o) <==> o == AsObject(t, v)
  {
  }

  /** One object per argument, in terms of the code. */
  function Objects(types: seq<TypeInfo>, args: seq<Value>): (r: seq<Value>)
    requires AllTokens(types) && |args| == |types|
    ensures |r| == |types|
  {
    if types == [] then [] else [AsObject(types[0], args[0])] + Objects(types[1..], args[1..])
  }

  lemma {:induction false} AllHandedOn(info: MethodInfo, args: seq<Value>, pushed: seq<Value>)
    requires AllTokens(AllTypes(info)) && |args| == Count(info) == |pushed| == |AllTypes(info)|
    ensures pushed == Objects(AllTypes(info), args) <==>
      forall k :: 0 <= k < |args| ==> HandedOnAs(TypeOfArgument(info, k), args[k], pushed[k])
  {
    var types := AllTypes(info);
    TypesInOrder(info);
    forall k | 0 <= k < |args|
      ensures HandedOnAs(TypeOfArgument(info, k), args[k], pushed[k]) <==> pushed[k] == Objects(types, args)[k]
    {
      ObjectsAt(types, args, k);
      AsObjectIsHandedOn(types[k], args[k], pushed[k]);
    }
  }

  /** When the loads push one value for every argument, that is what is wanted exactly if they
      are the objects of them all. */
  lemma {:induction false} LoadsAllWhen(env: Env, info: MethodInfo, args: seq<Value>, m: Machine, pushed: seq<Value>)
    requires AllTokens(AllTypes(info)) && |args| == Count(info) == |pushed| == |AllTypes(info)| && m.Running?
    requires Run(env, LoadCode(0, AllTypes(info)), args, m) == Running(m.stack + pushed, m.calls)
    ensures LoadsAll(env, info, args, m) <==>
      pushed == Objects(AllTypes(info), args) && forall k :: 0 <= k < |args| ==> IsReference(pushed[k])
  {
    AllHandedOn(info, args, pushed);
    assert (m.stack + pushed)[|m.stack|..] == pushed;
  }

  lemma {:induction false} ObjectsAt(types: seq<TypeInfo>, args: seq<Value>, k: nat)
    requires AllTokens(types) && |args| == |types| && k < |types|
    ensures HasBoxToken(types[k]) && Objects(types, args)[k] == AsObject(types[k], args[k])
  {
    if k > 0 {
      ObjectsAt(types[1..], args[1..], k - 1);
    }
  }

  /** The index of the k-th load. */
  function IndexAt(u: ushort, k: nat): ushort
    decreases k
  {
    if k == 0 then u else IndexAt(NextIndex(u), k - 1)
  }

  lemma {:induction false} LowByteAt(u: ushort, k: nat)
    ensures LowByte(IndexAt(u, k)) == (u + k) % 256
    decreases k
  {
    if k > 0 {
      LowByteAt(NextIndex(u), k - 1);
      assert (NextIndex(u) + k - 1) % 256 == (u + k) % 256;
    }
  }

  lemma {:induction false} PushedAt(u: ushort, types: seq<TypeInfo>, args: seq<Value>, k: nat)
    requires AllTokens(types) && InReach(u, |types|, args) && k < |types|
    ensures LowByte(IndexAt(u, k)) < |args| && HasBoxToken(types[k])
    ensures Pushed(u, types, args)[k] == AsObject(types[k], args[LowByte(IndexAt(u, k))])
    decreases |types|
  {
    if k > 0 {
      PushedAt(NextIndex(u), types[1..], args, k - 1);
    }
  }

  lemma {:induction false} NoPointersAtAll(u: ushort, types: seq<TypeInfo>, args: seq<Value>)
    requires InReach(u, |types|, args) && forall k :: 0 <= k < |args| ==> !args[k].Pointer?
    ensures NoPointerBoxed(u, types, args)
    decreases |types|
  {
    if types != [] {
      NoPointersAtAll(NextIndex(u), types[1..], args);
    }
  }

  lemma {:induction false} NoPointersInPlace(u: ushort, types: seq<TypeInfo>, args: seq<Value>)
    requires u + |types| == |args| <= 256
    requires forall k :: 0 <= k < |types| && IsValueType(types[k].element) ==> !args[u + k].Pointer?
    ensures NoPointerBoxed(u, types, args)
    decreases |types|
  {
    if types != [] {
      forall k | 0 <= k < |types[1..]| && IsValueType(types[1..][k].element) ensures !args[u + 1 + k].Pointer? {
        assert types[1..][k] == types[k + 1];
      }
      NoPointersInPlace(u + 1, types[1..], args);
      assert IsValueType(types[0].element) ==> !args[u + 0].Pointer?;
    }
  }

  lemma {:induction false} PushedInPlace(u: ushort, types: seq<TypeInfo>, args: seq<Value>)
    requires AllTokens(types) && u + |types| == |args| <= 256
    ensures Pushed(u, types, args) == Objects(types, args[u..])
    decreases |types|
  {
    if types != [] {
      var rest, more := args[u..], args[u + 1..];
      assert rest[0] == args[u] && rest[1..] == more && LowByte(u) == u;
      PushedInPlace(u + 1, types[1..], args);
    }
  }

  lemma {:induction false} AllAreObjects(info: MethodInfo, args: seq<Value>)
    requires AllTokens(AllTypes(info)) && |args| == |AllTypes(info)| && Fits(info, args) && AlwaysObjects(info)
    ensures forall k :: 0 <= k < |args| ==> IsReference(Objects(AllTypes(info), args)[k])
  {
    TypesInOrder(info);
    forall k | 0 <= k < |args| ensures IsReference(Objects(AllTypes(info), args)[k]) {
      ObjectsAt(AllTypes(info), args, k);
      SettledIsObject(info, args, k);
    }
  }

  lemma {:induction false} SettledIsObject(info: MethodInfo, args: seq<Value>, k: nat)
    requires Fits(info, args) && AlwaysObjects(info) && k < |args| && HasBoxToken(TypeOfArgument(info, k))
    ensures IsReference(AsObject(TypeOfArgument(info, k), args[k]))
    ensures IsValueType(TypeOfArgument(info, k).element) ==> !args[k].Pointer?
  {
    assert Holds(TypeOfArgument(info, k), IsThis(info, k), args[k]);
  }

  /** In every call the block leaves all arguments as objects, in order, on the stack. */
  lemma {:induction false} LoadsAllIf(env: Env, info: MethodInfo, args: seq<Value>, m: Machine)
    requires TokensThere(info) && m.Running? && Fits(info, args)
    requires |args| <= 256 && AlwaysObjects(info)
    ensures LoadsAll(env, info, args, m)
  {
    var types := AllTypes(info);
    TypesInOrder(info);
    forall k | 0 <= k < |types| && IsValueType(types[k].element) ensures !args[0 + k].Pointer? {
      SettledIsObject(info, args, k);
    }
    NoPointersInPlace(0, types, args);
    LoadCodeRuns(env, 0, types, args, m);
    PushedInPlace(0, types, args);
    assert args[0..] == args;
    AllAreObjects(info, args);
    LoadsAllWhen(env, info, args, m, Objects(types, args));
  }

  /** An argument of each kind, told apart from the others by its number. */
  function SomeValue(t: TypeInfo, isThis: bool, id: nat): Value {
    var e := ElementOf(t);
    if IsReferenceElement(e) then Object(id, 0)
    else if e == ELEMENT_TYPE_BYREF || (isThis && HoldsValues(t)) then Pointer(id)
    else if e == ELEMENT_TYPE_TYPEDBYREF then Struct(id)
    else Num(KindOf(e), id)
  }

  function SomeArguments(info: MethodInfo): (args: seq<Value>)
    ensures Fits(info, args)
  {
    seq(Count(info), k requires 0 <= k < Count(info) => SomeValue(TypeOfArgument(info, k), IsThis(info, k), k))
  }

  /** From 257 arguments on, argument 0 is loaded in the place of argument 256. */
  lemma {:induction false} TooManyArguments(env: Env, info: MethodInfo, m: Machine)
    requires TokensThere(info) && m.Running? && Count(info) > 256 && AlwaysObjects(info)
    ensures !LoadsAll(env, info, SomeArguments(info), m)
  {
    var types, args := AllTypes(info), SomeArguments(info);
    TypesInOrder(info);
    NoPointerAmongThem(info);
    NoPointersAtAll(0, types, args);
    LoadCodeRuns(env, 0, types, args, m);
    WrongObject(info);
    LoadsAllWhen(env, info, args, m, Pushed(0, types, args));
  }

  lemma {:induction false} NoPointerAmongThem(info: MethodInfo)
    requires AlwaysObjects(info)
    ensures forall k :: 0 <= k < |SomeArguments(info)| ==> !SomeArguments(info)[k].Pointer?
  {
    forall k | 0 <= k < |SomeArguments(info)| ensures !SomeArguments(info)[k].Pointer? {
      assert SomeArguments(info)[k] == SomeValue(TypeOfArgument(info, k), IsThis(info, k), k);
    }
  }

  lemma {:induction false} SomeArgumentAt(info: MethodInfo, k: nat)
    requires k < Count(info) == |AllTypes(info)|
    ensures SomeArguments(info)[k] == SomeValue(AllTypes(info)[k], IsThis(info, k), k)
  {
    TypesInOrder(info);
  }

  lemma {:induction false} TellApart(t: TypeInfo, u: TypeInfo, isThis: bool, isThat: bool, i: nat, j: nat)
    requires i != j && HasBoxToken(u)
    ensures SomeValue(t, isThis, i) != SomeValue(u, isThat, j)
    ensures AsObject(u, SomeValue(t, isThis, i)) != AsObject(u, SomeValue(u, isThat, j))
  {
  }

  lemma {:induction false} LoadedAndWanted(info: MethodInfo, args: seq<Value>)
    requires AllTokens(AllTypes(info)) && |AllTypes(info)| == |args| > 256
    ensures HasBoxToken(AllTypes(info)[256])
    ensures Pushed(0, AllTypes(info), args)[256] == AsObject(AllTypes(info)[256], args[0])
    ensures Objects(AllTypes(info), args)[256] == AsObject(AllTypes(info)[256], args[256])
  {
    PushedAt(0, AllTypes(info), args, 256);
    LowByteAt(0, 256);
    ObjectsAt(AllTypes(info), args, 256);
  }

  lemma {:induction false} WrongObject(info: MethodInfo)
    requires AllTokens(AllTypes(info)) && |AllTypes(info)| == Count(info) > 256
    ensures Pushed(0, AllTypes(info), SomeArguments(info))[256] != Objects(AllTypes(info), SomeArguments(info))[256]
  {
    var types := AllTypes(info);
    LoadedAndWanted(info, SomeArguments(info));
    SomeArgumentAt(info, 0);
    SomeArgumentAt(info, 256);
    TellApart(types[0], types[256], IsThis(info, 0), IsThis(info, 256), 0, 256);
  }

  /** A managed pointer cannot be boxed, so the block of a struct's method is not valid. */
  lemma {:induction false} PointerBoxed(env: Env, info: MethodInfo, args: seq<Value>, m: Machine)
    requires TokensThere(info) && m.Running? && Fits(info, args)
    requires !info.isStatic
    requires IsPrimitive(info.declaringType.element) || info.declaringType.element == ELEMENT_TYPE_VALUETYPE
    ensures Run(env, LoadCode(0, AllTypes(info)), args, m) == Fault
  {
    var types, t := AllTypes(info), info.declaringType;
    TypesInOrder(info);
    assert Holds(TypeOfArgument(info, 0), IsThis(info, 0), args[0]) && TypeOfArgument(info, 0) == t;
    LoadCodeUnfolds(0, types);
    var rest := LoadCode(1, types[1..]);
    RunJoined(env, LoadCode(0, types), OneLoad(0, t), rest, args, m);
    RunAppend(env, [LoadArg(0)], BoxCode(t), args, m);
    var loaded := Running(m.stack + [args[0]], m.calls);
    RunOne(env, LoadArg(0), args, m);
    RunOne(env, Box(BoxToken(t).value), args, loaded);
    RunStopped(env, rest, args, Fault);
  }

  /** An argument of an unsettled kind is loaded as it is, object or not. */
  lemma {:induction false} NotAlwaysAnObject(env: Env, info: MethodInfo, m: Machine, k: nat)
    requires m.Running? && k < Count(info) && !IsSettled(TypeOfArgument(info, k))
    ensures !LoadsAll(env, info, SomeArguments(info), m)
  {
    var v := SomeValue(TypeOfArgument(info, k), IsThis(info, k), k);
    assert SomeArguments(info)[k] == v && !IsReference(v);
    assert forall o :: HandedOnAs(TypeOfArgument(info, k), v, o) ==> o == v;
  }

  /** The least such calls: a static method with one parameter passed by reference, or of a
      generic parameter's type.  What the block pushes is no object. */
  lemma {:induction false} ByRefAndGenericStayAsTheyAre(env: Env, info: MethodInfo, v: Value, m: Machine)
    requires m.Running? && info.isStatic && |info.parameters| == 1
    requires
      || (info.parameters[0].element == ELEMENT_TYPE_BYREF && v.Pointer?)
      || (info.parameters[0].element == ELEMENT_TYPE_VAR && v.Num?)
    ensures Fits(info, [v]) && Run(env, LoadCode(0, AllTypes(info)), [v], m) == Running(m.stack + [v], m.calls)
    ensures !IsReference(v)
  {
    var types := info.parameters;
    assert types[1..] == [] && LoadCode(NextIndex(0), types[1..]) == [];
    assert LoadCode(0, types) == [LoadArg(0)];
    RunOne(env, LoadArg(0), [v], m);
  }

  /** The block leaves every argument as an object in every call of a method exactly if the
      method has at most 256 arguments, `this` included, each of a kind that is boxed or a
      reference, and `this` a reference. */
  lemma {:induction false} LoadsAllIff(env: Env, info: MethodInfo, m: Machine)
    requires TokensThere(info) && m.Running?
    ensures (forall args :: Fits(info, args) ==> LoadsAll(env, info, args, m))
      <==> Count(info) <= 256 && AlwaysObjects(info)
  {
    if AlwaysObjects(info) {
      if Count(info) > 256 {
        TooManyArguments(env, info, m);
      } else {
        forall args | Fits(info, args) ensures LoadsAll(env, info, args, m) {
          LoadsAllIf(env, info, args, m);
        }
      }
    } else if !info.isStatic && IsValueType(info.declaringType.element) {
      PointerBoxed(env, info, SomeArguments(info), m);
    } else {
      var k := Unsettled(info);
      NotAlwaysAnObject(env, info, m, k);
    }
  }

  lemma {:induction false} Unsettled(info: MethodInfo) returns (k: nat)
    requires !AlwaysObjects(info) && (info.isStatic || !IsValueType(info.declaringType.element))
    ensures k < Count(info) && !IsSettled(TypeOfArgument(info, k))
  {
    if !info.isStatic && !IsReferenceType(info.declaringType) {
      k := 0;
    } else {
      var j :| 0 <= j < |info.parameters| && !IsSettled(info.parameters[j]);
      k := if info.isStatic then j else j + 1;
    }
  }

  // ---------- the return value ----------

  /** The value that the method is about to return is handed to the callback as it would be as an
      argument. */
  lemma {:induction false} ReturnValueHandedOn(env: Env, t: TypeInfo, args: seq<Value>, stack: seq<Value>, v: Value,
      calls: seq<CallRecord>)
    requires t.element == ELEMENT_TYPE_VALUETYPE ==> t.token.Some?
    requires !v.Pointer?
    ensures
      var end := Run(env, BoxCode(t), args, Running(stack + [v], calls));
      && end.Running? && end.calls == calls && |end.stack| == |stack| + 1 && end.stack[..|stack|] == stack
      && HandedOnAs(t, v, end.stack[|stack|])
  {
    var m := Running(stack + [v], calls);
    if IsValueType(t.element) {
      RunOne(env, Box(BoxToken(t).value), args, m);
      assert m.stack[..|stack|] == stack;
    }
  }

  /** Boxing for the callback and unboxing what comes back is the identity on a return value,
      whatever is under it, unless an object fails its cast. */
  lemma {:induction false} BoxUnboxIdentityIff(env: Env, t: TypeInfo, args: seq<Value>, stack: seq<Value>, v: Value,
      calls: seq<CallRecord>)
    requires t.element == ELEMENT_TYPE_VALUETYPE ==> t.token.Some?
    requires !v.Pointer?
    ensures
      var m := Running(stack + [v], calls);
      Run(env, BoxCode(t) + UnboxCode(t), args, m) == m
      <==>
        || IsPrimitive(t.element) || t.element == ELEMENT_TYPE_VALUETYPE
        || t.token.None? || v.Null? || (IsReference(v) && env.instanceOf(v, t.token.value))
  {
    var m := Running(stack + [v], calls);
    RunAppend(env, BoxCode(t), UnboxCode(t), args, m);
    if IsValueType(t.element) {
      var token := BoxToken(t).value;
      RunOne(env, Box(token), args, m);
      assert m.stack[..|stack|] == stack;
      var boxed := Running(stack + [Boxed(token, v)], calls);
      RunOne(env, UnboxAny(token), args, boxed);
      assert boxed.stack[..|stack|] == stack;
    } else if t.token.Some? {
      RunOne(env, Castclass(t.token.value), args, m);
    }
  }

  /** What the unboxing code accepts, and what it makes of it. */
  predicate Accepts(env: Env, t: TypeInfo, o: Value) {
    if IsPrimitive(t.element) then o.Boxed? && UnboxesAs(env, o.token, WellKnownType(t.element))
    else if t.element == ELEMENT_TYPE_VALUETYPE then
      o.Boxed? && t.token.Some? && UnboxesAs(env, o.token, t.token.value)
    else t.token.Some? ==> o.Null? || (IsReference(o) && env.instanceOf(o, t.token.value))
  }

  function Unboxed(t: TypeInfo, o: Value): Value {
    if (IsPrimitive(t.element) || t.element == ELEMENT_TYPE_VALUETYPE) && o.Boxed? then o.content else o
  }

  /** A callback may put another object in the place of the boxed value.  The method returns,
      rather than failing, exactly if that object is accepted, and then with what is in it. */
  lemma {:induction false} ReplacedReturnValue(env: Env, t: TypeInfo, args: seq<Value>, o: Value,
      calls: seq<CallRecord>)
    requires t.element == ELEMENT_TYPE_VALUETYPE ==> t.token.Some?
    requires env.returnsValue
    ensures Run(env, UnboxCode(t) + [Ret], args, Running([o], calls)) ==
      if Accepts(env, t, o) then Returned(Some(Unboxed(t, o)), calls) else Fault
  {
    var m := Running([o], calls);
    RunAppend(env, UnboxCode(t), [Ret], args, m);
    if IsValueType(t.element) {
      RunOne(env, UnboxAny(BoxToken(t).value), args, m);
    } else if t.token.Some? {
      RunOne(env, Castclass(t.token.value), args, m);
    }
    RunOne(env, Ret, args, Run(env, UnboxCode(t), args, m));
  }
}
