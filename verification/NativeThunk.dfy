/** NativeInstanceMethodsCodeInjector.cpp: a managed method's body is replaced by a call of
    a native instance method, through a stand-alone signature built from its own. */
module NativeInstanceMethodsCodeInjector {
  import opened Results
  import opened Sequences
  import opened Cil
  import opened InstructionGraph
  import opened Emission

  const MaxSupportedSigSize := 20
  const ReservedSigSize := 3

  /** The pointers are numbers here; `argsCount` is what the registration declared. */
  datatype Record = Record(instance: nat, instanceMethod: nat, argsCount: int)

  datatype Platform = X86 | X64

  function ThisType(platform: Platform): byte {
    if platform == X64 then ELEMENT_TYPE_I8 else ELEMENT_TYPE_I4
  }

  function LoadAddress(platform: Platform, address: nat): Op {
    if platform == X64 then LdcI8(address) else LdcI4(address)
  }

  // ---------- what is built ----------

  function Incremented(b: byte): byte {
    if b == 255 then 0 else b + 1
  }

  function NativeSignature(platform: Platform, sig: seq<byte>): (r: seq<byte>)
    requires |sig| >= ReservedSigSize
  {
    [CALLCONV_STDCALL, Incremented(sig[1]), sig[2], ThisType(platform)] + sig[3..]
  }

  function ThunkCode(platform: Platform, sig: seq<byte>, record: Record): seq<Op>
    requires |sig| >= ReservedSigSize
  {
    [LoadAddress(platform, record.instance)]
    + Loads(if record.argsCount > 0 then record.argsCount else 0)
    + [LoadAddress(platform, record.instanceMethod)]
    + [Calli(StandAloneSig(NativeSignature(platform, sig)))]
    + [Ret]
  }

  // ---------- the injector ----------

  method BuildNativeMethodSignature(platform: Platform, info: MethodInfo) returns (hr: HResult, token: Option<Token>)
    ensures hr ==
      if |info.signature| > MaxSupportedSigSize then E_FAIL
      else if |info.signature| < ReservedSigSize then E_INVALIDARG
      else S_OK
    ensures hr == S_OK ==> token == Some(StandAloneSig(NativeSignature(platform, info.signature)))
  {
    if MaxSupportedSigSize < |info.signature| {
      return E_FAIL, None;
    }
    var sig := info.signature;
    if |sig| < ReservedSigSize {
      return E_INVALIDARG, None;
    }
    var updated: seq<byte> := [];
    updated := updated + [CALLCONV_STDCALL];
    updated := updated + [Incremented(sig[1])];
    updated := updated + [sig[2]];
    updated := updated + [ThisType(platform)];
    updated := updated + sig[ReservedSigSize..];
    assert updated == NativeSignature(platform, sig);
    return S_OK, Some(StandAloneSig(updated));
  }

  method GenerateArgumentsLoad(g: Graph, argsCount: int, current: Instruction?) returns (last: Instruction?)
    requires g.Valid() && At(g, current, |g.nodes|)
    modifies g.Footprint()
    ensures g.Valid() && At(g, last, |g.nodes|)
    ensures fresh(g.Footprint() - old(g.Footprint()))
    ensures g.code == old(g.code) + Loads(if argsCount > 0 then argsCount else 0)
  {
    last := current;
    var idx := 0;
    while idx < argsCount
      invariant 0 <= idx && (idx <= argsCount || idx == 0)
      invariant g.Valid() && At(g, last, |g.nodes|)
      invariant g.code == old(g.code) + Loads(idx)
      invariant fresh(g.Footprint() - old(g.Footprint()))
    {
      assert Loads(idx + 1) == Loads(idx) + [LoadArg(idx % 65536)];
      last := Append(g, last, LoadArg(idx % 65536));
      idx := idx + 1;
    }
  }

  /** The old body goes only after the signature was built, so a refusal keeps it. */
  method Inject(platform: Platform, info: Option<MethodInfo>, record: Option<Record>) returns (hr: HResult)
    requires info.Some? ==> info.value.instructions.Valid()
    modifies if info.Some? then info.value.instructions.Footprint() else {}
    ensures hr ==
      if info.None? || record.None? then E_INVALIDARG
      else if |info.value.signature| > 20 then E_FAIL
      else if |info.value.signature| < 3 then E_INVALIDARG
      else S_OK
    ensures info.Some? ==> info.value.instructions.Valid()
    ensures info.Some? ==>
      info.value.instructions.code ==
        if hr == S_OK then ThunkCode(platform, info.value.signature, record.value)
        else old(info.value.instructions.code)
  {
    if info.None? || record.None? {
      return E_INVALIDARG;
    }
    var token: Option<Token>;
    hr, token := BuildNativeMethodSignature(platform, info.value);
    if hr != S_OK {
      return;
    }
    info.value.instructions.RemoveAll();
    EmitThunk(platform, info.value, record.value, token.value);
  }

  method EmitThunk(platform: Platform, info: MethodInfo, record: Record, token: Token)
    requires info.instructions.Valid() && info.instructions.nodes == []
    requires |info.signature| >= ReservedSigSize
    requires token == StandAloneSig(NativeSignature(platform, info.signature))
    modifies info.instructions.Footprint()
    ensures info.instructions.Valid()
    ensures info.instructions.code == ThunkCode(platform, info.signature, record)
  {
    var g := info.instructions;
    var current := g.first;
    assert g.code == [];
    current := Append(g, current, LoadAddress(platform, record.instance));
    assert g.code == [LoadAddress(platform, record.instance)];
    current := GenerateArgumentsLoad(g, record.argsCount, current);
    current := Append(g, current, LoadAddress(platform, record.instanceMethod));
    current := Append(g, current, Calli(token));
    current := Append(g, current, Ret);
  }

  // ---------- what the result means ----------

  /** The signature that the native function really has. */
  function NativeMethod(platform: Platform, s: Signature): Signature {
    Signature(0x02, 0, s.ret, [Simple(if platform == X64 then 0x0a else 0x08)] + s.params)
  }

  /** A number of pointer width. */
  function PlatformNumber(platform: Platform, n: nat): Value {
    Num(if platform == X64 then Int64 else Int32, n)
  }

  /** The object as the argument that the native function expects. */
  function NativeThis(platform: Platform, record: Record): Value {
    PlatformNumber(platform, record.instance)
  }

  /** Both pointers are pointers of the platform. */
  predicate InWidth(platform: Platform, record: Record) {
    var limit := if platform == X64 then 0x1_0000_0000_0000_0000 else 0x1_0000_0000;
    record.instance < limit && record.instanceMethod < limit
  }

  /** The extra parameter goes in at a fixed place, right after the first byte of the return
      type, as if that type were always one byte long. */
  predicate ReturnTypeSurvives(platform: Platform, ret: SigType) {
    AllAfterFirst(EncodeType(ret), if platform == X64 then 0x0a else 0x08)
  }

  predicate AllAfterFirst(code: seq<byte>, x: byte) {
    forall k :: 1 <= k < |code| ==> code[k] == x
  }

  lemma {:induction false} ShiftedBytes(a: seq<byte>, x: byte, rest: seq<byte>)
    ensures [x] + a + rest == a + [x] + rest <==> forall k :: 0 <= k < |a| ==> a[k] == x
  {
    var l, r := [x] + a + rest, a + [x] + rest;
    if l == r && a != [] {
      assert l[0] == x && r[0] == a[0];
      assert l[1..] == a + rest && r[1..] == a[1..] + [x] + rest;
      assert l[1..] == [x] + a[1..] + rest;
      ShiftedBytes(a[1..], x, rest);
      assert forall k :: 1 <= k < |a| ==> a[k] == a[1..][k - 1];
    } else if forall k :: 0 <= k < |a| ==> a[k] == x {
      assert forall k :: 0 <= k < |a| + 1 ==> ([x] + a)[k] == x && (a + [x])[k] == x;
      assert [x] + a == a + [x];
    }
  }

  /** What the injector does to the blob from the return type on. */
  function WithThis(body: seq<byte>, x: byte): seq<byte>
    requires body != []
  {
    [body[0], x] + body[1..]
  }

  lemma {:induction false} ThisAfterReturnType(code: seq<byte>, rest: seq<byte>, x: byte)
    requires code != []
    ensures WithThis(code + rest, x) == code + ([x] + rest) <==> AllAfterFirst(code, x)
  {
    var tail := code[1..];
    assert (code + rest)[1..] == tail + rest;
    assert WithThis(code + rest, x)[1..] == [x] + tail + rest;
    assert (code + ([x] + rest))[1..] == tail + [x] + rest;
    assert WithThis(code + rest, x) == [code[0]] + WithThis(code + rest, x)[1..];
    assert code + ([x] + rest) == [code[0]] + (code + ([x] + rest))[1..];
    ShiftedBytes(tail, x, rest);
    assert forall k :: 1 <= k < |code| ==> code[k] == tail[k - 1];
    assert forall k :: 0 <= k < |tail| ==> tail[k] == code[k + 1];
  }

  lemma {:induction false} ShortSignature(sig: seq<byte>)
    requires |sig| <= MaxSupportedSigSize && ParseSignature(sig).Some?
    ensures |sig| >= ReservedSigSize && |ParseSignature(sig).value.params| <= MaxSupportedSigSize - 3
  {
  }

  /** The blob of a method that is not generic, and of the native method that belongs to it. */
  lemma {:induction false} TwoBlobs(platform: Platform, s: Signature)
    requires s.generics == 0 && |s.params| < 0x7f
    ensures EncodeSignature(s) == [s.callConv, |s.params|] + (EncodeType(s.ret) + EncodeTypes(s.params))
    ensures EncodeSignature(NativeMethod(platform, s)) ==
      [CALLCONV_STDCALL, |s.params| + 1]
      + (EncodeType(s.ret) + ([ThisType(platform)] + EncodeTypes(s.params)))
  {
    EncodeTypesCons(Simple(ThisType(platform)), s.params);
    assert EncodeHead(s) == [s.callConv] && EncodeHead(NativeMethod(platform, s)) == [CALLCONV_STDCALL];
  }

  lemma {:induction false} BuiltBlob(platform: Platform, callConv: byte, count: byte, body: seq<byte>)
    requires count < 0x7f && body != []
    ensures |[callConv, count] + body| >= ReservedSigSize
    ensures NativeSignature(platform, [callConv, count] + body)
      == [CALLCONV_STDCALL, count + 1] + WithThis(body, ThisType(platform))
  {
    var sig := [callConv, count] + body;
    assert sig[2] == body[0] && sig[3..] == body[1..];
  }

  lemma {:induction false} BuiltIsNativeIff(platform: Platform, s: Signature)
    requires s.generics == 0 && |s.params| < 0x7f
    ensures |EncodeSignature(s)| >= ReservedSigSize
    ensures NativeSignature(platform, EncodeSignature(s)) == EncodeSignature(NativeMethod(platform, s))
      <==> ReturnTypeSurvives(platform, s.ret)
  {
    var code, rest, x := EncodeType(s.ret), EncodeTypes(s.params), ThisType(platform);
    TwoBlobs(platform, s);
    BuiltBlob(platform, s.callConv, |s.params|, code + rest);
    SameFront([CALLCONV_STDCALL, |s.params| + 1], WithThis(code + rest, x), code + ([x] + rest));
    ThisAfterReturnType(code, rest, x);
  }

  /** A generic method's blob is too long by the number of its type parameters. */
  lemma {:induction false} GenericIsTooLong(platform: Platform, s: Signature)
    requires s.generics > 0 && |s.params| < 0x7f
    ensures |EncodeSignature(s)| >= ReservedSigSize
    ensures |NativeSignature(platform, EncodeSignature(s))| > |EncodeSignature(NativeMethod(platform, s))|
  {
    EncodeTypesCons(Simple(ThisType(platform)), s.params);
  }

  /** The built blob reads back as the native signature exactly if the method is not generic
      and its return type survives. */
  lemma {:induction false} SignatureMatches(platform: Platform, sig: seq<byte>)
    requires |sig| <= MaxSupportedSigSize && ParseSignature(sig).Some?
    ensures
      var s := ParseSignature(sig).value;
      ParseSignature(NativeSignature(platform, sig)) == Some(NativeMethod(platform, s))
      <==> s.generics == 0 && ReturnTypeSurvives(platform, s.ret)
  {
    var s := ParseSignature(sig).value;
    var native := NativeMethod(platform, s);
    ShortSignature(sig);
    ParsedSignatureIsEncoded(sig);
    EncodeTypesCons(Simple(ThisType(platform)), s.params);
    assert WellFormedSignature(native);
    SignatureRoundTrip(NativeSignature(platform, sig), native);
    if s.generics == 0 {
      BuiltIsNativeIff(platform, s);
    } else {
      GenericIsTooLong(platform, s);
    }
  }

  function DeclaredArgs(record: Record): nat {
    if record.argsCount > 0 then record.argsCount else 0
  }

  lemma {:induction false} RunThree(env: Env, a: Op, b: Op, c: Op, args: seq<Value>, m: Machine)
    ensures Run(env, [a] + [b] + [c], args, m) == Exec(env, c, args, Exec(env, b, args, Exec(env, a, args, m)))
  {
    RunAppend(env, [a] + [b], [c], args, m);
    RunAppend(env, [a], [b], args, m);
    RunOne(env, a, args, m);
    RunOne(env, b, args, Exec(env, a, args, m));
    RunOne(env, c, args, Exec(env, b, args, Exec(env, a, args, m)));
  }

  /** After the loads: the address of the native method, the calli and the return. */
  lemma {:induction false} CallNative(env: Env, platform: Platform, at: nat, token: Token, native: Signature,
      args: seq<Value>, stack: seq<Value>)
    requires CalleeOf(token) == Some(native)
    requires env.is64 == (platform == X64) && at < if platform == X64 then TwoTo64 else TwoTo32
    requires env.returnsValue == (native.ret != Simple(ELEMENT_TYPE_VOID))
    ensures Run(env, [LoadAddress(platform, at)] + [Calli(token)] + [Ret], args, Running(stack, []))
      == CalledAndReturned(env, Address(at), native, stack)
  {
    var start := Running(stack, []);
    RunThree(env, LoadAddress(platform, at), Calli(token), Ret, args, start);
    AddressLoaded(env, platform, at, args, start);
    CalliOnTop(env, token, native, args, stack, PlatformNumber(platform, at));
    CallThenRet(env, Address(at), native, args, stack);
  }

  lemma {:induction false} AddressLoaded(env: Env, platform: Platform, at: nat, args: seq<Value>, m: Machine)
    requires m.Running? && at < if platform == X64 then TwoTo64 else TwoTo32
    ensures Exec(env, LoadAddress(platform, at), args, m) == Push(m, PlatformNumber(platform, at))
    ensures env.is64 == (platform == X64) ==> IsAddress(env, PlatformNumber(platform, at))
  {
  }

  lemma {:induction false} CalliOnTop(env: Env, token: Token, native: Signature, args: seq<Value>, stack: seq<Value>,
      at: Value)
    requires CalleeOf(token) == Some(native) && IsAddress(env, at)
    ensures Exec(env, Calli(token), args, Running(stack + [at], []))
      == DoCall(env, Running(stack, []), Address(at.bits), native)
  {
    assert (stack + [at])[..|stack|] == stack;
  }

  /** The body of a method with arguments `args`: one native call on the object and the
      first `argsCount` of them, provided that is what the native signature takes. */
  lemma {:induction false} ThunkRuns(env: Env, platform: Platform, sig: seq<byte>, record: Record, native: Signature,
      args: seq<Value>)
    requires |sig| >= ReservedSigSize && ParseSignature(NativeSignature(platform, sig)) == Some(native)
    requires env.returnsValue == (native.ret != Simple(ELEMENT_TYPE_VOID)) && |args| < 256
    requires env.is64 == (platform == X64) && InWidth(platform, record)
    ensures
      Run(env, ThunkCode(platform, sig, record), args, Running([], []))
      == if DeclaredArgs(record) > |args| then Fault
         else CalledAndReturned(env, Address(record.instanceMethod), native,
           [NativeThis(platform, record)] + args[..DeclaredArgs(record)])
  {
    ThunkLoads(env, platform, sig, record, args);
    if DeclaredArgs(record) <= |args| {
      CallNative(env, platform, record.instanceMethod, StandAloneSig(NativeSignature(platform, sig)), native, args,
        [NativeThis(platform, record)] + args[..DeclaredArgs(record)]);
    }
  }

  lemma {:induction false} ThunkLoads(env: Env, platform: Platform, sig: seq<byte>, record: Record, args: seq<Value>)
    requires |sig| >= ReservedSigSize && |args| < 256 && InWidth(platform, record)
    ensures
      Run(env, ThunkCode(platform, sig, record), args, Running([], []))
      == if DeclaredArgs(record) > |args| then Fault
         else Run(env,
           [LoadAddress(platform, record.instanceMethod)]
             + [Calli(StandAloneSig(NativeSignature(platform, sig)))] + [Ret],
           args, Running([NativeThis(platform, record)] + args[..DeclaredArgs(record)], []))
  {
    var n, at, token := DeclaredArgs(record), record.instanceMethod, StandAloneSig(NativeSignature(platform, sig));
    var tail := [LoadAddress(platform, at)] + [Calli(token)] + [Ret];
    var code := ThunkCode(platform, sig, record);
    assert code[1..] == Loads(n) + tail && Loads(n)[0..] == Loads(n);
    var m := Running([NativeThis(platform, record)], []);
    AddressLoaded(env, platform, record.instance, args, Running([], []));
    assert Exec(env, code[0], args, Running([], [])) == m;
    RunAppend(env, Loads(n), tail, args, m);
    LoadsPushArguments(env, 0, n, args, m);
    if n <= |args| {
      assert args[0..n] == args[..n];
    } else {
      RunStopped(env, tail, args, Fault);
    }
  }

  /** Whatever the body does, a call it makes goes through the signature that was built. */
  lemma {:induction false} CallsAsBuilt(env: Env, platform: Platform, sig: seq<byte>, record: Record, args: seq<Value>)
    requires |sig| >= ReservedSigSize && |args| < 256 && InWidth(platform, record)
    ensures
      var built := ParseSignature(NativeSignature(platform, sig));
      var end := Run(env, ThunkCode(platform, sig, record), args, Running([], []));
      end.Returned? ==> built.Some? && |end.made| == 1 && end.made[0].sig == built.value
  {
    ThunkLoads(env, platform, sig, record, args);
    if DeclaredArgs(record) <= |args| {
      TailCallsAsBuilt(env, platform, record.instanceMethod, NativeSignature(platform, sig), args,
        [NativeThis(platform, record)] + args[..DeclaredArgs(record)]);
    }
  }

  lemma {:induction false} TailCallsAsBuilt(env: Env, platform: Platform, at: nat, blob: seq<byte>, args: seq<Value>,
      stack: seq<Value>)
    ensures
      var end := Run(env, [LoadAddress(platform, at)] + [Calli(StandAloneSig(blob))] + [Ret], args, Running(stack, []));
      end.Returned? ==> ParseSignature(blob).Some? && |end.made| == 1 && end.made[0].sig == ParseSignature(blob).value
  {
    var token := StandAloneSig(blob);
    RunThree(env, LoadAddress(platform, at), Calli(token), Ret, args, Running(stack, []));
    var loaded := Exec(env, LoadAddress(platform, at), args, Running(stack, []));
    assert loaded.Running? && loaded.calls == [];
    CalliAsBuilt(env, blob, args, loaded);
    RetKeepsCalls(env, args, Exec(env, Calli(token), args, loaded));
  }

  /** One call, through the signature that was read. */
  predicate MadeThrough(calls: seq<CallRecord>, read: Option<Signature>) {
    read.Some? && |calls| == 1 && calls[0].sig == read.value
  }

  lemma {:induction false} CalliAsBuilt(env: Env, blob: seq<byte>, args: seq<Value>, m: Machine)
    requires m.Running? && m.calls == []
    ensures
      var end := Exec(env, Calli(StandAloneSig(blob)), args, m);
      !end.Returned? && (end.Running? ==> MadeThrough(end.calls, ParseSignature(blob)))
  {
    assert SignatureOf(StandAloneSig(blob)) == ParseSignature(blob);
  }

  lemma {:induction false} RetKeepsCalls(env: Env, args: seq<Value>, m: Machine)
    requires !m.Returned?
    ensures Exec(env, Ret, args, m).Returned? ==> m.Running? && Exec(env, Ret, args, m).made == m.calls
  {
  }

  /** The outcome that forwards a call: one native call, through the native method's own
      signature, on the object and all arguments, whose result is returned. */
  function Forwarded(env: Env, platform: Platform, s: Signature, record: Record, args: seq<Value>): Machine {
    var call := CallRecord(Address(record.instanceMethod), NativeMethod(platform, s),
      [NativeThis(platform, record)] + args);
    Returned(if s.ret == Simple(ELEMENT_TYPE_VOID) then None else Some(env.result(call)), [call])
  }

  /** Called on arguments of its own types, a method of any signature forwards them all to the
      native method, behind the object, in order and through the right signature, exactly when
      it is static and not generic, the record declares as many arguments as it has, and the
      return type survives the edit of the blob. */
  lemma {:induction false} ThunkForwardsIff(env: Env, platform: Platform, sig: seq<byte>, record: Record,
      args: seq<Value>)
    requires |sig| <= 20 && ParseSignature(sig).Some?
    requires ArgumentsFit(ParseSignature(sig).value, args)
    requires env.returnsValue == (ParseSignature(sig).value.ret != Simple(ELEMENT_TYPE_VOID))
    requires env.is64 == (platform == X64) && InWidth(platform, record)
    ensures |sig| >= 3
    ensures
      var s := ParseSignature(sig).value;
      Run(env, ThunkCode(platform, sig, record), args, Running([], [])) == Forwarded(env, platform, s, record, args)
      <==>
        && !HasThis(s.callConv) && s.generics == 0 && ReturnTypeSurvives(platform, s.ret)
        && (if record.argsCount > 0 then record.argsCount else 0) == |s.params|
  {
    var s := ParseSignature(sig).value;
    ShortSignature(sig);
    SignatureMatches(platform, sig);
    if s.generics == 0 && ReturnTypeSurvives(platform, s.ret) {
      CountDecides(env, platform, sig, record, s, args);
    } else {
      CallsAsBuilt(env, platform, sig, record, args);
      OtherSignature(env, platform, s, record, args, Run(env, ThunkCode(platform, sig, record), args, Running([], [])),
        ParseSignature(NativeSignature(platform, sig)));
    }
  }

  lemma {:induction false} OtherSignature(env: Env, platform: Platform, s: Signature, record: Record, args: seq<Value>,
      end: Machine, built: Option<Signature>)
    requires end.Returned? ==> built.Some? && |end.made| == 1 && end.made[0].sig == built.value
    requires built != Some(NativeMethod(platform, s))
    ensures end != Forwarded(env, platform, s, record, args)
  {
  }

  lemma {:induction false} CountDecides(env: Env, platform: Platform, sig: seq<byte>, record: Record, s: Signature,
      args: seq<Value>)
    requires |sig| >= ReservedSigSize && ArgumentsFit(s, args) && ArgumentCount(s) < 256
    requires env.is64 == (platform == X64) && InWidth(platform, record)
    requires ParseSignature(NativeSignature(platform, sig)) == Some(NativeMethod(platform, s))
    requires env.returnsValue == (s.ret != Simple(ELEMENT_TYPE_VOID))
    ensures
      Run(env, ThunkCode(platform, sig, record), args, Running([], [])) == Forwarded(env, platform, s, record, args)
      <==> !HasThis(s.callConv) && DeclaredArgs(record) == |s.params|
  {
    var n, native := DeclaredArgs(record), NativeMethod(platform, s);
    ThunkRuns(env, platform, sig, record, native, args);
    if n <= |args| {
      StacksDiffer(env, platform, s, record, args, n);
    }
  }

  /** A call on fewer arguments is not the forwarded one. */
  lemma {:induction false} StacksDiffer(env: Env, platform: Platform, s: Signature, record: Record,
      args: seq<Value>, n: nat)
    requires n <= |args| && ArgumentsFit(s, args)
    ensures
      CalledAndReturned(env, Address(record.instanceMethod), NativeMethod(platform, s),
        [NativeThis(platform, record)] + args[..n])
        == Forwarded(env, platform, s, record, args)
      <==> n == |args| == |s.params|
  {
    var native := NativeMethod(platform, s);
    assert !HasThis(native.callConv) && |native.params| == 1 + |s.params|;
    var passed, all := [NativeThis(platform, record)] + args[..n], [NativeThis(platform, record)] + args;
    assert |passed| == 1 + n && |all| == 1 + |args|;
    if n == |args| {
      assert args[..n] == args;
      if !HasThis(s.callConv) {
        forall k | 0 <= k < |native.params| ensures FitsType(native.params[k], all[k]) {
          assert k > 0 ==> native.params[k] == s.params[k - 1] && all[k] == args[k - 1];
        }
      }
    }
  }
}
