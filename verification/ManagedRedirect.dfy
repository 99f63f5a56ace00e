/** ManagedRedirectCodeInjector.cpp: a managed method's body is replaced by a call of the
    method of the same signature that its name is mapped to. */
module ManagedRedirectCodeInjector {
  import opened Results
  import opened Cil
  import opened InstructionGraph
  import opened Emission

  const SignatureBufferSize := 256

  function NamesMapping(): map<string, string> {
    map["Add" := "ApplicationInsights_AddCallbacks", "Remove" := "ApplicationInsights_RemoveCallbacks"]
  }

  function ForwardCode(argsCount: byte, target: Token): seq<Op> {
    Loads(argsCount) + [Call(target)] + [Ret]
  }

  /** The lookup of the name is dereferenced without a test, so a name that is not mapped, in
      a method whose signature was accepted, reads the end of the map. */
  method Inject(info: MethodInfo) returns (hr: Behaviour<HResult>)
    requires info.instructions.Valid()
    modifies info.instructions.Footprint()
    ensures hr ==
      if |info.signature| > 256 then Defined(E_FAIL)
      else if |info.signature| <= 2 then Defined(S_FALSE)
      else if info.name != "Add" && info.name != "Remove" then Undefined
      else Defined(S_OK)
    ensures info.instructions.Valid()
    ensures info.instructions.code ==
      if hr == Defined(S_OK) then
        ForwardCode(info.signature[1], MethodRef(
          if info.name == "Add" then "ApplicationInsights_AddCallbacks" else "ApplicationInsights_RemoveCallbacks",
          info.signature))
      else old(info.instructions.code)
  {
    if SignatureBufferSize < |info.signature| {
      return Defined(E_FAIL);
    }
    if !(|info.signature| > 2) {
      return Defined(S_FALSE);
    }
    if info.name !in NamesMapping() {
      return Undefined;
    }
    var target := MethodRef(NamesMapping()[info.name], info.signature);
    info.instructions.RemoveAll();
    EmitForward(info.instructions, info.signature[1], target);
    hr := Defined(S_OK);
  }

  method EmitForward(g: Graph, argsCount: byte, target: Token)
    requires g.Valid() && g.nodes == []
    modifies g.Footprint()
    ensures g.Valid() && g.code == ForwardCode(argsCount, target)
  {
    var current := EmitLoads(g, argsCount);
    current := Append(g, current, Call(target));
    current := Append(g, current, Ret);
  }

  method EmitLoads(g: Graph, argsCount: byte) returns (current: Instruction?)
    requires g.Valid() && g.nodes == []
    modifies g.Footprint()
    ensures g.Valid() && At(g, current, |g.nodes|) && g.code == Loads(argsCount)
    ensures fresh(g.Footprint() - old(g.Footprint()))
  {
    assert g.code == Loads(0);
    current := g.first;
    var i := 0;
    while i < argsCount
      invariant 0 <= i <= argsCount
      invariant g.Valid() && At(g, current, |g.nodes|)
      invariant g.code == Loads(i)
      invariant fresh(g.Footprint() - old(g.Footprint()))
    {
      assert Loads(i + 1) == Loads(i) + [LoadArg(i % 65536)];
      current := Append(g, current, LoadArg(i));
      i := i + 1;
    }
  }

  /** The body forwards every argument of the method to the target and returns its result
      exactly when the method is static and not generic and its parameter count is the byte
      read as such: a two-byte count gives 128 loads, whatever it stands for. */
  lemma {:induction false} RedirectForwardsIff(env: Env, name: string, sig: seq<byte>, args: seq<Value>)
    requires |sig| <= 256 && ParseSignature(sig).Some?
    requires ArgumentsFit(ParseSignature(sig).value, args)
    requires env.returnsValue == (ParseSignature(sig).value.ret != Simple(ELEMENT_TYPE_VOID))
    ensures
      var s, target := ParseSignature(sig).value, MethodRef(name, sig);
      Run(env, ForwardCode(sig[1], target), args, Running([], []))
        == CalledAndReturned(env, Method(target), s, args)
      <==> !HasThis(s.callConv) && s.generics == 0 && |s.params| <= 128
  {
    var s, target := ParseSignature(sig).value, MethodRef(name, sig);
    var n := sig[1];
    RedirectRuns(env, n, target, args);
    if s.generics == 0 {
      LoadedCount(sig);
      if n <= |args| {
        CallThenRet(env, Method(target), s, args, args[..n]);
        OnlyOnAll(env, target, s, args, n);
      }
    }
  }

  lemma {:induction false} RedirectRuns(env: Env, n: byte, target: Token, args: seq<Value>)
    requires |args| < 256
    ensures Run(env, ForwardCode(n, target), args, Running([], [])) ==
      if n > |args| then Fault else Exec(env, Ret, args, Exec(env, Call(target), args, Running(args[..n], [])))
  {
    var start := Running([], []);
    LoadsPushArguments(env, 0, n, args, start);
    assert Loads(n)[0..] == Loads(n);
    RunAppend(env, Loads(n) + [Call(target)], [Ret], args, start);
    RunAppend(env, Loads(n), [Call(target)], args, start);
    var loaded := Run(env, Loads(n), args, start);
    RunOne(env, Call(target), args, loaded);
    RunOne(env, Ret, args, Exec(env, Call(target), args, loaded));
    if n <= |args| {
      assert [] + args[0..n] == args[..n];
    }
  }

  lemma {:induction false} OnlyOnAll(env: Env, target: Token, s: Signature, args: seq<Value>, n: nat)
    requires n <= |args| && ArgumentsFit(s, args)
    ensures CalledAndReturned(env, Method(target), s, args[..n]) == CalledAndReturned(env, Method(target), s, args)
      <==> n == |args|
  {
    if n == |args| {
      assert args[..n] == args;
    }
  }

  lemma {:induction false} LoadedCount(sig: seq<byte>)
    requires |sig| <= SignatureBufferSize && ParseSignature(sig).Some? && ParseSignature(sig).value.generics == 0
    ensures
      var p := |ParseSignature(sig).value.params|;
      sig[1] == if p < 128 then p else 128
  {
    ParsedSignatureIsEncoded(sig);
    var s := ParseSignature(sig).value;
    assert sig == [s.callConv] + (EncodeCount(|s.params|) + EncodeBody(s));
  }
}
