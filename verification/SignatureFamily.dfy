/** DecorationCallbacksInfoStaticReader.cpp: the signatures of the callback overloads, made from
    a template by adding up to N parameters of type object. */
module DecorationCallbacks {
  import opened Results
  import opened Sequences
  import opened Cil

  const ArgsCountSigIndex := 1
  const MinimalSigSize := 3

  const BeginCallbackTheShortestSignature: seq<byte> :=
    [CALLCONV_DEFAULT, 1, ELEMENT_TYPE_OBJECT, ELEMENT_TYPE_I4]
  const EndCallbackTheShortestSignature: seq<byte> :=
    [CALLCONV_DEFAULT, 3, ELEMENT_TYPE_OBJECT, ELEMENT_TYPE_I4, ELEMENT_TYPE_OBJECT, ELEMENT_TYPE_OBJECT]
  const ExceptionCallbackTheShortestSignature: seq<byte> :=
    [CALLCONV_DEFAULT, 3, ELEMENT_TYPE_VOID, ELEMENT_TYPE_I4, ELEMENT_TYPE_OBJECT, ELEMENT_TYPE_OBJECT]

  datatype CallbackInfo = CallbackInfo(name: string, sig: seq<byte>)

  function AddToByte(b: byte, n: nat): byte {
    (b as nat + n) % 256
  }

  /** The signature with n more objects. */
  function Extended(template: seq<byte>, n: nat): seq<byte>
    requires |template| > ArgsCountSigIndex
  {
    template[ArgsCountSigIndex := AddToByte(template[ArgsCountSigIndex], n)] + Objects(n)
  }

  function Objects(n: nat): (r: seq<byte>)
    ensures |r| == n
  {
    seq(n, (k: nat) => ELEMENT_TYPE_OBJECT)
  }

  method GenerateCallbackInfosForNCustomArgs(name: string, maxCustomArgsCount: nat, template: seq<byte>)
    returns (callbacks: seq<CallbackInfo>)
    requires |template| > ArgsCountSigIndex
    ensures |callbacks| == maxCustomArgsCount + 1
    ensures forall n :: 0 <= n <= maxCustomArgsCount ==> callbacks[n] == CallbackInfo(name, Extended(template, n))
    ensures forall i, j :: 0 <= i < j <= maxCustomArgsCount ==> callbacks[i].sig != callbacks[j].sig
  {
    callbacks := [];
    var idx := 0;
    while idx <= maxCustomArgsCount
      invariant 0 <= idx <= maxCustomArgsCount + 1 && |callbacks| == idx
      invariant forall n :: 0 <= n < idx ==> callbacks[n] == CallbackInfo(name, Extended(template, n))
    {
      var sig := template;
      sig := sig[ArgsCountSigIndex := AddToByte(sig[ArgsCountSigIndex], idx)];
      ghost var head := sig;
      var argsIdx := 1;
      while argsIdx <= idx
        invariant 1 <= argsIdx <= idx + 1
        invariant sig == head + Objects(argsIdx - 1)
      {
        assert Objects(argsIdx) == Objects(argsIdx - 1) + [ELEMENT_TYPE_OBJECT];
        sig := sig + [ELEMENT_TYPE_OBJECT];
        argsIdx := argsIdx + 1;
      }
      callbacks := callbacks + [CallbackInfo(name, sig)];
      idx := idx + 1;
    }
    assert forall n :: 0 <= n <= maxCustomArgsCount ==> |Extended(template, n)| == |template| + n;
  }

  /** An unsigned count: minus one stands for an invalid signature. */
  function GetParamCount(info: CallbackInfo): int {
    if |info.sig| >= MinimalSigSize then info.sig[ArgsCountSigIndex] else 0xffff_ffff
  }

  // ---------- what the signatures say ----------

  function ObjectTypes(n: nat): (r: seq<SigType>)
    ensures |r| == n
  {
    seq(n, (k: nat) => Simple(ELEMENT_TYPE_OBJECT))
  }

  function WithObjects(s: Signature, n: nat): Signature {
    s.(params := s.params + ObjectTypes(n))
  }

  lemma {:induction false} EncodeTypesAppend(a: seq<SigType>, b: seq<SigType>)
    ensures EncodeTypes(a + b) == EncodeTypes(a) + EncodeTypes(b)
    ensures WellFormedTypes(a + b) <==> WellFormedTypes(a) && WellFormedTypes(b)
  {
    if a == [] {
      assert a + b == b;
    } else {
      EncodeTypesAppend(a[1..], b);
      EncodeTypesCons(a[0], a[1..] + b);
      assert a + b == [a[0]] + (a[1..] + b);
      Associative(EncodeType(a[0]), EncodeTypes(a[1..]), EncodeTypes(b));
    }
  }

  lemma {:induction false} ObjectsAreTypes(n: nat)
    ensures EncodeTypes(ObjectTypes(n)) == Objects(n) && WellFormedTypes(ObjectTypes(n))
  {
    if n > 0 {
      ObjectsAreTypes(n - 1);
      EncodeTypesCons(Simple(ELEMENT_TYPE_OBJECT), ObjectTypes(n - 1));
      assert ObjectTypes(n) == [Simple(ELEMENT_TYPE_OBJECT)] + ObjectTypes(n - 1);
      assert Objects(n) == [ELEMENT_TYPE_OBJECT] + Objects(n - 1);
    }
  }

  /** What is wanted: well-formed while the count can be written, and longer only by the
      objects and perhaps a byte of the count. */
  lemma {:induction false} WantedBlob(s: Signature, n: nat)
    requires WellFormedSignature(s)
    ensures WellFormedSignature(WithObjects(s, n)) <==> |s.params| + n < 0x4000
    ensures EncodeSignature(WithObjects(s, n)) ==
      EncodeHead(s) + (EncodeCount(|s.params| + n) + (EncodeBody(s) + Objects(n)))
  {
    EncodeTypesAppend(s.params, ObjectTypes(n));
    ObjectsAreTypes(n);
    Associative(EncodeType(s.ret), EncodeTypes(s.params), Objects(n));
  }

  lemma {:induction false} NothingAdded(template: seq<byte>, s: Signature)
    requires |template| > ArgsCountSigIndex
    ensures Extended(template, 0) == template && WithObjects(s, 0) == s
  {
    assert s.params + [] == s.params;
  }

  /** The count byte of a method that is not generic is its parameter count while that fits. */
  lemma {:induction false} OneByteCount(s: Signature, n: nat)
    requires s.generics == 0 && |s.params| < 0x80
    ensures Extended(EncodeSignature(s), n) ==
      [s.callConv, AddToByte(|s.params|, n)] + (EncodeBody(s) + Objects(n))
  {
    assert EncodeSignature(s) == [s.callConv, |s.params|] + EncodeBody(s);
  }

  /** A count of two bytes is not counted up by adding to its first. */
  lemma {:induction false} TwoByteCount(s: Signature, n: nat)
    requires s.generics == 0 && |s.params| >= 0x80 && 0 < n && |s.params| + n < 0x4000
    ensures Extended(EncodeSignature(s), n)[1..3] != EncodeCount(|s.params| + n)
  {
    var p := |s.params|;
    var sig := EncodeSignature(s);
    assert sig == [s.callConv] + (EncodeCount(p) + EncodeBody(s));
    assert sig[1] == 0x80 + p / 256 && sig[2] == p % 256;
    var got := Extended(sig, n)[1..3];
    assert got[0] == AddToByte(sig[1], n) && got[1] == sig[2];
  }

  /** In a generic method it is the number of type parameters that is counted up. */
  lemma {:induction false} GenericCount(s: Signature, n: nat)
    requires s.generics > 0 && 0 < n && |s.params| + n < 0x4000
    ensures Extended(EncodeSignature(s), n) !=
      EncodeHead(s) + (EncodeCount(|s.params| + n) + (EncodeBody(s) + Objects(n)))
  {
    var head, was, now := EncodeHead(s), EncodeCount(|s.params|), EncodeCount(|s.params| + n);
    var got := Extended(EncodeSignature(s), n);
    var wanted := head + (now + (EncodeBody(s) + Objects(n)));
    if |got| == |wanted| {
      assert |was| == |now| && |head| >= 2;
      assert got[|head|..|head| + |was|] == EncodeSignature(s)[|head|..|head| + |was|] == was;
      assert wanted[|head|..|head| + |was|] == now;
      ParseEncodedCount(|s.params|, []);
      ParseEncodedCount(|s.params| + n, []);
    }
  }

  /** A template of any signature gives, with n more objects, the signature with just these
      parameters more, exactly if nothing is added, or the method is not generic and the count
      still fits its one byte. */
  lemma {:induction false} ExtendedParsesIff(template: seq<byte>, n: nat)
    requires ParseSignature(template).Some?
    ensures
      var s := ParseSignature(template).value;
      ParseSignature(Extended(template, n)) == Some(WithObjects(s, n))
      <==> n == 0 || (s.generics == 0 && template[1] + n < 0x80)
  {
    var s := ParseSignature(template).value;
    if n == 0 {
      NothingAdded(template, s);
    } else {
      ParsedSignatureIsEncoded(template);
      WantedBlob(s, n);
      SignatureRoundTrip(Extended(template, n), WithObjects(s, n));
      if s.generics > 0 {
        if |s.params| + n < 0x4000 {
          GenericCount(s, n);
        }
      } else {
        CountDecides(s, n);
      }
    }
  }

  lemma {:induction false} CountDecides(s: Signature, n: nat)
    requires WellFormedSignature(s) && s.generics == 0 && 0 < n
    ensures |EncodeSignature(s)| > 1
    ensures
      (|s.params| + n < 0x4000
       && Extended(EncodeSignature(s), n)
         == EncodeHead(s) + (EncodeCount(|s.params| + n) + (EncodeBody(s) + Objects(n))))
      <==> EncodeSignature(s)[1] + n < 0x80
  {
    var wanted := EncodeHead(s) + (EncodeCount(|s.params| + n) + (EncodeBody(s) + Objects(n)));
    assert EncodeHead(s) == [s.callConv];
    if |s.params| < 0x80 {
      OneByteCount(s, n);
      assert EncodeSignature(s)[1] == |s.params|;
      if |s.params| + n < 0x80 {
        assert wanted == [s.callConv, |s.params| + n] + (EncodeBody(s) + Objects(n));
      } else {
        assert |Extended(EncodeSignature(s), n)| < |wanted|;
      }
    } else {
      assert EncodeSignature(s)[1] == EncodeCount(|s.params|)[0];
      if |s.params| + n < 0x4000 {
        TwoByteCount(s, n);
        assert wanted[1..3] == EncodeCount(|s.params| + n);
      }
    }
  }

  /** The three templates, as signatures. */
  function TemplateOf(ret: byte, more: nat): Signature {
    Signature(CALLCONV_DEFAULT, 0, Simple(ret), [Simple(ELEMENT_TYPE_I4)] + ObjectTypes(more))
  }

  lemma {:induction false} TemplateReads(ret: byte, more: nat)
    requires IsOneByteType(ret) && more < 0x7f
    ensures ParseSignature([CALLCONV_DEFAULT, more + 1, ret, ELEMENT_TYPE_I4] + Objects(more))
      == Some(TemplateOf(ret, more))
  {
    var s := TemplateOf(ret, more);
    ObjectsAreTypes(more);
    EncodeTypesCons(Simple(ELEMENT_TYPE_I4), ObjectTypes(more));
    assert EncodeSignature(s) == [CALLCONV_DEFAULT, more + 1, ret, ELEMENT_TYPE_I4] + Objects(more);
    ParseEncodedSignature(s);
  }

  lemma {:induction false} TemplatesRead()
    ensures ParseSignature(BeginCallbackTheShortestSignature) == Some(TemplateOf(ELEMENT_TYPE_OBJECT, 0))
    ensures ParseSignature(EndCallbackTheShortestSignature) == Some(TemplateOf(ELEMENT_TYPE_OBJECT, 2))
    ensures ParseSignature(ExceptionCallbackTheShortestSignature) == Some(TemplateOf(ELEMENT_TYPE_VOID, 2))
  {
    TemplateReads(ELEMENT_TYPE_OBJECT, 0);
    TemplateReads(ELEMENT_TYPE_OBJECT, 2);
    TemplateReads(ELEMENT_TYPE_VOID, 2);
    var zero, two: byte := 0, 2;
    assert [CALLCONV_DEFAULT, zero + 1, ELEMENT_TYPE_OBJECT, ELEMENT_TYPE_I4] + Objects(0)
      == BeginCallbackTheShortestSignature;
    assert Objects(2) == [ELEMENT_TYPE_OBJECT, ELEMENT_TYPE_OBJECT];
    assert [CALLCONV_DEFAULT, two + 1, ELEMENT_TYPE_OBJECT, ELEMENT_TYPE_I4] + Objects(2)
      == EndCallbackTheShortestSignature;
    assert [CALLCONV_DEFAULT, two + 1, ELEMENT_TYPE_VOID, ELEMENT_TYPE_I4] + Objects(2)
      == ExceptionCallbackTheShortestSignature;
  }

  /** Every signature that is generated for the three callbacks is right, and its parameter
      count is what GetParamCount says. */
  lemma {:induction false} CallbackSignatures(name: string, template: seq<byte>, n: nat)
    requires template in
      {BeginCallbackTheShortestSignature, EndCallbackTheShortestSignature, ExceptionCallbackTheShortestSignature}
    requires n <= 14
    ensures ParseSignature(template).Some? && ParseSignature(template).value.params[0] == Simple(ELEMENT_TYPE_I4)
    ensures |ParseSignature(template).value.params| == template[1]
    ensures ParseSignature(Extended(template, n)) == Some(WithObjects(ParseSignature(template).value, n))
    ensures GetParamCount(CallbackInfo(name, Extended(template, n))) ==
      |ParseSignature(Extended(template, n)).value.params|
  {
    TemplatesRead();
    ExtendedParsesIff(template, n);
  }
}
