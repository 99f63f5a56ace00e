/** The part of CIL that the emitters use: metadata tokens, method signatures
    (ECMA-335 II.23.2.1, II.23.2.3 and II.23.2.12) and a stack machine for straight-line code. */
module Cil {
  import opened Results
  import opened Sequences

  type byte = x: int | 0 <= x < 256
  type ushort = x: int | 0 <= x < 65536

  const ELEMENT_TYPE_VOID: byte := 0x01
  const ELEMENT_TYPE_BOOLEAN: byte := 0x02
  const ELEMENT_TYPE_I4: byte := 0x08
  const ELEMENT_TYPE_U4: byte := 0x09
  const ELEMENT_TYPE_I8: byte := 0x0a
  const ELEMENT_TYPE_U8: byte := 0x0b
  const ELEMENT_TYPE_R4: byte := 0x0c
  const ELEMENT_TYPE_R8: byte := 0x0d
  const ELEMENT_TYPE_STRING: byte := 0x0e
  const ELEMENT_TYPE_PTR: byte := 0x0f
  const ELEMENT_TYPE_BYREF: byte := 0x10
  const ELEMENT_TYPE_VALUETYPE: byte := 0x11
  const ELEMENT_TYPE_CLASS: byte := 0x12
  const ELEMENT_TYPE_VAR: byte := 0x13
  const ELEMENT_TYPE_ARRAY: byte := 0x14
  const ELEMENT_TYPE_GENERICINST: byte := 0x15
  const ELEMENT_TYPE_TYPEDBYREF: byte := 0x16
  const ELEMENT_TYPE_I: byte := 0x18
  const ELEMENT_TYPE_U: byte := 0x19
  const ELEMENT_TYPE_FNPTR: byte := 0x1b
  const ELEMENT_TYPE_OBJECT: byte := 0x1c
  const ELEMENT_TYPE_SZARRAY: byte := 0x1d
  const ELEMENT_TYPE_MVAR: byte := 0x1e
  const ELEMENT_TYPE_CMOD_REQD: byte := 0x1f
  const ELEMENT_TYPE_CMOD_OPT: byte := 0x20

  const CALLCONV_DEFAULT: byte := 0x00
  const CALLCONV_STDCALL: byte := 0x02
  const CALLCONV_VARARG: byte := 0x05

  // ---------- tokens and signatures ----------

  /** A token is named by what it was defined from, so equal definitions give equal tokens. */
  datatype Token =
    | WellKnownType(element: byte)       // DefineTypeToken on a type of mscorlib
    | TypeToken(id: nat)                 // ITokenType::GetToken
    | StandAloneSig(blob: seq<byte>)     // GetTokenFromSig
    | MethodRef(name: string, blob: seq<byte>)

  /** `coded` is a compressed token, or the number of a generic parameter. */
  datatype SigType =
    | Simple(element: byte)
    | Coded(element: byte, coded: Integer)
    | Derived(element: byte, of: SigType)
    | Modified(element: byte, coded: Integer, of: SigType)
    | Shaped(of: SigType, shape: Shape)
    | Instance(of: SigType, args: seq<SigType>)
    | Function(callConv: byte, ret: SigType, params: seq<SigType>)

  /** `generics` is the number of the method's own type parameters. */
  datatype Signature = Signature(callConv: byte, generics: nat, ret: SigType, params: seq<SigType>)

  /** An element type that is a whole type by itself. */
  predicate IsOneByteType(b: byte) {
    ELEMENT_TYPE_VOID <= b <= ELEMENT_TYPE_STRING || b == ELEMENT_TYPE_TYPEDBYREF
    || b == ELEMENT_TYPE_I || b == ELEMENT_TYPE_U || b == ELEMENT_TYPE_OBJECT
  }

  predicate IsPrefix(b: byte) {
    b == ELEMENT_TYPE_PTR || b == ELEMENT_TYPE_BYREF || b == ELEMENT_TYPE_SZARRAY
  }

  predicate IsModifier(b: byte) {
    b == ELEMENT_TYPE_CMOD_REQD || b == ELEMENT_TYPE_CMOD_OPT
  }

  predicate TakesNumber(b: byte) {
    ELEMENT_TYPE_VALUETYPE <= b <= ELEMENT_TYPE_VAR || b == ELEMENT_TYPE_MVAR
  }

  // ---------- compressed integers (ECMA-335 II.23.2) ----------

  /** Compressed integers take one, two or four bytes; the first byte tells which. */
  function CompressedLength(first: byte): nat {
    if first < 0x80 then 1 else if first < 0xc0 then 2 else 4
  }

  /** A compressed integer is kept as its bytes; only counts are decoded. */
  type Integer = seq<byte>

  predicate WellFormedInteger(c: Integer) {
    c != [] && |c| == CompressedLength(c[0])
  }

  predicate WellFormedIntegers(cs: seq<Integer>) {
    cs == [] || (WellFormedInteger(cs[0]) && WellFormedIntegers(cs[1..]))
  }

  function Joined(cs: seq<Integer>): seq<byte> {
    if cs == [] then [] else cs[0] + Joined(cs[1..])
  }

  /** A thing read and the bytes after it. */
  datatype Parsed<T> = Parsed(value: T, rest: seq<byte>)

  function ParseInteger(blob: seq<byte>): (r: Option<Parsed<Integer>>)
    ensures r.Some? ==> WellFormedInteger(r.value.value) && |r.value.rest| < |blob|
  {
    if blob == [] || |blob| < CompressedLength(blob[0]) then None
    else Some(Parsed(blob[..CompressedLength(blob[0])], blob[CompressedLength(blob[0])..]))
  }

  function ParseIntegers(n: nat, blob: seq<byte>): (r: Option<Parsed<seq<Integer>>>)
    ensures r.Some? ==> |r.value.value| == n && |r.value.rest| <= |blob|
  {
    if n == 0 then Some(Parsed([], blob))
    else
      var head := ParseInteger(blob);
      if head.None? then None
      else
        var tail := ParseIntegers(n - 1, head.value.rest);
        if tail.None? then None else Some(Parsed([head.value.value] + tail.value.value, tail.value.rest))
  }

  lemma {:induction false} ParseGivenInteger(c: Integer, rest: seq<byte>)
    requires WellFormedInteger(c)
    ensures ParseInteger(c + rest) == Some(Parsed(c, rest))
  {
    assert (c + rest)[..|c|] == c && (c + rest)[|c|..] == rest;
  }

  lemma {:induction false} ParseJoined(cs: seq<Integer>, rest: seq<byte>)
    requires WellFormedIntegers(cs)
    ensures ParseIntegers(|cs|, Joined(cs) + rest) == Some(Parsed(cs, rest))
  {
    if cs == [] {
      assert Joined(cs) + rest == rest;
    } else {
      Associative(cs[0], Joined(cs[1..]), rest);
      ParseGivenInteger(cs[0], Joined(cs[1..]) + rest);
      ParseJoined(cs[1..], rest);
      assert [cs[0]] + cs[1..] == cs;
    }
  }

  lemma {:induction false} ParsedIntegerIsItself(blob: seq<byte>)
    requires ParseInteger(blob).Some?
    ensures blob == ParseInteger(blob).value.value + ParseInteger(blob).value.rest
  {
  }

  lemma {:induction false} JoinedCons(c: Integer, cs: seq<Integer>)
    ensures Joined([c] + cs) == c + Joined(cs)
    ensures WellFormedIntegers([c] + cs) <==> WellFormedInteger(c) && WellFormedIntegers(cs)
  {
    assert ([c] + cs)[1..] == cs;
  }

  lemma {:induction false} ParsedIntegersAreJoined(n: nat, blob: seq<byte>)
    requires ParseIntegers(n, blob).Some?
    ensures WellFormedIntegers(ParseIntegers(n, blob).value.value)
    ensures blob == Joined(ParseIntegers(n, blob).value.value) + ParseIntegers(n, blob).value.rest
  {
    if n > 0 {
      var head := ParseInteger(blob).value;
      var tail := ParseIntegers(n - 1, head.rest).value;
      ParsedIntegerIsItself(blob);
      ParsedIntegersAreJoined(n - 1, head.rest);
      JoinedCons(head.value, tail.value);
      Associative(head.value, Joined(tail.value), tail.rest);
    }
  }

  /** A count: one byte, or two from 128 on (four are never needed). */
  function EncodeCount(n: nat): (r: seq<byte>)
    ensures r != []
  {
    if n < 0x80 then [n]
    else if n < 0x4000 then [0x80 + n / 256, n % 256]
    else [0xc0 + n / 0x100_0000 % 32, n / 0x1_0000 % 256, n / 256 % 256, n % 256]
  }

  function ParseCount(blob: seq<byte>): (r: Option<Parsed<nat>>)
    ensures r.Some? ==> r.value.value < 0x4000 && |r.value.rest| < |blob|
    ensures r.Some? ==> blob == EncodeCount(r.value.value) + r.value.rest
  {
    if blob == [] then None
    else if blob[0] < 0x80 then Some(Parsed(blob[0], blob[1..]))
    else if |blob| > 1 && 0x80 <= (blob[0] as int - 0x80) * 256 + blob[1] < 0x4000 then
      Some(Parsed((blob[0] as int - 0x80) * 256 + blob[1], blob[2..]))
    else None
  }

  lemma {:induction false} ParseEncodedCount(n: nat, rest: seq<byte>)
    requires n < 0x4000
    ensures ParseCount(EncodeCount(n) + rest) == Some(Parsed(n, rest))
  {
    var blob := EncodeCount(n) + rest;
    assert blob[|EncodeCount(n)|..] == rest;
  }

  /** A count and as many integers. */
  function EncodeList(cs: seq<Integer>): seq<byte> {
    EncodeCount(|cs|) + Joined(cs)
  }

  function ParseList(blob: seq<byte>): (r: Option<Parsed<seq<Integer>>>)
    ensures r.Some? ==> |r.value.rest| < |blob|
  {
    var count := ParseCount(blob);
    if count.None? then None else ParseIntegers(count.value.value, count.value.rest)
  }

  lemma {:induction false} ParseEncodedList(cs: seq<Integer>, rest: seq<byte>)
    requires WellFormedIntegers(cs) && |cs| < 0x4000
    ensures ParseList(EncodeList(cs) + rest) == Some(Parsed(cs, rest))
  {
    Associative(EncodeCount(|cs|), Joined(cs), rest);
    ParseEncodedCount(|cs|, Joined(cs) + rest);
    ParseJoined(cs, rest);
  }

  lemma {:induction false} ParsedListIsEncoded(blob: seq<byte>)
    requires ParseList(blob).Some?
    ensures WellFormedIntegers(ParseList(blob).value.value) && |ParseList(blob).value.value| < 0x4000
    ensures blob == EncodeList(ParseList(blob).value.value) + ParseList(blob).value.rest
  {
    var count, got := ParseCount(blob).value, ParseList(blob).value;
    ParsedIntegersAreJoined(count.value, count.rest);
    Associative(EncodeCount(count.value), Joined(got.value), got.rest);
  }

  /** Rank, sizes and lower bounds of an array. */
  datatype Shape = Shape(rank: Integer, sizes: seq<Integer>, bounds: seq<Integer>)

  predicate WellFormedShape(h: Shape) {
    && WellFormedInteger(h.rank)
    && WellFormedIntegers(h.sizes) && |h.sizes| < 0x4000
    && WellFormedIntegers(h.bounds) && |h.bounds| < 0x4000
  }

  function EncodeShape(h: Shape): seq<byte> {
    h.rank + (EncodeList(h.sizes) + EncodeList(h.bounds))
  }

  function ParseShape(blob: seq<byte>): (r: Option<Parsed<Shape>>)
    ensures r.Some? ==> |r.value.rest| < |blob|
  {
    var rank := ParseInteger(blob);
    if rank.None? then None
    else
      var sizes := ParseList(rank.value.rest);
      if sizes.None? then None
      else
        var bounds := ParseList(sizes.value.rest);
        if bounds.None? then None
        else Some(Parsed(Shape(rank.value.value, sizes.value.value, bounds.value.value), bounds.value.rest))
  }

  lemma {:induction false} ParseEncodedShape(h: Shape, rest: seq<byte>)
    requires WellFormedShape(h)
    ensures ParseShape(EncodeShape(h) + rest) == Some(Parsed(h, rest))
  {
    var sizes, bounds := EncodeList(h.sizes), EncodeList(h.bounds);
    Associative(sizes, bounds, rest);
    Associative(h.rank, sizes + bounds, rest);
    ParseGivenInteger(h.rank, sizes + (bounds + rest));
    ParseEncodedList(h.sizes, bounds + rest);
    ParseEncodedList(h.bounds, rest);
  }

  lemma {:induction false} ParsedShapeIsEncoded(blob: seq<byte>)
    requires ParseShape(blob).Some?
    ensures WellFormedShape(ParseShape(blob).value.value)
    ensures blob == EncodeShape(ParseShape(blob).value.value) + ParseShape(blob).value.rest
  {
    var rank := ParseInteger(blob).value;
    var sizes := ParseList(rank.rest).value;
    var bounds := ParseList(sizes.rest).value;
    ParsedIntegerIsItself(blob);
    ParsedListIsEncoded(rank.rest);
    ParsedListIsEncoded(sizes.rest);
    Associative(EncodeList(sizes.value), EncodeList(bounds.value), bounds.rest);
    Associative(rank.value, EncodeList(sizes.value) + EncodeList(bounds.value), bounds.rest);
  }

  // ---------- types (ECMA-335 II.23.2.12) ----------

  predicate WellFormedType(t: SigType)
    decreases t
  {
    match t
    case Simple(b) => IsOneByteType(b)
    case Coded(b, coded) => TakesNumber(b) && WellFormedInteger(coded)
    case Derived(b, of) => IsPrefix(b) && WellFormedType(of)
    case Modified(b, coded, of) => IsModifier(b) && WellFormedInteger(coded) && WellFormedType(of)
    case Shaped(of, shape) => WellFormedType(of) && WellFormedShape(shape)
    case Instance(of, args) => WellFormedType(of) && |args| < 0x4000 && WellFormedTypes(args)
    case Function(callConv, ret, params) =>
      IsPlainConvention(callConv) && WellFormedType(ret) && |params| < 0x4000 && WellFormedTypes(params)
  }

  /** No parameter and no type argument is void. */
  predicate WellFormedTypes(ts: seq<SigType>)
    decreases ts
  {
    ts == [] || (WellFormedType(ts[0]) && ts[0] != Simple(ELEMENT_TYPE_VOID) && WellFormedTypes(ts[1..]))
  }

  function EncodeType(t: SigType): (r: seq<byte>)
    ensures r != []
    decreases t
  {
    match t
    case Simple(b) => [b]
    case Coded(b, coded) => [b] + coded
    case Derived(b, of) => [b] + EncodeType(of)
    case Modified(b, coded, of) => [b] + (coded + EncodeType(of))
    case Shaped(of, shape) => [ELEMENT_TYPE_ARRAY] + (EncodeType(of) + EncodeShape(shape))
    case Instance(of, args) =>
      [ELEMENT_TYPE_GENERICINST] + (EncodeType(of) + (EncodeCount(|args|) + EncodeTypes(args)))
    case Function(callConv, ret, params) =>
      [ELEMENT_TYPE_FNPTR, callConv]
      + (EncodeCount(|params|) + (EncodeType(ret) + EncodeTypes(params)))
  }

  function EncodeTypes(ts: seq<SigType>): seq<byte>
    decreases ts
  {
    if ts == [] then [] else EncodeType(ts[0]) + EncodeTypes(ts[1..])
  }

  function ParseType(blob: seq<byte>): (r: Option<Parsed<SigType>>)
    ensures r.Some? ==> |r.value.rest| < |blob|
    decreases |blob|, 0
  {
    if blob == [] then None
    else if IsOneByteType(blob[0]) then Some(Parsed(Simple(blob[0]), blob[1..]))
    else if TakesNumber(blob[0]) then ParseCoded(blob[0], blob[1..])
    else if IsPrefix(blob[0]) then
      var of := ParseType(blob[1..]);
      if of.None? then None else Some(Parsed(Derived(blob[0], of.value.value), of.value.rest))
    else if IsModifier(blob[0]) then ParseModified(blob[0], blob[1..])
    else if blob[0] == ELEMENT_TYPE_ARRAY then ParseShaped(blob[1..])
    else if blob[0] == ELEMENT_TYPE_GENERICINST then ParseInstance(blob[1..])
    else if blob[0] == ELEMENT_TYPE_FNPTR then ParseFunction(blob[1..])
    else None
  }

  function ParseCoded(b: byte, blob: seq<byte>): (r: Option<Parsed<SigType>>)
    ensures r.Some? ==> |r.value.rest| < |blob|
  {
    var n := ParseInteger(blob);
    if n.None? then None else Some(Parsed(Coded(b, n.value.value), n.value.rest))
  }

  function ParseModified(b: byte, blob: seq<byte>): (r: Option<Parsed<SigType>>)
    ensures r.Some? ==> |r.value.rest| < |blob|
    decreases |blob|, 2
  {
    var n := ParseInteger(blob);
    if n.None? then None
    else
      var of := ParseType(n.value.rest);
      if of.None? then None else Some(Parsed(Modified(b, n.value.value, of.value.value), of.value.rest))
  }

  function ParseShaped(blob: seq<byte>): (r: Option<Parsed<SigType>>)
    ensures r.Some? ==> |r.value.rest| < |blob|
    decreases |blob|, 2
  {
    var of := ParseType(blob);
    if of.None? then None
    else
      var shape := ParseShape(of.value.rest);
      if shape.None? then None else Some(Parsed(Shaped(of.value.value, shape.value.value), shape.value.rest))
  }

  function ParseInstance(blob: seq<byte>): (r: Option<Parsed<SigType>>)
    ensures r.Some? ==> |r.value.rest| < |blob|
    decreases |blob|, 2
  {
    var of := ParseType(blob);
    if of.None? then None
    else
      var count := ParseCount(of.value.rest);
      if count.None? then None
      else
        var args := ParseTypes(count.value.value, count.value.rest);
        if args.None? then None else Some(Parsed(Instance(of.value.value, args.value.value), args.value.rest))
  }

  /** A function pointer: calling convention, count, return type, parameters. */
  function ParseFunction(blob: seq<byte>): (r: Option<Parsed<SigType>>)
    ensures r.Some? ==> |r.value.rest| < |blob|
    decreases |blob|, 2
  {
    if blob == [] || !IsPlainConvention(blob[0]) then None
    else
      var count := ParseCount(blob[1..]);
      if count.None? then None
      else
        var ret := ParseType(count.value.rest);
        if ret.None? then None
        else
          var params := ParseTypes(count.value.value, ret.value.rest);
          if params.None? then None
          else Some(Parsed(Function(blob[0], ret.value.value, params.value.value), params.value.rest))
  }

  function ParseTypes(n: nat, blob: seq<byte>): (r: Option<Parsed<seq<SigType>>>)
    ensures r.Some? ==> |r.value.value| == n && n + |r.value.rest| <= |blob|
    decreases |blob|, 1
  {
    if n == 0 then Some(Parsed([], blob))
    else
      var head := ParseType(blob);
      if head.None? || head.value.value == Simple(ELEMENT_TYPE_VOID) then None
      else
        var tail := ParseTypes(n - 1, head.value.rest);
        if tail.None? then None
        else Some(Parsed([head.value.value] + tail.value.value, tail.value.rest))
  }

  // ---------- reading is the inverse of writing ----------

  lemma {:induction false} ParseEncodedType(t: SigType, rest: seq<byte>)
    requires WellFormedType(t)
    ensures ParseType(EncodeType(t) + rest) == Some(Parsed(t, rest))
    decreases t
  {
    var blob := EncodeType(t) + rest;
    match t
    case Simple(b) =>
      assert blob[1..] == rest;
    case Coded(b, coded) =>
      ParseGivenInteger(coded, rest);
      assert blob[1..] == coded + rest;
    case Derived(b, of) =>
      assert blob[1..] == EncodeType(of) + rest;
      ParseEncodedType(of, rest);
    case Modified(b, coded, of) =>
      ParseEncodedModified(b, coded, of, rest);
    case Shaped(of, shape) =>
      ParseEncodedShaped(of, shape, rest);
    case Instance(of, args) =>
      ParseEncodedInstance(of, args, rest);
    case Function(callConv, ret, params) =>
      ParseEncodedFunction(callConv, ret, params, rest);
  }

  lemma {:induction false} ParseEncodedModified(b: byte, coded: Integer, of: SigType, rest: seq<byte>)
    requires WellFormedType(Modified(b, coded, of))
    ensures ParseType(EncodeType(Modified(b, coded, of)) + rest) == Some(Parsed(Modified(b, coded, of), rest))
    decreases Modified(b, coded, of), 0
  {
    var tail := EncodeType(of) + rest;
    ParseGivenInteger(coded, tail);
    Associative(coded, EncodeType(of), rest);
    Associative([b], coded + EncodeType(of), rest);
    ParseEncodedType(of, rest);
    ParseByElement(b, coded + tail);
  }

  lemma {:induction false} ParseEncodedShaped(of: SigType, shape: Shape, rest: seq<byte>)
    requires WellFormedType(Shaped(of, shape))
    ensures ParseType(EncodeType(Shaped(of, shape)) + rest) == Some(Parsed(Shaped(of, shape), rest))
    decreases Shaped(of, shape), 0
  {
    var code := EncodeShape(shape);
    var tail := EncodeType(of) + (code + rest);
    ShapedBlob(EncodeType(of), code, rest);
    ParseEncodedType(of, code + rest);
    ShapeBehindType(tail, of, shape, code, rest);
    ParseByElement(ELEMENT_TYPE_ARRAY, tail);
  }

  /** The first byte decides which reader the rest goes to. */
  lemma {:induction false} ParseByElement(b: byte, tail: seq<byte>)
    ensures TakesNumber(b) ==> ParseType([b] + tail) == ParseCoded(b, tail)
    ensures IsModifier(b) ==> ParseType([b] + tail) == ParseModified(b, tail)
    ensures b == ELEMENT_TYPE_ARRAY ==> ParseType([b] + tail) == ParseShaped(tail)
    ensures b == ELEMENT_TYPE_GENERICINST ==> ParseType([b] + tail) == ParseInstance(tail)
    ensures b == ELEMENT_TYPE_FNPTR ==> ParseType([b] + tail) == ParseFunction(tail)
  {
    BehindFirst([b] + tail, b, tail);
  }

  lemma {:induction false} ShapedBlob(front: seq<byte>, code: seq<byte>, rest: seq<byte>)
    ensures [ELEMENT_TYPE_ARRAY] + (front + code) + rest == [ELEMENT_TYPE_ARRAY] + (front + (code + rest))
  {
    Associative(front, code, rest);
    Associative([ELEMENT_TYPE_ARRAY], front + code, rest);
  }

  lemma {:induction false} BehindFirst(blob: seq<byte>, b: byte, tail: seq<byte>)
    requires blob == [b] + tail
    ensures blob != [] && blob[0] == b && blob[1..] == tail
  {
  }

  lemma {:induction false} ShapeBehindType(blob: seq<byte>, of: SigType, shape: Shape, code: seq<byte>, rest: seq<byte>)
    requires WellFormedShape(shape) && code == EncodeShape(shape)
    requires ParseType(blob) == Some(Parsed(of, code + rest))
    ensures ParseShaped(blob) == Some(Parsed(Shaped(of, shape), rest))
  {
    ParseEncodedShape(shape, rest);
  }

  lemma {:induction false} ParseEncodedInstance(of: SigType, args: seq<SigType>, rest: seq<byte>)
    requires WellFormedType(Instance(of, args))
    ensures ParseType(EncodeType(Instance(of, args)) + rest) == Some(Parsed(Instance(of, args), rest))
    decreases Instance(of, args), 0
  {
    var blob := EncodeType(Instance(of, args)) + rest;
    var last := EncodeTypes(args) + rest;
    var middle := EncodeCount(|args|) + last;
    Associative(EncodeCount(|args|), EncodeTypes(args), rest);
    Associative(EncodeType(of), EncodeCount(|args|) + EncodeTypes(args), rest);
    assert blob[1..] == EncodeType(of) + middle;
    ParseEncodedType(of, middle);
    ParseEncodedCount(|args|, last);
    ParseEncodedTypes(args, rest);
  }

  lemma {:induction false} ParseEncodedFunction(callConv: byte, ret: SigType, params: seq<SigType>, rest: seq<byte>)
    requires WellFormedType(Function(callConv, ret, params))
    ensures ParseType(EncodeType(Function(callConv, ret, params)) + rest)
      == Some(Parsed(Function(callConv, ret, params), rest))
    decreases Function(callConv, ret, params), 0
  {
    var blob := EncodeType(Function(callConv, ret, params)) + rest;
    var last := EncodeTypes(params) + rest;
    var middle := EncodeType(ret) + last;
    Associative(EncodeType(ret), EncodeTypes(params), rest);
    Associative(EncodeCount(|params|), EncodeType(ret) + EncodeTypes(params), rest);
    assert blob[1..][0] == callConv && blob[1..][1..] == EncodeCount(|params|) + middle;
    ParseEncodedCount(|params|, middle);
    ParseEncodedType(ret, last);
    ParseEncodedTypes(params, rest);
  }

  lemma {:induction false} ParseEncodedTypes(ts: seq<SigType>, rest: seq<byte>)
    requires WellFormedTypes(ts)
    ensures ParseTypes(|ts|, EncodeTypes(ts) + rest) == Some(Parsed(ts, rest))
    decreases ts
  {
    if ts == [] {
      assert EncodeTypes(ts) + rest == rest;
    } else {
      var more := EncodeTypes(ts[1..]) + rest;
      Associative(EncodeType(ts[0]), EncodeTypes(ts[1..]), rest);
      ParseEncodedType(ts[0], more);
      ParseEncodedTypes(ts[1..], rest);
      assert [ts[0]] + ts[1..] == ts;
    }
  }

  /** Behind its first byte. */
  ghost predicate TailIsEncoded(b: byte, tail: seq<byte>, got: Parsed<SigType>) {
    WellFormedType(got.value) && EncodeType(got.value)[0] == b && tail == EncodeType(got.value)[1..] + got.rest
  }

  lemma {:induction false} ParsedTypeIsEncoded(blob: seq<byte>)
    requires ParseType(blob).Some?
    ensures WellFormedType(ParseType(blob).value.value)
    ensures blob == EncodeType(ParseType(blob).value.value) + ParseType(blob).value.rest
    decreases |blob|, 0
  {
    var b, tail, got := blob[0], blob[1..], ParseType(blob).value;
    if IsOneByteType(b) {
      assert TailIsEncoded(b, tail, got);
    } else if TakesNumber(b) {
      ParsedCodedIsEncoded(b, tail);
    } else if IsPrefix(b) {
      ParsedTypeIsEncoded(tail);
      assert EncodeType(got.value)[1..] == EncodeType(got.value.of);
    } else if IsModifier(b) {
      ParsedModifiedIsEncoded(b, tail);
    } else if b == ELEMENT_TYPE_ARRAY {
      ParsedShapedIsEncoded(tail);
    } else if b == ELEMENT_TYPE_GENERICINST {
      ParsedInstanceIsEncoded(tail);
    } else {
      ParsedFunctionIsEncoded(tail);
    }
    assert TailIsEncoded(b, tail, got);
    WithFirst(blob, EncodeType(got.value), got.rest);
  }

  lemma {:induction false} WithFirst(blob: seq<byte>, code: seq<byte>, rest: seq<byte>)
    requires blob != [] && code != [] && blob[0] == code[0] && blob[1..] == code[1..] + rest
    ensures blob == code + rest
  {
    assert blob == [blob[0]] + blob[1..] && code == [code[0]] + code[1..];
    Associative([code[0]], code[1..], rest);
  }

  lemma {:induction false} ParsedCodedIsEncoded(b: byte, tail: seq<byte>)
    requires TakesNumber(b) && ParseCoded(b, tail).Some?
    ensures TailIsEncoded(b, tail, ParseCoded(b, tail).value)
  {
    var got := ParseCoded(b, tail).value;
    ParsedIntegerIsItself(tail);
    assert EncodeType(got.value)[1..] == got.value.coded;
  }

  lemma {:induction false} ParsedModifiedIsEncoded(b: byte, tail: seq<byte>)
    requires IsModifier(b) && ParseModified(b, tail).Some?
    ensures TailIsEncoded(b, tail, ParseModified(b, tail).value)
    decreases |tail|, 2
  {
    var n, got := ParseInteger(tail).value, ParseModified(b, tail).value;
    ParsedIntegerIsItself(tail);
    ParsedTypeIsEncoded(n.rest);
    var of := EncodeType(got.value.of);
    assert EncodeType(got.value)[1..] == n.value + of;
    Associative(n.value, of, got.rest);
  }

  lemma {:induction false} ParsedShapedIsEncoded(tail: seq<byte>)
    requires ParseShaped(tail).Some?
    ensures TailIsEncoded(ELEMENT_TYPE_ARRAY, tail, ParseShaped(tail).value)
    decreases |tail|, 2
  {
    var of, got := ParseType(tail).value, ParseShaped(tail).value;
    ParsedTypeIsEncoded(tail);
    ParsedShapeIsEncoded(of.rest);
    var shape := EncodeShape(got.value.shape);
    assert EncodeType(got.value)[1..] == EncodeType(of.value) + shape;
    Associative(EncodeType(of.value), shape, got.rest);
  }

  lemma {:induction false} ParsedInstanceIsEncoded(tail: seq<byte>)
    requires ParseInstance(tail).Some?
    ensures TailIsEncoded(ELEMENT_TYPE_GENERICINST, tail, ParseInstance(tail).value)
    decreases |tail|, 2
  {
    var of, got := ParseType(tail).value, ParseInstance(tail).value;
    var count := ParseCount(of.rest).value;
    ParsedTypeIsEncoded(tail);
    ParsedTypesAreEncoded(count.value, count.rest);
    var args, number := EncodeTypes(got.value.args), EncodeCount(count.value);
    assert EncodeType(got.value)[1..] == EncodeType(of.value) + (number + args);
    Associative(number, args, got.rest);
    Associative(EncodeType(of.value), number + args, got.rest);
  }

  lemma {:induction false} ParsedFunctionIsEncoded(tail: seq<byte>)
    requires ParseFunction(tail).Some?
    ensures TailIsEncoded(ELEMENT_TYPE_FNPTR, tail, ParseFunction(tail).value)
    decreases |tail|, 2
  {
    var got, count := ParseFunction(tail).value, ParseCount(tail[1..]).value;
    var ret := ParseType(count.rest).value;
    ParsedTypeIsEncoded(count.rest);
    ParsedTypesAreEncoded(count.value, ret.rest);
    var number, body := EncodeCount(count.value), EncodeType(ret.value) + EncodeTypes(got.value.params);
    assert EncodeType(got.value)[1..] == [tail[0]] + (number + body);
    Associative(EncodeType(ret.value), EncodeTypes(got.value.params), got.rest);
    Associative(number, body, got.rest);
    Associative([tail[0]], number + body, got.rest);
    assert tail == [tail[0]] + tail[1..];
  }

  lemma {:induction false} EncodeTypesCons(t: SigType, ts: seq<SigType>)
    ensures EncodeTypes([t] + ts) == EncodeType(t) + EncodeTypes(ts)
    ensures WellFormedTypes([t] + ts) <==> WellFormedType(t) && t != Simple(ELEMENT_TYPE_VOID) && WellFormedTypes(ts)
  {
    assert ([t] + ts)[1..] == ts;
  }

  lemma {:induction false} ParsedTypesAreEncoded(n: nat, blob: seq<byte>)
    requires ParseTypes(n, blob).Some?
    ensures WellFormedTypes(ParseTypes(n, blob).value.value)
    ensures blob == EncodeTypes(ParseTypes(n, blob).value.value) + ParseTypes(n, blob).value.rest
    decreases |blob|, 1
  {
    if n > 0 {
      var head := ParseType(blob).value;
      var tail := ParseTypes(n - 1, head.rest).value;
      ParsedTypeIsEncoded(blob);
      ParsedTypesAreEncoded(n - 1, head.rest);
      EncodeTypesCons(head.value, tail.value);
      Associative(EncodeType(head.value), EncodeTypes(tail.value), tail.rest);
    }
  }

  // ---------- method signatures (ECMA-335 II.23.2.1, II.23.2.3) ----------

  predicate IsGeneric(callConv: byte) {
    callConv / 16 % 2 == 1
  }

  /** A calling convention of methods, not generic. */
  predicate IsPlainConvention(callConv: byte) {
    callConv % 16 <= CALLCONV_VARARG && !IsGeneric(callConv)
  }

  predicate HasThis(callConv: byte) {
    callConv / 32 % 2 == 1
  }

  /** Calling convention, number of type parameters if generic, parameter count, return type,
      parameters, and nothing more. */
  function ParseSignature(blob: seq<byte>): (r: Option<Signature>)
    ensures r.Some? ==> |blob| >= 3 + |r.value.params| && r.value.callConv == blob[0]
    ensures r.Some? ==> (r.value.generics > 0 <==> IsGeneric(blob[0]))
  {
    if blob == [] || blob[0] % 16 > CALLCONV_VARARG then None
    else if IsGeneric(blob[0]) then
      var generics := ParseCount(blob[1..]);
      if generics.None? || generics.value.value == 0 then None
      else ParseRest(blob[0], generics.value.value, generics.value.rest)
    else ParseRest(blob[0], 0, blob[1..])
  }

  function ParseRest(callConv: byte, generics: nat, blob: seq<byte>): (r: Option<Signature>)
    ensures r.Some? ==> |blob| >= 2 + |r.value.params| && r.value.callConv == callConv && r.value.generics == generics
  {
    var count := ParseCount(blob);
    if count.None? then None
    else
      var ret := ParseType(count.value.rest);
      if ret.None? then None
      else
        var params := ParseTypes(count.value.value, ret.value.rest);
        if params.Some? && params.value.rest == [] then
          Some(Signature(callConv, generics, ret.value.value, params.value.value))
        else None
  }

  predicate WellFormedSignature(s: Signature) {
    && s.callConv % 16 <= CALLCONV_VARARG
    && (IsGeneric(s.callConv) <==> s.generics > 0) && s.generics < 0x4000
    && WellFormedType(s.ret) && |s.params| < 0x4000 && WellFormedTypes(s.params)
  }

  /** What comes before the parameter count. */
  function EncodeHead(s: Signature): (r: seq<byte>)
    ensures r != [] && r[0] == s.callConv
  {
    [s.callConv] + (if s.generics > 0 then EncodeCount(s.generics) else [])
  }

  function EncodeBody(s: Signature): seq<byte> {
    EncodeType(s.ret) + EncodeTypes(s.params)
  }

  function EncodeSignature(s: Signature): seq<byte> {
    EncodeHead(s) + (EncodeCount(|s.params|) + EncodeBody(s))
  }

  lemma {:induction false} ParseEncodedSignature(s: Signature)
    requires WellFormedSignature(s)
    ensures ParseSignature(EncodeSignature(s)) == Some(s)
  {
    var rest := EncodeCount(|s.params|) + EncodeBody(s);
    ParseEncodedRest(s);
    if s.generics > 0 {
      Associative([s.callConv], EncodeCount(s.generics), rest);
      ParseGenericHead(s.callConv, s.generics, rest);
    } else {
      assert EncodeHead(s) == [s.callConv];
      ParsePlainHead(s.callConv, rest);
    }
  }

  lemma {:induction false} ParsePlainHead(callConv: byte, rest: seq<byte>)
    requires IsPlainConvention(callConv)
    ensures ParseSignature([callConv] + rest) == ParseRest(callConv, 0, rest)
  {
    BehindFirst([callConv] + rest, callConv, rest);
  }

  lemma {:induction false} ParseGenericHead(callConv: byte, generics: nat, rest: seq<byte>)
    requires callConv % 16 <= CALLCONV_VARARG && IsGeneric(callConv) && 0 < generics < 0x4000
    ensures ParseSignature([callConv] + (EncodeCount(generics) + rest)) == ParseRest(callConv, generics, rest)
  {
    BehindFirst([callConv] + (EncodeCount(generics) + rest), callConv, EncodeCount(generics) + rest);
    ParseEncodedCount(generics, rest);
  }

  lemma {:induction false} ParseEncodedRest(s: Signature)
    requires WellFormedSignature(s)
    ensures ParseRest(s.callConv, s.generics, EncodeCount(|s.params|) + EncodeBody(s)) == Some(s)
  {
    ParseEncodedCount(|s.params|, EncodeBody(s));
    ParseEncodedType(s.ret, EncodeTypes(s.params));
    ParseEncodedTypes(s.params, []);
    assert EncodeTypes(s.params) + [] == EncodeTypes(s.params);
  }

  lemma {:induction false} ParsedSignatureIsEncoded(blob: seq<byte>)
    requires ParseSignature(blob).Some?
    ensures WellFormedSignature(ParseSignature(blob).value) && blob == EncodeSignature(ParseSignature(blob).value)
  {
    var s := ParseSignature(blob).value;
    assert blob == [blob[0]] + blob[1..];
    if IsGeneric(blob[0]) {
      var generics := ParseCount(blob[1..]).value;
      ParsedRestIsEncoded(blob[0], generics.value, generics.rest);
      Associative([blob[0]], EncodeCount(s.generics), generics.rest);
    } else {
      ParsedRestIsEncoded(blob[0], 0, blob[1..]);
      assert EncodeHead(s) == [blob[0]];
    }
  }

  lemma {:induction false} ParsedRestIsEncoded(callConv: byte, generics: nat, blob: seq<byte>)
    requires ParseRest(callConv, generics, blob).Some?
    ensures
      var s := ParseRest(callConv, generics, blob).value;
      && s.callConv == callConv && s.generics == generics
      && WellFormedType(s.ret) && |s.params| < 0x4000 && WellFormedTypes(s.params)
      && blob == EncodeCount(|s.params|) + EncodeBody(s)
  {
    var s, count := ParseRest(callConv, generics, blob).value, ParseCount(blob).value;
    var ret := ParseType(count.rest).value;
    ParsedTypeIsEncoded(count.rest);
    ParsedTypesAreEncoded(count.value, ret.rest);
    assert EncodeTypes(s.params) + [] == EncodeTypes(s.params);
  }

  /** Reading is the inverse of writing: a blob reads as a signature exactly if it is the
      encoding of that well-formed signature. */
  lemma {:induction false} SignatureRoundTrip(blob: seq<byte>, s: Signature)
    ensures ParseSignature(blob) == Some(s) <==> WellFormedSignature(s) && blob == EncodeSignature(s)
  {
    if ParseSignature(blob) == Some(s) {
      ParsedSignatureIsEncoded(blob);
    } else if WellFormedSignature(s) && blob == EncodeSignature(s) {
      ParseEncodedSignature(s);
    }
  }

  function ArgumentCount(s: Signature): nat {
    |s.params| + (if HasThis(s.callConv) then 1 else 0)
  }

  function SignatureOf(t: Token): Option<Signature> {
    match t
    case StandAloneSig(blob) => ParseSignature(blob)
    case MethodRef(_, blob) => ParseSignature(blob)
    case _ => None
  }

  /** What a call instruction can name: a generic method only through an instantiation, which
      none of these tokens is (ECMA-335 III.3.19). */
  function CalleeOf(t: Token): Option<Signature> {
    if SignatureOf(t).Some? && SignatureOf(t).value.generics > 0 then None else SignatureOf(t)
  }

  // ---------- instructions ----------

  datatype Op =
    | LdargShort(n: nat)        // ldarg.0 to ldarg.3
    | LdargS(index: byte)
    | Ldarg(operand: ushort)
    | LdcI4(value: int)
    | LdcI8(value: int)
    | Box(token: Token)
    | UnboxAny(token: Token)
    | Castclass(token: Token)
    | Call(token: Token)
    | Calli(token: Token)
    | Ret

  /** CLoadArgInstruction: the long form keeps only the low byte of the index. */
  function LoadArg(index: ushort): Op {
    if index < 4 then LdargShort(index)
    else if index <= 0xff then LdargS(index)
    else Ldarg(index % 256)
  }

  // ---------- the stack machine ----------

  /** The numbers of the evaluation stack (ECMA-335 III.1.1). */
  datatype NumberKind = Int32 | Int64 | NativeInt | Float

  datatype Value =
    | Num(kind: NumberKind, bits: nat)     // a primitive, an enum or an unmanaged pointer
    | Struct(id: nat)                      // a value of some other value type
    | Pointer(id: nat)                     // a managed pointer, such as `this` in a struct
    | Null
    | Object(id: nat, cls: nat)            // a reference to an instance of a class
    | Boxed(token: Token, content: Value)

  predicate IsReference(v: Value) {
    v.Null? || v.Object? || v.Boxed?
  }

  /** The fourteen element types of numbers: BOOLEAN, CHAR, I1, U1, I2, U2, I4, U4, I8, U8, R4, R8,
      and behind them I and U. */
  predicate IsPrimitive(b: byte) {
    b in {0x02, 0x03, 0x04, 0x05, 0x06, 0x07, 0x08, 0x09, 0x0a, 0x0b, 0x0c, 0x0d, 0x18, 0x19}
  }

  /** The kind of number that a primitive type or an unmanaged pointer has on the stack. */
  function KindOf(b: byte): NumberKind {
    if b == ELEMENT_TYPE_I8 || b == ELEMENT_TYPE_U8 then Int64
    else if b == ELEMENT_TYPE_R4 || b == ELEMENT_TYPE_R8 then Float
    else if b <= ELEMENT_TYPE_U4 then Int32
    else NativeInt
  }

  /** What a value of a type with this first byte can be on the stack.  A value type may be an
      enum, that is a number; what a type variable stands for is not known. */
  predicate FitsElement(b: byte, v: Value) {
    if IsPrimitive(b) || b == ELEMENT_TYPE_PTR || b == ELEMENT_TYPE_FNPTR then v.Num? && v.kind == KindOf(b)
    else if b == ELEMENT_TYPE_BYREF then v.Pointer?
    else if b == ELEMENT_TYPE_VALUETYPE then v.Struct? || v.Num?
    else if b == ELEMENT_TYPE_TYPEDBYREF then v.Struct?
    else IsReferenceElement(b) ==> IsReference(v)
  }

  predicate IsReferenceElement(b: byte) {
    b == ELEMENT_TYPE_STRING || b == ELEMENT_TYPE_CLASS || b == ELEMENT_TYPE_OBJECT
    || b == ELEMENT_TYPE_ARRAY || b == ELEMENT_TYPE_SZARRAY
  }

  predicate FitsType(t: SigType, v: Value)
    decreases t
  {
    match t
    case Simple(b) => FitsElement(b, v)
    case Coded(b, _) => FitsElement(b, v)
    case Derived(b, _) => FitsElement(b, v)
    case Modified(_, _, of) => FitsType(of, v)
    case Shaped(_, _) => FitsElement(ELEMENT_TYPE_ARRAY, v)
    case Instance(of, _) => FitsType(of, v)
    case Function(_, _, _) => FitsElement(ELEMENT_TYPE_FNPTR, v)
  }

  predicate TypesFit(ts: seq<SigType>, vs: seq<Value>) {
    |vs| == |ts| && forall k :: 0 <= k < |ts| ==> FitsType(ts[k], vs[k])
  }

  /** One argument per parameter and of its type, behind `this` if the signature has it.  No
      argument is converted implicitly here. */
  predicate ArgumentsFit(sig: Signature, args: seq<Value>) {
    if HasThis(sig.callConv) then
      args != [] && (IsReference(args[0]) || args[0].Pointer?) && TypesFit(sig.params, args[1..])
    else TypesFit(sig.params, args)
  }

  datatype CallRecord = CallRecord(target: CallTarget, sig: Signature, args: seq<Value>)
  datatype CallTarget = Address(at: nat) | Method(token: Token)

  /** What the surrounding program decides: whether pointers have 64 bits, what a call returns,
      whether an object is an instance of the class a token names, whether what was boxed with
      one token unboxes with another (an enum as its underlying type, two tokens of one type),
      and whether this method returns a value. */
  datatype Env = Env(
    is64: bool,
    result: CallRecord -> Value,
    instanceOf: (Value, Token) -> bool,
    unboxesAs: (Token, Token) -> bool,
    returnsValue: bool)

  datatype Machine =
    | Running(stack: seq<Value>, calls: seq<CallRecord>)
    | Returned(value: Option<Value>, made: seq<CallRecord>)
    | Fault

  function Push(m: Machine, v: Value): Machine
    requires m.Running?
  {
    Running(m.stack + [v], m.calls)
  }

  function LoadArgument(m: Machine, args: seq<Value>, n: nat): Machine
    requires m.Running?
  {
    if n < |args| then Push(m, args[n]) else Fault
  }

  const TwoTo32: nat := 0x1_0000_0000
  const TwoTo64: nat := 0x1_0000_0000_0000_0000

  /** A number that can be the address of a function: of native kind or of the same width. */
  predicate IsAddress(env: Env, v: Value) {
    v.Num? && (v.kind == NativeInt || v.kind == if env.is64 then Int64 else Int32)
  }

  /** Pops the arguments, which must fit the parameters, records the call and pushes the result
      unless it is void. */
  function DoCall(env: Env, m: Machine, target: CallTarget, sig: Signature): Machine
    requires m.Running?
  {
    var n := ArgumentCount(sig);
    if |m.stack| < n || !ArgumentsFit(sig, m.stack[|m.stack| - n..]) then Fault
    else
      var rest := m.stack[..|m.stack| - n];
      var call := CallRecord(target, sig, m.stack[|m.stack| - n..]);
      Running(if sig.ret == Simple(ELEMENT_TYPE_VOID) then rest else rest + [env.result(call)], m.calls + [call])
  }

  /** A box always unboxes with the token it was made with (ECMA-335 III.4.33). */
  predicate UnboxesAs(env: Env, boxed: Token, t: Token) {
    boxed == t || env.unboxesAs(boxed, t)
  }

  function Exec(env: Env, op: Op, args: seq<Value>, m: Machine): Machine {
    if !m.Running? then m else
    match op
    case LdargShort(n) => if n < 4 then LoadArgument(m, args, n) else Fault
    case LdargS(n) => LoadArgument(m, args, n)
    case Ldarg(n) => LoadArgument(m, args, n)
    case LdcI4(v) => Push(m, Num(Int32, v % TwoTo32))
    case LdcI8(v) => Push(m, Num(Int64, v % TwoTo64))
    case Box(t) =>
      if m.stack == [] || Top(m).Pointer? then Fault else Push(Under(m), Boxed(t, Top(m)))
    case UnboxAny(t) =>
      if m.stack != [] && Top(m).Boxed? && UnboxesAs(env, Top(m).token, t) then Push(Under(m), Top(m).content)
      else Fault
    case Castclass(t) =>
      if m.stack != [] && (Top(m).Null? || (IsReference(Top(m)) && env.instanceOf(Top(m), t))) then m else Fault
    case Call(t) =>
      if CalleeOf(t).None? then Fault else DoCall(env, m, Method(t), CalleeOf(t).value)
    case Calli(t) =>
      if m.stack == [] || !IsAddress(env, Top(m)) || CalleeOf(t).None? then Fault
      else DoCall(env, Under(m), Address(Top(m).bits), CalleeOf(t).value)
    case Ret =>
      if env.returnsValue then (if |m.stack| == 1 then Returned(Some(m.stack[0]), m.calls) else Fault)
      else if m.stack == [] then Returned(None, m.calls) else Fault
  }

  function Top(m: Machine): Value
    requires m.Running? && m.stack != []
  {
    m.stack[|m.stack| - 1]
  }

  function Under(m: Machine): (r: Machine)
    requires m.Running? && m.stack != []
    ensures r.Running?
  {
    m.(stack := m.stack[..|m.stack| - 1])
  }

  function Run(env: Env, code: seq<Op>, args: seq<Value>, m: Machine): Machine {
    if code == [] then m
    else Run(env, code[1..], args, Exec(env, code[0], args, m))
  }

  lemma {:induction false} RunAppend(env: Env, a: seq<Op>, b: seq<Op>, args: seq<Value>, m: Machine)
    ensures Run(env, a + b, args, m) == Run(env, b, args, Run(env, a, args, m))
  {
    if a == [] {
      assert a + b == b;
    } else {
      assert (a + b)[1..] == a[1..] + b;
      RunAppend(env, a[1..], b, args, Exec(env, a[0], args, m));
    }
  }

  lemma {:induction false} RunOne(env: Env, op: Op, args: seq<Value>, m: Machine)
    ensures Run(env, [op], args, m) == Exec(env, op, args, m)
  {
    assert [op][1..] == [];
    assert Run(env, [], args, Exec(env, op, args, m)) == Exec(env, op, args, m);
  }

  lemma {:induction false} RunStopped(env: Env, code: seq<Op>, args: seq<Value>, m: Machine)
    requires !m.Running?
    ensures Run(env, code, args, m) == m
  {
    if code != [] {
      RunStopped(env, code[1..], args, m);
    }
  }
}
