/** InteropInstrumentationHandler.cpp: which methods get a native thunk.  A method is looked up
    under its own name and then under the wildcard, and a hit is kept with the method. */
module InteropInstrumentationHandler {
  import opened Results
  import opened Cil
  import opened InstructionGraph
  import opened Emission
  import opened MethodInstrumentationInfoKey
  import opened MethodInstrumentationInfoCollection
  import Native = NativeInstanceMethodsCodeInjector

  const WildcardName := "*"

  datatype Method = Method(assembly: string, mod: string, fullName: string, info: MethodInfo)

  function ExactKey(m: Method): Key {
    Key(m.assembly, m.mod, m.fullName, |m.info.parameters|)
  }

  function WildcardKey(m: Method): Key {
    Key(WildcardName, WildcardName, m.fullName, |m.info.parameters|)
  }

  /** What the table says about a method. */
  function Lookup(t: Tree, m: Method): Option<Info> {
    if Find(t, ExactKey(m)).Some? then Find(t, ExactKey(m)) else Find(t, WildcardKey(m))
  }

  function RecordOf(x: Info): Native.Record {
    Native.Record(x.instance, x.instanceMethod, x.argsCount)
  }

  type Cache = map<Method, Info>

  function Remembered(t: Tree, cache: Cache, m: Method): Cache {
    if m !in cache && Lookup(t, m).Some? then cache[m := Lookup(t, m).value] else cache
  }

  /** The caller is looked up only if the inlinee is not to be instrumented. */
  function RememberedBoth(t: Tree, cache: Cache, inlinee: Method, caller: Method): Cache {
    var first := Remembered(t, cache, inlinee);
    if inlinee in first then first else Remembered(t, first, caller)
  }

  // ---------- the handler ----------

  class Handler {
    const methods: MethodInstrumentationInfoCollection
    const injector: Native.Platform
    var cache: Cache

    constructor (methods: MethodInstrumentationInfoCollection, platform: Native.Platform)
      ensures this.methods == methods && injector == platform && cache == map[]
    {
      this.methods, injector, cache := methods, platform, map[];
    }

    method ShouldInstrument(m: Method) returns (hr: HResult)
      modifies this
      ensures cache == Remembered(methods.table, old(cache), m)
      ensures hr == if m in cache then S_OK else S_FALSE
    {
      if m in cache {
        return S_OK;
      }
      var found;
      hr, found := methods.Get(ExactKey(m));
      if hr != S_OK {
        hr, found := methods.Get(WildcardKey(m));
      }
      if hr == S_OK {
        cache := cache[m := found.value];
      }
    }

    method AllowInline(inlinee: Method, caller: Method) returns (hr: HResult)
      modifies this
      ensures cache == RememberedBoth(methods.table, old(cache), inlinee, caller)
      ensures hr == if inlinee in cache || caller in cache then S_OK else S_FALSE
    {
      hr := ShouldInstrument(inlinee);
      if hr == S_FALSE {
        hr := ShouldInstrument(caller);
      }
    }

    /** CHostExtensionBase::InternalAllowInlineSite. */
    method InternalAllowInlineSite(inlinee: Method, caller: Method) returns (hr: HResult, allow: bool)
      modifies this
      ensures cache == RememberedBoth(methods.table, old(cache), inlinee, caller)
      ensures allow <==> inlinee !in cache && caller !in cache
    {
      hr := AllowInline(inlinee, caller);
      allow := hr != S_OK;
    }

    /** Rewrites the body only of a method whose hit was kept. */
    method Instrument(m: Method) returns (hr: HResult)
      requires m.info.instructions.Valid()
      modifies m.info.instructions.Footprint()
      ensures m.info.instructions.Valid() && cache == old(cache)
      ensures hr == S_OK <==> m in cache && 3 <= |m.info.signature| <= 20
      ensures hr == S_OK ==>
        var x := cache[m];
        m.info.instructions.code ==
          Native.ThunkCode(injector, m.info.signature, Native.Record(x.instance, x.instanceMethod, x.argsCount))
      ensures hr != S_OK ==> m.info.instructions.code == old(m.info.instructions.code)
    {
      if m !in cache {
        return S_FALSE;
      }
      hr := Native.Inject(injector, Some(m.info), Some(RecordOf(cache[m])));
    }
  }

  // ---------- runs ----------

  datatype Call =
    | Register(addition: Addition)
    | ShouldInstrument(m: Method)
    | AllowInline(inlinee: Method, caller: Method)

  function Additions(calls: seq<Call>): seq<Addition> {
    if calls == [] then []
    else
      var before := Additions(calls[..|calls| - 1]);
      var last := calls[|calls| - 1];
      if last.Register? then before + [last.addition] else before
  }

  /** The cache after the calls, the table growing by the registrations among them. */
  function CacheAfter(calls: seq<Call>): Cache {
    if calls == [] then map[]
    else
      var before := calls[..|calls| - 1];
      match calls[|calls| - 1]
      case Register(_) => CacheAfter(before)
      case ShouldInstrument(m) => Remembered(TableOf(Additions(before)), CacheAfter(before), m)
      case AllowInline(inlinee, caller) =>
        RememberedBoth(TableOf(Additions(before)), CacheAfter(before), inlinee, caller)
  }

  // ---------- what is kept against what the table answers ----------

  ghost predicate Ordered(calls: seq<Call>) {
    OrderedOn(AddedKeys(Additions(calls)))
  }

  lemma {:induction false} OrderedBefore(calls: seq<Call>)
    requires calls != [] && Ordered(calls)
    ensures Ordered(calls[..|calls| - 1])
  {
    var before := calls[..|calls| - 1];
    assert AddedKeys(Additions(before)) <= AddedKeys(Additions(calls)) by {
      assert forall a :: a in Additions(before) ==> a in Additions(calls);
    }
  }

  /** What is kept was found under the exact or the wildcard key, whatever the table. */
  lemma {:induction false} KeptUnderItsKey(calls: seq<Call>, m: Method)
    requires m in CacheAfter(calls)
    ensures KeyOf(CacheAfter(calls)[m]) == ExactKey(m) || KeyOf(CacheAfter(calls)[m]) == WildcardKey(m)
  {
    var before := calls[..|calls| - 1];
    if m in CacheAfter(before) {
      KeptUnderItsKey(before, m);
      LastCallForgetsNothing(calls, m);
    } else {
      FoundHasTheKey(TableOf(Additions(before)), ExactKey(m));
      FoundHasTheKey(TableOf(Additions(before)), WildcardKey(m));
    }
  }

  lemma {:induction false} LastCallForgetsNothing(calls: seq<Call>, m: Method)
    requires calls != [] && m in CacheAfter(calls[..|calls| - 1])
    ensures m in CacheAfter(calls) && CacheAfter(calls)[m] == CacheAfter(calls[..|calls| - 1])[m]
  {
  }

  lemma {:induction false} FirstStaysFirst(adds: seq<Addition>, more: Addition, k: Key)
    requires FirstWith(adds, k).Some?
    ensures FirstWith(adds + [more], k) == FirstWith(adds, k)
  {
    assert (adds + [more])[..|adds|] == adds;
  }

  /** What is kept is the first entry that was added under its key. */
  lemma {:induction false} KeptIsFirstAdded(calls: seq<Call>, m: Method)
    requires Ordered(calls) && m in CacheAfter(calls)
    ensures FirstWith(Additions(calls), KeyOf(CacheAfter(calls)[m])) == Some(CacheAfter(calls)[m])
  {
    var before, last := calls[..|calls| - 1], calls[|calls| - 1];
    OrderedBefore(calls);
    if m in CacheAfter(before) {
      KeptIsFirstAdded(before, m);
      LastCallForgetsNothing(calls, m);
      if last.Register? {
        FirstStaysFirst(Additions(before), last.addition, KeyOf(CacheAfter(calls)[m]));
      }
    } else {
      LookupFindsFirstAdded(Additions(before), ExactKey(m));
      LookupFindsFirstAdded(Additions(before), WildcardKey(m));
    }
  }

  /** In every run, with registrations of any modules between the calls, what is kept with a
      method is what the lookup finds now exactly if it was kept under the method's own key or
      nothing was registered under that key. */
  lemma {:induction false} CacheAgreesIff(calls: seq<Call>, m: Method)
    requires Ordered(calls) && m in CacheAfter(calls)
    ensures Lookup(TableOf(Additions(calls)), m) == Some(CacheAfter(calls)[m]) <==>
      || KeyOf(CacheAfter(calls)[m]) == ExactKey(m)
      || forall a :: a in Additions(calls) ==> KeyOf(a.item) != ExactKey(m)
  {
    KeptUnderItsKey(calls, m);
    KeptIsFirstAdded(calls, m);
    LookupFindsFirstAdded(Additions(calls), ExactKey(m));
    LookupFindsFirstAdded(Additions(calls), WildcardKey(m));
  }

  /** What CacheAgreesIff says of a run and a method. */
  ghost predicate AgreesWhenItShould(calls: seq<Call>, m: Method) {
    m in CacheAfter(calls) ==>
      (Lookup(TableOf(Additions(calls)), m) == Some(CacheAfter(calls)[m]) <==>
        || KeyOf(CacheAfter(calls)[m]) == ExactKey(m)
        || forall a :: a in Additions(calls) ==> KeyOf(a.item) != ExactKey(m))
  }

  /** Its condition on the keys is needed: for keys with argument counts that methods can have,
      it holds in every run that registers only these exactly if the comparison orders them. */
  lemma {:induction false} AgreementNeedsOrder(keys: set<Key>, g: Graph)
    requires forall k :: k in keys ==> k.args >= 0
    ensures (forall calls, m :: AddedKeys(Additions(calls)) <= keys ==> AgreesWhenItShould(calls, m))
      <==> OrderedOn(keys)
  {
    if OrderedOn(keys) {
      forall calls, m | AddedKeys(Additions(calls)) <= keys ensures AgreesWhenItShould(calls, m) {
        if m in CacheAfter(calls) {
          CacheAgreesIff(calls, m);
        }
      }
    } else {
      var adds, last, k := UnorderedForgetsOne(keys);
      var m := MethodOf(k, g);
      KeptAndForgotten(adds, last, m);
      assert !AgreesWhenItShould(Registrations(adds) + [ShouldInstrument(m)] + [Register(last)], m);
    }
  }

  function MethodOf(k: Key, g: Graph): (m: Method)
    requires k.args >= 0
    ensures ExactKey(m) == k
  {
    var t := TypeInfo(ELEMENT_TYPE_OBJECT, None, ELEMENT_TYPE_OBJECT);
    Method.Method(k.assembly, k.mod, k.name, MethodInfo(k.name, [], true, t, seq(k.args, (i: nat) => t), t, g))
  }

  function Registrations(adds: seq<Addition>): seq<Call> {
    if adds == [] then [] else Registrations(adds[..|adds| - 1]) + [Register(adds[|adds| - 1])]
  }

  lemma {:induction false} AfterRegistrations(adds: seq<Addition>)
    ensures Additions(Registrations(adds)) == adds && CacheAfter(Registrations(adds)) == map[]
  {
    if adds != [] {
      var before, last := adds[..|adds| - 1], adds[|adds| - 1];
      AfterRegistrations(before);
      OneMoreCall(Registrations(before), Register(last));
      assert before + [last] == adds;
    }
  }

  /** A method is kept under its own key, which the next registration hides. */
  lemma {:induction false} KeptAndForgotten(adds: seq<Addition>, last: Addition, m: Method)
    requires Forgets(adds, last, ExactKey(m))
    ensures
      var calls := Registrations(adds) + [ShouldInstrument(m)] + [Register(last)];
      && Additions(calls) == adds + [last] && m in CacheAfter(calls)
      && KeyOf(CacheAfter(calls)[m]) == ExactKey(m)
      && Lookup(TableOf(Additions(calls)), m) != Some(CacheAfter(calls)[m])
  {
    var found := Find(TableOf(adds), ExactKey(m)).value;
    FoundHasTheKey(TableOf(adds), ExactKey(m));
    AfterRegistrations(adds);
    AskAfter(Registrations(adds), adds, m, found);
    OneMoreCall(Registrations(adds) + [ShouldInstrument(m)], Register(last));
    FoundHasTheKey(TableOf(adds + [last]), WildcardKey(m));
  }

  /** Kept or not, the answer itself is always that of the lookup now. */
  lemma {:induction false} KeptIsStillFound(calls: seq<Call>, m: Method)
    requires Ordered(calls) && m in CacheAfter(calls)
    ensures Lookup(TableOf(Additions(calls)), m).Some?
  {
    KeptUnderItsKey(calls, m);
    KeptIsFirstAdded(calls, m);
    LookupFindsFirstAdded(Additions(calls), ExactKey(m));
    LookupFindsFirstAdded(Additions(calls), WildcardKey(m));
  }

  /** In particular, registrations for one module, such as the wildcards, never part the two. */
  lemma {:induction false} CacheAgrees(calls: seq<Call>, m: Method)
    requires OneModule(Additions(calls))
    ensures m in CacheAfter(calls) ==> Lookup(TableOf(Additions(calls)), m) == Some(CacheAfter(calls)[m])
  {
    if m in CacheAfter(calls) {
      var adds, kept := Additions(calls), CacheAfter(calls)[m];
      OneModuleIsOrdered(adds);
      KeptUnderItsKey(calls, m);
      KeptIsFirstAdded(calls, m);
      var w :| w in adds && w.item == kept;
      forall a | a in adds && KeyOf(a.item) == ExactKey(m) ensures KeyOf(kept) == ExactKey(m) {
        assert SameModule(KeyOf(a.item), KeyOf(w.item));
      }
      CacheAgreesIff(calls, m);
    }
  }

  /** Over a table that no longer changes the same holds whatever its keys are, even keys
      that the comparison does not order. */
  lemma {:induction false} CacheAgreesOverFixedTable(registrations: seq<Call>, asks: seq<Call>, m: Method)
    requires forall c :: c in registrations ==> c.Register?
    requires forall c :: c in asks ==> !c.Register?
    ensures
      var calls := registrations + asks;
      && Additions(calls) == Additions(registrations)
      && (m in CacheAfter(calls) ==> Lookup(TableOf(Additions(calls)), m) == Some(CacheAfter(calls)[m]))
  {
    var calls := registrations + asks;
    if asks == [] {
      assert calls == registrations;
      NothingKeptYet(registrations);
    } else {
      assert calls[..|calls| - 1] == registrations + asks[..|asks| - 1] && calls[|calls| - 1] in asks;
      CacheAgreesOverFixedTable(registrations, asks[..|asks| - 1], m);
    }
  }

  lemma {:induction false} NothingKeptYet(registrations: seq<Call>)
    requires forall c :: c in registrations ==> c.Register?
    ensures CacheAfter(registrations) == map[]
  {
    if registrations != [] {
      assert registrations[|registrations| - 1] in registrations;
      NothingKeptYet(registrations[..|registrations| - 1]);
    }
  }

  /** The least case in which the two part: a method's own module is registered after its
      wildcard was hit, and the wildcard's record is kept. */
  lemma {:induction false} KeptWildcardGoesStale(m: Method, w: Info, e: Info)
    requires KeyOf(w) == WildcardKey(m) && KeyOf(e) == ExactKey(m)
    requires StringLess(WildcardName, m.assembly)
    ensures
      var calls := [Register(Addition(w, [])), ShouldInstrument(m), Register(Addition(e, []))];
      && m in CacheAfter(calls) && CacheAfter(calls)[m] == w
      && Lookup(TableOf(Additions(calls)), m) == Some(e)
  {
    var one, two, three := Register(Addition(w, [])), ShouldInstrument(m), Register(Addition(e, []));
    LookupsOfTwo(m, w, e);
    OneRegistration(one.addition);
    AskAfter([one], [one.addition], m, w);
    assert [one] + [two] == [one, two];
    OneMoreCall([one, two], three);
    assert [one, two] + [three] == [one, two, three];
    assert [one.addition] + [three.addition] == [one.addition, three.addition];
  }

  lemma {:induction false} OneRegistration(a: Addition)
    ensures Additions([Register(a)]) == [a] && CacheAfter([Register(a)]) == map[]
  {
    OneMoreCall([], Register(a));
    assert [] + [Register(a)] == [Register(a)];
    assert [] + [a] == [a];
  }

  lemma {:induction false} AskAfter(calls: seq<Call>, adds: seq<Addition>, m: Method, w: Info)
    requires Additions(calls) == adds && CacheAfter(calls) == map[] && Lookup(TableOf(adds), m) == Some(w)
    ensures Additions(calls + [ShouldInstrument(m)]) == adds
    ensures CacheAfter(calls + [ShouldInstrument(m)]) == map[m := w]
  {
    OneMoreCall(calls, ShouldInstrument(m));
    assert Remembered(TableOf(adds), map[], m) == map[m := w];
  }

  lemma {:induction false} LookupsOfTwo(m: Method, w: Info, e: Info)
    requires KeyOf(w) == WildcardKey(m) && KeyOf(e) == ExactKey(m)
    requires StringLess(WildcardName, m.assembly)
    ensures Lookup(TableOf([Addition(w, [])]), m) == Some(w)
    ensures Lookup(TableOf([Addition(w, []), Addition(e, [])]), m) == Some(e)
  {
    var adds := [Addition(w, []), Addition(e, [])];
    StringTrichotomy(WildcardName, m.assembly);
    IncomparableMeansEqual(WildcardKey(m), WildcardKey(m));
    IncomparableMeansEqual(ExactKey(m), ExactKey(m));
    TableOfTwo(w, e);
    assert adds[..1] == [Addition(w, [])] && adds[..1][..0] == [];
    assert TableOf(adds[..1]) == AddTo(TableOf([]), w, []);
    assert TableOf(adds) == AddTo(TableOf(adds[..1]), e, []);
  }

  lemma {:induction false} OneMoreCall(calls: seq<Call>, last: Call)
    ensures Additions(calls + [last]) == if last.Register? then Additions(calls) + [last.addition] else Additions(calls)
    ensures last.Register? ==> CacheAfter(calls + [last]) == CacheAfter(calls)
    ensures last.ShouldInstrument? ==>
      CacheAfter(calls + [last]) == Remembered(TableOf(Additions(calls)), CacheAfter(calls), last.m)
  {
    assert (calls + [last])[..|calls|] == calls;
  }

  /** A smaller key and then a greater one, without rotations. */
  lemma {:induction false} TableOfTwo(w: Info, e: Info)
    requires Less(KeyOf(w), KeyOf(e)) && !Less(KeyOf(w), KeyOf(w)) && !Less(KeyOf(e), KeyOf(e))
    ensures AddTo(Leaf, w, []) == Node(Leaf, w, Leaf)
    ensures Find(Node(Leaf, w, Leaf), KeyOf(e)) == None && Find(Node(Leaf, w, Leaf), KeyOf(w)) == Some(w)
    ensures AddTo(Node(Leaf, w, Leaf), e, []) == Node(Leaf, w, Node(Leaf, e, Leaf))
    ensures Find(Node(Leaf, w, Node(Leaf, e, Leaf)), KeyOf(e)) == Some(e)
  {
    var t, r := Node(Leaf, w, Leaf), Node(Leaf, e, Leaf);
    assert forall k, best :: LowerBound(Leaf, k, best) == best;
    assert LowerBound(t, KeyOf(e), None) == LowerBound(Leaf, KeyOf(e), None);
    assert LowerBound(t, KeyOf(w), None) == LowerBound(Leaf, KeyOf(w), Some(w));
    assert Insert(Leaf, e) == r && Insert(t, e) == Node(Leaf, w, Insert(Leaf, e));
    assert LowerBound(Node(Leaf, w, r), KeyOf(e), None) == LowerBound(r, KeyOf(e), None);
    assert LowerBound(r, KeyOf(e), None) == LowerBound(Leaf, KeyOf(e), Some(e));
  }

  // ---------- the answers, in terms of what was registered ----------

  predicate NamesMethod(x: Info, m: Method) {
    x.name == m.fullName && x.argsCount == |m.info.parameters|
  }

  /** The entry is for the method of this name and parameter count in the method's own module. */
  predicate ForItsModule(x: Info, m: Method) {
    NamesMethod(x, m) && x.assembly == m.assembly && x.mod == m.mod
  }

  /** The entry is for methods of this name and parameter count in any module. */
  predicate ForAnyModule(x: Info, m: Method) {
    NamesMethod(x, m) && x.assembly == "*" && x.mod == "*"
  }

  lemma {:induction false} KeysByField(x: Info, m: Method)
    ensures KeyOf(x) == ExactKey(m) <==> ForItsModule(x, m)
    ensures KeyOf(x) == WildcardKey(m) <==> ForAnyModule(x, m)
  {
  }

  /** The i-th entry is the first one for the method's own module. */
  predicate FirstForItsModule(adds: seq<Addition>, i: nat, m: Method)
    requires i < |adds|
  {
    ForItsModule(adds[i].item, m) && forall j :: 0 <= j < i ==> !ForItsModule(adds[j].item, m)
  }

  /** The i-th entry is the first one for any module, and there is none for the method's own. */
  predicate FirstForAnyModule(adds: seq<Addition>, i: nat, m: Method)
    requires i < |adds|
  {
    && ForAnyModule(adds[i].item, m) && (forall j :: 0 <= j < i ==> !ForAnyModule(adds[j].item, m))
    && forall j :: 0 <= j < |adds| ==> !ForItsModule(adds[j].item, m)
  }

  /** For additions whose keys the comparison orders, a method is found exactly if some entry is
      for its name and parameter count in its own module, or in any; what is found is the first
      of the former, or the first of the latter if there is none of the former. */
  lemma {:induction false} RegistrationsDecide(adds: seq<Addition>, m: Method)
    requires OrderedOn(AddedKeys(adds))
    ensures Lookup(TableOf(adds), m).Some? <==>
      exists i :: 0 <= i < |adds| && (ForItsModule(adds[i].item, m) || ForAnyModule(adds[i].item, m))
    ensures forall i :: 0 <= i < |adds| ==>
      (FirstForItsModule(adds, i, m) || FirstForAnyModule(adds, i, m) ==>
        Lookup(TableOf(adds), m) == Some(adds[i].item))
  {
    LookupFindsFirstAdded(adds, ExactKey(m));
    LookupFindsFirstAdded(adds, WildcardKey(m));
    forall i | 0 <= i < |adds|
      ensures KeyOf(adds[i].item) == ExactKey(m) <==> ForItsModule(adds[i].item, m)
      ensures KeyOf(adds[i].item) == WildcardKey(m) <==> ForAnyModule(adds[i].item, m)
    {
      KeysByField(adds[i].item, m);
    }
    forall i | 0 <= i < |adds| && FirstForItsModule(adds, i, m)
      ensures Find(TableOf(adds), ExactKey(m)) == Some(adds[i].item)
    {
      EarliestIsFound(adds, i, ExactKey(m));
    }
    forall i | 0 <= i < |adds| && FirstForAnyModule(adds, i, m)
      ensures Find(TableOf(adds), WildcardKey(m)) == Some(adds[i].item)
    {
      EarliestIsFound(adds, i, WildcardKey(m));
    }
  }

  lemma {:induction false} AdditionsAreRegistrations(calls: seq<Call>, a: Addition)
    ensures a in Additions(calls) <==> Register(a) in calls
  {
    if calls != [] {
      AdditionsAreRegistrations(calls[..|calls| - 1], a);
      assert calls == calls[..|calls| - 1] + [calls[|calls| - 1]];
    }
  }

  /** So each answer, kept or fresh, is that of the exact and then the wildcard lookup. */
  lemma {:induction false} AnswerIsTheLookup(calls: seq<Call>, m: Method)
    requires Ordered(calls)
    ensures m in Remembered(TableOf(Additions(calls)), CacheAfter(calls), m)
      <==> Lookup(TableOf(Additions(calls)), m).Some?
  {
    if m in CacheAfter(calls) {
      KeptIsStillFound(calls, m);
    }
  }

  /** The call registers an entry for the method, in its own module or in any. */
  predicate RegistersFor(call: Call, m: Method) {
    call.Register? && (ForItsModule(call.addition.item, m) || ForAnyModule(call.addition.item, m))
  }

  /** ShouldInstrument, in every run: the answer, kept or fresh, is yes exactly if an entry for the
      method, in its own module or in any, was registered before. */
  lemma {:induction false} AnswerIsTheRegistrations(calls: seq<Call>, m: Method)
    requires Ordered(calls)
    ensures m in Remembered(TableOf(Additions(calls)), CacheAfter(calls), m) <==>
      exists c :: c in calls && RegistersFor(c, m)
  {
    var adds := Additions(calls);
    AnswerIsTheLookup(calls, m);
    RegistrationsDecide(adds, m);
    forall a: Addition ensures a in adds <==> Register(a) in calls {
      AdditionsAreRegistrations(calls, a);
    }
    if c :| c in calls && RegistersFor(c, m) {
      assert c.addition in adds;
    }
    if i :| 0 <= i < |adds| && (ForItsModule(adds[i].item, m) || ForAnyModule(adds[i].item, m)) {
      assert RegistersFor(Register(adds[i]), m);
    }
  }

  /** Inlining is allowed if and only if neither method is to be instrumented. */
  lemma {:induction false} InlineIffNeitherInstrumented(calls: seq<Call>, inlinee: Method, caller: Method)
    requires Ordered(calls)
    ensures
      var t := TableOf(Additions(calls));
      var cache := RememberedBoth(t, CacheAfter(calls), inlinee, caller);
      (inlinee !in cache && caller !in cache) <==> Lookup(t, inlinee).None? && Lookup(t, caller).None?
  {
    var t, cache := TableOf(Additions(calls)), CacheAfter(calls);
    AnswerIsTheLookup(calls, inlinee);
    AnswerIsTheLookup(calls, caller);
    OneKept(t, cache, inlinee, inlinee);
    OneKept(t, cache, inlinee, caller);
    OneKept(t, Remembered(t, cache, inlinee), caller, caller);
    OneKept(t, Remembered(t, cache, inlinee), caller, inlinee);
  }

  /** The call looked this method up. */
  predicate Asked(t: Tree, call: Call, m: Method) {
    match call
    case Register(_) => false
    case ShouldInstrument(x) => x == m
    case AllowInline(inlinee, caller) => inlinee == m || (caller == m && Lookup(t, inlinee).None?)
  }

  /** The i-th call looked the method up and the table had an entry for it. */
  predicate Hit(calls: seq<Call>, i: nat, m: Method)
    requires i < |calls|
  {
    var t := TableOf(Additions(calls[..i]));
    Asked(t, calls[i], m) && Lookup(t, m).Some?
  }

  lemma {:induction false} LastCallKeeps(calls: seq<Call>, m: Method)
    requires calls != [] && Ordered(calls[..|calls| - 1])
    ensures m in CacheAfter(calls) <==> m in CacheAfter(calls[..|calls| - 1]) || Hit(calls, |calls| - 1, m)
  {
    var before, last := calls[..|calls| - 1], calls[|calls| - 1];
    var t, cache := TableOf(Additions(before)), CacheAfter(before);
    match last
    case Register(_) =>
    case ShouldInstrument(x) => OneKept(t, cache, x, m);
    case AllowInline(inlinee, caller) =>
      if inlinee in cache {
        KeptIsStillFound(before, inlinee);
      }
      BothKept(t, cache, inlinee, caller, m);
  }

  lemma {:induction false} OneKept(t: Tree, cache: Cache, x: Method, m: Method)
    ensures m in Remembered(t, cache, x) <==> m in cache || (x == m && Lookup(t, m).Some?)
  {
  }

  lemma {:induction false} BothKept(t: Tree, cache: Cache, inlinee: Method, caller: Method, m: Method)
    requires inlinee in cache ==> Lookup(t, inlinee).Some?
    ensures m in RememberedBoth(t, cache, inlinee, caller) <==>
      m in cache || ((inlinee == m || (caller == m && Lookup(t, inlinee).None?)) && Lookup(t, m).Some?)
  {
    var first := Remembered(t, cache, inlinee);
    OneKept(t, cache, inlinee, inlinee);
    OneKept(t, cache, inlinee, m);
    OneKept(t, first, caller, m);
  }

  /** A record is kept with a method, and so Instrument will try to give it its thunk, if and
      only if some earlier call asked about it when the table already had an entry for it. */
  lemma {:induction false} KeptIffAskedBefore(calls: seq<Call>, m: Method)
    requires Ordered(calls)
    ensures m in CacheAfter(calls) <==> exists i :: 0 <= i < |calls| && Hit(calls, i, m)
  {
    if calls != [] {
      var n := |calls| - 1;
      var before := calls[..n];
      OrderedBefore(calls);
      KeptIffAskedBefore(before, m);
      LastCallKeeps(calls, m);
      forall i | 0 <= i < n ensures Hit(calls, i, m) <==> Hit(before, i, m) {
        assert calls[..i] == before[..i];
      }
    }
  }

  /** The parameter count is part of the key, so over any table a thunk that is put in loads as
      many arguments as its method has parameters, and it forwards every call whole, on the
      object and to the address of the kept entry, exactly if the method is static and not
      generic and its return type survives. */
  lemma {:induction false} ThunkOfARegisteredMethodForwards(calls: seq<Call>, m: Method, env: Env,
      platform: Native.Platform, args: seq<Value>)
    requires m in CacheAfter(calls)
    requires |m.info.signature| <= 20 && ParseSignature(m.info.signature).Some?
    requires |ParseSignature(m.info.signature).value.params| == |m.info.parameters|
    requires ArgumentsFit(ParseSignature(m.info.signature).value, args)
    requires env.returnsValue == (ParseSignature(m.info.signature).value.ret != Simple(ELEMENT_TYPE_VOID))
    requires env.is64 == (platform == Native.X64) && Native.InWidth(platform, RecordOf(CacheAfter(calls)[m]))
    ensures |m.info.signature| >= 3
    ensures
      var s, x := ParseSignature(m.info.signature).value, CacheAfter(calls)[m];
      var record := Native.Record(x.instance, x.instanceMethod, x.argsCount);
      Run(env, Native.ThunkCode(platform, m.info.signature, record), args, Running([], []))
        == Native.Forwarded(env, platform, s, record, args)
      <==> !HasThis(s.callConv) && s.generics == 0 && Native.ReturnTypeSurvives(platform, s.ret)
  {
    KeptUnderItsKey(calls, m);
    Native.ThunkForwardsIff(env, platform, m.info.signature, RecordOf(CacheAfter(calls)[m]), args);
  }
}
