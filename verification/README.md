# CLR Instrumentation Engine: a verified model

The CLR Instrumentation Engine lets several profilers share one process. This project models the
parts of it whose correctness is hard to see from the code, and proves in Dafny 4.11 what they do
and, where they do not do what their interface says, exactly when they do.
`dafny verify dfyconfig.toml` checks everything.

| file | what it models |
|---|---|
| `CallbackRegistry.dfy`, `PublicContract.dfy` | the compare-and-swap lock and the copy-on-write publication of the three callback dictionaries: a transition system for any number of calls, and the C# statements as methods that walk it |
| `EventQueue.dfy`, `EventLogging.dfy` | the event-log queue, its auto-reset event and its consumer thread, in the same two forms |
| `InitOnce.dfy`, `EventLoggerSink.dfy` | double-checked initialisation with Reset, and the sink that composes it with the queue |
| `Cil.dfy` | method signatures (ECMA-335 II.23.2.1, II.23.2.3, II.23.2.12) and a CIL stack machine |
| `InstructionGraph.dfy` | the doubly linked instruction list, with its actual links |
| `NativeThunk.dfy`, `ManagedRedirect.dfy`, `LoadArguments.dfy` | the emitters of CIL, run on the stack machine |
| `MaxStack.dfy` | the linear pass that computes maxstack (ECMA-335 III.1.7.4, III.1.7.5) |
| `MethodTable.dfy`, `InteropHandler.dfy` | the method table ordered by `operator<` as written, and the handler that looks methods up and remembers hits |
| `DataContainer.dfy`, `Enumerator.dfy`, `SignatureFamily.dfy`, `EnvironmentBlock.dfy` | the two-level container, the enumerator, the signature generator and the environment-block parser |
| `Results.dfy`, `Sequences.dfy` | shared result codes and facts about sequences |

Calls of different threads interleave at single accesses to shared state, under sequential
consistency. What the surrounding program decides (what a call returns, whether SetEvent succeeds,
which path exists, how the tree is rebalanced, which step another thread takes next) is a parameter
and is universally quantified.

Where code and interface or documentation differ, the model follows the code:

- `IEnum...::Next` advances twice per member, so it is the documented cursor only for one member at
  a time (`NextIsOrdinaryIff`); `Skip` can wrap and go backwards (`SkipIsOrdinaryIff`); `Clone`
  starts over instead of copying the position.
- `operator<` on method keys does not recheck earlier fields and is not a strict weak order, so a
  table can lose entries (`BothLessIff`, `AnswersRightIff`, `AscendingEntriesLoseTheFirst`).
- `ldarg` keeps one byte of its index, so blocks for more than 256 arguments load the wrong ones
  (`LoadsAllIff`, `TooManyArguments`); `this` of a value type is boxed although it is a managed pointer
  (`PointerBoxed`); arguments passed by reference or of a generic type are loaded as they are
  (`ByRefAndGenericStayAsTheyAre`).
- The thunk's signature puts the new parameter at a fixed byte, which is right for return types of
  one byte and for very few others (`SignatureMatches`).
- `InsertAfter` and `InsertBefore` leave a stale link of the inserted instruction alone, so an
  instruction that was removed can corrupt the list (`RemoveThenAppend`). The source's comment on
  `RemoveAll` says that the next links stay set; the code clears them.
- A Get of `CInitOnce` that overlaps a Reset can report success for an initialisation that failed
  (`FalseSuccessIffReset`, `FalseYesIffReset`); a sink that is reset after a shutdown announces errors and queues none
  (`AnnouncedErrorsAreQueuedIff`, `ReinitialisedSinkIsDeaf`); a failed SetEvent leaves its item waiting
  (`FailedSetEventStrandsItem`, `LostThroughoutIff`, `FullQueueNeedsShutdown`).
- The search for `=` in an environment variable adds one to its result before testing it for null,
  so the test never fails and a selected variable without `=` is read through a wild pointer
  (`GetFromEnvironment`, `PlatformsAgreeIff`).
- A wildcard hit is kept with a method although its own module is registered later
  (`CacheAgreesIff`).

## Model

| member | source | states |
|---|---|---|
| CallbackRegistry.MutualExclusion | src/Extensions.Base.Api/PublicContract.cs:32-54 | In every interleaving of any number of calls the lock word is 1 exactly when one call is inside, and never two are |
| CallbackRegistry.NoLostUpdates | src/Extensions.Base.Api/PublicContract.cs:25-69 | Whenever the lock is free the three dictionaries are those of running the finished calls one by one in lock order, and each of them reported what it reports in that run |
| CallbackRegistry.TablesHoldFirstAdds | src/Extensions.Base.Api/PublicContract.cs:25-394 | Whenever the lock is free, for every id and in terms of the requests in lock order alone: the three tables hold the three delegates of the first Add since the last Remove of the id, and without such an Add they hold nothing under it and readers find none |
| CallbackRegistry.DuplicateIffStanding | src/Extensions.Base.Api/PublicContract.cs:349-394 | The k-th call in lock order ended with a duplicate key exactly if it is an Add, and an earlier Add of its id has no Remove between the two; otherwise it was applied |
| CallbackRegistry.PublicationOrder | src/Extensions.Base.Api/PublicContract.cs:39-49 | Key sets agree outside the lock; inside they differ at most on the holder's id, nested one way in an Add and the other way in a Remove |
| CallbackRegistry.OnlyTheFirstAddThrows | src/Extensions.Base.Api/PublicContract.cs:43-45 | Once the first of the three Adds has passed, the other two pass |
| CallbackRegistry.CallOutcomes | src/Extensions.Base.Api/PublicContract.cs:30-68 | At most 20 attempts; contention is reported exactly by calls that never got the lock, after 20; a call has published exactly if it reports success; an ended call does not hold the lock |
| CallbackRegistry.FailedCallChangedNothing | src/Extensions.Base.Api/PublicContract.cs:349-394 | No step of a call that ends in a throw changes a dictionary |
| CallbackRegistry.ReadersSeePrefixes | src/Extensions.Base.Api/BeginCallbacks.cs:61-68 | Each of the three tables that lock-free readers use is the sequential one after all calls that took the lock, or all but the last; the begin table is never behind the end table nor that behind the exception table, and with the lock free none is behind |
| CallbackRegistry.AddedCallbacksAreFound | src/Extensions.Base.Api.Tests/ExtensionsBaseCallbacks.cs:102-175 | However many calls race, an Add of an id that only it uses never reports a duplicate, and after its success all readers find its three delegates |
| CallbackRegistry.CanAlwaysEnd | src/Extensions.Base.Api/PublicContract.cs:30-68 | From every reachable state a call inside the lock, or any call when the lock is free, ends by its own steps, frees the lock and does not report contention |
| CallbackRegistry.StepPreservesInv | src/Extensions.Base.Api/PublicContract.cs:30-68 | The invariant over lock, dictionaries and all threads' locals is kept by every step |
| PublicContract.StaticTables.Call | src/Extensions.Base.Api/PublicContract.cs:349-394 | The retry loop, try block and finally, statement by statement with other threads' steps in between, walk the transition system; a call that returns has left its three delegates under its id, or the id in none of the dictionaries if it is a Remove, one that throws for the key found it in all three, and both leave the lock free |
| PublicContract.StaticTables.TryLock | src/Extensions.Base.Api/PublicContract.cs:32-34 | One compare-exchange, one step of the system |
| EventQueue.ExactlyOnceInOrder | src/Common.Lib/EventLoggingBase.cpp:196-221 | In every run accepted = reported + batch + queue, the length counter is the sum of the queued lengths, nothing queued is empty, and all but the last item stay under 64K |
| EventQueue.DrainedOnExit | src/Common.Lib/EventLoggingBase.cpp:74-122 | When the consumer has exited normally everything accepted has been reported, and nothing is accepted or reported later |
| EventQueue.FailedConsumerReportsNothing | src/Common.Lib/EventLoggingBase.cpp:66-102 | In every run just a failed CoInitialize or wait makes the thread fail, and from then on nothing is reported, whatever is queued or accepted later |
| EventQueue.WakeupLostIff | src/Common.Lib/EventLoggingBase.cpp:129-138 | From a state with no wake-up lost, a step loses one exactly if it makes work, its SetEvent fails and the consumer was not about to look |
| EventQueue.LostThroughoutIff | src/Common.Lib/EventLoggingBase.cpp:129-221 | Through every run a lost wake-up stays lost exactly as long as no accepted append and no shutdown has a SetEvent that succeeds |
| EventQueue.FullQueueNeedsShutdown | src/Common.Lib/EventLoggingBase.cpp:201-217 | With 64K stranded every append is refused, so it stays lost exactly until a shutdown whose SetEvent succeeds |
| EventQueue.NoLostWakeup | src/Common.Lib/EventLoggingBase.cpp:77-102 | If every SetEvent succeeds, pending work finds the event set or the consumer on its way to the swap |
| EventQueue.FailedSetEventStrandsItem | src/Common.Lib/EventLoggingBase.cpp:204-212 | After one failed SetEvent an accepted item waits in the queue of a sleeping consumer |
| EventQueue.ConsumerDrains | src/Common.Lib/EventLoggingBase.cpp:74-117 | From every reachable state with working events, the consumer left alone reports all that was accepted and then sleeps, or has exited exactly if there was a shutdown |
| EventLogging.EventLoggingBase.AppendToQueue | src/Common.Lib/EventLoggingBase.cpp:196-221 | Field by field: after a shutdown nothing changes and the call succeeds; with 64K queued or an empty message nothing changes and it fails; else the item is queued, its length counted, the event set if SetEvent works, and a failure of SetEvent is returned although the item stays |
| EventLogging.EventLoggingBase.LogEventThreadProc | src/Common.Lib/EventLoggingBase.cpp:58-122 | The thread procedure, with producers' calls in between, walks the system; a normal exit has reported all that was accepted; a turn that finds the event set reports all that was accepted before it and notices a shutdown before it; the thread fails only by CoInitialize or a wait |
| EventLogging.EventLoggingBase.ReportBatch | src/Common.Lib/EventLoggingBase.cpp:104-116 | Everything in the batch is reported in order while producers go on |
| InitOnce.InitialisedOnce | src/Common.Headers/InitOnce.h:30-62 | Whenever the mutex is free, calls of the function minus effective Resets is 1 if created and 0 if not, and the result is the last call's |
| InitOnce.CallsBounded | src/Common.Headers/InitOnce.h:30-62 | At most one call more than there are Resets |
| InitOnce.ReturnsSomeResult | src/Common.Headers/InitOnce.h:30-62 | Get and Reset return S_OK or what some call of the function returned |
| InitOnce.GetReturnsTheOneResult | src/Common.Headers/InitOnce.h:30-47 | Without Reset there is one call, every Get returns its result, and IsSuccessful means that it succeeded |
| InitOnce.YesIffSucceeded | src/Common.Headers/InitOnce.h:44-47 | Without Reset, an IsSuccessful that starts on a created object answers, whatever runs in between, yes exactly if the one call succeeded |
| InitOnce.UninterruptedCall | src/Common.Headers/InitOnce.h:29-61 | From every state with the mutex free a call that runs alone has its sequential meaning: Get calls the function exactly if nothing is created and returns what it leaves; Reset leaves nothing created and S_OK; IsSuccessful changes nothing and tells whether a created result is a success |
| InitOnce.FalseSuccessIffReset | src/Common.Headers/InitOnce.h:30-61 | For a function that always fails, some interleaving lets a Get report success if and only if there are a Get and a Reset |
| InitOnce.FalseYesIffReset | src/Common.Headers/InitOnce.h:44-61 | And some interleaving lets an IsSuccessful answer yes if and only if there are an IsSuccessful, a Get and a Reset |
| EventLoggerSink.InitialisationsBounded | src/InstrumentationEngine.Lib/EventLoggerSink.cpp:9-68 | The event source is initialised at most once more often than the sink is shut down |
| EventLoggerSink.NothingQueuedAfterShutdown | src/InstrumentationEngine.Lib/EventLoggerSink.cpp:28-68 | After a Shutdown no later call of the sink queues anything |
| EventLoggerSink.ErrorQueuedIff | src/InstrumentationEngine.Lib/EventLoggerSink.cpp:28-68 | In every run of the sink an error is queued exactly if the sink was never shut down, the message is not empty and less than 64K is queued; otherwise the queue is unchanged |
| EventLoggerSink.AnnouncedErrorsAreQueuedIff | src/InstrumentationEngine.Lib/EventLoggerSink.cpp:38-68 | A Reset that lets errors through is followed by an error that is queued exactly if no Shutdown came before it |
| EventLoggerSink.ReinitialisedSinkIsDeaf | src/InstrumentationEngine.Lib/EventLoggerSink.cpp:38-68 | After a Shutdown and a Reset the event source is initialised once more, and no later error is ever queued |
| EventLoggerSink.CEventLoggerSink.Reset | src/InstrumentationEngine.Lib/EventLoggerSink.cpp:38-60 | A null pointer is reported; the event source is initialised only if errors are asked for and only once; if it has failed, now or before, its result is returned and nothing is let through, otherwise S_OK is returned and errors, but nothing else, are let through |
| EventLoggerSink.CEventLoggerSink.Shutdown | src/InstrumentationEngine.Lib/EventLoggerSink.cpp:62-68 | The queue is shut down with its contents kept, the event source can be initialised again, and a failed SetEvent is returned |
| Cil.SignatureRoundTrip | src/InstrumentationEngine/TypeCreator.cpp:60-484 | The reader of signatures that the emitters' results rest on accepts a blob as a signature exactly if it is that signature's encoding by ECMA-335 II.23.2.1 and II.23.2.12, for generic and other methods and for all kinds of types |
| InstructionGraph.Graph.InsertAfter | src/InstrumentationEngine/InstructionGraph.cpp:801-852 | The instruction is linked in directly behind its anchor, or as the only one without an anchor; the links are a proper list afterwards exactly if no stale next is left; the error cases change nothing but the instruction |
| InstructionGraph.Graph.InsertBefore | src/InstrumentationEngine/InstructionGraph.cpp:756-797 | The same in front of the anchor, with the stale previous |
| InstructionGraph.Graph.Replace | src/InstrumentationEngine/InstructionGraph.cpp:917-978 | The new instruction stands where the old one stood, and when the links are proper |
| InstructionGraph.Graph.Remove | src/InstrumentationEngine/InstructionGraph.cpp:981-1050 | The instruction is cut out of a proper list and keeps its own links; the only one of a method is cut out and reported as an error |
| InstructionGraph.Graph.RemoveAll | src/InstrumentationEngine/InstructionGraph.cpp:1054-1082 | The list is empty and every former member free of links |
| InstructionGraph.RemoveThenAppend | src/InstrumentationEngine/InstructionGraph.cpp:799-852 | Removing and appending again gives a proper list exactly if the instruction was the last; otherwise the list's end points back into it |
| NativeInstanceMethodsCodeInjector.Inject | src/ExtensionsCommon/NativeInstanceMethodsCodeInjector.cpp:15-85 | The body becomes the thunk, or keeps its code when the signature is refused, with the error for each case |
| NativeInstanceMethodsCodeInjector.SignatureMatches | src/ExtensionsCommon/NativeInstanceMethodsCodeInjector.cpp:87-152 | For every method signature of up to 20 bytes, the built blob reads back as STDCALL with an I8, on X86 an I4, in front of the same parameters and the same return type, exactly if the method is not generic and all bytes of the return type behind its first are the inserted one |
| NativeInstanceMethodsCodeInjector.ThunkRuns | src/ExtensionsCommon/NativeInstanceMethodsCodeInjector.cpp:37-84 | On any arguments, and for any two pointers of the platform's width, the body makes one native call, on the object and the declared number of arguments, and returns its result, or is invalid if their number or types are not those of the signature |
| NativeInstanceMethodsCodeInjector.ThunkForwardsIff | src/ExtensionsCommon/NativeInstanceMethodsCodeInjector.cpp:15-248 | For every method, every call with arguments of its own types and all pointers of the platform's width: behind the object as a number of that width the whole argument list is forwarded in order, to the method's address through the right signature, and the result returned, exactly if the method is static and not generic, the record's argument count is the parameter count and the return type survives; a constant of the wrong width would not pass as the pointer or as the address |
| ManagedRedirectCodeInjector.Inject | src/ExtensionsCommon/ManagedRedirectCodeInjector.cpp:42-110 | The body becomes a call of `ApplicationInsights_AddCallbacks` for `Add` and of `ApplicationInsights_RemoveCallbacks` for `Remove`, or stays when the signature is too long or too short; with an accepted signature and any other name the end of the map is read |
| ManagedRedirectCodeInjector.RedirectForwardsIff | src/ExtensionsCommon/ManagedRedirectCodeInjector.cpp:50-109 | For every method whose signature fits the buffer, all arguments reach the method of the same signature and its result is returned exactly if the method is static and not generic and has at most 128 parameters |
| LoadArgumentsHelper.LoadArgumentsAsObjects | src/ExtensionsCommon/LoadArgumentsHelper.cpp:36-178 | The block goes in between the code before and after the current instruction, which moves to its end; exactly an argument of ELEMENT_TYPE_VALUETYPE without a token stops it with an error |
| LoadArgumentsHelper.LoadCodeRuns | src/ExtensionsCommon/LoadArgumentsHelper.cpp:124-178 | Running the block pushes one object per parameter, loaded through the low byte of its index, boxed exactly if it is of a value type |
| LoadArgumentsHelper.LoadsAllIff | src/ExtensionsCommon/LoadArgumentsHelper.cpp:36-219 | In every call of a method the block leaves all arguments, `this` first, in order and each as an object, exactly if there are at most 256, each of a kind that is boxed or of a reference type, generic instances of classes among them, and `this` is a reference; the object of an argument of one of the fourteen listed element types is a box of the well-known type of that same element type, of another value type a box with that type's own token, and else the argument itself |
| LoadArgumentsHelper.TooManyArguments | src/InstrumentationEngine/Instruction.cpp:1360-1380 | With more than 256 arguments some call gets a wrong object |
| LoadArgumentsHelper.PointerBoxed | src/ExtensionsCommon/LoadArgumentsHelper.cpp:80-98 | In every call of a method of a value type the block boxes a managed pointer, which is not valid |
| LoadArgumentsHelper.NotAlwaysAnObject | src/ExtensionsCommon/InstructionDefineExtensions.h:7-30 | With one argument of a type that is neither boxed nor always a reference (by reference, pointer, generic parameter, generic instance of a value type) some call leaves what is no object |
| LoadArgumentsHelper.ByRefAndGenericStayAsTheyAre | src/ExtensionsCommon/InstructionDefineExtensions.h:7-12 | So in the least cases: one parameter passed by reference, or one of a generic parameter's type |
| LoadArgumentsHelper.ReturnValueHandedOn | src/ExtensionsCommon/LoadArgumentsHelper.cpp:222-253 | The return value is boxed by the same rule: as its own one of the fourteen element types, with the token of its own value type, or not at all |
| LoadArgumentsHelper.BoxUnboxIdentityIff | src/ExtensionsCommon/LoadArgumentsHelper.cpp:222-310 | Boxing and unboxing the return value leaves any stack as it was, exactly unless an object fails its cast |
| LoadArgumentsHelper.ReplacedReturnValue | src/ExtensionsCommon/LoadArgumentsHelper.cpp:255-310 | Whatever object a callback puts in the place of the return value, and whatever the return type, the method returns exactly if that object unboxes as the well-known type of the return type's own element type, or as its own token, or is cast to its class, and then returns what is in it |
| LoadArgumentsHelper.BoxRetValueIfNeeded | src/ExtensionsCommon/LoadArgumentsHelper.cpp:222-253 | The box instruction goes in behind the current one if the type needs it |
| LoadArgumentsHelper.UnBoxRetValueIfNeeded | src/ExtensionsCommon/LoadArgumentsHelper.cpp:255-310 | So does the unbox.any, or a castclass for a type with a token |
| LoadArgumentsHelper.GetBoxToken | src/ExtensionsCommon/LoadArgumentsHelper.cpp:181-219 | The fourteen element types get the well-known type of that element type, VALUETYPE its own token or an error, every other type none |
| MaxStack.CalculateMaxStack | src/InstrumentationEngine/InstructionGraph.cpp:1085-1190 | The loop over the instructions and their targets computes the pass |
| MaxStack.ImpactIsEnough | src/InstrumentationEngine/Instruction.cpp:1402-1498 | The stack impact is that of the opcode, but one too many for calli, so a depth that was enough stays enough |
| MaxStack.MaxStackIsEnough | src/InstrumentationEngine/InstructionGraph.cpp:1085-1190 | For all code that keeps ECMA-335 III.1.7.4 and III.1.7.5 the result is at least the real depth in front of and behind every reachable instruction, even if the 32-bit count wraps in code that is never reached |
| MaxStack.MaxStackIsExact | src/InstrumentationEngine/InstructionGraph.cpp:1085-1190 | If moreover all instructions are reached, none is a calli and no jump leaves more on the stack than the instruction behind it starts with, the result is the greatest depth in front of or behind any instruction, and not more |
| MaxStack.ForwardRuleIsNeeded | src/InstrumentationEngine/InstructionGraph.cpp:1111-1131 | Consistent code that breaks III.1.7.5 can get too small a result |
| MethodInstrumentationInfoKey.IncomparableMeansEqual | src/ExtensionsCommon/MethodInstrumentationInfoKey.cpp:67-93 | Keys that are not less than each other are equal, for all keys |
| MethodInstrumentationInfoKey.LessIsLexicographic | src/ExtensionsCommon/MethodInstrumentationInfoKey.cpp:67-93 | The strings in it are compared at the first place where they differ, a prefix being less |
| MethodInstrumentationInfoKey.BothLessIff | src/ExtensionsCommon/MethodInstrumentationInfoKey.cpp:67-93 | Exactly when two keys are each less than the other |
| MethodInstrumentationInfoKey.NotAsymmetric | src/ExtensionsCommon/MethodInstrumentationInfoKey.cpp:80-90 | Two such keys |
| MethodInstrumentationInfoKey.SameModuleIsOrdered | src/ExtensionsCommon/MethodInstrumentationInfoKey.cpp:67-93 | On keys of one assembly and module the comparison is a strict total order |
| MethodInstrumentationInfoCollection.FoundHasTheKey | src/ExtensionsCommon/MethodInstrumentationInfoCollection.cpp:23-40 | In a tree of any shape and content a search never returns an entry with another key |
| MethodInstrumentationInfoCollection.EveryShapeFindsAllIff | src/ExtensionsCommon/MethodInstrumentationInfoCollection.cpp:23-40 | For given contents, the entries are all found in every shape of tree exactly if no later key is less than an earlier one |
| MethodInstrumentationInfoCollection.AnswersRightIff | src/ExtensionsCommon/MethodInstrumentationInfoCollection.cpp:23-52 | For every set of keys: whatever is added under them, in any order and with any rotations, every query is answered with the first entry added under its key, exactly if the comparison orders the set |
| MethodInstrumentationInfoCollection.AscendingEntriesLoseTheFirst | src/ExtensionsCommon/MethodInstrumentationInfoKey.cpp:80-90 | Three additions, each key greater than those before, and the left rotation of a red-black tree: the first entry is no longer found |
| MethodInstrumentationInfoCollection.LookupFindsFirstAdded | src/ExtensionsCommon/MethodInstrumentationInfoCollection.cpp:23-52 | The half of it that callers use: if the comparison orders the added keys, every query, of those keys or not, is answered with the first entry added under it, or none |
| MethodInstrumentationInfoCollection.OneModuleIsOrdered | src/Extensions.BaseLib/HostExtensionBase.cpp:96-130 | The registrations of one module, such as the wildcards that ship, are such keys |
| MethodInstrumentationInfoCollection.AddKeepsSorted | src/ExtensionsCommon/MethodInstrumentationInfoCollection.cpp:42-52 | Adding keeps the table sorted, adds the key, and changes nothing if it was there |
| MethodInstrumentationInfoCollection.MethodInstrumentationInfoCollection.Get | src/ExtensionsCommon/MethodInstrumentationInfoCollection.cpp:23-40 | The walk down the tree finds what the specification finds, with the query's key |
| MethodInstrumentationInfoCollection.MethodInstrumentationInfoCollection.Add | src/ExtensionsCommon/MethodInstrumentationInfoCollection.cpp:42-52 | Null and duplicate are reported; otherwise exactly one entry more |
| InteropInstrumentationHandler.Handler.ShouldInstrument | src/ExtensionsCommon/InteropInstrumentationHandler.cpp:54-120 | Kept hit, then exact, then wildcard lookup; only hits are kept |
| InteropInstrumentationHandler.Handler.InternalAllowInlineSite | src/Extensions.BaseLib/HostExtensionBase.cpp:345-359 | Inlining is allowed exactly if neither method is kept after the lookups |
| InteropInstrumentationHandler.Handler.Instrument | src/ExtensionsCommon/InteropInstrumentationHandler.cpp:122-144 | The body becomes the thunk with the kept entry's instance, method pointer and argument count, exactly if there is one and the signature has 3 to 20 bytes |
| InteropInstrumentationHandler.CacheAgreesIff | src/ExtensionsCommon/InteropInstrumentationHandler.cpp:54-120 | In every run that registers, at any time, keys of any modules that the comparison orders, what is kept with a method is what the lookup finds now exactly if it was kept under the method's own key or nothing is registered under that key |
| InteropInstrumentationHandler.AgreementNeedsOrder | src/ExtensionsCommon/InteropInstrumentationHandler.cpp:54-120 | For every set of keys with possible argument counts, that holds in all runs that register only these exactly if the comparison orders the set; otherwise a kept record can vanish from the lookup |
| InteropInstrumentationHandler.CacheAgrees | src/ExtensionsCommon/InteropInstrumentationHandler.cpp:54-120 | Registrations for one module never part the two |
| InteropInstrumentationHandler.CacheAgreesOverFixedTable | src/ExtensionsCommon/InteropInstrumentationHandler.cpp:54-120 | Over a table that no longer changes the same holds for tables of any keys, ordered or not |
| InteropInstrumentationHandler.KeptWildcardGoesStale | src/ExtensionsCommon/InteropInstrumentationHandler.cpp:99-116 | The least run in which they part: wildcard, question, then an entry for the method's own module |
| InteropInstrumentationHandler.AnswerIsTheLookup | src/ExtensionsCommon/InteropInstrumentationHandler.cpp:54-120 | In every run whose registered keys the comparison orders, the answer, kept or fresh, is that of the exact and then the wildcard lookup now |
| InteropInstrumentationHandler.RegistrationsDecide | src/ExtensionsCommon/InteropInstrumentationHandler.cpp:88-112 | For all additions whose keys the comparison orders: a method is found exactly if some entry has its full name and parameter count and either its own assembly and module or `*` and `*`; found is the first entry of the former kind, else the first of the latter |
| InteropInstrumentationHandler.AnswerIsTheRegistrations | src/ExtensionsCommon/InteropInstrumentationHandler.cpp:54-120 | So in every such run ShouldInstrument says yes exactly if an entry of either kind was registered before |
| InteropInstrumentationHandler.InlineIffNeitherInstrumented | src/ExtensionsCommon/InteropInstrumentationHandler.cpp:39-52 | In such a run inlining is allowed exactly if the table has neither method |
| InteropInstrumentationHandler.KeptIffAskedBefore | src/ExtensionsCommon/InteropInstrumentationHandler.cpp:39-118 | In such a run a record is kept with a method exactly if some earlier call asked about it when the table had it; a caller is not asked about when its inlinee hits |
| InteropInstrumentationHandler.ThunkOfARegisteredMethodForwards | src/ExtensionsCommon/InteropInstrumentationHandler.cpp:88-140 | Since the key holds the parameter count, in every run and over any table the thunk of a kept entry forwards every call whole, on the entry's instance and to its method pointer, exactly if the method is static and not generic and the return type survives |
| DataContainer.SetRefines | src/InstrumentationEngine.Lib/DataContainer.cpp:44-79 | Setting an item in two levels sets it in the flat map and leaves no empty sub-map |
| DataContainer.ClearRefines | src/InstrumentationEngine.Lib/DataContainer.cpp:60-74 | So does clearing one |
| DataContainer.StructureFollowsContents | src/InstrumentationEngine.Lib/DataContainer.cpp:32-82 | Two structures without empty sub-maps and with equal contents are equal |
| DataContainer.OwnedCount | src/InstrumentationEngine.Lib/DataContainer.cpp:44-73 | Sub-maps created minus sub-maps freed is the number of components |
| DataContainer.CDataContainer.SetDataItem | src/InstrumentationEngine.Lib/DataContainer.cpp:32-82 | The flat contents change by exactly one item; sub-maps stay unshared, non-empty, and freed at most once |
| DataContainer.CDataContainer.GetDataItem | src/InstrumentationEngine.Lib/DataContainer.cpp:85-111 | The item of the flat contents, or E_FAIL |
| DataContainer.CDataContainer.Destroy | src/InstrumentationEngine.Lib/DataContainer.cpp:14-30 | Afterwards every sub-map ever created has been freed exactly once, in whatever order the map is walked |
| Enumerator.CEnumerator.Next | src/InstrumentationEngine.Lib/EnumeratorImpl.h:101-129 | Slot k holds member c+2k for k below min(celt, ceil((L-c)/2)), the other slots are null, the cursor moves by that number, the rest of the array is untouched |
| Enumerator.CEnumerator.ForEach | src/ExtensionsCommon/LoadArgumentsHelper.cpp:138-143 | A loop of Next(1) sees every member from the cursor on once, in order |
| Enumerator.CEnumerator.Clone | src/InstrumentationEngine.Lib/EnumeratorImpl.h:153-172 | Equal members, cursor at the start |
| Enumerator.NextIsOrdinaryIff | src/InstrumentationEngine.Lib/EnumeratorImpl.h:101-129 | Next delivers the next members exactly if at most one is asked for or left |
| Enumerator.SkipIsOrdinaryIff | src/InstrumentationEngine.Lib/EnumeratorImpl.h:131-144 | Skip moves on or to the end exactly if the 32-bit sum does not wrap; otherwise it goes back |
| Enumerator.CursorStaysIn | src/InstrumentationEngine.Lib/EnumeratorImpl.h:101-151 | Over any run of Next, Skip and Reset the cursor stays within the members |
| Enumerator.SteppedOverIsLost | src/InstrumentationEngine.Lib/EnumeratorImpl.h:113-119 | A member that Next stepped over is delivered by no later Next |
| DecorationCallbacks.GenerateCallbackInfosForNCustomArgs | src/ExtensionsCommon/DecorationCallbacksInfoStaticReader.cpp:46-89 | The nested loops give N+1 pairwise different signatures, the n-th with n objects more |
| DecorationCallbacks.ExtendedParsesIff | src/ExtensionsCommon/DecorationCallbacksInfoStaticReader.cpp:59-71 | For every method signature as template, the result reads back as the template's parameters and n objects exactly if n is 0, or the method is not generic and the count byte stays below 128 |
| DecorationCallbacks.CallbackSignatures | src/ExtensionsCommon/DecorationCallbackInfo.cpp:44-54 | All generated Begin, End and Exception signatures are right, and GetParamCount is their parameter count |
| ConfigurationLocator.GetFromEnvironment | src/InstrumentationEngine.Lib/ConfigurationLocator.cpp:53-76 | The pointer walk over the encoding of any list of variables ends, visits exactly that list in order, reads nothing else and collects the selected variables' paths, exactly if every selected variable has an `=`; otherwise it reads through a wild pointer at the first that has none |
| ConfigurationLocator.AddVariable | src/InstrumentationEngine.Lib/ConfigurationLocator.cpp:55-75 | One is added to the place of the `=` before the test for null, so the test never fails |
| ConfigurationLocator.VariableWithoutValue | src/InstrumentationEngine.Lib/ConfigurationLocator.cpp:67-69 | The least block for which the walk reads wild, and what the other platform makes of it |
| ConfigurationLocator.BarePrefixIsPassedOver | src/InstrumentationEngine.Lib/ConfigurationLocator.cpp:55-66 | A variable no longer than the prefix is passed over, even without `=` |
| ConfigurationLocator.GetFromEnviron | src/InstrumentationEngine.Lib/ConfigurationLocator.cpp:78-105 | The loop of the other platform skips variables without the prefix or without `=` and adds the parts of the others |
| ConfigurationLocator.PlatformsAgreeIff | src/InstrumentationEngine.Lib/ConfigurationLocator.cpp:53-105 | Where names compare by their letters and the empty path is not usable, the platforms find the same sources exactly if every selected variable has an `=` |
| ConfigurationLocator.NextToken | src/InstrumentationEngine.Lib/ConfigurationLocator.cpp:207-214 | Cutting in place returns the first token and leaves a buffer that holds the rest |
| ConfigurationLocator.AddExpandedPaths | src/InstrumentationEngine.Lib/ConfigurationLocator.cpp:196-217 | Adds the usable paths of the value's tokens in order |
| ConfigurationLocator.AddParts | src/InstrumentationEngine.Lib/ConfigurationLocator.cpp:90-104 | Adds the usable paths of the getline parts in order |
| ConfigurationLocator.TokensAreNonEmptyParts | src/InstrumentationEngine.Lib/ConfigurationLocator.cpp:91-99 | The tokens are the getline parts without the empty ones |
| ConfigurationLocator.JoinedIsReadBack | src/InstrumentationEngine.Lib/ConfigurationLocator.cpp:196-217 | Paths joined by delimiters are read back as these paths in order, by wcstok_s and by getline |
| ConfigurationLocator.PathsBehindTheName | src/InstrumentationEngine.Lib/ConfigurationLocator.cpp:53-105 | A variable made of a name, `=` and joined paths gives the usable ones of these paths in order if it is longer than the prefix and starts with it, and none otherwise |
| ConfigurationLocator.BothPlatformsAgree | src/InstrumentationEngine.Lib/ConfigurationLocator.cpp:78-105 | Where the empty path is not usable both ways of reading a value give the same sources |

## Left out

- The Win32 calls behind the queue (event registration, ReportEvent, the 15 second join, Sleep): their success or failure is a parameter where it decides what follows.
- Memory orders weaker than sequential consistency, and COM reference counts, including the references that Detach leaks in loops.
- The seven arities of the callbacks: one stands for all, since they share no state.
- EventLoggerSink.InitialisationsBounded: calls of one sink run one after another; CInitOnce and the queue are each modelled with interleaving.
- EventLoggerSink.ReinitialisedSinkIsDeaf: the source starts a second consumer thread on the same queue when it initialises again; the queue here has one consumer.
- EventLoggerSink.CEventLoggerSink.Shutdown: waiting for the thread and deregistering the event source, whose failures the source also returns.
- InstructionGraph.Graph.Replace: retargeting of branches and updating of exception clauses.
- InstructionGraph.Graph.Remove: updating of exception clauses.
- InstructionGraph.Graph.RemoveAll: removal of the exception clauses.
- InstructionGraph: the graph's lock and original offsets.
- InstructionGraph.Graph.InsertAfter: the model's `nodes` without an anchor is only the new instruction; what the source's old list still points to is not followed.
- LoadArgumentsHelper.GetBoxToken: the names of the well-known types, two of which are misspelt in the source, are opaque; equal definitions give equal tokens.
- Cil.SignatureRoundTrip: the engine's own parser, which the cited lines show, also takes pinned types and sentinels, counts of four bytes and bytes behind the last parameter; the encoder is that of the standard, the source has none.
- Cil: generic function pointers do not parse; the stack machine has only the instructions that are emitted, it converts no argument implicitly (ECMA-335 III.1.6), and a generic method cannot be called on it, since no token here is an instantiation.
- MaxStack: the pass is stated on instruction indexes instead of offsets; the opcode table is not part of this model, so the counts for plain opcodes are parameters.
- MethodInstrumentationInfoCollection: locks, and the red-black bookkeeping, which is replaced by arbitrary rotations; the search is std::map's lower-bound walk.
- InteropInstrumentationHandler.AnswerIsTheLookup: for keys that the comparison orders; with others a kept record can vanish from the lookup (`AgreementNeedsOrder`), unless the table no longer changes (`CacheAgreesOverFixedTable`).
- LoadArgumentsHelper.ReplacedReturnValue: which boxes unbox as which tokens (enums as their underlying types, several tokens of one type) is a parameter.
- Enumerator.CEnumerator.Next: stated for fewer than 2^32 - 1 members, where cursor plus counter cannot wrap.
- DataContainer: allocation failure and the critical section.
- ConfigurationLocator: expansion, canonical paths and file tests are an arbitrary partial function; case-insensitive comparison is a parameter.
- XML configuration, metadata readers, string conversion, type reflection and logging hosts: mostly calls into libraries that are not part of this model.
