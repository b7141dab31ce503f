# Verification of xrtransport

xrtransport is an OpenXR runtime that forwards an application's calls to a runtime on another machine. This project models the parts of it whose correctness lies in state, traversal, protocol order or arithmetic, and proves what they promise. `dafny verify dfyconfig.toml` checks everything.

## What is modelled

- **Bindings and write-back** (`Bindings`, `Declarations`, `WriteBack`, `Transfer`, `RequestPlaces`, `RemoteCalls`, `SimpleCalls`, `TransferExamples`, `StructArrayExamples`). The code generator walks the type of every parameter and collects the places that a call may modify; the generated server sends the elements behind them, and the generated client stores them in place. `Bindings` models the collector, and shows that what it collects is exactly the frontier of non-const references. `WriteBack` says what a callee that respects const may do to a tree of values. `Transfer` has the words of the request, runs the two generated halves of the reply over a wire of counted runs, and proves when the caller sees the callee's effect. `Declarations`, `RequestPlaces` and `RemoteCalls` say the same on declarations and values alone, without the functions that model the code: which paths are collected, when a request can be read, place by place, when a call returns and with what, and when that is the callee's effect. `SimpleCalls` applies this to the usual shape of a call: it always writes back. Loop ends and element counts are evaluated as the generated code writes them: a loop end is the bare name of a length, a count carries the prefix of its place, and a name that is not in scope does not compile, executed or not. The two example modules have the ways this goes wrong. None of the functions in the generated client has a loop over a nested array today, so that flaw is latent.
- **Handshake** (`Handshake`). The two halves as step machines over two FIFO byte streams that can be closed.
- **A whole connection** (`ServerHandlers`, `Session`, `SessionNotices`, `ExtensionList`, `PollEvents`). The server's handlers as methods of a class, and the composition of one client and one server as a step machine with message streams, module callbacks and loss of the connection. What is proved about them is about one log of calls to the runtime and to modules.
- **The client's entry points** (`FunctionTables`, `ClientEntry`, `ClientInstance`, `Negotiation`). The function table and its layers, the available extensions, the single instance, and function lookup.
- **Next chains and event packing** (`NextChain`, `EventPacking`). Removing a struct type from a chain on the heap, and packing a chain of events into the caller's buffer in a memory of addressed cells.
- **Clock synchronization** (`Synchronization`). The estimate of the clock offset, its error bound, and the cache.
- **Function ids** (`Names`, `FunctionIds`, `IdStability`, `WireIds`, `SpecExtensions`). Dividing functions among extensions, allocating their ids, and keeping them over any number of specification updates.

`Options` and `OpenXr` hold shared types, and the OpenXR 1.1 result codes.

## Where the code falls short

- Write-back loses writes, or does not compile, when the length of a traversed const array is not a name of a parameter with that value (`RemoteCalls.WriteBackExactly`, `TransferExamples.NestedCountUnresolved`, `TransferExamples.NestedCountCaptured`). A non-const parameter whose length is "null-terminated" does not compile (`TransferExamples.NullTerminatedUnresolved`): only the serializer of parameters and members knows that length.
- A call with a capacity of zero and a sized pointer that is not null fails, because the reply marks the buffer as null (`TransferExamples.ZeroCapacityRefused`).
- An array of header structs with a count of zero and a pointer that is not null leaves its type in the request (`RequestPlaces.RequestReadsExactly`). The call succeeds if nothing follows, as in xrEnumerateSwapchainImages (`StructArrayExamples.ZeroCapacityReturns`); otherwise the server takes the type for what follows (`StructArrayExamples.TypeShiftsCount`). Inside a struct, the reply sets the caller's pointer to null (`Transfer.EmptiedIsLost`, `StructArrayExamples.NestedImagesLost`).
- When events are left out of a full buffer, the last link in the buffer still names an event of the input chain, which is released right after (`EventPacking.PackedLinks`, `EventPacking.PackedContents`, `EventPacking.LastLinkDangles`).
- On Android, a create call without the Android struct leaves functions available until a later create call fails on the server (`ClientInstance.LifecycleExactly`, `ClientInstance.AndroidRejectionLeaves`). The struct is taken out of the application's own chain, so there a second call with the same create info never reaches the server (`ClientInstance.RetryTurnedAway`).
- After a create call has failed on the server, even xrCreateInstance no longer resolves, until another create call passes the first checks (`ClientInstance.BootFunctionsResolve`, `ClientInstance.FailureHidesCreate`).
- The server does not guard against a second instance: conservation needs the client's guard (`ServerHandlers.InstancesConserved`, `ServerHandlers.SecondCreateLeaksFirst`). It also needs the instance field, which has no initializer, to start as null; `ServerHandlers.InstancesConserved` has the initial value as a parameter.
- After the application has destroyed its instance, synchronization goes on and the server samples its clock with a null instance; exactly those samples have one (`Session.SampleInstanceExactly`, `Session.NullSampleHappens`).
- An existing wire id changes when a specification lists the function under a later extension too (`WireIds.WireIdKeptExactly`, `WireIds.MovedFunctionRenumbered`). A function for which every extension element that mentions it is replaced by a later one of the same name gets no id, unless the file had one already (`SpecExtensions.HasWireIdExactly`, `SpecExtensions.RepeatedElementDrops`).
- A struct that an extension element requires both by name and by its structure type is listed twice, and the generated files then define its serializer twice, as src/common/serialization/serializer.cpp:1931-1946 does (`SpecExtensions.StructMultiplicity`).
- The clock offset is estimated from one exchange alone, where the twenty together can narrow it down further (`Synchronization.BoundIsBest`, `Synchronization.ReadingsCanTellMore`).
- The runtime is given the timer extension twice if the application asks for it (`ExtensionList.TimerCanBeGivenTwice`).

## Assumptions

- The transport between client and server is reliable and in order; a side that reads from a closed, empty stream, or writes to a side that has closed, fails.
- A runtime that reports success from xrCreateInstance returns a non-null handle (used for the client's lifecycle and for whole connections, not for the server's balance, `ServerHandlers.InstancesConserved`).
- Values are trees: two parameters do not refer to the same memory. A pointer refers to the elements of its block and no more; a read past them counts as a failure.
- Names of structs, of functions and of parameters are unique where they are declared.
- Extension numbers in the specification are a registry: one number for each name, never shared.

## Model

| member | source | states |
|---|---|---|
| Bindings.CollectInto | code_generation/bindings.py:17-124 | the recursive collector appends to the shared result list exactly the bindings of the specification function, branch by branch |
| Bindings.ApplyModifiableBindings | code_generation/bindings.py:132-135 | every function gets the bindings of its parameters in order, with arrays decayed |
| Bindings.CollectCases | code_generation/bindings.py:48-124 | the nine branches come down to three: a modifiable place is one binding with its kind and length, a traversed one is its members behind one hop, anything else is nothing |
| Bindings.FunctionBindingsExact | code_generation/bindings.py:17-130 | the bindings of a function are exactly the frontier of its parameters, each once and in strict member order, none a prefix of another, with loop variables i0, i1, ... one for each index step, and with sibling lengths read through the place's own prefix |
| Declarations.BindingsLead | code_generation/bindings.py:48-135 | the bindings read off the attributes of the declarations: exactly the paths over structs by value, dereferences of const pointers and indices into const pointers with a length and arrays, that end at a place which is written back; with one loop for each index, ending at the text of that length or bound, and with the kind and count of that place |
| Bindings.CollectSound | code_generation/bindings.py:48-124 | every collected binding is reached only through const pointers, arrays and values, is modifiable itself, and carries the loops along its path |
| Bindings.CollectComplete | code_generation/bindings.py:48-124 | every frontier path below a place has a binding |
| Bindings.PrefixFree | code_generation/bindings.py:28-29 | pruning at the first non-const reference: no frontier path continues another |
| Bindings.CollectOrdered | code_generation/bindings.py:120-124 | bindings come in depth-first member order |
| Bindings.LoopVariables | code_generation/bindings.py:83-85 | the loops along a path are one for each index step, with fresh variables in order |
| WriteBack.ChangesDetermined | code_generation/bindings.py:28-32 | two effects of a const-respecting callee on the same value are equal once they agree at every non-const reference |
| WriteBack.PutElsewhere | code_generation/bindings.py:28-29 | storing at one frontier location leaves every other one as it was |
| Transfer.WriteBackExact | code_generation/bindings.py:17-135 | the caller sees the callee's effect, for every effect, if and only if the arguments are covered: the generated lines compile, the server can read the request, loop ends resolve, visits stay inside what the request brings along, a visited pointer is null or has exactly as many elements as its count says, at least one, and every writable reference is visited |
| RequestPlaces.RequestReadsExactly | include/xrtransport/serialization/serializer.h:1272-1350 | the server can read a request if and only if every place of it is legible by itself, by the rules for arrays of header structs, next pointers and single header structs, other pointers, and arrays, and nothing is written after a type that an array of header structs with a count of zero has left |
| RemoteCalls.WriteBackExactly | code_generation/bindings.py:17-135 | the same on declarations and values alone: the caller sees every effect if and only if every generated line compiles and every loop end has a value, every place of the request can be read, every location that the loops visit is a place that is null or travels whole, and every reference with something behind it is visited |
| RemoteCalls.ReturnsExactly | code_generation/templates/client/rpc_impl.mako:49-71 | any remote call returns if and only if every generated line compiles and every loop end has a value, every place of the request can be read, and every location that the loops visit is a place that fits what travels for it |
| RemoteCalls.ResultExactly | include/xrtransport/serialization/deserializer.h:2534-2641 | after a call that returns, of every visited reference the caller has the callee's elements as far as they are counted and its own after them, or null if a nested pointer counts none, and every other reference as it was |
| RemoteCalls.CompilesExactly | code_generation/templates/utils.mako:110-130 | the generated lines compile if and only if, on every collected path, a length is a number beside the place or, for a parameter, a constant, and a header struct is behind a pointer or is an array parameter |
| Transfer.RemoteCallMerges | code_generation/templates/server/function_dispatch_impl.mako:46-54 | what the server serializes binding by binding is what the client's walk over the same bindings consumes, with nothing left over, exactly if every visited reference fits its count |
| RemoteCalls.VisitsInOrder | code_generation/templates/utils.mako:110-130 | the visits are those of the first binding, with the outermost loop slowest and each loop counting up, then those of the second, and so on |
| RemoteCalls.WireInOrder | code_generation/templates/server/function_dispatch_impl.mako:46-54 | the server sends one run for each visit, in this order |
| Transfer.VisitHandsOver | include/xrtransport/serialization/deserializer.h:2534-2641 | one visit of any kind of binding: a run goes through exactly if the reference fits, that is, it has arrived and is null or has as many elements as are counted, at least one unless it is a struct array; it then replaces the first elements in place, or, if empty, makes the pointer of a nested struct array null |
| Transfer.EmptyStructArrayUnread | include/xrtransport/serialization/serializer.h:1327-1350 | the type of the first struct of an array is read whatever the count: a request with a pointer to none cannot be read |
| Transfer.ChangeKeepsArrival | code_generation/templates/server/function_dispatch_impl.mako:33-40 | which places the request brings along does not depend on what the callee does |
| Transfer.EmptiedIsLost | include/xrtransport/serialization/deserializer.h:2613-2641 | a struct array inside a struct that counts no elements costs the caller its pointer, whatever the callee does |
| Transfer.CountIsDeclared | code_generation/templates/utils.mako:110-130 | in every visit the count expression, read through the binding's prefix, has the value of the length that the declaration of the place names |
| WriteBack.ChangeKeepsScalar | code_generation/bindings.py:28-32 | a callee that respects const cannot change a number beside a reference, so both sides evaluate the same counts |
| Transfer.UncoveredLosesWrite | code_generation/bindings.py:85 | for arguments that are not covered, a callee effect that does not reach the caller |
| RemoteCalls.AgreeingCountsWriteBack | code_generation/bindings.py:83-112 | write-back is exact for every callee if the generated lines compile, every loop end has the value of the element count it stands for, traversed pointers are not null, and every place has the value its declaration says: a next pointer or single header struct is null or one struct, another pointer is null or as many elements as it declares, and arrays are there |
| SimpleCalls.SimpleCallsWriteBack | src/client/rpc.cpp:11399-11445 | every call of numbers, const create infos with const next pointers, and pointers to single results writes back exactly, for every callee |
| SimpleCalls.CreateSessionWritesBack | src/client/rpc.cpp:11399-11436 | the shape of xrCreateSession, with a null next pointer or one that leads to a struct, and of a call whose result is a header struct: the call returns with the callee's effect |
| TransferExamples.NestedCountUnresolved | code_generation/bindings.py:85 | a nested length that is no parameter name: the generated loop does not compile |
| TransferExamples.NestedCountCaptured | code_generation/bindings.py:85 | a nested length that happens to be another parameter's name: the write is silently lost |
| TransferExamples.NullTerminatedUnresolved | code_generation/templates/utils.mako:118-119 | a non-const null-terminated parameter: the generated line does not compile |
| TransferExamples.ZeroCapacityRefused | include/xrtransport/serialization/deserializer.h:2549-2554 | a capacity of zero with a buffer that is not null fails, whatever the callee does |
| TransferExamples.BufferWritesBackExactly | code_generation/templates/utils.mako:118-119 | write-back of a buffer with a capacity parameter is exact if and only if it is null or has that many elements, at least one |
| StructArrayExamples.ZeroCapacityReturns | src/client/rpc.cpp:11994-12027 | asking for the capacity with an array of images that is not null: the call returns the callee's count and leaves the images alone |
| StructArrayExamples.NoImagesUnread | include/xrtransport/serialization/serializer.h:1327-1331 | with a pointer to no image at all, the request reads a type that is not there |
| StructArrayExamples.TypeShiftsCount | include/xrtransport/serialization/serializer.h:1345-1348 | with a parameter after the images, the server takes the type for its start |
| StructArrayExamples.NestedImagesLost | include/xrtransport/serialization/deserializer.h:2638-2640 | the same array inside a struct: the call returns and the caller's pointer is null |
| Handshake.Agreement | src/client/runtime.cpp:33-74 | in every interleaving, if a side accepts then magic and versions match and the other side does not reject or abort; the branches for a wrong server magic and for a negative server verdict are dead |
| Handshake.FinalVerdicts | src/server/server.cpp:40-81 | the verdicts of both sides when both have returned, for all pairs of builds, and empty streams when they accept |
| Handshake.WordsOnTheWire | src/client/runtime.cpp:33-74 | in every interleaving each side sends its magic, API version, protocol version and verdict, in this order and in 32, 64, 32 and 32 bits; what has been read and what is on the stream are that, cut in two |
| Handshake.SidesTakeTurns | src/server/server.cpp:40-81 | in every interleaving, how many words a side can have written when it has read so many: no side writes before it has read what is due |
| Handshake.Progress | src/server/server.cpp:40-81 | every step uses up one of at most 22 units of work, and a state without a step is one in which both sides have returned |
| Handshake.Terminates | src/client/runtime.cpp:33-74 | every state of the invariant can be run to its end within its remaining work |
| ServerHandlers.Server.CreateInstanceHandler | src/server/server.cpp:178-250 | the runtime is called with the request, the modules' extensions and the timer extension; modules are notified in order on success; the create info is what it was |
| ServerHandlers.Server.DestroyInstanceHandler | src/server/server.cpp:252-279 | the request is valid if and only if its handle is the saved one; then every module is told, in order, before the runtime destroys the instance, and nothing is saved any more; otherwise nothing is called |
| ServerHandlers.NoticesInPlace | src/server/server.cpp:223-268 | for any requests, by position in the log: a destruction comes right after the notice to every module, in order, a successful creation right before it, and there are no other notices |
| ServerHandlers.RequiredAt | src/server/server.cpp:193-205 | the names the modules require are those of the first module, then those of the second, and so on, all of them |
| ServerHandlers.Server.EndOfRun | src/server/server.cpp:170-174 | an instance that is still saved is destroyed |
| ServerHandlers.HandleBalances | src/server/server.cpp:178-279 | one request: a handle that comes in is saved; a saved one stays, is destroyed, or is overwritten |
| ServerHandlers.CountsAreCounts | src/server/server.cpp:166-174 | the counts of the next rows are counts of the log: how often it has the destroy call, and whether it has a successful creation |
| ServerHandlers.InstancesConserved | src/server/server.cpp:166-174 | for any requests: destroyed equals created plus the initial value less those overwritten; from null, each created instance is destroyed exactly once if and only if none was overwritten |
| ServerHandlers.SecondCreateLeaksFirst | src/server/server.cpp:223-225 | two creates in a row: the first instance is never destroyed |
| Session.InstanceConserved | src/client/entry.cpp:206-209 | in every run of client and server at most one instance is created, and it has been destroyed exactly once when the server returns |
| Session.ServerModulesFirst | src/server/server.cpp:233-241 | every server module is told of the instance before any client module, and none afterwards |
| SessionNotices.DestroyAnnounced | src/server/server.cpp:260-267 | in every run, a call that destroys an instance comes right after the notice to every server module, in order; the one exception is the last call of a run that has returned |
| SessionNotices.NoticeMeant | src/server/server.cpp:227-263 | in every run, every notice to a module has the creation or destruction it is about at its distance, and every instance is created with the request, the modules' extensions and the timer extension |
| SessionNotices.AllToldBeforeUse | src/client/entry.cpp:299-303 | whenever the application has its instance and its call has returned, every module on both sides has been told of it, the server's first, each in order, right after its creation |
| SessionNotices.DestroyAnswered | src/server/server.cpp:260-279 | serving a destroy request calls the modules and the runtime if and only if the handle is the saved one |
| Session.SamplesAfterCreation | src/client/entry.cpp:293-303 | no time sample is taken before the instance the loader refers to was created |
| Session.SampleInstanceExactly | src/server/server.cpp:89-121 | in every run, a time sample has a null instance if and only if the loader's instance was passed to destroy before it, and otherwise has that instance |
| Session.SampleAfterDestroy | src/client/synchronization.cpp:57-60 | from every reachable state with an instance, destroying it and then synchronizing samples the time with a null instance |
| Session.NullSampleHappens | src/client/synchronization.cpp:57-60 | such a run from the start |
| Session.StagesKept | src/client/entry.cpp:205-310 | what can be in flight in each stage, and where the handle is, is kept by every step of either side |
| ExtensionList.CreateThrough | src/client/entry.cpp:205-310 | a create call through the client's and the server's methods adds to the server's log, unless the client turns it away, one call of the runtime with every requested name that no client module provides and that is not the Android extension on Android, then the modules' and the timer extension, and on success the notices to the modules |
| ExtensionList.RuntimeListCounts | src/server/server.cpp:188-212 | how often the runtime is given any name: as often as the application asked for it, unless the client provides it, as often as the modules require it, and once more if it is the timer extension |
| ClientInstance.ForwardedCounts | src/client/entry.cpp:273-285 | erasing keeps every occurrence of every other name and none of a local one |
| ClientInstance.SentJoins | src/client/entry.cpp:278-285 | the order of the request is kept: what is sent for two lists in a row is what is sent for the one followed by what is sent for the other |
| ExtensionList.TimerCanBeGivenTwice | src/server/server.cpp:207-212 | how often the runtime is given the timer extension |
| PollEvents.HandlePoll | src/server/server.cpp:123-164 | one poll request drops events of unknown type, ends on any finite queue, and returns the first answer that is an event of known type or a code other than success, or that no event is available |
| PollEvents.OnlyKnownCounts | src/server/server.cpp:150-163 | an answer counts as known exactly if it is a code other than success or an event of a known type |
| PollEvents.EventStream | src/server/server.cpp:123-164 | over any run of polls the replies are the known answers of a prefix of the queue, in order and once each, then "no event" |
| PollEvents.OneRequest | src/server/server.cpp:126-163 | one request takes a stretch off the queue that holds at most one known answer, its reply |
| FunctionTables.FunctionTable.AddFunctionLayer | src/client/function_table.h:46-57 | the new function is in the table and the old one, or null, is handed out |
| FunctionTables.LayerFunctions | src/client/entry.cpp:312-326 | a list of layers is added in order, each save slot receiving what was there before |
| FunctionTables.LayersStack | src/client/function_table.h:36-57 | for every name, calling down from the table entry visits exactly that name's layers, most recent first, and ends at the original function or null |
| FunctionTables.LayersNeverCycle | src/client/function_table.h:36-40 | no function is visited twice on the way down |
| FunctionTables.CallChainUnique | src/client/function_table.h:36-40 | there is only one way down from a function |
| FunctionTables.LayeredTwiceCallsItself | src/client/function_table.h:46-57 | without distinct functions, a layer calls itself |
| ClientEntry.CollectRpcExtensions | src/client/available_extensions.cpp:22-80 | the server's extensions that are compiled in, with the built-in ones; nothing if enumeration fails |
| ClientEntry.CollectAvailableExtensions | src/client/available_extensions.cpp:82-101 | those, overridden by what the modules provide |
| ClientEntry.AvailableMeaning | src/client/available_extensions.cpp:22-101 | an extension is offered if and only if a module provides it, or enumeration succeeded and it is built in or both reported and compiled in |
| ClientEntry.OfferedEntry | src/client/available_extensions.cpp:22-101 | which entry is offered for a name: that of the last module entry with the name; without one, that of the first report, at the lower of the two versions, if it is compiled in; else the built-in one |
| ClientEntry.RpcExtensionsMeaning | src/client/available_extensions.cpp:39-54 | exactly the reported extensions that are compiled in |
| ClientEntry.FirstReportWins | src/client/available_extensions.cpp:45-53 | the first report of a name counts, at the lower of the two versions |
| ClientEntry.LastModuleWins | src/client/available_extensions.cpp:83-98 | a module overrides the server, and a later entry an earlier one |
| ClientInstance.ClientRuntime.CreateInstance | src/client/entry.cpp:205-310 | result code, saved instance, marked functions, notified modules, forwarded list and what is left of the application's next chain, for every early return, failure and success |
| ClientInstance.CreateExactly | src/client/entry.cpp:205-310 | the same of the function that lemmas about any calls use, without the functions it is made of: a name is sent as often as it was requested, or not at all if a client module provides it or if it is the Android extension on Android |
| ClientInstance.Lifecycle | src/client/entry.cpp:97-105 | after any sequence of create calls: nothing saved and only the boot functions or nothing available, or exactly one call succeeded and the core functions and those of its extensions are available |
| ClientInstance.AvailableExactly | src/client/entry.cpp:226-245 | the state after any sequence of create calls: before a success the boot functions, until a call fails on the server, and after it the core functions and those of its extensions; in both cases also what calls turned away for the Android struct have marked since the last such failure |
| ClientInstance.LifecycleExactly | src/client/entry.cpp:247-256 | after any sequence of create calls the client is in its lifecycle if and only if every function marked by a call turned away for its missing Android struct, with no failure on the server since, is permitted anyway |
| ClientInstance.AndroidRejectionLeaves | src/client/entry.cpp:247-256 | one call without the Android struct: no instance, xrGetSystem available, not in the lifecycle |
| ClientInstance.RetryTurnedAway | src/client/entry.cpp:247-256 | the chain edit outlives the call: a second call with the same create info reaches the server if and only if the platform is not Android and the first one reached it and failed there |
| ClientInstance.BootFunctionsResolve | src/client/entry.cpp:305-308 | the three boot functions resolve if and only if the last call that passed the first checks did not fail on the server |
| ClientInstance.FailureHidesCreate | src/client/entry.cpp:305-308 | one call that fails on the server: xrCreateInstance does not resolve |
| ClientInstance.GetInstanceProcAddr | src/client/entry.cpp:107-150 | the lookup as it runs, on the function table: the transport function resolves in every state; without an instance any name but the three boot functions is refused and null is written; any other name resolves exactly if it is available and has an entry, and otherwise nothing is written |
| ClientInstance.LookupAfterCreation | src/client/entry.cpp:107-150 | once a call has succeeded, a lookup with an instance resolves a name exactly if it has an entry and is a core function, or one of an extension that call asked for, or one that a turned away call left behind |
| ClientInstance.MissingBranchIsDead | src/client/entry.cpp:144-149 | the branch for an available function without a table entry is dead in every reachable state if and only if every boot, core and extension function has an entry |
| Negotiation.Negotiate | src/client/entry.cpp:356-368 | table, save slots and extensions after start-up |
| Negotiation.LayerModuleFunctions | src/client/entry.cpp:328-336 | the layers of all modules are added in load order |
| Negotiation.ModuleLayersAt | src/client/entry.cpp:328-336 | the layers are those of the first module, then those of the second, and so on, all of them |
| Negotiation.AvailableMeansCallable | src/client/entry.cpp:133-149 | if generator and modules deliver what they owe, no reachable state has an available function without an entry, and a lookup gives the topmost layer |
| NextChain.RemoveFromChain | src/client/entry.cpp:182-203 | the chain becomes its nodes of other types in order, the first removed node is returned, and no other link changes |
| NextChain.WithoutJoins | src/client/entry.cpp:187-199 | filtering goes node by node |
| NextChain.WithoutCounts | src/client/entry.cpp:187-199 | every node of another type stays, and none of this type |
| EventPacking.PackEvents | src/client/entry.cpp:456-494 | the buffer holds the events of the greedy placement, each equal to its original but for its link, and nothing else has changed |
| EventPacking.PlacesSound | src/client/entry.cpp:473-483 | the placement is consecutive, disjoint, in address order, and inside the buffer if the first event fits |
| EventPacking.PlacesExactly | src/client/entry.cpp:473-483 | the first event starts the buffer, each other one is at the next multiple of 16, and the first one left out would end outside at every free multiple of 16 |
| EventPacking.LayoutUnique | src/client/entry.cpp:473-483 | those properties determine the placement |
| EventPacking.PackedInside | src/client/entry.cpp:456-461 | nothing outside the buffer is written if the first event fits it |
| EventPacking.PackedContents | src/client/entry.cpp:485-494 | every event in the buffer is its original but for its link, which leads to the next one; the last link is null or leads to the first event left out |
| EventPacking.PackedLinks | src/client/entry.cpp:489-498 | the input chain is untouched; all links but the last stay in the buffer, and the last is null, if and only if every event after the first ends inside at its aligned place, or the first event left out |
| EventPacking.AllPlacedExactly | src/client/entry.cpp:473-483 | the placement comes as far as the aligned places, computed without the limit, end inside |
| EventPacking.LastLinkDangles | src/client/entry.cpp:489-498 | two events that fill a buffer each: the packed one still points at the other |
| EventPacking.MaskRoundsUp | src/client/entry.cpp:475-477 | the mask expression rounds up to a multiple of 16 |
| Synchronization.Estimate | src/client/synchronization.cpp:26-53 | the offset is that of the first exchange with the smallest round trip, and no intermediate value leaves 64 bits |
| Synchronization.EstimateBound | src/client/synchronization.cpp:41-53 | the estimate is off by at most half of any of the round trips, rounded up |
| Synchronization.BestIsSmallest | src/client/synchronization.cpp:43-49 | the exchange kept has the smallest round trip, and is the first such |
| Synchronization.ConsistentExactly | src/client/synchronization.cpp:30-50 | the offsets that any list of exchanges allows are exactly those from the greatest t1 - t2 to the least t3 - t2 |
| Synchronization.BestPromise | src/client/synchronization.cpp:26-53 | no estimate can promise less than half the width of that interval, rounded up, and its middle does promise that |
| Synchronization.BoundIsBest | src/client/synchronization.cpp:52-53 | the code's bound is kept, and is the best possible for the readings if and only if the interval is as wide as the smallest round trip, up to rounding |
| Synchronization.ReadingsCanTellMore | src/client/synchronization.cpp:43-53 | two exchanges after which the estimate is off by 5 and the readings leave no doubt |
| Synchronization.Synchronizer.GetTimeOffset | src/client/synchronization.cpp:57-78 | synchronizes exactly when asked and enabled more than 200000000 nanoseconds after the last time, and returns the stored offset |
| Synchronization.CallExactly | src/client/synchronization.cpp:57-78 | after any history, one more call leaves everything as it was if it does not ask, if synchronization is disabled, or if it comes at most 200000000 nanoseconds after the end of the latest synchronization; otherwise it takes its own readings |
| Synchronization.EnabledExactly | src/client/synchronization.cpp:80-86 | synchronization is enabled exactly if it was enabled and not disabled since |
| Synchronization.RunCalls | src/client/synchronization.cpp:57-86 | any history of calls, run on the variables, leaves them as the history function says, the one that the next rows are about |
| Synchronization.StoredOffset | src/client/synchronization.cpp:13-18 | in every history the stored offset is the latest synchronization's, within its error |
| Synchronization.ReturnedOffset | src/client/synchronization.cpp:57-78 | every offset returned with synchronization enabled was measured in twenty exchanges, just then or at most 200 ms before, and within half of each of their round trips, rounded up |
| Names.LeqExactly | code_generation/function_ids.py:14 | names are ordered by the first character in which they differ, a prefix first |
| Names.SortSorts | code_generation/function_ids.py:14 | sorting gives an ordered rearrangement |
| FunctionIds.IdStore.GenerateIds | code_generation/function_ids.py:3-23 | an id file from scratch: sorted functions numbered from 1 |
| FunctionIds.IdStore.UpdateIds | code_generation/function_ids.py:25-56 | an update in place: new functions after the largest id, new extensions at the end |
| FunctionIds.ExtendFunctions | code_generation/function_ids.py:34-43 | the functions that are missing are added in order with the next ids |
| FunctionIds.ApplyFunctionIds | code_generation/function_ids.py:58-67 | every function gets the wire id of the last entry that lists it, or keeps what it had |
| IdStability.NewEntryExactly | code_generation/function_ids.py:3-56 | a fresh entry, in a new file or in an update, has its extension's number and exactly its functions, numbered 1, 2, ... in name order |
| IdStability.ExtendExactly | code_generation/function_ids.py:34-43 | an entry that is extended keeps what it has; the names it lacks get the ids after the largest one in use |
| IdStability.ExtendInOrder | code_generation/function_ids.py:34-43 | those names come in the order of the specification |
| IdStability.UpdateGrows | code_generation/function_ids.py:34-43 | existing entries keep place, name and id |
| IdStability.UpdateCovers | code_generation/function_ids.py:25-56 | after an update every function of the specification is in its extension's entry |
| IdStability.UpdateIdempotent | code_generation/function_ids.py:25-56 | repeating an update changes nothing |
| WireIds.UpdateGood | code_generation/function_ids.py:25-56 | updates keep extension numbers and local ids free of repetition |
| WireIds.GenerateGood | code_generation/function_ids.py:3-23 | a fresh file has neither |
| WireIds.WireIdsDistinct | code_generation/function_ids.py:58-67 | with at most 1000 functions to an extension, no two functions share a wire id |
| WireIds.WireIdKeptExactly | code_generation/function_ids.py:25-67 | an update keeps a function's wire id if and only if it does not list the function under an extension whose entry comes later |
| WireIds.UpdatesNeverRenumber | code_generation/function_ids.py:25-67 | over any sequence of updates, a function that stays under its extension keeps its wire id and shares it with no other |
| WireIds.UpdatedIdsDistinct | code_generation/function_ids.py:3-67 | from a generated file, over any sequence of updates within the bound of 1000 functions, no two functions share a wire id |
| WireIds.MovedFunctionRenumbered | code_generation/function_ids.py:58-67 | a function listed under a second, later extension changes its wire id |
| SpecExtensions.CollectExtensions | code_generation/spec_parser.py:317-366 | the extensions of a specification, sorted, with their structs and functions, and as core what none of them mentions |
| SpecExtensions.CollectedCoversExactly | code_generation/spec_parser.py:322-358 | a function is listed somewhere if and only if not every element that mentions it is replaced by a later one of the same name |
| SpecExtensions.CollectedDistinct | code_generation/spec_parser.py:354-364 | the collected extensions have distinct names |
| SpecExtensions.HasWireIdExactly | code_generation/spec_parser.py:317-366 | after an update, a function of the specification has a wire id if and only if some element that mentions it is not replaced, none mentions it, or the file had it already |
| SpecExtensions.RepeatedElementDrops | code_generation/spec_parser.py:353-354 | two elements of the same name: the first one's function has no wire id in a fresh file |
| SpecExtensions.CollectedExactly | code_generation/spec_parser.py:317-366 | what is collected, read off the specification: first, in name order and once for each name, an extension for every element that mentions a function or struct of the specification and is not replaced by a later such element of the same name, with its number, commands and structs; last, the core, with what no element mentions |
| SpecExtensions.StructMultiplicity | code_generation/spec_parser.py:324-351 | an extension lists a struct once for every time it is required by name and once more for every structure type of it that is added |

## Left out

- The generated code itself (src/client/rpc.cpp, src/client/function_table.cpp, src/server/function_dispatch.cpp and the serializer): only the shape of a generated call is modelled, with counted runs of elements as the units on the wire. Chains of structs behind a struct pointer travel with it as one element.
- Bindings.CollectInto: paths are sequences of steps rather than C text, and double pointers are traversed as single ones, as the collector does; the templates reject them.
- RemoteCalls.WriteBackExactly: two parameters that refer to the same memory are not modelled, because values are trees.
- RemoteCalls.ReturnsExactly: of the request, what lies behind references and in const data that the collector does not enter is taken to arrive as it is; a request that the server would misread counts as a call that does not return, also where the code would go on with wrong values.
- Bindings.FunctionBindingsExact: recursion over a cyclic graph of const struct pointers, on which the collector does not end, is excluded by the rank in the struct index.
- Handshake.FinalVerdicts: a network that loses data after a close is not modelled.
- Session.InstanceConserved: an application that calls from several threads at once, and callbacks of client modules that make calls of their own, are not modelled.
- EventPacking.PackEvents: addresses are unbounded, so wrap-around at the end of the address space does not occur; a pointer is one cell.
- NextChain.RemoveFromChain: the chain is acyclic; on a cyclic one the loop does not end.
- ServerHandlers.Server.CreateInstanceHandler: a module that reports different counts in its two calls is not modelled, and neither is the Windows name of the timer extension.
- Synchronization.Estimate: clock readings are below 2^62 nanoseconds; the floating-point conversions on Windows and the debug output are not modelled.
- Enumerating extensions for the application, loader negotiation checks, configuration, sockets, the transport's threads, module loading, and the random struct generator.
