# Model of sdbus-c++

A Dafny model of the parts of sdbus-c++ whose correctness rests on an argument over many steps:

- **Typed serialisation.** `TypeTraits` has the C++ types and their signatures, `SdBus` the contract
  assumed of an sd-bus message (a tree of typed items, a builder with a container stack, a read
  cursor), `Values` the reference meaning of writing and reading, `Messages` the operators of
  `sdbus::Message` as methods that move the message and its `ok_` flag, proved against that meaning.
  `Serialisation`, `Destinations` and `ReadGuarantees` prove what the operators promise together,
  `Variants` and `DictStructs` build `sdbus::Variant` and registered structs on top of them.
- **The signature compiler** of the code generator (`SignatureCompiler`), proved to undo the
  signatures of `TypeTraits`.
- **The asynchronous-call protocol** (`AsyncCalls`, `AsyncCallsInvariant`, `AsyncCallsResults`,
  `AsyncCallsPending`, `AsyncCallsOwnCallback`, `AsyncCallsGuard`, `AsyncCallSlots`): any number of caller and
  cancelling threads and one event-loop thread over the sd-bus mutex and the container mutex, one
  step at a time, with strong references held by the container, by local variables and by user slots.
- **The awaitable hand-shake** (`Awaitables`) and **the event-loop wake-up and exit protocol**
  (`EventLoop`), again as interleaved steps.
- Smaller pieces: the vtable index (`VTables`), message handles (`MessageHandles`) and the XML tree
  builder of the generator (`XmlTree`).

Each method of `Messages.Message` is specified by two functions: `Encode`, the item a value becomes,
and `Decode`, what reading an item into a variable gives. `Res.Crashes` stands for undefined
behaviour (a null contents signature given to `strcmp`), `Res.Throws` for `sdbus::Error`.

What is false of the code is stated as such, with the exact condition:

- A value survives the wire *if and only if* it is `Faithful`: its texts hold no NUL (they go through
  `c_str()`), no `std::vector<std::variant>` is involved, and each std::variant holds the first
  alternative with its signature. A vector of std::variant is never read back.
- A struct comes back from its dictionary if and only if, besides, no member is a Variant or a
  std::variant: `Variant{member}` adds no level to those, and reading the member takes one off.
- The signature compiler accepts exactly what a scan that counts brackets accepts.
- A wake-up of the event loop is lost exactly when a call throws, with messages left in
  the queues, while the loop waits and nobody else is about to check. An asynchronous call misses the
  update of the poll timeout exactly when the loop takes a new snapshot, with a longer timeout,
  between the caller's first reading of the timeout and its call, and nothing else wakes the loop.
- The call info of an asynchronous call can be freed under its own callback, by cancelling or
  releasing the call or unregistering the proxy there, exactly when the call is alive and no other
  thread is caught in the middle of a clear with it. Nothing else ever frees it there.

## Model

| member | source | states |
|---|---|---|
| TypeTraits.SignatureCanon | include/sdbus-c++/TypeTraits.h:300-302 | the signature of a type depends on its D-Bus type only: vector, array and span, map and unordered_map, Variant and std::variant agree |
| TypeTraits.ParseSignature | include/sdbus-c++/TypeTraits.h:281-378 | decoding the signature of any type, followed by any text, yields its D-Bus type and exactly that text |
| TypeTraits.ParseSound | include/sdbus-c++/TypeTraits.h:281-378 | whatever the decoder accepts is the signature of the type it returns followed by the rest |
| TypeTraits.UniqueDecoding | include/sdbus-c++/TypeTraits.h:281-378 | two signatures in front of the same text are of the same D-Bus type and end at the same place, so none is a proper prefix of another |
| TypeTraits.SameSignature | include/sdbus-c++/TypeTraits.h:281-378 | equal signatures if and only if equal D-Bus types |
| TypeTraits.SameSignatures | include/sdbus-c++/TypeTraits.h:375-379 | a list of types is recovered from the concatenation of its signatures |
| SignatureCompiler.ParseSignature | tools/xml2cpp-codegen/generator_utils.cpp:60-146 | the loop with its running index and text computes the recursive translation, exits exactly where it does, and never reads past the terminator |
| SignatureCompiler.ParseOne | tools/xml2cpp-codegen/generator_utils.cpp:64-136 | the switch translates one type and stops on its last character, or exits |
| SignatureCompiler.SignatureToType | tools/xml2cpp-codegen/generator_utils.cpp:148-154 | on the concatenated signatures of any list of types the generator's method returns the comma-joined C++ names |
| SignatureCompiler.AtomIsName | tools/xml2cpp-codegen/generator_utils.cpp:31-58 | the table of the generator has the C++ type of every basic type at the code that the library's traits give that type |
| SignatureCompiler.OneIsName | tools/xml2cpp-codegen/generator_utils.cpp:60-146 | wherever the signature of a type stands in a text, the switch emits the C++ name of the type and stops on its last character |
| SignatureCompiler.SignaturesTranslate | tools/xml2cpp-codegen/generator_utils.cpp:148-154 | for every list of types, the concatenated signatures translate to the comma-joined C++ names |
| SignatureCompiler.IndexBound | tools/xml2cpp-codegen/generator_utils.cpp:60-146 | on every string whatever the index stays below twice the length |
| SignatureCompiler.AcceptsWhatScans | tools/xml2cpp-codegen/generator_utils.cpp:60-146 | for every string whatever, the generator accepts it if and only if a scan that only counts open brackets does |
| SignatureCompiler.AcceptsTooMuch | tools/xml2cpp-codegen/generator_utils.cpp:60-146 | exactly which accepted texts are no concatenation of signatures, and that every concatenation is accepted |
| SignatureCompiler.SignaturesScanToTheEnd | tools/xml2cpp-codegen/generator_utils.cpp:60-146 | signatures are scanned to their end with every bracket closed |
| SignatureCompiler.StopsEarlyOrLeavesOpen | tools/xml2cpp-codegen/generator_utils.cpp:119-123 | after any accepted text, a bracket that closes nothing ends the translation whatever follows, and an open one need not be closed |
| SignatureCompiler.StopsAtUnmatchedCloser | tools/xml2cpp-codegen/generator_utils.cpp:60-124 | a text that begins with a closing bracket is translated to nothing, whatever follows, and an array of a closing bracket to `std::vector<>`; neither is a signature |
| SignatureCompiler.EmptyStructPasses | tools/xml2cpp-codegen/generator_utils.cpp:109-118 | an empty struct is accepted |
| SignatureCompiler.EmptyEntryPasses | tools/xml2cpp-codegen/generator_utils.cpp:70-78 | an empty dictionary entry is accepted |
| SignatureCompiler.MixedBracketsPass | tools/xml2cpp-codegen/generator_utils.cpp:119-123 | brackets of two kinds close each other |
| Messages.Message.Seal | src/Message.cpp:619-625 | sealing needs every container closed, and rewinds to the first item |
| Messages.Message.AppendBasic | src/Message.cpp:125-260 | one basic item is appended if it matches the declared contents; texts end at their first NUL |
| Messages.Message.AppendArray | src/Message.cpp:262-268 | the one-step append puts the array of all elements |
| Messages.Message.Open | src/Message.cpp:462-524 | a container opens if its contents signature is valid and expected here |
| Messages.OpensForTypes | src/Message.cpp:462-524 | a container opens if and only if its contents signature is that of a C++ type, an entry or a list of fields, whichever its kind asks for, and it is due here; an entry only in an array |
| Messages.Message.Close | src/Message.cpp:470-524 | a container closes if its declared contents are complete |
| Messages.Message.Write | include/sdbus-c++/Message.h:355-493 | writing a value throws exactly where the open container does not expect its signature, or where a Variant in it is empty or would show another signature than a variant's; otherwise it leaves the same containers open, moves the expected signature by exactly the type's, and appends exactly its item. A Variant on its own is its item, whatever that is |
| Messages.Message.SerializeArray | include/sdbus-c++/Message.h:400-421 | the one-step path and the element-by-element path write the same message |
| Messages.Message.SerializeSlowly | include/sdbus-c++/Message.h:413-420 | open, elements, close: the array item of all elements |
| Messages.Message.WriteElements | include/sdbus-c++/Message.h:416-417 | each element is accepted by the open array, which ends up holding the items of all |
| Messages.Message.SerializeDictionary | include/sdbus-c++/Message.h:458-466 | the dictionary item of all entries in iteration order |
| Messages.Message.WriteEntries | include/sdbus-c++/Message.h:435-447 | each entry is accepted by the open dictionary, which ends up holding the items of all |
| Messages.Message.WriteDictEntry | include/sdbus-c++/Message.h:423-432 | key and value match the declared contents, and the entry closes |
| Messages.Message.WriteStruct | include/sdbus-c++/Message.h:485-493 | the struct item of all fields |
| Messages.Message.WriteFields | include/sdbus-c++/Message.h:468-482 | each field is accepted at its place in the declared signature |
| Messages.Message.WriteStdVariant | include/sdbus-c++/Message.h:355-366 | the variant item of the alternative that is held |
| Messages.Message.EnterContainer | src/Message.cpp:526-592 | at the end of the enclosing array the flag drops and nothing moves; a wrong or missing container throws; otherwise the cursor stands inside, past the container outside |
| Messages.Message.ExitContainer | src/Message.cpp:537-601 | leaving a container needs its end |
| Messages.Message.ReadBasicValue | src/Message.cpp:270-460 | the basic reads, including the bool and UnixFd that are overwritten at the end of an array |
| Messages.Message.Read | include/sdbus-c++/Message.h:520-727 | every read ends as the reference semantics says, and when it ends normally ok_ is true exactly if one complete value was consumed and false exactly if nothing was left to read and nothing moved; a vector keeps what it held in front of what is read |
| Messages.Message.ReadVectorFast | include/sdbus-c++/Message.h:599-610 | the one-step read of a vector meets the same contract as the slow one, and appends |
| Messages.Message.ReadFixedFast | include/sdbus-c++/Message.h:581-597 | so does that of an array or span: throws if the elements do not fit, else copies a prefix and leaves the tail |
| Messages.Message.ReadVectorSlowly | include/sdbus-c++/Message.h:631-649 | the loop that ends when the flag drops reads all elements, appends them and restores the flag |
| Messages.Message.ReadFixedSlowly | include/sdbus-c++/Message.h:612-629 | enter, the loop over the existing elements, exit: the contract of Read |
| Messages.Message.ReadOver | include/sdbus-c++/Message.h:620-624 | existing elements are overwritten in order until the array or the elements end; elements left in the message throw |
| Messages.Message.ReadDictionary | include/sdbus-c++/Message.h:662-697 | all entries are read, and of equal keys the first is kept |
| Messages.Message.ReadDictEntry | include/sdbus-c++/Message.h:651-660 | one entry consumed, or the end of the dictionary and nothing moved |
| Messages.Message.ReadKeyAndValue | include/sdbus-c++/Message.h:656 | key and value are read in this order and use up the entry |
| Messages.Message.ReadStruct | include/sdbus-c++/Message.h:716-727 | every field is read from its item, or the struct throws |
| Messages.Message.ReadFields | include/sdbus-c++/Message.h:699-713 | the fields, or the arguments of a call, are read one after the other and used up |
| Messages.Message.ReadVariant | src/Message.cpp:405-416 | a Variant takes a copy of the next complete item; at the end of an array it stays empty and the flag drops; a used one throws |
| Messages.Message.ReadStdVariant | include/sdbus-c++/Message.h:520-527 | the std::variant read ends as the reference semantics says, including the null contents signature |
| Messages.Message.FindAlternative | include/sdbus-c++/Message.h:524 | the fold stops at the first alternative with the stored signature |
| Messages.Message.ReadAlternative | include/sdbus-c++/Message.h:504-517 | the matching alternative is read into a fresh variable and the variant left |
| Messages.PlainElements | include/sdbus-c++/Message.h:599-610 | reading plain elements one by one gives what the one-step read copies |
| Messages.PlainOver | include/sdbus-c++/Message.h:581-597 | over existing elements too: both throw if and only if the message holds more, else the same prefix and the same untouched tail |
| Values.Pick | include/sdbus-c++/Message.h:504-527 | the least alternative with the given signature, or none if there is none |
| Values.CString | src/Message.cpp:205-251 | what is sent of a text is everything in front of its first NUL |
| Serialisation.EncodeTyped | include/sdbus-c++/Message.h:736-762 | everything written is well-typed at every level and has the signature of the C++ type |
| Serialisation.RoundTrip | include/sdbus-c++/Message.h:400-727 | for every type nested to any depth and every value, reading what was written into a fresh variable gives the value back if and only if it is faithful |
| Serialisation.RoundTripEntries | include/sdbus-c++/Message.h:458-466 | dictionaries come back with the same entries in the same order |
| Serialisation.EntriesExtend | include/sdbus-c++/Message.h:662-676 | reading a dictionary into a map only ever appends: what the map held, and the first of equal keys, stays |
| Serialisation.RoundTripAlternative | include/sdbus-c++/Message.h:504-527 | a std::variant keeps its index if and only if no earlier alternative has the signature |
| Serialisation.WriteArguments | include/sdbus-c++/Message.h:495-499 | the body of a message has the concatenated signature and the items of all arguments |
| Serialisation.Exchange | include/sdbus-c++/Message.h:355-734 | write, seal and read back any list of arguments: the same values if and only if all are faithful, the cursor after the last one, ok_ true |
| Destinations.RoundTripOnto | include/sdbus-c++/Message.h:520-727 | for every type nested to any depth and whatever the variable held: a faithful value is read over it, a vector growing at its end, a map getting the new keys only, arrays and structs taking over member by member; it throws exactly if a Variant in its place was used before |
| Destinations.ExchangeOnto | include/sdbus-c++/Message.h:355-734 | the same for whole messages: write, seal, and read over variables that hold anything |
| Destinations.VectorAppends | include/sdbus-c++/Message.h:599-610 | for any item, a read into a vector gives what it held followed by what a fresh vector would get |
| Destinations.AllElementwise | include/sdbus-c++/Message.h:631-649 | a vector is read if every item can be read by itself, and then each element is what its item gives |
| Destinations.OverElementwise | include/sdbus-c++/Message.h:612-629 | over existing elements, for any items: exactly when the read succeeds, each element what its item gives over it, and the elements after the last item as they were but for a bool, UnixFd or Variant right after it |
| Destinations.FieldsElementwise | include/sdbus-c++/Message.h:699-727 | a struct is read if every item can be read over its member, and then each member is what its item gives; else it throws, unless reading a member is undefined |
| Destinations.EntriesElementwise | include/sdbus-c++/Message.h:662-697 | a dictionary is read if every entry can be, and then the entries are inserted in their order |
| Destinations.FirstKeyStays | include/sdbus-c++/Message.h:662-697 | inserting keeps what the map held, adds the first entry of each new key and nothing else |
| Destinations.ShortArrayEndsInZeros | include/sdbus-c++/Message.h:581-629 | a fresh array that gets fewer items than it has elements ends in zeros, empty texts or no descriptors |
| ReadGuarantees.ReadsItsSignature | include/sdbus-c++/Message.h:529-727 | without fixed-size sequences and std::variant, a read succeeds exactly on items of the type's own signature and throws on all others |
| ReadGuarantees.VectorOfStdVariantNeverReads | include/sdbus-c++/Message.h:520-527 | reading a vector of std::variant never succeeds, and where every element could be read by itself it compares with a null contents signature |
| ReadGuarantees.StdVariantTakesLeast | include/sdbus-c++/Message.h:504-527 | for any alternatives: with none of the stored signature the read throws, else it reads the contents as the least one that has it, and nothing else decides; with alternatives whose signature decides a read it throws if and only if there is none |
| ReadGuarantees.StdVariantFromOthers | include/sdbus-c++/Message.h:504-527 | a std::variant read from a basic item compares with a null contents signature, from a container other than a variant it throws |
| ReadGuarantees.NeverCrashes | include/sdbus-c++/Message.h:520-527 | with no sequence of std::variant, a read of the type's own signature never compares with a null contents signature |
| ReadGuarantees.DecodeShape | include/sdbus-c++/Message.h:529-727 | whatever well-formed item is read, the variable holds a value of its type afterwards |
| Variants.Embed | include/sdbus-c++/Types.h:60-75 | the Variant holds a variant of the value, a Variant included; it throws exactly for what cannot be sent |
| Variants.FromStdVariant | include/sdbus-c++/Types.h:86-92 | the Variant holds the one variant that a std::variant writes |
| Variants.FromValue | include/sdbus-c++/Types.h:60-92 | `Variant{value}` by the constructor overload resolution picks: a copy of a Variant, the one level of a std::variant, a variant of anything else |
| Variants.Get | include/sdbus-c++/Types.h:94-104 | get gives the contents read as the type asked for, and throws if the stored signature is another or there is nothing |
| Variants.ToStdVariant | include/sdbus-c++/Types.h:121-128 | converting back to std::variant gives the value it was made from if and only if that is faithful |
| Variants.ContainsValueOfType | include/sdbus-c++/Types.h:130-135 | throws exactly on a Variant that was never sealed, compares with null exactly without contents, and for types whose signature decides holds if and only if get succeeds |
| Variants.NeverUnwraps | include/sdbus-c++/Types.h:94-104 | what get reads inside the variant a value became is never that value again |
| Variants.GetRoundTrip | include/sdbus-c++/Types.h:60-104 | get returns the value `Variant{value}` was made from if and only if it is faithful and neither a Variant nor a std::variant |
| Variants.EmbedRoundTrip | include/sdbus-c++/Types.h:69-104 | from an embedding Variant every faithful value comes back, and every type with another D-Bus type throws |
| DictStructs.ReadRegistered | include/sdbus-c++/Types.h:496-519 | a registered struct is read from a struct or from a dictionary, by the type of the next item |
| DictStructs.ReadAsDictionary | include/sdbus-c++/Message.h:678-697 | the dictionary is read to its end and every entry handed to the callback |
| DictStructs.ReadMembers | include/sdbus-c++/Message.h:684-691 | the entries are assigned in order until one is refused |
| DictStructs.AssignMember | include/sdbus-c++/Types.h:507-518 | the chain of name comparisons assigns one member, skips or throws |
| DictStructs.LastEntryWins | include/sdbus-c++/Types.h:507-518 | for any dictionary in any order the read succeeds if and only if every entry fits, and each member then holds the last entry with its name, or what it held before |
| DictStructs.StrictThrows | include/sdbus-c++/Types.h:514-517 | when the values have the member types, strict mode throws if and only if some key is no member, relaxed mode never |
| DictStructs.RegisteredFromDictionary | include/sdbus-c++/Types.h:496-519 | the same for the operator of a registered struct, strict or relaxed |
| DictStructs.RegisteredFromOthers | include/sdbus-c++/Types.h:496-519 | from a struct it reads as the plain struct does, from anything but a struct or a dictionary of strings to variants it throws |
| DictStructs.WriteAsDictionary | include/sdbus-c++/Types.h:488-494 | one entry per member, name and `Variant{member}`, in member order; throws exactly where a dictionary is not expected or a member cannot be sent |
| DictStructs.MakeEntries | include/sdbus-c++/Types.h:572-575 | each member becomes the Variant that `Variant{member}` is, and a member that cannot be sent throws here or makes the dictionary throw |
| DictStructs.DictionaryRoundTrip | include/sdbus-c++/Types.h:488-519 | writing as a dictionary and reading it over any struct gives the struct if and only if every member is faithful and none is a Variant or a std::variant |
| AsyncCallsInvariant.StepKeeps | src/Proxy.cpp:130-388 | every step of every thread keeps the invariant |
| AsyncCallsInvariant.SettleKeeps | src/Proxy.h:120-127 | dropping a reference, and destroying the call info with the last one, keeps it |
| AsyncCallsInvariant.EraseMarkedStep | src/Proxy.cpp:336-352 | taking a finished call out of the container keeps it |
| AsyncCallsInvariant.PushLockedStep | src/Proxy.cpp:329-334 | storing a call that has not finished, and only such a call, keeps it |
| AsyncCallsInvariant.UnreferenceStep | src/SdBus.cpp:364-369 | releasing the sd-bus slot under the sd-bus mutex keeps it |
| AsyncCallsResults.NeverFreedInHandler | src/Proxy.cpp:277-309 | in every interleaving the call info is neither freed nor past the release of its slot while its reply handler may touch it |
| AsyncCallsResults.FreedNeverStarts | src/Proxy.cpp:277-309 | once freed, a call stays freed and its callback never starts |
| AsyncCallsResults.StartedOnce | src/Proxy.cpp:277-309 | a reply is dispatched at most once |
| AsyncCallsResults.ContainerInvariant | src/Proxy.cpp:329-365 | whenever the container mutex is free, no stored call is finished or freed and none is stored twice |
| AsyncCallsResults.NoReferenceLeft | src/Proxy.cpp:376-393 | after the handler has finished and callMethodAsync has returned, with the container mutex in any state, only a cancel or clear in flight still holds the call, and the container holds it only while a cancel is about to take it out |
| AsyncCallsResults.NothingLeaks | src/Proxy.cpp:376-393 | when all threads are done, every call is freed unless its reply is still to come or the user holds its slot |
| AsyncCallsResults.SomeThreadCanStep | src/Proxy.cpp:336-365 | deadlock freedom: while any thread has work left, some thread can go on with its own |
| AsyncCallsResults.WorkShrinks | src/Proxy.cpp:329-388 | every such step reduces a bound, so each operation that was started ends |
| AsyncCallsResults.Finish | src/Proxy.cpp:130-393 | from every state of the invariant a run leads to a quiet one |
| AsyncCallsResults.UnregisterSynchronizes | src/Proxy.cpp:256-260 | when unregister has returned, each call it took out is freed and its callback neither runs nor starts, or a cancel or clear of another thread is on its way with it |
| AsyncCallsPending.PendingUntilReply | src/Proxy.cpp:130-160 | over all runs: when all threads are done, a call that was sent, not cancelled, released or taken out by a clear, and whose callback has not been entered, is still stored or in the user's Slot, alive and known to sd-bus, and its reply is taken up when it comes |
| AsyncCallsPending.WaitStays | src/Proxy.cpp:130-365 | the same for one step: a call that waits keeps waiting until its reply is taken up, unless the step disturbs it |
| AsyncCallsPending.StoredUnlessFinished | src/Proxy.cpp:329-334 | push_back stores the call if and only if it has not finished, and leaves the others |
| AsyncCallsPending.LeavesByOwnErase | src/Proxy.cpp:336-365 | a stored call leaves the container only in a clear or in the erase of that very call |
| AsyncCallsPending.MadeAsAskedFor | src/Proxy.cpp:130-160 | callMethodAsync makes one call, the user's exactly if a Slot was asked for, and it stays so |
| AsyncCallsPending.FailedSendDestroys | src/Proxy.cpp:139-139 | a failed send drops the only reference: the call is destroyed without sd-bus or the container ever knowing it |
| AsyncCallsPending.CancelSynchronizes | src/Proxy.cpp:376-388 | when cancel has returned, the call is not stored, and it is freed so that its callback neither runs nor starts, or another thread still makes it or is on its way with it |
| AsyncCallsPending.SdBusIsExclusive | src/Proxy.cpp:277-309 | while the event loop dispatches a reply, no other thread changes what sd-bus knows of the calls |
| AsyncCallsOwnCallback.SelfCancelFreesUnderCallback | src/Proxy.cpp:376-388 | a stored call that nobody else holds and that cancels itself in its callback is freed while the callback runs |
| AsyncCallsOwnCallback.SelfReleaseFreesUnderCallback | src/Proxy.cpp:148-160 | so is a call whose Slot the user destroys in its callback |
| AsyncCallsOwnCallback.SelfUnregisterFreesUnderCallback | src/Proxy.cpp:354-365 | so is a stored call that nobody else holds when the proxy is unregistered in its callback |
| AsyncCallsGuard.GuardIsExact | src/Proxy.cpp:277-309 | from every reachable state in which the callback of a call has control, some schedule frees the call under it if and only if the call is alive and no other thread is caught in a clear with it; and every such schedule takes an act that the guard forbids |
| AsyncCallsGuard.PoliteNeverFrees | src/Proxy.cpp:277-309 | a schedule that keeps to the guard never frees the call under its callback |
| AsyncCallsGuard.NoHarm | src/Proxy.cpp:354-365 | with the call dying or kept elsewhere, not even a schedule that breaks the guard does |
| AsyncCallsGuard.CanBeFreed | src/Proxy.cpp:336-388 | in every other state a schedule that does is found, with the lock owner, the creator and other holders going first |
| AsyncCallsOwnCallback.SelfCancelIsPossible | src/Proxy.cpp:376-388 | two threads reach the situation of a self-cancel and a self-unregister |
| AsyncCallSlots.FloatingAsyncCallSlots.PushBack | src/Proxy.cpp:329-334 | the call is appended unless it has finished, and the container stays clean |
| AsyncCallSlots.FloatingAsyncCallSlots.Erase | src/Proxy.cpp:336-352 | the call is marked and its entry, if any, taken out, all others kept in order |
| AsyncCallSlots.FloatingAsyncCallSlots.Clear | src/Proxy.cpp:354-365 | all entries are taken out in order |
| AsyncCallSlots.WithoutFound | src/Proxy.cpp:340-344 | find and erase by position removes what the protocol step removes |
| AsyncCallSlots.StepsOfTheContainer | src/Proxy.cpp:329-365 | the protocol's steps do to the container and the finished flag what the critical sections do |
| Awaitables.ContinuesOnceWithResult | include/sdbus-c++/Awaitable.h:115-140 | in every interleaving the coroutine goes on at most once and only with the stored result |
| Awaitables.ResumesWithHandle | include/sdbus-c++/Awaitable.h:121-129 | a callback that resumes finds the handle stored and the coroutine suspended |
| Awaitables.BothMeansOnce | src/Proxy.cpp:193-203 | when co_await and callback have both happened, the coroutine has gone on exactly once |
| Awaitables.BothFinish | src/Proxy.cpp:193-203 | at most six steps lead there, and the coroutine receives the reply of the one callback |
| EventLoop.WakeUpNeverLost | src/Connection.cpp:793-805 | if the loop waits on a snapshot of empty queues and messages are queued by now, eventFd_ is readable or a caller has still to check |
| EventLoop.NeverSleepsOnMessages | src/Connection.cpp:813-869 | once the callers are done, the loop does not sleep on queued messages |
| EventLoop.WakeUpLostExactly | src/Connection.cpp:668-697 | over all runs, throwing calls of both kinds included: a wake-up is lost at the end if and only if some call threw, with messages left behind, while the loop waited unnoticed, and nothing has helped since; then the loop sleeps on messages unless it was told to leave |
| EventLoop.LostByStep | src/Connection.cpp:668-697 | the same for one step, from a lost wake-up or none |
| EventLoop.ThrowLosesWakeUpIsPossible | src/Connection.cpp:668-688 | a run from the start in which a call is answered by an error and the loop ends asleep on messages |
| EventLoop.PollsOnFreshSnapshot | src/Connection.cpp:813-869 | every clear of eventFd_ is followed by a fresh snapshot before the next poll |
| EventLoop.ReturnsOnlyWhenTold | src/Connection.cpp:165-180 | enterEventLoop returns only after a leave notification since it last returned, reading a descriptor never fails, and a wake-up is attended to first |
| EventLoop.OneReturnEach | src/Connection.cpp:165-180 | over all runs: enterEventLoop returns at most as often as it was told to, and not again before it is told again |
| EventLoop.LeavesInTime | src/Connection.cpp:830-869 | a leave notification sent before or during the loop is never lost; poll returns at most twice more, plus once per later wake-up and EINTR; the loop's own steps are bounded likewise |
| EventLoop.ReturnsInTime | src/Connection.cpp:830-869 | with a leave notification enterEventLoop has returned when the loop has made more steps than that bound |
| EventLoop.LoopIsNeverStuck | src/Connection.cpp:830-869 | inside the loop, unless poll waits with nothing readable and nothing queued at its snapshot, the loop can make its next step; a leave notification always ends the waiting |
| EventLoop.ProcessesInTime | src/Connection.cpp:813-869 | between two calls of sd_bus_process the loop makes at most three steps, and three more per wake-up |
| EventLoop.NotifiesWithReason | src/Connection.cpp:690-707 | callers notify only if messages are queued or the timeout has become shorter than the one they had read |
| EventLoop.WakeUpsConsumed | src/Connection.cpp:813-856 | eventFd_ is cleared exactly after poll has found it readable or sd_bus_process has found nothing to do, and a new snapshot follows |
| EventLoop.TimeoutNeverMissed | src/Connection.cpp:690-707 | over all runs in which calls only ever shorten the timeout and no snapshot overtakes a caller between its reading of the timeout and its call: whenever the loop waits for longer than the next timeout, eventFd_ is readable or a caller is about to notify |
| EventLoop.TimeoutMissedExactly | src/Connection.cpp:690-707 | as long as no later snapshot overtakes a caller, a snapshot is followed by a missed timeout in some run if and only if it overtakes one that has read a shorter timeout, with eventFd_ not readable and nobody about to notify |
| EventLoop.TimeoutMissedIsPossible | src/Connection.cpp:690-707 | a run from the start that ends with the loop waiting on the longer timeout and every caller at rest |
| VTables.CreateInternalVTable | src/Object.cpp:176-199 | throws exactly for an invalid member name, a method without a callback or a property with neither getter nor setter, else each index is a sorted permutation of the registered items of its kind |
| VTables.WriteItems | src/Object.cpp:182-239 | the loop sorts the items into their kinds in order, or throws at the first invalid one |
| VTables.OfKindCounts | src/Object.cpp:182-186 | each item is among those of its kind as often as it was registered |
| VTables.FlagsAsRegistered | src/Object.cpp:201-204 | the last interface flags registered count |
| VTables.Find | src/Object.cpp:303-321 | the binary search returns the first item with the name, or none if and only if there is none |
| VTables.IndexedIffRegistered | src/Object.cpp:303-321 | a name is in an index if and only if an item of the kind was registered with it |
| VTables.CreateSdBusVTable | src/Object.cpp:241-255 | one entry per item between start and end, setters exactly for writable properties |
| VTables.MethodEntryHasItem | src/Object.cpp:263-272 | every emitted method entry stands for an indexed method with its name and its input and output signature |
| VTables.SignalEntryHasItem | src/Object.cpp:274-281 | every emitted signal entry stands for an indexed signal with its name and signature |
| VTables.PropertyEntryHasItem | src/Object.cpp:283-296 | every emitted property entry stands for an indexed property with its name and signature, writable if and only if it has a setter |
| VTables.ItemHasEntry | src/Object.cpp:241-296 | conversely every registered item has its entry, with its own name and signatures |
| VTables.EntriesAddUp | src/Object.cpp:241-261 | there are no more entries than that, between the start with the interface flags and the end |
| VTables.MethodCallback | src/Object.cpp:331-346 | for an emitted member the assertions hold and a registered callback is called |
| VTables.PropertyGetCallback | src/Object.cpp:348-375 | for an emitted property the assertion holds |
| VTables.PropertySetCallback | src/Object.cpp:377-398 | for an emitted writable property the assertions hold and its registered setter is called |
| MessageHandles.Handles.Construct | src/Message.cpp:60-75 | one more handle and one more reference |
| MessageHandles.Handles.CopyAssign | src/Message.cpp:82-97 | self-assignment and another handle of the same message included, the count of every message is the number of its handles, before, between and after |
| MessageHandles.Handles.CopyConstruct | src/Message.cpp:77-80 | a new handle of the same message |
| MessageHandles.Handles.MoveAssign | src/Message.cpp:104-118 | the source is emptied; moving to itself gives up the reference |
| MessageHandles.Handles.MoveConstruct | src/Message.cpp:99-102 | a new handle takes over, the source is emptied |
| MessageHandles.Handles.Destroy | src/Message.cpp:120-124 | the handle's reference, and only that, is given up |
| MessageHandles.NeverZeroWhileHeld | src/Message.cpp:60-124 | the count is positive if and only if a handle remains |
| XmlTree.Document.AppendChild | tools/xml2cpp-codegen/xml.cpp:272-278 | the walk through last children, step by step, and the new child at its end |
| XmlTree.Document.StartElement | tools/xml2cpp-codegen/xml.cpp:262-282 | the node that was innermost open has the new element, with its attributes as written, as one more last child, that element is now innermost, and the nodes on the way differ in their last child only |
| XmlTree.Document.EndElement | tools/xml2cpp-codegen/xml.cpp:303-308 | the tree stays as it is, and the innermost open element is now the one whose last child was innermost |
| XmlTree.AttributesAsWritten | tools/xml2cpp-codegen/xml.cpp:35-45 | a node has every attribute that was written, with the last value written for its name, and no other |
| XmlTree.EventsRebuildTree | tools/xml2cpp-codegen/xml.cpp:262-308 | feeding the events of any element rebuilds exactly its tree, which has its name, its attributes as written and its children in order at every level |
| XmlTree.PrefixDepth | tools/xml2cpp-codegen/xml.cpp:262-308 | after every prefix of the events the walk was defined and m_depth is the number of open elements |

## Left out

- sd-bus itself: `SdBus` is an assumed contract. A read or enter at the end of an array moves nothing, one past the end of the signature or of another type fails, leaving a container needs its end, contents agree with the declared signatures.
- The limits and text checks of sd-bus: 255 bytes and 32 levels of a signature, UTF-8, object path and signature syntax of texts, message size.
- Bytes, alignment and endianness; floating point is `real`.
- Variants share: a copy of a Variant refers to the same sd-bus message (src/Message.cpp:82-97), so reading into a copy of a fresh one fills and seals the original too; `VVariant` is a value.
- UnixFd: duplication and closing of descriptors; a number stands for what it refers to.
- std::string_view, whose bytes are copied without looking for a NUL.
- Variants made from a struct as a dictionary.
- Enums, which are written and read as their underlying type.
- A reader that starts with ok_ false, and what a destination holds after a read has thrown.
- Map iteration order: a map is its entries in the order they are written or inserted.
- Variants.Get: after a get that threw inside a nested container, rewind(false) returns to the start of that container only; the model always rewinds to the top.
- Nested struct-to-dictionary serialisation, which `Variant::get` does not read back.
- Messages.Message.ReadBasicValue: the untouched-tail claim for arrays of bool and UnixFd is not made, since their reads write at the end of an array.
- AsyncCalls: the reads of the poll data around sd_bus_call_async, and a failing eventfd write there, are not steps of this protocol; `EventLoop` has the former.
- AsyncCalls: the results in `AsyncCallsResults` are about runs in which a callback neither cancels nor releases its own call nor unregisters the proxy (`Polite`); `AsyncCallsGuard` is about all runs.
- AsyncCalls: a PendingAsyncCall may be used as soon as the slot is stored, which is earlier than callMethodAsync returns it.
- AsyncCalls: several event loops on one connection, and the lifetime of the proxy itself.
- EventLoop.TimeoutNeverMissed: assumes of sd-bus that a call leaves the next timeout as it is, or makes it shorter if it is asynchronous (`OnlyShortens`); releasing the slot of a pending call, which makes it longer, is no step: how sd-bus computes the timeout is not modelled.
- EventLoop: poll and sd_bus_process errors other than EINTR, eventfd overflow, external event loops.
- Awaitables: more than one co_await of an awaitable.
- VTables: the rules for member names are those of sd-bus (`ValidMember`); std::sort is modelled by what it promises, some sorted permutation; sd-bus is assumed to refuse two properties of the same name.
- MessageHandles: copying from an empty or moved-from handle, which dereferences a null connection.
- XmlTree: nodes are values, so what the pointer walk changes in place is put together again from the nodes it went through; character data and printing are not modelled.
- Signal and match slots, properties, object managers, name requests as I/O, credentials, error conversion, flags, generated text.
