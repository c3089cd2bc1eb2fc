# uGC in Dafny

A model of the two halves of uGC's core, the handle store and the allocator, and of the list
format of its release signatures, with proofs that range over whole runs.

**Handle store.** `HandleSpec` is the store seen from outside: a partial map from slot index to
record (object, type, extra info, secondary), a free list and a high-water count, with one step
for each operation. `HandleImage` gives the meaning of the array contents, `HandleTable` is the
store as the core keeps it (four parallel arrays, a free stack, two counters, updated in place),
`HandleAddress` the unsigned arithmetic on slot addresses, `HandleManager` the operations of the
manager and the store wrapper, which take handles as addresses. `HandleProperties` proves what
every run keeps. The capacity is a parameter (65535 in the code). Pointers are naturals, null is 0.

**Allocator.** `AllocSpec` is a state machine: memory, the blocks obtained from the zeroing
allocator, every object ever returned, any number of allocation contexts, the abandoned tails and
the counters. A step is a call of `Alloc`, a bump by the runtime's inline fast path, a write by a
mutator, or a new context. `AllocSafety` proves disjointness, zeroing and the window condition,
`AllocMemory` what every byte holds, `AllocBytes` conservation, placement, the Next-Fit bound and alignment, `AllocLedger` the byte
counters. `HeapObject` runs the same steps on objects whose fields are updated in place. Quantum,
header size and the number of values of `size_t` are parameters (65536, 8 and 2^64 or 2^32).
What the zeroing allocator answers is a parameter of each call: 0, or the start of a block whose
end is an address and which meets no earlier block. Mutators write only inside objects they were
given: an object owns `[p - h, p + size - h)`, since its size pays for the header of the object
after it.

**Signed lists.** (`Sequences` and `Sums` hold what is shared.) `SignedList` has the printer and its canonicity, `SignedMerge` the line
splitter, the parser, the loops over files and lists and the check, `SignedProperties` what
merging gives, `SignedFormat` the format in full, without the model's own predicates. A digest is a string of 64 lower-case hexadecimal digits. `fail` is a failure result.

Caller duties, stated as preconditions: created types are not negative, duplicates and
`SetExtraInfoForHandle` act on live handles, the getters and plain writes of the manager on handles
some create issued. The operations of the core take any index of the arrays. Where one of them can
break the store, its contract says exactly when it does: destroying a slot no create has handed
out yet always does, writing a field of such a slot does unless the value is null, and the
unguarded type setter does unless it leaves a live slot live, a free slot free and an unused slot
with type zero. A write through a handle destroyed since never reaches a live record, nor a later
create.

Two more places where the code's promise holds under a condition:

- the range test accepts exactly the addresses inside slots if and only if the end of the array
  is itself an address; an array at the very top of the address space would have its end wrap to
  zero (`HandleAddress.ContainsIsExact`). C does not place arrays there;
- `merge` splits lines at more characters than `list_text` refuses. Merging gives the list of all
  the files together if and only if every name is non-empty and free of those characters
  (`SignedProperties.MergeOfPrinted`). With a name that has one, the merge can fail, as for `a`,
  a vertical tab and `b` (`SignedProperties.BrokenNameExists`), but it can also succeed with a
  different list: one listed file can come out as two that nobody listed
  (`SignedProperties.MergeNamesOtherFiles`).

## Model

The main results come first, then the steps and the in-place operations.

| member | source | states |
|---|---|---|
| HandleProperties.RunInv | ugc/core/ugc_core.h:154-160 | over every run free entries are distinct and, below the count, exactly the slots that are not live |
| HandleProperties.ReadsLastWrite | ugc/core/ugc_core.c:244-278 | each field of a live handle is the last value any operation of the run wrote to it |
| HandleProperties.WritesSpelledOut | ugc/core/ugc_core.c:250-315 | a write through a live handle sets its one field to the value, whatever was there, and nothing else in the store |
| HandleProperties.FieldPersists | ugc/core/ugc_core.c:244-278 | a value in a field of a live handle stays through any run without a write to that field, a destroy of the handle or a reset |
| HandleProperties.CountIsHighWater | ugc/core/ugc_core.h:154-160 | the count is the maximum number of handles live at once since the last reset |
| HandleProperties.PlacementIndependence | ugc/core/ugc_core.c:171-235 | runs with the same creates, destroys and resets return the same handles and end in the same placement, whatever contents and field writes they have |
| HandleProperties.DestroyThenCreateRoundTrip | ugc/core/ugc_core.c:136-139 | destroying d1..dk and creating k handles returns dk..d1 and restores live set, free list and count |
| HandleProperties.NullExactlyWhenFull | ugc/core/ugc_core.c:171-179 | creation fails if and only if every slot of the capacity is live |
| AllocSafety.ObjectsNeverOverlap | ugc/core/ugc_core.h:73-80 | over every run, no address belongs to two objects, headers included |
| AllocSafety.ReturnedZeroed | ugc/core/ugc_core.h:68-80 | whatever mutators wrote before, an object returned by any path has header and payload all zero, and is appended to the objects |
| AllocMemory.MemoryHoldsLastByte | ugc/core/ugc_core.h:68-80 | over every run, through any allocations, every mapped byte is the last one a mutator wrote there, and zero if none has |
| AllocSafety.WindowsStayGood | ugc/core/ugc_core.h:88-93 | the window condition is re-established for every context: at most Q - h bytes, in one owned quantum, zero, and met by no object |
| AllocBytes.BytesConserved | ugc/core/ugc_core.c:65-124 | bytes obtained = object sizes + one header a block + abandoned tails + room in windows; each tail is smaller than the request that abandoned it |
| AllocBytes.RefillIsNextFit | ugc/core/ugc_core.c:113-123 | over every interleaving, the quanta of a context are the bins Next-Fit makes of the sizes it served, and the window is what the last bin leaves |
| AllocBytes.QuantaBound | ugc/core/ugc_core.c:107-123 | k >= 2 quanta served S bytes with (k-1)(Q-h) < 2S, and if any packing fits the same sizes into m quanta, k is at most 2m - 1 |
| AllocBytes.ObjectsPlaced | ugc/core/ugc_core.c:103-124 | with a context and no flag, an object is in a quantum of that context exactly when a quantum can carry it; every other object has a block of its size and one header |
| AllocLedger.AccountsAgree | ugc/uGCHeap.cpp:393-405 | then context-less calls and all context counters add up to the heap's counter |
| AllocBytes.GapAlignsObjects | ugc/uGCHeap.cpp:21-24 | with the masked gap for a header, aligned blocks and sizes in multiples of 8, every object of every run is 8-aligned |
| SignedList.TextIsCanonical | tools/sign_package.py:242-244 | the comparison of printed lists: equal maps give equal texts or both none; equal texts come only from equal maps |
| SignedProperties.MergeOfFileSets | tools/sign_package.py:159-234 | merging the lists of file sets against listing all the files together: fails when it does, and equal exactly when names are printable |
| SignedFormat.MergeOfFileSetsInFull | tools/sign_package.py:159-234 | the same with the condition in full: no base name is empty or has one of the ten characters that end a line |
| SignedProperties.MergeOfPrinted | tools/sign_package.py:222-234 | merging printed lists fails when they share a name; otherwise it is byte for byte the list of all entries if and only if all names are printable |
| SignedProperties.MergeNamesOtherFiles | tools/sign_package.py:222-234 | a listed name that a separator breaks into the text of a line merges without failure into a list of two files nobody listed |
| SignedProperties.MergeOrderDoesNotMatter | tools/sign_package.py:222-234 | whether lists merge, and into what, does not depend on their order |
| SignedMerge.AgreesExactly | tools/sign_package.py:249-256 | a check against a printed list succeeds if and only if the files are that map |
| SignedFormat.AgreesOnlyWithAList | tools/sign_package.py:249-256 | for any data, printed or not: a check succeeds exactly when the data is the list of some dictionary and the files have distinct names and are that dictionary |
| SignedFormat.MergesExactly | tools/sign_package.py:222-233 | a merge succeeds exactly when every line is digest, two spaces and name, and no name repeats; then it gives the list of those entries |
| HandleAddress.ContainsIsExact | ugc/core/ugc_core.c:126-134 | the range test accepts exactly the addresses inside slots, for all addresses, if and only if the end of the array does not wrap |
| HandleProperties.StepInv | ugc/core/ugc_core.c:171-278 | every legal step keeps that invariant |
| HandleProperties.CreateIsFresh | ugc/core/ugc_core.c:181-221 | a create returns null and changes nothing, or a handle outside the live ones, with the given record; all other records unchanged. A duplicate gets object and type only |
| HandleProperties.LiveAndFree | ugc/core/ugc_core.c:171-235 | live + free = count |
| HandleProperties.DestroyFreesLiveSlot | ugc/core/ugc_core.c:223-235 | the stack-full guard never stops a live slot from being freed |
| HandleProperties.DoubleDestroyIsHarmless | ugc/core/ugc_core.h:334-338 | after a destroy the slot is dead and free, and a second destroy changes nothing |
| HandleProperties.DeadUntilRecycled | ugc/core/ugc_core.h:334-338 | over any run that does not hand the slot out again it stays dead, and destroying it changes nothing |
| HandleProperties.TouchedIsPrefix | ugc/core/ugc_core.c:171-179 | the slots handed out since the last reset are exactly those below the count |
| HandleProperties.RoundTripRecords | ugc/core/ugc_core.c:136-139 | after it the new records sit in the reversed handles and all other records are untouched |
| HandleProperties.StackFrame | ugc/core/ugc_core.c:174-175 | a run that never drops below a depth of the free list leaves what lies under it unchanged |
| HandleProperties.ConditionalWrite | ugc/core/ugc_core.c:317-336 | store-if-null and compare-exchange are the plain write exactly on a match, and nothing otherwise |
| HandleProperties.FieldsSpelledOut | ugc/core/ugc_core.h:165-167 | the four fields of a record by name |
| HandleImage.DenoteInv | ugc/core/ugc_core.h:174-178 | a consistent image stands for a consistent map |
| HandleImage.TakenDenotesCreate | ugc/core/ugc_core.c:171-193 | popping or growing and filling the slot keeps the image consistent and adds exactly the record |
| HandleImage.PushedDenotesDestroy | ugc/core/ugc_core.c:223-235 | scrubbing and pushing keeps the image consistent and removes exactly the handle |
| HandleImage.RetagKeepsRep | ugc/core/ugc_core.c:262-266 | an unguarded type write keeps the image consistent if and only if it leaves a live slot live, a free slot free or an unused slot reset |
| HandleImage.FieldWrite | ugc/core/ugc_core.c:250-278 | a field write anywhere keeps the image consistent if and only if the slot has been handed out or the value is null; then it is that write of the map |
| HandleImage.PushedBeyond | ugc/core/ugc_core.c:223-235 | destroying a slot that was never handed out always breaks the image |
| HandleTable.SlotTable.SlotAcquire | ugc/core/ugc_core.c:171-179 | pops the last destroyed slot, else grows, else -1 |
| HandleTable.SlotTable.Create | ugc/core/ugc_core.c:181-193 | is a create step of the map with null extra and secondary |
| HandleTable.SlotTable.CreateWithExtra | ugc/core/ugc_core.c:195-207 | is a create step with the given extra |
| HandleTable.SlotTable.CreateDependent | ugc/core/ugc_core.c:209-221 | is a create step with the given secondary |
| HandleTable.SlotTable.DestroyAt | ugc/core/ugc_core.c:223-235 | is a destroy step, and keeps the store consistent, if and only if the slot has been handed out; scrubs and pushes a live slot, leaves all arrays alone for a free one |
| HandleTable.SlotTable.SetKindAt | ugc/core/ugc_core.c:262-266 | for any index: the array afterwards; consistency exactly when a live slot gets a live type, a free one a free type, an unused one type zero; and then the type write of the map |
| HandleTable.SlotTable.GetKindAt | ugc/core/ugc_core.c:256-260 | the array element; the type of a live handle; below the count, negative exactly for dead slots |
| HandleTable.SlotTable.SetExtraAt | ugc/core/ugc_core.c:274-278 | for any index: the array afterwards, the exact condition for consistency (the slot has been handed out or the value is null), and then the extra write of the map |
| HandleTable.SlotTable.SetDependentAt | ugc/core/ugc_core.c:250-254 | for any index: the array afterwards, the exact condition for consistency (the slot has been handed out or the value is null), and then the secondary write of the map |
| HandleTable.SlotTable.GetExtraAt | ugc/core/ugc_core.c:268-272 | the array element; the extra of a live handle |
| HandleTable.SlotTable.SlotStore | ugc/core/ugc_core.c:311-315 | for any index: the store stays consistent exactly when the slot has been handed out or the value is null; then it writes the object of a live handle and nothing visible otherwise |
| HandleTable.SlotTable.Reset | ugc/core/ugc_core.c:280-309 | from any contents to the empty store |
| HandleTable.SlotTable.SlotStoreIfNull | ugc/core/ugc_core.c:317-326 | for any index: stores and answers true exactly when the slot was null, with the exact condition for consistency |
| HandleTable.SlotTable.SlotCas | ugc/core/ugc_core.c:328-336 | for any index: swaps on a match and returns what the slot holds afterwards, with the exact condition for consistency |
| HandleAddress.IndexInSlot | ugc/core/ugc_core.c:237-242 | any address inside slot i has index i |
| HandleAddress.IndexUndoesSlotAddress | ugc/core/ugc_core.h:369-378 | index undoes slot address |
| HandleAddress.Resolve | ugc/uGCHandleStore.cpp:51-57 | an accepted address lies in the slot its index names, and every address in a slot is accepted |
| HandleManager.Manager.DestroyHandle | ugc/uGCHandleStore.cpp:51-57 | for any address: destroys the slot it lies in, or does nothing outside the store; the store stays consistent if and only if that slot has been handed out |
| HandleManager.Manager.CreateGlobalHandleOfType | ugc/uGCHandleManager.cpp:47-51 | null with nothing changed exactly when the store is full, otherwise a handle not live before that has the given object and type and nothing else |
| HandleManager.Manager.CreateHandleWithExtraInfo | ugc/uGCHandleStore.cpp:36-42 | the same with the given extra |
| HandleManager.Manager.CreateDependentHandle | ugc/uGCHandleStore.cpp:44-49 | the same with the dependent type and the given secondary |
| HandleManager.Manager.CreateDuplicateHandle | ugc/uGCHandleManager.cpp:53-60 | null for null; otherwise what a create promises, with the handle's object and type and null extra and secondary |
| HandleManager.Manager.SetExtraInfoForHandle | ugc/uGCHandleManager.cpp:74-80 | the record then has exactly the given type and extra; nothing else changes |
| HandleManager.Manager.GetExtraInfoFromHandle | ugc/uGCHandleManager.cpp:82-86 | the extra of the live record the handle names |
| HandleManager.Manager.StoreObjectInHandle | ugc/uGCHandleManager.cpp:88-92 | for any issued handle: the record of a live one then has that object |
| HandleManager.Manager.StoreObjectInHandleIfNull | ugc/uGCHandleManager.cpp:94-98 | for any issued handle: a conditional object write; true exactly when the slot was null |
| HandleManager.Manager.SetDependentHandleSecondary | ugc/uGCHandleManager.cpp:100-105 | for any issued handle: the record of a live one then has that secondary |
| HandleManager.Manager.GetDependentHandleSecondary | ugc/uGCHandleManager.cpp:107-112 | the secondary of the live record the handle names |
| HandleManager.Manager.HandleFetchType | ugc/uGCHandleManager.cpp:121-125 | the type of the live record the handle names |
| HandleManager.Manager.InterlockedCompareExchangeObjectInHandle | ugc/uGCHandleManager.cpp:114-119 | for any issued handle: a compare-exchange step; returns the object the handle then holds |
| HandleManager.CreateAndDuplicate | ugc/uGCHandleManager.cpp:47-60 | a client from a new manager: handle and duplicate differ, and the duplicate has the type and no extra info |
| AllocSafety.StepInv | ugc/core/ugc_core.c:91-124 | every step keeps blocks apart, objects apart and in their blocks, and every window in its own quantum, unused and zero |
| AllocSafety.ObjectsInsideOneBlock | ugc/core/ugc_core.c:29-89 | header, payload and the next header of every object lie in one block of the address space |
| AllocSafety.WindowFrame | ugc/core/ugc_core.c:98-124 | overflow, direct and out-of-memory outcomes move no window, and no step moves another context's |
| AllocMemory.StepMemory | ugc/core/ugc_core.c:91-124 | no step changes a byte of memory but the one a mutator names; what it adds is zero |
| AllocMemory.WriteIsRead | ugc/core/ugc_core.h:68-80 | a mutator's write is read back and moves nothing else |
| AllocBytes.NullExactlyOnFailure | ugc/core/ugc_core.c:95-124 | null if and only if the size overflows or memory was needed and not there |
| AllocBytes.ObjectGapIsLeast | ugc/uGCHeap.cpp:21-24 | for the sizes a header has, the masked gap is the least multiple of 8 not below the header size |
| AllocBytes.MaskRoundsUp | ugc/uGCHeap.cpp:12-24 | for the sizes a header has, the bit mask, in 64-bit and in 32-bit words, rounds up to a multiple of 8 |
| NextFit.WasteBound | ugc/core/ugc_core.c:107-123 | the waste bound for Next-Fit itself |
| NextFit.TwiceAnyPacking | ugc/core/ugc_core.c:107-123 | Next-Fit uses at most 2m - 1 bins where an arbitrary packing uses m |
| NextFit.PairBound | ugc/core/ugc_core.c:107-123 | bins taken in pairs carry more than one capacity each |
| AllocLedger.RunKeepsBooks | ugc/uGCHeap.cpp:391-406 | over every run the heap's counter is the sum of slow-path sizes modulo 2^64, and each context counter the sum of its own sizes in 64-bit two's complement |
| AllocLedger.ContextExact | ugc/uGCHeap.cpp:396-404 | while they stay in the signed range, a context's two counters are its exact old-heap and other totals |
| HeapObject.Heap.AllocDirect | ugc/core/ugc_core.c:29-44 | is the direct step: a block of size + header, the object after the header |
| HeapObject.Heap.CtxRefill | ugc/core/ugc_core.c:65-89 | is the refill step, or nothing when out of memory |
| HeapObject.Heap.BumpWindow | ugc/core/ugc_core.c:116-121 | is the bump step: the object at the old pointer, the pointer advanced |
| HeapObject.Heap.CoreAlloc | ugc/core/ugc_core.c:91-124 | is the core step, in wrapping `size_t` arithmetic |
| HeapObject.Heap.Count | ugc/uGCHeap.cpp:393-405 | advances the heap's counter modulo 2^64 and one of the context's two |
| HeapObject.Heap.Alloc | ugc/uGCHeap.cpp:377-407 | is the allocation step of the machine, keeps its invariant, and returns zeroed memory |
| HeapObject.Heap.InlineAlloc | ugc/core/ugc_core.h:27-33 | a bump inside the window is a step of the machine and returns zeroed memory |
| HeapObject.Heap.Write | ugc/core/ugc_core.h:68-80 | a mutator's write is a step of the machine: that byte has the value, all others are unchanged |
| SignedList.LessIsLexicographic | tools/sign_package.py:81 | names are ordered by the first character, by code point, in which they differ, a prefix first |
| SignedList.SortSorts | tools/sign_package.py:81 | entries are printed in strictly ascending order of name |
| SignedList.SortedIsUnique | tools/sign_package.py:81 | a set of entries has one sorted order |
| SignedList.RenderIsInjective | tools/sign_package.py:77-81 | different sequences of entries print differently |
| SignedList.OrderDoesNotShow | tools/sign_package.py:77-81 | the insertion order of the dictionary does not show in its list |
| SignedMerge.ComputeFileHashes | tools/sign_package.py:159-170 | the loop gives the dictionary of base names and digests, and fails if and only if two base names are equal |
| SignedMerge.SplitAfterBreak | tools/sign_package.py:225 | after a line feed, splitting into lines starts afresh |
| SignedMerge.ComputeMerge | tools/sign_package.py:222-233 | the loop gives the list of the union of all lines, or reports the first line that does not parse or repeats a name |
| SignedMerge.OneFault | tools/sign_package.py:225-230 | the line at which merging goes wrong first is unique |
| SignedProperties.SharedNameNeverMerges | tools/sign_package.py:229-230 | lists that share a name never merge, whatever characters names have |
| SignedProperties.MergeOfOne | tools/sign_package.py:222-234 | merging one printed list is the identity if and only if its names are printable |
| SignedProperties.MergeRefusesBrokenName | tools/sign_package.py:222-234 | a listed name that a separator breaks into something that is no line makes the merge of its own list fail |
| SignedProperties.BrokenNameExists | tools/sign_package.py:77-81 | such a name can be listed: a vertical tab between two letters |
| SignedFormat.SeparatorsAre | tools/sign_package.py:225 | the ten characters that end a line, by number |
| SignedFormat.SplitPlain | tools/sign_package.py:225 | a text without them is one line, or none if empty |
| SignedFormat.SplitAtOne | tools/sign_package.py:225 | each of them ends a line alone, but for a carriage return before a line feed |
| SignedFormat.SplitAtPair | tools/sign_package.py:225 | a carriage return and a line feed end one line together |
| SignedFormat.SplitBetweenLetters | tools/sign_package.py:225 | between two letters: two lines for each of the ten and for the pair, one line for any other character |
| SignedFormat.LinesOfTexts | tools/sign_package.py:224-225 | the lines of several lists, in order |
| SignedFormat.DigestsAre | tools/sign_package.py:226 | a digest is 64 characters among the digits and a to f |
| SignedFormat.ParsesExactly | tools/sign_package.py:226 | a line reads as an entry exactly when it is digest, two spaces and a name that is not empty and has no line feed |
| SignedFormat.ParsesIfAny | tools/sign_package.py:226-228 | it reads at all exactly when it is the line of some entry |
| SignedFormat.PrintableIs | tools/sign_package.py:225-226 | printable names: not empty, none of the ten characters |
| SignedFormat.RefusedExactly | tools/sign_package.py:78-80 | a dictionary is refused exactly when a name has a line feed or a carriage return |
| SignedFormat.PrintsLines | tools/sign_package.py:81 | the text is one line for each entry, digest, two spaces, name, line feed, in ascending order of name |
| SignedFormat.StrayLineFails | tools/sign_package.py:226-228 | a line that is the line of no entry makes the merge fail, wherever it is |
| SignedFormat.FirstFaultReported | tools/sign_package.py:225-230 | the first line up to which the lists do not read decides: no line, or a repeated name |
| SignedFormat.ListsExactly | tools/sign_package.py:159-170 | listing fails for two files with one base name, else for a base name with a line break, else not at all |
| SignedFormat.AgreesWithOne | tools/sign_package.py:253-254 | the same files agree with one text at most |

## Left out

- Duplicates and `SetExtraInfoForHandle` through destroyed handles: caller duties, stated as preconditions.
- Atomicity of the slot operations: the code is single-threaded by design.
- The stub methods of the heap, tracing and store creation: constants or no effect.
- The runtime's own allocation fast path beyond a bump inside the window, and the layout of its context.
- The zeroing allocator itself: its answer is a parameter with the contract of a fresh zero block.
- The flags word of `Alloc`: one boolean stands for the old-heap flag; the interface header that defines it is not part of this model.
- Raw slot pointers: a handle dereference is an access to the slot's array element by index.
- UTF-8 encoding and decoding of the list: text is compared as characters, the encoding being injective.
- Reading and hashing files, packages and their reserved entry names, keys, signatures and the command line.
