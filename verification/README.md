# Verified model of the emulator debugger

A Dafny model of the parts of the debugger whose behaviour is hardest to get right, with proofs about
them. The emulator itself is abstract: memory as a partial map of bytes, a set of mapped bytes, register
images, and mappings that fail when they would overlap an existing one. `dafny verify dfyconfig.toml`
checks the whole project.

| files | what they model |
|---|---|
| `Bits`, `Ranges`, `Wrappers` | the mask form of alignment, address ranges, `Option` |
| `HeapSpec`, `Heap` | the guest heap: first fit over a doubly linked free list in descending address order, the bump-pointer region source, rollback of a failed import |
| `LedgerSpec`, `Ledger` | the interval map of guest mappings and subtraction from it in place |
| `CodecTypes`, `CodecLayout`, `CodecMemory`, `CodecDecode`, `CodecStream`, `CodecRoundTrip` | the type-directed codec: size lists, padding, handlers over an allocating memory, round trip |
| `Scheduler`, `SchedulerProof`, `SchedulerProgress` | emulator thread, loop goroutine and task goroutines as an interleaved transition system: at most one place per task, and no task lost |
| `RegStreamSpec`, `RegStream`, `RegStreamExact` | the ARM64 argument stream over eight registers and a stack, and which scripts of writes and skips come back from it |
| `ArgIntegers`, `ArgScripts`, `ArgCodec`, `ArgExact`, `ArgTailPad` | arguments on that stream: where integers go, the script that any flat type gives, its handlers, and which types come back |
| `HookSpec`, `Hooks` | the pool of control addresses and the dispatch of interrupts |
| `ContextPool` | task contexts, their stacks and the context pool |
| `Descriptors` | file descriptors and reference counts |
| `VirtualDir` | virtual directories and links |

Where the source changes state in place the model is a class whose methods are proved against functions
on values (the `...Spec` modules); the properties are lemmas about those functions and invariants
(`Valid`, `Inv`, `Core`) that every method or step keeps.

## What turned out not to hold

The code is kept as it is. Each deviation has its exact condition, and a concrete input that shows it.

- Releasing into an empty free list dereferences nil (`internal/debugger/mem.go:237`). Used and free
  blocks cover the heap if and only if no release of the run found its block in use and the list empty
  (`HeapSpec.Partition`; input: `HeapSpec.WholePageReleasePanics`). So a failed import panics instead of
  rolling back if and only if it had taken blocks and left the free list empty
  (`Heap.MemoryManager.MemWrite`, `MemImport`; input: `HeapSpec.FailedWriteMeetsEmpty`).
- "No two free blocks touch" fails after a release that is inserted between a block it does not touch
  and one that begins where it ends, and only then (`HeapSpec.GiveCoalesces`; input:
  `HeapSpec.UpwardMergeIsMissed`).
- A slice of scalars is decoded from the parent stream (`encoding/decode_array.go:53`): it comes back if
  and only if the bytes behind the slot happen to be the same (`CodecRoundTrip.PlainSliceReadsParent`;
  input: `PlainSliceLost`).
- A nil pointer below the top level is not written as null (`encoding/encode.go:114`) and does not come
  back (`CodecRoundTrip.NilPointerLost`; input: `NestedNilEncodes`); `CodecStream.Faults` says when
  encoding one dereferences nil instead.
- An empty slice asks the allocator for size 0, which it refuses: a value with one anywhere in it never
  encodes (`CodecStream.HasEmptySlice` in the contracts of the encoders and of `RoundTrip`).
- A string declares two words and consumes one, so a handler moves by its declared size if and only if no
  string occurs inline (`CodecLayout.MovedBound`; input: `StringDeclaresTwice`), and a field of a struct is
  at its declared place if and only if none does in the fields before (`CodecDecode.StoredFieldPlaced`).
- A field whose first size is zero gives a negative pad that takes the stream back to the start of the
  struct, unless it is there already (`CodecLayout.PadSign`; input: `EmptyFieldRewinds`).
- With 4-byte words a host word keeps its low 32 bits; it comes back if and only if the destination has
  the upper bytes already (`CodecDecode.DecodeWord`; input: `CodecRoundTrip.HighWordLost`).
- A string is read back only if the whole 16-byte chunks up to its NUL are mapped
  (`CodecMemory.ReadStringFinds`, `CodecDecode.DecodeString`; input: `CodecRoundTrip.StringAtTheEndLost`).
- A task can be in two places once the loop, closed, gives up waiting for a dispatch
  (`internal/debugger/task.go:111-112`); until then it cannot, closed or not. After any steps up to the
  resume that follows, the token survives if and only if the current task is nowhere at that moment
  (`SchedulerProof.OnePlaceAtATime`, `GivingUpIsExact`; input: `ClosingBreaksTheToken`). Short of giving
  up, a task that is Done at its hook goes back to the guest if and only if a closed scheduler lets it
  slip past the suspend (`LeavingStays`).
- A task can be lost once its context is cancelled from outside, by its parent's or its creator's
  (`internal/debugger/runner.go:46`, `:121`), which leaves its status below Done: by its waiting goroutine
  giving up or its callback not being handed out, and by nothing else while the scheduler is open
  (`SchedulerProgress.LosingIsExact`; input: `CancelledIsLost`). Any other task that has been run and is
  below Done is in one place and can still get to the CPU (`NoTaskIsLost`, `EveryLiveTaskCanRun`).
- `mainThreadRun` decides and calls in two steps. It can call on the spot exactly when the guest cannot be
  executing or the scheduler is closed (`SchedulerProof.DirectCallsAreSafe`; input once closed:
  `ClosedCallMeetsGuest`); a call begun clear of the guest stays so, however long it takes, if and only
  if no synchronous callback ends meanwhile, and always once the emulator has stopped
  (`ClearForTheCall`; input: `DirectCallCanBeLate`).
- After a skip the ARM64 reader may serve a stale register image. A script of writes, skips and
  alignments comes back, whatever its data and the registers, if and only if no data in it follow a skip
  that ended inside a register not loaded (`RegStreamExact.ScriptIsExact`). Arguments therefore come back,
  whatever their values, if and only if their types are good (`ArgExact.GoodArgsExact`; `ArgCodec.GoodArgs`
  computes it from the size lists). They are if every size padded to is 1, 2, 4 or a multiple of 8 and
  whatever has paddings of its own starts at a multiple of 8 (`ArgCodec.NeatArgsAreGood`). But the tail of
  a struct is padded to its largest size entry (`encoding/encode_struct.go:52-59`), which can be 12: the
  last field of `struct { struct { struct { uint32; complex64; uint64 }; [1]uint8 }; uint32 }` comes back
  as four bytes of the innermost struct (input: `ArgTailPad.TailPadLost`).
- A user handler over a control address keeps the control handler from being called if and only if it
  comes first and answers DONE (`HookSpec.ControlIsCalled`, for every order `CalledInEveryOrder`; input:
  `UserShadowsControl`).
- Registering a file keeps the descriptor counts exact if and only if the file is new and the next number
  free or a standard stream's, or the number maps to that very file already (`Descriptors.CreateExact`);
  duplicating it to the next number if and only if that one is free (`ShareExact`,
  `FileManager.DupFile`). A duplicate at a given number always keeps them (`FileManager.Dup2File`), but
  one above the counter takes a number the counter will reach (`BelowStays`; input:
  `DupAboveIsReplaced`). Closing keeps them if and only if the handle is open or a standard stream's
  (`CloseExact`).

## Model

| member | source | states |
|---|---|---|
| Bits.AlignBounds | debugger/align.go:5-7 | aligning to any positive b, power of two or not, never moves down and adds less than b; aligning to 0 gives 0 |
| Bits.AlignIsLeastMultiple | debugger/align.go:5-7 | for a power of two the bit-clearing form is the least multiple at or above the argument |
| Bits.AlignsToPowers | debugger/align.go:5-7 | for any other size the result is a multiple of every power of two that divides the size |
| HeapSpec.FirstFit | internal/debugger/mem.go:180-195 | the block found is the first in list order that is large enough |
| HeapSpec.Stop | internal/debugger/mem.go:219-236 | a release stops at the first block that ends at the address or starts below the end, passing only blocks that do neither |
| HeapSpec.AllBelowLimit | internal/debugger/mem.go:149 | every used and free block lies below the bump pointer, so a new region's tail belongs at the head |
| HeapSpec.AllocKeeps | internal/debugger/mem.go:174-204 | an allocation, with its split or its new region, keeps the free list descending, used blocks disjoint and both together exactly the heap |
| HeapSpec.AllocIsFresh | internal/debugger/mem.go:180-203 | the block handed out is in the heap, at a non-zero address, and shares no byte with any free or earlier used block |
| HeapSpec.AllocAdds | internal/debugger/mem.go:192-203 | a successful allocation adds one new entry of the requested size and changes no other, a failed one adds none |
| HeapSpec.AllocReuses | internal/debugger/mem.go:180-194 | if a free block has room, the low end of the first in list order is handed out, whether or not a region could be mapped; exactly those bytes stop being free and nothing is obtained |
| HeapSpec.AllocObtains | internal/debugger/mem.go:196-203 | if none has, a region of the least number of whole pages is asked for at the bump pointer; mapped, it belongs to the heap and all of it behind the request is free, and otherwise only its addresses are used up |
| HeapSpec.LimitStays | internal/debugger/mem.go:180-199 | the bump pointer stays where it is if and only if a free block has room |
| HeapSpec.GiveAdds | internal/debugger/mem.go:217-243 | a release through any of its branches adds exactly the block's bytes to the free list and leaves it strictly descending |
| HeapSpec.FreeKeeps | internal/debugger/mem.go:206-244 | a release keeps the partition; it panics if and only if the address is in use and the free list empty, and only then loses bytes |
| HeapSpec.RunKeeps | internal/debugger/mem.go:174-244 | over every run the invariant holds, and bytes leak if and only if some release found its block in use and the free list empty |
| HeapSpec.Partition | internal/debugger/mem.go:174-244 | after every run from the start the free list descends without overlap, used blocks are disjoint and apart from it, and both cover exactly the bytes obtained if and only if no release found its block in use and the free list empty |
| HeapSpec.WholePageReleasePanics | internal/debugger/mem.go:218-237 | taking one whole page and giving it back meets the empty list |
| HeapSpec.GiveCoalesces | internal/debugger/mem.go:219-242 | no two free blocks touch after a release if and only if it was not inserted above a block it does not touch and directly below one it does |
| HeapSpec.UpwardMergeIsMissed | internal/debugger/mem.go:229-234 | a concrete list and release after which two free blocks touch |
| HeapSpec.RestoredByUsed | internal/debugger/mem.go:252-283 | between two valid states with the same used map, exactly the newly obtained bytes have become free |
| HeapSpec.FailedWriteMeetsEmpty | internal/debugger/mem.go:265-283 | taking one whole page leaves nothing in the free list, so a write that fails after it meets the empty list |
| Heap.Emulator.MemMap | internal/debugger/mem.go:151-153 | mapping succeeds exactly when the range is not empty and overlaps nothing mapped |
| Heap.BlockList.Get | internal/debugger/mem.go:33-37 | a block from the pool or a new one carries no stale link and is not in the list |
| Heap.BlockList.InsertAfter | internal/debugger/mem.go:337-350 | the new block is linked in front of the given one: both neighbours' links and all extents afterwards |
| Heap.BlockList.InsertBefore | internal/debugger/mem.go:352-365 | the new block is linked behind the given one: both neighbours' links and all extents afterwards |
| Heap.BlockList.Remove | internal/debugger/mem.go:367-377 | the neighbours are linked to each other, the block's own links are cleared and it goes to the pool |
| Heap.BlockList.InsertInFront | internal/debugger/mem.go:337-350 | on a well-formed list: still well formed, with the block at that index of the sequence |
| Heap.BlockList.Discard | internal/debugger/mem.go:367-377 | on a well-formed list: still well formed, without the block at that index |
| Heap.BlockList.TakeFirstFit | internal/debugger/mem.go:180-195 | the pointer walk takes from the first fitting block as the specification does and leaves a well-formed list |
| Heap.BlockList.PushFront | internal/debugger/mem.go:199-201 | the tail of a region becomes the head of the list |
| Heap.BlockList.Release | internal/debugger/mem.go:217-243 | the walk with its insert and merge branches computes the released list of the specification, or reports the nil dereference exactly on an empty list |
| Heap.BlockList.GrowUp | internal/debugger/mem.go:220-228 | extending a block upwards, or the three-way merge with removal, gives the list of the specification |
| Heap.BlockList.GiveLowest | internal/debugger/mem.go:237-242 | a release below every free block merges with the lowest or goes to the end |
| Heap.MemoryManager.MapAlloc | internal/debugger/mem.go:146-159 | a region of whole pages at the bump pointer, which moves even on failure; the ledger still mirrors the emulator |
| Heap.MemoryManager.MemMap | internal/debugger/mem.go:107-120 | maps the aligned range or fails, and the ledger covers exactly what is mapped |
| Heap.MemoryManager.MemUnmap | internal/debugger/mem.go:122-134 | unmaps the aligned range, and the ledger covers exactly what is mapped still |
| Heap.MemoryManager.MapFree | internal/debugger/mem.go:161-172 | the same for a region at its unaligned address |
| Heap.MemoryManager.MemAlloc | internal/debugger/mem.go:174-204 | the first free block with room serves the request and nothing is obtained, and addresses are used up only if there is none; state and outcome are those of the specification, every invariant is kept, and what gets mapped is exactly what the heap gains |
| Heap.MemoryManager.MemFree | internal/debugger/mem.go:206-244 | state and outcome are those of the specification, and every invariant is kept |
| Heap.MemoryManager.TakeAll | internal/debugger/mem.go:267-274 | the requests of one encoding are served in turn until one fails; state, addresses and success are those of the specification |
| Heap.MemoryManager.MemWrite | internal/debugger/mem.go:265-283 | succeeds exactly when every requested block can be had and the encoder does not fail; otherwise it panics exactly if it had taken blocks and left the free list empty, and if not restores the used map with exactly the newly mapped bytes free |
| Heap.MemoryManager.FreeAll | internal/debugger/mem.go:276-281 | freeing the blocks of a failed write in order gives back the used map from before, unless there are blocks and the free list is empty |
| Heap.MemoryManager.MemImport | internal/debugger/mem.go:252-263 | the same for a whole import, the block of the value itself included |
| LedgerSpec.Overlap | internal/debugger/mem.go:439-446 | accepts exactly the intervals that overlap or touch; the overlap lies in both and has its ends from them |
| LedgerSpec.CutCovers | internal/debugger/mem.go:92-99 | cutting a part out of one interval removes exactly those bytes, keeps the ledger disjoint and every other interval as it was |
| LedgerSpec.ChainStep | internal/debugger/mem.go:72-81 | one step of the chained first loop removes the next stretch and nothing else |
| LedgerSpec.SweepCut | internal/debugger/mem.go:88-103 | one cut of the sweep removes everything covered up to the end of the overlap, touching intervals included |
| LedgerSpec.SweepDone | internal/debugger/mem.go:86-104 | when the snapshot is used up nothing of the range is covered any more |
| Ledger.SortedKeys | internal/debugger/mem.go:86 | the snapshot is strictly ascending and has exactly the keys |
| Ledger.MapLedger.MapStore | internal/debugger/mem.go:62-66 | the entry is stored and no other changed |
| Ledger.MapLedger.MapDelete | internal/debugger/mem.go:68-105 | for any disjoint ledger and any range the result is disjoint, covers exactly the old bytes less the range, and keeps every interval clear of it |
| Ledger.MapLedger.SweepDelete | internal/debugger/mem.go:85-104 | the same for the second loop alone, splitting while it walks the snapshot |
| CodecLayout.SizesPositive | encoding/encode.go:61-108 | without zero-size members every entry of a size list is positive |
| CodecLayout.RawTotal | encoding/encode_struct.go:28-39 | the offset differences of a plain struct add up to its host size |
| CodecLayout.RawChunksAre | encoding/encode_struct.go:28-33 | a plain struct has one entry for each field, the distance from its offset to the next |
| CodecLayout.PadSign | encoding/encode_struct.go:74-80 | a pad is non-negative if and only if the field's first size is positive or the field is at offset 0, and shorter than that size; at size 0 it rewinds to the start |
| CodecLayout.PadAligns | encoding/encode_struct.go:74-92 | a pad up to a power of two is the least that ends at a multiple of it, and one up to any other size ends at a multiple of each power of two in it |
| CodecLayout.FieldPlaced | encoding/encode_struct.go:43-50 | each kept field of a custom struct starts at the least multiple of its first size behind the one before, if that is a power of two, and at a multiple of every power of two in it in any case; it ends its own size further on |
| CodecLayout.StructPlaced | encoding/encode_struct.go:51-59 | a custom struct takes the least multiple of its largest size that holds its fields, if that is a power of two, and a multiple of every power of two in it in any case |
| CodecLayout.EmptyFieldRewinds | encoding/encode_struct.go:74-80 | with an empty struct as second field the pad is -4 and the third field lies on top of the first |
| CodecLayout.MovedBound | encoding/encode_array.go:25-43 | a handler moves its stream by at least one byte and at most its declared size, and by exactly that if and only if no string occurs inline |
| CodecLayout.StringDeclaresTwice | encoding/encode_array.go:81-90 | a string declares two words and moves one |
| CodecLayout.StructSizes | encoding/encode_struct.go:14-71 | the two passes over the fields build the size list on which all of this rests |
| CodecLayout.RawPass | encoding/encode_struct.go:21-32 | the first pass asks for a handler exactly when a field is ignored or needs one of its own, and else has the offset differences |
| CodecLayout.FieldPass | encoding/encode_struct.go:43-50 | the second pass builds the size list of the fields with their pads, of which `FieldPlaced` says where each begins |
| CodecMemory.LERoundTrip | internal/debugger/stream.go:96-97 | a word of k bytes holds a number if and only if it is below 256^k |
| CodecMemory.LEByte | internal/debugger/stream.go:96-97 | the lowest byte of a word comes first |
| CodecMemory.ReadStringFinds | emulator/pointer.go:52-72 | the chunked scan returns the bytes up to the first NUL if and only if the whole chunks that far are mapped |
| CodecMemory.FirstNulAppend | internal/debugger/stream.go:86-89 | a terminated string ends where it should if and only if it has no NUL itself |
| CodecMemory.StoredFrame | encoding/encode.go:117-121 | a stored value survives every change outside the bytes it owns |
| CodecDecode.DecodeStored | encoding/decode.go:55-126 | decoding a stored value gives it back, everything behind its pointers included, if and only if no pointer in it is nil and its strings can be read |
| CodecDecode.StoredFieldPlaced | encoding/encode_struct.go:60-66 | a kept field of a stored struct is at its declared start if and only if no string occurs inline before it, and then at a multiple of every power of two that divides the struct's address and the field's first size |
| CodecDecode.DecodeWord | encoding/decode.go:79-95 | a word comes back if and only if the destination already has the bytes the guest word cannot hold |
| CodecDecode.DecodeString | encoding/decode_array.go:79-95 | a string comes back if and only if it has no NUL and its chunks are mapped |
| CodecDecode.DecodeStoredSeq | encoding/decode_array.go:64-75 | a sequence of elements is given back if and only if each of them is |
| CodecDecode.DecodeStoredFields | encoding/decode_struct.go:54-60 | the fields of a struct are given back, padding skipped, if and only if each kept one is |
| CodecStream.Machine.Alloc | internal/debugger/mem.go:267-274 | what is handed out is new, mapped and addressable in a word, nothing else changes, and size 0 is refused |
| CodecStream.PointerStream.Read | internal/debugger/stream.go:31-37 | the bytes at the position, which moves by their number, or failure in place |
| CodecStream.PointerStream.Write | internal/debugger/stream.go:68-74 | all bytes or none are stored at the position |
| CodecStream.PointerStream.ReadStream | internal/debugger/stream.go:59-66 | a stream at the address in the next slot |
| CodecStream.PointerStream.WriteStream | internal/debugger/stream.go:91-99 | a new region of the requested size whose address is in the slot; nothing but the slot changes |
| CodecStream.EncodeValue | encoding/encode.go:61-108 | an encode handler writes only in its window and in regions this call allocated; it fails only if memory is not mapped or the allocator refuses one of its own requests, faults only on a nil host pointer and never succeeds with an empty slice in the value; if it succeeds memory holds the value and the stream is at the end of the window |
| CodecStream.EncodeWord | encoding/encode.go:77-94 | the same for a word, cut to the guest's word size |
| CodecStream.EncodePointer | encoding/encode.go:110-123 | the same for a pointer and everything behind it; the slot never holds 0 |
| CodecStream.EncodeArray | encoding/encode_array.go:28-43 | the same for an array of custom elements |
| CodecStream.EncodeElems | encoding/encode_array.go:34-42 | the same for elements written one after the other |
| CodecStream.EncodeSlice | encoding/encode_array.go:46-79 | the same for a slice; an empty one fails |
| CodecStream.EncodeBehind | encoding/encode_array.go:50-59 | bytes placed in a region of their own, with its address in the slot |
| CodecStream.EncodeString | encoding/encode_array.go:81-90 | the same for a string, NUL included |
| CodecStream.EncodeStruct | encoding/encode_struct.go:60-71 | the same for a struct field by field, with its tail pad |
| CodecStream.EncodeFields | encoding/encode_struct.go:61-66 | the same for the fields, pads skipped and ignored fields left out |
| CodecRoundTrip.MemReadString | emulator/pointer.go:52-72 | the loop over 16-byte chunks computes the string that the specification reads |
| CodecRoundTrip.DecodeValue | encoding/decode.go:55-126 | the decode handlers on the stream return, and leave the stream at, what the specification says |
| CodecRoundTrip.DecodeSliceValue | encoding/decode_array.go:41-77 | the same for slices, the parent stream included |
| CodecRoundTrip.DecodeElems | encoding/decode_array.go:68-74 | the same for the element loop |
| CodecRoundTrip.DecodeStructValue | encoding/decode_struct.go:54-65 | the same for a struct and its tail pad |
| CodecRoundTrip.DecodeFields | encoding/decode_struct.go:55-60 | the same for the field loop |
| CodecRoundTrip.Encode | encoding/encode.go:28-46 | a nil pointer becomes one null word and allocates nothing, anything else is framed and complete as by its handler |
| CodecRoundTrip.RoundTrip | encoding/decode.go:22-40 | encode then decode: unless the allocator refuses, a nil pointer faults or an empty slice is asked for, the value comes back if and only if no nested pointer is nil and its strings can be read; a nil pointer leaves the destination alone |
| CodecDecode.ZeroIsZero | encoding/decode.go:119-123 | what is allocated behind a nil pointer to decode into is zero all through |
| CodecRoundTrip.DecodeNull | encoding/decode.go:112-124 | a null slot of a pointer, slice or string leaves the destination as it is, and one that is not mapped fails |
| CodecRoundTrip.PlainSliceReadsParent | encoding/decode_array.go:45-55 | a stored slice of scalars comes back if and only if the bytes behind its slot equal it |
| CodecRoundTrip.PlainSliceLost | encoding/decode_array.go:45-55 | a slice holding 5, stored in front of a 7, comes back as 7 |
| CodecRoundTrip.HighWordLost | encoding/decode.go:79-95 | with 4-byte words 2^32 comes back as 0 |
| CodecRoundTrip.StringAtTheEndLost | emulator/pointer.go:52-72 | a string at the end of what is mapped is stored and cannot be read back |
| CodecRoundTrip.NilPointerLost | encoding/decode.go:112-124 | a slot decodes to a nil pointer if and only if it is null and the destination was nil |
| CodecRoundTrip.NestedNilEncodes | encoding/encode.go:113-121 | a nested nil pointer to a pointer encodes with an address in its slot unless the allocator refuses, which is the only way to fail, and never decodes to nil |
| SchedulerProof.StepKeepsCore | internal/debugger/task.go:102-300 | every step of every thread keeps the invariant, closed or not, but for the loop giving up waiting for a dispatch |
| SchedulerProof.RunKeepsCore | internal/debugger/task.go:102-300 | so it holds in every state reached without that step |
| SchedulerProof.OpenIsOrderly | internal/debugger/task.go:110-112 | a run that has not been closed has no such step |
| SchedulerProof.OnePlaceAtATime | internal/debugger/task.go:240-269 | in every such interleaving a task is in at most one of guest code, callback, hand-over and dispatch queue, so its guest code never runs beside its own callback |
| SchedulerProgress.LosingIsExact | internal/debugger/runner.go:144-175 | a task below Done that is in one place stays so in every step, or becomes Done, but for exactly two: its waiting goroutine gives up, or its callback is not handed out, and both need its context cancelled or the scheduler closed |
| SchedulerProgress.NoTaskIsLost | internal/debugger/task.go:240-269 | in every interleaving that leaves the scheduler open a task that has been run, is below Done and has not been cancelled is in exactly one place |
| SchedulerProgress.CancelledIsLost | internal/debugger/task.go:240-250 | a run after which a task whose context was cancelled from outside is still Pending and nowhere |
| SchedulerProgress.EveryLiveTaskCanRun | internal/debugger/task.go:102-300 | from every state of every such run, as long as the emulator has not stopped, there are steps after which that task executes, with the registers saved for it: nothing it waits for has become impossible |
| SchedulerProgress.EndedForGood | internal/debugger/runner.go:111-114 | a task that has been cancelled, or was current when the emulator stopped, is Done from then on |
| SchedulerProof.GivenUpStays | internal/debugger/task.go:110-124 | once the loop has given up every step but the resume leaves a state that is, apart from that, one of the invariant |
| SchedulerProof.GivingUpIsExact | internal/debugger/task.go:110-124 | in whatever state the emulator thread is when the loop gives up, and after any steps before the resume, the current task then executes undispatched, and every task is in one place if and only if that one is nowhere when the resume comes |
| SchedulerProof.ClosingBreaksTheToken | internal/debugger/task.go:110-124 | a run with a close after which guest code and callback of one task run side by side |
| SchedulerProof.LeavingStays | internal/debugger/task.go:257-268 | one more step brings a task on its way off the CPU back if and only if a closed scheduler lets it skip the suspend |
| SchedulerProof.LeavingForGood | internal/debugger/task.go:257-268 | so over every run without such a step, closed or not, it stays off |
| SchedulerProof.DoneAtHookNeverResumes | internal/debugger/task.go:252-269 | over those runs a task already Done when its hook fires never executes, runs a callback or waits for dispatch again |
| SchedulerProof.DoneAtHookWhileOpen | internal/debugger/task.go:252-269 | so on every run that ends open, with no other condition |
| SchedulerProof.ResumeFindsRegisters | internal/debugger/task.go:113-124 | whenever the loop resumes after a dispatch, closed or not, the registers are those saved for the current task, also when the restore was skipped or another task's failed before |
| SchedulerProgress.SyncGoesOn | internal/debugger/task.go:287-300 | after a synchronous callback, in every such run, the guest goes on if and only if its task is below Done and any registers it has written can be restored, and then with the saved registers; otherwise the task is Done and suspends |
| SchedulerProgress.WriteReachesCpu | internal/debugger/runner.go:192-195 | the last value written to a task's registers, by its creator or a callback of either kind, is the one with which its guest code goes on |
| SchedulerProof.HandshakeSafety | internal/debugger/task.go:102-126 | restores by the loop and changes of the current task and the registers happen only between suspend and resume of the emulator thread, or by that thread itself, closed or not, until the loop gives up waiting; functions sent to it run there because that is where they are received |
| SchedulerProof.DirectCallsAreSafe | internal/debugger/task.go:302-306 | the two tests hold exactly when the emulator has stopped or is inside a synchronous callback at that moment; the choice to call on the spot is then possible exactly in those states and once closed |
| SchedulerProof.ClosedCallMeetsGuest | internal/debugger/task.go:302-306 | a reachable closed state in which the call is made on the spot while the guest executes |
| SchedulerProof.ClearForTheCall | internal/debugger/task.go:302-306 | a call begun clear of the guest stays so over any run if and only if no synchronous callback ends in it, and always once the emulator has stopped |
| SchedulerProof.DirectCallCanBeLate | internal/debugger/task.go:302-306 | from a state in which that choice is made the guest can be executing two steps later |
| RegStreamSpec.WriteAt | internal/debugger/buffer.go:16-21 | grows with zeros, overwrites exactly the given range and keeps the rest |
| RegStreamSpec.PutConcat | internal/debugger/arm64/stream.go:127-160 | two writes leave registers, stack bytes and position as one write of both |
| RegStreamSpec.GetConcat | internal/debugger/arm64/stream.go:52-82 | byte by byte, two reads give what one read of both lengths gives |
| RegStreamSpec.PutKeeps | internal/debugger/arm64/stream.go:127-160 | what is written is at its positions afterwards, and everything written before is still there |
| RegStreamSpec.ScriptRoundTrip | internal/debugger/arm64/stream.go:30-160 | any writes, skips and alignments in which no data follow a skip into a register not loaded are read back byte by byte by the same script, whatever the chunks |
| RegStreamSpec.GoodReadIsFlat | internal/debugger/arm64/stream.go:52-82 | for such a script reading with the kept image is reading byte by byte |
| RegStreamSpec.SkipIsSafe | internal/debugger/arm64/stream.go:43-64 | after a skip the next bytes are read right for all register contents if and only if it does not end inside a register not loaded |
| RegStreamExact.ScriptIsExact | internal/debugger/arm64/stream.go:30-160 | scripts of one shape come back with every choice of data, from any registers before, if and only if no data in them follow a skip into a register not loaded |
| RegStreamSpec.LaidOutGood | internal/debugger/arm64/stream.go:43-50 | paddings that end at a multiple of 8, or are the least ones to a multiple of 2 or 4, never skip into a register not loaded |
| RegStreamSpec.PutChunk | internal/debugger/arm64/stream.go:150-157 | one register write equals writing its bytes one by one |
| RegStreamSpec.PutStack | internal/debugger/arm64/stream.go:128-132 | past the registers one write to the stack image equals writing byte by byte |
| RegStreamSpec.CachedIsExact | internal/debugger/arm64/stream.go:60-64 | a read from the middle of a register is right if and only if the kept image agrees with the register on the bytes it serves |
| RegStreamSpec.EmptyWrite | internal/debugger/arm64/stream.go:127-143 | an empty write with the image loaded changes nothing but zeros behind the stack image |
| RegStreamSpec.ArgOpsGood | internal/debugger/arm64/arm64.go:102-108 | nor does any list of arguments whose scripts are laid out like this, however many registers they fill |
| RegStreamSpec.PosAligns | internal/debugger/arm64/stream.go:30-33 | aligning goes to the next multiple of 8 in the registers and of 4 on the stack, and no further |
| RegStreamSpec.ArgStarts | internal/debugger/arm64/arm64.go:102-108 | so every argument starts at a register, or on the stack at a multiple of 4 |
| ArgIntegers.ArgumentStart | internal/debugger/arm64/arm64.go:102-108 | among arguments of up to eight bytes number i starts at register i, and behind the eighth, if all have eight bytes, at stack offset 8 (i - 8) |
| ArgIntegers.IntegersInOrder | internal/debugger/arm64/stream.go:127-160 | however many there are, the bytes of the first eight are at the start of X0 to X7 in their order, and those of the others one after the other in the stack image |
| RegStream.Context.StackAlloc | internal/debugger/context.go:56-65 | the stack pointer moves down by the aligned size or not at all |
| RegStream.Stream.Write | internal/debugger/arm64/stream.go:127-160 | register by register leaves the same registers, stack and position as byte by byte |
| RegStream.Stream.Read | internal/debugger/arm64/stream.go:52-82 | register by register returns the kept image and then the same bytes as byte by byte, and keeps the image of the last register touched |
| RegStream.Stream.WriteScript | internal/debugger/arm64/stream.go:30-160 | writes, skips and alignments on the stream leave the state of the script |
| RegStream.Stream.ReadScript | internal/debugger/arm64/stream.go:30-82 | reads, skips and alignments on the stream return what the script reads with the kept image |
| RegStream.ScriptThereAndBack | internal/debugger/arm64/stream.go:30-160 | a script written by one stream and read by another comes back, in whatever chunks, if no skip ends inside a register not loaded; otherwise the kept image decides |
| RegStream.Spill | internal/debugger/arm64/arm64.go:109-116 | the stack image of the arguments is stored below the old stack pointer, if there is one; fails exactly if it does not fit there or is not mapped |
| RegStreamExact.BadScriptLost | internal/debugger/arm64/stream.go:43-64 | a script with a read in a register not loaded can be given data that do not come back, whatever is in the registers before and on the stack |
| ArgScripts.ScriptShape | encoding/encode_struct.go:14-71 | which writes and skips the handler of a type makes, of which lengths, does not depend on the value |
| ArgScripts.SameData | encoding/decode_struct.go:54-65 | the data that the handler of a type reads determine the value, given the ignored fields |
| ArgScripts.LenScript | encoding/encode_struct.go:43-59 | what the handler of a flat type writes and skips adds up to the size list of the type |
| ArgScripts.RegularPad | encoding/encode_struct.go:90-92 | aligning to 1, 2 or 4 gives the least padding to a multiple of it, and to any multiple of 8, such as 24, one that ends at a multiple of 8 |
| ArgScripts.NeatLaidOut | encoding/encode_struct.go:43-59 | if all sizes padded to are of this kind and whatever has paddings of its own starts at a multiple of 8, all paddings of the script are of this kind |
| ArgCodec.EncodeArg | encoding/encode.go:61-108 | the encode handler of a flat type leaves registers, stack image and position as the script of type and value says |
| ArgCodec.EncodeArgElems | encoding/encode_array.go:34-42 | the same for elements written one after the other |
| ArgCodec.EncodeArgStruct | encoding/encode_struct.go:60-71 | the same for a struct field by field, with its tail pad |
| ArgCodec.EncodeArgFields | encoding/encode_struct.go:61-66 | the same for the fields, pads skipped and ignored fields left out |
| ArgCodec.DecodeArg | encoding/decode.go:55-126 | the decode handler reads what the script of the type reads with the kept image, and returns the value with these data and the ignored fields of the destination, or fails as the read does |
| ArgCodec.DecodeArgElems | encoding/decode_array.go:25-40 | the same for elements read one after the other |
| ArgCodec.DecodeArgStruct | encoding/decode_struct.go:54-65 | the same for a struct and its tail pad |
| ArgCodec.DecodeArgFields | encoding/decode_struct.go:55-60 | the same for the field loop |
| ArgCodec.GoodByTypes | internal/debugger/arm64/arm64.go:67-117 | whether the script of an argument list is good depends on the types of the arguments alone |
| ArgCodec.NeatArgsAreGood | encoding/encode_struct.go:43-59 | it is if the sizes that fields and tails are padded to are 1, 2, 4 or multiples of 8 and whatever has paddings of its own starts at a multiple of 8 |
| ArgCodec.WriteArgs | internal/debugger/arm64/arm64.go:93-117 | registers are those of the scripts of the types; it succeeds exactly if nothing spills or the spill fits mapped memory below the stack pointer, and then only that memory and the stack pointer have changed |
| ArgCodec.ReadArgs | internal/debugger/arm64/arm64.go:67-91 | reads what the scripts of the types read with the kept image, into values that fit the destinations |
| ArgCodec.ArgsThereAndBack | internal/debugger/arm64/arm64.go:67-117 | any number of integers, arrays and structs, in registers and spilled, are extracted as written if their types are good, and in any case exactly if their data are |
| ArgExact.BadArgsLost | internal/debugger/arm64/arm64.go:67-117 | types that are not good have arguments that are not extracted as written, whatever registers, memory and stack hold |
| ArgExact.GoodArgsExact | internal/debugger/arm64/arm64.go:67-117 | so all arguments of a list of types are extracted as written, from any registers before, if and only if the types are good |
| ArgTailPad.OuterSizes | encoding/encode_struct.go:52-59 | a struct of 25 bytes with the size entry 12 in it is padded by 11 |
| ArgTailPad.TailPadLost | encoding/encode_struct.go:52-59 | an argument of a concrete struct type comes back with bytes of its first field in its last, whatever it was |
| HookSpec.RoomLeft | internal/debugger/hook.go:111-119 | with fewer pooled addresses than capacity some channel has room |
| HookSpec.ConservedMeans | internal/debugger/hook.go:64-119 | conservation means that an issued address is either live or pooled, and pooled once |
| HookSpec.TakeConserves | internal/debugger/hook.go:97-103 | taking from a channel yields an issued address that was not live, and conserves |
| HookSpec.GiveConserves | internal/debugger/hook.go:112-117 | giving a live address back to a channel with room conserves |
| HookSpec.LiveHasRoom | internal/debugger/hook.go:111-119 | as long as an address is live there is a channel with room for it |
| HookSpec.GrowConserves | internal/debugger/hook.go:82-91 | a new full channel of new addresses conserves |
| HookSpec.ControlIsCalled | internal/debugger/hook.go:219-232 | at a live control address its handler is called if and only if no user handler ahead of it covers the address and answers DONE, after exactly the covering user handlers ahead of it; the last answer is DONE either way |
| HookSpec.CalledInEveryOrder | internal/debugger/hook.go:219-232 | it is called in every order of the walk if and only if no user handler of the table covers the address and answers DONE |
| HookSpec.UserShadowsControl | internal/debugger/hook.go:220-227 | one that comes first: the control handler is not called |
| HookSpec.OrdinaryCalled | internal/debugger/hook.go:219-227 | away from the control addresses the handlers whose range has the address, or is empty and so global, are called in the order of the walk, up to the first of them that answers DONE |
| HookSpec.CalledAt | internal/debugger/hook.go:219-227 | so a handler is called if and only if it applies so and none ahead of it that does answers DONE |
| Hooks.HookManager.AllocCtrlAddrs | internal/debugger/hook.go:64-93 | a new region adds one full channel of new addresses, all recognised as control addresses |
| Hooks.HookManager.FillQueue | internal/debugger/hook.go:82-89 | one address per instruction of the region, no two the same |
| Hooks.HookManager.TryTake | internal/debugger/hook.go:97-103 | takes the oldest address of the first channel that has one, and fails if and only if there is none; it was issued and not in use |
| Hooks.HookManager.CtrlAddrAlloc | internal/debugger/hook.go:95-109 | a pooled address is used again and nothing is mapped if there is one; yields an address not in use, and fails if and only if every channel is empty and a region cannot be mapped |
| Hooks.HookManager.CtrlAddrFree | internal/debugger/hook.go:111-119 | always finds a channel with room, so no live address is lost |
| Hooks.HookManager.AddControl | internal/debugger/hook.go:184-208 | one more live address with exactly one handler, every invariant kept; fails exactly as the allocation does |
| Hooks.HookManager.CloseControl | internal/debugger/hook.go:203-206 | the handler goes first and the address back to the pool |
| Hooks.HookManager.HandleInterrupt | internal/debugger/hook.go:210-233 | the walk calls the valid handlers up to the first that is done; at an ordinary interrupt these are the ones that apply, and the task is cancelled if and only if none of them answers DONE and the last, if there is any, passes on |
| Hooks.HookManager.ControlTrap | internal/debugger/hook.go:210-233 | a trap at a live control address is recognised and never cancelled; its handler is called exactly if no user handler ahead of it covers the address and answers DONE, in every order exactly if there is none, and alone if none covers it |
| Hooks.HookManager.PooledHasNoHandler | internal/debugger/hook.go:203-206 | no pooled address still has a handler |
| ContextPool.TaskManager.AllocTaskContext | internal/debugger/task.go:138-144 | hands out what the pool offers, which leaves the pool |
| ContextPool.TaskManager.FreeTaskContext | internal/debugger/task.go:208-218 | a forked context is destroyed and never pooled, any other is pooled; once closed it may be either, and nothing else changes |
| ContextPool.TaskManager.NewTaskContext | internal/debugger/task.go:182-199 | a new context has a stack that no other owned context shares |
| ContextPool.TaskManager.NewSavedContext | internal/debugger/runner.go:26-35 | succeeds exactly if the stack is mapped and the registers saved, and otherwise loses nothing from the pool |
| ContextPool.TaskManager.CreateTask | internal/debugger/runner.go:24-39 | one more task, with a pooled context if there is one, at the top of its own stack; fails only if closed or if a new context cannot be made, and need not fail when closed |
| ContextPool.TaskManager.Fork | internal/debugger/runner.go:116-124 | a forked task shares its parent's stack and has one release, so its context is never pooled |
| ContextPool.TaskManager.StacksExclusive | internal/debugger/task.go:182-218 | after any calls, two live tasks made by CreateTask have different contexts and stacks that share no byte with each other or a pooled one |
| ContextPool.TaskManager.CloseTask | internal/debugger/runner.go:54-64 | the task is gone and its context freed: pooled if CreateTask made it and the manager is open, destroyed if it was forked |
| Descriptors.CreateKeeps | internal/debugger/file.go:51-57 | registering a new file keeps every count exact |
| Descriptors.CreateExact | internal/debugger/file.go:51-57 | registering a file keeps every count exact if and only if the file is new and the next number unused or a standard stream's, or the number maps to that file already |
| Descriptors.ReleaseKeeps | internal/debugger/file.go:59-67 | handing the file to the caller keeps every count exact |
| Descriptors.CloseRawKeeps | internal/debugger/file.go:59-67 | closing an uncounted file keeps every count exact and is its one close |
| Descriptors.CloseRefKeeps | internal/debugger/file.go:196-204 | closing a counted one lowers its count and closes the file exactly at zero |
| Descriptors.CloseExact | internal/debugger/file.go:196-204 | closing keeps every count exact if and only if it closes an open handle or a standard stream |
| Descriptors.ShareRefKeeps | internal/debugger/file.go:85-87 | duplicating a reference keeps every count exact |
| Descriptors.ShareRawKeeps | internal/debugger/file.go:88-91 | turning a file into a reference with count 2 keeps every count exact |
| Descriptors.ClosedOnceAtTheEnd | internal/debugger/file.go:196-204 | a registered file has been closed at most once, and not at all if and only if some descriptor or handle still uses it |
| Descriptors.ShareExact | internal/debugger/file.go:78-121 | duplicating into any number keeps every count exact if and only if that number is unused or a standard stream's |
| Descriptors.ShareMaps | internal/debugger/file.go:92-94 | both descriptors map to the same reference and no other descriptor has changed |
| Descriptors.BelowStays | internal/debugger/file.go:51-121 | the next number stays unused under registering, releasing and duplicating to the next number, and under duplicating to a given one if and only if that is not above the counter |
| Descriptors.DupAboveIsReplaced | internal/debugger/file.go:97-121 | a duplicate at a number the counter has not reached is replaced by the file that gets the number, and its reference keeps a count too many |
| Descriptors.FileManager.CreateFileDescriptor | internal/debugger/file.go:51-57 | the next number maps to the file, whatever it mapped to before; the counts stay exact if and only if the file is new and the number was unused or a standard stream's, or mapped to that file already |
| Descriptors.FileManager.CloseFileDescriptor | internal/debugger/file.go:59-67 | returns the file and forgets the descriptor, or reports that there is none and changes nothing |
| Descriptors.FileManager.Close | internal/debugger/file.go:196-204 | the count falls by one, the file closes exactly at zero and an error is reported below it; the counts stay exact if and only if the handle was open or a standard stream |
| Descriptors.FileManager.DupFile | internal/debugger/file.go:78-95 | the next number shares the file, or nothing changes if there is none; the counts stay exact if and only if nothing changed or the next number was unused or a standard stream's |
| Descriptors.FileManager.Dup2File | internal/debugger/file.go:97-121 | the target's old file is closed and the target shares the other's; equal or standard targets change nothing; the counts always stay exact |
| VirtualDir.Sub | filesystem/virtual.go:94-110 | resolution ends, on components left and link age, at a node that exists |
| VirtualDir.SubBehindLinks | filesystem/virtual.go:251-256 | a path from a link names what it names from behind all the links in a row, and is invalid if they end nowhere |
| VirtualDir.SubIsTrail | filesystem/virtual.go:94-110 | a path names a node if and only if entries lead there one after the other, links followed on the way; and does not exist if and only if they lead to a directory without the next name |
| VirtualDir.ExtendsKeepsSub | filesystem/virtual.go:94-110 | a path that resolves names the same node in every tree that only gained entries |
| VirtualDir.MkdirExtends | filesystem/virtual.go:180-200 | a Mkdir only adds entries, successful or not |
| VirtualDir.MkdirKeepsPaths | filesystem/virtual.go:180-200 | every path that resolved before a Mkdir names the same node after it, from every starting point |
| VirtualDir.MkdirThenSub | filesystem/virtual.go:180-200 | after a successful Mkdir the path names the node it returned, links on the way included |
| VirtualDir.MkdirSucceeds | filesystem/virtual.go:180-200 | succeeds if and only if the path does not exist or names no plain file, and changes nothing if it fails or the path is there |
| VirtualDir.MkdirInNew | filesystem/virtual.go:193-199 | always succeeds inside an empty directory |
| VirtualDir.MkdirMakes | filesystem/virtual.go:180-200 | if the path does not exist it is followed as far as it goes, one directory gains one entry there, and behind it is a chain of new directories for the other names, the last one empty; nothing else changes |
| VirtualDir.VirtualFS.SoftLink | filesystem/virtual.go:58-60 | a link is younger than its target, which is fixed |
| VirtualDir.VirtualFS.MkdirAt | filesystem/virtual.go:180-200 | the walk that stores new directories as it goes leaves the tree of the specification |
| VirtualDir.VirtualFS.LinkIn | filesystem/virtual.go:238-241 | the name then resolves to the node and no other entry changes, or the name was taken and nothing does |

## Left out

- 64-bit wrap-around of addresses and sizes: bump pointer, stack pointer and alignment are unbounded; a stack allocation below address 0 fails instead of wrapping.
- Locks: heap, ledger, hook table and file table are modelled for one caller at a time, as their mutexes and channels make them.
- `memBind`, `memUnbind`, `memProtect`, `memSize` and the destructors.
- Heap.MemoryManager.MemWrite: takes the encoder's requests as a list of sizes and its own failure as a flag after them; the codec model has its own allocator, which may hand out any block with the freshness that `HeapSpec.AllocIsFresh` proves of the heap.
- Heap.Emulator.MemMap: mapping an empty range fails, as an assumption on the emulator.
- Host memory, reflection and the handler caches: host values are trees. Stepping through host memory by the encoded size (`encoding/encode_array.go:40`) cannot go wrong there, so `CodecTypes.Wf` asks that array and slice elements have equal encoded and host sizes; it also excludes zero-size members, of which only the pad is characterised, and with them the out-of-range index of an element type with an empty size list.
- Interfaces, maps, channels and functions, which the codec refuses, and recursive types, on which it does not terminate.
- Widths other than an 8-byte host and a 4- or 8-byte guest word; the branch that pads a word narrower than the guest's is dead on such a host.
- `CodecRoundTrip.RoundTrip` starts from a mapped window and a destination with equal slice lengths; scalar slices are left to `PlainSliceReadsParent`. Top-level slices and strings (which go through a wrapper stream), and top-level arrays and structs that are one pointer wide, are not modelled.
- CodecStream.PointerStream.ReadStream: the pointer width comes from the stream; the source takes it from the architecture, which agrees.
- CodecStream.EncodePointer: a fault on a nil host pointer happens at once, not after the allocations that may come before it.
- Scheduler: a task whose goroutine already waits may be refused like one about to when the emulator has stopped; Run at most once per task, Close at most once per task, no reset and re-use of the main task, no panics in callbacks, registers of a task written only by its creator before Run and by its own callbacks, the register file as one value, no fairness: that a live task can run is proved, not that it will.
- SchedulerProof.OnePlaceAtATime: nothing is claimed of what follows once the loop has given up waiting and resumed, beyond `GivingUpIsExact`.
- SchedulerProof.DirectCallsAreSafe: the choice and the call are apart; what may happen between is the subject of `ClearForTheCall`, and a call takes no steps of its own in the model.
- The 32-bit ARM and x86 argument streams, floats (which go to other registers, also from inside a struct with handlers of its own), conformance to section 6.8.2 of the Procedure Call Standard for the Arm 64-bit Architecture, failing register reads and writes (those of an interrupt handler included), return values.
- ArgCodec.EncodeArg: flat types; a pointer, a slice or a string in an argument takes a stack allocation of its own, as in the codec model, and strings are refused by this stream.
- RegStream.Context.StackAlloc: refuses to go below address 0, where the source wraps.
- Control addresses on x86, whose trap instruction is empty; exactness of `isControl`, whose upper bound runs one instruction past the region; closing one control handler twice; handlers for memory and invalid-instruction events.
- ContextPool: a freed context handed directly to a task being created, past the pool goroutine, is a free followed by a take here, and what the pool holds is not destroyed at shutdown. A fork outliving its parent shares a stack that may be in use again; only tasks made by CreateTask have stacks of their own.
- VirtualDir.Sub: paths are sequences of components, already cleaned and split; file contents, times, modes, listing, opening and the creation of files are left out.
- Sockets, modules and error values.
