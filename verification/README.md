# A verified model of the allocators, protocol code and directory listings

A Dafny model of six C programs, with proofs of what they promise:

- `memalloc.cc`: an allocator over a heap of 13-byte slots with a next-fit cursor, and large blocks between
  guard bytes. The byte heap is shown to implement a plain map from live pointers to payloads, over every run;
  what the tests accept is stated exactly, on the bytes, for every pointer.
- `safe-malloc-free.c`: an allocator over two tables of 64 slots, with exact pointer validation and a remembered
  index. The same refinement, exact acceptance of pointers, and an index that changes no answer but one.
- `can_scoket1.c`: a CAN receiver that collects inertial-sensor messages frame by frame into a ring, rolls back
  messages that turn out bad, and holds a mutex from a message's header to its end; and the reader beside it.
- `can_scoket2.c` and `can-setup.cc`: the netlink attribute builder (nested sections whose lengths are patched
  afterwards), the tolerant attribute parser (format: section 2.2 of RFC 3549), and the walk over the reply
  (acknowledgement: section 2.3.2.2 of RFC 3549).
- `c-fs-list.c`: recursive directory listings, packed into a bounded buffer or delivered to a callback.

`dafny verify dfyconfig.toml` checks everything.

## How it is organised

Objects whose C code updates state in place are classes over arrays (`Receiver`, `Heap`, `Allocator`), and loops
are loops. Each method is proved against a specification (a plain map, a list of attributes, the messages of a
frame stream, the files of a tree); the lemmas about those and the whole-run methods (`Serve`, `HeapRun.Run`,
`SlotRun.Run`) carry the main results.

| modules | subject |
|---|---|
| `Options`, `Bytes`, `Arithmetic`, `Memory`, `Scripts` | shared: little-endian integers, patches of byte sequences, division facts, changes of memory, runs of a script |
| `HeapLayout`, `HeapSteps`, `HeapPointers`, `GuardedHeap`, `HeapRun` | `memalloc.cc`: byte layout, one change at a time, what the bytes say about any pointer, the class, whole runs |
| `SlotTables`, `SlotSteps`, `SlotAllocator`, `SlotRun` | `safe-malloc-free.c`: tables, one change at a time, the class, whole runs |
| `CanFrames`, `ImuHistory`, `ImuRing`, `ImuReceiver`, `KeyFrames` | `can_scoket1.c`: frames, what a stream of frames means, the ring, the class, key collection |
| `Attributes`, `NetlinkMessage`, `LinkRequest`, `LinkExchange`, `NetlinkReply` | `can_scoket2.c`, `can-setup.cc`: attributes, appending and parsing, nested sections, request and reading back, reply |
| `DirTree`, `DirPack`, `DirUnpack`, `DirOrder`, `DirWalk` | `c-fs-list.c`: trees and encodings, packing, reading back, the order of visits, the callback walk |

Machine assumptions: little-endian integers, 8-byte pointers, 4-byte `unsigned`, and no memory in the last word of
the address space. Where a C integer can wrap (lengths in attribute headers, `len` and `status` in the reply walk,
`pos + len` and the address in the access checks) the wrap is written out.

A run of a script ends where something goes astray: where the code writes behind a table, accepts a pointer or an
access that it should not, or touches memory that is not there. C promises nothing from there on; when exactly it
happens is part of what is proved.

## Where the code does not do what one would expect

Each of these is stated with an input and with the exact condition under which the expected property holds.

- `can_scoket1.c`, lines 180-213: a body that outgrows the ring less one record is stored over the record that the
  reader was promised. The receiver model needs no hypothesis: `Serve` says what every request is answered on every
  stream. The answer is the promised record as long as that record is not spoilt (`ImuHistory.PromiseKept`); a frame
  spoils it exactly when it makes the body outgrow 19 records, and the promise is then broken exactly when the
  frame's octets differ from those they replace (`ImuHistory.SpoiltRecord`, `ImuRing.OverwritesPromise`).
  `ImuHistory.PromiseBroken` is such a run, for every record size. The header behind the next accepted message clears
  the state (`ImuHistory.HeaderStep`).
- Lines 188-198: a body longer than one record is accepted when it is a whole number of records, and only one of
  them is ever tested. `ImuHistory.OverlongBodyAccepted` is an example for every record size; the record read is the
  whole, tested body exactly when the body is no longer than a record (`ImuHistory.RecordIsBody`).
- `memalloc.cc`, lines 187-246: pointers that were never handed out are accepted exactly when the bytes around them
  look like a block. Writes within bounds can make them so (`HeapPointers.ForgedPointer`). Pointers that are NULL, out
  of range or freed from the slots are always refused.
- Line 255, and `safe-malloc-free.c` line 211: `pos + len` is computed in `size_t`. An access out of bounds of a live
  block is admitted exactly when the sum reaches 2^64 and what is left of it fits the block
  (`HeapPointers.WrapAdmits`, `GuardedHeap.Heap.Write`, `SlotAllocator.Allocator.Write`). With position 2^64 - 1 and
  one byte it lands in front of the payload (`HeapPointers.WrapsBefore`), and the block can never be freed again
  (`HeapPointers.WrappedWriteLosesBlock`).
- `memalloc.cc`, line 203: a large block that the system puts below the slots is handed out, but refused ever after
  (`GuardedHeap.Heap.MallocLarge`, `HeapPointers.RefusedForCertain`).
- `safe-malloc-free.c`, lines 102-103 and 111-112: the `assert` is the loop's body and never fires. A request writes
  behind its table exactly when the table is full (`SlotAllocator.Allocator.Malloc`); the 65th request of one byte
  does (`SlotRun.SixtyFifthOverruns`).
- Lines 113-117: a large request that the system refuses loses its slot for ever. After 64 of them the next one writes
  behind the table although no block is live (`SlotRun.LostSlotsOverrun`).
- Lines 189-203: the remembered index skips the slot checks. That is right exactly for pointers other than
  `UINTPTR_MAX`, which free and lost slots hold (`SlotTables.CacheHitPassesChecks`): of two queries for it the second
  reads memory that is not there (`SlotAllocator.Allocator.AskTwice`), which a search with all checks never does. A
  free of it does the same exactly when a slot is lost (`SlotAllocator.Allocator.XFree`).
- `can_scoket2.c`, lines 285-289: an attribute reads back as written exactly when its type and its length fit their
  16-bit fields (`NetlinkMessage.HeaderReadsBack`).
- Line 241: `parse_rtattr` clears `max` entries of a table of `max + 1`, so the last entry keeps its old value when no
  attribute of that type occurs (`NetlinkMessage.ParseRtattr`).
- Lines 345-372: `status` is compared unsigned. Without an error message and without a length that wraps, the walk
  reads outside its buffer exactly when the last message is not padded and the header behind it does not fit
  (`NetlinkReply.StraysExactly`); in the buffer of 16384 bytes only for lengths above 16368 that are not multiples of
  4 (`NetlinkReply.StraysNearTheEnd`), and there it does happen (`NetlinkReply.UnpaddedMessageStrays`).
- `c-fs-list.c`, lines 58-66: an entry that begins on the last character of the buffer is counted although nothing of
  it shows. The read-back count returns to 0 exactly when there is none (`DirUnpack.CutCount`,
  `DirUnpack.ListAndRead`); two files and six characters are an example (`DirUnpack.CountSticks`).
- Line 70: below a directory path of 254 characters the recursion opens the directory it came from
  (`DirPack.CutPathIsParent`).

## Model

| member | source | states |
|---|---|---|
| `HeapRun.Run` | memalloc.cc:134-261 | For every script of allocations, reads, writes and frees, through any pointers and with any positions and lengths, the byte heap stands for the plain state that replays the script, and every answer is one it promises: allocations fail for their stated reasons only, take the free slot that lies the fewest steps ahead of the cursor and are disjoint from all live payloads; accesses through live pointers are made exactly when in bounds, refused otherwise, and go astray exactly when the sum wraps into the payload; frees of live pointers succeed; NULL, out-of-range and freed slot pointers are refused. |
| `HeapRun.Perform` | memalloc.cc:186-261 | The same for one operation; through a pointer that is not live it goes astray exactly when the bytes around the pointer pass the tests. |
| `HeapRun.Allot` | memalloc.cc:134-184 | The same for one allocation, the system allocator answering with a region in no live block, below or above the slots, or NULL. |
| `HeapRun.SafeRunsThrough` | memalloc.cc:134-261 | A script that uses live or certainly refused pointers, and no sums that wrap into a payload, runs to its end. |
| `HeapRun.MovesOn` | memalloc.cc:143-159 | On a fresh heap of at least two slots, a byte allocated, freed and allocated again takes the second slot: next fit, not first fit. |
| `GuardedHeap.Heap.constructor` | memalloc.cc:112-122 | An initialised heap has no live pointer and its cursor at the first slot; bytes outside the slots keep their values. |
| `GuardedHeap.Heap.FindSlot` | memalloc.cc:143-156 | The two scans find, of all free slots, the one that lies the fewest steps ahead of the cursor, counted around the heap, and fail exactly when every slot is in use. The test at line 156 cannot fail. |
| `GuardedHeap.Heap.MallocSmall` | memalloc.cc:139-167 | Next fit: of all free slots the one handed out lies the fewest steps ahead of the cursor; the cursor moves behind it, or to the start, so it always stays on a slot inside the heap; the map gains a payload of fill bytes; NULL exactly when no slot is free, and then nothing changes. |
| `GuardedHeap.Heap.MallocLarge` | memalloc.cc:168-183 | The map gains one payload, holding what the system's memory held but for its first byte, and every other payload stays; a block below the slots is handed out without entering the map; NULL exactly when the system says NULL; the highest canary address is kept up. |
| `GuardedHeap.Heap.Malloc` | memalloc.cc:134-184 | Exactly when the call fails; a new pointer was not live, its payload has the size asked for and is the next-fit slot or the block of the system; nothing else in the map changes. |
| `GuardedHeap.Heap.FreeSmall` | memalloc.cc:191-202 | Accepted exactly when header, canary and fill bytes are there; accepting a live pointer removes it from the map; a refused call changes nothing. |
| `GuardedHeap.Heap.Free` | memalloc.cc:187-218 | For every pointer, and whatever memory holds: accepted exactly when header, canary and, in a slot, fill bytes are there. A live pointer always is, and only it leaves the map; NULL, out-of-range and freed slot pointers never are; a refused call changes nothing. |
| `GuardedHeap.Heap.CheckSmall` | memalloc.cc:225-231 | The tests pass exactly when size, use flag and both guard bytes are there and the access fits the size. |
| `GuardedHeap.Heap.CheckLarge` | memalloc.cc:233-240 | The tests pass exactly when size, use flag, self pointer and both guard bytes are there and the access fits the size. |
| `GuardedHeap.Heap.FillIntact` | memalloc.cc:199-201 | The scan accepts exactly the slots whose bytes behind the requested size still hold the fill value. |
| `GuardedHeap.Heap.XptrValid` | memalloc.cc:220-246 | For every pointer, and whatever memory holds: accepted exactly when header and canary are there and the access fits the announced size; for a live pointer, exactly when it fits the size asked for. |
| `GuardedHeap.Heap.Write` | memalloc.cc:249-261 | A write through a live pointer is refused exactly when the wrapped sum exceeds the size, and is admitted out of bounds exactly when the sum reaches 2^64 and the rest fits; a write in bounds changes its own stretch of its own payload and nothing else in the map; otherwise the bytes at the wrapped address change. |
| `GuardedHeap.Heap.Read` | memalloc.cc:249-261 | The same for a read, which in bounds gives the bytes of the payload. |
| `HeapPointers.LivePasses` | memalloc.cc:191-210 | A live pointer passes every test of the free and access paths, with its own size and no other. |
| `HeapPointers.RefusedForCertain` | memalloc.cc:191-216 | NULL, out-of-range and freed slot pointers have no header. |
| `HeapPointers.DamageDetected` | memalloc.cc:193-210 | What the guards are for: when a guard byte of a live block, a fill byte of its slot or a byte of its self pointer has been changed, `_free` refuses the pointer. |
| `HeapPointers.ForgedPointer` | memalloc.cc:203-210 | A write within bounds of a large payload leaves the heap as it should be and makes a pointer inside the payload, never handed out, pass every test. |
| `HeapPointers.WrapAdmits` | memalloc.cc:255-255 | An access out of bounds passes the size test if and only if position plus length reaches 2^64 and the rest fits the size. |
| `HeapPointers.WrappedWriteLosesBlock` | memalloc.cc:255-260 | A byte written in front of a live payload, unless it is the byte that was there, makes the live pointer fail every test from then on. |
| `HeapLayout.PayloadsDisjoint` | memalloc.cc:143-182 | In every state the payloads of different live pointers share no byte. |
| `HeapLayout.LiveBounds` | memalloc.cc:139-182 | Live pointers below the slot end are slots of at most 8 bytes, the others large blocks behind it, all inside memory. |
| `HeapSteps.SmallTaken` | memalloc.cc:161-167 | The stores into a free slot add exactly one payload to the map and keep the layout. |
| `HeapSteps.SmallFreed` | memalloc.cc:202-202 | Filling a used slot removes exactly its payload from the map and keeps the layout. |
| `HeapSteps.GuardsReadBack` | memalloc.cc:172-177 | The stored header, self pointer and canary satisfy every test of the free and access paths. |
| `HeapSteps.LargeTaken` | memalloc.cc:169-182 | Guarding a fresh region adds exactly one payload to the map and keeps the layout. |
| `HeapSteps.LowTaken` | memalloc.cc:169-182 | Guarding a region below the slots changes nothing that the heap keeps track of. |
| `HeapSteps.LargeFreed` | memalloc.cc:203-212 | Giving a block back removes exactly its payload from the map. |
| `HeapSteps.Written` | memalloc.cc:249-261 | A write inside a payload patches that payload in the map and damages no guard byte of any block. |
| `SlotRun.Run` | safe-malloc-free.c:94-238 | For every script, through any pointers and with any positions and lengths, with frees, reuse of slots and addresses and any history of the remembered index, the tables stand for the plain map and the count of lost slots that replay the script. A small request takes the first free slot, a large one the block of the system; a request writes behind its table exactly when that is full, and a large one is NULL exactly when the system has no memory. Frees, writes and queries succeed exactly on live pointers within their size. Lost slots stay lost. |
| `SlotRun.Perform` | safe-malloc-free.c:94-224 | The same for one operation. |
| `SlotRun.SixtyFifthOverruns` | safe-malloc-free.c:101-109 | 64 requests of one byte get the 64 slots in order, and the next one writes behind the table. |
| `SlotRun.LostSlotsOverrun` | safe-malloc-free.c:111-117 | After 64 large requests that the system refused, a large request writes behind the table although no block is live. |
| `SlotRun.SlotsShared` | safe-malloc-free.c:110-126 | In every state large live pointers and lost slots together are at most 64. |
| `SlotAllocator.Allocator.constructor` | safe-malloc-free.c:235-238 | After `init` no pointer is live and both tables are free. |
| `SlotAllocator.Allocator.FirstFree` | safe-malloc-free.c:102-103 | First fit: the first slot that is not in use, or the index behind the table when there is none. |
| `SlotAllocator.Allocator.MallocSmall` | safe-malloc-free.c:101-109 | Writes behind the table exactly when every small slot is the home of a live pointer; else hands out the first free one, and the map gains a payload of fill bytes. |
| `SlotAllocator.Allocator.ClaimSlot` | safe-malloc-free.c:111-114 | The first free large slot is claimed before the system is asked; there is none exactly when live pointers and lost slots are 64. |
| `SlotAllocator.Allocator.MallocLarge` | safe-malloc-free.c:110-126 | Writes behind the table exactly when live pointers and lost slots fill it; else the map gains the payload that memory held, or, when the system says NULL, one more slot is lost. Lost slots stay lost. |
| `SlotAllocator.Allocator.Malloc` | safe-malloc-free.c:94-127 | Exactly when the call overruns, fails, or costs a slot; a new pointer was not live; nothing else in the map changes. |
| `SlotAllocator.Allocator.FindUsed` | safe-malloc-free.c:148-154 | Whatever the table holds: the first slot in use that holds the pointer. |
| `SlotAllocator.Allocator.UsedFacts` | safe-malloc-free.c:148-154 | In tables as they should be, that is the slot of a live large pointer, nothing for any other pointer, and for `UINTPTR_MAX` a lost slot if there is one. |
| `SlotAllocator.Allocator.CheckSmallFree` | safe-malloc-free.c:134-143 | Whatever the slots hold: accepted exactly with the use flag, the exact address, a size of 1 to 8 and both guard bytes. |
| `SlotAllocator.Allocator.CheckLargeFree` | safe-malloc-free.c:148-164 | Whatever slots and memory hold: accepted exactly when a slot in use holds the pointer, the slot passes its tests, and length and both guard bytes of the block are there. |
| `SlotAllocator.Allocator.CheckGuards` | safe-malloc-free.c:162-164 | Accepted exactly when both guard bytes are there. |
| `SlotAllocator.Allocator.CheckBlock` | safe-malloc-free.c:204-211 | Whatever memory holds: accepted exactly when length and both guard bytes are there and the access fits the length. |
| `SlotAllocator.Allocator.CheckSmallAccess` | safe-malloc-free.c:180-186 | Whatever the slots hold: accepted exactly with the use flag, the exact address and an access within a size of 1 to 8. |
| `SlotAllocator.LargeDamageDetected` | safe-malloc-free.c:155-164 | What the guards are for: when a guard byte of a live block or of its slot has been changed, `_xfree` refuses the pointer. |
| `SlotAllocator.Allocator.XFreeSmall` | safe-malloc-free.c:133-146 | Division by the slot size and exact address equality accept exactly the live pointers into the small table, interior and stale ones included. |
| `SlotAllocator.Allocator.XFreeLarge` | safe-malloc-free.c:147-170 | Exactly the live large pointers are accepted; exactly `UINTPTR_MAX`, once a slot is lost, reads memory that is not there. |
| `SlotAllocator.Allocator.XFree` | safe-malloc-free.c:129-173 | Exact acceptance, for every pointer: 0 if and only if the pointer is live; all others are refused, but for `UINTPTR_MAX` exactly when a slot is lost; only an accepted pointer outside a dry run changes the map, by removing itself. |
| `SlotAllocator.Allocator.Lookup` | safe-malloc-free.c:188-197 | A hit means that the remembered slot holds the pointer; a miss remembers the result of the search from slot 0. |
| `SlotAllocator.Allocator.XptrValid` | safe-malloc-free.c:175-215 | Cache transparency, for every pointer: whatever index is remembered, it accepts if and only if a fresh linear search with all checks does, which is exactly for accesses within a live block; it reads memory that is not there exactly for `UINTPTR_MAX` when the remembered slot is free or lost. |
| `SlotAllocator.Allocator.AskTwice` | safe-malloc-free.c:188-206 | Of two queries for `UINTPTR_MAX` the second reads memory that is not there, exactly when some large slot is free or lost. |
| `SlotAllocator.Allocator.Write` | safe-malloc-free.c:217-224 | A write through `xptr_assert` is made exactly when it is in bounds of a live block, and patches that payload only; through a live pointer it goes out of bounds exactly when the sum wraps into the size. |
| `SlotAllocator.FreshSearchExact` | safe-malloc-free.c:175-215 | A search from scratch with all checks accepts exactly the live pointers, within their size, `UINTPTR_MAX` included. |
| `SlotAllocator.SmallExact` | safe-malloc-free.c:134-137 | A pointer into the small table passes the slot tests if and only if it is live. |
| `SlotTables.CacheHitPassesChecks` | safe-malloc-free.c:189-202 | A remembered slot that holds the pointer would pass the skipped checks if and only if the pointer is not `UINTPTR_MAX`. |
| `SlotTables.HolderIsHome` | safe-malloc-free.c:118-120 | A large slot holding any other pointer is the slot of that live pointer. |
| `SlotTables.SearchFindsHome` | safe-malloc-free.c:193-198 | A search finds the slot of a live large pointer, and nothing for any other pointer. |
| `SlotSteps.SmallChanges` | safe-malloc-free.c:104-109 | A change of one small slot changes one payload of the map and keeps the table. |
| `SlotSteps.LargeTaken` | safe-malloc-free.c:115-125 | Guarding a fresh region and filling its slot adds exactly one payload and keeps tables and blocks. |
| `SlotSteps.LargeFreed` | safe-malloc-free.c:166-169 | Freeing a large slot removes exactly its payload and keeps tables and blocks. |
| `SlotSteps.LargeWritten` | safe-malloc-free.c:217-224 | A write inside a large payload patches it in the map and damages no guard byte. |
| `SlotSteps.SmallWritten` | safe-malloc-free.c:217-224 | A write inside a small payload patches it in the map and keeps the table. |
| `ImuReceiver.Receiver.Serve` | can_scoket1.c:129-260 | For every frame stream and every interleaving with requests, every request made while the mutex is free is answered by the record in front of the most recent body, as the message history describes it, or by failure when no turn is complete: across any number of turns, rollbacks and overlong bodies. |
| `ImuReceiver.Receiver.constructor` | can_scoket1.c:97-109 | The ring has room for 21 records, nothing is published, the mutex is free. |
| `ImuReceiver.Receiver.OpenMessage` | can_scoket1.c:156-165 | A header takes the free mutex and marks the start of its body. |
| `ImuReceiver.Receiver.DropMessage` | can_scoket1.c:170-177 | A stray header or tail rolls the ring back to the mark and frees the mutex. |
| `ImuReceiver.Receiver.StoreFrame` | can_scoket1.c:180-183 | Eight key-free octets go to the store position; no other octet changes. |
| `ImuReceiver.Receiver.StoreBody` | can_scoket1.c:180-183 | The stored frame makes the ring show the history one step on. |
| `ImuReceiver.Receiver.ExtendMessage` | can_scoket1.c:178-213 | A body frame is stored, and the end of the ring leads back to its start and publishes. |
| `ImuReceiver.Receiver.Settle` | can_scoket1.c:188-203 | The stored body is kept exactly when the frame has length 4, is a tail, ends on a record boundary, and the first record is plausible. |
| `ImuReceiver.Receiver.CloseMessage` | can_scoket1.c:186-207 | The end of a message keeps or rolls back its body and frees the mutex. |
| `ImuReceiver.Receiver.OnFrame` | can_scoket1.c:152-216 | Every frame, well formed or not, keeps the positions inside the ring, the mutex held exactly while a message is open, and no record half stored when it is free; and takes the message history one step on. |
| `ImuReceiver.Receiver.GetIMU` | can_scoket1.c:221-260 | The reader succeeds exactly when a turn is complete, reads inside the ring, and gets the record that the history describes. |
| `ImuHistory.PromiseKept` | can_scoket1.c:156-238 | On every stream: as long as it is not spoilt, the answer is the end of the last body accepted before the most recent header. |
| `ImuHistory.PublishedExactly` | can_scoket1.c:209-226 | Requests are answered by a record if and only if some data frame so far has brought the octets of the accepted bodies and of its own to a whole number of turns. |
| `ImuHistory.PublishedStays` | can_scoket1.c:152-226 | Once a request is answered by a record, no further frame turns the answer back into none. |
| `ImuHistory.IdleFramesIgnored` | can_scoket1.c:156-168 | While no message is open, frames that are no header change nothing, and so no answer. |
| `ImuHistory.SpoiltRecord` | can_scoket1.c:180-213 | A frame spoils the promised record if and only if it makes the body outgrow the ring less one record; the answer is then wrong if and only if the octets differ. |
| `ImuHistory.ShortBodiesSpoilNothing` | can_scoket1.c:180-213 | On a stream none of whose bodies outgrows the ring less one record, nothing is ever spoilt. |
| `ImuHistory.PromiseBroken` | can_scoket1.c:180-238 | A run, for every record size, after which the reader gets other octets than promised. |
| `ImuHistory.RunSound` | can_scoket1.c:152-216 | The invariant behind these, over every stream: while nothing is spoilt the place holds the promised record, and there is one as soon as a turn is complete. |
| `ImuHistory.BodyIsMessage` | can_scoket1.c:156-207 | Every accepted body is the key-free content of one complete header-to-tail message of the stream, a whole number of records, and the record of it that the test reads is plausible. |
| `ImuHistory.MessageAccepted` | can_scoket1.c:156-207 | A complete message that starts while the receiver is idle is accepted if and only if its body is whole and plausible. |
| `ImuHistory.CurrentBody` | can_scoket1.c:168-185 | While a message is open, what is stored is what followed its header. |
| `ImuHistory.RecordIsBody` | can_scoket1.c:188-198 | The promised record is the whole body if and only if the body is no longer than a record, and then it passed the plausibility test. |
| `ImuHistory.OverlongBodyAccepted` | can_scoket1.c:188-198 | For every record size: a body of two records whose first one is plausible is accepted, and what is promised then is the second one. |
| `ImuRing.OverwritesPromise` | can_scoket1.c:180-213 | In every state in which a record is promised and not spoilt, the ring holds it in front of the fetch position, and a frame is stored over it if and only if it makes the body outgrow the ring less one record. |
| `ImuRing.PlaceAtHeader` | can_scoket1.c:156-165 | At a header, the record in front of the store position is the end of the body accepted since the last one, or the record that was there. |
| `ImuRing.TestedRecord` | can_scoket1.c:195-198 | The plausibility test reads the first record of the body, or for a body longer than the ring the first one of its last whole turn. |
| `ImuRing.FrameShows` | can_scoket1.c:180-213 | Storing a frame, with or without a new turn, keeps ring and history in step, whatever the frame is stored over. |
| `ImuRing.AbortShows` | can_scoket1.c:174-176 | A rollback keeps ring and history in step, also over the start of a turn. |
| `ImuRing.KeepsBody` | can_scoket1.c:188-203 | The position and plausibility tests decide as the message-level rule does. |
| `ImuRing.FrameLaps` | can_scoket1.c:209-213 | The ring is published exactly when the stream of octets reaches the end of a turn. |
| `CanFrames.MarkerBytes` | can_scoket1.c:262-280 | Each marker test accepts exactly the frames that begin with its byte string. |
| `CanFrames.DecodeUndoes` | can_scoket1.c:182-182 | Removing the key gives back what the sender combined with it. |
| `KeyFrames.GetKey` | can_scoket1.c:310-359 | The loop leaves by its break if and only if some prefix of the stream completes a collection, at the first such prefix, and then the buffer is the concatenation of consecutive frames from a mode header to a tail, of exactly the message size. |
| `KeyFrames.CollectedIsComplete` | can_scoket1.c:323-358 | The first collection that reaches the message size is one complete mode message whose proper prefixes are all shorter. |
| `KeyFrames.CompleteIsCollected` | can_scoket1.c:323-358 | Conversely, a complete mode message that begins while nothing is being collected is collected to its end. |
| `KeyFrames.BegunExactly` | can_scoket1.c:323-358 | Which collection is in progress: exactly the one that a header began while none was and that has stayed short of the size, or ended on it with a tail; the frame that makes one fail begins no other. |
| `KeyFrames.BegunIsShort` | can_scoket1.c:331-357 | A collection in progress stays below the message size. |
| `KeyFrames.Append` | can_scoket1.c:338-343 | The received octets are put behind what is there; the rest of the buffer stays. |
| `NetlinkMessage.AddAttrL` | can_scoket2.c:272-292 | A successful append moves the length to the aligned end, writes header and data, and leaves every other byte; a failed one changes nothing; which of the two is decided by the room. |
| `NetlinkMessage.AddAttr32` | can_scoket2.c:251-270 | The same contract as `addattr_l` on the four bytes of the value. |
| `NetlinkMessage.IsAppendUnique` | can_scoket2.c:251-292 | That contract determines every byte, so the two append functions agree. |
| `NetlinkMessage.WithAttrFrames` | can-setup.cc:84-88 | The stores of an append move the length to the aligned end of the attribute, leave header and data there, and keep every other byte. |
| `NetlinkMessage.HeaderReadsBack` | can_scoket2.c:285-288 | A stored attribute reads back with its type and length if and only if both fit 16 bits. |
| `NetlinkMessage.AppendExtends` | can_scoket2.c:285-289 | An append to a message that encodes a list of attributes encodes the list with one more, and keeps the length aligned and inside the message. |
| `NetlinkMessage.AddAll` | can-setup.cc:71-91 | After any sequence of appends, some of which may fail, the message holds exactly those that found room, in order; bytes in front of them, the length apart, never change. |
| `NetlinkMessage.GreedyTakesAll` | can_scoket2.c:278-283 | When all fit, all are appended. |
| `NetlinkMessage.ParseRtattr` | can_scoket2.c:238-249 | On any byte region the walk ends; each entry below `max` is the last attribute of its type or null; entry `max` keeps its old value when there is none; higher types are ignored. |
| `Attributes.WalkStaysInside` | can_scoket2.c:242-248 | Every attribute visited lies with header and payload inside the region, on any bytes. |
| `Attributes.Find` | can_scoket2.c:238-249 | An entry found has the type asked for and lies inside the region. |
| `Attributes.FindIsLast` | can_scoket2.c:242-248 | On any bytes: an entry is the last attribute of its type that the walk visits, and there is none exactly when it visits none of that type. |
| `Attributes.WalkEncoded` | can_scoket2.c:242-248 | The walk over an encoding visits exactly its attributes, in order, in spite of padding. |
| `Attributes.FlatRoundTrip` | can_scoket2.c:238-292 | Parsing an encoding finds for each type the last attribute of that type with identical payload, or nothing if there is none. |
| `Attributes.LastPayloadMeans` | can_scoket2.c:243-245 | The same for a list of attributes. |
| `LinkRequest.ClosingNests` | can_scoket2.c:775-780 | Patching the two lengths turns the flat list of attributes into the nested sections. |
| `LinkRequest.OpenSections` | can_scoket2.c:748-754 | Before that, the section headers are empty attributes in front of the list. |
| `LinkRequest.WordsReadBack` | can_scoket2.c:763-773 | The 32-bit fields of a structure copied into an attribute read back as they were. |
| `LinkExchange.DoSetNlLink` | can_scoket2.c:710-781 | -1 exactly for an unknown interface or state. Else the request reads as a new-link message that asks for an acknowledgement, with the interface index, the up flag set exactly to bring the interface up, and that flag to be changed exactly when a state was asked for; with settings given it nests exactly the attributes they call for. |
| `LinkExchange.HeaderReads` | can_scoket2.c:717-744 | Every field of the headers, read back at its offset. |
| `LinkExchange.StartRequest` | can_scoket2.c:717-744 | The fixed headers of a request without attributes. |
| `LinkExchange.OpenLinkInfo` | can_scoket2.c:748-754 | The section openers, and where the two lengths to be patched lie. |
| `LinkExchange.AddRestartAttrs` | can_scoket2.c:756-761 | The restart attributes that were asked for, and no other. |
| `LinkExchange.AddCanAttrs` | can_scoket2.c:756-773 | All CAN attributes that were asked for, in order; none is ever dropped for lack of room. |
| `LinkExchange.CloseLinkInfo` | can_scoket2.c:775-780 | Both lengths end at the tail of the message. |
| `LinkExchange.AddLinkInfo` | can-setup.cc:251-287 | The whole link-info section. |
| `LinkExchange.ParseNested` | can_scoket2.c:158-159 | The payload of one attribute is parsed as a region. |
| `LinkExchange.ReadLink` | can_scoket2.c:540-574 | On any message the three parses find what the nested specification says, whatever the tables held before. |
| `LinkExchange.LinkInfoFound` | can_scoket2.c:543-553 | Outer level of a built request; the eight bytes of slack in the outer length do no harm, as zeros follow. |
| `LinkExchange.DataFound` | can_scoket2.c:551-574 | Middle level. |
| `LinkExchange.RequestKind` | can_scoket2.c:750-751 | The kind of a built request reads "can". |
| `LinkExchange.RequestCanWords` | can_scoket2.c:573-574 | Inner level: the last CAN attribute of each type. |
| `LinkExchange.PlainRequestView` | can_scoket2.c:551-555 | A request without settings reads as one without a link-info section. |
| `LinkExchange.UnpatchedView` | can_scoket2.c:568-580 | Until the two lengths are patched the data section is not found: the patch is needed. |
| `LinkExchange.NestedRoundTrip` | can_scoket2.c:746-781 | For all settings, parsing the built request at three levels gives restart delay, restart, bit timing and control mode exactly as set, and nothing for those not set. |
| `NetlinkReply.WalkReply` | can_scoket2.c:344-373 | On every datagram the walk ends and answers as the reply specification says, wrapped lengths included. |
| `NetlinkReply.FirstErrorDecides` | can_scoket2.c:357-370 | A reply with a complete error message is answered by the first one: 0 if and only if it is long enough and carries code 0. |
| `NetlinkReply.SuccessIsAcknowledged` | can_scoket2.c:357-369 | The answer is 0 only when an error message of at least 36 bytes with code 0 stands among the complete messages, or where a length wraps behind them. |
| `NetlinkReply.FailedReceive` | can_scoket2.c:344-354 | When recvmsg fails the answer is -1, unless a length wraps. |
| `NetlinkReply.NoErrorMessage` | can_scoket2.c:344-373 | Without a complete error message the answer is decided at the end of the complete messages, case by case: wait when less than a header is left; else stray outside the buffer, -1 inside it, and what the bytes say where a length wraps. |
| `NetlinkReply.StraysExactly` | can_scoket2.c:345-372 | Without an error message and a wrapped length, for any received length and for -1: stray if and only if the last message is not padded and the header behind it does not fit; wait if and only if less than a header is left; -1 in every other case. |
| `NetlinkReply.AlignedNeverStrays` | can_scoket2.c:344-373 | With a received length that is a multiple of 4, what is left is never negative: the walk waits or returns -1, unless a length wraps. |
| `NetlinkReply.StraysNearTheEnd` | can-setup.cc:114-161 | In the buffer of 16384 bytes only lengths above 16368 that are not multiples of 4 lead outside. |
| `NetlinkReply.UnpaddedMessageStrays` | can-setup.cc:134-161 | One complete message of 16381 to 16383 bytes that is not an error message does. |
| `DirPack.ListFiles` | c-fs-list.c:39-84 | For every tree and window: the count and size are those of the entries taken and the window shows the encoding as far as it fits. Honest truncation: the size is below the window exactly when the encoding of all regular files is, and then the window holds it and the count is their number; otherwise the window is filled with a prefix of it. Nothing outside the window changes; -errno and an empty listing when the directory does not open. |
| `DirPack.ListEntry` | c-fs-list.c:59-79 | The same for one entry, whose recursive call owns the room that is left. |
| `DirPack.Snprintf` | c-fs-list.c:61-61 | As much of a path as fits, closed by a NUL; the full length is returned. |
| `DirPack.CutPathIsParent` | c-fs-list.c:68-72 | Below a path of 254 characters the path buffer holds the path again. |
| `DirPack.ShowsMore` | c-fs-list.c:64-75 | Windows compose: what fits, followed by what the recursive call shows, shows the longer list. |
| `DirTree.HonestTruncation` | c-fs-list.c:47-83 | The returned size is below the buffer size exactly when the full encoding is, and then everything was taken; otherwise what was taken is a prefix of the encoding that fills the buffer. |
| `DirTree.TakeMore` | c-fs-list.c:58-80 | Sizes and counts of entries taken add up across the recursion, and stop at a full window. |
| `DirUnpack.ReadBack` | c-fs-list.c:169-174 | The loop yields exactly the paths in the buffer and counts each off once. |
| `DirUnpack.ListAndRead` | c-fs-list.c:165-175 | List, then read back, with a zeroed buffer one longer than the size: exactly the depth-first list of regular files, and a count of 0, when the encoding fits; the exact paths and count otherwise. |
| `DirUnpack.CutCount` | c-fs-list.c:61-65 | The entries counted are as many as the paths shown, plus one exactly when an entry begins on the last character. |
| `DirUnpack.CountSticks` | c-fs-list.c:165-175 | Two files and six characters: both are counted, one is read back. |
| `DirUnpack.WindowShowsCut` | c-fs-list.c:170-174 | Reading a full window stops exactly behind the paths it still shows. |
| `DirWalk.WalkDir` | c-fs-list.c:89-126 | The callback sees exactly the entries that are not hidden down to the given depth, in lexicographic order of their index paths, each with its type and full path in spite of the reused buffer; the result is the number of calls, or -errno. |
| `DirOrder.PreorderLists` | c-fs-list.c:110-122 | The visits are exactly those of the entries reached through at most `level` directories that are not hidden and open, each once with its type and full path, in lexicographic order of their index paths, a directory before its contents. |
| `DirOrder.LevelZero` | c-fs-list.c:115-115 | At level 0 exactly the entries of the first directory that are not hidden are visited. |
| `DirOrder.LevelCounts` | c-fs-list.c:110-122 | One directory that holds a file: one visit at level 0, two at level 1. |
| `DirWalk.PathBuffer` | c-fs-list.c:95-101 | The buffer holds the path with one separator, and has room for any entry name. |
| `DirWalk.WalkFindsFiles` | c-fs-list.c:39-126 | Walked deep enough, the callback sees exactly the regular files that the packed listing holds, in the same order. |

## Left out

- Sockets, `ioctl`, `sendmsg`, `recvmsg`, `opendir`, `readdir`, threads and printing: frames, datagrams and directory trees are inputs, the two threads of the receiver are interleaved steps, and the fatal exit of `xptr_assert` is a result.
- `wpa_client.c`, `can_scoket3.c`, `net.py`, shell scripts and notes: client plumbing over libraries that are not in the repository.
- `memalloc.c`: a simpler form of the large-block path of `memalloc.cc`.
- `decl.c`, `decl.cc`, `common.h`: macro-generated headers with one-step checks.
- `visionImu.h` is not part of this model: the record size is a parameter, a positive multiple of 8; `Check4Q` is an arbitrary predicate on the first record (its floating-point arithmetic is left out); a record is its octets, not its decoded fields; `char` counts as unsigned.
- `WaitImuReady`, `SetFilter` and the choice of the key from the mode message: only the collection of that message is modelled. When the stream ends first the original reads an unset key.
- KeyFrames.GetKey: requires a mode message of at least one octet; its size, from a header that is not part of this model, is the length of the buffer.
- GuardedHeap.Heap.Free: nothing is said about the heap after a pointer that is not live was accepted; the calls of the system allocator are not part of it.
- HeapRun.Run: the run ends where something goes astray. Refused accesses, which end the program, are answers here.
- GuardedHeap.Heap.MallocLarge: the system allocator is the choice of a region that overlaps neither the slots nor a live block; what becomes of blocks below the slots is not followed.
- GuardedHeap.Heap.constructor: the slot count is a parameter, and the heap lies above address 12; `_destroy` is left out.
- SlotRun.Run: whether an access through `UINTPTR_MAX` goes astray depends on the remembered slot, which the plain state does not have; it is stated exactly for one call (`SlotAllocator.Allocator.XptrValid`).
- SlotAllocator.Allocator.Write: an access that goes out of bounds has no effect here, since slots are records and not bytes.
- SlotTables: slots are records of their fields, not packed bytes, so the bit fields `not_used` and `bytes` are separate values; their address arithmetic (11 bytes a slot, value at offset 2) is kept.
- The `rptr` and `wptr` macros, which read a byte before the check, the `rdtsc` benchmarks and the disabled bit-set code.
- LinkExchange.ReadLink: one RTM_NEWLINK message; the comparison of the interface name, the choice of what to acquire, statistics, and the loop over messages and datagrams are left out. The sizes of the two outer tables are parameters above the types looked up.
- LinkExchange.DoSetNlLink: `if_nametoindex` is a parameter, 0 standing for an unknown name.
- NetlinkReply.WalkReply: one datagram; the loop over datagrams and the text of error messages are left out.
- NetlinkMessage.AddAttrL: requires the message's length to lie inside the buffer, and a buffer below 4 GiB, as every caller provides.
- DirPack.ListFiles: directory paths of 255 characters or more, which the fixed path buffer cuts, are excluded; the asserts on path and size are preconditions; counts do not overflow `int`; a symbolic link is an entry of another type and not followed.
- DirUnpack.ListAndRead: names contain no NUL, and the root opens.
- DirWalk.WalkDir: names have at most 255 characters, as `readdir` delivers them; the stack is large enough.
- Kernel behaviour behind netlink and CAN controller states.
