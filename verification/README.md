# Contiki-NG modules in Dafny

A model of the self-contained algorithmic modules of a Contiki-NG tree, each with the code in its own imperative form,
an independent definition of what it should compute, and the proof that connects the two for all inputs and, where
there is state, for all runs.

`dafny verify dfyconfig.toml` checks the whole project.

## The parts

- **Heap allocator** (`HeapLayout`, `HeapSteps`, `HeapObjects`, `HeapCodec`, `HeapMem`, `HeapViews`, `HeapExample`).
  Chunk headers lie in the arena's bytes; the code writes them there field by field and reads them back from there. How
  a platform lays out and represents the fields is arbitrary (`HeapCodec.Codec`). The invariant says that at every tile
  the bytes hold the header that the chunk is meant to have, ties the chunks that tile the footprint to the
  doubly-linked free list threaded through them, and survives every write of a client. `Heap.Run` shows that the
  allocator refines a store of objects that knows how large the pieces of free memory are, and refuses a request only if
  none of them holds it. Header size and alignment are parameters, the alignment dividing the header size. `HeapViews`
  says when bytes are no heap under any view.
- **SHA-256, HMAC, HKDF** (`HashSpec`, `Sha256Spec`, `Sha256`, `Sha256Agree`, `Sha256Constants`, `Sha256Words`,
  `Sha256Answer`, `Sha256Session`, `Sha256Runs`, `Hkdf`, `Sha256Source`). The structure is proved for any kind of words,
  and the 32-bit operations of the macros are then shown to be those of FIPS 180-4; `Sha256Source` puts both together
  for the driver as it is compiled. The tables are proved to be roots of the first primes, and the reference gives the
  published digest. The static checkpoint is a field of the driver; whole runs refine a machine that remembers messages.
- **Neighbour table** (`NbrSpec`, `NbrLists`, `NbrView`, `NbrTable`, `NbrRuns`). Bitmaps, block pool and linked key list
  refine a list of neighbours with the sets of tables that use and lock them.
- **6P scheduling function** (`SixpSpec`, `SixpEffect`, `SixpCells`, `SixpNode`). Two nodes and the network between them
  as a state machine, with an inductive relation between the two schedules; what a transaction does to each of them is
  stated link by link. A request carries any list of candidates. The lists of cells in responses are built in the
  responder's storage as the code does it, for any number of cells.
- **CCM\*, AES-128** (`CcmSpec`, `CcmFormat`, `Ccm`, `AesSpec`, `AesField`, `AesBytes`, `AesSbox`, `AesAnswer`, `Aes`,
  `CcmAes`, `AesSource`). CCM\* is proved for every block cipher, AES for all operations that obey the laws of the
  field, and both are put together. The formatting is injective, and AES enciphers the example of FIPS 197 as published.
- **Trickle timers** (`TrickleConfig`, `Trickle`). The wrapping clock is seen through the unbounded true time, which is
  ghost: the timer itself is only shown what its clock shows. Whole runs refine a timer in true time.
- **SLIP** (`SlipSpec`, `SlipPoll`, `SlipSecond`, `Slip`), **ring buffer and serial line** (`SerialSpec`,
  `SerialLine`), **CRC-16** (`ShiftRegister`, `CrcSpec`, `Crc16`), and shared arithmetic (`Arith`, `Bits`,
  `ByteFacts`).

The source's pointers to chunks and items are offsets and indices, and NULL is -1. Time, random numbers, the candidates
of a 6P request, the outcome of a transmission and the order of interrupts are inputs of the model. Where several fields
of a structure change at once in the source, the model may keep them in one record or sequence that is reassigned.

## Where the code and its documentation differ

- IN_HEAP of heapmem is meant to say whether a pointer lies in the footprint. It has no parentheses around it, so that
  `!IN_HEAP(ptr)` refuses exactly NULL and addresses below the arena (`HeapViews.GuardRefuses`). heapmem_free and
  heapmem_realloc go on with a pointer at or behind the footprint and look at the flags that lie there. For
  heapmem_free, the heap stays as it is iff these bytes say that no chunk is allocated there, and otherwise there is no
  heap left, whatever one takes for its chunks (`HeapMem.Heap.Free`, `HeapMem.Heap.FreeBehind`); heapmem_realloc
  distinguishes more cases (`HeapMem.Heap.Realloc`). An input, in an arena of 64 bytes with headers of 16 and an
  alignment of 8: b = alloc(8), c = alloc(8), free(c), free(b), d = alloc(32), d[20] = 1, free(d), free(c)
  (`HeapExample.FreedTwice`, `HeapExample.FreedTwiceIn64`).
- The header of sha-256 allows 255 blocks of HKDF output. The loop index has eight bits, so the loop ends iff at most
  254 blocks are asked for (`Hkdf.ExpandTerminates`); for 255 all of the output has been written after 255 turns, but
  the loop begins again (`Hkdf.Expand`).
- SHA-256 counts bits with `len << 3` in size_t. On platforms where this wraps, the padding is the standard's iff no
  single update is that long (`Sha256Runs.PaddingExactly`).
- The comment on remove_chunk_from_free_list says that the chunk is marked as allocated; it is not, and the model
  follows the code with a chunk that is neither listed nor marked for a moment.
- slip_poll_handler says that one more packet is buffered when it finds an END behind the packet it removes. What comes
  out of the next poll is a properly escaped second packet iff it is not led by an END and finds room
  (`SlipSecond.SecondFound`, with the case where an old END happens to lie in the right place). All that slip_write
  sends is led by an END, which is what the poll finds: nothing is delivered (`SlipSecond.SecondPacketNotFound`). So the
  round trip of packets is stated for polling one by one.
- slip_poll_handler checks the room in the buffer before each character, against "more than blen". A packet comes out as
  it was sent iff it has at most blen + 1 bytes (`SlipPoll.PolledPacket`). A longer one is dropped if it lies in one
  piece; if it goes around the end of the ring, what lies behind may come out as a packet (`SlipPoll.TailComesOut`).
- Moving a cell leaves a node's number of links as it is iff the accepted candidate lies inside the slotframe exactly
  when there is a link at the cell to be moved once the candidate is added (`SixpSpec.RelocateConserves`). The code
  accepts candidates beyond the slotframe, and does not ask whether there is a link at the cell to be moved: a request
  for one that is not scheduled adds a link at both nodes (`SixpSpec.UnscheduledMoveAdds`).
- The lists of cells in 6P responses are written with offsets in bytes that are advanced by one for each cell, or not at
  all. The response to an ADD or RELOCATE for more than one cell lists the cells that were accepted iff nothing but
  zeros follows the first byte (`SixpCells.OfferListed`); a DELETE for more than one cell deletes the last one that is
  scheduled and the cell (0, 0) (`SixpCells.DeletesLast`). Both nodes read the same list.
- max_imax of the trickle timer is documented for clocks of 16 and 32 bits. The tree's clock has 32 or 64. With 64 bits
  its result is wrong iff Imin - 1 has a bit from 48 on and none from 32 to 47 (`TrickleConfig.MaxImax`); an input is
  Imin = 2^48 + 1 and Imax = 16 (`Trickle.MisjudgedExample`).
- trickle_timer_config rejects k = 0, although the header names 0 as the value that turns suppression off. Its comment
  allows Imin up to one more than half the clock's range; the macro does not. The header says that a suppressed
  callback is not called; the code calls it with a flag.

## Assumptions

- heapmem: a pointer into the footprint that is passed to free or realloc was handed out as the pointer of a chunk that
  still exists, live or not, as the source's comment demands. A pointer behind the footprint has its header inside the
  arena.
- nbr-table: callbacks do not call the table, the policy is the default one, and a table is registered before it is
  used. Locking an item keeps the table in order iff the item is null or its key is listed (`NbrTable.NbrTable.LockItem`);
  runs lock only such items.
- 6P: one transaction at a time between the two nodes; the status "sent" means that the response was delivered; the
  responder's callback comes before its next request.
- CCM\*: associated data of at most 0xfeff bytes, as the header says.
- Trickle: a ctimer's call comes after its time and less than half the clock's range after the end of the interval;
  i_max + 1 is less than the clock's width, since C does not define larger shifts.
- SLIP: a buffer given to the poll handler for blen bytes has room for one more if the packet is longer than blen.
- Serial line: the steps of put and get on bytes and pointers are atomic, as the source's comment says.

## Model

| member | source | states |
|---|---|---|
| `HeapMem.Heap.Run` | os/lib/heapmem.c:385-638 | in every run of alloc, calloc, free, realloc, client writes and stats, with every header in the bytes of the arena, the chunks tile the footprint, the free list holds exactly the unallocated tiles, and every step is a step of an abstract store in which no request changes an object it does not name, an admitted request is refused only if no piece of the free memory that is searched holds it, and the high-water mark is the highest footprint |
| `HeapMem.Heap.Serve` | os/lib/heapmem.c:385-638 | one request keeps the whole invariant, the headers in the bytes included, and is one step of that store |
| `HeapMem.Heap.NoRoomSpare` | os/lib/heapmem.c:297-331 | the pieces of free memory that the store knows, the free chunks that are searched and the unused end, hold a request iff an allocation finds a place for it |
| `HeapMem.Heap.Alloc` | os/lib/heapmem.c:390-432 | success adds exactly one object, aligned, of at least the rounded size and at most a header more; failure changes no object, the footprint grows only if no searched free chunk fits, and an admitted request of a legal size fails only if the unused end cannot hold it either |
| `HeapMem.Heap.Free` | os/lib/heapmem.c:449-474 | for a pointer below the footprint's end: true iff its object is live, exactly that object disappears, a second free does nothing; behind the footprint: heap and objects stay as they are iff the flags there are clear, and otherwise the bytes are no heap under any view |
| `HeapMem.Heap.FreeBehind` | os/lib/heapmem.c:207-223 | free_chunk for a chunk behind the footprint, in both its branches, leaves no heap |
| `HeapViews.GuardRefuses` | os/lib/heapmem.c:182-185 | the guard as it expands refuses exactly NULL and addresses below the arena, which is what is meant iff the pointer lies below the footprint's end |
| `HeapExample.FreedTwice` | os/lib/heapmem.c:449-474 | for every representation of headers, header size and alignment: a sequence of correct calls and writes after which a second free of a freed object is not refused and leaves no heap |
| `HeapViews.NoHeapWhenListed` | os/lib/heapmem.c:158-185 | if the free list begins behind the footprint, the bytes are no heap, whatever set of chunks one takes |
| `HeapViews.NoHeapWhenShorter` | os/lib/heapmem.c:158-185 | nor if the footprint ends where the bytes of some chunk begin to count |
| `HeapViews.TilesAreForced` | os/lib/heapmem.c:107-111 | the sizes in the bytes leave no choice of tiles |
| `HeapMem.Heap.Realloc` | os/lib/heapmem.c:498-591 | each outcome of the call: the object keeps its first min(old, new) bytes wherever it ends up, a failed call with non-zero size leaves it live and intact, size zero frees it, it stays where it is iff it fits there, and an admitted request fails only for want of room; behind the footprint nothing happens iff the flags there are clear, the size is refused, or the marked chunk stays as it is, and otherwise no heap is left |
| `HeapMem.Heap.ReallocBehind` | os/lib/heapmem.c:511-546 | the chunk behind the footprint is left alone iff it is not split; if it is, no heap is left |
| `HeapMem.Heap.Resize` | os/lib/heapmem.c:537-591 | the pointer stays the same iff the chunk, the unused end behind the last chunk or the free chunks right behind it have the room; otherwise the object moves with all its bytes |
| `HeapMem.Heap.ShrinkInPlace` | os/lib/heapmem.c:540-546 | a chunk is split into two aligned tiles exactly when the rest can hold a header and a byte; no other object loses a byte, and the kept part of this one stays |
| `HeapMem.Heap.GrowLast` | os/lib/heapmem.c:549-559 | the last object grows at its place iff the arena has the difference left, and keeps its bytes |
| `HeapMem.Heap.GrowInPlace` | os/lib/heapmem.c:549-574 | growing in place succeeds iff the unused end, for the last object, or the run of free chunks behind it has the room; all old bytes stay either way |
| `HeapMem.Heap.MoveObject` | os/lib/heapmem.c:582-590 | the new object begins with all bytes of the old one, which is freed; nothing else changes |
| `HeapMem.Heap.Calloc` | os/lib/heapmem.c:600-615 | an admitted request of any number of elements that fits the arena is refused only if no searched free chunk and no unused end holds the product; success adds one object of at most a header more, implies that the product did not wrap, and all its bytes are zero |
| `HeapObjects.CheckedProductIsExact` | os/lib/heapmem.c:603-608 | the division check after the multiplication rejects exactly the products that do not fit size_t |
| `HeapMem.Heap.Stats` | os/lib/heapmem.c:619-638 | no two adjacent chunks are free afterwards; allocated bytes are those of the live objects, and allocated + overhead + available + one header for each remaining free chunk is the arena size |
| `HeapMem.Heap.ExtendSpace` | os/lib/heapmem.c:190-203 | gives out the old end of the footprint iff the arena has room; the high-water mark never falls |
| `HeapMem.Heap.RemoveChunkFromFreeList` | os/lib/heapmem.c:228-242 | the list stays correctly linked both ways without the chunk, whether it was first, last or between |
| `HeapMem.Heap.FreeChunk` | os/lib/heapmem.c:207-223 | the last chunk returns to the unused end, any other becomes the head of a correctly linked list |
| `HeapMem.Heap.SplitChunk` | os/lib/heapmem.c:250-263 | the chunk keeps its rounded size and the rest becomes a free tile exactly when it can hold a header and a byte; other objects stay |
| `HeapMem.Heap.CoalesceChunks` | os/lib/heapmem.c:268-277 | the chunk reaches exactly to the end of the run of free chunks behind it; no object is touched |
| `HeapMem.Heap.DefragChunks` | os/lib/heapmem.c:282-292 | if the list has at most CHUNK_SEARCH_MAX entries, every free chunk is afterwards followed by an allocated one or the end |
| `HeapMem.Heap.FindBest` | os/lib/heapmem.c:299-324 | the result is a smallest fitting chunk among the first CHUNK_SEARCH_MAX entries, and NULL iff none of them fits |
| `HeapMem.Heap.GetFreeChunk` | os/lib/heapmem.c:297-331 | a best fit among the searched entries of the defragmented list, cut to at most the rounded request plus a header |
| `HeapLayout.AlignIsLeast` | os/lib/heapmem.c:104-105 | ALIGN is the least multiple of the alignment that is not below its argument |
| `HeapLayout.WalkVisitsEveryTile` | os/lib/heapmem.c:107-111 | following NEXT_CHUNK from a tile meets every tile from there on exactly once, in address order |
| `HeapLayout.WalkLandsOnUsage` | os/lib/heapmem.c:107-111 | each step of that walk leads to the next tile and the last one lands exactly on heap_usage |
| `HeapLayout.PayloadsDisjoint` | os/lib/heapmem.c:158-185 | payloads of different tiles are disjoint from each other and from every header |
| `HeapCodec.RecordedStore` | os/lib/heapmem.c:158-181 | a header written at its place is read back from the bytes, every other header stays what it is, and no byte outside changes |
| `HeapCodec.RecordedBeside` | os/lib/heapmem.c:158-181 | bytes written clear of the headers, by a client, memset or memcpy, leave all headers what they are |
| `HeapCodec.SizeWritten` | os/lib/heapmem.c:165-175 | one field of a header, written alone, is read back and leaves the others |
| `HeapLayout.FreeListIsAcyclic` | os/lib/heapmem.c:158-181 | next reaches NULL after exactly as many steps as there are entries, never repeats one, and prev leads back to the head |
| `HeapLayout.FreeListIsComplete` | os/lib/heapmem.c:158-181 | the list reaches a chunk iff it is an unallocated tile |
| `HeapLayout.SettledMeansNoAdjacentFree` | os/lib/heapmem.c:265-292 | if every listed chunk was coalesced, no two free chunks are neighbours in memory |
| `HeapSteps.SplitLaid` | os/lib/heapmem.c:250-263 | splitting a tile keeps tiling, alignment and free list consistent, also at the end of the footprint |
| `HeapSteps.MergeLaid` | os/lib/heapmem.c:268-277 | merging two tiles keeps all three |
| `HeapSteps.FreedLaid` | os/lib/heapmem.c:207-223 | freeing a tile keeps all three, whether the footprint shrinks or the list grows |
| `Sha256Runs.Run` | os/lib/sha-256.c:223-391 | every legal sequence of init, update, finalize, hash, HMAC calls and checkpoint saves and restores hands out the digests and tags of a machine that only remembers messages |
| `Sha256Runs.DigestOfPieces` | os/lib/sha-256.c:255-328 | however a message below 2^61 bytes is cut into updates, finalize gives the digest of the whole message |
| `Sha256Runs.HmacOfPieces` | os/lib/sha-256.c:352-391 | the stepwise HMAC gives HMAC of the concatenated pieces for every key, longer than a block or not |
| `Sha256Runs.DetourReturns` | os/lib/sha-256.c:331-340 | after saving, any calls at all and restoring, the session and its outer pad are what they were |
| `Sha256Runs.CountedExactly` | os/lib/sha-256.c:274-282 | the 64-bit count is the true length in bits iff size_t can hold the bit length of every piece |
| `Sha256Runs.PaddingExactly` | os/lib/sha-256.c:274-282 | so the padding mixed in is that of FIPS 180-4 section 5.1.1 iff no piece overflows len << 3 |
| `Sha256Transform.Transform` | os/lib/sha-256.c:163-220 | the transform with rotating register roles and a schedule computed sixteen words at a time is the compression function of section 6.2.2, for every state and block |
| `Sha256Transform.RoundInPlace` | os/lib/sha-256.c:137-149 | writing two registers in place is a full rotation of the eight working variables |
| `Sha256Transform.RoundOnIsRound` | os/lib/sha-256.c:137-149 | read in the roles of the next use, the registers after the macro are one round of section 6.2.2, although the source adds in another order |
| `Sha256Transform.RoundRotating` | os/lib/sha-256.c:137-149 | the compound assignments compute that although each overwrites a register that the next one reads |
| `Sha256Transform.RolesReturn` | os/lib/sha-256.c:177-193 | after sixteen rounds every register plays its first role again |
| `Sha256Transform.MixBlock` | os/lib/sha-256.c:176-214 | the loop that leaves after its fourth pass does all 64 rounds of the reference |
| `Sha256Transform.NextSchedule` | os/lib/sha-256.c:151-154 | MSCH sixteen times extends a correct schedule by sixteen correct words, in place |
| `Sha256Words.SameChoice` | os/lib/sha-256.c:127-129 | the rewritten Ch and Maj are those of section 4.1.2 on all words |
| `Sha256Words.SameSigmas` | os/lib/sha-256.c:131-135 | the shift-and-or sigmas are the rotations of section 4.1.2 |
| `Sha256Words.MacrosGiveSha256` | os/lib/sha-256.c:108-154 | with the macros and constants of the source, the digest of every message is SHA-256, with the constants of `Sha256Words.FipsConstants` |
| `Sha256Words.MacrosGiveHmac` | os/lib/sha-256.c:128-154 | and every tag is HMAC-SHA-256 |
| `Sha256Constants.RoundConstants` | os/lib/sha-256.c:108-125 | with p the t-th prime and c the integer part of its cube root, (2^32 c + K[t])^3 <= p 2^96 < (2^32 c + K[t] + 1)^3 for all 64 entries (FIPS 180-4 section 4.2.2) |
| `Sha256Constants.InitialValues` | os/lib/sha-256.c:255-270 | the same with square roots for the initial hash value (section 5.3.3) |
| `Sha256Constants.FirstPrimes` | os/lib/sha-256.c:108-125 | the 64 numbers used are in order, and they are all primes up to 311 |
| `Sha256Words.FipsConstants` | os/lib/sha-256.c:108-125 | so the reference has the constants of FIPS 180-4 |
| `Sha256Words.EncodedWord` | os/lib/sha-256.c:53-71 | a word that is written out and read back is the same |
| `HashSpec.BigEndianValue` | os/lib/sha-256.c:63-77 | the bytes of a length, as a number to the base 256, are the length |
| `Sha256Answer.DigestOfAbc` | os/lib/sha-256.c:108-251 | the reference, worked out for "abc" round by round, gives the digest ba7816bf...f20015ad that is published for it |
| `Sha256Source.Run` | os/lib/sha-256.c:108-391 | every legal sequence of calls on the driver with the source's macros hands out FIPS SHA-256 digests and HMAC-SHA-256 tags of what was put in |
| `Sha256Source.Sha256Of` | os/lib/sha-256.c:223-345 | the digest of a message is its SHA-256 |
| `Sha256Source.HmacSha256Of` | os/lib/sha-256.c:394-405 | the tag is HMAC-SHA-256 for every key |
| `Sha256Source.HkdfSha256Of` | os/lib/sha-256.c:440-448 | extraction and expansion give the HKDF-SHA-256 output of RFC 5869 |
| `Sha256Session.Sha256.Init` | os/lib/sha-256.c:255-270 | a fresh session stands for the empty message, whatever was before |
| `Sha256Session.Sha256.Update` | os/lib/sha-256.c:274-310 | a session that stands for m stands for m followed by the data afterwards, with fewer than 64 bytes buffered |
| `Sha256Session.Sha256.Pad` | os/lib/sha-256.c:224-251 | the one or two blocks mixed in are the rest of the message and its padding |
| `Sha256Session.Sha256.Finalize` | os/lib/sha-256.c:317-328 | the digest is that of everything taken in; buffer and hash value are cleared |
| `Sha256Session.Be64IsBigEndian` | os/lib/sha-256.c:63-77 | the two nested word encodings write the count in big-endian order |
| `Sha256Session.Sha256.HmacInit` | os/lib/sha-256.c:352-374 | the inner pad is taken in and the outer pad stored, for keys of every length |
| `Sha256Session.Sha256.HmacFinish` | os/lib/sha-256.c:383-391 | the tag is the outer hash over the stored pad and the inner digest; the pad is cleared |
| `Hkdf.HmacOnce` | os/lib/sha-256.c:394-410 | sha_256_hmac and hkdf_extract give HMAC as in section 2 of RFC 2104 |
| `Hkdf.ExpandBlock` | os/lib/sha-256.c:424-431 | one pass computes T(i) of section 2.3 of RFC 5869 from T(i-1) |
| `Hkdf.Expand` | os/lib/sha-256.c:412-437 | after every number of turns, up to 255, that many blocks of T(1) T(2) ... are written as far as they are asked for, and no byte behind them; the loop has ended iff all are done and there are at most 254 |
| `Hkdf.ExpandTerminates` | os/lib/sha-256.c:417-424 | the loop over an 8-bit index ends iff at most 254 blocks are asked for |
| `Hkdf.ExtractAndExpand` | os/lib/sha-256.c:440-448 | extraction and expansion in one call, for every length |
| `NbrRuns.Run` | os/net/nbr-table.c:393-503 | every legal run of add, get, remove, lock, unlock, clear and walks over the bitmaps, the pool and the key list does and returns what a plain list of neighbours with their sets of tables does |
| `NbrRuns.LockedStays` | os/net/nbr-table.c:238-292 | in every run a neighbour locked by a table keeps its item until that lock is released: it is never evicted |
| `NbrTable.NbrTable.AddLladdr` | os/net/nbr-table.c:393-446 | an address already listed gets one more table; a new one takes the lowest free block, or the block of the evicted neighbour, and exactly one used bit; if all are locked nothing changes; the item is cleared |
| `NbrSpec.AddEntryOnRelation` | os/net/nbr-table.c:393-446 | in terms of pairs of address and table: the new pair comes in, all pairs of the evicted address go, every other pair and every lock stays |
| `NbrSpec.VictimIsFirstLeastUsed` | os/net/nbr-table.c:205-265 | the victim is the first unlocked neighbour with the fewest using tables, and there is none iff every neighbour is locked |
| `NbrTable.NbrTable.SelectForRemoval` | os/net/nbr-table.c:239-265 | the pairwise comparison loop finds that neighbour |
| `NbrTable.NbrTable.GetWorst` | os/net/nbr-table.c:224-227 | of two neighbours the second only if it is used by fewer tables |
| `NbrTable.NbrTable.UsedCount` | os/net/nbr-table.c:206-221 | the shifting loop counts the tables that use an address, 0 if it is not listed |
| `NbrTable.NbrTable.EntryIsAllowed` | os/net/nbr-table.c:268-292 | an address is refused exactly when adding it would find neither entry, block nor victim |
| `NbrTable.NbrTable.Allocate` | os/net/nbr-table.c:302-321 | the block is the first free one of the pool, or the victim's after its callbacks |
| `NbrTable.NbrTable.RemoveKey` | os/net/nbr-table.c:169-190 | the neighbour and all its bits disappear and the callbacks of its tables are made |
| `NbrSpec.CallsAre` | os/net/nbr-table.c:169-180 | a callback is made for a table iff it uses the neighbour and has one |
| `NbrSpec.CallsOnce` | os/net/nbr-table.c:169-180 | and for each table once |
| `NbrTable.NbrTable.GetFromLladdr` | os/net/nbr-table.c:450-454 | the item iff the address is listed and used by this table |
| `NbrTable.NbrTable.IndexFromLladdr` | os/net/nbr-table.c:120-136 | the search over the linked keys finds the block of an address, also of the null address |
| `NbrTable.NbrTable.RemoveItem` | os/net/nbr-table.c:458-463 | one table no longer uses or locks one neighbour, in the sense of `NbrSpec.MarkOnRelation`; its key stays listed |
| `NbrTable.NbrTable.LockItem` | os/net/nbr-table.c:467-474 | one table locks one neighbour, nothing else changes; the table stays in order iff the item is null or its key is listed |
| `NbrView.StrayBit` | os/net/nbr-table.c:467-474 | a bit set in the block of no listed key is not undone by any view |
| `NbrTable.NbrTable.UnlockItem` | os/net/nbr-table.c:478-485 | one table no longer locks one neighbour, in the same sense, and nothing else changes |
| `NbrSpec.MarkOnRelation` | os/net/nbr-table.c:458-485 | in terms of pairs of address and table: remove takes the pair of this neighbour and table out of the uses and the locks, lock adds it to the locks, unlock takes it out of the locks, and every other pair stays in both |
| `NbrTable.NbrTable.Clear` | os/net/nbr-table.c:496-503 | all neighbours go, first to last, each with its callbacks |
| `NbrSpec.ClearCallsAre` | os/net/nbr-table.c:496-503 | the callbacks made are those of every neighbour for every table that uses it and has one, and no others |
| `NbrTable.NbrTable.Register` | os/net/nbr-table.c:326-351 | a table keeps its index for good; at most as many as the bitmaps have room for; registering again only changes the callback |
| `NbrTable.NbrTable.Head` | os/net/nbr-table.c:366-376 | the first member of the table in list order |
| `NbrTable.NbrTable.Next` | os/net/nbr-table.c:380-389 | the next member in list order |
| `NbrTable.NbrTable.Walk` | os/net/nbr-table.c:366-389 | a walk that removes any of the members while they are current still visits each member once and ends; exactly the chosen ones are removed |
| `NbrSpec.WeededOnRelation` | os/net/nbr-table.c:366-389 | in terms of pairs, such a walk takes away exactly those of the chosen neighbours and this table |
| `NbrSpec.MembersAre` | os/net/nbr-table.c:366-389 | what is enumerated is exactly the neighbours that the table uses |
| `NbrSpec.MembersOnce` | os/net/nbr-table.c:366-389 | each of them once |
| `NbrTable.NbrTable.CountEntries` | os/net/nbr-table.c:193-203 | the number of neighbours that some table uses |
| `NbrTable.NbrTable.GetLladdr` | os/net/nbr-table.c:489-493 | the address of a listed item |
| `NbrBits.WriteBit` | os/net/nbr-table.c:152-166 | writing a bit adds or takes away exactly one table |
| `NbrBits.CountTables` | os/net/nbr-table.c:206-221 | counting by shifting gives the number of set bits |
| `NbrLists.KeyPool.Add` | os/lib/list.c:71-87 | the pointers lead through the old elements in their order and then to the new one |
| `NbrLists.KeyPool.Remove` | os/lib/list.c:134-157 | the pointers lead through the other elements in their order; an item that is not listed changes nothing |
| `NbrLists.KeyPool.Tail` | os/lib/list.c:57-68 | the last element of the chain |
| `NbrLists.KeyPool.Alloc` | os/lib/memb.c:59-75 | the first block that is not taken, or none iff all are |
| `NbrLists.KeyPool.Free` | os/lib/memb.c:78-98 | 0 iff the block was in the pool and taken |
| `NbrLists.KeyPool.NumFree` | os/lib/memb.c:108-120 | the number of blocks that are not taken |
| `SixpSpec.RunsAreSafe` | examples/ba_benjamin_ko/sf-simple.c:89-581 | in every run with arbitrary candidates, lost requests and lost responses and either order of commits, both nodes have one link per timeslot at all times, the initiator occupies only what the responder occupies or the transaction under way names, and until one of them commits the two schedules mirror each other |
| `SixpSpec.NothingEvicted` | examples/ba_benjamin_ko/sf-simple.c:105-121 | although the initiator never looks at its schedule, no commit of an added cell finds its timeslot occupied |
| `SixpSpec.StepKeeps` | examples/ba_benjamin_ko/sf-simple.c:89-581 | the inductive relation between the two schedules, step by step |
| `SixpSpec.CommitBoth` | examples/ba_benjamin_ko/sf-simple.c:515-581 | a transaction that both nodes commit leaves the initiator's cells for sending equal to the responder's for receiving |
| `SixpSpec.CommitAdd` | examples/ba_benjamin_ko/sf-simple.c:89-122 | a cell free at the responder is free at the initiator, and adding it takes no link away at either node |
| `SixpSpec.RelocateConserves` | examples/ba_benjamin_ko/sf-simple.c:375-458 | for every cell, scheduled or not, and at both nodes: a move keeps the number of links iff the accepted candidate lies inside the slotframe exactly when there is a link at the cell to be moved once the candidate is added |
| `SixpSpec.ScheduledMove` | examples/ba_benjamin_ko/sf-simple.c:375-458 | for a scheduled cell: iff the accepted candidate lies inside the slotframe |
| `SixpSpec.UnscheduledMoveAdds` | examples/ba_benjamin_ko/sf-simple.c:375-458 | an input: moving a cell that is not scheduled adds a link at both nodes |
| `SixpEffect.DeleteDelivered` | examples/ba_benjamin_ko/sf-simple.c:154-227 | after a delivered DELETE of a scheduled cell that both nodes commit, in either order, the cell is scheduled at neither; at each node exactly the link at it is gone and every other link is where it was |
| `SixpEffect.ScheduledAtBoth` | examples/ba_benjamin_ko/sf-simple.c:154-227 | with the schedules in step, as `SixpSpec.RunsAreSafe` keeps them, every link of the initiator has a partner at the responder, to which these laws apply |
| `SixpEffect.AddDelivered` | examples/ba_benjamin_ko/sf-simple.c:154-227 | after a delivered ADD of a cell of the slotframe each node has one link more, there, for sending and for receiving, and all the old ones where they were |
| `SixpEffect.RelocateDelivered` | examples/ba_benjamin_ko/sf-simple.c:154-227 | after a delivered RELOCATE of a scheduled cell to a cell of the slotframe exactly the link at the old cell is gone and one at the new cell has come in, at both nodes |
| `SixpEffect.DeliveredCommits` | examples/ba_benjamin_ko/sf-simple.c:497-581 | a request that is answered and not lost ends with the commits of both nodes, whichever comes first |
| `SixpEffect.LostChangesNothing` | examples/ba_benjamin_ko/sf-simple.c:154-227 | a lost request, an unanswered one and a lost response leave both schedules as they were |
| `SixpEffect.FirstFreeFirst` | examples/ba_benjamin_ko/sf-simple.c:230-303 | the cell that a responder offers is the first candidate in a timeslot that is free for it |
| `SixpCells.OfferListed` | examples/ba_benjamin_ko/sf-simple.c:263-291 | the cells that both nodes read in the response are those that were accepted iff it is one, or nothing but zeros follows the first byte |
| `SixpCells.OneOffered` | examples/ba_benjamin_ko/sf-simple.c:229-304 | for one cell the response is that of the state machine |
| `SixpCells.DeletionListed` | examples/ba_benjamin_ko/sf-simple.c:344-372 | the cells in the response to a DELETE are those that are scheduled iff it is at most one, or all are (0, 0) |
| `SixpCells.DeletesLast` | examples/ba_benjamin_ko/sf-simple.c:306-373 | of more than one, the last is deleted, and the cell (0, 0) |
| `SixpSpec.StartInStep` | examples/ba_benjamin_ko/child.c:130-137 | the schedules that the example sets up by hand are in step |
| `SixpNode.Pair.Run` | examples/ba_benjamin_ko/sf-simple.c:89-581 | the two nodes, run by their handlers and callbacks, go through exactly these states |
| `SixpNode.Pair.Handle` | examples/ba_benjamin_ko/sf-simple.c:89-581 | one event of a node or of the network between them |
| `SixpNode.Node.AddReqInput` | examples/ba_benjamin_ko/sf-simple.c:229-304 | for any number of cells the first so many candidates in free timeslots are offered, as the storage holds them, and no response is sent iff there are fewer |
| `SixpNode.Node.DeleteReqInput` | examples/ba_benjamin_ko/sf-simple.c:306-373 | the cells at which there is a link are put into the storage, for any number of cells; the list is empty iff there is none |
| `SixpNode.Node.RelocateReqInput` | examples/ba_benjamin_ko/sf-simple.c:375-458 | as for ADD; the cell to be moved is remembered iff a response is sent |
| `SixpNode.Node.RequestInput` | examples/ba_benjamin_ko/sf-simple.c:477-494 | the three requests for one cell, with the fall-through after the last without effect, give the responses of the state machine |
| `SixpNode.Node.ResponseSent` | examples/ba_benjamin_ko/sf-simple.c:154-227 | the responder changes its schedule iff the response was sent, and then by the commit that `SixpEffect` describes link by link |
| `SixpNode.Node.ResponseInput` | examples/ba_benjamin_ko/sf-simple.c:497-581 | the initiator changes its schedule by the commit of the same cells, with links for sending |
| `SixpNode.Node.AddLinksToSchedule` | examples/ba_benjamin_ko/sf-simple.c:89-122 | only the first cell that is not marked unused is added |
| `SixpNode.Node.RemoveLinksFromSchedule` | examples/ba_benjamin_ko/sf-simple.c:125-152 | every cell of the list is removed |
| `SixpNode.Node.CellToDelete` | examples/ba_benjamin_ko/sf-simple.c:702-727 | the cell given up is the earliest one for sending to this peer on channel offset 0 |
| `SixpNode.Node.LinkByTimeslot` | os/net/mac/tsch/tsch-schedule.c:393-410 | the first link in a timeslot |
| `SixpNode.Node.LinkByOffsets` | os/net/mac/tsch/tsch-schedule.c:371-389 | the first link at a cell, none iff there is no link at it |
| `SixpNode.Node.RemoveByOffsets` | os/net/mac/tsch/tsch-schedule.c:346-366 | all links at a cell go while the list is traversed, and the result says whether there was one |
| `SixpNode.Node.AddLinkAt` | os/net/mac/tsch/tsch-schedule.c:216-290 | what occupies the timeslot goes first, also if no link can be had in its place; a timeslot outside the slotframe changes nothing |
| `SixpEffect.AddLinkReplaces` | os/net/mac/tsch/tsch-schedule.c:216-290 | a link that is added inside the slotframe takes the place of exactly the one in its timeslot |
| `Ccm.CcmStar.ComputeMic` | os/lib/ccm-star.c:86-132 | for every cipher, nonce, message of up to 65535 and data of up to 0xfeff bytes, the chaining of bytes in place is the encrypted CBC-MAC over the formatted, zero-padded blocks of sections 2.2 and 2.3 of RFC 3610 |
| `Ccm.CcmStar.ForwardAndBack` | os/lib/ccm-star.c:151-176 | decrypting after encrypting gives the message back in place and the same MIC |
| `Ccm.CcmStar.Aead` | os/lib/ccm-star.c:151-176 | the MIC is that of the plaintext in both directions; for an invalid MIC length nothing happens |
| `Ccm.CcmStar.CtrInPlace` | os/lib/ccm-star.c:135-142 | every byte is combined with its own key stream byte and the 16-bit counter never wraps |
| `Ccm.CcmStar.CtrStep` | os/lib/ccm-star.c:70-83 | sixteen bytes or what is left of the message, and no byte outside |
| `Ccm.CcmStar.SetIv` | os/lib/ccm-star.c:57-66 | flags, nonce and a 16-bit field, the more significant byte first, which the field can be read back from (`CcmFormat.TwoBytesTell`) |
| `CcmFormat.TwoBytesTell` | os/lib/ccm-star.c:64-65 | the two bytes, the first one times 256, are the number |
| `CcmFormat.StreamBlocksDiffer` | os/lib/ccm-star.c:69-83 | no two counters below 2^16 give the same block for the key stream |
| `CcmFormat.FirstBlockDiffers` | os/lib/ccm-star.c:86-94 | and none of them is the block with which a MAC begins |
| `CcmFormat.FormattedTells` | os/lib/ccm-star.c:86-127 | the blocks over which the MAC is computed determine the nonce, the message, the associated data and the MIC length |
| `Ccm.CcmStar.XorFirst` | os/lib/ccm-star.c:96-102 | the first block holds the data's length and its first 14 bytes |
| `Ccm.CcmStar.ChainData` | os/lib/ccm-star.c:96-115 | the data with its length in front, chained block by block |
| `Ccm.FormattedChain` | os/lib/ccm-star.c:93-127 | chaining in three stages is chaining the whole formatted sequence |
| `CcmSpec.CtrTwice` | os/lib/ccm-star.c:135-142 | the key stream applied twice gives the message back |
| `CcmAes.BlockCipherOk` | os/lib/ccm-star.c:44-66 | AES-128 with any key is such a cipher |
| `Aes.Aes128.Encrypt` | os/lib/aes-128.c:119-186 | the in-place rounds are the Cipher of FIPS 197 section 5.1 |
| `Aes.Aes128.SetKey` | os/lib/aes-128.c:97-116 | the round keys are those of KeyExpansion, section 5.2 |
| `Aes.Aes128.Shift` | os/lib/aes-128.c:135-153 | the sixteen moves through temporaries are ShiftRows |
| `Aes.Aes128.Mix` | os/lib/aes-128.c:155-179 | the loop over the columns is MixColumns |
| `AesField.TrickIsMix` | os/lib/aes-128.c:158-178 | one doubling for each row and the sum of the column give the matrix product over GF(2^8) |
| `AesSpec.CipherIsBijective` | os/lib/aes-128.c:119-186 | for every key schedule the cipher is a bijection on blocks, with InvCipher as its inverse |
| `CcmAes.EncryptIsBijective` | os/lib/aes-128.c:89-186 | the same for the tables and operations of the source and every key |
| `AesSource.EncryptBlock` | os/lib/aes-128.c:89-186 | set_key and encrypt on the source's bytes are AES-128 as CCM* uses it |
| `AesBytes.MatricesInverse` | os/lib/aes-128.c:88-94 | the columns of the two matrices, multiplied out with galois_mul2, are inverse to each other |
| `AesBytes.SboxUndone` | os/lib/aes-128.c:51-84 | no two bytes have the same entry |
| `AesBytes.RconIs` | os/lib/aes-128.c:103-114 | the powers that the key expansion uses are the bytes 01, 02, 04, ..., 80, 1b, 36 of Rcon in section 5.2 |
| `AesSbox.TableIsSbox` | os/lib/aes-128.c:51-84 | every entry is the affine image of the multiplicative inverse, as section 5.1.1 of FIPS 197 defines it |
| `AesAnswer.KeyExpansion` | os/lib/aes-128.c:97-116 | the key of FIPS 197 appendix A.1 is expanded to the eleven round keys that are published there |
| `AesAnswer.EncryptedExample` | os/lib/aes-128.c:119-186 | the block of appendix B is enciphered as it is published |
| `Trickle.TrickleTimer.Run` | os/lib/trickle-timer.c:168-331 | in every run, whatever its wrapping clock shows, the timer does what a timer in true time does: intervals begin where the last one ended or at a reset, their sizes are the last start or reset value doubled so many times, up to Imax, and t lies in the second half; at most one callback is made in an interval, and its flag says whether fewer than k consistencies were heard in it |
| `Trickle.HeardIs` | os/lib/trickle-timer.c:306-315 | in that machine what is heard in an interval is exactly the consistencies among the events since it began |
| `Trickle.TrickleTimer.FireNow` | os/lib/trickle-timer.c:259-281 | the flag is true iff fewer than k consistencies were heard since the interval began; the end is scheduled in true time |
| `Trickle.TrickleTimer.DoubleInterval` | os/lib/trickle-timer.c:192-254 | the next interval begins exactly where the last one ended, however late the callback is within half the clock's range |
| `Trickle.TrickleTimer.ScheduleForEnd` | os/lib/trickle-timer.c:169-187 | on the wrapping clock the wait leads to the true end of the interval, or is zero if that has passed |
| `Trickle.TrickleTimer.Inconsistency` | os/lib/trickle-timer.c:318-331 | a reset to Imin, and nothing at all if the interval is Imin or the timer stopped |
| `Trickle.TrickleTimer.Consistency` | os/lib/trickle-timer.c:306-315 | one more is heard; the 8-bit counter sticks at 255 |
| `Trickle.TrickleTimer.NewInterval` | os/lib/trickle-timer.c:286-301 | an interval begins now with nothing heard, and t is the time in its second half that GetT gives for the random number |
| `Trickle.TrickleTimer.Set` | os/lib/trickle-timer.c:383-414 | the first interval is the one between Imin and Imax that the random number stands for, and t follows from the second one |
| `Trickle.TrickleTimer.GetT` | os/lib/trickle-timer.c:158-166 | for every random number t lies in [I/2, I) |
| `Trickle.TrickleTimer.Config` | os/lib/trickle-timer.c:334-380 | Imax is lowered iff the requested pair exceeds half the clock's range, and then to the largest that does not; the timer is in order afterwards iff its ctimer was off and the search for Imax went right |
| `TrickleConfig.MaxImax` | os/lib/trickle-timer.c:98-113 | for clocks of 16, 32 and 64 bits, the halving loop returns the largest k with Imin * 2^k <= 2^(W-1) iff its first mask overlooks nothing, which happens with 64 bits only |
| `Trickle.MisjudgedExample` | os/lib/trickle-timer.c:101-113 | such an input |
| `TrickleConfig.HalvingStep` | os/lib/trickle-timer.c:107-112 | if the mask tells what it should, one step keeps the shifted value the original times two to the zeros found, and finds a one among half as many bits |
| `TrickleConfig.LargestIsLargest` | os/lib/trickle-timer.c:88-95 | no larger Imax fits and every smaller one does |
| `TrickleConfig.PairIsBad` | os/lib/trickle-timer.c:359-366 | the division in the macro decides exactly whether the pair exceeds half the clock's range |
| `Bits.AndTop` | os/lib/trickle-timer.c:107-112 | masking the top bits tells whether the value is below the power of two |
| `Trickle.WrappedDifference` | os/lib/trickle-timer.c:174-183 | a difference on the wrapping clock is the difference of the true times modulo the range |
| `Trickle.AheadOrPast` | os/lib/trickle-timer.c:179-184 | comparing with half the range tells a past end from a future one |
| `Trickle.AfterReset` | os/lib/trickle-timer.c:208-218 | after a reset the interval is min(Imin * 2^j, Imax) |
| `Slip.Driver.ExchangeAll` | os/dev/slip.c:92-325 | of any sequence of packets, each written, received byte by byte and polled, exactly those that fit the ring come out, as they went in, from any position of the ring; one that is empty or too long does no harm to the next |
| `Slip.Driver.Exchange` | os/dev/slip.c:92-239 | a packet of any length that is written, received from any position of the ring and polled comes out as it was sent iff it fits the ring and has at most one byte more than the buffer |
| `SlipSpec.DecodeBody` | os/dev/slip.c:92-113 | decoding undoes the encoding of every packet |
| `SlipSpec.EncodedBytes` | os/dev/slip.c:38-41 | 192 is sent as 219 220, 219 as 219 221, every other byte as it is, and packets begin and end with 192 |
| `SlipSpec.PacketArrives` | os/dev/slip.c:264-325 | after its two ENDs a packet that fits is held as it was sent, and one that does not has left nothing behind |
| `SlipSpec.FeedBody` | os/dev/slip.c:264-325 | every prefix of an encoded packet is stored at its place, escapes included, until the ring is full; from then on everything is dropped |
| `SlipSpec.LastEndOf` | os/dev/slip.c:303-325 | the END that no longer fits starts rubbish that the next packet's first END ends |
| `SlipSpec.InputResult` | os/dev/slip.c:264-325 | the result is one iff an END completes a packet that is not empty and has room, outside rubbish and escapes, and zero otherwise |
| `SlipSpec.BadEscapeDrops` | os/dev/slip.c:268-285 | an escape followed by anything but its two successors, an END included, drops the packet and all characters up to the next END; the packet that is sent then arrives as if nothing had been there |
| `SlipSecond.SecondPacketNotFound` | os/dev/slip.c:206-234 | whatever packet slip_write sends before the first one is polled, whether it finds room or not, the poll after the first finds nothing: the second one's leading END is taken for its end |
| `SlipSecond.SecondFound` | os/dev/slip.c:206-234 | a second, non-empty, properly escaped stretch of characters is found by the next poll as it was sent iff it is not led by an END and finds room, or lacks room for its END alone where an old END lies |
| `SlipSecond.SecondDecoded` | os/dev/slip.c:123-239 | so a second packet without its leading END is decoded as it was sent |
| `SlipPoll.PolledPacket` | os/dev/slip.c:123-205 | a packet of any length comes out of the decoding loops as it was sent iff it has at most one byte more than the buffer; a longer one in one piece gives nothing |
| `SlipPoll.TailComesOut` | os/dev/slip.c:160-205 | a longer one around the end of the ring may give the part behind it |
| `Slip.Write` | os/dev/slip.c:92-113 | what is sent is the encoding of the packet between two END characters |
| `Slip.Driver.InputByte` | os/dev/slip.c:264-325 | every state and character as the ring's transition function has it, with overflow and rubbish |
| `Slip.Driver.PollHandler` | os/dev/slip.c:123-239 | whatever is buffered, the loops put out what the packet gives within the room of the buffer, and it alone leaves the ring |
| `Slip.Driver.RemovePacket` | os/dev/slip.c:206-234 | the next packet, if an END is found before the free space, is the one that begins after this one |
| `SerialLine.SerialLine.Run` | os/dev/serial-line.c:63-129 | under every interleaving of the single steps of interrupt and process, the bytes taken out and those pending are exactly those put in, in order, and each delivered line is a beginning of an input line, distinct ones in order, whatever overflows |
| `SerialLine.SerialLine.DeliveredLines` | os/dev/serial-line.c:87-129 | no delivered line mixes the bytes of two input lines |
| `SerialLine.SerialLine.NothingLost` | os/dev/serial-line.c:63-129 | while nothing overflows, every input line is delivered, cut to the buffer |
| `SerialLine.SerialLine.InputByte` | os/dev/serial-line.c:64-80 | a character is lost iff the ring is full or it is not a terminator after an overflow |
| `SerialLine.SerialLine.PutStore` | os/lib/ringbuf.c:43-68 | storing the byte before the pointer moves keeps what the consumer relies on |
| `SerialLine.SerialLine.PutCommit` | os/dev/serial-line.c:64-85 | a terminator that gets in ends the overflow; the line after it begins a new input line |
| `SerialLine.SerialLine.GetCheck` | os/lib/ringbuf.c:71-86 | the ring is empty iff the masked difference of the pointers is zero |
| `SerialLine.SerialLine.GetLoad` | os/lib/ringbuf.c:86-101 | the byte read before the pointer moves is the oldest pending one |
| `SerialLine.SerialLine.GetCommit` | os/dev/serial-line.c:87-126 | a terminator delivers what is in the buffer, in order; other characters beyond the buffer are dropped |
| `SerialSpec.MaskedPointers` | os/lib/ringbuf.c:43-113 | in ints of any width the mask makes the pointers and their difference wrap at the size, for every power of two |
| `SerialSpec.FullOrEmpty` | os/lib/ringbuf.c:103-113 | the masked difference is the number of pending bytes |
| `SerialSpec.StoreKeeps` | os/lib/ringbuf.c:43-68 | the producer's store disturbs no pending byte, wherever the consumer is |
| `SerialSpec.TakeKeeps` | os/lib/ringbuf.c:71-101 | the consumer's pointer step gives up exactly the oldest byte, wherever the producer is |
| `SerialSpec.AcceptKeeps` | os/dev/serial-line.c:64-80 | the rule for overflows keeps every accepted line a beginning of its own input line |
| `SerialSpec.Terminators` | os/dev/serial-line.c:49-54 | lines end with the characters 10 and 13 and no others |
| `Crc16.Add` | os/lib/crc16.c:47-63 | the five branch-free assignments are eight steps of the shift register with generator 0x8408, least significant bit first |
| `Crc16.Data` | os/lib/crc16.c:66-75 | the loop feeds the first len bytes, and none if len is negative |
| `Crc16.CheckValue` | os/lib/crc16.c:47-75 | the digits from 1 to 9 give the check value 0x2189 of this CRC |
| `CrcSpec.ResidueZero` | os/lib/crc16.c:46-75 | from every start value, a message and two more bytes leave zero iff these are its CRC, low byte first |
| `CrcSpec.BurstDetected` | os/lib/crc16.c:46-75 | two different messages of the same length that differ only within 16 consecutive bits have different CRCs |
| `CrcSpec.LongerBurstUndetected` | os/lib/crc16.c:46-75 | 16 is the best possible: 17 bits that differ by the generator are never told apart |
| `ShiftRegister.FeedAtOnce` | os/lib/crc16.c:58-62 | up to 16 bits may be combined with the register before it is shifted, which is what the byte-wise form relies on |
| `ShiftRegister.Burst` | os/lib/crc16.c:46-75 | the argument for bursts, for any register whose steps lose nothing |
| `CrcSpec.LfsrLaws` | os/lib/crc16.c:46-75 | the 16-bit register with 0x8408 is such a register |

## Left out

- HeapMem.Heap.Alloc: the sums of bytes per zone are not modelled; the zone check is an admission flag chosen by the
  caller, because allocation charges the rounded request while free refunds the whole chunk.
- HeapMem.Heap.Realloc: growing a chunk behind the footprint whose bytes say that it is allocated, which coalesces
  whatever lies there, and such a chunk that reaches beyond the arena.
- HeapMem.Heap.Stats: statistics are read at one moment; printing, the debug variants and zone registration are left out.
- Sha256Session.Sha256.Update: a session is begun before data is added; what an update after finalize does is not stated.
- NbrTable.NbrTable.AddLladdr: a null table is modelled here only, where the source tests for it; reasons and data that
  other policies would look at are left out.
- NbrRuns.Run: runs that lock an item whose key is not listed, which leaves the table out of order.
- SixpNode.Node.AddReqInput: requests for more cells than the storage for the response holds, behind which the source
  would read; the same holds for DELETE and RELOCATE.
- SixpNode.Node.RequestInput: packets are values; the codecs of requests, the transaction table and timeouts of 6P are
  left out, and the runs of two nodes consist of requests for one cell.
- SixpNode.Node.AddLinksToSchedule: the pool of links never runs out and the schedule's lock is always free.
- TrickleConfig.MaxImax: the flavours for 16 and 32 bits, which do not subtract one first.
- Trickle.TrickleTimer.DoubleInterval: the variant without drift compensation.
- Trickle.TrickleTimer.Config: checks for null pointers.
- Trickle.TrickleTimer.FireNow: callbacks that call the timer from inside.
- Slip.Driver.Exchange: what comes of a second packet that arrives before the first is polled, once a third one or more
  characters follow.
- SerialLine.SerialLine.GetCommit: the event is posted with the buffer's content at that moment; the wait until all
  processes have seen it is left out.
- advanced_cell_alloc.c, queuebuf, packetbuf, drivers, radio, uIP, MQTT, LWM2M and the other examples: input and output,
  or without state of their own.
- RPL's policies for the neighbour table, and periodic printing.
