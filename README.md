# LsShmHash as a verified Dafny model

This project models `LsShmHash`, the chained hash table that lives inside a
shared-memory segment. Its parts refer to each other only by 32-bit offsets:

- a slot index (`x_iHIdx`) holding one chain-head offset per slot;
- an occupancy bitmap with one bit per slot;
- element records linked through `x_iNext`;
- a header holding the size, the capacity, the new index and capacity of a
  running rehash (`x_iHIdxNew`, `x_iCapacityNew`) and the rehash work cursor
  (`x_iWorkIterOff`).

Modules, in dependency order:

- `ShmTypes`: offsets (0 is the null offset and the `end()` cursor), bytes,
  32-bit key values and `LS_FAIL`.
- `PrimeLadder`: the 31-entry prime ladder, `findRange` as its loop and
  `roundUp`.
- `KeyHash`: `hashBuf`, `hashString` and `iHashString` as accumulator loops.
  Each is proved against a fold that wraps modulo 2^32.
- `HashChains`: the bucket chains as values. There is one sequence of
  offsets per slot, and `ChainsOk` says an index, the records and the chains
  agree. The module also has lemmas for the three pointer surgeries the
  table performs: prepend, unlink of a head, and unlink after a predecessor.
- `ChainOrder`: the iteration order (slot by slot, each chain in link
  order), `next`'s successor function, and the count `for_each` returns.
- `TableState`: the whole index state as a value (`Snap`), the table
  invariant `Inv`, and one function plus one preservation lemma per group
  of stores an operation makes. Inside a rehash move the invariant holds
  after each single store, so it also covers the state a crash in the
  middle of a move leaves behind. While a rehash runs, the new capacity is
  larger than the old one. The stores that publish a fresh
  generation, and the stores that install it at the end, are each one step.
- `HashStats`: what `stat` and `statIdx` compute, as functions of the
  chains' key values: counts, the longest chain, the histogram and the
  duplicate count.
- `ShmHashTable`: the class `ShmHash`, which is the table. Fields
  hold the header and the segment. `index`, `newIndex` and `bitmap` are
  arrays. Ghost fields `chains` and `newChains` give the chain behind each
  slot. The methods perform the source's stores in the source's order.

The segment is `records: map<Offset, Elem>` together with `inUse`, the set
of record blocks the allocator has handed out. A table is *stable* (no
rehash running) exactly when `index` and `newIndex` are the same array,
just as the source tests `x_iHIdx != x_iHIdxNew`. The live records are
those on a chain of either index, plus the record an interrupted move left
in the work cursor. `Valid()` holds:

- the index invariant;
- `size` equal to the number of live records;
- positive `fullFactor` and `growFactor`;
- every live record's block allocated;
- the capacity a prime of the ladder.

Allocation results are parameters. `insert2` receives the offset the
allocator returned (0 on failure). `rehash` receives whether the new index
block could be allocated. Comparators and callbacks are function
parameters. For `findNum`, the key word stored in a record is read
little-endian.

`insert2`'s contract shows one consequence of the code as written. When the
rehash fails and the table is exactly full, `insert2` answers 0. The record
block it has already allocated then stays allocated but is not linked: it is
in `inUse` and not in `Live()`.

## Model

| member | source | states |
|---|---|---|
| PrimeLadder.LadderAscending | src/shm/lsshmhash.cpp:41-50 | every ladder entry is strictly smaller than every later one |
| PrimeLadder.LadderIndexFrom | src/shm/lsshmhash.cpp:54-63 | the scan from index i answers an index in i..30; a prime before it is smaller than sz, and the prime at it holds sz unless the answer is the saturated 30 |
| PrimeLadder.FindRange | src/shm/lsshmhash.cpp:54-63 | the counting loop with its early exit answers the first index in 1..29 whose prime holds sz, or 30 |
| PrimeLadder.RoundUpIsSmallestFit | src/shm/lsshmhash.cpp:54-71 | roundUp answers a ladder entry at index 1..30 and never 7; when sz <= 4294967291 that entry holds sz and is at most every ladder prime at index >= 1 that holds sz |
| PrimeLadder.LadderIndexOfPrime | src/shm/lsshmhash.cpp:54-63 | findRange of the ladder prime at index i >= 1 gives back i |
| PrimeLadder.RoundUpIdempotent | src/shm/lsshmhash.cpp:66-71 | roundUp of a value roundUp chose is that value |
| PrimeLadder.GrowTargetGrows | src/shm/lsshmhash.cpp:427 | the rehash target growFactor > 0 steps up the ladder is larger than a capacity on the ladder |
| KeyHash.HashBuf | src/shm/lsshmhash.cpp:94-108 | the loop's result is the fold h := h * 31 + byte, wrapped modulo 2^32, over all len bytes |
| KeyHash.Poly31IsPolynomialMod | src/shm/lsshmhash.cpp:94-108 | the wrapped fold equals the exact polynomial (sum of x[i] * 31^(n-1-i)) reduced modulo 2^32 |
| KeyHash.CStrLen | src/shm/lsshmhash.cpp:117-126 | the length is the position of the first NUL, and no byte before it is NUL |
| KeyHash.HashString | src/shm/lsshmhash.cpp:117-126 | the loop's result is the wrapped fold over the bytes before the first NUL, each read as a signed char |
| KeyHash.CaselessHashString | src/shm/lsshmhash.cpp:135-147 | the same fold, with 'A'..'Z' lowered before each step |
| KeyHash.LowerKeepsCStrLen | src/shm/lsshmhash.cpp:135-147 | lowering neither creates nor removes a NUL, so the string and its lowered form have the same length |
| KeyHash.CaselessHashIsHashOfLowered | src/shm/lsshmhash.cpp:117-147 | iHashString(s) equals hashString of s with 'A'..'Z' lowered |
| KeyHash.AsciiStringHashIsBufHash | src/shm/lsshmhash.cpp:94-126 | on a string without high-bit bytes, hashString equals hashBuf over the characters before the NUL |
| HashChains.MemberSlot | src/shm/lsshmhash.cpp:627-631 | in a well-formed index a record is chained exactly when it is on the chain of slot hkey % capacity |
| HashChains.MemberPosition | src/shm/lsshmhash.cpp:509-512 | a chained record occupies exactly one position, on the chain of its own slot |
| HashChains.Prepend | src/shm/lsshmhash.cpp:627-631 | linking a new record in front of its slot keeps the index well formed and adds exactly that record |
| HashChains.RemoveHead | src/shm/lsshmhash.cpp:530-534 | setting a slot's head to the head's successor keeps the index well formed and removes exactly the old head |
| HashChains.Without | src/shm/lsshmhash.cpp:537-548 | dropping position k keeps the records before it and shifts the ones after it down by one |
| HashChains.RemoveAfter | src/shm/lsshmhash.cpp:537-548 | linking the predecessor past the record at position k > 0 keeps the index well formed and removes exactly that record |
| HashChains.FirstMatchSpec | src/shm/lsshmhash.cpp:576-586 | the chain lookup finds a record exactly when one matches, and the record it finds is the first match in link order |
| HashChains.SlotsOfSameData | src/shm/lsshmhash.cpp:454-456 | relinking records does not change the slots their key values select |
| ChainOrder.WalkIsMembers | src/shm/lsshmhash.cpp:809-861 | the iteration order holds every chained record exactly once and nothing else |
| ChainOrder.PopFirst | src/shm/lsshmhash.cpp:444-457 | the first record of the order heads the first non-empty slot; unlinking it leaves the rest of the order |
| ChainOrder.Successor | src/shm/lsshmhash.cpp:826-861 | the record after a chain position is its x_iNext successor, else the first record of a later slot, else end() |
| ChainOrder.FirstNull | src/shm/lsshmhash.cpp:444 | the first cursor is end() exactly when the order is empty |
| ChainOrder.SuccAlong | src/shm/lsshmhash.cpp:874-877 | on a suffix of an order without repeats, next steps one place along it and off its end to end() |
| ChainOrder.From | src/shm/lsshmhash.cpp:872-874 | from a cursor, for_each walks the suffix of the order that starts at that cursor, or nothing when the cursor is missing |
| ChainOrder.FromDistinct | src/shm/lsshmhash.cpp:872-874 | in an order without repeats, the walk from its j-th record is its suffix at j |
| ChainOrder.VisitedStops | src/shm/lsshmhash.cpp:874-882 | every counted record came before the end marker and answered 0; the record after them, if any, is the end marker or answered non-zero |
| ChainOrder.VisitedAll | src/shm/lsshmhash.cpp:874-882 | callbacks that always answer 0, with an end marker outside the order, count the whole order |
| TableState.LiveCountIsCard | src/shm/lsshmhash.cpp:642 | the size the header keeps is the number of live records |
| TableState.FreshKeeps | src/shm/lsshmhash.cpp:425-441 | allocating and publishing a zeroed new generation, larger than the current one, keeps the invariant and the live records |
| TableState.ClaimKeeps | src/shm/lsshmhash.cpp:449-453 | setting the new slot's bit and then the work cursor to the old head keeps the invariant and the live records |
| TableState.UnlinkKeeps | src/shm/lsshmhash.cpp:454 | unhooking the cursor record from its old slot keeps the invariant and the live records, and the record is then on neither index |
| TableState.BitOnlyKeeps | src/shm/lsshmhash.cpp:451 | the bit store of a move, before the cursor store, keeps the invariant |
| TableState.NextOnlyKeeps | src/shm/lsshmhash.cpp:455 | the link store of a move, before the new head store, keeps the invariant |
| TableState.LinkKeeps | src/shm/lsshmhash.cpp:455-456 | linking the cursor record in front of its new slot keeps the invariant, the live records and every record's key and data |
| TableState.Resumed | src/shm/lsshmhash.cpp:404-422 | the resume step keeps the invariant, the live records and the cursor, and leaves the cursor record on the new index |
| TableState.ResumeCases | src/shm/lsshmhash.cpp:409-420 | a cursor record that heads its new slot is on the new index; one that heads neither slot is on neither index |
| TableState.ResumeIdempotent | src/shm/lsshmhash.cpp:404-422 | resuming twice is the same as resuming once |
| TableState.EndKeeps | src/shm/lsshmhash.cpp:459-465 | once the old index is empty, clearing the cursor and installing the new index and capacity keeps the invariant and the live records |
| TableState.InsertKeeps | src/shm/lsshmhash.cpp:627-642 | insert2's stores keep the invariant and add exactly the new record to the live records and to their count |
| TableState.EraseHeadKeeps | src/shm/lsshmhash.cpp:530-534 | erasing a slot's head, and clearing its bit when the chain empties, keeps the invariant and removes exactly that record |
| TableState.EraseAfterKeeps | src/shm/lsshmhash.cpp:535-549 | erasing a record behind its predecessor keeps the invariant and removes exactly that record |
| TableState.ClearKeeps | src/shm/lsshmhash.cpp:486-488 | zeroing the bitmap and the index keeps the invariant and leaves no live record |
| HashStats.Bucket | src/shm/lsshmhash.cpp:993-1005 | a chain of n >= 1 records lands in bucket n-1 for n <= 5, and in one of buckets 5..9 otherwise |
| HashStats.BucketMonotone | src/shm/lsshmhash.cpp:993-1005 | a longer chain never lands in a lower bucket |
| HashStats.DupScanExact | src/shm/lsshmhash.cpp:927-947 | while the chain has at most 32 distinct key values, the sampled count equals the number of records that repeat an earlier key value |
| HashStats.DupScanAtMostRepeats | src/shm/lsshmhash.cpp:927-947 | the sampled count never exceeds the number of records that repeat an earlier key value |
| HashStats.ChainDups | src/shm/lsshmhash.cpp:927-954 | a chain's repeats are its length minus its distinct key values; its numDup share is at most that, and exactly that with at most 32 distinct key values |
| HashStats.TallyCounts | src/shm/lsshmhash.cpp:976-1010 | numIdx is the slot count, numIdxOccupied the number of non-empty slots, num the total chain length, and the histogram adds up to the occupied slots |
| HashStats.TallyMaxLink | src/shm/lsshmhash.cpp:989-990 | maxLink is at least every chain's length and is the length of some chain, or 0 |
| HashStats.TallyHistogram | src/shm/lsshmhash.cpp:992-1006 | each histogram bucket counts the non-empty chains whose length falls in it |
| HashStats.TallyDups | src/shm/lsshmhash.cpp:954 | numDup is at most the sum of the chains' repeats, and equal to it when no chain has more than 32 distinct key values |
| ShmHashTable.Sample | src/shm/lsshmhash.cpp:931-946 | the sample-table lookup reports whether the key value is among the remembered ones, and appends it when it is not and there is room |
| ShmHashTable.ShmHash.ScanFrom | src/shm/lsshmhash.cpp:814-822 | the slot scan answers the first record of the order from slot p |
| ShmHashTable.ShmHash.Begin | src/shm/lsshmhash.cpp:809-823 | begin answers the first record of the iteration order, or end() for an empty table |
| ShmHashTable.ShmHash.Next | src/shm/lsshmhash.cpp:826-861 | next answers end() for end(), else the record that follows the cursor in the iteration order |
| ShmHashTable.ShmHash.Search | src/shm/lsshmhash.cpp:559-586 | the bitmap check and then the chain walk answer the first matching record of slot key % capacity |
| ShmHashTable.ShmHash.SearchSpec | src/shm/lsshmhash.cpp:556-587 | the lookup answers 0 exactly when no live record matches; otherwise it answers a live record that matches |
| ShmHashTable.ShmHash.Find2 | src/shm/lsshmhash.cpp:556-587 | find2 answers the first record of the key's slot with equal key value, equal key length and a zero comparator answer; 0 exactly when no live record matches; nothing changes |
| ShmHashTable.ShmHash.FindNum | src/shm/lsshmhash.cpp:648-667 | the same, with the key taken as the key pointer cut to 32 bits, and a record matching when its key value and stored key word both equal it |
| ShmHashTable.ShmHash.Claim | src/shm/lsshmhash.cpp:449-453 | the bit of the new slot, then the work cursor; the invariant and the live records are kept |
| ShmHashTable.ShmHash.UnlinkFromOld | src/shm/lsshmhash.cpp:454 | the old slot headed by the cursor record moves to the record's successor; the invariant and the live records are kept |
| ShmHashTable.ShmHash.LinkIntoNew | src/shm/lsshmhash.cpp:455-456 | the cursor record becomes the head of its new slot; the invariant, the live records and the record contents are kept |
| ShmHashTable.ShmHash.EndSweep | src/shm/lsshmhash.cpp:459-465 | on an empty old index, the cursor becomes 0 and the new index and capacity become the table's; the table is stable and valid |
| ShmHashTable.ShmHash.FinishMove | src/shm/lsshmhash.cpp:404-422 | the resume branch of rehash performs the resume step on the table's state |
| ShmHashTable.ShmHash.StartRehash | src/shm/lsshmhash.cpp:425-441 | the fresh-start branch allocates a zeroed bitmap and new index of the target size and publishes them |
| ShmHashTable.ShmHash.MoveHead | src/shm/lsshmhash.cpp:447-456 | one move takes the first record of the order off the old index and onto the new one; the rest of the order is left |
| ShmHashTable.ShmHash.NextOfFirst | src/shm/lsshmhash.cpp:448 | next of the first record is the first record of the rest of the order |
| ShmHashTable.ShmHash.Sweep | src/shm/lsshmhash.cpp:443-458 | the sweep empties the old index while keeping the live records, their contents and the invariant |
| ShmHashTable.ShmHash.Complete | src/shm/lsshmhash.cpp:443-466 | after the sweep and the switch, the table is stable and valid with cursor 0, and capacity and index are the new generation's |
| ShmHashTable.ShmHash.Prepare | src/shm/lsshmhash.cpp:402-441 | a stable table gets a fresh, larger generation growFactor steps up the ladder; a table already rehashing keeps its new generation and finishes the cursor move |
| ShmHashTable.ShmHash.Rehash | src/shm/lsshmhash.cpp:379-467 | LS_FAIL exactly when a fresh generation is needed and cannot be allocated, with nothing changed; otherwise 0, with the same live records, a stable valid table, cursor 0 and the new capacity and index, which is larger than the old capacity on both the fresh and the resume path |
| ShmHashTable.ShmHash.StableSlots | src/shm/lsshmhash.cpp:444-466 | in a stable valid table, such as one after rehash, every live record is on the chain of slot hkey % capacity |
| ShmHashTable.ShmHash.Insert2 | src/shm/lsshmhash.cpp:590-645 | a failed allocation answers 0 and changes nothing; a failed rehash on a full table answers 0 with nothing linked; otherwise the record heads slot key % capacity with its bit set, and size grows by 1; when no rehash took place the slot's old chain follows the new head, every other slot keeps its chain, and only that slot's bit changes |
| ShmHashTable.ShmHash.Place | src/shm/lsshmhash.cpp:605-644 | insert2 after the allocation: make room, then link; 0 exactly when there is no room; when no rehash took place the record is linked in front of its slot's old chain and nothing else changes |
| ShmHashTable.ShmHash.MakeRoom | src/shm/lsshmhash.cpp:605-612 | the table is rehashed when size * fullFactor > capacity; false exactly when that rehash fails with the table full |
| ShmHashTable.ShmHash.Link | src/shm/lsshmhash.cpp:627-642 | the new record heads its slot in front of the old chain, the bit is set, size grows by 1 and the other records keep their contents |
| ShmHashTable.ShmHash.Erase | src/shm/lsshmhash.cpp:504-553 | a null record is ignored; otherwise exactly that record leaves its chain, the others keep their order, the bit is cleared only when the chain empties, the block is released and size drops by 1 |
| ShmHashTable.ShmHash.Unhook | src/shm/lsshmhash.cpp:509-549 | the record leaves its slot's chain by the head branch or the predecessor branch |
| ShmHashTable.ShmHash.UnhookHead | src/shm/lsshmhash.cpp:530-534 | the slot moves to the head's successor and its bit is cleared when there is none |
| ShmHashTable.ShmHash.UnhookAfter | src/shm/lsshmhash.cpp:535-549 | the walk finds the predecessor, which then links past the record |
| ShmHashTable.ShmHash.ForEach | src/shm/lsshmhash.cpp:864-883 | LS_FAIL without a callback; otherwise the number of records, in order from beg, visited before the end marker, end() or the first non-zero answer |
| ShmHashTable.ShmHash.VisitFrom | src/shm/lsshmhash.cpp:871-882 | the loop takes each successor before calling the callback, and counts the records Visited counts |
| ShmHashTable.ShmHash.StepAlong | src/shm/lsshmhash.cpp:877 | next of the n-th record of a suffix of the order is its (n+1)-th record, or end() |
| ShmHashTable.ShmHash.ForEach2 | src/shm/lsshmhash.cpp:886-906 | for_each with the user data handed to every callback |
| ShmHashTable.ShmHash.Init | src/shm/lsshmhash.cpp:219-237 | LS_FAIL exactly when magic, key mode or LRU mode differ from the header's; on success LRU modes 2 and 3 disable the lock, the reference count is 1 and the handle is ready |
| ShmHashTable.ShmHash.SetFullFactor | src/shm/lsshmhash.cpp:310-314 | only a positive factor is stored, and validity is kept |
| ShmHashTable.ShmHash.SetGrowFactor | src/shm/lsshmhash.cpp:317-321 | only a positive factor is stored, and validity is kept |
| ShmHashTable.ShmHash.ReleaseAll | src/shm/lsshmhash.cpp:470-483 | the for_each2 walk with release_hash_elem releases the block of every live record and counts the whole order |
| ShmHashTable.ShmHash.Wipe | src/shm/lsshmhash.cpp:486-488 | the bitmap and the index are zeroed and the size becomes 0 |
| ShmHashTable.ShmHash.Clear | src/shm/lsshmhash.cpp:480-497 | every live block is released, the walk's count equals the size, nothing stays live, the bitmap and index are zero, size is 0 and an LRU table's LRU block is reset |
| ShmHashTable.ShmHash.StatIdx | src/shm/lsshmhash.cpp:912-956 | the answer is the length of the chain starting at the slot head, and numDup grows by the chain's sampled duplicate count |
| ShmHashTable.ShmHash.StatSlot | src/shm/lsshmhash.cpp:978-1009 | one slot's step of stat adds that slot to the tally |
| ShmHashTable.ShmHash.Stat | src/shm/lsshmhash.cpp:964-1013 | LS_FAIL without a statistics block; otherwise the block is the tally of every slot's chain and the answer is num |
| ShmHashTable.ShmHash.StatCountsAll | src/shm/lsshmhash.cpp:964-1013 | on a stable table stat's num is the size |
| ShmHashTable.ShmHash.ForEachCountsAll | src/shm/lsshmhash.cpp:809-883 | for_each from begin() to end() with callbacks that answer 0 counts every record of the table |

## Left out

- Locking (`autoLockChkRehash`, the lock pointer `init` loads, `m_iLockEnable` beyond its reset in `init`) and every cross-process effect. Each operation is one atomic step. The rehash invariant covers every point between two stores of a record move.
- ShmHashTable.ShmHash.StoreFresh: the four header stores that publish a fresh generation (src/shm/lsshmhash.cpp:437-440) are one step. A crash between the bitmap store and the new-index store leaves a table that still looks stable but carries the new, all-zero bitmap, which the invariant does not allow.
- ShmHashTable.ShmHash.StoreEnded: the stores that finish a rehash (src/shm/lsshmhash.cpp:459-465) are one step. A crash between the capacity store and the index store leaves the released old index paired with the new capacity, which the invariant does not allow.
- `open`, the destructor, `destroy`, `releaseHTableShm` and `checkHTable`: segment and registry plumbing outside the table logic.
- `alloc2`/`release2`: the allocator is a parameter. `inUse` tracks the record blocks only. The bitmap and index block that rehash allocates, and the old one it releases, are not tracked.
- `hashXXH32`, `hash32id`, `hfIpv6`, `compString`, `iCompString` and `cmpIpv6`: foreign calls or raw word reinterpretation. Comparators are function parameters.
- The LRU helpers (`linkHElem`, `unlinkHElem`, `valueSetup`, `getLru`) and `doGet`/`doInsert`/`doSet`/`doUpdate`. Their definitions are not part of this model. `clear`'s reset of the LRU block is modelled.
- Record layout: `x_iLen`, `x_iValOff`, `round4`, key and value lengths as stored fields, and `offset2ptr`/`ptr2offset`. A record holds its key value, its key bytes, its value bytes and its link.
- `DEBUG_RUN` blocks and the disabled `doExpand`.
- Stat callbacks and their user data: `stat` and `statIdx` are modelled without the callback.
- `for_each`/`for_each2` callbacks are pure functions of the offset. The one callback this file passes that changes state, `release_hash_elem`, is modelled by `ReleaseAll`, the walk `clear` performs.
- ShmHashTable.ShmHash.Rehash: requires `findRange(capacity) + growFactor < 31` when a fresh generation is needed. The source reads past `s_primeList` otherwise, and `setGrowFactor` accepts any positive factor.
- ShmHashTable.ShmHash.Insert2: the same requirement applies whenever the insert triggers a rehash.
- ShmHashTable.ShmHash.FindNum: reads as no match a record with fewer than four key bytes. The source reads four bytes from such a record's storage regardless of its key length.
- ShmHashTable.ShmHash.Find2, Insert2, Erase, Clear and Stat require a stable table, or for the iteration operations well-formed chains. On a growing table `Stat` would scan the old index only, while the source first finishes the rehash and scans the new one. The source calls them only with the lock held and no rehash half done, because `autoLockChkRehash` finishes an interrupted rehash first.
- `size * fullFactor` is computed on unbounded integers. In the source it is a 32-bit product.
- ShmHashTable.ShmHash.Erase: requires a live record. The source given any other non-null offset still walks the chain, and releases the block and decrements the size even when it found nothing to unlink.
- ShmHashTable.ShmHash.Clear: the source's `assert(n == size())` is a proof obligation here, not a run-time check.
- ShmHashTable.Sample: raises the duplicate count through the `found` answer, and `StatIdx` increments `curDup` from it. In the source both increments happen inside the search loop.
