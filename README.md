# utilities — a verified model of the allocators and string helpers

This project models the core of the C++ `utilities` library in Dafny:

- `Pool<T>` (pool.hpp) is a fixed-capacity slot allocator. It keeps a payload
  array beside a bitmap of 32-bit words. Bit `s % 32` of word `s / 32` is 1
  when slot `s` is used.
- `mstore<T>` (mstore.hpp) is a resizable slot store. Its 64-bit "free" words
  hold a 1 for every free slot.
- `bitstore` (bitstore.hpp, bitstore.cpp) is a byte array read and written as
  single bits and as fields of several bits.
- `llist<type>` (llist.hpp) is a singly linked list with a sentinel node and a
  traversal cursor.
- The string helpers `mov`, `length`, `compare`, `find` and `getStrParam`
  (functions.cpp).

Both bitmap allocators are proved against one abstract specification, module
`SlotSpec`:

- the state is the set of used slots below a capacity;
- allocation is a first-fit claim (`LowestFree`, `ClaimLowest`,
  `AllocateBatch`);
- iteration visits the used slots in ascending order (`InOrder`).

`SlotBitmap` ties a sequence of 32-bit words to that set. `MStoreWords` does
the same for the complemented free words of `mstore`. `Bits32` proves the
word tricks the code relies on:

- `w | (w + 1)` sets the lowest clear bit;
- `w & (w - 1)` clears the lowest set bit;
- the de Bruijn table lookup gives a bit's position.

Each class keeps the form of its source:

- Fields are updated in place by methods with `modifies` clauses.
- Arrays stay arrays.
- Every loop is a `while` loop with its invariants.
- Each method's `ensures` ties the new state to a specification function of
  the old state. The properties of those functions are proved as lemmas.

Some of the code does not do what its comments, names or arithmetic evidently
mean. In those places the model implements the intended behaviour. It also
keeps a member that follows the code as written, with a lemma that exhibits
the difference on a concrete input ("## Findings"). Those members live in the
`*Findings` modules.

Module layout, one file each: `Wrappers` (Option), `SlotSpec`, `Bits32`,
`SlotBitmap`, `PoolModel`, `PoolFindings`, `MStoreWords`, `MStoreModel`,
`MStoreFindings`, `BitstoreBits`, `BitstoreModel`, `BitstoreFindings`,
`LListModel`, `LListFindings`, `StringFunctions`, `StringFindings`.

Modelling conventions:

- The allocators' error value (`POOL_ERROR`, or 0 from `mstore::allocate`) is
  `None`.
- Callbacks passed to `iterate` are modelled as the sequence of slots they
  receive.
- A failing `new` or `realloc` is a boolean parameter (`allocFails`). For the
  list's node-by-node `new`, it is `room`, the number of nodes the heap
  supplies before throwing.
- A C string is a `seq<char>` that holds a NUL.
- Pointers into arrays become indices.
- `Bits32.ToIdx` (a number below 32 as a bit index) and `BitstoreBits.Pow2`
  (`2^k`) are small conversions with no table row. The bit-level reasoning
  lives in `Bits32.LowestZeroFrom` and `Bits32.LowestOneFrom` (the scans that
  `w | (w + 1)` and `bsf` stand for) and in `BitstoreBits.BitsInjective`,
  `BitstoreBits.FieldValueBits` and `BitstoreBits.FieldRoundTrip`.

## Model

| member | source | states |
|---|---|---|
| SlotSpec.LowestFrom | pool.hpp:218-240 | the first slot from `from` on whose use matches the one sought: it has that use, and every slot before it below the capacity has the other |
| SlotSpec.Conservation | pool.hpp:77-78 | used slots plus free slots make up the capacity exactly |
| SlotSpec.ClaimOneEffect | pool.hpp:167-178 | one first-fit claim uses exactly the lowest free slot and removes it from the free set; there is no free slot exactly when the free set is empty |
| SlotSpec.ClaimLowestCount | pool.hpp:177-178 | `k` claims with at least `k` free slots add exactly `k` used slots and remove `k` free ones |
| SlotSpec.ClaimLowestGrows | pool.hpp:163-190 | claims never release a slot |
| SlotSpec.ClaimLowestBelow | pool.hpp:163-190 | claims only take slots below the capacity |
| SlotSpec.ClaimLowestFirstFit | pool.hpp:163-190 | first fit: every slot claimed is below every slot left free |
| SlotSpec.ClaimLowestFirst | pool.hpp:163-190 | the first claim of a batch takes the lowest free slot, the lowest of all slots the batch claims |
| SlotSpec.AllocateBatchAtomic | pool.hpp:155-194 | a batch allocation either fails and changes nothing (count 0 or too few free slots), or claims exactly `count` new slots below the capacity and returns the lowest of them |
| SlotSpec.AllocateOneRoundTrip | pool.hpp:198-212 | allocating one slot and then freeing the slot returned restores the used set |
| SlotSpec.ClaimExhausted | pool.hpp:192-193 | a claim that finds no free slot after `c` claims means the batch started with exactly `c` free slots |
| SlotSpec.InOrderMembers | pool.hpp:282-306 | iteration visits exactly the used slots below the bound |
| SlotSpec.InOrderAscending | pool.hpp:282-306 | iteration visits slots in strictly ascending order |
| SlotSpec.InOrderExactlyOnce | pool.hpp:282-306 | with every used slot below the capacity, each used slot is visited and visited once |
| Bits32.DeBruijnPosition | pool.hpp:44-48 | the table entry at `(mask * 0x077CB531) >> 27` for a one-bit `mask` is the position of that bit |
| Bits32.DeBruijnCorrect | pool.hpp:44-48 | the table entry at `((1 << b) * 0x077CB531) >> 27` is `b`, for every bit position `b` |
| Bits32.LookupPosition | pool.hpp:188 | the lookup `MultiplyDeBruijnBitPosition2[(mask * 0x077CB531) >> 27]` on a one-bit mask gives that bit's position |
| Bits32.ClaimStep | pool.hpp:171-174 | `w \| (w + 1)` sets the lowest clear bit of a word that is not full and changes no other bit |
| Bits32.ClaimLowestZero | pool.hpp:169-175 | the claim step of `allocate`: the new word is the old one plus its lowest clear bit, and that bit's position is returned |
| Bits32.ReleaseStep | pool.hpp:295-297 | `w & (w - 1)` clears the lowest set bit of a non-zero word and changes no other bit |
| Bits32.DropLowestOne | pool.hpp:293-300 | the step of `iterate`: the word minus its lowest set bit, and that bit's position |
| Bits32.LowestOnePosition | pool.hpp:232-236 | `temp ^ (temp & (temp - 1))` and the table give the position of the lowest set bit |
| Bits32.ClearBit | pool.hpp:206 | `w & ~(1 << j)` clears bit `j` and keeps every other bit |
| SlotBitmap.WordsFor | pool.hpp:114 | `(n >> 5) + ((n & 31) != 0)` words hold `n` slots with fewer than 32 bits to spare |
| SlotBitmap.SlotIndex | pool.hpp:187-188 | the slot of bit `b` of word `w` lies in word `w` at bit `b` (`s / 32 == w`, `s % 32 == b`) |
| SlotBitmap.SlotIndexBijective | pool.hpp:204-206 | distinct (word, bit) pairs name distinct slots, and `slot >> 5`, `slot & 31` name slot `slot` |
| SlotBitmap.UsedSlotsSetBit | pool.hpp:174 | setting one bit of a word adds exactly its slot to the used set |
| SlotBitmap.UsedSlotsClearBit | pool.hpp:206 | clearing one bit of a word removes exactly its slot from the used set |
| SlotBitmap.FirstNonFullWord | pool.hpp:163-169 | with every word before the cursor full, the lowest clear bit of the first word that is not full is the lowest free slot, or the pool has none when that bit is past the capacity |
| SlotBitmap.IterateBit | pool.hpp:293-303 | visiting the lowest remaining bit of a word appends the next used slot in ascending order, and the remaining bits are those past it |
| PoolModel.Pool.constructor | pool.hpp:90 | a new pool is uninitialised, with no slots and nothing used, on arrays of its own |
| PoolModel.Pool.WithSize | pool.hpp:94-97 | `Pool(n)` gives `n` free slots, or an empty uninitialised pool when allocation fails, on arrays of its own |
| PoolModel.Pool.Create | pool.hpp:108-134 | on an uninitialised pool: `n` slots in `ceil(n/32)` cleared words, nothing used; a failed allocation leaves the pool destroyed; an initialised pool is not changed |
| PoolModel.Pool.Destroy | pool.hpp:138-148 | no slots, no words, count 0, uninitialised, the old arrays no longer held |
| PoolModel.Pool.Restore | pool.hpp:192-193 | the intended failure path puts back the bitmap saved before the batch, word for word |
| PoolModel.Pool.Allocate | pool.hpp:155-194 | the used set and result are those of `AllocateBatch`; on success the count grows by `count`; on failure the bitmap and cursor are unchanged; the cursor never moves back |
| PoolModel.Pool.ClaimBatch | pool.hpp:163-190 | the claiming loop either makes `count` first-fit claims and returns the lowest, or restores the bitmap when fewer than `count` slots are free |
| PoolModel.Pool.ClaimInWord | pool.hpp:167-188 | one claim in the first word that is not full adds one more first-fit claim, or shows the free slots are used up when the bit lies past the capacity |
| PoolModel.Pool.Deallocate | pool.hpp:198-212 | the slot leaves the used set (a no-op outside the pool); the count tracks the set; the cursor moves back to the slot's word when that lies before it |
| PoolModel.Pool.ClearSlotBit | pool.hpp:204-207 | clearing the slot's bit removes exactly that slot and reports whether it was used |
| PoolModel.Pool.FindUsed | pool.hpp:218-240 | the lowest used slot from the word after the cursor on (from word 0 with no cursor); a given cursor moves to the word found |
| PoolModel.Pool.IsFree | pool.hpp:244-251 | true exactly for the free slots within the capacity |
| PoolModel.Pool.IsUsed | pool.hpp:255-267 | true exactly for the used slots |
| PoolModel.Pool.Size | pool.hpp:77 | the capacity, equal to the used plus the free slots |
| PoolModel.Pool.Count | pool.hpp:78 | the number of used slots, at most the capacity |
| PoolModel.Pool.Put | pool.hpp:273-276 | a store through `operator[]` changes that payload only; the used set is unchanged |
| PoolModel.Pool.Iterate | pool.hpp:282-306 | the callback receives the used slots in ascending order, each once |
| PoolModel.Pool.VisitWord | pool.hpp:288-305 | the inner loop over one word extends the visited slots by that word's used slots in order |
| PoolFindings.SlotIndexAsWritten | pool.hpp:187-188 | the slot number `(offset << 3) + bit` agrees with the intended one only for word 0 |
| PoolFindings.SlotIndexAsWrittenCollides | pool.hpp:187-188 | bit 0 of word 1 and bit 8 of word 0 both come out as slot 8 |
| PoolFindings.NonFullAsWritten | pool.hpp:163-167 | the scan from the cursor finds the first word that is not all ones, or reports that every word from the cursor is full |
| PoolFindings.AllocateBatchAsWritten | pool.hpp:160-193 | `allocate(count)` as written, on the bitmap words: each claim retries the same word (`goto AllocateMore`) and may take a padding bit; claims only add used slots and are kept on failure; on success the result is a slot that was free and is now used; a failed call leaves every word from the cursor full; words before the cursor are untouched |
| PoolFindings.AllocateBatchAsWrittenLeaks | pool.hpp:160-193 | a 32-slot pool with slots 0 to 30 used, asked for two slots: as written slot 31 is claimed and stays used though the call fails; the intended call changes nothing |
| PoolFindings.AllocateBatchAsWrittenReturnsLast | pool.hpp:183-188 | an empty two-slot pool asked for two: as written the result is slot 1, intended slot 0 |
| PoolFindings.ClaimAsWritten | pool.hpp:163-188 | a claim as written returns a slot that was free in the first word from the cursor that is not full, with no check against the capacity; it fails exactly when every word from the cursor is full |
| PoolFindings.ClaimAsWrittenPastCapacity | pool.hpp:167-188 | a full one-slot pool: as written the claim returns slot 1, a padding bit |
| PoolFindings.ClearedAsWritten | pool.hpp:125 | `memset` of `used_size` bytes zeroes only the words within the first `used_size` bytes; every later word keeps its old bits |
| PoolFindings.ClearedAsWrittenLeavesUsed | pool.hpp:123-125 | a 64-slot pool over words of all ones: after the `memset` word 0 is `0xFFFF0000` and slot 16 reads as used |
| PoolFindings.CreateAsWritten | pool.hpp:108-134 | as written `create` always ends initialised, even after a failed allocation |
| PoolFindings.CreateAsWrittenSticks | pool.hpp:127-133 | after a failed `create`, a later `create(8)` does nothing |
| PoolFindings.DeallocateCountAsWritten | pool.hpp:198-207 | as written every in-range `deallocate` decrements the count, modulo 2^64 |
| PoolFindings.DeallocateCountAsWrittenWraps | pool.hpp:204-207 | freeing a free slot of an empty pool wraps the count to `SIZE_MAX` |
| PoolFindings.ScannedWordsAsWritten | pool.hpp:226 | `while (used_ptr++ != used_end)` reads words `from + 1` up to and including `used_size` |
| PoolFindings.ScannedWordsAsWrittenSkipsFirst | pool.hpp:287-288 | a one-word pool: the scan reads only word 1, past the end, never word 0 |
| MStoreWords.FreeWordsFor | mstore.hpp:56 | `(n >> 6) + ((n & 63) != 0)` 64-bit words hold `n` slots with fewer than 64 to spare |
| MStoreWords.ClaimInHalf | mstore.hpp:168-177 | with the words before it full, the lowest free bit of a half is the lowest free slot (or there is none past the size), and clearing it is one first-fit claim |
| MStoreWords.TakeInHalf | mstore.hpp:164-181 | the `found:` step gives the `AllocateBatch` outcome for one slot: a claim below the size, no change past it |
| MStoreWords.ReleaseHalf | mstore.hpp:194-199 | `bts` on the slot's bit frees exactly that slot and keeps the padding free |
| MStoreWords.LowestOneAndClear | mstore.hpp:170-177 | `bsf` on a 64-bit word held as two halves finds the lowest set bit and `lea`/`and` clears it |
| MStoreWords.AllocateNone | mstore.hpp:147-161 | when no word has a free bit there is no free slot, and allocation changes nothing |
| MStoreWords.KeptBelow | mstore.hpp:71-77 | the used slots that survive a resize to `n`: those below `n` |
| MStoreWords.VisitOrder | mstore.hpp:220-234 | the lowest remaining bit of the scanned word is the next used slot in ascending order |
| MStoreWords.ScanOrder | mstore.hpp:220-234 | a step of the inner scan over both halves appends the next used slot in order |
| MStoreWords.ScanDone | mstore.hpp:216-241 | once a word's bits are used up the visited slots cover every used slot of that word |
| MStoreModel.MStore.constructor | mstore.hpp:33 | an empty store: no slots, no words, nothing used, on arrays of its own |
| MStoreModel.MStore.WithSize | mstore.hpp:34 | `mstore(n)`: `n` free slots in `ceil(n/64)` words, or an empty store when allocation fails, on arrays of its own |
| MStoreModel.MStore.Release | mstore.hpp:87-98 | no slots, no words, cursor at the start, nothing used, the old arrays no longer held |
| MStoreModel.MStore.Resize | mstore.hpp:52-82 | failure (only for `n > 0`) releases the store; success gives `n` slots and `ceil(n/64)` words, keeps the used slots below `n` and the payloads below both sizes, zeroes new payloads, resets the cursor; either way the arrays are newly allocated |
| MStoreModel.MStore.FreeTail | mstore.hpp:71-79 | the intended end of a shrink: the bits of the dropped slots in the last word are set (free), and every other half is kept |
| MStoreModel.MStore.ResizedWords | mstore.hpp:56-79 | the reallocated free words record exactly the old used slots below the new size |
| MStoreModel.MStore.ShrunkWords | mstore.hpp:56-79 | shrinking frees the dropped slots of the last word, so only the used slots below the new size remain |
| MStoreModel.MStore.CopyWords | mstore.hpp:58-73 | `realloc` of the free words keeps the old words and fills new ones with all ones (free) |
| MStoreModel.MStore.CopyData | mstore.hpp:59-74 | `realloc` of the payloads keeps the old ones and fills new ones with zero |
| MStoreModel.MStore.Allocate | mstore.hpp:136-182 | the used set and result are those of a one-slot `AllocateBatch`: the lowest free slot is claimed, or nothing changes; the cursor moves to the word of the slot returned, and on failure stays or, when the only free bit is in the padding, moves to the last word |
| MStoreModel.MStore.TakeInWord | mstore.hpp:164-181 | the claim in the first word with a free bit gives the one-slot `AllocateBatch` outcome; the cursor becomes that word, the slot lies in it, and a bit in the padding means it is the last word |
| MStoreModel.MStore.FoundSlot | mstore.hpp:171-179 | the `bsf` slot is 32 per half before half `h` plus the lowest free bit of that half, and lies inside half `h` |
| MStoreModel.MStore.ClearFound | mstore.hpp:164-177 | the cursor moves to word `k` and half `h` takes the value with the found bit cleared; nothing else changes |
| MStoreWords.SlotInWord | mstore.hpp:179 | a slot found in either half of word `k` lies in word `k`, and when it is in the padding word `k` is the last word |
| MStoreModel.MStore.Deallocate | mstore.hpp:186-200 | the slot leaves the used set; the cursor moves back to its word when that lies before it |
| MStoreModel.MStore.Iterate | mstore.hpp:204-242 | the callback receives the used slots in ascending order, each once |
| MStoreModel.MStore.IterateWords | mstore.hpp:210-241 | the outer loop over the `fsize` words visits the used slots in order |
| MStoreModel.MStore.VisitWord | mstore.hpp:218-235 | the inner loop over one complemented word extends the visited slots by that word's used slots in order |
| MStoreModel.MStore.Put | mstore.hpp:45 | a store through `operator[]` changes that payload only; the used set is unchanged |
| MStoreFindings.FreeSizeAsWritten | mstore.hpp:56 | `new_fsize` as written is 8 times the intended word count |
| MStoreFindings.FreeSizeAsWrittenOverruns | mstore.hpp:56 | read as a word count, the size exceeds the words allocated by at least 7 |
| MStoreFindings.GrowStartAsWritten | mstore.hpp:73 | the growing `memset` starts at word `8 * ceil(n/64)`, past the `ceil(n/64)` words held before growing |
| MStoreFindings.GrowStartAsWrittenOutside | mstore.hpp:73 | growing from 64 to 128 slots: the `memset` starts at word 8 of 2 |
| MStoreFindings.ScanCountAsWritten | mstore.hpp:141 | `fsize - (free - last)` is `fsize + k` from cursor word `k` |
| MStoreFindings.ScanCountAsWrittenOverruns | mstore.hpp:141-153 | from word 1 of 2 the scan covers 3 words |
| MStoreFindings.SlotAsWritten | mstore.hpp:179 | `slot += (ptr - free) / sizeof(msfree_t)` gives a slot below the intended one for every word after the first |
| MStoreFindings.SlotAsWrittenCollides | mstore.hpp:179 | bit 1 of word 0 and bit 0 of word 8 both come out as slot 1 |
| MStoreFindings.AllocateResultAsWritten | mstore.hpp:161 | the failure result 0 equals the slot-0 result |
| MStoreFindings.FailureLooksLikeSlotZero | mstore.hpp:155-181 | claiming in an empty and in a full one-slot store both return 0 |
| MStoreFindings.TakeAsWritten | mstore.hpp:147-181 | as written the claim takes any free bit, padding included |
| MStoreFindings.TakeAsWrittenPastSize | mstore.hpp:164-181 | a full one-slot store: as written the claim returns slot 1 |
| MStoreFindings.ShrunkAsWritten | mstore.hpp:56-79 | a shrinking `resize` keeps the leading words unchanged |
| MStoreFindings.ShrunkAsWrittenKeepsDropped | mstore.hpp:204-241 | after shrinking 64 slots to 1, dropped slot 5 is still visited by `iterate` |
| BitstoreBits.BytesFor | bitstore.cpp:17 | `(bits >> 3) + ((bits & 7) ? 1 : 0)` bytes hold `bits` bits with fewer than 8 to spare |
| BitstoreBits.Bits | bitstore.cpp:33 | the bit view has 8 bits per byte, bit `s` read from byte `s >> 3` at position `s & 7` |
| BitstoreBits.BitsInjective | bitstore.cpp:31-34 | two byte arrays with the same bits are equal |
| BitstoreBits.FieldValueBits | bitstore.cpp:64-67 | a field read is a number below `2^bits` whose binary digit `i` is bit `slot + i` |
| BitstoreBits.FieldRoundTrip | bitstore.cpp:64-76 | reading a field after writing `value` into it gives `value` |
| BitstoreBits.FieldWrittenFrame | bitstore.cpp:69-76 | writing a field changes no bit outside it |
| BitstoreBits.FieldSetToAsWrite | bitstore.cpp:78-86 | `setOn`/`setOff` of a field equal writing all ones/zero into it |
| BitstoreBits.FieldFlipTwice | bitstore.cpp:88-91 | flipping a field twice restores the bits |
| BitstoreBits.AllOnesBits | bitstore.cpp:66 | the mask `(1 << bits) - 1` has exactly its low `bits` digits set |
| BitstoreBits.FieldMaskByteBit | bitstore.cpp:80 | each byte of the shifted field mask has set exactly the bits inside the field |
| BitstoreBits.FieldMask64Bit | bitstore.cpp:74-90 | bit `i` of the intended 64-bit mask `((1 << bits) - 1) << (slot & 7)` is set exactly when `slot & 7 <= i < (slot & 7) + bits` |
| BitstoreBits.FieldInWindow | bitstore.cpp:71 | a field of fewer than 31 bits lies within the 8 bytes read at byte `slot >> 3` |
| BitstoreFindings.IntMaskAsWritten | bitstore.cpp:74-90 | the mask as the code builds it, an `int` widened to 64 bits: the intended mask when `bits + (slot & 7) <= 31`, else bits 32 to 63 all set |
| BitstoreFindings.IntMaskAsWrittenSpills | bitstore.cpp:80 | `slot & 7 = 2`, `bits = 30`: the mask as written is `0xFFFF_FFFF_FFFF_FFFC` and covers bit 40, the intended one does not |
| BitstoreModel.FillByte | bitstore.cpp:18 | the fill byte has every bit equal to `value` |
| BitstoreModel.Bitstore.constructor | bitstore.hpp:14-15 | no bytes, size 0, on an array of its own |
| BitstoreModel.Bitstore.Filled | bitstore.hpp:17-18 | `bitstore(bits, value)`: `ceil(bits/8)` bytes, every bit equal to `value`, on an array of its own |
| BitstoreModel.Bitstore.Wrap | bitstore.hpp:20-21 | wraps the given bytes with size 0 |
| BitstoreModel.Bitstore.Alloc | bitstore.cpp:15-26 | the store grows by `ceil(bits/8)` bytes, keeps its old bytes, and every new bit equals `value` |
| BitstoreModel.Bitstore.Get | bitstore.cpp:31-34 | bit `slot` of the bit view |
| BitstoreModel.Bitstore.Index | bitstore.hpp:53-54 | the same bit as `get(slot)` |
| BitstoreModel.Bitstore.Set | bitstore.cpp:36-43 | the bit view with bit `slot` set to `value`, every other bit kept |
| BitstoreModel.Bitstore.SetOn | bitstore.cpp:45-49 | the bit view with bit `slot` set, every other bit kept |
| BitstoreModel.Bitstore.SetOff | bitstore.cpp:51-55 | the bit view with bit `slot` cleared, every other bit kept |
| BitstoreModel.Bitstore.Flip | bitstore.cpp:57-61 | the bit view with bit `slot` negated, every other bit kept |
| BitstoreModel.Bitstore.GetField | bitstore.cpp:64-67 | a number below `2^bits` whose digit `i` is bit `slot + i` |
| BitstoreModel.Bitstore.SetField | bitstore.cpp:69-76 | the field holds the digits of `value`, the other bits are kept, and reading the field back gives `value`; the mask is the intended 64-bit one (see Findings) |
| BitstoreModel.Bitstore.SetFieldOn | bitstore.cpp:78-81 | every bit of the field set, the other bits kept, with the intended 64-bit mask (see Findings) |
| BitstoreModel.Bitstore.SetFieldOff | bitstore.cpp:83-86 | every bit of the field cleared, the other bits kept |
| BitstoreModel.Bitstore.FlipField | bitstore.cpp:88-91 | every bit of the field negated, the other bits kept, with the intended 64-bit mask (see Findings) |
| BitstoreModel.Bitstore.WrittenBits | bitstore.cpp:71-75 | the masked byte-wise rewrite of the 8-byte window is the field write on the bit view |
| BitstoreModel.Bitstore.SetToBits | bitstore.cpp:78-86 | the byte-wise `\|=`/`&= ~` of the field mask sets/clears exactly the field |
| BitstoreModel.Bitstore.FlippedBits | bitstore.cpp:88-91 | the byte-wise `^=` of the field mask negates exactly the field |
| BitstoreModel.Bitstore.SetAll | bitstore.cpp:94-100 | every bit of the `size` bytes equals `value`; bytes past `size` are untouched |
| BitstoreFindings.AllocLengthAsWritten | bitstore.cpp:17-20 | the array `alloc` allocates is shorter than old size plus new bytes whenever the store held bytes |
| BitstoreFindings.AllocWrittenAsWritten | bitstore.cpp:22-23 | `alloc` writes indices `size` up to `size + ceil(bits/8) - 1` |
| BitstoreFindings.AllocAsWrittenOutside | bitstore.cpp:17-23 | a one-byte store growing by 8 bits: a one-byte array, index 1 written, the old byte lost |
| BitstoreFindings.AllocAsWrittenOverruns | bitstore.cpp:17-23 | whenever the store held bytes and grows, the last index written lies past the new array |
| LListModel.Inserted | llist.hpp:71-90 | `k` new nodes after node `at`: the prefix kept, `k` blanks, the rest shifted by `k` |
| LListModel.Removed | llist.hpp:97-125 | the list without nodes `lo ..= hi`: the prefix kept, the rest shifted back |
| LListModel.Exchanged | llist.hpp:189-216 | elements `a` and `b` exchanged, every other element kept |
| LListModel.InsertedIntoEmpty | llist.hpp:135-141 | nodes inserted into an empty list are all blank |
| LListModel.RemoveInserted | llist.hpp:51-125 | removing the nodes just inserted restores the list |
| LListModel.ExchangeTwice | llist.hpp:189-216 | swapping the same two elements twice restores the list |
| LListModel.LList.constructor | llist.hpp:129-133 | the sentinel alone, the cursor on it |
| LListModel.LList.WithNodes | llist.hpp:135-141 | `llist(n)`: `n` blank elements (fewer when the heap runs out), the cursor on the last |
| LListModel.LList.Traverse | llist.hpp:29 | `TRAVERSE(slot)` leaves the cursor on node `slot` |
| LListModel.LList.PrivAlloc | llist.hpp:51-95 | fresh nodes inserted after node `startSlot - 1`, padded up to the end when `startSlot` is past it; result is the last node made, or failure after `room` nodes |
| LListModel.LList.PrivDealloc | llist.hpp:97-125 | nodes `lo ..= hi` removed (bounds in either order), the cursor on the node before them; nothing changes past the end |
| LListModel.LList.AllocAt | llist.hpp:148-149 | elements inserted before element `startSlot`; result is the index of the last new element |
| LListModel.LList.Alloc | llist.hpp:219-220 | elements appended; result is the index of the last element |
| LListModel.LList.DeallocRange | llist.hpp:151-152 | elements `from ..= to` removed; nothing changes past the end |
| LListModel.LList.Dealloc | llist.hpp:222-223 | element `slot` removed; nothing changes past the end |
| LListModel.LList.Index | llist.hpp:155-166 | element `slot`, the list unchanged, the cursor on its node |
| LListModel.LList.Swap | llist.hpp:189-216 | two distinct elements in range exchanged; otherwise the list unchanged |
| LListModel.LList.Size | llist.hpp:225-226 | the number of elements |
| LListModel.LList.First | llist.hpp:232-233 | the first element |
| LListFindings.RemovedAsWritten | llist.hpp:97-125 | `privDealloc` as written removes `hi - lo` nodes, one fewer than the inclusive range |
| LListFindings.DeallocAsWrittenRemovesNothing | llist.hpp:222-223 | as written `dealloc(slot)` removes nothing, intended one element |
| LListFindings.SwapAsWritten | llist.hpp:196-215 | `swap` as written exchanges a link with itself |
| LListFindings.SwapAsWrittenChangesNothing | llist.hpp:196-215 | as written `swap` never changes the list |
| LListFindings.SwapAsWrittenExample | llist.hpp:189-216 | on `[1, 2]`, `swap(0, 1)` as written leaves `[1, 2]`, intended `[2, 1]` |
| StringFunctions.Scan | functions.cpp:95 | the first index at or after `i` holding the stop character or a NUL, with none before it |
| StringFunctions.CStrLen | functions.cpp:31-32 | the index of the first NUL |
| StringFunctions.CStr | functions.cpp:42 | the characters before the first NUL, with no NUL among them |
| StringFunctions.Mov | functions.cpp:12-17 | `length` elements copied from `from` into `to`, lowest first, nothing else written |
| StringFunctions.Length | functions.cpp:27-35 | the string's length modulo 2^16, its exact length when below 2^16 |
| StringFunctions.Compare | functions.cpp:40-47 | true exactly when the two C strings are equal |
| StringFunctions.FirstOccurrence | functions.cpp:57-58 | the first position from `p` on where `t` occurs, with no occurrence before it; none when `t` does not occur |
| StringFunctions.Find | functions.cpp:66-81 | the position just past the first occurrence, as a 16-bit value, or 0xFFFF when there is none |
| StringFunctions.MatchExtends | functions.cpp:72 | one more equal character extends the partial match |
| StringFunctions.MatchFound | functions.cpp:74-75 | reaching `tofind`'s NUL means `tofind` occurs at this position |
| StringFunctions.MatchFails | functions.cpp:72-77 | a mismatch before `tofind`'s NUL means no occurrence at this position |
| StringFunctions.ParamStart | functions.cpp:92 | a call starts at or after the cursor and never past the string's NUL: the separator is skipped except on the first call and when the cursor rests on the NUL |
| StringFunctions.NextParam | functions.cpp:86-102 | the parameter from the cursor: quoted up to the next `"`, else up to the next space, stopping at a NUL; failure exactly at a NUL with nothing to copy; a closing quote, and only a quote, stepped over |
| StringFunctions.ParamStaysInside | functions.cpp:92-98 | after any call the cursor still has the NUL at or after it, so the reader can be called again |
| StringFunctions.ParamEndFails | functions.cpp:97 | a call from a cursor resting on the NUL fails and leaves the cursor there |
| StringFunctions.LastParamThenFails | functions.cpp:92-98 | after the parameter that the NUL ends, the next call fails |
| StringFunctions.ParamAdvances | functions.cpp:92-98 | after a successful call the next call starts past the parameter copied, or fails at the NUL |
| StringFunctions.ParamStuckOnLeadingSpace | functions.cpp:88-92 | a string starting with a space yields the same empty parameter on every call, since cursor 0 also means "first call" |
| StringFunctions.ParamReader.constructor | functions.cpp:88 | the cursor starts at 0 |
| StringFunctions.ParamReader.GetStrParam | functions.cpp:86-102 | copies the next parameter into `output`, NUL-terminated, and moves the cursor as `NextParam` says; fails, writing nothing, when the cursor rests on the NUL; the cursor stays inside the string, so every call after the last parameter fails (the intended reader; see Findings) |
| StringFindings.LengthAsWritten | functions.cpp:27-35 | as written the length is counted modulo 256 |
| StringFindings.LengthAsWrittenWraps | functions.cpp:29-32 | a 256-character string has length 0 as written, 256 in the 16-bit result type |
| StringFindings.MatchAsWritten | functions.cpp:72 | the inner loop as written compares past both NULs until a mismatch or the end of a buffer |
| StringFindings.FindAsWritten | functions.cpp:66-81 | `find` as written, failing when it reads past a buffer |
| StringFindings.FindAsWrittenReadsPast | functions.cpp:72 | `find("ab", "ab")` in buffers ending at the NUL reads past both |
| StringFindings.FindAsWrittenMisses | functions.cpp:64-75 | `find("b", "b")` with different bytes after the NULs: 0xFFFF as written, 1 intended |
| StringFindings.ParamStartAsWritten | functions.cpp:92 | as written a call starts one past any non-zero cursor, also when that is the NUL |
| StringFindings.ParamScanAsWritten | functions.cpp:92-98 | one call as written: the parameter runs up to the terminator or a NUL, and a quoted one steps the cursor past whatever stopped it |
| StringFindings.NeverFailsAsWritten | functions.cpp:95-97 | as written `getStrParam` never returns false |
| StringFindings.StartsPastNulAsWritten | functions.cpp:92-97 | as written, after a call that stopped at the NUL with the cursor off 0, the next call starts past the NUL |
| StringFindings.ReadsPastEndAsWritten | functions.cpp:92-98 | `"a b"`: as written the third call starts at index 4, past the NUL at 3; the intended third call fails |
| StringFindings.EmptyInputAsWritten | functions.cpp:86-102 | an empty string on the first call: success as written, failure intended |

## Left out

- Heap allocation: `new`, `delete`, `realloc` and `free` are arrays that Dafny allocates. A failure is the `allocFails` or `room` parameter. Freeing memory and the destructors `~Pool`, `~mstore`, `~bitstore` and `~llist` are not modelled.
- Inline assembly in `mstore::allocate`, `deallocate` and `iterate` (`bsf`, `lea`/`and`, `bts`): modelled by its effect on the word, not instruction by instruction.
- Callbacks (`func_ptr`, `function(object_ptr, argument)`): modelled as the sequence of slots passed, in order. What a callback does to the store is not modelled.
- Integer widths: `size_t`, `uint64_t` and `uint32_t` counters are unbounded naturals. Wrap-around is written out only where it matters: the 16-bit results of `length` and `find`, the 8-bit counter of `length` as written, and the count in `PoolFindings.DeallocateCountAsWritten`. The `uint16_t findSlot` of `find` wraps for a `tofind` of 65536 or more characters; the model counts it without bound.
- PoolModel.Pool.Create: the cursor starts at word 0. The code never initialises `free_ptr`, an indeterminate pointer the model does not represent.
- PoolModel.Pool.Destroy: the cursor is reset to word 0. The code leaves `free_ptr` pointing into the deleted bitmap; the model keeps the cursor within the (now empty) bitmap instead, and a later `create` starts from word 0 either way.
- PoolModel.Pool.Get and MStoreModel.MStore.Get: reads through `operator[]` are plain array reads with no contract beyond the bound. Writes are `Put`.
- `mstore` words are held as two 32-bit halves, low half first. The 64-bit `bsf` is the lowest set bit of the low half when it has one, else of the high half.
- BitstoreModel.Bitstore.SetField: requires `value < 2^bits`. The code ORs in the whole shifted `value`, which also sets bits past the field when `value` is larger.
- BitstoreModel.Bitstore.SetField: applies the intended 64-bit mask `BitstoreBits.FieldMask64`. The code's `int` mask sign-extends when `bits + (slot & 7) >= 32`, and then bits 32 to 63 of the window are cleared too (see Findings).
- BitstoreModel.Bitstore.SetFieldOn: applies the intended 64-bit mask. As written, when `bits + (slot & 7) >= 32`, bits 32 to 63 of the window are set too (see Findings). `SetFieldOff` widens the mask before shifting, so it is modelled as written.
- BitstoreModel.Bitstore.FlipField: applies the intended 64-bit mask. As written, when `bits + (slot & 7) >= 32`, bits 32 to 63 of the window are flipped too (see Findings).
- BitstoreModel.Bitstore.GetField, SetField, SetFieldOn, SetFieldOff, FlipField: require `bits < 31` and the field inside the array. The code's `0x1 << bits` is an `int` shift, so larger fields are undefined. The 8-byte window may reach past the array, and bytes past its end are not modelled.
- MStoreModel.MStore.Deallocate: requires the slot's word to lie inside the free array. `bts` on a word past it writes outside the array, which has no value to model.
- `bitstore::dealloc` is declared but has no definition, so there is nothing to model.
- `llist::operator=` is commented out in the code and is not modelled.
- `root` (functions.cpp) is floating-point Newton iteration and is not modelled.
- LListModel.LList: the nodes are a sequence of element values plus the cursor's node index. Node identity, pointer aliasing and `temp` are not modelled. New nodes hold the `blank` parameter, standing for `new node`'s default-initialised data.
- LListModel.LList.PrivAlloc and PrivDealloc: require node bounds of at least 1, as every caller passes. The code's `startSlot--` and `from--` wrap around at 0 in `uint64_t`.
- LListModel.LList.AllocAt and Alloc: require that something be allocated or that the list be non-empty. Otherwise the code returns a reference to the sentinel's nonexistent `data`, which has no value to model.
- StringFunctions.Mov: requires the target not to overlap the source at a higher offset. The forward copy then smears the first elements, and the model does not state that result.
- StringFunctions.ParamReader.GetStrParam: models the intended reader, whose cursor never passes the NUL. As written, after a parameter ended by the NUL the next call reads past the string (see Findings); `StringFindings.ParamScanAsWritten` models that cursor.
- StringFunctions.ParamReader.GetStrParam: requires `output` to be large enough for the parameter and its NUL. The code writes past a shorter buffer.
- Reading past a NUL-terminated buffer is undefined. The as-written `find` (`StringFindings.FindAsWritten`) returns `None` in that case rather than modelling memory beyond the buffer.

## Findings

| source | as written | input that shows it | evidently intended | confidence | as-written member | corrected member |
|---|---|---|---|---|---|---|
| pool.hpp:187-188 | slot number is `(word offset << 3) + bit` | bit 0 of word 1 and bit 8 of word 0 both give slot 8 | `32 * word + bit`, one slot per bit | high; not executed | PoolFindings.SlotIndexAsWrittenCollides | SlotBitmap.SlotIndexBijective |
| pool.hpp:160-193 | `allocate(count)` keeps the claims it made when it runs out of free slots | 32-slot pool with slots 0 to 30 used, `allocate(2)`: slot 31 is claimed and stays used, result `POOL_ERROR` | a failed batch changes nothing | medium; not executed | PoolFindings.AllocateBatchAsWrittenLeaks | SlotSpec.AllocateBatchAtomic |
| pool.hpp:183-188 | `allocate(count)` returns the slot of the last claim | empty two-slot pool, `allocate(2)` returns 1 | the first (lowest) slot claimed | medium; not executed | PoolFindings.AllocateBatchAsWrittenReturnsLast | PoolModel.Pool.Allocate |
| pool.hpp:167-188 | the claimed bit is not compared with `pool_size` | one-slot pool with slot 0 used: `allocate()` returns 1 | `POOL_ERROR` when the bit is past the capacity | high; not executed | PoolFindings.ClaimAsWrittenPastCapacity | SlotBitmap.FirstNonFullWord |
| pool.hpp:125 | `memset(used, 0, used_size)` clears `used_size` bytes, a quarter of the words | 64-slot pool over memory of all ones: slot 16 reads as used | the whole bitmap cleared | high; not executed | PoolFindings.ClearedAsWrittenLeavesUsed | PoolModel.Pool.Create |
| pool.hpp:127-133 | `initialised = true` also after a failed allocation destroyed the pool | failed `create`, then `create(8)`: still no slots | the pool can be created again | medium; not executed | PoolFindings.CreateAsWrittenSticks | PoolModel.Pool.Create |
| pool.hpp:204-207 | `used_count--` whether or not the slot was used | empty one-slot pool, `deallocate(0)`: count wraps to `SIZE_MAX` | the count stays the number of used slots | high; not executed | PoolFindings.DeallocateCountAsWrittenWraps | PoolModel.Pool.Deallocate |
| pool.hpp:226 | `while (used_ptr++ != used_end)` steps before reading | one-word pool: word 1 (past the end) read, word 0 never | words 0 to `used_size - 1` | high; not executed | PoolFindings.ScannedWordsAsWrittenSkipsFirst | PoolModel.Pool.Iterate |
| mstore.hpp:56 | `new_fsize` multiplies the word count by `sizeof(msfree_t)` | 1 slot: `fsize` 8, one word allocated | `fsize` counts words | high; not executed | MStoreFindings.FreeSizeAsWrittenOverruns | MStoreWords.FreeWordsFor |
| mstore.hpp:73 | `memset(free + fsize, ...)` offsets a word pointer by a byte count | growing from 64 to 128 slots starts at word 8 of 2 | start at the first new word | high; not executed | MStoreFindings.GrowStartAsWrittenOutside | MStoreModel.MStore.CopyWords |
| mstore.hpp:141 | `count = fsize - (free - last)` adds the cursor offset | cursor on word 1 of 2: 3 words scanned | `fsize - (last - free)` words | high; not executed | MStoreFindings.ScanCountAsWrittenOverruns | MStoreModel.MStore.Allocate |
| mstore.hpp:179 | `slot += (ptr - free) / sizeof(msfree_t)` | bit 1 of word 0 and bit 0 of word 8 both give slot 1 | `slot += 64 * (ptr - free)` | high; not executed | MStoreFindings.SlotAsWrittenCollides | MStoreModel.MStore.TakeInWord |
| mstore.hpp:161 | failure returns 0, also a valid slot | full and empty one-slot stores both return 0 | a failure value no slot has | medium; not executed | MStoreFindings.FailureLooksLikeSlotZero | MStoreModel.MStore.Allocate |
| mstore.hpp:164-181 | the bit found is not compared with `dsize` | full one-slot store: slot 1 returned | no slot past the size | high; not executed | MStoreFindings.TakeAsWrittenPastSize | MStoreWords.TakeInHalf |
| mstore.hpp:71-79 | a shrinking `resize` leaves the dropped slots' bits in the last word | 64 slots with 0 and 5 used, shrunk to 1: `iterate` still visits 5 | dropped slots read as free | high; not executed | MStoreFindings.ShrunkAsWrittenKeepsDropped | MStoreModel.MStore.ShrunkWords |
| bitstore.cpp:17-23 | `alloc` allocates only the new bytes and fills indices from the old size | one-byte store, `alloc(8, v)`: one-byte array, index 1 written | the array grows by the new bytes and keeps the old ones | high; not executed | BitstoreFindings.AllocAsWrittenOutside | BitstoreModel.Bitstore.Alloc |
| llist.hpp:108-120 | `from--; to--;` then unlinks while `currentSlot < to`: one node fewer than `from ..= to` | `dealloc(0)` on a one-element list removes nothing | nodes `from ..= to` removed | high; not executed | LListFindings.DeallocAsWrittenRemovesNothing | LListModel.LList.PrivDealloc |
| llist.hpp:196-215 | the larger index is traversed to first, so both link pointers are the same node | `swap(0, 1)` on `[1, 2]` leaves `[1, 2]` | `[2, 1]` | high; not executed | LListFindings.SwapAsWrittenExample | LListModel.LList.Swap |
| functions.cpp:29-32 | the length is counted in a `uint8_t` | a 256-character string gives 0 | 256, which the 16-bit result holds | high; not executed | StringFindings.LengthAsWrittenWraps | StringFunctions.Length |
| functions.cpp:72-75 | the inner loop compares past `tofind`'s NUL | `find("b", "b")` with different bytes after the NULs gives 0xFFFF | 1 | high; not executed | StringFindings.FindAsWrittenMisses | StringFunctions.Find |
| bitstore.cpp:74-90 | the field mask `((0x1 << bits) - 1) << (slot & 7)` is an `int`, which overflows and sign-extends when widened to 64 bits | `slot & 7 = 2`, `bits = 30`: the mask is `0xFFFF_FFFF_FFFF_FFFC` and covers bit 40 | a mask confined to the field, as `setOff` gets by widening first | high; not executed | BitstoreFindings.IntMaskAsWrittenSpills | BitstoreBits.FieldMask64Bit |
| functions.cpp:92-98 | the cursor steps one past the previous stop even when that was the NUL | `"a b"`: calls 1 and 2 give `a` and `b`, call 3 starts reading at index 4, past the NUL | the call after the last parameter fails | high; not executed | StringFindings.ReadsPastEndAsWritten | StringFunctions.LastParamThenFails |
| functions.cpp:95-97 | the `for` has no body of its own, so the failure test runs only after a non-NUL character | first call on `""` returns true with an empty parameter | false when nothing is left | medium; not executed | StringFindings.EmptyInputAsWritten | StringFunctions.ParamReader.GetStrParam |
