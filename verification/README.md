# A verified model of the boot loader's memory and arithmetic core

This project models the hardware-independent core of a small boot loader for 32-bit ARM in Dafny and proves what that
code is for. Words are 32 bits wide (`Words.dfy`); pointers, `long` and `size_t` are words too, and wrap-around is
written out where the code relies on it or suffers from it.

| part | files | what is proved |
|---|---|---|
| allocator | `HeapShape` to `HeapRun`, `MemLib` | every call keeps one invariant over headers, footers, bins and bitmap; exact failure conditions; best fit before growth; whole runs of a client |
| division | `UDivModDI4`, `DivModSI4` | quotient and remainder for every operand, wrapped cases included |
| memory copy | `MemCpy` | word merging refines the byte copy, forward overlap included |
| environment | `EnvItems`, `EnvSet` | the byte area is a finite map, and its tail is found again by bisection |
| CRC | `CrcRegister`, `Crc32` | the table is the bit-serial register; burst errors are detected; the residue is constant |
| text | `StrToUl`, `NumberText`, `Numerals`, `Printf`, `Sizes` | exact parsing of every written number, layout of printed fields, and the round trip of sizes |
| block device | `DmaChain`, `MmcDev` | split transfers are flat copies; descriptor chains cover their buffers |
| tables and tasks | `HushTable`, `MallocRes`, `FindParts`, `MtdLists`, `MtdTables`, `MtdSpecs`, `Task` | traversals, accounting, the partition search, periodic runs |

`dafny verify dfyconfig.toml` checks the whole project.

**How the allocator is layered.** `MemLib.Heap` works on memory as the code does, word by word: control block, bins and
chunks are all in one map from word addresses to words. Its ghost `Shape` says where chunks begin, how long they are and
which are live, and its ghost lists say what each bin holds. `HeapState.Consistent` ties the three together: chunks tile
the heap, PREV_INUSE bits and footers tell the truth, no two free chunks touch, each bin is a closed double ring, sorted,
with its chunks in the right bin, a clear bitmap bit means four empty bins, and top is either the sentinel of bin 0 or ends
at the break on a page boundary. Each method of the class is proved against a move of the shape (`Take`, `Split`,
`Freed`, `Resize`), and the lemmas of `HeapShape` and `HeapTheorems` say what these moves mean.

Elsewhere the same pattern holds: a class or a loop with the fields and steps of the code, a small function that says
what it should compute, and lemmas that say why that function is the right one (a map, a bit-serial register, a flat
copy, a grammar, a value).

## Model

| member | source | states |
|---|---|---|
| MemLib.Heap.MemlibInit | libs/memlib.c:271-301 | NULL exactly for a region of at most 1056 + 4096 bytes; otherwise a control block with no chunk and every bin its own sentinel, no word outside it written, and the heap invariant exactly if memlib_sbrk judges all steps in the region correctly |
| MemLib.Heap.constructor | libs/memlib.c:276-298 | The state that memlib_init builds in any memory: no chunk, empty bins, the break at the start; the invariant holds exactly for regions shorter than 0x7FFFF000 |
| HeapRequest.Request2SizeExact | libs/memlib.c:38-40 | The size macro gives room for the request plus one word exactly when the request is at most 0x7FFFFFF4, and then less than 12 bytes too many (or MINSIZE); just above that the signed comparison yields MINSIZE |
| HeapBins.BinIndexMonotone | libs/memlib.c:84-91 | The bin of a larger size is never an earlier bin, across all six ranges |
| HeapBins.BinIndexRange | libs/memlib.c:84-91 | Sizes fall into bins 2 to 126, small sizes exactly into bins below 64 |
| HeapBins.UnlinkLists | libs/memlib.c:97-103 | Unlinking the k-th chunk of bin i leaves all 128 doubly linked rings closed, drops exactly that chunk from exactly that list, keeps bins sorted and the bitmap conservative, and writes only list links |
| HeapBins.MarkKeeps | libs/memlib.c:66-74 | Marking a bin sets the bit of its block of four and no other |
| HeapBins.UnmarkMarked | libs/memlib.c:458-467 | Clearing the bit of a block whose four bins are empty keeps: a clear bit means four empty bins |
| HeapBins.SlotLists | libs/memlib.c:76-79 | Putting a chunk into the last-remainder slot replaces what the slot held and keeps every other list |
| MemLib.Heap.FrontLink | libs/memlib.c:105-129 | A chunk taken off the lists goes back on exactly one list, at a place that keeps that bin sorted by size, with its block marked; the heap invariant holds again and no payload changes |
| MemLib.Heap.FindPlace | libs/memlib.c:120-124 | The walk stops between a chunk at least as large and one no larger |
| MemLib.Heap.Sbrk | libs/memlib.c:132-143 | The break moves by the increment modulo 2^32, or is refused and unchanged outside the region |
| HeapRequest.ForwardStep | libs/memlib.c:132-175 | In a region shorter than 0x7FFFF000 the wrapped comparison refuses a step forward exactly if it does not fit, and an accepted sum does not wrap |
| HeapRequest.RegionExact | libs/memlib.c:132-175 | memlib_sbrk refuses exactly the steps that do not fit, for every break in the region and every extension the allocator asks for, if and only if the region is shorter than 0x7FFFF000; the largest extension is attained |
| HeapRequest.Correction | libs/memlib.c:185-199 | The second request aligns the first payload to 8 and the end of the heap to a page, and is at most 64 KiB |
| MemLib.Heap.ExtendTop | libs/memlib.c:146-228 | Unless the computed end passes the region, top gets room for the request and a remainder: whole pages, as few as suffice, or at first an aligned start and an end on a page; refused (also at the second sbrk) it leaves the chunks as they were; payloads and invariant are kept |
| MemLib.Heap.FindInBin | libs/memlib.c:364-383 | Scanning a bin from the back finds the smallest sufficient chunk: all behind it are too small |
| MemLib.Heap.FindSmall | libs/memlib.c:341-362 | A small request looks into its own bin and the next only, and fails only if both are empty |
| MemLib.Heap.TryLarge | libs/memlib.c:364-383 | The bin of a large request is used, or holds nothing that fits |
| MemLib.Heap.UseSlot | libs/memlib.c:385-408 | The last remainder is split, used whole, or put into its bin when it is too small |
| MemLib.Heap.TryFree | libs/memlib.c:339-478 | The bins, the last remainder and the block scan serve the request if and only if some free chunk is large enough, and with the chunk that the policy says |
| MemLib.Heap.SkipBlocks | libs/memlib.c:418-426 | The loop over the bitmap stops at the first set bit, and the shifted mask never becomes 0 before |
| MemLib.Heap.ScanBlocks | libs/memlib.c:415-478 | The block scan terminates; it finds a chunk that is large enough, or no free chunk of the heap is |
| HeapSearch.LeastInBin | libs/memlib.c:415-454 | In a sorted bin below which nothing fits, the last chunk that suffices is the smallest sufficient chunk of all bins |
| HeapSearch.LargeLeast | libs/memlib.c:364-383 | The chunk that the walk of a large bin finds is the smallest of all bins that suffices; when it is not used, no binned chunk has just nb bytes |
| MemLib.Heap.UseScanned | libs/memlib.c:436-454 | The chunk found is granted whole or split, with the rest in the last-remainder slot |
| HeapSearch.NothingFits | libs/memlib.c:415-478 | With every bin searched and the slot empty, no free chunk of the heap has nb bytes |
| MemLib.Heap.UseTop | libs/memlib.c:480-495 | Top serves the request from its front, as it is if it has room, else after an extension; it fails exactly if top lacks room for nb and a remainder and the extension passes the region |
| MemLib.Heap.MemlibMalloc | libs/memlib.c:314-496 | NULL exactly when the request is negative as a long, or no free chunk holds it, top has no room and the extension is refused. If a free chunk suffices it is used and the break stays: the smallest binned one, unless the last remainder suffices and no binned chunk is exact; nb bytes are cut from its front, or all of it is taken when less than 16 would be left. What is cut off is the new last remainder. Only else top serves, extended by as few pages as suffice if it has no room. All other live chunks and their payloads are unchanged and the heap invariant is kept |
| HeapShape.TakeFrontSound | libs/memlib.c:390-397 | Splitting a free chunk and taking its front keeps tiling, truthful PREV_INUSE bits and no two adjacent free chunks |
| HeapShape.FreedSound | libs/memlib.c:499-571 | Merging a freed chunk with both free neighbours keeps tiling, truthful PREV_INUSE bits and no two adjacent free chunks |
| MemLib.Heap.MergePrevious | libs/memlib.c:545-554 | The footer of the free predecessor leads to its start; it leaves its list unless it is the last remainder, which stays in its slot |
| MemLib.Heap.MergeNext | libs/memlib.c:556-564 | The free successor leaves its list; if it was the last remainder the merged chunk takes the slot |
| MemLib.Heap.FreeIntoTop | libs/memlib.c:524-539 | A chunk below top becomes part of top together with a free predecessor |
| HeapRequest.TrimLeaves | libs/memlib.c:239-245 | From the threshold on a trim gives back at least a page and leaves more than 16 and at most 4112 bytes |
| MemLib.Heap.Trim | libs/memlib.c:231-268 | Top shrinks by exactly the trimmed pages, the break follows, and neither memlib_sbrk call is ever refused |
| MemLib.Heap.MemlibFree | libs/memlib.c:499-571 | The chunk is merged with exactly its free neighbours, or with top; the break moves only if top then has 128 KiB or more, and then top keeps more than 16 and at most 4112 bytes; a last remainder merged with it stays one unless both become top; the payloads of all other live chunks are unchanged and the invariant holds; NULL changes nothing |
| HeapFree.AfterFreeLive | libs/memlib.c:499-571 | A free removes exactly one live chunk; the others stay where they are and as long as they are |
| HeapFree.AfterFreeTrimmed | libs/memlib.c:524-539 | The break moves exactly when the freed chunk joins top and both together have 128 KiB or more |
| HeapRequest.PaddedIsNeeded | libs/memlib.c:599-601 | The condition on alignment and size under which the padded request is not too small, exact in both directions |
| HeapRequest.LeadFits | libs/memlib.c:611-626 | For a power of two the lead skipped is 16 to alignment+8 bytes, a multiple of 8, and ends where the payload is aligned |
| MemLib.Heap.GiveLead | libs/memlib.c:625-635 | The lead is freed, the rest keeps its bytes: nothing of the chunk is lost |
| MemLib.Heap.GiveTail | libs/memlib.c:637-645 | What is left behind nb is freed if it can be a chunk; nb to nb+15 bytes remain |
| MemLib.Heap.AlignedMalloc | libs/memlib.c:574-648 | NULL exactly when the padded request is negative or memlib_malloc fails on it; otherwise an aligned payload in a chunk of nb to nb+15 bytes |
| MemLib.Heap.MemlibMemalign | libs/memlib.c:574-648 | NULL exactly when the request is negative as a long or the heap cannot serve the padded request; otherwise the payload is a multiple of the power-of-two alignment, in a chunk of nb to nb+15 bytes; if a free chunk holds the padded request, the payload lies in the one that the search chooses, at most alignment + 8 bytes into it, and the heap does not grow; all other live chunks and their payloads are unchanged |
| HeapTheorems.ChunksCoverHeap | libs/memlib.c:51-64 | Conservation: the walk over the boundary tags meets every chunk, and the sizes add up to the whole heap from its base to the break |
| HeapTheorems.HeadsLeadOn | libs/memlib.c:47-64 | In memory, each head word gives the next chunk, each PREV_INUSE bit says whether the chunk before is live, each free chunk has its size in its footer |
| HeapTheorems.PayloadsDisjoint | libs/memlib.c:47-49 | Payloads of live chunks are 8-aligned, pairwise disjoint and inside the heap |
| HeapTheorems.PayloadWriteIsSafe | libs/memlib.c:48-49 | A store anywhere into a live payload, its last word (the next chunk's prev_size) included, keeps the heap invariant |
| HeapTheorems.OnExactlyOneList | libs/memlib.c:105-129 | Every free chunk but top is on exactly one list, once: the bin of its size or the last-remainder slot |
| HeapTheorems.AllFreed | libs/memlib.c:499-571 | When nothing is live, the heap is one top chunk from its base to the break and all lists are empty |
| HeapTheorems.FreeUndoesTakeFront | libs/memlib.c:499-571 | Freeing the front just split off a free chunk gives back the very same heap |
| HeapTheorems.FreeUndoesTakeWhole | libs/memlib.c:499-571 | Freeing a free chunk just taken whole gives back the very same heap |
| HeapTheorems.FreeUndoesTakeTop | libs/memlib.c:499-571 | Freeing what was just cut from top gives back the very same heap |
| HeapRun.Run | libs/memlib.c:314-648 | Over every run of malloc, memalign, free and stores by a client: live chunks are exactly the pointers held, no two overlap, none is handed out twice, every word stored and not freed is still there, and with nothing held the heap is one top chunk from its base to the break, all bins empty |
| HeapRun.AllReturned | libs/memlib.c:499-571 | A client that holds nothing leaves one top chunk and empty bins, whatever the run was |
| UDivModDI4.UDivModDI4 | arm/lib/compiler/udivmoddi4.c:44-271 | For all 64-bit a and b other than 0: a = q*b + rem with rem < b |
| UDivModDI4.CompareBySign | arm/lib/compiler/udivmoddi4.c:263-265 | The sign of d - r - 1 decides r >= d without overflow, for every divisor the loop meets |
| UDivModDI4.RemainderBounds | arm/lib/compiler/udivmoddi4.c:249-265 | The shifted remainder fits 64 bits and stays within 2^63 of the divisor |
| UDivModDI4.ShiftRegisters | arm/lib/compiler/udivmoddi4.c:251-255 | The four shifted words are the two registers doubled, the top bit of the lower entering the upper and the carry the lower |
| UDivModDI4.OneTurn | arm/lib/compiler/udivmoddi4.c:249-266 | One turn of the loop keeps: the high bits of a are divided, with the digits so far, the carry and the undivided bits in the registers |
| UDivModDI4.Loop | arm/lib/compiler/udivmoddi4.c:248-271 | From registers that hold a, the loop and the last carry give quotient and remainder |
| UDivModDI4.NormaliseWide | arm/lib/compiler/udivmoddi4.c:162-202 | The branch-free normalisation splits a at bit sr for every sr from 2 to 63, whatever the out-of-range shifts deliver |
| UDivModDI4.MaskSelects | arm/lib/compiler/udivmoddi4.c:189-202 | A mask from the sign bit keeps or cancels a word |
| UDivModDI4.DivideByHigh | arm/lib/compiler/udivmoddi4.c:118-138 | A divisor with a zero low word: quotient and remainder of the double words |
| UDivModDI4.DivideByLow | arm/lib/compiler/udivmoddi4.c:158-203 | A divisor with a zero high word that is no power of two |
| UDivModDI4.DivideByFull | arm/lib/compiler/udivmoddi4.c:204-240 | A divisor with both words: too large gives 0 and a, otherwise the loop runs |
| UDivModDI4.HighPower | arm/lib/compiler/udivmoddi4.c:108-117 | For a power of two in the high word the shift and the mask are quotient and remainder |
| UDivModDI4.LowPower | arm/lib/compiler/udivmoddi4.c:147-157 | For a power of two in the low word the shift over both words and the mask are quotient and remainder |
| DivModSI4.UDivModSI4 | arm/lib/compiler/udivmodsi4.S:53-78 | n = q*b + rem with rem < b for b other than 0, and (0, n) for b = 0, in spite of the early exit and the repeated last step |
| DivModSI4.UDivSI3 | arm/lib/compiler/udivsi3.S:54-77 | The quotient of the division with remainder, 0 for b = 0 |
| DivModSI4.AlignTops | arm/lib/compiler/udivmodsi4.S:55-62 | The leading zeros align the divisor: the shifted divisor fits and twice it passes n, or n < b |
| DivModSI4.DivModSI4 | arm/lib/compiler/divmodsi4.S:59-74 | Truncation toward zero, the remainder with the sign of the dividend; INT_MIN / -1 gives INT_MIN and 0; b = 0 gives 0 and n |
| DivModSI4.DivSI3 | arm/lib/compiler/divsi3.S:56-65 | Truncation toward zero except for INT_MIN / -1, which wraps; 0 for b = 0 |
| DivModSI4.TruncatesOnlyOnce | arm/lib/compiler/divmodsi4.S:59-74 | Only one quotient and remainder truncate toward zero: the contract fixes the result |
| MemCpy.Machine.MemCpy | libs/libc/memcpy.S:90-359 | For dest <= src or disjoint regions and every length below 2^31, all alignments: memory is that of the byte copy, dest holds the original source, nothing else changes |
| MemCpy.ByteCopyMoves | libs/libc/memcpy.S:90-100 | The byte-by-byte copy moves the original bytes, also when the regions overlap forward |
| MemCpy.MergedBytes | libs/libc/memcpy.S:191-359 | Shift and or of two source words give the bytes from the middle of the pair |
| MemCpy.Machine.Loop32 | libs/libc/memcpy.S:110-124 | Blocks of 32 and 16 bytes advance the copy |
| MemCpy.Machine.L12 | libs/libc/memcpy.S:136-163 | The last words and bytes of an aligned copy complete it |
| MemCpy.Machine.AlignDestination | libs/libc/memcpy.S:166-177 | One to three bytes are copied until the destination is aligned |
| MemCpy.Machine.MergingCopy | libs/libc/memcpy.S:185-359 | A misaligned source is copied by merging words, blocks of 16, then 4, then the rest |
| MemCpy.MergeStep | libs/libc/memcpy.S:191-359 | A merged word is the next four source bytes even though the loop reads ahead of what it overwrites |
| EnvSet.Env.NextItem | common/env_set.c:57-80 | The next entry or none, from any entry |
| EnvSet.Env.FindItem | common/env_set.c:83-103 | The first entry of exactly this key and its value, or none |
| EnvSet.Env.TakeOut | common/env_set.c:176-187 | Removing an entry and moving down what follows leaves the other entries packed, in order, with rubbish only between the new and the old tail |
| EnvSet.Env.CopyDown | common/env_set.c:184 | The word-merging copy moves the rest of the area down over the removed entry |
| EnvItems.KeyMatch | common/env_set.c:94 | Prefix and '=' match exactly if the keys are equal |
| EnvSet.FindEnvTail | common/env_set.c:106-133 | The binary search with halved addresses terminates and returns the tail, for every area that holds entries, at any address |
| EnvItems.TwoZerosFromTail | common/env_set.c:106-133 | Two zero bytes stand at a place exactly from the byte before the tail on |
| EnvSet.HalvedBetween | common/env_set.c:118-119 | The sum of the halves lies strictly inside the interval, so the search moves on |
| EnvSet.Env.Set | common/env_set.c:154-205 | An empty key or value changes nothing. If the updated list is shorter than the area, the value is stored, found by its key, no other entry changes and the bytes from the tail on are zero. If not, a new key on a full area changes nothing, and else the last zero byte would go outside the area, which by then holds the other entries and a cut text |
| EnvSet.Env.Clear | common/env_set.c:208-238 | Exactly the entry of the key disappears and the bytes from the new tail on are zero |
| EnvSet.Env.Get | common/env_set.c:241-255 | The value of the key as a string in the area, or none, as the list of entries says |
| EnvItems.UpdatedMap | common/env_set.c:154-205 | env_set is the map update, and keys stay unique |
| EnvItems.ClearedMap | common/env_set.c:208-238 | env_clear is the map removal, and keys stay unique |
| EnvItems.LookupMap | common/env_set.c:241-255 | env_get is the map lookup |
| EnvSet.AfterMap | common/env_set.c:154-238 | Any run of sets and clears, on the list of entries and on the map, ends in the same map |
| EnvSet.AfterFold | common/env_set.c:154-238 | While there is room, the map after a run is the fold of the sets and removals asked for |
| EnvSet.Env.Run | common/env_set.c:154-255 | The byte area follows the map over any run of sets, clears and reloads; with room for every set the map is the plain fold of updates and removals |
| EnvSet.Env.Reload | common/env_set.c:477 | Recovering the tail from the bytes changes nothing |
| EnvSet.LastWriteInside | common/env_set.c:189-199 | The place of the last zero byte, from the length that snprintf returns, is inside the area exactly if the updated list fits |
| EnvSet.AppendDone | common/env_set.c:189-199 | What the text, its zero bytes and the cleared rest make of the area: the updated list if the last write stays inside, otherwise the other entries and the text cut to the room left |
| EnvSet.OverlongEntry | common/env_set.c:161-199 | With an empty store, an entry is accepted and yet does not fit exactly if the area has more than one byte and at most those of key, value and two more |
| EnvSet.Env.SnPrintF | libs/libc/printf.c:172-199 | The text is cut to the buffer and closed with a zero byte; the length returned is that of the whole text |
| Crc32.TableIsSerial | libs/libc/crc32.c:67-111 | Every one of the 256 table entries is eight serial steps of its index with polynomial 0xEDB88320 |
| Crc32.UpdateIsSerial | libs/libc/crc32.c:117-118 | One table step is eight bit-serial steps of the register |
| Crc32.Crc32 | libs/libc/crc32.c:113-121 | For every buffer the table loop is the bit-serial CRC-32 of section 8 of RFC 1952; the seed argument has no effect |
| Crc32.Residue | libs/libc/crc32.c:113-121 | Every buffer followed by its checksum, low byte first, has the checksum 0x2144DF1C |
| Crc32.EmptyCrc | libs/libc/crc32.c:113-121 | The checksum of the empty buffer is 0 |
| CrcRegister.StepInjective | libs/libc/crc32.c:117-118 | A step is injective in the register |
| CrcRegister.FeedInjective | libs/libc/crc32.c:113-121 | Different registers stay different over any common data |
| CrcRegister.FeedIsShift | libs/libc/crc32.c:117-118 | Feeding data bits one by one is the same as adding them to the register first and shifting: why a table works |
| CrcRegister.BurstDetected | libs/libc/crc32.c:113-121 | Two bit strings that differ only inside 32 consecutive bits never have the same register |
| Crc32.WindowDetected | libs/libc/crc32.c:113-121 | Two equally long buffers that differ only inside four consecutive bytes never have the same CRC |
| StrToUl.StrToULL | libs/libc/strtoul.c:122-177 | The value of the longest digit run after blanks, sign and prefix, negated modulo 2^64 after a minus, all ones if it does not fit; the end is just past the last digit, or the start if there is none |
| StrToUl.StrToUL | libs/libc/strtoul.c:63-120 | The same for 32 bits |
| StrToUl.CutoffExact | libs/libc/strtoul.c:149-168 | The cutoff test is true exactly if the next digit would pass the maximum |
| NumberText.TextReads | libs/libc/strtoul.c:122-177 | Every number as it may be written is read, for all bases: blanks, sign, 0x or 0X, digits with letters of either case; its value, saturated or negated, and the end right behind the last digit |
| StrToUl.Digits | libs/libc/strtoul.c:151-169 | The loop ends behind the digit run with its value, or with the overflow mark |
| StrToUl.StandardExactly | libs/libc/strtoul.c:84-89 | The code reads what section 7.22.1.4 of ISO/IEC 9899:2011 asks for exactly if the text is not 0x without a hexadecimal digit (base 0 or 16); there the code consumes nothing and the standard the zero |
| Printf.KsPrintN | libs/libc/printf.c:219-232 | The buffer holds, reversed, the numeral of the number; every digit stays inside exactly if the numeral is shorter than the buffer |
| Numerals.NumeralValue | libs/libc/printf.c:219-232 | A numeral has the value of the number it was made from, in every base from 2 to 36 |
| Numerals.NumeralLower | libs/libc/printf.c:219-232 | Digits past 9 are printed as small letters |
| Numerals.NumeralLength | libs/libc/printf.c:219-232 | A number below base^k has at most k digits |
| Numerals.NumeralLengthExact | libs/libc/printf.c:219-232 | A numeral has at most k digits exactly if the number is below base^k |
| Printf.Sink.PutNumber | libs/libc/printf.c:482-525 | What goes out is laid out as the flags ask, place by place, exactly if the digits fit the buffer of 20 bytes |
| Printf.FieldWidth | libs/libc/printf.c:482-525 | A number field is as wide as asked, or as wide as the number needs |
| Printf.FieldShown | libs/libc/printf.c:482-525 | Blanks, sign, prefix, zeros and digits by place: the 0 flag fills with zeros up to the width; otherwise the precision sets the number of digits and blanks fill the side that the - flag says; # puts 0x or 0 before a non-zero number |
| Printf.FieldReads | libs/libc/printf.c:482-525 | Printed with any flags and read back by the parser, a number has its value |
| Printf.Sink.PutString | libs/libc/printf.c:407-427 | The string, cut to the precision behind a dot, at the side of its field that the - flag says, the rest blanks or zeros |
| Printf.StringWidth | libs/libc/printf.c:407-427 | A string field is as wide as asked, and precision bounds what is taken of the string |
| Printf.Sink.Close | libs/libc/printf.c:172-199 | The buffer holds what fits of the characters sent, and a zero byte; the value returned is the number of all characters sent |
| Sizes.ScaleLoop | libs/libc/printf.c:618-620 | The loop divides by 1024 as often as it can, at most five times |
| Sizes.StepsReach | libs/libc/printf.c:618-620 | It divides j times or more exactly if 1024^j divides the number |
| Sizes.HumanForm | libs/libc/printf.c:612-623 | A number m * 1024^k is printed as m and the k-th of K, M, G, T and T, for m no multiple of 1024 or k = 5 |
| Sizes.DigitsFitExactly | libs/libc/printf.c:612-623 | The scaled number fits the digit buffer of 20 bytes exactly if the number is below 10^19 or a multiple of 1024 |
| Sizes.UlToHStr | libs/libc/printf.c:612-623 | The buffer of 20 bytes holds the scaled number and its suffix; the digits stay inside exactly for numbers below 10^19 and multiples of 1024 |
| Sizes.MemParse | libs/libc/util.c:115-137 | A number, scaled modulo 2^64 by its suffix, and the place behind it |
| Sizes.ShiftedIs | libs/libc/util.c:124-128 | The shifts multiply by the power of 1024, modulo 2^64 |
| Sizes.SuffixScales | libs/libc/util.c:115-137 | K or k scales by 2^10, M or m by 2^20, G or g by 2^30, modulo 2^64, and is consumed; any other character is left alone |
| Sizes.RoundTrip | libs/libc/printf.c:612-623 | memparse reads all of what ultohstr prints and gets the number back exactly if the number is 0 or no multiple of 2^40, for all 64-bit numbers |
| Sizes.SizeInside | libs/libc/util.c:115-137 | A size printed with a suffix up to G is read back inside any text |
| DmaChain.SetupData | drivers/flash/mmc/himciv200.c:292-347 | Sizes with at most MAX_DES entries give the chain of the buffer: entries of 4096 bytes, the last shorter, linked in order, first and last marked; larger ones are refused and leave the table unchanged; exactly size 0 and sizes past 2^32 - 4096 lead to a write outside the table |
| DmaChain.PathIsRange | drivers/flash/mmc/himciv200.c:310-345 | A controller that follows the links of the entries it owns visits them in order and stops by itself after the last |
| DmaChain.ChainMarks | drivers/flash/mmc/himciv200.c:310-345 | Every entry is owned and linked, the first alone is marked first, the last alone is marked last, and all before the last have 4096 bytes |
| DmaChain.ChainContiguous | drivers/flash/mmc/himciv200.c:310-340 | The pieces of the chain cover the buffer without gap or overlap |
| DmaChain.ChainTransfers | drivers/flash/mmc/himciv200.c:292-347 | A controller that follows the chain reads, or fills, exactly the buffer |
| DmaChain.LimitTestExact | drivers/flash/mmc/himciv200.c:303 | The wrapped limit test says whether the table is too short exactly for sizes up to 2^32 - 4096; it accepts every size past that |
| DmaChain.LimitTestWraps | drivers/flash/mmc/himciv200.c:303 | A multiple of 512 that passes the limit test although its entries do not fit |
| MmcDev.StepSize | drivers/flash/mmc/mmc_if.c:31 | A step of 65536 blocks needs at most 8192 entries of the table |
| MmcDev.Card.CheckAlign | drivers/flash/mmc/mmc_if.c:85-131 | Refused exactly for a start past the end or inside a block; a length past the end is cut |
| MmcDev.Card.WriteSteps | drivers/flash/mmc/mmc_if.c:153-170 | The steps together are one flat copy of all whole blocks |
| MmcDev.Card.MmcWrite | drivers/flash/mmc/mmc_if.c:135-187 | The bytes are on the card, the last block padded with zeros, every other block unchanged, the number returned exact |
| MmcDev.Card.ReadSteps | drivers/flash/mmc/mmc_if.c:208-225 | The steps together are one flat copy of all whole blocks |
| MmcDev.Card.MmcRead | drivers/flash/mmc/mmc_if.c:190-242 | The buffer holds the bytes of the card, and no byte of memory outside it and the temporary block changes |
| MmcDev.Card.WriteThenRead | drivers/flash/mmc/mmc_if.c:135-242 | What is written is read back, and bytes of the card outside the padded blocks are unchanged |
| HushTable.SixteenBuckets | libs/hush.c:32-36 | The index never reaches past bucket 15, whatever the depth |
| HushTable.Hush.constructor | libs/hush.c:39-53 | An empty table |
| HushTable.AddTable | include/list.h:31-41 | Linking a node behind the first of its bucket keeps every chain acyclic, disjoint and in the bucket of its tags |
| HushTable.Hush.Add | libs/hush.c:76-99 | One node more, in the bucket of its tag; all others keep tag and data; without memory nothing changes |
| HushTable.RemoveTable | include/list.h:43-47 | Unlinking a node, at the head or inside, keeps all chains |
| HushTable.Hush.Remove | libs/hush.c:102-131 | The first node of the tag is unlinked and its data returned; without one nothing changes |
| HushTable.Hush.FindInit | libs/hush.c:171-178 | The cursor stands before the first entry |
| HushTable.Hush.FindNext | libs/hush.c:143-193 | The next entry, in bucket order, or NULL at the end |
| HushTable.Hush.VisitAll | libs/hush.c:143-193 | find_init and find_next visit each entry exactly once before NULL; nr_item is their number modulo 2^32 |
| HushTable.FlattenExact | libs/hush.c:143-168 | The chains together hold every node, each once |
| MallocRes.MemDbg.constructor | libs/malloc_res.c:99-114 | An empty table of 40 buckets and four zero counters |
| MallocRes.MemDbg.Insert | libs/malloc_res.c:53-74 | A new entry for the address and both allocation counters up, or nothing |
| MallocRes.MemDbg.Unfile | libs/malloc_res.c:77-96 | One entry of the address leaves the table, with the counters that will be set for it; without one nothing changes |
| MallocRes.MemDbg.Remove | libs/malloc_res.c:77-96 | Exactly one entry of the address goes and its bytes are added to the freed bytes; an unknown address gives -1 and no change |
| MallocRes.MemDbg.ResMalloc | libs/malloc_res.c:117-168 | The address of the allocator is passed on; an entry is made if there is an address and memory for it |
| MallocRes.MemDbg.ResFree | libs/malloc_res.c:136-149 | A known address is accounted as freed once |
| MallocRes.MemDbg.Run | libs/malloc_res.c:53-168 | Over every run of allocations and frees nr_malloc - nr_free is the number of entries and sz_malloc - sz_free the sum of their bytes, modulo 2^32, and every entry is filed under its address |
| MallocRes.LocateExact | libs/malloc_res.c:77-96 | The search by tag finds an entry exactly if the address is in use |
| FindParts.MtdParts.ReadPart | drivers/flash/find_parts.c:31-80 | Size, offset, name and flags are read as the grammar says, and the text is restored after the name comparison |
| FindParts.MtdParts.Compare | drivers/flash/find_parts.c:65-70 | With a zero byte patched over the delimiter the names are equal as strings exactly if the slices are equal, and the byte is put back |
| FindParts.MtdParts.StrChr | libs/libc/util.c:85-93 | The first place of the character, or none |
| FindParts.MtdParts.FindPart | drivers/flash/find_parts.c:25-103 | On a well-formed list the recursion answers as the list says; in any case a found partition follows well-formed others, and the text is unchanged |
| FindParts.MtdParts.FindInMedia | drivers/flash/find_parts.c:112-155 | One round either decides as the table says or moves on to the next medium |
| FindParts.AnswersFirst | drivers/flash/find_parts.c:25-103 | The answer is the first partition of the name, its start the sum of the lengths before it modulo 2^64, its own length; or none |
| FindParts.MtdParts.FindFlashPart | drivers/flash/find_parts.c:106-158 | Whenever the text is a well-formed table, the first medium of the name that has the partition decides; a list of the first medium that is broken before the name makes it fail; in every case the text is unchanged byte for byte |
| FindParts.PartInside | drivers/flash/find_parts.c:31-80 | A size as ultohstr prints it, with a name, is read back wherever it stands in a table |
| MtdLists.PartTextReads | drivers/flash/find_parts.c:31-80 | A size as ultohstr prints it, with a name, is a partition that reads back wherever it stands |
| MtdLists.ListInside | drivers/flash/find_parts.c:25-103 | A list written partition by partition is a well-formed list with just these partitions, wherever it stands |
| MtdTables.TableInside | drivers/flash/find_parts.c:106-158 | Media written with their lists, separated by semicolons, are a well-formed table with just these media and partitions |
| MtdTables.FindWritten | drivers/flash/find_parts.c:106-158 | The search in any written table finds what was written: the first medium of the name that has the partition, its start the sum of the lengths before it |
| MtdSpecs.SpecReads | drivers/flash/find_parts.c:31-80 | A partition of every form is read back wherever it stands: a number with suffix or - for 2^64 - 1 bytes, an offset that is skipped, a name or none, and the flags ro and lk |
| MtdSpecs.SmallRefused | drivers/flash/find_parts.c:36-41 | A partition of less than 8192 bytes is not read |
| MtdSpecs.FindSpecified | drivers/flash/find_parts.c:25-158 | In every table of such partitions, with - last in its list only, the search answers with the first partition of the name on the first medium of the name that has one, its length, and the sum of the lengths before it modulo 2^64; or with -1 exactly if there is none |
| MtdSpecs.FindRefused | drivers/flash/find_parts.c:25-158 | The search fails if its medium has, before any partition of the name, one of less than 8192 bytes or more behind a - |
| Task.TaskCtrl.Connect | libs/task.c:66-90 | One more task with its time and zero counts, or -EINVAL for a full table and no change |
| Task.TaskCtrl.constructor | libs/task.c:93-110 | An empty table of the given size |
| Task.TaskCtrl.Loop | libs/task.c:48-63 | Every connected task has one tick more, the others none |
| Task.TaskCtrl.Run | libs/task.c:48-63 | n loops are n ticks for every connected task |
| Task.RunsInTime | libs/task.c:48-63 | After n ticks a task has run n / max(1, ceil(msec / 10)) times, modulo 2^32, for msec up to 2^32 - 6 |
| Task.TimelyExactly | libs/task.c:48-63 | The runs come in time for every n exactly if msec is at most 2^32 - 6 |

## Left out

- nr_malloc and nr_free of the allocator: internal calls bump them too, so they count nothing.
- Regions of 0x7FFFF000 bytes and more: memlib_init accepts them, and `RegionExact` shows that memlib_sbrk then misjudges some step, so the invariant and HeapRun.Run are about shorter regions.
- Branches of memlib_extend_top and memlib_trim for a foreign sbrk, a refused step back and the double fencepost: the invariant shows that they cannot be reached, so they have no statements in the model.
- Padding lost when only the second sbrk of the first extension is refused stays lost, as in the code; the invariant counts from the chunks, which exist only after a success.
- HeapRun.Run: a client frees only pointers it holds and requests sizes outside 0x7FFFFFF5 to 0x7FFFFFFF, where request2size gives MINSIZE (`Request2SizeExact`); alignments are powers of two and their padding does not wrap (`PaddedIsNeeded`).
- Memory of the allocator is read and written by whole aligned words; a client's byte stores are word stores here.
- UDivModDI4: a divisor of 0 is excluded, as the code divides by it on purpose there; the null-pointer branch for the remainder and the SDIV/UDIV variants for ARMv7S of the other routines are not modelled.
- MemCpy: the little-endian branch only; lengths from 2^31 on, for which the first subtraction changes sign, and dest above src with overlap are excluded; memory is a sequence of bytes whose length is a multiple of 4.
- EnvSet: a NULL key or value counts as empty; the area starts on a word boundary; flash save and load, defaults and the CRC of the stored image are left out.
- EnvSet.Env.Set: an entry that does not fit is followed up to the write outside the area, which the returned flag reports; what that write and the ones after it hit is not part of this model, and EnvSet.Env.Run is about runs in which all entries fit.
- Printf: parsing of the format string, %b, %D, %n, upper-case digits and the reading of arguments are left out: a number field takes its sign and magnitude as parameters and is what one conversion sends for its flags.
- Printf.Sink.PutNumber, Sizes.UlToHStr: a number whose digits do not fit the buffer of 20 bytes (`NumeralLengthExact`, `DigitsFitExactly`) is followed up to the first digit outside, which the returned flag reports; `RoundTrip` is about the text and holds for all 64-bit numbers.
- MmcDev: transfers succeed, since the loops do not take a negative return for an error, and the temporary block is allocated; block sizes are powers of two up to 512, requests stay below 2^31 blocks (`cnt` is an `int`), and buffers lie in 32-bit memory; the device is a sequence of bytes of a card of the right type.
- DmaChain.SetupData: size 0 passes the limit test as well, writes no entry, and himciv200.c:342-344 then mark des[-1]; sizes past 2^32 - 4096 fill the table and go on (`LimitTestExact`). Both end in `Overrun`, and the writes outside the table have no effect in the model. Cache maintenance and register writes are left out.
- HushTable, MallocRes: addresses returned by the allocator are parameters, as are the places of new nodes; hush_uninit, hush_remove_data, the list printers and calls before initialization are left out.
- FindParts: for text that is neither a well-formed table nor broken on its first medium, only soundness of single answers, termination and the restored text are stated.
- Task: handlers are counted, not run; interrupt masking is left out. CONFIG_TASK_CYCLE is 10.
- strtol, strtoll, memmove, string copies, dump and print routines, kernel parameter tags, memory sizing, bit helpers and pattern matching: they would only add easy members.
- Drivers for interrupts, UART, timers and boards, the rest of the MMC drivers, start-up, exception and cache code: they depend on hardware behaviour outside the code.
- arm/boot/trace.c: its symbol search never looks at the first and last entry.
