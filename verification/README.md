# Redshift: models and proofs

Redshift is a small kernel for 32-bit Intel machines. This project models the parts of it that keep
state or carry an algorithm, and proves what they are for:

- **Scheduler** (`SchedulerModel`, `Rings`, `Scheduler`, `SchedulerRuns`,
  `SchedulerContext`): sixteen priority queues of
  linked rings, spawning and switching; round-robin fairness over whole runs, the ring invariant,
  and exactly when processes keep their own registers.
- **Memory at boot** (`Alignment`, `BootModules`, `StaticAlloc`, `Frames`, `Paging`): the alignment
  macros, the boot module walk, the bump allocator, the frame bitmap and the identity map, whose loop
  moves its own bound. Page tables follow section 4.3 of volume 3A of the Intel Software Developer's
  Manual.
- **Heap** (`SortedArrays`, `ShiftAsWritten`, `HeapRegion`, `HeapModel`, `HeapProperties`,
  `HeapLedger`, `HeapTags`, `Heap`, `HeapAsWritten`): boundary tags in memory and an index of holes
  ordered by size; tiling, best fit, coalescing, accounting.
- **Numbers and formats** (`KChar`, `Numerals`, `KString`, `FormatSpec`, `FormatBuffer`, `Format`,
  `FormatPointers`, `FormatProperties`, `FormatArguments`, `FormatScratch`, `FormatMeaning`,
  `FormatShows`): printing and parsing undo each other, the one-pass formatter equals parsing the
  format first and rendering it afterwards, and every directive prints what its letters say.
- **Archives** (`KHash`, `Tar`, `Archives`, `Initrd`): the walker reads back what an encoder lays out
  (the "ustar Interchange Format" of the `pax` utility in POSIX.1), and files are found by name.
- **Copying** (`MemoryCopy`, `CopyAsWritten`): word-wise copying of overlapping regions.
- **Timers** (`Timer`, `TimerRuns`): the queue of periodic events and the exact times of its calls.

A class with arrays or links stands for every structure that the kernel changes in place. Its methods
are proved against functions on values, and the properties of whole runs are lemmas about those
functions. Each operation is one atomic step. `Bits` and `Wrappers` hold what several parts need.

## Where the models depart from the code

The models follow the code, also where it departs from its comments, in the scheduler, the alignment
macros, the static allocator, the frame search, the integer routines, the octal fields, the parsing of
formats and the passing of their arguments. Each such case has a lemma with the exact condition under
which the code does what its comments say (`AlignedExactlyFromOneUnit`, `SelectorsIgnoreUserFlag`, `ContextsAreOwn`,
`ReverseNeedsTerminator`, `NulEndedField`, `AddKeepsEvents`, `ByValueIsIntended` and others).

In these places the code cannot do what its comments and headers ask for. The models follow the
comments and headers, and the lemmas named here say what the code does as written:

- `arch/i686/mem/heap.c`: the layout helpers at lines 75-103 are taken as the layout. Line 258 scales
  the footer offset by the size of a header, line 297 lists an allocated block among the holes, lines
  343-371 mix payload and total size and keep the old hole listed in the aligned case, line 438 merges
  without counting the swallowed header and footer and changes a listed key in place, line 450 does the
  same on the right, and line 490 leaves header and footer out of the footer address. The initial hole
  gets its footer too (lines 201-205). See `FooterAsWritten`, `SplitAsWritten`,
  `HandedOutAgain`, `MergeAsWritten`, `GrownInPlace` and `FreedFooterAsWritten`.
- `arch/i686/mem/heap.c:353`: a gap in front of an aligned block that could not hold a hole is made one
  page larger, in the search as well. `SplitAsWritten` says how far a hole made there reaches into
  the block as written.
- `libk/ksorted_array.c:130`: all `count - i` elements move, not that many bytes less one. See
  `AddedRightAtTheEnd`.
- `arch/i686/mem/paging.c:117`: the frame goes back by its address. `FreeAsWrittenLeaks` says what the
  written version does. Line 198 sizes the bitmap in bytes; the model gives it as many words. See
  `BitmapAsWritten` and `BitmapMeetsDirectory`.
- `libk/kmemory_copy.h:31, 36, 44-56, 69-70, 72, 80-92` and `libk/kmemory.c:37`: every copied byte
  counts once, words count eight bytes, alignment is tested with the low bits, and the end of the
  regions is taken once. `CopiesOnlyOntoItself` says when the copy as written is right.
- `libk/kstring_format.c:168`: `VFormat` clears the scratch buffer for every number. `VFormatFrom`
  follows the code with the buffer as it is; `PrintedRight` and `StaticIsIntended` say after which
  numbers another one, and a whole format, comes out as intended. In both the buffer has room for the
  terminator.
- `src/kernel/timer.c:57-59`: `AddTimerEvent` follows the code, which moves the head of the list;
  `Append` is the addition that the comment describes.

## Model

| member | source | states |
|---|---|---|
| Alignment.MaskedAddress | include/arch/i686/redshift/mem/common.h:24-30 | Masking with ALIGN_MASK rounds an address down to a multiple of the unit, for every power of two. |
| Alignment.MakeAlignedMoves | include/arch/i686/redshift/mem/common.h:33-38 | For every power of two MAKE_ALIGNED moves every address of at least one unit to an aligned address in (x, x + a], also one that was aligned before. |
| Alignment.AlignedExactlyFromOneUnit | include/arch/i686/redshift/mem/common.h:27-38 | The result is aligned if and only if the address is zero or at least one unit: IS_ALIGNED tests the high bits. |
| Alignment.AlignedAddressMoves | include/arch/i686/redshift/mem/common.h:27-38 | A page-aligned address is moved one page up. |
| Alignment.MakeAllocAlignedMoves | include/arch/i686/redshift/mem/common.h:69-78 | From 16 bytes on an allocation goes to the least multiple of 16 above the address, from 4 bytes on to the least multiple of 4, from 2 bytes on to the least multiple of 2, and a single byte stays. |
| Alignment.NextMultipleIsLeast | include/arch/i686/redshift/mem/common.h:33-38 | That multiple is the least one strictly above the address. |
| BootModules.Modules.Discover | src/boot/boot_module.c:32-53 | The tag walk ends at the end tag and leaves the greatest end of all module tags, or the old value if that is greater. |
| BootModules.StrideCoversTag | src/boot/boot_module.c:38 | The stride is the least multiple of eight that covers the tag. |
| StaticAlloc.StaticAllocator.constructor | src/mem/static.c:28-34 | Allocation starts on a page boundary above the kernel and every boot module, at most a page higher than needed. |
| StaticAlloc.StaticAllocator.AllocBase | src/mem/static.c:36-57 | One call: flag 1 puts the block on the next page, otherwise its size puts it on the next multiple of 16, 4 or 2 above the old heap address, or right there; the heap address goes behind the block. |
| StaticAlloc.RunIsDisjoint | src/mem/static.c:36-57 | Over any run the blocks are aligned to 4096 by the flag or to 16, 4 or 2 by their size, increasing, pairwise disjoint and within the budget. |
| StaticAlloc.AllocateAll | src/mem/static.c:36-57 | A run of calls returns the addresses of the run on values. |
| StaticAlloc.BootAllocate | src/mem/static.c:28-57 | From boot on, every block is aligned for its flag or size, none touches the kernel or a module found by the tag walk, and no two overlap. |
| Frames.FrameMap.constructor | arch/i686/mem/paging.c:197-199 | A new bitmap marks no frame. |
| Frames.FrameMap.FrameSet | arch/i686/mem/paging.c:57-61 | Exactly the frame of the address is added to the marked set. |
| Frames.FrameMap.FrameClear | arch/i686/mem/paging.c:63-67 | Exactly the frame of the address is removed from the marked set. |
| Frames.FrameMap.GetFirstFree | arch/i686/mem/paging.c:77-90 | The answer is the least unmarked frame, and 0 if there is none. |
| Frames.FrameAlloc | arch/i686/mem/paging.c:92-108 | A page that has a frame keeps it; another gets the least free frame, present, user and writeable by the bits 1, 2 and 4 of the flags, and only that frame becomes marked. |
| Frames.FrameFree | arch/i686/mem/paging.c:110-120 | The frame of the page becomes free and the page forgets it; nothing else changes. |
| Frames.ServeTake | arch/i686/mem/paging.c:92-108 | frame_alloc on the bitmap and a page table refines taking a frame on sets and maps, also when no frame is free. |
| Frames.ServeGive | arch/i686/mem/paging.c:110-120 | frame_free refines giving a frame back. |
| Frames.ServeRun | arch/i686/mem/paging.c:92-120 | Any run of both refines the run on values and keeps marked frames and held frames in step, also when it meets a full bitmap. |
| Frames.RunsStayConsistent | arch/i686/mem/paging.c:92-120 | Over any run, exhausted or not, no two pages share a nonzero frame, and the marked frames are frame 0 and exactly those held by pages. |
| Frames.TakeNeedsFreeFrame | arch/i686/mem/paging.c:77-106 | A take gives its page the least free frame if and only if there is one; otherwise the page ends with frame 0 and no frame becomes marked. |
| Frames.FreeAsWrittenLeaks | arch/i686/mem/paging.c:117 | With the frame number passed for an address the bitmap stays consistent if and only if the page held no frame. |
| Paging.PageDirectory.PageGet | arch/i686/mem/paging.c:169-186 | The entry for an address; a missing table is made on a page of its own, all entries zero, and no other table changes. |
| Paging.EnsureTable | arch/i686/mem/paging.c:207-211 | Page k has an entry afterwards, the tables are exactly those for the first k + 1 pages, and a new table moves the heap address by at most two pages. |
| Paging.MapPage | arch/i686/mem/paging.c:207-211 | One round of the loop maps page k to frame k, or to frame 0 if the bitmap is exhausted, and nothing else changes. |
| Paging.NextTable | arch/i686/mem/paging.c:208-211 | The moving bound never outruns the memory that the tables allowed for can map. |
| Paging.IdentityMap | arch/i686/mem/paging.c:204-211 | The loop ends although it raises its own bound. Then every page below the final heap address is mapped, to its own frame as far as the bitmap goes; page 0 is not present, and exactly those frames are marked. |
| Paging.PagingInit | arch/i686/mem/paging.c:193-211 | The same for paging_init from an empty bitmap and directory, for every memory of at least one word of frames: bitmap, directory and page tables follow each other in memory, and the map is the identity if and only if the bitmap reaches the final heap address. |
| Paging.TranslatesByFrame | arch/i686/mem/paging.c:204-211 | The tables translate exactly the addresses from the second page to the end of the map, each into the frame of its page. |
| Paging.IdentityNeedsFrames | arch/i686/mem/paging.c:77-106 | The map is the identity if and only if its last page is a frame of the bitmap; the first page that is not leads to frame 0. |
| Paging.TablesAreMapped | arch/i686/mem/paging.c:169-211 | The page tables made on the way are mapped too, each to itself if and only if its page is a frame of the bitmap. |
| Paging.BitmapAsWritten | arch/i686/mem/paging.c:197-199 | With the bytes that the code allocates, the words that mapping k pages marks lie inside the bitmap if and only if that many words take no more bytes than the bitmap has words. |
| Paging.BitmapMeetsDirectory | arch/i686/mem/paging.c:198-203 | Otherwise they reach behind it; they reach into the page directory, at most 16 bytes on, if and only if the last of them does. |
| Paging.BitmapTooSmall | arch/i686/mem/paging.c:198 | For example, with 128 MiB of memory a map of more than 32 MiB marks words behind the bitmap. |
| SortedArrays.SortedArray.Add | libk/ksorted_array.c:107-138 | The element goes in at the lower bound, before equal ones; the result is its index, or 1 for the first insertion. |
| SortedArrays.SortedArray.Search | libk/ksorted_array.c:118-121 | The search stops at the first element that the new one need not follow. |
| SortedArrays.SortedArray.MakeRoom | libk/ksorted_array.c:126-133 | Everything from the position on moves one place to the right. |
| SortedArrays.SortedArray.Get | libk/ksorted_array.c:140-144 | The element at an index. |
| SortedArrays.SortedArray.Remove | libk/ksorted_array.c:146-153 | Exactly the element at the index goes; the others keep their order. |
| SortedArrays.LowerBoundSplits | libk/ksorted_array.c:118-121 | For any strict weak order, exactly the elements below the lower bound come before the new one. |
| SortedArrays.InsertKeepsSorted | libk/ksorted_array.c:107-138 | Insertion keeps the array sorted and adds exactly the one element. |
| SortedArrays.DeleteKeepsSorted | libk/ksorted_array.c:146-153 | Removal keeps the array sorted and takes exactly the one element away. |
| SortedArrays.FirstIndexIsOne | libk/ksorted_array.c:113-117 | The result of an insertion is the index of the element if and only if the array was not empty. |
| ShiftAsWritten.LastSlotStays | libk/ksorted_array.c:126-133 | The bytes that the code moves never reach the slot behind the elements. |
| ShiftAsWritten.AddedRightAtTheEnd | libk/ksorted_array.c:118-134 | With a null slot behind the elements an addition as written is right if and only if the element goes after all others; anywhere else the last element is lost. |
| SortedArrays.FirstFitIsBestFit | arch/i686/mem/heap.c:144-176 | In an array sorted by size the first element that fits is a smallest one that fits. |
| HeapRegion.GetHeapRegion | arch/i686/mem/heap.c:105-142 | The first region of the memory map that is available and has room after alignment, every available one before it being too small, or a panic if all of them are. |
| HeapRegion.HeapLiesInRegion | arch/i686/mem/heap.c:117-137 | For every region that suits: the heap ends inside it; it does not start below it if and only if the search starts short of the last page of 4 GiB or the region starts at zero; and it is page-aligned if and only if the 32-bit start is zero or at least a page. |
| HeapRegion.HeapAboveKernel | arch/i686/mem/heap.c:117-137 | The heap lies in the region and above all static allocations if and only if the region does not end below them and the search starts short of the last page of 4 GiB. |
| HeapRegion.LowerRegionMovesBack | arch/i686/mem/heap.c:117-137 | For example, a free region from 1 MiB to 15 MiB puts the heap of 1 MiB one page above 1 MiB while static allocations have reached 17 MiB. |
| HeapModel.BlocksInOrder | arch/i686/mem/heap.c:75-103 | Blocks laid end to end are disjoint and in address order. |
| HeapModel.Accounting | arch/i686/mem/heap.c:94-103 | Live payload, hole payload and one minimum block per block make up the heap. |
| HeapModel.GapAligns | arch/i686/mem/heap.c:151-160 | The gap in front of an aligned block puts its usable memory on a page boundary and can hold a hole. |
| HeapModel.BigEnoughIsRoom | arch/i686/mem/heap.c:151-163 | The search accepts a hole if and only if it has the size asked for, or for an aligned block, the size behind some gap that puts the usable memory on a page boundary and can be a hole. |
| HeapModel.GapIsLeast | arch/i686/mem/heap.c:151-160 | Of all such gaps the one taken is the least. |
| Heap.HolesLeftAre | arch/i686/mem/heap.c:335-378 | The room an allocation needs in the index is for exactly the holes that splitting leaves. |
| HeapModel.CarveFits | arch/i686/mem/heap.c:335-378 | The pieces of a split hole cover exactly the hole, the block has at least the requested size and more only when no hole follows, every hole left has memory, and no two pieces side by side are holes. |
| HeapProperties.AllocateTiles | arch/i686/mem/heap.c:335-378 | Splitting keeps the tiling and adds exactly the payload of the block to the live payload. |
| HeapProperties.AllocateSeparates | arch/i686/mem/heap.c:335-378 | Splitting makes no two adjacent holes. |
| HeapProperties.AllocGivesFreshMemory | arch/i686/mem/heap.c:380-405 | The result lies in the heap between its header and footer of 16 bytes each, has at least the requested size, is page-aligned if asked, and is disjoint from every live block, all of which are kept. |
| HeapProperties.ReleaseByPairs | arch/i686/mem/heap.c:429-477 | Merging left and then right is the same as taking in both neighbours at once. |
| HeapProperties.ReleaseTiles | arch/i686/mem/heap.c:479-537 | Freeing keeps the tiling and takes exactly the payload of the block off the live payload. |
| HeapProperties.ReleaseSeparates | arch/i686/mem/heap.c:429-537 | Freeing leaves no two adjacent holes. |
| HeapProperties.FreeUndoesAlloc | arch/i686/mem/heap.c:380-537 | Freeing the block just allocated gives back the very same blocks. |
| HeapProperties.ReachableHeaps | arch/i686/mem/heap.c:380-537 | At every reachable state the blocks tile the heap, no holes are adjacent, and every byte is accounted for. |
| HeapLedger.AllocateAdds | arch/i686/mem/heap.c:380-405 | An allocation adds exactly the block it hands out to the live blocks. |
| HeapLedger.ReleaseTakes | arch/i686/mem/heap.c:479-537 | Freeing takes exactly the block given back from the live blocks and keeps all others as they are. |
| HeapLedger.LiveIsHeld | arch/i686/mem/heap.c:380-537 | After any run the live blocks are exactly those allocated and not yet freed. |
| HeapTags.FooterInFront | arch/i686/mem/heap.c:429-436 | What lies before a block is the footer of the block before it, pointing to its header, or no footer for the first block. |
| HeapTags.HeaderBehind | arch/i686/mem/heap.c:444-447 | What lies behind a block is the header of the next block, or no header for the last block. |
| HeapTags.ReplaceKeepsTags | arch/i686/mem/heap.c:245-263 | Writing tags inside one stretch of blocks keeps the tags of all others. |
| HeapTags.SortedAgain | arch/i686/mem/heap.c:169-176 | The index keeps its order while the sizes of its members stay as they are. |
| HeapAsWritten.FooterAsWritten | arch/i686/mem/heap.c:255-263 | As written, the footer never goes where the layout has it, and it goes behind the block if and only if the payload is at least three bytes. |
| HeapAsWritten.FreedFooterAsWritten | arch/i686/mem/heap.c:490 | As written, heap_free takes a footer that lies one header and one footer too low. |
| HeapAsWritten.SplitAsWritten | arch/i686/mem/heap.c:334-378 | As written, every allocation makes a hole behind its block, which starts inside the block and ends behind the hole that was split by the payload of the block; the pieces never tile. |
| HeapAsWritten.HandedOutAgain | arch/i686/mem/heap.c:281-299 | As written, an allocated block is listed among the holes, and the next search for its size answers that block, or the hole behind it if and only if that has the same size. |
| HeapAsWritten.MergeAsWritten | arch/i686/mem/heap.c:429-454 | As written, a merged hole ends one header and one footer short of the blocks it takes in, so the tiling is lost. |
| HeapAsWritten.GrownInPlace | arch/i686/mem/heap.c:429-442 | A hole that grows where it stands in the index keeps the index sorted if and only if the next one in it is not smaller. |
| Heap.Heap.constructor | arch/i686/mem/heap.c:178-208 | A new heap is one hole, tagged at both ends and listed. |
| Heap.Heap.CountsHold | arch/i686/mem/heap.c:534-535 | Both assertions at the end of heap_free hold in every valid heap: no more frees than allocations, and no more bytes allocated than the heap has. |
| Heap.Heap.GetSmallestHole | arch/i686/mem/heap.c:144-166 | The index of the first listed hole with room after alignment, or -1 if and only if none has. |
| Heap.Heap.CreateHole | arch/i686/mem/heap.c:301-314 | The hole is tagged at both ends and listed in order. |
| Heap.Heap.AllocWithHole | arch/i686/mem/heap.c:334-378 | The listed hole is carved; tags, tiling, index and counters agree with the new blocks. |
| Heap.Heap.Alloc | arch/i686/mem/heap.c:380-405 | The smallest hole with room is carved behind the least gap that aligns, or nothing is answered if and only if no hole has room; every invariant of the heap is kept, also with a full index as long as the holes left over fit in. |
| Heap.SmallestAdequate | arch/i686/mem/heap.c:144-176 | First fit over the index is best fit among all blocks, with and without alignment. |
| Heap.NoneAdequate | arch/i686/mem/heap.c:387-389 | If the search fails no block of the heap is a hole with room for the block, anywhere or behind an aligning gap. |
| Heap.Heap.UnifyLeft | arch/i686/mem/heap.c:429-442 | The block is merged with the hole before it, if there is one, found through the footer. |
| Heap.Heap.UnifyRight | arch/i686/mem/heap.c:444-467 | The block is merged with the hole behind it, if there is one, which leaves the index. |
| Heap.Heap.Reclaim | arch/i686/mem/heap.c:495-529 | Marking, unifying and listing give exactly the released blocks, with the index holding exactly the holes. |
| Heap.Heap.Free | arch/i686/mem/heap.c:479-537 | heap_free releases the block, keeps every invariant and updates the counters; a null pointer is ignored. A full index is enough when the block merges. |
| KChar.CaseConversion | libk/kchar.c:41-246 | The table agrees with the character ranges, and the case conversions undo each other on letters and leave the rest alone. |
| KChar.OtherClasses | libk/kchar.c:42-170 | The other classes by ranges, with the table as it is: character 14 counts as space and none as blank. |
| Numerals.DigitsDenote | libk/kstring.c:49-57 | The digits produced by repeated division denote the number. |
| Numerals.NoLeadingZero | libk/kstring.c:49-57 | The most significant digit is zero only for zero. |
| Numerals.DigitChars | libk/kstring.c:47-56 | The digits of a number are written with the ten numerals and the letters of the case asked for. |
| Numerals.LettersOfText | libk/kstring.c:47-56 | In the text of a number exactly the digits from ten on are letters, all of the case asked for. |
| Numerals.DigitCount | libk/kstring.c:49-57 | The digits are the fewest that can denote the number. |
| Numerals.LowDigits | libk/kstring.c:49-57 | When only n digits fit they denote the number modulo base to the n. |
| Numerals.ParseText | libk/kstring.c:73-85 | Parsing digits gives the number they denote, wrapped only in the last step. |
| Numerals.ParseLaw | libk/kstring.c:62-90 | Any string of numerals and letters, after a minus sign if there is one, is read as its value in positional notation modulo 2^64; with any other character or a base below two the answer is 0. |
| Numerals.PrintParse | libk/kstring.c:28-90 | Parsing a printed number gives it back for every base from 2 to 36, either case and every 64-bit value; nothing overflows on the way except for the least value. |
| KString.Length | libk/kstring.c:113-120 | The number of characters before the NUL. |
| KString.Copy | libk/kstring.c:138-147 | At most n characters up to the NUL, and a NUL; nothing else is written. |
| KString.Reverse | libk/kstring.c:149-162 | The characters less the NULs at the end are turned round in place, starting from the byte after the text. |
| KString.ReverseNeedsTerminator | libk/kstring.c:149-162 | The text comes out reversed if and only if the byte after it is NUL or every character of it equals that byte. |
| KString.FormatUintmax | libk/kstring.c:40-60 | What the buffer holds afterwards for any base, any room and any byte after the digits. |
| KString.SettledIsText | libk/kstring.c:40-60 | With a NUL after the digits the buffer holds them most significant first. |
| KString.FormatIntmax | libk/kstring.c:28-38 | The same with a sign, which takes one of the places: with two places or more the room is never exceeded. |
| KString.FormattedIsPrinted | libk/kstring.c:28-60 | With room and a NUL after the digits the buffer holds exactly the printed number. |
| KString.ParseIntmax | libk/kstring.c:62-90 | The parsing loop computes the parse of the string, with 64-bit wrap-around, and 0 at a character that is no digit. |
| KString.FormatThenParse | libk/kstring.c:28-90 | Formatting into a buffer and parsing from it gives the number back. |
| KHash.Hash32 | libk/kstring.c:92-101 | The hash of the string or of its first n characters: 5381 times 33 to the length and the characters weighted with powers of 33, modulo 2^32. |
| KHash.HashLaw | libk/kstring.c:92-101 | That closed form is what the loop computes for every string. |
| KHash.OneLetterTells | libk/kstring.c:92-101 | Two names of the same length that differ in one 8-bit character never have the same hash. |
| KHash.NamesCollide | libk/kstring.c:92-101 | Names that differ in two characters may: Aa and B@ have the same hash. |
| Format.Pad | libk/kstring_format.c:85-92 | The padding loop writes exactly the padding while there is room. |
| Format.DoString | libk/kstring_format.c:77-106 | A string in a field: padding on the asked side, at most n characters. |
| Format.FormatNumber | libk/kstring_format.c:108-174 | Sign, prefix and padded digits, in this order, for every number argument and whatever is in the scratch buffer, and what stays in it. |
| Format.PutDigits | libk/kstring_format.c:166-171 | The end of format_number: the field holds what the scratch buffer shows, which earlier numbers and the digits determine, and what stays in the buffer. |
| Format.FormatString | libk/kstring_format.c:176-184 | The string, cut to the precision, in its field. |
| Format.FormatChar | libk/kstring_format.c:186-191 | One character in its field; a NUL is not written but counts. |
| Format.FormatPointer | libk/kstring_format.c:193-213 | The prefix if asked for and eight upper-case hexadecimal digits through the scratch buffer; with a cleared buffer they parse back to the argument word. |
| FormatPointers.PointerShowsWord | libk/kstring_format.c:193-213 | For every word the text has eight digits from 0 to 9 and A to F that denote the word. |
| Format.ExtractInt | libk/kstring_format.c:215-226 | The number at a position and the position after it. |
| Format.ReadModifier | libk/kstring_format.c:235-341 | One round of the switch does to the flags what the modifier means. |
| Format.FormatArg | libk/kstring_format.c:228-348 | A directive is read and rendered exactly as parsing first and rendering afterwards would, with the same scratch buffer; the answer is -1 if and only if parsing rejects it, and otherwise the room left. |
| Format.VFormatFrom | libk/kstring_format.c:350-369 | The single pass with the static buffer as it is: it writes exactly the rendering of the parsed format through that buffer and a NUL, returns its length, and leaves the buffer as that rendering does. |
| Format.VFormat | libk/kstring_format.c:350-369 | The same with a cleared buffer: with room for it, exactly the intended rendering of the parsed format and a NUL. |
| FormatBuffer.ClearedIsIntended | libk/kstring_format.c:166-171 | Rendering through a buffer that is cleared for every number is the intended rendering. |
| FormatProperties.DirectiveFlags | libk/kstring_format.c:230-342 | A directive has the flags its modifiers mean: switches count anywhere, otherwise the last one wins, and stars take arguments in order. |
| FormatMeaning.DirectiveIsRead | libk/kstring_format.c:228-345 | A directive of any flags, width, precision, length and letter, written anywhere in a format, is read as exactly that and used up to its letter. |
| FormatMeaning.OthersAreRejected | libk/kstring_format.c:329-340 | Any other character inside a directive rejects the format. |
| FormatMeaning.GreatAmountsAreRejected | libk/kstring_format.c:255-336 | A width or precision from 2^31 to below 2^32 rejects the format. |
| FormatShows.NumberMeans | libk/kstring_format.c:108-174 | What b, d, i, o, u, x and X print for every argument, from the characters of the format: sign, prefix and the digits of the value in the alphabet of the letter, padded to the width with blanks or zeros at the side asked for; a value takes one word or two by its length. |
| FormatShows.StringMeans | libk/kstring_format.c:176-184 | What s prints: the string, cut to a positive precision, padded with blanks. |
| FormatShows.CharacterMeans | libk/kstring_format.c:186-191 | What c prints: the low byte of its argument in its field; a NUL leaves the field one short. |
| FormatShows.PointerMeans | libk/kstring_format.c:193-213 | What p prints: eight upper-case hexadecimal digits of its word, with the prefix if asked for. |
| FormatShows.LiteralPrints | libk/kstring_format.c:361-365 | A character that is no percent sign prints itself. |
| FormatProperties.PlainNumberReadsBack | libk/kstring_format.c:108-174 | A plain number directive prints what the parser reads back. |
| FormatProperties.DigitsFit | libk/kstring_format.c:75 | A 64-bit magnitude never needs more digits than the scratch buffer takes. |
| FormatProperties.PercentPairIsNoEscape | libk/kstring_format.c:356-365 | A doubled percent sign is never printed as one sign and passed over. |
| FormatProperties.PercentPairStartsAgain | libk/kstring_format.c:356-365 | It prints one sign, and the second sign is looked at again. |
| FormatProperties.PercentPairExample | libk/kstring_format.c:356-365 | For example, the format %%d prints a percent sign and a number. |
| FormatProperties.DoubleLengthIsLong | libk/kstring_format.c:282-288 | The length modifier ll has the effect of l, whatever follows it. |
| FormatProperties.DoubleShortIsShort | libk/kstring_format.c:275-281 | The length modifier hh has the effect of h, whatever follows it. |
| FormatProperties.ShortIsNotNarrowed | libk/kstring_format.c:113-145 | Neither h nor hh narrows the argument: the number printed is the char or short if and only if the int is in its range. |
| FormatProperties.PaddedShape | libk/kstring_format.c:77-106 | A field is as wide as asked or as its text needs, with the text at one end and only padding otherwise. |
| FormatScratch.StaticIsIntended | libk/kstring_format.c:166-171 | After any run of numbers a whole format is rendered as intended if and only if each of its numbers in turn is no shorter than all before it or repeats the digit left behind it; its numbers join the run. |
| FormatScratch.SettledNeedsTerminator | libk/kstring_format.c:168-170 | Digits settle into text if and only if the byte behind them is NUL or every digit equals it. |
| FormatScratch.PrintedRight | libk/kstring_format.c:168-170 | After any run of numbers the next one is printed right if and only if none before it was longer or all its digits equal the one left behind them; otherwise that one is printed in front and the last digit is lost. |
| FormatScratch.SecondPrintedRight | libk/kstring_format.c:168-170 | For two numbers: the second is printed right if and only if it is not shorter or repeats one digit of the first. |
| FormatScratch.FiveAfterHundred | libk/kstring_format.c:168-170 | After 100 the number 5 is printed as 0. |
| FormatArguments.ByValueIsIntended | libk/kstring_format.c:228-360 | With va_list passed by value a format prints what is intended for all arguments if and only if it holds at most one directive. |
| FormatProperties.ByValueExample | libk/kstring_format.c:228-360 | For example, the format %d%d of 1 and 2 prints 11. |
| Tar.Oct2Dec | src/util/tar.c:38-47 | The value of a field in positional notation modulo 2^32, although the multiplier wraps. |
| Tar.OctalDecodes | src/util/tar.c:38-47 | Decoding undoes full-width octal encoding. |
| Tar.TerminatedField | src/util/tar.c:38-47 | A field that ends in another character is misread, with the exact condition under which the result is right all the same. |
| Tar.NulEndedField | src/util/tar.c:38-47 | A field that ends in NUL is read correctly for one single value. |
| Tar.AdvanceRounds | src/util/tar.c:89-92 | Short of wrap-around the offset advances by the header and the data padded to whole blocks. |
| Tar.AdvanceAligned | src/util/tar.c:89-92 | The offset stays a multiple of the block size, even when it wraps. |
| Tar.TarExtract | src/util/tar.c:64-95 | The walk fills the array with exactly the files of the walk on values and leaves the rest of the array alone. |
| Tar.FoundInOrder | src/util/tar.c:64-95 | In any archive whose stated sizes stay inside it the files found are in order and apart. |
| Tar.FoundBelowSize | src/util/tar.c:64-70 | No header is read from behind the size given. |
| Archives.RecordRead | src/util/tar.c:73-86 | The walker reads from a header the name, mode, size and checksum that the encoder put there. |
| Archives.ArchiveRoundTrip | src/util/tar.c:64-95 | For every list of entries and every limit the walker lists the first min(count, limit) entries of the encoded archive. |
| Archives.DataFound | src/util/tar.c:83-92 | The data of every entry stand in the archive where the listing says. |
| Archives.FilesAreApart | src/util/tar.c:83-92 | Files of an encoded archive are disjoint, increasing and at whole blocks. |
| Initrd.GetFileByName | src/kernel/initrd.c:33-44 | The first file whose name has the hash of the path. |
| Initrd.FoundByName | src/kernel/initrd.c:33-44 | In the table of an extracted archive a file is found by its name if and only if no earlier name has the same hash. |
| Initrd.FoundByOneLetter | src/kernel/initrd.c:33-44 | A file is found by its name if every name before it differs from it in one character. |
| MemoryCopy.ForwardIsSafe | libk/kmemory.c:28-37 | Forward copying moves every memory correctly if and only if the destination does not start inside the source. |
| MemoryCopy.ForwardWord | libk/kmemory_copy.h:41-56 | Copying a word is copying its eight bytes forwards. |
| MemoryCopy.BackwardMoves | libk/kmemory_copy.h:67-101 | Backward copying moves correctly unless the source starts inside the destination. |
| MemoryCopy.BackwardWord | libk/kmemory_copy.h:77-92 | Copying a word is copying its eight bytes backwards. |
| MemoryCopy.CopyForwards | libk/kmemory_copy.h:33-65 | The loops with bytes, four words, words and bytes refine copying byte by byte. |
| MemoryCopy.CopyBackwards | libk/kmemory_copy.h:67-101 | The same from the end down. |
| MemoryCopy.Copy | libk/kmemory.c:26-38 | Whatever the overlap, the destination ends with the original bytes of the source and nothing else changes. |
| CopyAsWritten.HalfIsCopied | libk/kmemory_copy.h:31-39 | As written, the first loop copies half of an even number of bytes and leaves the counter at its greatest value. |
| CopyAsWritten.OneWord | libk/kmemory_copy.h:41-56 | As written, a word that lies in memory is copied and counts one. |
| CopyAsWritten.CopiesOnlyOntoItself | libk/kmemory.c:26-38 | As written, a copy comes back without a fault if and only if destination and source are the same; then it is right. |
| Rings.HopVisits | src/sched/process.c:115-127 | Following next from last visits every member of a ring once before it returns. |
| Rings.SpawnKeepsShape | src/sched/process.c:115-127 | Linking a process in keeps every queue a ring. |
| Rings.SwitchKeepsShape | src/sched/process.c:163-171 | Moving last keeps every queue a ring. |
| Scheduler.Processes.constructor | src/sched/process.c:46-53 | At first every queue is empty and no process is current. |
| Scheduler.Processes.Spawn | src/sched/process.c:55-131 | The new process joins its queue as last, unblocked, with its page directory, its entry point and the top of its stack in its registers, kernel segments and zero otherwise; a bad priority changes nothing. |
| SchedulerModel.SpawnStarts | src/sched/process.c:94-112 | Those are the registers that a process starts with whatever its flags are. |
| Scheduler.Processes.Enqueue | src/sched/process.c:113-127 | The linking of a process into its ring of next pointers. |
| Scheduler.Processes.Switch | src/sched/process.c:142-174 | The whole new state and what is loaded, against the switch on values. |
| Scheduler.Processes.Search | src/sched/process.c:153-171 | The loop round one ring ends, at the first unblocked process after last or back at last. |
| Scheduler.Processes.FollowVisits | src/sched/process.c:115-127 | From last, next visits every process of the queue exactly once in ring order and returns after one round. |
| SchedulerRuns.SwitchSelects | src/sched/process.c:150-173 | The first unblocked process of the highest queue that has one runs; if all are blocked every queue and the current process stay as they are. |
| SchedulerRuns.RoundRobin | src/sched/process.c:152-172 | While flags stay put the unblocked processes of the highest queue take turns in ring order. |
| SchedulerRuns.EveryWindowIsFair | src/sched/process.c:152-172 | Any m consecutive switches dispatch each of the m unblocked processes exactly once, and the schedule has period m. |
| SchedulerRuns.NewcomerWaitsOneRound | src/sched/process.c:115-172 | A spawned process waits for exactly one turn of every other unblocked process of its ring. It then loads its start state if and only if its queue was not empty, or the next switch saves nothing or the very same registers. |
| SchedulerRuns.WaitingKeepsContext | src/sched/process.c:147-170 | A process that waits for its k-th turn and is not current loads at that turn exactly what is saved for it. |
| SchedulerRuns.SpawnedIsInterrupted | src/sched/process.c:115-120 | The first process of a queue is dispatched with the registers of the code that was interrupted. |
| SchedulerRuns.RingsPartitionProcesses | src/sched/process.c:115-171 | After any run every queue holds exactly the processes spawned at its priority, each once. |
| SchedulerRuns.ContextPreserved | src/sched/process.c:147-149 | The saved registers of a process are always those last saved while it was current, or its start state. |
| SchedulerRuns.DispatchRestoresContext | src/sched/process.c:135-170 | A dispatch loads what was last recorded for the process, or its start state. |
| SchedulerRuns.FirstDispatchStarts | src/sched/process.c:94-170 | Over whole runs: the first dispatch of a process that no switch has saved for loads the entry point and stack top it was spawned with, in its page directory. |
| SchedulerRuns.BlockedAsAsked | src/sched/process.c:150-162 | Over whole runs a process is blocked if and only if it was blocked and not unblocked since. |
| SchedulerRuns.DispatchSkipsBlocked | src/sched/process.c:150-173 | Over whole runs no blocked process is dispatched, and a switch comes back without one if and only if all are blocked. |
| SchedulerRuns.CurrentIsLastDispatched | src/sched/process.c:115-168 | The current process changes only by a dispatch or by a spawn into an empty queue. |
| SchedulerContext.CurrentIsRunning | src/sched/process.c:115-168 | The current process is the one dispatched last if and only if no process was spawned into an empty queue since. |
| SchedulerContext.SavedForItsOwner | src/sched/process.c:147-149 | Any registers are saved for the process they belong to if and only if no such spawn came in between. |
| SchedulerContext.RegistersGoToNewcomer | src/sched/process.c:115-149 | After such a spawn they replace the start state of the new process and are lost to their owner. |
| SchedulerContext.ContextsAreOwn | src/sched/process.c:115-170 | Over whole runs, with any registers, every process always has its own saved if and only if no such spawn came between a dispatch and the next switch that saves. |
| SchedulerContext.ResumesWithItsOwn | src/sched/process.c:135-170 | In such a run a dispatch loads what the process itself was interrupted with last, or its start state. |
| SchedulerRuns.SelectorsIgnoreUserFlag | src/sched/process.c:96-110 | Every process gets the kernel selectors; they match the request if and only if user mode was not asked for. |
| Timer.TimerQueue.AddTimerEvent | src/kernel/timer.c:37-67 | As written, only the last event and the new one are linked afterwards; without a callback nothing changes. |
| Timer.AddKeepsEvents | src/kernel/timer.c:54-65 | The events that were there are kept if and only if there was at most one. |
| Timer.TimerQueue.Append | src/kernel/timer.c:54-60 | With a cursor of its own the addition appends. |
| Timer.TimerQueue.ProcessTimerQueue | src/kernel/timer.c:69-92 | Every event of the list ticks, and exactly the due callbacks are called, in order. |
| TimerRuns.ProcessAll | src/kernel/timer.c:69-92 | Calls in a row do what the run on values does. |
| TimerRuns.ElapsedStaysBelow | src/kernel/timer.c:78-88 | The elapsed time stays below the period, whatever the steps. |
| TimerRuns.RaisedWhenDue | src/kernel/timer.c:78 | An event is raised exactly when due if and only if the 32-bit sum does not wrap. |
| TimerRuns.TimeIsConserved | src/kernel/timer.c:78-88 | All time is covered by firings and the rest kept; every firing covers at least the period and less than one step more. |
| TimerRuns.ConstantStep | src/kernel/timer.c:78-88 | With a constant step the firings after n calls number n / ceil(period / step), and the time kept is what is left over. |
| TimerRuns.EventsAreIndependent | src/kernel/timer.c:72-90 | The events of a list do not influence each other. |
| TimerRuns.LogCounts | src/kernel/timer.c:78-85 | Every call is made as often as the events that make it fire. |
| TimerRuns.CalledAtItsRate | src/kernel/timer.c:69-92 | A callback that one event has for itself is called at the rate of that event, whatever else is in the list. |

## Left out

- Heap growth: `heap_expand`, `heap_contract` and `create_hole_and_alloc`; the kernel heap is made with its greatest size.
- Heap.Heap.Alloc: the search asks for the total block size, as the code does, so a hole that would just hold the payload is passed over; room in the index for the holes left over is a precondition where the code stops the machine.
- Heap.Heap.constructor: the index is not placed inside the heap memory, and `end` need not be page-aligned.
- SortedArrays.SortedArray.Add: room for the element is a precondition; the code checks it after writing and stops the machine. The array has one slot more than its capacity, which the last step of a removal reads.
- HeapRegion.GetHeapRegion: printing of reclaimable regions and the loop after the search, which only precedes the panic.
- Frames.FrameFree: stated for frames of the bitmap, as frame_alloc hands them out.
- Paging.IdentityMap: 32-bit wrap-around of the loop counter is excluded by `Room`, which asks that fewer than 1024 tables map the heap address and themselves.
- Paging.PagingInit: memory below 128 KiB, where the bitmap has no words and marking frame 0 writes behind it.
- The second loop of paging_init, the page fault handler, page flags beyond present, writeable and user, and loading of control registers.
- StaticAlloc.RunIsDisjoint: addresses that wrap at 4 GiB.
- BootModules.Modules.Discover: tags are given by type, size and module bounds; the saving of modules and their list.
- Scheduler.Processes.Spawn: process ids below 2^31, and running out of memory; a new stack address is a parameter.
- Interrupt masking, pre-emption inside a function and returns that skip the restoring of interrupts.
- Format.VFormat: formats with `%n`, with `L` on a number, with 64 or more digits in a row or that end inside a directive, and buffers without room for the whole text.
- Format.VFormatFrom: the byte behind the 64 characters of the buffer is taken as part of it; runs start with NULs only. What a format that is rejected half-way leaves in the buffer is not stated.
- FormatMeaning.DirectiveIsRead: flags, width, precision and length stand once each and in this order; `DirectiveFlags` says what any other modifiers mean.
- KString.FormatUintmax: the byte after the digits must lie in the buffer, since the reversal looks at it.
- KChar.CaseConversion: characters from 128 on, which index past the table.
- Tar.TarExtract: the archive lies in memory up to whole blocks and below 4 GiB; the copy of a full-length name writes its terminator into the next field, which is assigned right after.
- Archives.ArchiveRoundTrip: fields at full width without terminators, as the walker reads them; other fields of the header are arbitrary.
- Initrd.GetFileByName: hashing and comparing names of unused slots, which are arbitrary here.
- MemoryCopy.Copy: regions that wrap at the end of the address space.
- CopyAsWritten.CopiesOnlyOntoItself: memory is below 4 GiB, and an access to page 0 or behind the memory faults; the regions lie inside it.
- Timer.TimerQueue.AddTimerEvent: names are values, so their duplication and running out of memory are not modelled; callbacks return and are recorded as firings.
- TimerRuns.TimeIsConserved: stated for steps with which the 32-bit sum cannot wrap; `RaisedWhenDue` says what happens otherwise.
- Comparison, search and filling of memory and strings, linked lists (`libk/klist.c`), symbols, console, printing and panics.
- Assembly, port access and processor tables.
