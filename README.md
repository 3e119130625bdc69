# Demand-paged Nachos address space, modelled in Dafny

This project models the `AddrSpace` class of a Nachos 3.4 teaching kernel
extended with demand paging, in its two variants: `lab7/addrspace.cc` and
the earlier `lab7/temp/addrspace.cc`. An address space owns a linear page
table of `numPages` entries. Only `AvailablePages` (4) of its pages are
resident at a time. Their page numbers form a ring, `virtualPages`, with a
FIFO cursor `firstInPage`. Frames come from a bitmap shared by all spaces,
and space identifiers from a shared pool of 128 flags.

On a page fault, a replacement policy (`FIFO` or `SecondChance`) picks a
victim in the ring. `Swap` then performs the eviction cycle:

- `WriteBack` stores a dirty victim. Code and initialised data go back to
  the executable. Uninitialised data and stack go to a fresh slot of a
  per-space swap file.
- The victim's frame is handed to the faulting page.
- `ReadIn` fills the frame. A file-backed page is read from the executable.
  A swap-backed page is read from its slot, which is then released. A
  swap-backed page never written out is zero-filled.

Layout:

- `machine.dfy` (module `Machine`): page size, frame count, registers, the
  translation entry and the machine object.
- `carith.dfy` (`CArith`): C's truncating `/` and `%`, and `divRoundUp`.
- `outcomes.dfy` (`Outcomes`): `Option`, `Result`, and the fatal
  conditions the constructor ASSERTs against.
- `noff.dfy` (`Noff`): the NOFF header, its byte-order conversion, and the
  page count.
- `layout.dfy` (`Layout`): the segment page ranges, the segment type and
  file offset lab7's `copy2Mem` assigns, and lab7's `Translate`.
- `bitmap.dfy` (`BitMaps`):
  - the `BitMap` allocator's contract (`Find` returns the lowest clear bit);
  - successive claims;
  - the space-identifier pool.
- `paging.dfy` (`Paging`):
  - the eviction cycle as functions on an abstract state `Vm` (page table,
    main memory, executable, swap file, slot bitmap);
  - the invariants a space keeps between faults:
    - `Structural`: each frame has one owner, each slot one holder, and the
      slot bitmap agrees;
  - `Coherent`: every page's content is where the page table says it is;
  - what the user program sees of a page: `Content`, which is its frame when
    resident and otherwise its backing store.
- `replacement.dfy` (`Replacement`):
  - the ring invariant (the ring lists exactly the resident pages);
  - FIFO victim order;
  - a clock (second-chance) algorithm;
  - the `SecondChance` scan exactly as the source writes it.
- `addrspace.dfy` (`AddrSpaceLab7`): the class of `lab7/addrspace.cc`. Its
  methods are proved against the functions above.
- `addrspace_temp.dfy` (`AddrSpaceTemp`): the class of
  `lab7/temp/addrspace.cc`. It is modelled as written, with the
  byte-offset load of `copy2Mem`, the scan of `SecondChance`, and a
  destructor that reaches `BitMap::Clear(-1)`.

The constructors are static `Load` methods that return a `Result`. The
kernel's halting `ASSERT`s become `Failure`s, in the source's order. The
header read from the executable, the byte-order conversion (`WordToHost`)
and whether the file system created the swap file are parameters.

Main memory, the executable and the swap file are maps from frame or byte
offset to page-sized blocks; a block never written reads as zeros.

`StackPages` is not defined in any file of this model, so it is a
constructor parameter of the lab7 space.

Where the two variants differ from what the code evidently intends, the
lab7 class implements the intended behaviour. The code as written is
modelled beside it, with a lemma exhibiting the difference (see "Findings").

## Model

| member | source | states |
|---|---|---|
| BitMaps.FirstClear | CODE/nachos-3.4/code/lab7/addrspace.cc:66-75 | the lowest clear index, or -1 exactly when every flag is set |
| BitMaps.ClaimSpaceId | CODE/nachos-3.4/code/lab7/addrspace.cc:66-75 | the identifier claimed is the lowest free one, which is then set; nothing changes when the pool is full |
| BitMaps.ReleasedIdReused | CODE/nachos-3.4/code/lab7/addrspace.cc:131 | an identifier released by the destructor is the next one claimed when all lower ones are taken |
| BitMaps.TakenIdNotClaimed | CODE/nachos-3.4/code/lab7/addrspace.cc:66-75 | an identifier in use is never handed out again |
| BitMaps.BitMap.Find | CODE/nachos-3.4/code/lab7/addrspace.cc:159 | returns the lowest clear frame and sets it, or -1 with the map unchanged |
| BitMaps.BitMap.Clear | CODE/nachos-3.4/code/lab7/addrspace.cc:134 | clears an in-range bit; an out-of-range argument (the source's ASSERT) is reported |
| BitMaps.ClaimsSpec | CODE/nachos-3.4/code/lab7/addrspace.cc:156-161 | successive Finds hand out distinct frames that were free, set exactly those, and never fail while enough frames are free |
| BitMaps.FrameClaimed | CODE/nachos-3.4/code/lab7/addrspace.cc:159 | one Find adds exactly its frame to the set bits, or finds the map full |
| BitMaps.NotFullHasClear | CODE/nachos-3.4/code/lab7/addrspace.cc:303 | Find cannot fail while fewer bits are set than exist |
| BitMaps.CountSetUpdate | CODE/nachos-3.4/code/lab7/addrspace.cc:303 | setting or clearing one bit changes the count of set bits by exactly one |
| Noff.SwapHeader | CODE/nachos-3.4/code/lab7/addrspace.cc:29-41 | each of the ten header words is the conversion of the same word of the input |
| Noff.SwapHeaderInvolutive | CODE/nachos-3.4/code/lab7/addrspace.cc:29-41 | converting all ten header words twice with an involutive byte swap gives the header back |
| Noff.LoadHeader | CODE/nachos-3.4/code/lab7/addrspace.cc:77-81 | the header is accepted iff its magic is right as read or after conversion; it is converted only in the second case; the accepted magic is NOFFMAGIC |
| Noff.LoadHeaderIdempotent | CODE/nachos-3.4/code/lab7/temp/addrspace.cc:77-81 | an accepted header passes the check again unchanged |
| Noff.TotalSize | CODE/nachos-3.4/code/lab7/addrspace.cc:84-85 | the `unsigned int` size: in [0, 2^32), congruent to the true sum modulo 2^32, and equal to it when it fits |
| Noff.NumPages | CODE/nachos-3.4/code/lab7/addrspace.cc:87 | `divRoundUp(size, PageSize)` is at most `size` and zero only for an empty size (by how much it rounds up is Noff.NumPagesCovers) |
| Noff.NumPagesCovers | CODE/nachos-3.4/code/lab7/addrspace.cc:83-89 | the pages cover segments and stack with less than a page to spare, and there are at least UserStackSize / PageSize of them |
| CArith.CDivMod | CODE/nachos-3.4/code/lab7/addrspace.cc:223-224 | C's truncating division and remainder recompose the dividend, the remainder has the dividend's sign and is smaller than the divisor |
| Layout.PagesBounds | CODE/nachos-3.4/code/lab7/addrspace.cc:174 | divRoundUp(n) pages hold n bytes with less than a page to spare, and are zero only for n = 0 |
| Layout.PagesOfSum | CODE/nachos-3.4/code/lab7/addrspace.cc:174-212 | the pages of three segments rounded separately exceed the pages of their sum by at most two |
| Layout.SegmentPagesFit | CODE/nachos-3.4/code/lab7/addrspace.cc:169-216 | the three segment ranges of copy2Mem end at least six pages below numPages, so its loops stay inside the table |
| Layout.SegmentRangesDisjoint | CODE/nachos-3.4/code/lab7/addrspace.cc:174-214 | code, initialised-data and uninitialised-data page ranges do not overlap |
| Layout.EveryPageTyped | CODE/nachos-3.4/code/lab7/addrspace.cc:151-153 | with a stack of at least UserStackSize bytes, every page gets a segment type from setUpTranslation or copy2Mem |
| Layout.LoadedFileAddrsDistinct | CODE/nachos-3.4/code/lab7/addrspace.cc:176-194 | two different code or data pages record different executable offsets when no two blocks copy2Mem reads overlap in the file |
| Layout.ByteOrderedBlocksOverlap | CODE/nachos-3.4/code/lab7/addrspace.cc:174-194 | with the data placed right after the last code byte and a partly filled last code page, the last code block and the first data block overlap in the executable |
| Layout.Translate | CODE/nachos-3.4/code/lab7/addrspace.cc:218-241 | page * PageSize + offset gives the address back in the stack and code branches, and its distance into the segment, counted from the segment's first page, in the two data branches |
| Layout.TranslateOffsetBounds | CODE/nachos-3.4/code/lab7/addrspace.cc:218-241 | the offset is always less than a page in magnitude, and not negative when the stack spans UserStackSize bytes |
| Layout.TranslateStack | CODE/nachos-3.4/code/lab7/addrspace.cc:221-224 | a stack-range address maps to (addr / PageSize, addr % PageSize) in the top pages, inside the stack pages when StackPages * PageSize == UserStackSize |
| Layout.TranslateShortStackNegativeOffset | CODE/nachos-3.4/code/lab7/addrspace.cc:221-224 | with a stack shorter than UserStackSize the stack branch yields a negative offset |
| Layout.TranslateCode | CODE/nachos-3.4/code/lab7/addrspace.cc:234-236 | a code address lands in a code page at the file offset copy2Mem recorded for it |
| Layout.TranslateInitData | CODE/nachos-3.4/code/lab7/addrspace.cc:230-233 | an initialised-data address lands in an initialised-data page at the matching executable offset |
| Layout.TranslateUninitData | CODE/nachos-3.4/code/lab7/addrspace.cc:225-229 | an uninitialised-data address lands in an uninitialised-data page at the matching offset |
| Layout.StackRangeOverlapsInitData | CODE/nachos-3.4/code/lab7/addrspace.cc:221 | in a small program the stack range starts below the data, so an initialised-data address is translated by the stack branch |
| Paging.WriteBack | CODE/nachos-3.4/code/lab7/addrspace.cc:294-311 | a clean page is untouched; a dirty file-backed page's frame becomes its backing; a dirty swap-backed page takes the lowest free slot; dirty ends false |
| Paging.ReadIn | CODE/nachos-3.4/code/lab7/addrspace.cc:313-340 | the frame receives the page's backing; a slot it held is released; other frames and pages are untouched |
| Paging.ReadInAsWritten | CODE/nachos-3.4/code/lab7/addrspace.cc:326-335 | the source's ReadIn differs from ReadIn only in leaving a page read from swap clean |
| Paging.Transfer | CODE/nachos-3.4/code/lab7/addrspace.cc:283-288 | the hand-over keeps the table's length (what it moves is Paging.TransferMovesFrame) |
| Paging.Handover | CODE/nachos-3.4/code/lab7/addrspace.cc:280-288 | the write-back and the hand-over keep the table's length and leave main memory untouched |
| Paging.Swap | CODE/nachos-3.4/code/lab7/addrspace.cc:280-292 | for two different pages, the old page ends absent with frame -1 and the new page resident in the old page's frame |
| Paging.SwapMovesFrame | CODE/nachos-3.4/code/lab7/addrspace.cc:280-292 | for two different pages, no other entry changes and no frame but the one handed over changes |
| Paging.TransferMovesFrame | CODE/nachos-3.4/code/lab7/addrspace.cc:283-288 | the frame moves from the old page to the new one, the old page becomes absent with frame -1, the new one resident, used and clean, nothing else changes |
| Paging.TransferSamePageLosesFrame | CODE/nachos-3.4/code/lab7/addrspace.cc:283-286 | swapping a page for itself leaves it resident with frame -1 |
| Paging.SwapKeepsStructure | CODE/nachos-3.4/code/lab7/addrspace.cc:280-292 | Swap keeps one owner per frame and one holder per slot, leaves the set of owned frames unchanged, and moves residence from the old page to the new one only |
| Paging.SwapKeepsContent | CODE/nachos-3.4/code/lab7/addrspace.cc:280-340 | with ReadIn corrected, a swap changes no page's content as the program sees it |
| Paging.SwapSlotRoundTrip | CODE/nachos-3.4/code/lab7/addrspace.cc:301-305 | a swap-backed page written out and read back gets its bytes back and returns its slot |
| Paging.WriteBackKeepsContent | CODE/nachos-3.4/code/lab7/addrspace.cc:294-311 | WriteBack keeps every page's content and makes the victim's backing equal its frame |
| Paging.ReadInKeepsContent | CODE/nachos-3.4/code/lab7/addrspace.cc:313-340 | ReadIn brings the page's backing into its frame and changes no other page's content |
| Paging.UserWriteKeepsInvariants | CODE/nachos-3.4/code/lab7/addrspace.cc:294-311 | a program write to a resident page (which sets dirty) keeps both invariants and changes no other page |
| Paging.UseBitsIrrelevant | CODE/nachos-3.4/code/lab7/addrspace.cc:259-264 | changing use bits affects neither invariant nor any content |
| Paging.ReadInAsWrittenLosesPage | CODE/nachos-3.4/code/lab7/addrspace.cc:326-336 | with ReadIn as written, four swaps between two stack pages turn page 0's data into zeros |
| Replacement.ReplaceKeepsResidentSet | CODE/nachos-3.4/code/lab7/addrspace.cc:249-256 | putting the faulting page into the victim's slot keeps the ring listing exactly the resident pages |
| Replacement.FifoEvictsOldestFirst | CODE/nachos-3.4/code/lab7/addrspace.cc:243-257 | successive FIFO faults evict the ring's pages from the cursor on, oldest first, then the pages faulted in |
| Replacement.ClockGivesSecondChance | CODE/nachos-3.4/code/lab7/addrspace.cc:259-278 | the clock picks a slot with a clear use bit when one exists, and the cursor slot when all are set |
| Replacement.ClearPassedUses | CODE/nachos-3.4/code/lab7/addrspace.cc:261-263 | the clock scan clears exactly the use bits it passes and touches no other page |
| Replacement.AsWrittenScanNeverExits | CODE/nachos-3.4/code/lab7/addrspace.cc:260-264 | as written, with the use bits of pages 0..3 all set, the scan loop never leaves |
| Replacement.AsWrittenScanExit | CODE/nachos-3.4/code/lab7/temp/addrspace.cc:222-226 | when the scan ends it stops at the first of pages 0..3 whose use bit is clear; it ends exactly when one is clear |
| Replacement.AsWrittenSecondChanceBreaksRing | CODE/nachos-3.4/code/lab7/addrspace.cc:265-277 | as written, evicting the scanned slot's page but filling the cursor slot leaves a ring that no longer lists the resident pages |
| AddrSpaceLab7.AddrSpace.Load | CODE/nachos-3.4/code/lab7/addrspace.cc:61-123 | fails exactly as the ASSERT sequence does; on success: the lowest free identifier is claimed, pages 0..3 form the ring, the table is the loaded one, the claimed frames are set, every page shows its initial image, and the space satisfies both invariants |
| AddrSpaceLab7.AddrSpace.SetUpTranslation | CODE/nachos-3.4/code/lab7/addrspace.cc:139-167 | every entry describes its own page, clean, with offset -1 and its type; pages 0..min(n,4)-1 are resident in successive Find results and fill the ring in order; others have frame -1 |
| AddrSpaceLab7.AddrSpace.Copy2Mem | CODE/nachos-3.4/code/lab7/addrspace.cc:169-216 | every segment page gets its type and file offset, each resident code or data page's frame holds its executable block, and no other frame changes |
| AddrSpaceLab7.AddrSpace.LoadSegment | CODE/nachos-3.4/code/lab7/addrspace.cc:174-201 | each page of the range records its type and file offset, and each resident one has exactly its own frame loaded from that offset |
| AddrSpaceLab7.AddrSpace.ZeroResidentFrames | CODE/nachos-3.4/code/lab7/addrspace.cc:114-117 | the correction of the commented-out `bzero` (see Findings): before copy2Mem the frame of every resident page is zeroed, and no other frame changes |
| AddrSpaceLab7.UnzeroedFrameShowsStaleBytes | CODE/nachos-3.4/code/lab7/addrspace.cc:114-120 | as written, without the zero-fill: when code and data take fewer than four pages, the next page is resident but not loaded and shows the bytes its frame held before instead of zeros |
| AddrSpaceLab7.AddrSpace.Destroy | CODE/nachos-3.4/code/lab7/addrspace.cc:130-137 | the identifier is freed and exactly the space's resident frames are released |
| AddrSpaceLab7.AddrSpace.WriteBack | CODE/nachos-3.4/code/lab7/addrspace.cc:294-311 | the method's new state is Paging.WriteBack of the old one |
| AddrSpaceLab7.AddrSpace.ReadIn | CODE/nachos-3.4/code/lab7/addrspace.cc:313-340 | the method's new state is Paging.ReadIn of the old one |
| AddrSpaceLab7.AddrSpace.Swap | CODE/nachos-3.4/code/lab7/addrspace.cc:280-292 | for two different pages, the new state is Paging.Swap of the old one |
| AddrSpaceLab7.AddrSpace.FIFO | CODE/nachos-3.4/code/lab7/addrspace.cc:243-257 | the page under the cursor is evicted for the translated fault page, which takes only that slot; the cursor advances mod 4; both invariants and the ring are kept |
| AddrSpaceLab7.AddrSpace.SecondChance | CODE/nachos-3.4/code/lab7/addrspace.cc:259-278 | the clock victim is evicted, the passed use bits cleared, the fault page takes the victim's slot, the cursor moves past it, and the invariants are kept |
| AddrSpaceLab7.AddrSpace.InitRegisters | CODE/nachos-3.4/code/lab7/addrspace.cc:352-371 | all registers zero except NextPCReg = 4 and StackReg = numPages * PageSize - 16 |
| AddrSpaceLab7.AddrSpace.RestoreState | CODE/nachos-3.4/code/lab7/addrspace.cc:391-394 | the machine translates through this space's table of numPages entries; memory is unchanged |
| AddrSpaceLab7.InitialStackInTopPage | CODE/nachos-3.4/code/lab7/addrspace.cc:366-369 | the initial stack pointer translates to the last page, 16 bytes below its end, and the PC pair is 0, 4 |
| AddrSpaceLab7.DestructorClearsAbsentFrame | CODE/nachos-3.4/code/lab7/addrspace.cc:133-135 | with more pages than ring slots, the destructor as written passes -1 to BitMap::Clear |
| AddrSpaceLab7.LoadVerdict | CODE/nachos-3.4/code/lab7/addrspace.cc:61-123 | the load fails for want of an identifier exactly when all are taken, and succeeds exactly when every check passes: identifier, magic, swap file, page limit, frames for the ring |
| AddrSpaceLab7.RoomForRingNeverExhausts | CODE/nachos-3.4/code/lab7/addrspace.cc:156-161 | with four free frames the load never fails for lack of frames |
| AddrSpaceLab7.LoadedStructural | CODE/nachos-3.4/code/lab7/addrspace.cc:139-216 | a freshly loaded space keeps frame and slot ownership, its ring is exactly pages 0..3, and its frames are the claimed ones |
| AddrSpaceLab7.LoadedContent | CODE/nachos-3.4/code/lab7/addrspace.cc:169-216 | after loading, every page shows its executable block or zeros, and every resident frame equals its backing |
| AddrSpaceLab7.LoadedCoherent | CODE/nachos-3.4/code/lab7/addrspace.cc:139-216 | a freshly loaded space whose segments do not overlap in the file is coherent |
| AddrSpaceLab7.ReplaceKeepsInvariants | CODE/nachos-3.4/code/lab7/addrspace.cc:243-292 | evicting a ring page for an absent page keeps both invariants, the owned frames, the ring, and every page's content |
| AddrSpaceLab7.SecondChanceKeepsInvariants | CODE/nachos-3.4/code/lab7/addrspace.cc:259-292 | the clock scan and the swap after it keep both invariants, the owned frames, the ring, and every page's content |
| AddrSpaceTemp.AddrSpace.Load | CODE/nachos-3.4/code/lab7/temp/addrspace.cc:61-109 | fails exactly as the identifier, magic and size ASSERTs do; on success: the lowest free identifier is claimed, pages 0..3 form the ring, and the table and memory are copy2Mem's over the set-up table |
| AddrSpaceTemp.AddrSpace.SetUpTranslation | CODE/nachos-3.4/code/lab7/temp/addrspace.cc:125-148 | each entry describes its own page, clean and writable; pages 0..min(n,4)-1 are resident and used in successive Find results (even -1) and fill the ring in order; the others are absent with frame -1 |
| AddrSpaceTemp.AddrSpace.Copy2Mem | CODE/nachos-3.4/code/lab7/temp/addrspace.cc:150-204 | the table and memory become Copy2MemImage of the old ones |
| AddrSpaceTemp.Copy2MemImage | CODE/nachos-3.4/code/lab7/temp/addrspace.cc:150-204 | code, then initialised data, then uninitialised data: only file offsets change, and only on resident pages |
| AddrSpaceTemp.SegmentCopy | CODE/nachos-3.4/code/lab7/temp/addrspace.cc:151-166 | one segment's loop changes only file offsets of resident pages, and nothing for an empty segment |
| AddrSpaceTemp.SegmentLoop | CODE/nachos-3.4/code/lab7/temp/addrspace.cc:159-166 | keeps the table's length and page-sized frames (its effect is stated by SegmentLoopTable, SegmentLoopKeepsFrame and SegmentLoopLoads) |
| AddrSpaceTemp.AddrSpace.CopySegment | CODE/nachos-3.4/code/lab7/temp/addrspace.cc:151-166 | the table and memory become SegmentLoop's from the page and offset of the virtual address and from the segment's file offset |
| AddrSpaceTemp.SegmentLoopTable | CODE/nachos-3.4/code/lab7/temp/addrspace.cc:159-166 | only resident pages in the range change, and only their file offset: the k-th records the segment's offset plus k pages |
| AddrSpaceTemp.SegmentLoopKeepsFrame | CODE/nachos-3.4/code/lab7/temp/addrspace.cc:159-166 | a frame that neither holds a resident page of the range nor directly follows one keeps its bytes |
| AddrSpaceTemp.SegmentLoopLoads | CODE/nachos-3.4/code/lab7/temp/addrspace.cc:159-166 | for a page-aligned segment over distinct frames, every resident page in range holds its own block of the executable |
| AddrSpaceTemp.SpillOverwritesNextFrame | CODE/nachos-3.4/code/lab7/temp/addrspace.cc:154-162 | a one-page segment at virtual address 64 also writes into the next frame, which belongs to a page outside the segment |
| AddrSpaceTemp.LoadAt | CODE/nachos-3.4/code/lab7/temp/addrspace.cc:161-162 | a page read at a byte offset fills the frame from the offset on and the start of the next frame, and leaves every other frame alone |
| AddrSpaceTemp.UntypedSwapKeepsStaleFrame | CODE/nachos-3.4/code/lab7/temp/addrspace.cc:255-301 | for pages without a segment type, a swap writes nothing back and reads nothing in: the new page sees the old page's bytes and the old page's data reads as zeros |
| AddrSpaceTemp.AddrSpace.Destroy | CODE/nachos-3.4/code/lab7/temp/addrspace.cc:116-123 | the identifier is freed; the kernel halts exactly when some page's frame is outside the bitmap, after releasing the frames of the pages before it |
| AddrSpaceTemp.LoadVerdict | CODE/nachos-3.4/code/lab7/temp/addrspace.cc:64-90 | fails for want of an identifier exactly when all are taken, succeeds exactly when identifier, magic and page limit pass, and never reports a swap-file or frame failure |
| AddrSpaceTemp.SetUpLeavesAbsentPage | CODE/nachos-3.4/code/lab7/temp/addrspace.cc:143-146 | with more pages than ring slots, setUpTranslation leaves a frame -1 that the destructor passes to Clear |
| AddrSpaceTemp.FaultPage | CODE/nachos-3.4/code/lab7/temp/addrspace.cc:209 | `(unsigned) faultPageAddr / PageSize` is below 2^32 / PageSize and, for an address that fits in 32 bits, is the page that contains it |
| AddrSpaceTemp.AddrSpace.FIFO | CODE/nachos-3.4/code/lab7/temp/addrspace.cc:206-219 | the page under the cursor is evicted for page (unsigned)addr / PageSize, which takes only that slot; the cursor advances mod 4 |
| AddrSpaceTemp.AddrSpace.SecondChance | CODE/nachos-3.4/code/lab7/temp/addrspace.cc:221-239 | as written: the victim is the page in the first slot k in 0..3 with pageTable[k].use clear, no use bit changes, and the fault page goes into the cursor slot |
| AddrSpaceTemp.AddrSpace.Swap | CODE/nachos-3.4/code/lab7/temp/addrspace.cc:241-253 | the new state is Paging.SwapAsWritten of the old one, for any two pages |
| AddrSpaceTemp.AddrSpace.WriteBack | CODE/nachos-3.4/code/lab7/temp/addrspace.cc:255-272 | the new state is Paging.WriteBack of the old one |
| AddrSpaceTemp.AddrSpace.ReadIn | CODE/nachos-3.4/code/lab7/temp/addrspace.cc:274-301 | the new state is Paging.ReadInAsWritten of the old one |
| AddrSpaceTemp.AddrSpace.InitRegisters | CODE/nachos-3.4/code/lab7/temp/addrspace.cc:313-332 | all registers zero except NextPCReg = 4 and StackReg = numPages * PageSize - 16 |
| AddrSpaceTemp.AddrSpace.RestoreState | CODE/nachos-3.4/code/lab7/temp/addrspace.cc:352-355 | the machine translates through this space's table of numPages entries |

## Left out

- Printing: `Print`, `printf` and `DEBUG` have no effect on state and are
  not modelled.
- Swap-file naming: the `strcpy`/`strcat` naming of the swap file is not
  modelled. Whether `Create` succeeds is the lab7 `Load`'s `swapCreated`
  parameter.
- File I/O: `ReadAt` and `WriteAt` are whole-page reads and writes of
  page-keyed stores. Only the temp variant's misaligned load is modelled at
  byte level.
- Not part of this model: `machine.h`, `noff.h`, `bitmap.cc`, `utility.h`
  and the file system. The constants PageSize 128, NumPhysPages 32, the
  register numbers and NOFFMAGIC are Nachos 3.4's standard values.
- The page-fault handler that calls `FIFO` and `SecondChance` is in none
  of the files of this model. `lab6/exception.cc` handles only the Halt
  and Exec system calls and calls neither.
- Closed executable: the Exec system call (`lab6/exception.cc:88-90`)
  deletes, and so closes, the executable right after constructing the
  space. Every later `ReadIn` or `WriteBack` of a code or initialised-data
  page then goes through a closed file. The model keeps `executable` as a
  live store of pages.
- Executable layout: a NOFF linker places the initialised data right
  after the last code byte. When the code does not fill its last page,
  the last code block and the first data block then share bytes of the
  file (`Layout.ByteOrderedBlocksOverlap`), and writing one back changes
  the other. The executable here is a store of independent PageSize
  blocks keyed by offset, which does not model that sharing. So
  `LoadedCoherent`, and the content lemmas for file-backed pages that
  rest on it, are stated only for executables whose blocks do not overlap
  (`FileOrdered`).
- `SaveState` is empty in both variants and is not modelled.
- `StackPages` is undefined in the shown files. It is a parameter of the
  lab7 space. The lemmas that need it assume
  `StackPages * PageSize >= UserStackSize`.
- Sharing between spaces: the frame bitmap and identifier pool are shared.
  The model proves that a space owns the frames it claimed, but not that
  frames of different spaces stay disjoint. Calls are assumed serialised.
- Header sanity: both variants' `Load` require a header with non-negative
  segment sizes whose sum fits a signed word (`SaneSizes`). This excludes
  malformed headers and signed overflow in the page arithmetic.
- Small address spaces: a space smaller than the ring cannot occur, since
  `Noff.NumPagesCovers` shows that `numPages` is at least 8.
- virtualSpaceMap: neither variant assigns it, so the pointer is
  indeterminate and the first write to swap goes through it. Both constructors here create it
  with one slot per page, and the swap file starts empty. In the temp
  variant the swap file is never created either.
- AddrSpaceLab7.AddrSpace.Load: a full frame bitmap during
  `setUpTranslation` fails the load with `FramesExhausted`. The source
  stores frame -1 in a resident page; the temp variant models that as
  written.
- AddrSpaceLab7.AddrSpace.Load: zero-fills the initially resident frames
  before copy2Mem (`FillFrames` calls `ZeroResidentFrames`). The source has the `bzero` commented out, so
  resident stack and uninitialised-data pages show whatever an earlier
  program left.
- AddrSpaceLab7.AddrSpace.ReadIn: marks a page read back from swap dirty,
  because the swap slot it came from is released. The source leaves it
  clean.
- AddrSpaceLab7.AddrSpace.Swap: requires `oldPage != newPage`.
- AddrSpaceLab7.AddrSpace.SecondChance: is the clock algorithm the code
  evidently intends. The lab7 methods that evict require the faulting page
  to be absent.
- AddrSpaceLab7.AddrSpace.WriteBack: states the new state as a function of
  the old one. That its coherence and structure are preserved is proved in
  `Paging` about that function, not repeated in the method's contract.
- AddrSpaceLab7.AddrSpace.ReadIn: the same applies.
- Paging.Transfer: its own contract states only the table's length; the
  move itself is stated by `Paging.TransferMovesFrame`.
- Paging.Handover: its contract states only the length and the untouched
  memory; the result is the input to `ReadIn` inside `Paging.Swap`.
- AddrSpaceTemp.SegmentLoop: its own contract states only the shape of
  the result; its effect is stated by the three lemmas about it.
- AddrSpaceTemp.AddrSpace.SecondChance: requires that one of pages 0..3 has
  a clear use bit. Otherwise the source's loop never ends
  (`Replacement.AsWrittenScanNeverExits`).
- AddrSpaceTemp.AddrSpace.Load: requires each segment's pages to lie
  inside the table (`AllPlaced`). The source indexes out of bounds
  otherwise. It also requires memory and executable blocks to be PageSize
  bytes.
- AddrSpaceTemp.AddrSpace.Load: leaves the `type` and, for pages copy2Mem
  does not load, the `inFileAddr` of each entry unspecified. The source
  never assigns them, so they are whatever the fresh table held.
- AddrSpaceTemp.AddrSpace.Destroy: stops at the first frame outside the
  bitmap and reports `halted`, where the kernel's ASSERT in `Clear` stops
  it. `delete[] pageTable` is not modelled.
- Integer widths: sizes and addresses are unbounded integers. The
  unsigned size sum, the stack threshold of `Translate` and the temp
  variant's `(unsigned) faultPageAddr` are reduced modulo 2^32 explicitly.
  Other overflow is excluded by `SaneSizes`.

## Findings

| source | as written | input that shows it | evidently intended | confidence | as-written member | corrected member |
|---|---|---|---|---|---|---|
| CODE/nachos-3.4/code/lab7/addrspace.cc:259-264 | the scan compares `use == FALSE` instead of assigning it, starts at 0, and indexes pages by slot number | the initial state: pages 0..3 resident and all used | a clock scan that clears the bits it passes and always stops | not executed | Replacement.AsWrittenScanNeverExits | AddrSpaceLab7.AddrSpace.SecondChance |
| CODE/nachos-3.4/code/lab7/addrspace.cc:265-277 | the victim comes from the scanned slot but the new page goes into the cursor slot | ring [0,1,2,3], cursor 2, page 0's use bit clear, fault on page 4 | the new page replaces the victim in its own slot | not executed | Replacement.AsWrittenSecondChanceBreaksRing | AddrSpaceLab7.SecondChanceKeepsInvariants |
| CODE/nachos-3.4/code/lab7/addrspace.cc:326-336 | a page read back from swap releases its slot but stays clean, so its next eviction writes nothing | two stack pages and one frame, swapped back and forth four times | the page keeps its data | not executed | Paging.ReadInAsWrittenLosesPage | Paging.SwapKeepsContent |
| CODE/nachos-3.4/code/lab7/addrspace.cc:283-286 | Swap(p, p) gives p the frame and then sets the frame to -1 | any resident page swapped for itself | the two pages differ | not executed | Paging.TransferSamePageLosesFrame | AddrSpaceLab7.AddrSpace.Swap |
| CODE/nachos-3.4/code/lab7/addrspace.cc:133-135 | the destructor clears the frame of every page, including frame -1 of absent pages | any space, since every space has more than four pages | release only the resident frames | not executed | AddrSpaceLab7.DestructorClearsAbsentFrame | AddrSpaceLab7.AddrSpace.Destroy |
| CODE/nachos-3.4/code/lab7/temp/addrspace.cc:116-123 | the same destructor, reaching `Clear(-1)` | any loaded space | release only the resident frames | not executed | AddrSpaceTemp.SetUpLeavesAbsentPage | AddrSpaceLab7.AddrSpace.Destroy |
| CODE/nachos-3.4/code/lab7/temp/addrspace.cc:154-162 | a segment whose virtual address is not page-aligned is read a full page from `frame * PageSize + offset`, into the next frame | a one-page segment at virtual address 64 in frame 0, with page 1 in frame 1 | each page is loaded into its own frame | not executed | AddrSpaceTemp.SpillOverwritesNextFrame | AddrSpaceLab7.AddrSpace.LoadSegment |
| CODE/nachos-3.4/code/lab7/temp/addrspace.cc:255-301 | `type` is never assigned, so WriteBack and ReadIn take neither branch | a dirty page evicted for another page | data is written back and read in by segment | not executed | AddrSpaceTemp.UntypedSwapKeepsStaleFrame | Layout.EveryPageTyped |
| CODE/nachos-3.4/code/lab7/addrspace.cc:114-117 | the `bzero` of main memory is commented out, so the frames of resident stack and uninitialised-data pages are never cleared | a one-page program with no data: page 1 is resident but not loaded, in a frame an earlier program left non-zero | those pages read as zeros | not executed | AddrSpaceLab7.UnzeroedFrameShowsStaleBytes | AddrSpaceLab7.AddrSpace.ZeroResidentFrames |
| CODE/nachos-3.4/code/lab7/addrspace.cc:221-224 | Translate's stack branch assumes the stack spans UserStackSize bytes | StackPages 7, numPages 10, address 257 | a non-negative offset within the page | not executed | Layout.TranslateShortStackNegativeOffset | Layout.TranslateStack |
