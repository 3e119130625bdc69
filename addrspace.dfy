// The demand-paged address space of lab7/addrspace.cc: a page table with
// at most AvailablePages resident pages, a ring of those pages for page
// replacement, code and initialised data paged from the executable, stack
// and uninitialised data paged to a per-space swap file.
module AddrSpaceLab7 {
  import opened CArith
  import opened Machine
  import opened BitMaps
  import opened Outcomes
  import opened Noff
  import opened Layout
  import opened Paging
  import opened Replacement

  class AddrSpace {
    const machine: Machine
    /** The frame allocator shared by every address space (a static member). */
    const bitmap: BitMap
    /** The identifier pool shared by every address space (a static member). */
    const spaceIdMap: array<bool>
    /** StackPages: the number of top pages typed as stack. */
    const stackPages: int
    /** The ring of resident pages used by page replacement. */
    const virtualPages: array<int>
    /** The swap-slot allocator, one slot per page. */
    const virtualSpaceMap: BitMap

    var noffH: NoffHeader
    /** The executable file, as page-sized blocks by byte offset. */
    var executable: map<int, Page>
    /** The swap file `virtualSpaceFile`, as page-sized blocks by byte offset. */
    var swapFile: map<int, Page>
    var numPages: int
    var pageTable: array<TranslationEntry>
    var firstInPage: int
    var spaceId: int

    /** The fields the constructor has computed by the time it sets up the
        page table. The swap-slot bitmap is created here with one slot per
        page; the source never creates it. The page table is allocated by
        SetUpTranslation. */
    constructor (machine: Machine, bitmap: BitMap, spaceIdMap: array<bool>, stackPages: int,
                 executable: map<int, Page>, noffH: NoffHeader, numPages: nat, spaceId: int)
      ensures this.machine == machine && this.bitmap == bitmap && this.spaceIdMap == spaceIdMap
      ensures this.stackPages == stackPages && this.executable == executable
      ensures this.noffH == noffH && this.numPages == numPages && this.spaceId == spaceId
      ensures swapFile == map[] && firstInPage == 0
      ensures fresh(virtualPages) && virtualPages.Length == AvailablePages
      ensures fresh(virtualSpaceMap) && fresh(virtualSpaceMap.bits) && virtualSpaceMap.Valid()
      ensures virtualSpaceMap.numBits == numPages && virtualSpaceMap.bits[..] == seq(numPages, _ => false)
      ensures fresh(pageTable) && pageTable.Length == 0
    {
      this.machine := machine;
      this.bitmap := bitmap;
      this.spaceIdMap := spaceIdMap;
      this.stackPages := stackPages;
      this.executable := executable;
      this.noffH := noffH;
      this.numPages := numPages;
      this.spaceId := spaceId;
      swapFile := map[];
      firstInPage := 0;
      virtualPages := new int[AvailablePages](_ => 0);
      virtualSpaceMap := new BitMap(numPages);
      pageTable := new TranslationEntry[0];
    }

    /** AddrSpace::AddrSpace(executable): claims the lowest free space
        identifier, reads and byte-swaps the header, creates the swap file,
        sets up the page table, clears the resident frames and loads code
        and data. Each ASSERT that halts the kernel is a `Failure`, in the
        source's order. `raw` is the header as read from the executable,
        `wordToHost` the byte swap, and `swapCreated` whether the file
        system created the swap file. A bitmap that runs out of frames halts
        too, where the source would store frame -1. */
    static method Load(machine: Machine, bitmap: BitMap, spaceIdMap: array<bool>, stackPages: int,
                       executable: map<int, Page>, raw: NoffHeader, wordToHost: int -> int, swapCreated: bool)
      returns (r: Result<AddrSpace, Fatal>)
      requires spaceIdMap.Length == SpaceIdCount
      requires bitmap.Valid() && bitmap.numBits == NumPhysPages && bitmap.bits != spaceIdMap
      requires LoadHeader(raw, wordToHost).Some? ==> SaneSizes(LoadHeader(raw, wordToHost).value)
      modifies spaceIdMap, bitmap.bits, machine
      ensures var verdict := LoadVerdict(old(spaceIdMap[..]), raw, wordToHost, swapCreated, old(bitmap.bits[..]));
              && (r.Failure? <==> verdict.Some?)
              && (r.Failure? ==> r.error == verdict.value)
      ensures r.Success? ==>
                var s := r.value;
                && fresh(s) && s.Valid()
                && s.machine == machine && s.bitmap == bitmap && s.spaceIdMap == spaceIdMap
                && s.stackPages == stackPages && s.executable == executable && s.swapFile == map[]
                && s.noffH == LoadHeader(raw, wordToHost).value && s.numPages == NumPages(s.noffH)
                && s.spaceId == FirstClear(old(spaceIdMap[..]))
                && spaceIdMap[..] == old(spaceIdMap[..])[s.spaceId := true]
                && s.firstInPage == 0 && s.virtualPages[..] == [0, 1, 2, 3]
                && s.pageTable[..] == LoadedTable(s.noffH, s.numPages, stackPages,
                                                  Claims(old(bitmap.bits[..]), AvailablePages).0)
                && SetBits(bitmap.bits[..]) == SetBits(old(bitmap.bits[..])) + ResidentFrames(s.pageTable[..])
                && (forall p :: 0 <= p < s.numPages ==>
                      Content(s.Abs(), p) == InitialImage(s.noffH, executable, s.numPages, stackPages, p))
                && (forall f :: f !in ResidentFrames(s.pageTable[..]) ==>
                      PageAt(machine.mainMemory, f) == old(PageAt(machine.mainMemory, f)))
                && (stackPages * PageSize >= UserStackSize && stackPages <= s.numPages && FileOrdered(s.noffH)
                    ==> Coherent(s.Abs()))
    {
      ghost var bits0 := bitmap.bits[..];
      var id := ClaimSpaceId(spaceIdMap);
      if id < 0 {
        return Failure(SpaceIdsExhausted);
      }
      var header := LoadHeader(raw, wordToHost);
      if header.None? {
        return Failure(BadMagic);
      }
      var h := header.value;
      var n := NumPages(h);
      if !swapCreated {
        return Failure(SwapFileNotCreated);
      }
      if n > NumPhysPages {
        return Failure(TooManyPages);
      }
      var space := new AddrSpace(machine, bitmap, spaceIdMap, stackPages, executable, h, n, id);
      var framesOk := space.Populate();
      if !framesOk {
        return Failure(FramesExhausted);
      }
      r := Success(space);
    }

    /** The rest of the constructor once the fields are set:
        setUpTranslation, the zero-fill and copy2Mem. `framesOk` is false
        when the frame bitmap ran out; otherwise the space is valid, its ring
        is pages 0 .. AvailablePages - 1, and it shows the program its
        initial image. */
    method Populate() returns (framesOk: bool)
      requires virtualPages.Length == AvailablePages && spaceIdMap.Length == SpaceIdCount
      requires bitmap.Valid() && bitmap.numBits == NumPhysPages
      requires virtualSpaceMap.Valid() && virtualSpaceMap.numBits == numPages
      requires virtualSpaceMap.bits[..] == seq(numPages, _ => false)
      requires bitmap != virtualSpaceMap && bitmap.bits != virtualSpaceMap.bits
      requires bitmap.bits != spaceIdMap && virtualSpaceMap.bits != spaceIdMap && virtualPages != machine.registers
      requires SaneSizes(noffH) && numPages == NumPages(noffH) && numPages <= NumPhysPages
      requires 0 <= spaceId < SpaceIdCount && swapFile == map[]
      modifies this`pageTable, this`firstInPage, virtualPages, bitmap.bits, machine
      ensures framesOk <==> AllClaimed(Claims(old(bitmap.bits[..]), AvailablePages).0)
      ensures framesOk ==>
                && Valid()
                && firstInPage == 0 && virtualPages[..] == [0, 1, 2, 3]
                && pageTable[..] == LoadedTable(noffH, numPages, stackPages, Claims(old(bitmap.bits[..]), AvailablePages).0)
                && SetBits(bitmap.bits[..]) == SetBits(old(bitmap.bits[..])) + ResidentFrames(pageTable[..])
                && (forall p :: 0 <= p < numPages ==>
                      Content(Abs(), p) == InitialImage(noffH, executable, numPages, stackPages, p))
                && (forall f :: f !in ResidentFrames(pageTable[..]) ==>
                      PageAt(machine.mainMemory, f) == old(PageAt(machine.mainMemory, f)))
                && (stackPages * PageSize >= UserStackSize && stackPages <= numPages && FileOrdered(noffH)
                    ==> Coherent(Abs()))
    {
      ghost var bits0 := bitmap.bits[..];
      NumPagesCovers(noffH);
      framesOk := SetUpTranslation();
      assert Min(numPages, AvailablePages) == AvailablePages;
      if !framesOk {
        return;
      }
      assert virtualPages[0] == 0 && virtualPages[1] == 1 && virtualPages[2] == 2 && virtualPages[3] == 3;
      assert virtualPages[..] == [0, 1, 2, 3];
      ghost var frames := Claims(bits0, AvailablePages).0;
      ClaimsSpec(bits0, AvailablePages);
      assert GoodFrames(frames);
      FillFrames(frames);
    }

    /** The zero-fill and copy2Mem over the table setUpTranslation built
        from the distinct frames `frames`. */
    method FillFrames(ghost frames: seq<int>)
      requires virtualPages.Length == AvailablePages && spaceIdMap.Length == SpaceIdCount
      requires bitmap.Valid() && bitmap.numBits == NumPhysPages
      requires virtualSpaceMap.Valid() && virtualSpaceMap.numBits == numPages
      requires virtualSpaceMap.bits[..] == seq(numPages, _ => false)
      requires bitmap != virtualSpaceMap && bitmap.bits != virtualSpaceMap.bits
      requires bitmap.bits != spaceIdMap && virtualSpaceMap.bits != spaceIdMap && virtualPages != machine.registers
      requires SaneSizes(noffH) && numPages == NumPages(noffH) && numPages <= NumPhysPages
      requires 0 <= spaceId < SpaceIdCount && swapFile == map[]
      requires firstInPage == 0 && virtualPages[..] == [0, 1, 2, 3]
      requires GoodFrames(frames) && Claimed(frames) <= SetBits(bitmap.bits[..])
      requires pageTable.Length == numPages && pageTable[..] == SetUpTable(numPages, stackPages, frames)
      modifies pageTable, machine
      ensures Valid()
      ensures pageTable[..] == LoadedTable(noffH, numPages, stackPages, frames)
      ensures ResidentFrames(pageTable[..]) == Claimed(frames)
      ensures forall p :: 0 <= p < numPages ==>
                Content(Abs(), p) == InitialImage(noffH, executable, numPages, stackPages, p)
      ensures forall f :: f !in Claimed(frames) ==> PageAt(machine.mainMemory, f) == old(PageAt(machine.mainMemory, f))
      ensures stackPages * PageSize >= UserStackSize && stackPages <= numPages && FileOrdered(noffH) ==> Coherent(Abs())
    {
      ghost var pt0 := pageTable[..];
      SetUpFramesClaimed(noffH, stackPages, frames);
      LoadedOwned(numPages, stackPages, frames);
      ZeroResidentFrames();
      ghost var mem1 := machine.mainMemory;
      Copy2Mem();
      LoadedAfterCopy(noffH, stackPages, frames, pt0, pageTable[..]);
      LoadedMemory(noffH, executable, stackPages, frames, mem1, machine.mainMemory);
      LoadedStructural(noffH, stackPages, frames, Abs());
      LoadedContent(noffH, stackPages, frames, Abs());
      if stackPages * PageSize >= UserStackSize && stackPages <= numPages && FileOrdered(noffH) {
        LoadedCoherent(noffH, stackPages, frames, Abs());
      }
    }

    /** The objects a space uses are the right size and pairwise distinct. */
    ghost predicate Shape()
      reads this`pageTable, this`numPages
    {
      && virtualPages.Length == AvailablePages
      && pageTable.Length == numPages
      && spaceIdMap.Length == SpaceIdCount
      && bitmap.Valid() && bitmap.numBits == NumPhysPages
      && virtualSpaceMap.Valid() && virtualSpaceMap.numBits == numPages
      && bitmap != virtualSpaceMap
      && bitmap.bits != virtualSpaceMap.bits
      && bitmap.bits != spaceIdMap && virtualSpaceMap.bits != spaceIdMap
      && virtualPages != machine.registers
    }

    /** The state the eviction cycle reads and writes. */
    ghost function Abs(): Vm
      reads this`pageTable, this`executable, this`swapFile, pageTable, machine`mainMemory, virtualSpaceMap.bits
    {
      Vm(pageTable[..], machine.mainMemory, executable, swapFile, virtualSpaceMap.bits[..])
    }

    /** Everything but the replacement ring: the page-table bookkeeping and
        every resident frame claimed in the shared frame bitmap. (The header
        and page count never change after the constructor; Load states how
        it computed them.) */
    ghost predicate TableValid()
      reads this`pageTable, this`executable, this`swapFile, this`numPages, this`spaceId
      reads pageTable, machine`mainMemory, bitmap.bits, virtualSpaceMap.bits
    {
      && Shape()
      && numPages <= NumPhysPages
      && 0 <= spaceId < SpaceIdCount
      && Structural(Abs())
      && ResidentFrames(pageTable[..]) <= SetBits(bitmap.bits[..])
    }

    ghost predicate Valid()
      reads this`pageTable, this`executable, this`swapFile, this`numPages, this`spaceId, this`firstInPage
      reads pageTable, machine`mainMemory, bitmap.bits, virtualSpaceMap.bits, virtualPages
    {
      && TableValid()
      && 0 <= firstInPage < AvailablePages
      && ResidentSetExact(pageTable[..], virtualPages[..])
    }

    /** AddrSpace::setUpTranslation: a fresh page table whose first
        AvailablePages pages are resident, each in the frame the next `Find`
        on the shared frame bitmap returns, and form the replacement ring in
        page order. `framesOk` is false when a `Find` found the bitmap full,
        which the source does not detect (it stores -1 as the frame). */
    method SetUpTranslation() returns (framesOk: bool)
      requires virtualPages.Length == AvailablePages && bitmap.Valid()
      requires numPages >= 0
      modifies this`pageTable, this`firstInPage, virtualPages, bitmap.bits
      ensures fresh(pageTable)
      ensures var claims := Claims(old(bitmap.bits[..]), Min(numPages, AvailablePages));
              && pageTable[..] == SetUpTable(numPages, stackPages, claims.0)
              && bitmap.bits[..] == claims.1
              && (framesOk <==> AllClaimed(claims.0))
      ensures firstInPage == Min(numPages, AvailablePages) % AvailablePages
      ensures forall s :: 0 <= s < AvailablePages ==> virtualPages[s] == if s < numPages then s else old(virtualPages[s])
    {
      ghost var bits0 := bitmap.bits[..];
      firstInPage := 0;
      pageTable := new TranslationEntry[numPages];
      framesOk := true;
      ghost var claims := Claims(bits0, 0);
      var i := 0;
      while i < numPages
        invariant 0 <= i <= numPages && pageTable.Length == numPages && fresh(pageTable)
        invariant claims == Claims(bits0, Min(i, AvailablePages))
        invariant firstInPage == Min(i, AvailablePages) % AvailablePages
        invariant forall k :: 0 <= k < i ==> pageTable[k] == SetUpEntry(k, numPages, stackPages, FrameOf(claims.0, k))
        invariant bitmap.bits[..] == claims.1
        invariant framesOk <==> AllClaimed(claims.0)
        invariant forall s :: 0 <= s < AvailablePages ==> virtualPages[s] == if s < i then s else old(virtualPages[s])
      {
        ClaimsNext(bits0, i);
        var frame := SetUpPage(i);
        if i < AvailablePages {
          framesOk := framesOk && frame >= 0;
        }
        claims := Claims(bits0, Min(i + 1, AvailablePages));
        i := i + 1;
      }
      assert pageTable[..] == SetUpTable(numPages, stackPages, Claims(bits0, Min(numPages, AvailablePages)).0);
    }

    /** One pass of setUpTranslation's loop: page `i` gets its entry, and
        when it is among the first AvailablePages it joins the ring and is
        given the next clear frame (-1 for the others). */
    method SetUpPage(i: int) returns (frame: int)
      requires virtualPages.Length == AvailablePages && bitmap.Valid()
      requires 0 <= i < pageTable.Length && (i < AvailablePages ==> firstInPage == i)
      modifies pageTable, this`firstInPage, virtualPages, bitmap.bits
      ensures forall k :: 0 <= k < pageTable.Length ==>
                pageTable[k] == if k == i then SetUpEntry(i, numPages, stackPages, frame) else old(pageTable[k])
      ensures forall s :: 0 <= s < AvailablePages ==>
                virtualPages[s] == if s == i then i else old(virtualPages[s])
      ensures firstInPage == if i < AvailablePages then (i + 1) % AvailablePages else old(firstInPage)
      ensures frame == if i < AvailablePages then FirstClear(old(bitmap.bits[..])) else -1
      ensures bitmap.bits[..] == if frame >= 0 then old(bitmap.bits[..])[frame := true] else old(bitmap.bits[..])
    {
      var e := TranslationEntry(i, -1, false, false, false, false, SetUpKind(numPages, stackPages, i), -1);
      frame := -1;
      if i < AvailablePages {
        frame := AddToRing(i);
        e := e.(physicalPage := frame, valid := true, use := true);
      }
      pageTable[i] := e;
    }

    /** The block of setUpTranslation that makes page `i` resident: it
        joins the ring at the cursor and is given the next clear frame. */
    method AddToRing(i: int) returns (frame: int)
      requires virtualPages.Length == AvailablePages && bitmap.Valid()
      requires 0 <= i < AvailablePages && firstInPage == i
      modifies this`firstInPage, virtualPages, bitmap.bits
      ensures virtualPages[..] == old(virtualPages[..])[i := i]
      ensures firstInPage == (i + 1) % AvailablePages
      ensures frame == FirstClear(old(bitmap.bits[..]))
      ensures bitmap.bits[..] == if frame >= 0 then old(bitmap.bits[..])[frame := true] else old(bitmap.bits[..])
    {
      virtualPages[firstInPage] := i;
      firstInPage := (firstInPage + 1) % AvailablePages;
      frame := bitmap.Find();
    }

    /** The zero-fill the constructor needs before copy2Mem (its `bzero` of
        main memory is commented out): the frame of every resident page is
        cleared, and no other frame is touched. */
    method ZeroResidentFrames()
      requires pageTable.Length == numPages
      modifies machine
      ensures forall f :: PageAt(machine.mainMemory, f)
                == if f in ResidentFrames(pageTable[..]) then ZeroPage() else old(PageAt(machine.mainMemory, f))
    {
      var i := 0;
      while i < numPages
        invariant 0 <= i <= numPages
        invariant forall f :: PageAt(machine.mainMemory, f)
                    == if f in ResidentFrames(pageTable[..i]) then ZeroPage() else old(PageAt(machine.mainMemory, f))
      {
        assert pageTable[..i + 1] == pageTable[..i] + [pageTable[i]];
        if pageTable[i].valid {
          machine.mainMemory := machine.mainMemory[pageTable[i].physicalPage := ZeroPage()];
        }
        i := i + 1;
      }
      assert pageTable[..i] == pageTable[..];
    }

    /** One segment loop of copy2Mem: pages first .. first + count - 1 get
        segment type `kind` and the executable offsets from `fileStart` on,
        page by page, and each resident one has its frame loaded from there. */
    method LoadSegment(first: int, count: int, fileStart: int, kind: SegKind)
      requires pageTable.Length == numPages && FramesOwned(pageTable[..])
      requires 0 <= first && 0 <= count && first + count <= numPages
      modifies pageTable, machine
      ensures forall p :: 0 <= p < numPages ==>
                pageTable[p] == (if first <= p < first + count
                                 then old(pageTable[p]).(kind := kind, inFileAddr := fileStart + (p - first) * PageSize)
                                 else old(pageTable[p]))
      ensures forall p :: first <= p < first + count && pageTable[p].valid ==>
                PageAt(machine.mainMemory, pageTable[p].physicalPage) == PageAt(executable, pageTable[p].inFileAddr)
      ensures forall f :: f !in SegmentFrames(old(pageTable[..]), first, first + count) ==>
                PageAt(machine.mainMemory, f) == old(PageAt(machine.mainMemory, f))
    {
      ghost var pt := pageTable[..];
      ghost var mem0 := machine.mainMemory;
      var i := first;
      while i < first + count
        invariant first <= i <= first + count
        invariant pageTable[..] == Retyped(pt, first, i, kind, fileStart)
        invariant SegmentLoaded(pt, first, i, fileStart, executable, mem0, machine.mainMemory)
      {
        ghost var mem := machine.mainMemory;
        LoadPage(i, kind, fileStart + (i - first) * PageSize);
        RetypedStep(pt, first, i, kind, fileStart);
        LoadStep(pt, first, i, fileStart, executable, mem0, mem, machine.mainMemory);
        i := i + 1;
      }
    }

    /** The body of a segment loop for page `i`: record its segment type and
        executable offset and, when it is resident, copy that block of the
        executable into its frame. */
    method LoadPage(i: int, kind: SegKind, fileAddr: int)
      requires 0 <= i < pageTable.Length
      modifies pageTable, machine
      ensures pageTable[..] == old(pageTable[..])[i := old(pageTable[i]).(kind := kind, inFileAddr := fileAddr)]
      ensures machine.mainMemory == if pageTable[i].valid
                                    then old(machine.mainMemory)[pageTable[i].physicalPage := PageAt(executable, fileAddr)]
                                    else old(machine.mainMemory)
    {
      pageTable[i] := pageTable[i].(inFileAddr := fileAddr);
      pageTable[i] := pageTable[i].(kind := kind);
      if pageTable[i].valid {
        machine.mainMemory := machine.mainMemory[pageTable[i].physicalPage := PageAt(executable, pageTable[i].inFileAddr)];
      }
    }

    /** The uninitialised-data loop of copy2Mem: pages first .. first +
        count - 1 get type UninitData, and nothing is loaded. */
    method TypeSegment(first: int, count: int)
      requires pageTable.Length == numPages
      requires 0 <= first && 0 <= count && first + count <= numPages
      modifies pageTable
      ensures forall p :: 0 <= p < numPages ==>
                pageTable[p] == (if first <= p < first + count then old(pageTable[p]).(kind := UninitData) else old(pageTable[p]))
    {
      var i := first;
      while i < first + count
        invariant first <= i <= first + count
        invariant forall p :: 0 <= p < numPages ==>
                    pageTable[p] == (if first <= p < i then old(pageTable[p]).(kind := UninitData) else old(pageTable[p]))
      {
        pageTable[i] := pageTable[i].(kind := UninitData);
        i := i + 1;
      }
    }

    /** AddrSpace::copy2Mem: every code and initialised-data page gets its
        segment type and the executable offset of its first byte, and each
        resident one is loaded from there; every uninitialised-data page
        gets its type. Only frames of resident code and data pages change. */
    method Copy2Mem()
      requires pageTable.Length == numPages && SaneSizes(noffH) && numPages == NumPages(noffH)
      requires FramesOwned(pageTable[..])
      modifies pageTable, machine
      ensures forall p :: 0 <= p < numPages ==>
                pageTable[p] == old(pageTable[p]).(kind := SegmentKind(noffH, p, old(pageTable[p]).kind),
                                                   inFileAddr := SegmentFileAddr(noffH, p, old(pageTable[p]).inFileAddr))
      ensures forall p :: 0 <= p < numPages && pageTable[p].valid && (InCode(noffH, p) || InInitData(noffH, p)) ==>
                PageAt(machine.mainMemory, pageTable[p].physicalPage) == PageAt(executable, pageTable[p].inFileAddr)
      ensures forall f :: f !in FileFrames(noffH, old(pageTable[..])) ==>
                PageAt(machine.mainMemory, f) == old(PageAt(machine.mainMemory, f))
    {
      ghost var pt := pageTable[..];
      ghost var mem := machine.mainMemory;
      LoadCode();
      ghost var pt1 := pageTable[..];
      ghost var mem1 := machine.mainMemory;
      FramesOwnedKept(pt, pt1);
      LoadInitData();
      ghost var pt2 := pageTable[..];
      TypeUninitData();
      Copy2MemComposes(noffH, executable, pt, pt1, pt2, pageTable[..], mem, mem1, machine.mainMemory);
    }

    /** The code loop of copy2Mem. */
    method LoadCode()
      requires pageTable.Length == numPages && SaneSizes(noffH) && numPages == NumPages(noffH)
      requires FramesOwned(pageTable[..])
      modifies pageTable, machine
      ensures forall p :: 0 <= p < numPages ==>
                pageTable[p] == (if InCode(noffH, p)
                                 then old(pageTable[p]).(kind := Code, inFileAddr := noffH.code.inFileAddr + p * PageSize)
                                 else old(pageTable[p]))
      ensures forall p :: 0 <= p < numPages && InCode(noffH, p) && pageTable[p].valid ==>
                PageAt(machine.mainMemory, pageTable[p].physicalPage) == PageAt(executable, pageTable[p].inFileAddr)
      ensures forall f :: f !in SegmentFrames(old(pageTable[..]), 0, CodePages(noffH)) ==>
                PageAt(machine.mainMemory, f) == old(PageAt(machine.mainMemory, f))
    {
      SegmentPagesFit(noffH);
      if noffH.code.size > 0 {
        var numPage := DivRoundUp(noffH.code.size, PageSize);
        LoadSegment(0, numPage, noffH.code.inFileAddr, Code);
      }
    }

    /** The initialised-data loop of copy2Mem. */
    method LoadInitData()
      requires pageTable.Length == numPages && SaneSizes(noffH) && numPages == NumPages(noffH)
      requires FramesOwned(pageTable[..])
      modifies pageTable, machine
      ensures forall p :: 0 <= p < numPages ==>
                pageTable[p] == (if InInitData(noffH, p)
                                 then old(pageTable[p]).(kind := InitData,
                                                         inFileAddr := noffH.initData.inFileAddr + (p - InitDataStart(noffH)) * PageSize)
                                 else old(pageTable[p]))
      ensures forall p :: 0 <= p < numPages && InInitData(noffH, p) && pageTable[p].valid ==>
                PageAt(machine.mainMemory, pageTable[p].physicalPage) == PageAt(executable, pageTable[p].inFileAddr)
      ensures forall f :: f !in SegmentFrames(old(pageTable[..]), InitDataStart(noffH), InitDataStart(noffH) + InitDataPages(noffH)) ==>
                PageAt(machine.mainMemory, f) == old(PageAt(machine.mainMemory, f))
    {
      SegmentPagesFit(noffH);
      if noffH.initData.size > 0 {
        var numPage := DivRoundUp(noffH.initData.size, PageSize);
        var starPage := DivRoundUp(noffH.code.size, PageSize);
        LoadSegment(starPage, numPage, noffH.initData.inFileAddr, InitData);
      }
    }

    /** The uninitialised-data loop of copy2Mem. */
    method TypeUninitData()
      requires pageTable.Length == numPages && SaneSizes(noffH) && numPages == NumPages(noffH)
      modifies pageTable
      ensures forall p :: 0 <= p < numPages ==>
                pageTable[p] == (if InUninitData(noffH, p) then old(pageTable[p]).(kind := UninitData) else old(pageTable[p]))
    {
      SegmentPagesFit(noffH);
      if noffH.uninitData.size > 0 {
        var numPage := DivRoundUp(noffH.uninitData.size, PageSize);
        var startPage := DivRoundUp(noffH.code.size, PageSize) + DivRoundUp(noffH.initData.size, PageSize);
        TypeSegment(startPage, numPage);
      }
    }

    /** AddrSpace::InitRegisters: every register cleared, then the program
        counter at 0, the next program counter at 4 (the branch delay slot)
        and the stack pointer 16 bytes below the top of the address space. */
    method InitRegisters()
      requires machine.registers.Length == NumTotalRegs
      modifies machine.registers
      ensures machine.registers[..] == InitialRegisters(numPages)
    {
      var i := 0;
      while i < NumTotalRegs
        invariant 0 <= i <= NumTotalRegs
        invariant forall r :: 0 <= r < i ==> machine.registers[r] == 0
      {
        machine.registers[i] := 0;
        i := i + 1;
      }
      machine.registers[PCReg] := 0;
      machine.registers[NextPCReg] := 4;
      machine.registers[StackReg] := numPages * PageSize - 16;
    }

    /** AddrSpace::RestoreState: the machine translates through this space's
        page table. */
    method RestoreState()
      modifies machine
      ensures machine.pageTable == pageTable && machine.pageTableSize == numPages
      ensures machine.mainMemory == old(machine.mainMemory)
    {
      machine.pageTable := pageTable;
      machine.pageTableSize := numPages;
    }

    /** AddrSpace::~AddrSpace, releasing what the space holds: its
        identifier, and the frame of each resident page. The source releases
        `physicalPage` of every page, -1 included (see
        DestructorClearsAbsentFrame). */
    method Destroy()
      requires Valid()
      modifies spaceIdMap, bitmap.bits
      ensures spaceIdMap[..] == old(spaceIdMap[..])[spaceId := false]
      ensures SetBits(bitmap.bits[..]) == SetBits(old(bitmap.bits[..])) - ResidentFrames(pageTable[..])
    {
      spaceIdMap[spaceId] := false;
      ReleaseFrames();
    }

    /** The loop of the destructor: the frame of every resident page goes
        back to the frame map (a page that is not resident is skipped). */
    method ReleaseFrames()
      requires pageTable.Length == numPages && bitmap.Valid() && bitmap.numBits == NumPhysPages
      requires FramesOwned(pageTable[..])
      modifies bitmap.bits
      ensures SetBits(bitmap.bits[..]) == SetBits(old(bitmap.bits[..])) - ResidentFrames(pageTable[..])
    {
      var i := 0;
      while i < numPages
        invariant 0 <= i <= numPages
        invariant SetBits(bitmap.bits[..]) == SetBits(old(bitmap.bits[..])) - ResidentFrames(pageTable[..i])
      {
        ghost var bits := bitmap.bits[..];
        assert pageTable[..i + 1] == pageTable[..i] + [pageTable[i]];
        if pageTable[i].valid {
          var frame := pageTable[i].physicalPage;
          var _ := bitmap.Clear(frame);
          assert ResidentFrames(pageTable[..i + 1]) == ResidentFrames(pageTable[..i]) + {frame};
          assert SetBits(bitmap.bits[..]) == SetBits(bits) - {frame};
        } else {
          assert ResidentFrames(pageTable[..i + 1]) == ResidentFrames(pageTable[..i]);
        }
        i := i + 1;
      }
      assert pageTable[..i] == pageTable[..];
    }

    /** AddrSpace::WriteBack. */
    method WriteBack(oldPage: int)
      requires Shape() && 0 <= oldPage < numPages
      modifies this`executable, this`swapFile, pageTable, virtualSpaceMap.bits
      ensures Shape()
      ensures Abs() == Paging.WriteBack(old(Abs()), oldPage)
    {
      var e := pageTable[oldPage];
      if e.dirty {
        if e.kind == Code || e.kind == InitData {
          executable := executable[e.inFileAddr := PageAt(machine.mainMemory, e.physicalPage)];
        } else if e.kind == UninitData || e.kind == UserStack {
          var slot := virtualSpaceMap.Find();
          pageTable[oldPage] := pageTable[oldPage].(inFileAddr := slot * PageSize);
          swapFile := swapFile[pageTable[oldPage].inFileAddr := PageAt(machine.mainMemory, pageTable[oldPage].physicalPage)];
        }
        pageTable[oldPage] := pageTable[oldPage].(dirty := false);
      }
    }

    /** AddrSpace::ReadIn, with the page marked dirty when it comes from its
        swap slot. */
    method ReadIn(newPage: int)
      requires Shape() && 0 <= newPage < numPages
      modifies machine, pageTable, virtualSpaceMap.bits
      ensures Shape()
      ensures Abs() == Paging.ReadIn(old(Abs()), newPage)
    {
      var e := pageTable[newPage];
      if e.kind == Code || e.kind == InitData {
        machine.mainMemory := machine.mainMemory[e.physicalPage := PageAt(executable, e.inFileAddr)];
      } else if e.kind == UninitData || e.kind == UserStack {
        if e.inFileAddr >= 0 {
          machine.mainMemory := machine.mainMemory[e.physicalPage := PageAt(swapFile, e.inFileAddr)];
          var _ := virtualSpaceMap.Clear(e.inFileAddr / PageSize);
          pageTable[newPage] := pageTable[newPage].(inFileAddr := -1, dirty := true);
        } else {
          machine.mainMemory := machine.mainMemory[e.physicalPage := ZeroPage()];
        }
      }
    }

    /** AddrSpace::Swap: write the old page back, hand its frame to the new
        page, read the new page in. The two pages must differ: swapping a
        page for itself leaves it valid without a frame
        (Paging.TransferSamePageLosesFrame). */
    method Swap(oldPage: int, newPage: int)
      requires Shape() && 0 <= oldPage < numPages && 0 <= newPage < numPages && oldPage != newPage
      modifies this`executable, this`swapFile, machine, pageTable, virtualSpaceMap.bits
      ensures Shape()
      ensures Abs() == Paging.Swap(old(Abs()), oldPage, newPage)
    {
      WriteBack(oldPage);
      pageTable[newPage] := pageTable[newPage].(physicalPage := pageTable[oldPage].physicalPage);
      pageTable[oldPage] := pageTable[oldPage].(physicalPage := -1);
      pageTable[oldPage] := pageTable[oldPage].(valid := false);
      pageTable[newPage] := pageTable[newPage].(valid := true);
      pageTable[newPage] := pageTable[newPage].(use := true);
      pageTable[newPage] := pageTable[newPage].(dirty := false);
      ghost var w := Paging.WriteBack(old(Abs()), oldPage);
      assert pageTable[..] == Transfer(w.pt, oldPage, newPage);
      ReadIn(newPage);
    }
  
    /** The step FIFO and SecondChance share: the page in ring slot `slot`
        is swapped out for `newPage`, which takes over the slot, and the
        cursor moves to the slot after it. */
    method Replace(slot: int, newPage: int)
      requires Valid() && 0 <= slot < AvailablePages
      requires 0 <= newPage < numPages && !pageTable[newPage].valid
      modifies this`executable, this`swapFile, this`firstInPage, machine, pageTable, virtualSpaceMap.bits, virtualPages
      ensures Valid()
      ensures virtualPages[..] == old(virtualPages[..])[slot := newPage]
      ensures firstInPage == (slot + 1) % AvailablePages
      ensures Abs() == Paging.Swap(old(Abs()), old(virtualPages[slot]), newPage)
    {
      ghost var v := Abs();
      ghost var ring := virtualPages[..];
      var oldPage := virtualPages[slot];
      ReplaceKeepsInvariants(v, ring, slot, newPage);
      virtualPages[slot] := newPage;
      firstInPage := (slot + 1) % AvailablePages;
      assert Abs() == v;
      ghost var bits := bitmap.bits[..];
      Swap(oldPage, newPage);
      assert bitmap.bits[..] == bits;
      assert virtualPages[..] == ring[slot := newPage];
      assert pageTable[..] == Paging.Swap(v, ring[slot], newPage).pt;
    }

    /** AddrSpace::FIFO: the page under the cursor is evicted for the page
        that holds the faulting address. */
    method FIFO(faultPageAddr: int)
      requires Valid() && 0 <= faultPageAddr
      requires 0 <= Translate(noffH, numPages, stackPages, faultPageAddr).page < numPages
      requires !pageTable[Translate(noffH, numPages, stackPages, faultPageAddr).page].valid
      modifies this`executable, this`swapFile, this`firstInPage, machine, pageTable, virtualSpaceMap.bits, virtualPages
      ensures Valid()
      ensures var newPage := Translate(noffH, numPages, stackPages, faultPageAddr).page;
              && virtualPages[..] == old(virtualPages[..])[old(firstInPage) := newPage]
              && firstInPage == (old(firstInPage) + 1) % AvailablePages
              && Abs() == Paging.Swap(old(Abs()), old(virtualPages[firstInPage]), newPage)
    {
      var newPage := Translate(noffH, numPages, stackPages, faultPageAddr).page;
      Replace(firstInPage, newPage);
    }

    /** AddrSpace::SecondChance, as the clock algorithm it is meant to be:
        the hand starts at the cursor and walks the ring, clearing the use
        bit of every page it passes whose bit is set, and stops at the first
        page whose bit is clear (after a full turn, back at the cursor). That
        page is evicted for the page that holds the faulting address, which
        takes over its ring slot. */
    method SecondChance(faultPageAddr: int)
      requires Valid() && 0 <= faultPageAddr
      requires 0 <= Translate(noffH, numPages, stackPages, faultPageAddr).page < numPages
      requires !pageTable[Translate(noffH, numPages, stackPages, faultPageAddr).page].valid
      modifies this`executable, this`swapFile, this`firstInPage, machine, pageTable, virtualSpaceMap.bits, virtualPages
      ensures Valid()
      ensures var newPage := Translate(noffH, numPages, stackPages, faultPageAddr).page;
              var slot := old(ClockPick());
              && virtualPages[..] == old(virtualPages[..])[slot := newPage]
              && firstInPage == (slot + 1) % AvailablePages
              && Abs() == Paging.Swap(old(ClockPass()), old(virtualPages[slot]), newPage)
    {
      var newPage := Translate(noffH, numPages, stackPages, faultPageAddr).page;
      ghost var ring := virtualPages[..];
      ghost var pass := ClockPass();
      var slot := ClockHand();
      Replace(slot, newPage);
    }

    /** The ring slot the clock hand stops at. */
    ghost function ClockPick(): (slot: int)
      requires RingOver(virtualPages[..], pageTable.Length) && 0 <= firstInPage < AvailablePages
      reads this`pageTable, this`firstInPage, pageTable, virtualPages
      ensures 0 <= slot < AvailablePages
    {
      ClockSlot(pageTable[..], virtualPages[..], firstInPage)
    }

    /** The state once the hand has reached that slot. */
    ghost function ClockPass(): Vm
      requires RingOver(virtualPages[..], pageTable.Length) && 0 <= firstInPage < AvailablePages
      reads this`pageTable, this`executable, this`swapFile, this`firstInPage
      reads pageTable, machine`mainMemory, virtualSpaceMap.bits, virtualPages
    {
      Abs().(pt := ClockScanned(pageTable[..], virtualPages[..], firstInPage))
    }

    /** The clock hand's pass over the ring, with what it keeps: it changes
        use bits only. */
    method ClockHand() returns (slot: int)
      requires Valid()
      modifies pageTable
      ensures Valid()
      ensures slot == old(ClockPick())
      ensures Abs() == old(ClockPass())
      ensures forall q :: 0 <= q < numPages ==> pageTable[q].valid == old(pageTable[q].valid)
    {
      ghost var v := Abs();
      ghost var ring := virtualPages[..];
      slot := ClockScan();
      ScanKeepsInvariants(v, pageTable[..], ring);
    }

    /** The hand of the clock: from the cursor, clear the use bit of each
        ring page whose bit is set, and stop at the first whose bit is clear
        (after a full turn, back at the cursor). */
    method ClockScan() returns (slot: int)
      requires RingOver(virtualPages[..], pageTable.Length) && 0 <= firstInPage < AvailablePages
      modifies pageTable
      ensures slot == ClockSlot(old(pageTable[..]), virtualPages[..], firstInPage)
      ensures pageTable[..] == ClockScanned(old(pageTable[..]), virtualPages[..], firstInPage)
    {
      ghost var pt := pageTable[..];
      ghost var ring := virtualPages[..];
      ghost var cursor := firstInPage;
      ghost var uses := RingUses(pt, ring);
      slot := firstInPage;
      ghost var j := 0;
      while pageTable[virtualPages[slot]].use
        invariant 0 <= j <= AvailablePages && slot == Hand(cursor, j)
        invariant pageTable[..] == ClearPassed(pt, ring, cursor, j)
        invariant forall i :: 0 <= i < j ==> uses[Hand(cursor, i)]
        decreases AvailablePages - j
      {
        HandSees(pt, ring, cursor, j);
        assert pageTable[..][ring[slot]].use;
        ghost var seen := Hand(cursor, j);
        assert uses[seen];
        HandNext(cursor, j);
        ghost var before := pageTable[..];
        var page := virtualPages[slot];
        pageTable[page] := pageTable[page].(use := false);
        assert pageTable[..] == before[page := before[page].(use := false)];
        slot := (slot + 1) % AvailablePages;
        forall i | 0 <= i < j + 1
          ensures uses[Hand(cursor, i)]
        {
          if i == j {
            assert Hand(cursor, i) == seen;
          }
        }
        j := j + 1;
      }
      HandSees(pt, ring, cursor, j);
      ClockSkipIsFirstClear(uses, cursor, 0, j);
    }
}

  function Min(a: int, b: int): int { if a < b then a else b }

  /** The entry setUpTranslation gives page `i`: the first AvailablePages
      pages resident and marked used in the frame `frame` the frame bitmap
      handed out, the others absent; nothing dirty, nothing read-only, no
      file offset. */
  function SetUpEntry(i: int, numPages: int, stackPages: int, frame: int): TranslationEntry
  {
    TranslationEntry(
      virtualPage := i,
      physicalPage := if i < AvailablePages then frame else -1,
      valid := i < AvailablePages,
      readOnly := false,
      use := i < AvailablePages,
      dirty := false,
      kind := SetUpKind(numPages, stackPages, i),
      inFileAddr := -1)
  }

  /** The page table setUpTranslation builds, `frames` being what the
      frame bitmap handed out to the resident pages. */
  function SetUpTable(numPages: int, stackPages: int, frames: seq<int>): (pt: seq<TranslationEntry>)
    requires numPages >= 0
    ensures |pt| == numPages
  {
    seq(numPages, i => SetUpEntry(i, numPages, stackPages, FrameOf(frames, i)))
  }

  /** The frame handed out to page `i`, -1 for a page past the handed-out
      ones. */
  function FrameOf(frames: seq<int>, i: int): int
  {
    if 0 <= i < |frames| then frames[i] else -1
  }

  /** What one more pass of setUpTranslation's loop does to the frames
      handed out: page `i` gets the next clear frame while it is among the
      first AvailablePages, and nothing changes after. */
  lemma ClaimsNext(bits: seq<bool>, i: nat)
    ensures var prev := Claims(bits, Min(i, AvailablePages));
            var next := Claims(bits, Min(i + 1, AvailablePages));
            var f := if i < AvailablePages then FirstClear(prev.1) else -1;
            && (forall k :: 0 <= k < i ==> FrameOf(next.0, k) == FrameOf(prev.0, k))
            && FrameOf(next.0, i) == f
            && next.1 == (if f >= 0 then prev.1[f := true] else prev.1)
            && (AllClaimed(next.0) <==> AllClaimed(prev.0) && (i < AvailablePages ==> f >= 0))
  {
    if i < AvailablePages {
      var prev := Claims(bits, i);
      var next := Claims(bits, i + 1);
      assert next.0 == prev.0 + [FirstClear(prev.1)];
      assert forall k :: 0 <= k < i ==> next.0[k] == prev.0[k];
    }
  }

  /** Every `Find` found a clear frame. */
  predicate AllClaimed(frames: seq<int>)
  {
    forall i :: 0 <= i < |frames| ==> frames[i] >= 0
  }

  /** The frames of the resident pages among first .. last - 1. */
  function SegmentFrames(pt: seq<TranslationEntry>, first: int, last: int): set<int>
  {
    set p | first <= p < last && 0 <= p < |pt| && pt[p].valid :: pt[p].physicalPage
  }

  /** The frames of the resident code and initialised-data pages. */
  function FileFrames(h: NoffHeader, pt: seq<TranslationEntry>): set<int>
  {
    set p | 0 <= p < |pt| && pt[p].valid && (InCode(h, p) || InInitData(h, p)) :: pt[p].physicalPage
  }

  /** Changing types and file offsets keeps frame ownership. */
  lemma FramesOwnedKept(pt: seq<TranslationEntry>, pt': seq<TranslationEntry>)
    requires FramesOwned(pt) && |pt'| == |pt|
    requires forall p :: 0 <= p < |pt| ==> pt'[p].valid == pt[p].valid && pt'[p].physicalPage == pt[p].physicalPage
    ensures FramesOwned(pt')
  {
    FramesAgree(pt, pt');
  }

  /** The table after a segment loop has reached page `last`: pages from
      `first` on carry segment type `kind` and consecutive executable
      offsets from `fileStart`. */
  function Retyped(pt: seq<TranslationEntry>, first: int, last: int, kind: SegKind, fileStart: int): (r: seq<TranslationEntry>)
    ensures |r| == |pt|
    ensures forall p :: 0 <= p < |pt| ==>
              r[p] == (if first <= p < last then pt[p].(kind := kind, inFileAddr := fileStart + (p - first) * PageSize) else pt[p])
  {
    seq(|pt|, p requires 0 <= p < |pt| =>
      if first <= p < last then pt[p].(kind := kind, inFileAddr := fileStart + (p - first) * PageSize) else pt[p])
  }

  lemma RetypedStep(pt: seq<TranslationEntry>, first: int, i: int, kind: SegKind, fileStart: int)
    requires 0 <= first <= i < |pt|
    ensures Retyped(pt, first, i, kind, fileStart)[i := pt[i].(kind := kind, inFileAddr := fileStart + (i - first) * PageSize)]
            == Retyped(pt, first, i + 1, kind, fileStart)
  {
  }

  /** After a segment loop has reached page `i`: each resident page of the
      segment so far holds its block of the executable, and no frame
      outside theirs has changed since `mem0`. */
  ghost predicate SegmentLoaded(pt: seq<TranslationEntry>, first: int, i: int, fileStart: int,
                                exec: map<int, Page>, mem0: map<int, Page>, mem: map<int, Page>)
  {
    && (forall p :: first <= p < i && 0 <= p < |pt| && pt[p].valid ==>
          PageAt(mem, pt[p].physicalPage) == PageAt(exec, fileStart + (p - first) * PageSize))
    && (forall f :: f !in SegmentFrames(pt, first, i) ==> PageAt(mem, f) == PageAt(mem0, f))
  }

  /** One step of a segment loop: loading page `i` into its own frame
      keeps every page loaded before it, because frames are not shared. */
  lemma LoadStep(pt: seq<TranslationEntry>, first: int, i: int, fileStart: int,
                 exec: map<int, Page>, mem0: map<int, Page>, mem: map<int, Page>, mem': map<int, Page>)
    requires FramesOwned(pt) && 0 <= first <= i < |pt|
    requires SegmentLoaded(pt, first, i, fileStart, exec, mem0, mem)
    requires mem' == if pt[i].valid then mem[pt[i].physicalPage := PageAt(exec, fileStart + (i - first) * PageSize)] else mem
    ensures SegmentLoaded(pt, first, i + 1, fileStart, exec, mem0, mem')
  {
    forall p | first <= p < i + 1 && 0 <= p < |pt| && pt[p].valid
      ensures PageAt(mem', pt[p].physicalPage) == PageAt(exec, fileStart + (p - first) * PageSize)
    {
      if p < i && pt[i].valid {
        assert FrameNo(pt[p]) != FrameNo(pt[i]);
      }
    }
    forall f | f !in SegmentFrames(pt, first, i + 1)
      ensures PageAt(mem', f) == PageAt(mem0, f)
    {
      if pt[i].valid {
        assert pt[i].physicalPage in SegmentFrames(pt, first, i + 1);
      }
    }
  }

  /** The three loops of copy2Mem together: every page gets its segment
      type and offset, every resident code or data page holds its block of
      the executable, and only their frames change. */
  lemma Copy2MemComposes(h: NoffHeader, exec: map<int, Page>,
                         pt: seq<TranslationEntry>, pt1: seq<TranslationEntry>, pt2: seq<TranslationEntry>, pt3: seq<TranslationEntry>,
                         mem: map<int, Page>, mem1: map<int, Page>, mem2: map<int, Page>)
    requires SaneSizes(h) && |pt| == NumPages(h) && FramesOwned(pt)
    requires |pt1| == |pt| && |pt2| == |pt| && |pt3| == |pt|
    requires forall p :: 0 <= p < |pt| ==>
               pt1[p] == (if InCode(h, p) then pt[p].(kind := Code, inFileAddr := h.code.inFileAddr + p * PageSize) else pt[p])
    requires forall p :: 0 <= p < |pt| && InCode(h, p) && pt1[p].valid ==>
               PageAt(mem1, pt1[p].physicalPage) == PageAt(exec, pt1[p].inFileAddr)
    requires forall f :: f !in SegmentFrames(pt, 0, CodePages(h)) ==> PageAt(mem1, f) == PageAt(mem, f)
    requires forall p :: 0 <= p < |pt| ==>
               pt2[p] == (if InInitData(h, p)
                          then pt1[p].(kind := InitData, inFileAddr := h.initData.inFileAddr + (p - InitDataStart(h)) * PageSize)
                          else pt1[p])
    requires forall p :: 0 <= p < |pt| && InInitData(h, p) && pt2[p].valid ==>
               PageAt(mem2, pt2[p].physicalPage) == PageAt(exec, pt2[p].inFileAddr)
    requires forall f :: f !in SegmentFrames(pt1, InitDataStart(h), InitDataStart(h) + InitDataPages(h)) ==>
               PageAt(mem2, f) == PageAt(mem1, f)
    requires forall p :: 0 <= p < |pt| ==> pt3[p] == (if InUninitData(h, p) then pt2[p].(kind := UninitData) else pt2[p])
    ensures forall p :: 0 <= p < |pt| ==>
              pt3[p] == pt[p].(kind := SegmentKind(h, p, pt[p].kind), inFileAddr := SegmentFileAddr(h, p, pt[p].inFileAddr))
    ensures forall p :: 0 <= p < |pt| && pt3[p].valid && (InCode(h, p) || InInitData(h, p)) ==>
              PageAt(mem2, pt3[p].physicalPage) == PageAt(exec, pt3[p].inFileAddr)
    ensures forall f :: f !in FileFrames(h, pt) ==> PageAt(mem2, f) == PageAt(mem, f)
  {
    forall p | 0 <= p < |pt|
      ensures pt3[p] == pt[p].(kind := SegmentKind(h, p, pt[p].kind), inFileAddr := SegmentFileAddr(h, p, pt[p].inFileAddr))
    {
      SegmentRangesDisjoint(h, p);
    }
    forall p | 0 <= p < |pt| && pt3[p].valid && InCode(h, p)
      ensures PageAt(mem2, pt3[p].physicalPage) == PageAt(exec, pt3[p].inFileAddr)
    {
      SegmentRangesDisjoint(h, p);
      if pt1[p].physicalPage in SegmentFrames(pt1, InitDataStart(h), InitDataStart(h) + InitDataPages(h)) {
        var q :| InitDataStart(h) <= q < InitDataStart(h) + InitDataPages(h) && 0 <= q < |pt1| && pt1[q].valid
                 && pt1[q].physicalPage == pt1[p].physicalPage;
        SegmentRangesDisjoint(h, q);
        FrameUnshared(pt, p);
        assert false;
      }
    }
  }

  /** The register file InitRegisters leaves for a space of `numPages`
      pages. */
  function InitialRegisters(numPages: int): (regs: seq<int>)
    ensures |regs| == NumTotalRegs
  {
    seq(NumTotalRegs, r => if r == StackReg then numPages * PageSize - 16
                           else if r == NextPCReg then 4
                           else 0)
  }

  /** The initial stack pointer lies in the top page of the address space,
      PageSize - 16 bytes in, and the program starts at address 0 of page 0. */
  lemma InitialStackInTopPage(h: NoffHeader, stackPages: int)
    requires SaneSizes(h) && NumPages(h) <= NumPhysPages
    requires stackPages * PageSize >= UserStackSize
    ensures var regs := InitialRegisters(NumPages(h));
            && Translate(h, NumPages(h), stackPages, regs[StackReg]) == PageOffset(NumPages(h) - 1, PageSize - 16)
            && regs[PCReg] == 0 && regs[NextPCReg] == regs[PCReg] + 4
  {
    NumPagesCovers(h);
    TranslateStack(h, NumPages(h), stackPages, NumPages(h) * PageSize - 16);
  }

  /** The arguments the destructor as written passes to BitMap::Clear: the
      frame of every page. */
  function DestructorClearArgs(pt: seq<TranslationEntry>): (args: seq<int>)
    ensures |args| == |pt|
  {
    seq(|pt|, i requires 0 <= i < |pt| => pt[i].physicalPage)
  }

  /** With the ring exact and more pages than ring slots (every space has at
      least UserStackSize / PageSize = 8 pages), some page is absent, so the
      destructor as written passes -1 to BitMap::Clear, whose range check
      halts the kernel. */
  lemma DestructorClearsAbsentFrame(pt: seq<TranslationEntry>, ring: seq<int>)
    requires FramesOwned(pt) && ResidentSetExact(pt, ring) && |pt| > AvailablePages
    ensures exists i :: 0 <= i < |pt| && DestructorClearArgs(pt)[i] == -1
  {
    var p: int;
    if 0 !in ring { p := 0; }
    else if 1 !in ring { p := 1; }
    else if 2 !in ring { p := 2; }
    else if 3 !in ring { p := 3; }
    else {
      p := 4;
      assert p !in ring by {
        assert ring[0] in {0, 1, 2, 3} && ring[1] in {0, 1, 2, 3} && ring[2] in {0, 1, 2, 3} && ring[3] in {0, 1, 2, 3} by {
          assert forall q :: 0 <= q < 4 ==> q in ring;
        }
      }
    }
    assert !pt[p].valid;
    assert DestructorClearArgs(pt)[p] == -1;
  }

  // ---------------------------------------------------------------------
  // The state a successful constructor leaves

  /** The page table setUpTranslation and copy2Mem leave, `frames` being
      the frames handed to the resident pages. */
  function LoadedTable(h: NoffHeader, numPages: int, stackPages: int, frames: seq<int>): (pt: seq<TranslationEntry>)
    requires numPages >= 0
    ensures |pt| == numPages
  {
    seq(numPages, p => SetUpEntry(p, numPages, stackPages, FrameOf(frames, p))
                         .(kind := LoadedKind(h, numPages, stackPages, p), inFileAddr := LoadedFileAddr(h, p)))
  }

  /** What the program sees at page `p` once loaded: its block of the
      executable for a code or initialised-data page, zeros for any other. */
  function InitialImage(h: NoffHeader, exec: map<int, Page>, numPages: int, stackPages: int, p: int): Page
  {
    if IsFileBacked(LoadedKind(h, numPages, stackPages, p)) then PageAt(exec, LoadedFileAddr(h, p)) else ZeroPage()
  }

  /** setUpTranslation's table with distinct frames satisfies copy2Mem's
      precondition. */
  lemma LoadedOwned(numPages: int, stackPages: int, frames: seq<int>)
    requires numPages >= 0 && GoodFrames(frames)
    ensures FramesOwned(SetUpTable(numPages, stackPages, frames))
  {
  }

  /** copy2Mem over setUpTranslation's table gives the loaded table. */
  lemma LoadedAfterCopy(h: NoffHeader, stackPages: int, frames: seq<int>, pt0: seq<TranslationEntry>, pt: seq<TranslationEntry>)
    requires NumPages(h) >= 0
    requires pt0 == SetUpTable(NumPages(h), stackPages, frames) && |pt| == |pt0|
    requires forall p :: 0 <= p < |pt| ==>
               pt[p] == pt0[p].(kind := SegmentKind(h, p, pt0[p].kind), inFileAddr := SegmentFileAddr(h, p, pt0[p].inFileAddr))
    ensures pt == LoadedTable(h, NumPages(h), stackPages, frames)
  {
  }

  /** The first fatal condition the constructor meets, in the order it
      checks them: no free identifier, a bad magic number, no swap file, too
      many pages, no frame left for a resident page. */
  function LoadVerdict(ids: seq<bool>, raw: NoffHeader, wordToHost: int -> int, swapCreated: bool,
                       frameBits: seq<bool>): (r: Option<Fatal>)
    ensures r == Some(SpaceIdsExhausted) <==> FirstClear(ids) < 0
    ensures r.None? <==> && FirstClear(ids) >= 0 && LoadHeader(raw, wordToHost).Some? && swapCreated
                         && NumPages(LoadHeader(raw, wordToHost).value) <= NumPhysPages
                         && AllClaimed(Claims(frameBits, Min(NumPages(LoadHeader(raw, wordToHost).value), AvailablePages)).0)
    ensures r == Some(BadMagic) ==> FirstClear(ids) >= 0
  {
    if FirstClear(ids) < 0 then Some(SpaceIdsExhausted)
    else if LoadHeader(raw, wordToHost).None? then Some(BadMagic)
    else if !swapCreated then Some(SwapFileNotCreated)
    else if NumPages(LoadHeader(raw, wordToHost).value) > NumPhysPages then Some(TooManyPages)
    else if !AllClaimed(Claims(frameBits, Min(NumPages(LoadHeader(raw, wordToHost).value), AvailablePages)).0)
    then Some(FramesExhausted)
    else None
  }

  /** A frame bitmap with room for AvailablePages more frames never stops
      the constructor. */
  lemma RoomForRingNeverExhausts(ids: seq<bool>, raw: NoffHeader, wordToHost: int -> int, swapCreated: bool,
                                 frameBits: seq<bool>)
    requires CountSet(frameBits) + AvailablePages <= |frameBits|
    ensures LoadVerdict(ids, raw, wordToHost, swapCreated, frameBits) != Some(FramesExhausted)
  {
    if FirstClear(ids) >= 0 && LoadHeader(raw, wordToHost).Some? {
      var k := Min(NumPages(LoadHeader(raw, wordToHost).value), AvailablePages);
      ClaimsSpec(frameBits, k);
    }
  }

  /** The frames handed to the ring pages are real, distinct frames. */
  ghost predicate GoodFrames(frames: seq<int>)
  {
    && |frames| == AvailablePages
    && (forall i :: 0 <= i < |frames| ==> 0 <= frames[i] < NumPhysPages)
    && (forall i, j :: 0 <= i < j < |frames| ==> frames[i] != frames[j])
  }

  /** Zero-filling and copy2Mem only touch frames that were handed out. */
  lemma SetUpFramesClaimed(h: NoffHeader, stackPages: int, frames: seq<int>)
    requires SaneSizes(h) && GoodFrames(frames)
    ensures ResidentFrames(SetUpTable(NumPages(h), stackPages, frames)) <= Claimed(frames)
    ensures FileFrames(h, SetUpTable(NumPages(h), stackPages, frames)) <= Claimed(frames)
  {
    var pt := SetUpTable(NumPages(h), stackPages, frames);
    NumPagesCovers(h);
    forall f | f in ResidentFrames(pt) ensures f in Claimed(frames) {
      var i :| 0 <= i < |pt| && pt[i].valid && pt[i].physicalPage == f;
      assert frames[i] == f;
    }
  }

  /** A freshly loaded space keeps the bookkeeping of a space between
      faults, its ring (pages 0 .. AvailablePages - 1) is exact, and its
      resident frames are the ones handed out. */
  lemma LoadedStructural(h: NoffHeader, stackPages: int, frames: seq<int>, v: Vm)
    requires SaneSizes(h) && GoodFrames(frames)
    requires v.pt == LoadedTable(h, NumPages(h), stackPages, frames)
    requires |v.slots| == NumPages(h) && forall j :: 0 <= j < |v.slots| ==> !v.slots[j]
    ensures Structural(v)
    ensures ResidentSetExact(v.pt, [0, 1, 2, 3])
    ensures ResidentFrames(v.pt) == Claimed(frames)
  {
    LoadedUnslotted(h, stackPages, frames, v);
    LoadedRing(h, stackPages, frames, v.pt);
  }

  /** No page of a freshly loaded space holds a swap slot, and the slot
      bitmap agrees. */
  lemma LoadedUnslotted(h: NoffHeader, stackPages: int, frames: seq<int>, v: Vm)
    requires SaneSizes(h) && GoodFrames(frames)
    requires v.pt == LoadedTable(h, NumPages(h), stackPages, frames)
    requires |v.slots| == NumPages(h) && forall j :: 0 <= j < |v.slots| ==> !v.slots[j]
    ensures Structural(v)
  {
    var n := NumPages(h);
    NumPagesCovers(h);
    forall i | 0 <= i < n && HoldsSlot(v.pt[i])
      ensures false
    {
      SegmentRangesDisjoint(h, i);
    }
    CountSetNone(v.slots);
    CountSetNone(SlotHolders(v.pt));
  }

  /** The ring of a freshly loaded space lists exactly its resident pages,
      which hold the frames handed out. */
  lemma LoadedRing(h: NoffHeader, stackPages: int, frames: seq<int>, pt: seq<TranslationEntry>)
    requires SaneSizes(h) && GoodFrames(frames)
    requires pt == LoadedTable(h, NumPages(h), stackPages, frames)
    ensures ResidentSetExact(pt, [0, 1, 2, 3])
    ensures ResidentFrames(pt) == Claimed(frames)
  {
    var n := NumPages(h);
    NumPagesCovers(h);
    forall f | f in Claimed(frames) ensures f in ResidentFrames(pt) {
      var i :| 0 <= i < |frames| && frames[i] >= 0 && frames[i] == f;
      assert pt[i].valid && pt[i].physicalPage == f;
    }
    var ring := [0, 1, 2, 3];
    forall p | 0 <= p < n && pt[p].valid ensures p in ring {
      assert ring[p] == p;
    }
  }

  /** The frames of a freshly loaded space: each resident code or data page
      holds its block of the executable and every other resident page holds
      zeros, given the zero-fill and copy2Mem that produced `mem`. */
  lemma LoadedMemory(h: NoffHeader, exec: map<int, Page>, stackPages: int, frames: seq<int>,
                     mem1: map<int, Page>, mem2: map<int, Page>)
    requires SaneSizes(h) && GoodFrames(frames)
    requires var pt := SetUpTable(NumPages(h), stackPages, frames);
             && (forall f :: f in ResidentFrames(pt) ==> PageAt(mem1, f) == ZeroPage())
             && (forall f :: f !in FileFrames(h, pt) ==> PageAt(mem2, f) == PageAt(mem1, f))
             && (forall p :: 0 <= p < |pt| && pt[p].valid && (InCode(h, p) || InInitData(h, p)) ==>
                   PageAt(mem2, pt[p].physicalPage) == PageAt(exec, LoadedFileAddr(h, p)))
    ensures forall p :: 0 <= p < AvailablePages ==>
              PageAt(mem2, frames[p]) == if InCode(h, p) || InInitData(h, p) then PageAt(exec, LoadedFileAddr(h, p)) else ZeroPage()
  {
    var pt := SetUpTable(NumPages(h), stackPages, frames);
    NumPagesCovers(h);
    forall p | 0 <= p < AvailablePages && !(InCode(h, p) || InInitData(h, p))
      ensures PageAt(mem2, frames[p]) == ZeroPage()
    {
      assert pt[p].valid && pt[p].physicalPage == frames[p];
      assert frames[p] in ResidentFrames(pt);
    }
  }

  /** What a freshly loaded space shows the program: its executable's
      blocks on code and data pages, zeros elsewhere; and, when every page
      has a type and the executable lays data after code, it is coherent. */
  lemma LoadedContent(h: NoffHeader, stackPages: int, frames: seq<int>, v: Vm)
    requires SaneSizes(h) && GoodFrames(frames)
    requires v.pt == LoadedTable(h, NumPages(h), stackPages, frames)
    requires forall p :: 0 <= p < AvailablePages ==>
               PageAt(v.mem, frames[p]) == if InCode(h, p) || InInitData(h, p) then PageAt(v.exec, LoadedFileAddr(h, p)) else ZeroPage()
    ensures forall p :: 0 <= p < |v.pt| ==> Content(v, p) == InitialImage(h, v.exec, NumPages(h), stackPages, p)
    ensures forall p :: 0 <= p < |v.pt| && v.pt[p].valid ==> Frame(v, p) == Backing(v, p)
  {
    NumPagesCovers(h);
    forall p | 0 <= p < |v.pt|
      ensures Backing(v, p) == InitialImage(h, v.exec, NumPages(h), stackPages, p)
      ensures v.pt[p].valid ==> Frame(v, p) == Backing(v, p)
    {
      SegmentRangesDisjoint(h, p);
    }
  }

  /** The constructor as written, without the zero-fill: copy2Mem leaves
      every frame but those of resident code and data pages as it found
      them. When code and initialised data take fewer than AvailablePages
      pages, the page after them is resident but not loaded, and a frame an
      earlier program left non-zero shows through where this program
      expects zeros. */
  lemma UnzeroedFrameShowsStaleBytes(h: NoffHeader, stackPages: int, frames: seq<int>,
                                     mem0: map<int, Page>, v: Vm)
    requires SaneSizes(h) && GoodFrames(frames)
    requires v.pt == LoadedTable(h, NumPages(h), stackPages, frames)
    requires forall f :: f !in FileFrames(h, SetUpTable(NumPages(h), stackPages, frames)) ==>
               PageAt(v.mem, f) == PageAt(mem0, f)
    requires UninitDataStart(h) < AvailablePages
    requires PageAt(mem0, frames[UninitDataStart(h)]) != ZeroPage()
    ensures var p := UninitDataStart(h);
            && 0 <= p < |v.pt| && v.pt[p].valid
            && Content(v, p) == PageAt(mem0, frames[p])
            && Content(v, p) != InitialImage(h, v.exec, NumPages(h), stackPages, p)
  {
    var p := UninitDataStart(h);
    var pt := SetUpTable(NumPages(h), stackPages, frames);
    NumPagesCovers(h);
    SegmentPagesFit(h);
    assert pt[p].valid && pt[p].physicalPage == frames[p];
    assert frames[p] !in FileFrames(h, pt) by {
      forall q | 0 <= q < |pt| && pt[q].valid && (InCode(h, q) || InInitData(h, q))
        ensures pt[q].physicalPage != frames[p]
      {
        assert q < p;
      }
    }
    assert !IsFileBacked(LoadedKind(h, NumPages(h), stackPages, p));
  }

  lemma LoadedCoherent(h: NoffHeader, stackPages: int, frames: seq<int>, v: Vm)
    requires SaneSizes(h) && GoodFrames(frames) && FileOrdered(h)
    requires stackPages * PageSize >= UserStackSize && stackPages <= NumPages(h)
    requires v.pt == LoadedTable(h, NumPages(h), stackPages, frames)
    requires forall p :: 0 <= p < |v.pt| && v.pt[p].valid ==> Frame(v, p) == Backing(v, p)
    ensures Coherent(v)
  {
    forall p | 0 <= p < |v.pt|
      ensures v.pt[p].kind != Unset
    {
      EveryPageTyped(h, stackPages, p);
    }
    forall p, q | 0 <= p < |v.pt| && 0 <= q < |v.pt| && p != q && IsFileBacked(v.pt[p].kind) && IsFileBacked(v.pt[q].kind)
      ensures v.pt[p].inFileAddr != v.pt[q].inFileAddr
    {
      SegmentRangesDisjoint(h, p);
      SegmentRangesDisjoint(h, q);
      LoadedFileAddrsDistinct(h, p, q);
    }
  }

  /** The clock hand changes use bits only, so everything a space keeps
      between faults, and what every page holds, survive the scan. */
  lemma ScanKeepsInvariants(v: Vm, pt': seq<TranslationEntry>, ring: seq<int>)
    requires Structural(v) && ResidentSetExact(v.pt, ring) && |pt'| == |v.pt|
    requires forall q :: 0 <= q < |v.pt| ==> pt'[q] == v.pt[q].(use := pt'[q].use)
    ensures var u := v.(pt := pt');
            && Structural(u)
            && ResidentFrames(pt') == ResidentFrames(v.pt)
            && ResidentSetExact(pt', ring)
            && (Coherent(v) ==> Coherent(u) && forall q :: 0 <= q < |v.pt| ==> Content(u, q) == Content(v, q))
  {
    UseBitsIrrelevant(v, pt');
    ResidentSetSameValid(v.pt, pt', ring);
  }

  /** One replacement on the abstract state: the page in ring slot `slot`
      is swapped out for `newPage`, which takes the slot. The page-table
      bookkeeping, the frames in use, the exact ring and, when the state is
      coherent, every page's content survive. */
  lemma ReplaceKeepsInvariants(v: Vm, ring: seq<int>, slot: int, newPage: int)
    requires Structural(v) && ResidentSetExact(v.pt, ring) && 0 <= slot < AvailablePages
    requires 0 <= newPage < |v.pt| && !v.pt[newPage].valid
    ensures var r := Paging.Swap(v, ring[slot], newPage);
            && Structural(r)
            && ResidentFrames(r.pt) == ResidentFrames(v.pt)
            && ResidentSetExact(r.pt, ring[slot := newPage])
            && (Coherent(v) ==> Coherent(r) && forall q :: 0 <= q < |v.pt| ==> Content(r, q) == Content(v, q))
  {
    SwapKeepsStructure(v, ring[slot], newPage);
    if Coherent(v) {
      SwapKeepsContent(v, ring[slot], newPage);
    }
    ReplaceKeepsResidentSet(v.pt, Paging.Swap(v, ring[slot], newPage).pt, ring, slot, newPage);
  }

  /** One SecondChance on the abstract state: the hand's pass, then the
      swap of the page it stops at for `newPage`. The bookkeeping, the
      frames in use and the exact ring survive, and a coherent space shows
      the program the same content as before. */
  lemma SecondChanceKeepsInvariants(v: Vm, ring: seq<int>, cursor: int, newPage: int)
    requires Structural(v) && ResidentSetExact(v.pt, ring) && 0 <= cursor < AvailablePages
    requires 0 <= newPage < |v.pt| && !v.pt[newPage].valid
    ensures var slot := ClockSlot(v.pt, ring, cursor);
            var r := Paging.Swap(v.(pt := ClockScanned(v.pt, ring, cursor)), ring[slot], newPage);
            && Structural(r)
            && ResidentFrames(r.pt) == ResidentFrames(v.pt)
            && ResidentSetExact(r.pt, ring[slot := newPage])
            && (Coherent(v) ==> Coherent(r) && forall q :: 0 <= q < |v.pt| ==> Content(r, q) == Content(v, q))
  {
    var scanned := ClockScanned(v.pt, ring, cursor);
    ScanKeepsInvariants(v, scanned, ring);
    ReplaceKeepsInvariants(v.(pt := scanned), ring, ClockSlot(v.pt, ring, cursor), newPage);
  }
}
