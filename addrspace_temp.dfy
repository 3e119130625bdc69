// The earlier variant of the demand-paged address space,
// lab7/temp/addrspace.cc. It shares the eviction cycle with lab7 but:
// copy2Mem places each segment by its virtual address, byte offset within
// the page included, and loads even uninitialised data from the
// executable; no page is ever given a segment type, and non-resident pages
// keep whatever `inFileAddr` the fresh page table held; FIFO and
// SecondChance take the faulting page as the address divided by the page
// size; SecondChance runs the scan exactly as written; the destructor hands
// every page's frame, -1 included, to BitMap::Clear.
module AddrSpaceTemp {
  import opened Machine
  import opened BitMaps
  import opened Outcomes
  import opened Noff
  import opened Layout
  import opened Paging
  import opened Replacement
  import AddrSpaceLab7

  /** Every frame or file block in `store` holds PageSize bytes. */
  ghost predicate PageSized(store: map<int, Page>)
  {
    forall k :: k in store ==> |store[k]| == PageSize
  }

  /** `ReadAt(&mainMemory[frame * PageSize + offset], PageSize, ...)`: the
      first PageSize - offset bytes of `block` land in frame `frame` from
      byte `offset` on, and the remaining `offset` bytes at the start of
      frame `frame + 1`. */
  function LoadAt(mem: map<int, Page>, frame: int, offset: int, block: Page): (r: map<int, Page>)
    requires PageSized(mem) && |block| == PageSize && 0 <= offset < PageSize
    ensures PageSized(r)
    ensures forall f :: f != frame && (offset == 0 || f != frame + 1) ==> PageAt(r, f) == PageAt(mem, f)
    ensures PageAt(r, frame) == PageAt(mem, frame)[..offset] + block[..PageSize - offset]
    ensures offset > 0 ==> PageAt(r, frame + 1) == block[PageSize - offset..] + PageAt(mem, frame + 1)[offset..]
  {
    if offset == 0 then mem[frame := block]
    else
      mem[frame := PageAt(mem, frame)[..offset] + block[..PageSize - offset]]
         [frame + 1 := block[PageSize - offset..] + PageAt(mem, frame + 1)[offset..]]
  }

  /** The page table and main memory, as copy2Mem changes them. */
  datatype Image = Image(pt: seq<TranslationEntry>, mem: map<int, Page>)

  /** One segment loop of copy2Mem from page `i` up to `last`: each resident
      page gets the executable block at `fileAddr` loaded at byte `offset`
      of its frame and records `fileAddr`, which then moves on by PageSize;
      a page that is not resident is skipped and does not advance it. */
  function SegmentLoop(im: Image, exec: map<int, Page>, i: int, last: int, offset: int, fileAddr: int): (r: Image)
    requires 0 <= i <= last <= |im.pt| && 0 <= offset < PageSize
    requires PageSized(im.mem) && PageSized(exec)
    ensures |r.pt| == |im.pt| && PageSized(r.mem)
    decreases last - i
  {
    if i == last then im
    else if im.pt[i].valid then
      var e := im.pt[i];
      SegmentLoop(Image(im.pt[i := e.(inFileAddr := fileAddr)], LoadAt(im.mem, e.physicalPage, offset, PageAt(exec, fileAddr))),
                  exec, i + 1, last, offset, fileAddr + PageSize)
    else
      SegmentLoop(im, exec, i + 1, last, offset, fileAddr)
  }

  /** A non-empty segment whose pages, counted from its virtual address, lie
      inside a table of `numPages` pages. The source indexes its page table
      there without a check. */
  predicate Placed(s: Segment, numPages: int)
  {
    s.size > 0 ==> 0 <= s.virtualAddr && s.virtualAddr / PageSize + Pages(s.size) <= numPages
  }

  predicate AllPlaced(h: NoffHeader, numPages: int)
  {
    Placed(h.code, numPages) && Placed(h.initData, numPages) && Placed(h.uninitData, numPages)
  }

  /** The loop of copy2Mem for segment `s` (none for an empty one). The
      virtual address is not negative, so C's division and remainder agree
      with Dafny's. */
  function SegmentCopy(im: Image, exec: map<int, Page>, s: Segment): (r: Image)
    requires PageSized(im.mem) && PageSized(exec) && Placed(s, |im.pt|)
    ensures |r.pt| == |im.pt| && PageSized(r.mem)
    ensures forall p :: 0 <= p < |im.pt| ==> r.pt[p] == im.pt[p].(inFileAddr := r.pt[p].inFileAddr)
    ensures forall p :: 0 <= p < |im.pt| && !im.pt[p].valid ==> r.pt[p] == im.pt[p]
    ensures s.size <= 0 ==> r == im
  {
    if s.size > 0 then
      PagesBounds(s.size);
      SegmentLoopTable(im, exec, s.virtualAddr / PageSize, s.virtualAddr / PageSize + Pages(s.size),
                       s.virtualAddr % PageSize, s.inFileAddr);
      SegmentLoop(im, exec, s.virtualAddr / PageSize, s.virtualAddr / PageSize + Pages(s.size),
                  s.virtualAddr % PageSize, s.inFileAddr)
    else im
  }

  /** copy2Mem: code, then initialised data, then uninitialised data, each
      read from the executable at the segment's `inFileAddr`. */
  function Copy2MemImage(h: NoffHeader, im: Image, exec: map<int, Page>): (r: Image)
    requires PageSized(im.mem) && PageSized(exec) && AllPlaced(h, |im.pt|)
    ensures |r.pt| == |im.pt| && PageSized(r.mem)
    ensures forall p :: 0 <= p < |im.pt| ==> r.pt[p] == im.pt[p].(inFileAddr := r.pt[p].inFileAddr)
    ensures forall p :: 0 <= p < |im.pt| && !im.pt[p].valid ==> r.pt[p] == im.pt[p]
  {
    var im1 := SegmentCopy(im, exec, h.code);
    var im2 := SegmentCopy(im1, exec, h.initData);
    SegmentCopy(im2, exec, h.uninitData)
  }

  /** The number of resident pages among i .. p - 1. */
  function ValidCount(pt: seq<TranslationEntry>, i: int, p: int): (n: nat)
    requires 0 <= i <= p <= |pt|
    ensures n <= p - i
    decreases p - i
  {
    if i == p then 0 else (if pt[i].valid then 1 else 0) + ValidCount(pt, i + 1, p)
  }

  lemma {:induction false} ValidCountAgree(pt: seq<TranslationEntry>, pt': seq<TranslationEntry>, i: int, p: int)
    requires 0 <= i <= p <= |pt| && |pt'| == |pt|
    requires forall q :: i <= q < p ==> pt'[q].valid == pt[q].valid
    ensures ValidCount(pt', i, p) == ValidCount(pt, i, p)
    decreases p - i
  {
    if i < p {
      ValidCountAgree(pt, pt', i + 1, p);
    }
  }

  /** A segment loop changes only `inFileAddr`, and only of the resident
      pages in its range: the k-th of them (from 0) records the segment's
      file offset plus k pages. */
  lemma {:induction false} SegmentLoopTable(im: Image, exec: map<int, Page>, i: int, last: int, offset: int, fileAddr: int)
    requires 0 <= i <= last <= |im.pt| && 0 <= offset < PageSize
    requires PageSized(im.mem) && PageSized(exec)
    ensures var r := SegmentLoop(im, exec, i, last, offset, fileAddr);
            forall p :: 0 <= p < |im.pt| ==>
              r.pt[p] == if i <= p < last && im.pt[p].valid
                         then im.pt[p].(inFileAddr := fileAddr + ValidCount(im.pt, i, p) * PageSize)
                         else im.pt[p]
    decreases last - i
  {
    if i < last {
      var e := im.pt[i];
      if e.valid {
        var im' := Image(im.pt[i := e.(inFileAddr := fileAddr)], LoadAt(im.mem, e.physicalPage, offset, PageAt(exec, fileAddr)));
        SegmentLoopTable(im', exec, i + 1, last, offset, fileAddr + PageSize);
        forall p {:trigger ValidCount(im.pt, i + 1, p)} | i + 1 <= p <= last
          ensures ValidCount(im'.pt, i + 1, p) == ValidCount(im.pt, i + 1, p)
        {
          ValidCountAgree(im.pt, im'.pt, i + 1, p);
        }
      } else {
        SegmentLoopTable(im, exec, i + 1, last, offset, fileAddr);
      }
    }
  }

  /** A frame that is neither the frame of a resident page in the loop's
      range nor, when the segment is not page-aligned, the frame right after
      one, keeps its bytes. */
  lemma {:induction false} SegmentLoopKeepsFrame(im: Image, exec: map<int, Page>, i: int, last: int, offset: int, fileAddr: int, f: int)
    requires 0 <= i <= last <= |im.pt| && 0 <= offset < PageSize
    requires PageSized(im.mem) && PageSized(exec)
    requires forall p :: i <= p < last && im.pt[p].valid ==>
               f != im.pt[p].physicalPage && (offset > 0 ==> f != im.pt[p].physicalPage + 1)
    ensures PageAt(SegmentLoop(im, exec, i, last, offset, fileAddr).mem, f) == PageAt(im.mem, f)
    decreases last - i
  {
    if i < last {
      var e := im.pt[i];
      if e.valid {
        var im' := Image(im.pt[i := e.(inFileAddr := fileAddr)], LoadAt(im.mem, e.physicalPage, offset, PageAt(exec, fileAddr)));
        SegmentLoopKeepsFrame(im', exec, i + 1, last, offset, fileAddr + PageSize, f);
      } else {
        SegmentLoopKeepsFrame(im, exec, i + 1, last, offset, fileAddr, f);
      }
    }
  }

  /** For a page-aligned segment over pages with distinct frames, every
      resident page in range ends up holding its own block of the
      executable. */
  lemma {:induction false} SegmentLoopLoads(im: Image, exec: map<int, Page>, i: int, last: int, fileAddr: int)
    requires 0 <= i <= last <= |im.pt| && FramesOwned(im.pt)
    requires PageSized(im.mem) && PageSized(exec)
    ensures var r := SegmentLoop(im, exec, i, last, 0, fileAddr);
            forall p :: i <= p < last && im.pt[p].valid ==>
              PageAt(r.mem, im.pt[p].physicalPage) == PageAt(exec, fileAddr + ValidCount(im.pt, i, p) * PageSize)
    decreases last - i
  {
    if i < last {
      if im.pt[i].valid {
        SegmentLoopLoadsStep(im, exec, i, last, fileAddr);
      } else {
        SegmentLoopLoads(im, exec, i + 1, last, fileAddr);
      }
    }
  }

  /** SegmentLoopLoads when page `i` is resident: its frame gets its block,
      which the rest of the loop leaves alone, and the later pages are the
      induction. */
  lemma {:induction false} SegmentLoopLoadsStep(im: Image, exec: map<int, Page>, i: int, last: int, fileAddr: int)
    requires 0 <= i < last <= |im.pt| && FramesOwned(im.pt) && im.pt[i].valid
    requires PageSized(im.mem) && PageSized(exec)
    ensures var r := SegmentLoop(im, exec, i, last, 0, fileAddr);
            forall p :: i <= p < last && im.pt[p].valid ==>
              PageAt(r.mem, im.pt[p].physicalPage) == PageAt(exec, fileAddr + ValidCount(im.pt, i, p) * PageSize)
    decreases last - i, 0
  {
    var e := im.pt[i];
    var im' := Image(im.pt[i := e.(inFileAddr := fileAddr)], LoadAt(im.mem, e.physicalPage, 0, PageAt(exec, fileAddr)));
    var r := SegmentLoop(im', exec, i + 1, last, 0, fileAddr + PageSize);
    assert SegmentLoop(im, exec, i, last, 0, fileAddr) == r;
    FramesAgree(im.pt, im'.pt);
    SegmentLoopLoads(im', exec, i + 1, last, fileAddr + PageSize);
    forall p | i <= p < last && im.pt[p].valid
      ensures PageAt(r.mem, im.pt[p].physicalPage) == PageAt(exec, fileAddr + ValidCount(im.pt, i, p) * PageSize)
    {
      if p == i {
        FrameUnshared(im.pt, i);
        SegmentLoopKeepsFrame(im', exec, i + 1, last, 0, fileAddr + PageSize, e.physicalPage);
      } else {
        ValidCountAgree(im.pt, im'.pt, i + 1, p);
        assert im'.pt[p] == im.pt[p];
      }
    }
  }

  /** A one-page code segment at virtual address 64 (not page-aligned):
      loading page 0 into frame 0 also overwrites the first 64 bytes of
      frame 1, which belongs to page 1, a page outside the segment. */
  lemma SpillOverwritesNextFrame()
    ensures var e := TranslationEntry(0, 0, true, false, true, false, Unset, 0);
            var im := Image([e, e.(virtualPage := 1, physicalPage := 1)], map[]);
            var block: Page := seq(PageSize, _ => 7);
            var r := SegmentLoop(im, map[0 := block], 0, 1, 64, 0);
            && Placed(Segment(64, 0, 1), 2)
            && PageAt(r.mem, 1)[0] == 7
            && PageAt(im.mem, 1)[0] == 0
  {
    var e := TranslationEntry(0, 0, true, false, true, false, Unset, 0);
    var im := Image([e, e.(virtualPage := 1, physicalPage := 1)], map[]);
    var block: Page := seq(PageSize, _ => 7);
    var exec := map[0 := block];
    assert PageAt(exec, 0) == block;
    var m := LoadAt(im.mem, 0, 64, block);
    assert SegmentLoop(im, exec, 0, 1, 64, 0).mem == m;
    assert PageAt(m, 1)[0] == block[64];
  }

  /** Pages never given a segment type, as in this variant: evicting one
      writes nothing back, reading one in reads nothing, so the page brought
      in sees the bytes the evicted page left in the frame, and the evicted
      page's own bytes read as zeros afterwards. */
  lemma UntypedSwapKeepsStaleFrame(v: Vm, oldPage: int, newPage: int)
    requires 0 <= oldPage < |v.pt| && 0 <= newPage < |v.pt| && oldPage != newPage
    requires v.pt[oldPage].kind == Unset && v.pt[newPage].kind == Unset
    ensures var r := SwapAsWritten(v, oldPage, newPage);
            && r.pt[newPage].valid && Frame(r, newPage) == Frame(v, oldPage)
            && Content(r, oldPage) == ZeroPage()
            && r.exec == v.exec && r.swap == v.swap
  {
    var w := Paging.WriteBack(v, oldPage);
    assert w.mem == v.mem && w.exec == v.exec && w.swap == v.swap;
    TransferMovesFrame(w.pt, oldPage, newPage);
  }

  /** The entry setUpTranslation leaves for page `i` given `frame`, as far
      as it sets it: it describes virtual page `i`, is clean and writable,
      and is resident and used in `frame` (-1 when the bitmap was full)
      when `i` is among the first AvailablePages, absent otherwise. The type
      and file offset stay what the fresh table held. */
  ghost predicate EntrySetUp(e: TranslationEntry, i: int, frame: int)
  {
    && e.virtualPage == i && !e.dirty && !e.readOnly
    && e.valid == (i < AvailablePages) && e.use == (i < AvailablePages)
    && e.physicalPage == frame
  }

  /** The table setUpTranslation leaves: page `i` in the frame `frames`
      lists for it, -1 past its end. */
  ghost predicate SetUpDone(pt: seq<TranslationEntry>, frames: seq<int>)
  {
    forall i :: 0 <= i < |pt| ==> EntrySetUp(pt[i], i, AddrSpaceLab7.FrameOf(frames, i))
  }

  /** With more pages than ring slots, which every space has, a page is
      absent with frame -1, which the destructor passes to BitMap::Clear. */
  lemma SetUpLeavesAbsentPage(pt: seq<TranslationEntry>, frames: seq<int>)
    requires SetUpDone(pt, frames) && |frames| <= AvailablePages < |pt|
    ensures exists i :: 0 <= i < |pt| && !(0 <= pt[i].physicalPage < NumPhysPages)
  {
    assert EntrySetUp(pt[AvailablePages], AvailablePages, AddrSpaceLab7.FrameOf(frames, AvailablePages));
  }

  /** The first page whose frame is outside the frame bitmap; |pt| if none. */
  function FirstAbsent(pt: seq<TranslationEntry>): (k: int)
    ensures 0 <= k <= |pt|
    ensures forall i :: 0 <= i < k ==> 0 <= pt[i].physicalPage < NumPhysPages
    ensures k < |pt| ==> !(0 <= pt[k].physicalPage < NumPhysPages)
  {
    if |pt| == 0 || !(0 <= pt[0].physicalPage < NumPhysPages) then 0
    else 1 + FirstAbsent(pt[1..])
  }

  /** The frames of pages 0 .. k - 1. */
  function FramesBelow(pt: seq<TranslationEntry>, k: int): set<int>
    requires 0 <= k <= |pt|
  {
    set i | 0 <= i < k :: pt[i].physicalPage
  }

  /** The page the fault handler's address lies in: the address converted
      to a 32-bit unsigned value and divided by the page size. */
  function FaultPage(faultPageAddr: int): (page: int)
    ensures 0 <= page < WordRange / PageSize
    ensures 0 <= faultPageAddr < WordRange ==> page * PageSize <= faultPageAddr < (page + 1) * PageSize
  {
    (faultPageAddr % WordRange) / PageSize
  }

  /** The outcome of the constructor's checks, in order: no free
      identifier, a bad magic number, too many pages. This variant neither
      creates a swap file nor checks what Find returns. */
  function LoadVerdict(ids: seq<bool>, raw: NoffHeader, wordToHost: int -> int): (r: Option<Fatal>)
    ensures r == Some(SpaceIdsExhausted) <==> FirstClear(ids) < 0
    ensures r.None? <==> FirstClear(ids) >= 0 && LoadHeader(raw, wordToHost).Some?
                         && NumPages(LoadHeader(raw, wordToHost).value) <= NumPhysPages
    ensures r.Some? ==> r.value in {SpaceIdsExhausted, BadMagic, TooManyPages}
  {
    if FirstClear(ids) < 0 then Some(SpaceIdsExhausted)
    else if LoadHeader(raw, wordToHost).None? then Some(BadMagic)
    else if NumPages(LoadHeader(raw, wordToHost).value) > NumPhysPages then Some(TooManyPages)
    else None
  }

  class AddrSpace {
    const machine: Machine
    /** The frame allocator shared by every address space (a static member). */
    const bitmap: BitMap
    /** The identifier pool shared by every address space (a static member). */
    const spaceIdMap: array<bool>
    /** The ring of resident pages used by page replacement. */
    const virtualPages: array<int>
    /** The swap-slot allocator, one slot per page. */
    const virtualSpaceMap: BitMap

    var noffH: NoffHeader
    /** The executable file, as page-sized blocks by byte offset. */
    var executable: map<int, Page>
    /** The swap file, as page-sized blocks by byte offset. */
    var swapFile: map<int, Page>
    var numPages: int
    var pageTable: array<TranslationEntry>
    var firstInPage: int
    var spaceId: int

    /** The fields the constructor has computed by the time it sets up the
        page table. The swap-slot bitmap is created here with one slot per
        page, and the swap file starts empty: the source creates neither. */
    constructor (machine: Machine, bitmap: BitMap, spaceIdMap: array<bool>,
                 executable: map<int, Page>, noffH: NoffHeader, numPages: nat, spaceId: int)
      ensures this.machine == machine && this.bitmap == bitmap && this.spaceIdMap == spaceIdMap
      ensures this.executable == executable && this.noffH == noffH
      ensures this.numPages == numPages && this.spaceId == spaceId
      ensures swapFile == map[] && firstInPage == 0
      ensures fresh(virtualPages) && virtualPages.Length == AvailablePages
      ensures fresh(virtualSpaceMap) && fresh(virtualSpaceMap.bits) && virtualSpaceMap.Valid()
      ensures virtualSpaceMap.numBits == numPages
      ensures fresh(pageTable) && pageTable.Length == 0
    {
      this.machine := machine;
      this.bitmap := bitmap;
      this.spaceIdMap := spaceIdMap;
      this.executable := executable;
      this.noffH := noffH;
      this.numPages := numPages;
      this.spaceId := spaceId;
      swapFile := map[];
      firstInPage := 0;
      virtualPages := new int[AvailablePages](_ => 0);
      virtualSpaceMap := new BitMap(numPages);
      pageTable := new TranslationEntry[0];
    }

    /** AddrSpace::AddrSpace(executable) of this variant: claims the lowest
        free identifier, reads and byte-swaps the header, sets up the page
        table and runs copy2Mem. The ASSERTs that halt the kernel are
        `Failure`s. A full frame bitmap does not stop it: the page keeps
        frame -1. Memory is not cleared (the `bzero` is commented out). */
    static method Load(machine: Machine, bitmap: BitMap, spaceIdMap: array<bool>,
                       executable: map<int, Page>, raw: NoffHeader, wordToHost: int -> int)
      returns (r: Result<AddrSpace, Fatal>)
      requires spaceIdMap.Length == SpaceIdCount
      requires bitmap.Valid() && bitmap.numBits == NumPhysPages && bitmap.bits != spaceIdMap
      requires LoadHeader(raw, wordToHost).Some? ==>
                 var h := LoadHeader(raw, wordToHost).value;
                 SaneSizes(h) && AllPlaced(h, NumPages(h))
      requires PageSized(machine.mainMemory) && PageSized(executable)
      modifies spaceIdMap, bitmap.bits, machine
      ensures var verdict := LoadVerdict(old(spaceIdMap[..]), raw, wordToHost);
              && (r.Failure? <==> verdict.Some?)
              && (r.Failure? ==> r.error == verdict.value)
      ensures r.Success? ==>
                var s := r.value;
                var claims := Claims(old(bitmap.bits[..]), AvailablePages);
                && fresh(s) && s.Shape()
                && s.machine == machine && s.bitmap == bitmap && s.spaceIdMap == spaceIdMap
                && s.executable == executable && s.swapFile == map[]
                && s.noffH == LoadHeader(raw, wordToHost).value && s.numPages == NumPages(s.noffH)
                && s.spaceId == FirstClear(old(spaceIdMap[..]))
                && spaceIdMap[..] == old(spaceIdMap[..])[s.spaceId := true]
                && s.firstInPage == 0 && s.virtualPages[..] == [0, 1, 2, 3]
                && bitmap.bits[..] == claims.1
                && exists pt0 :: SetUpDone(pt0, claims.0) && |pt0| == s.numPages && AllPlaced(s.noffH, |pt0|)
                                 && Image(s.pageTable[..], machine.mainMemory)
                                    == Copy2MemImage(s.noffH, Image(pt0, old(machine.mainMemory)), executable)
    {
      var id := ClaimSpaceId(spaceIdMap);
      if id < 0 {
        return Failure(SpaceIdsExhausted);
      }
      var header := LoadHeader(raw, wordToHost);
      if header.None? {
        return Failure(BadMagic);
      }
      var h := header.value;
      var n := NumPages(h);
      if n > NumPhysPages {
        return Failure(TooManyPages);
      }
      var space := new AddrSpace(machine, bitmap, spaceIdMap, executable, h, n, id);
      space.Populate();
      r := Success(space);
    }

    /** The rest of the constructor once the fields are set:
        setUpTranslation, then copy2Mem over the table it built. */
    method Populate()
      requires virtualPages.Length == AvailablePages && spaceIdMap.Length == SpaceIdCount
      requires bitmap.Valid() && bitmap.numBits == NumPhysPages
      requires virtualSpaceMap.Valid() && virtualSpaceMap.numBits == numPages
      requires bitmap != virtualSpaceMap && bitmap.bits != virtualSpaceMap.bits
      requires bitmap.bits != spaceIdMap && virtualSpaceMap.bits != spaceIdMap && virtualPages != machine.registers
      requires SaneSizes(noffH) && numPages == NumPages(noffH) && AllPlaced(noffH, numPages)
      requires PageSized(machine.mainMemory) && PageSized(executable)
      modifies this`pageTable, this`firstInPage, virtualPages, bitmap.bits, machine
      ensures Shape() && fresh(pageTable)
      ensures firstInPage == 0 && virtualPages[..] == [0, 1, 2, 3]
      ensures var claims := Claims(old(bitmap.bits[..]), AvailablePages);
              && bitmap.bits[..] == claims.1
              && exists pt0 :: SetUpDone(pt0, claims.0) && |pt0| == numPages && AllPlaced(noffH, |pt0|)
                               && Image(pageTable[..], machine.mainMemory)
                                  == Copy2MemImage(noffH, Image(pt0, old(machine.mainMemory)), executable)
    {
      NumPagesCovers(noffH);
      SetUpTranslation();
      assert AddrSpaceLab7.Min(numPages, AvailablePages) == AvailablePages;
      assert virtualPages[0] == 0 && virtualPages[1] == 1 && virtualPages[2] == 2 && virtualPages[3] == 3;
      assert virtualPages[..] == [0, 1, 2, 3];
      ghost var pt0 := pageTable[..];
      Copy2Mem();
    }

    /** The objects a space uses are the right size and pairwise distinct. */
    ghost predicate Shape()
      reads this`pageTable, this`numPages
    {
      && virtualPages.Length == AvailablePages
      && pageTable.Length == numPages
      && spaceIdMap.Length == SpaceIdCount
      && bitmap.Valid() && bitmap.numBits == NumPhysPages
      && virtualSpaceMap.Valid() && virtualSpaceMap.numBits == numPages
      && bitmap != virtualSpaceMap
      && bitmap.bits != virtualSpaceMap.bits
      && bitmap.bits != spaceIdMap && virtualSpaceMap.bits != spaceIdMap
      && virtualPages != machine.registers
    }

    /** The state the eviction cycle reads and writes. */
    ghost function Abs(): Vm
      reads this`pageTable, this`executable, this`swapFile, pageTable, machine`mainMemory, virtualSpaceMap.bits
    {
      Vm(pageTable[..], machine.mainMemory, executable, swapFile, virtualSpaceMap.bits[..])
    }

    /** AddrSpace::setUpTranslation of this variant: the first
        AvailablePages pages are made resident in the frames successive
        `Find`s return, -1 included, and form the ring in page order. */
    method SetUpTranslation()
      requires virtualPages.Length == AvailablePages && bitmap.Valid() && numPages >= 0
      modifies this`pageTable, this`firstInPage, virtualPages, bitmap.bits
      ensures fresh(pageTable) && pageTable.Length == numPages
      ensures var claims := Claims(old(bitmap.bits[..]), AddrSpaceLab7.Min(numPages, AvailablePages));
              && SetUpDone(pageTable[..], claims.0)
              && bitmap.bits[..] == claims.1
      ensures firstInPage == AddrSpaceLab7.Min(numPages, AvailablePages) % AvailablePages
      ensures forall s :: 0 <= s < AvailablePages ==> virtualPages[s] == if s < numPages then s else old(virtualPages[s])
    {
      ghost var bits0 := bitmap.bits[..];
      firstInPage := 0;
      pageTable := new TranslationEntry[numPages];
      ghost var claims := Claims(bits0, 0);
      var i := 0;
      while i < numPages
        invariant 0 <= i <= numPages && pageTable.Length == numPages && fresh(pageTable)
        invariant claims == Claims(bits0, AddrSpaceLab7.Min(i, AvailablePages))
        invariant firstInPage == AddrSpaceLab7.Min(i, AvailablePages) % AvailablePages
        invariant forall k :: 0 <= k < i ==> EntrySetUp(pageTable[k], k, AddrSpaceLab7.FrameOf(claims.0, k))
        invariant bitmap.bits[..] == claims.1
        invariant forall s :: 0 <= s < AvailablePages ==> virtualPages[s] == if s < i then s else old(virtualPages[s])
      {
        AddrSpaceLab7.ClaimsNext(bits0, i);
        var _ := SetUpPage(i);
        claims := Claims(bits0, AddrSpaceLab7.Min(i + 1, AvailablePages));
        i := i + 1;
      }
      assert SetUpDone(pageTable[..], claims.0);
    }

    /** One pass of setUpTranslation's loop for page `i`: the fields are
        set, and a page among the first AvailablePages joins the ring at the
        cursor and is given the frame `Find` returns. */
    method SetUpPage(i: int) returns (frame: int)
      requires virtualPages.Length == AvailablePages && bitmap.Valid()
      requires 0 <= i < pageTable.Length && (i < AvailablePages ==> firstInPage == i)
      modifies pageTable, this`firstInPage, virtualPages, bitmap.bits
      ensures forall k :: 0 <= k < pageTable.Length && k != i ==> pageTable[k] == old(pageTable[k])
      ensures EntrySetUp(pageTable[i], i, frame)
      ensures frame == if i < AvailablePages then FirstClear(old(bitmap.bits[..])) else -1
      ensures bitmap.bits[..] == if frame >= 0 then old(bitmap.bits[..])[frame := true] else old(bitmap.bits[..])
      ensures forall s :: 0 <= s < AvailablePages ==> virtualPages[s] == if s == i then i else old(virtualPages[s])
      ensures firstInPage == if i < AvailablePages then (i + 1) % AvailablePages else old(firstInPage)
    {
      pageTable[i] := pageTable[i].(virtualPage := i, use := false, dirty := false, readOnly := false);
      if i < AvailablePages {
        virtualPages[firstInPage] := pageTable[i].virtualPage;
        firstInPage := (firstInPage + 1) % AvailablePages;
        frame := bitmap.Find();
        pageTable[i] := pageTable[i].(physicalPage := frame, valid := true, use := true);
      } else {
        frame := -1;
        pageTable[i] := pageTable[i].(physicalPage := -1, valid := false);
      }
    }

    /** AddrSpace::copy2Mem of this variant. */
    method Copy2Mem()
      requires pageTable.Length == numPages && AllPlaced(noffH, numPages)
      requires PageSized(machine.mainMemory) && PageSized(executable)
      modifies pageTable, machine
      ensures Image(pageTable[..], machine.mainMemory)
              == Copy2MemImage(noffH, old(Image(pageTable[..], machine.mainMemory)), executable)
    {
      if noffH.code.size > 0 {
        CopySegment(noffH.code);
      }
      if noffH.initData.size > 0 {
        CopySegment(noffH.initData);
      }
      if noffH.uninitData.size > 0 {
        CopySegment(noffH.uninitData);
      }
    }

    /** One `if (size > 0)` block of copy2Mem: the segment's first page and
        the byte offset within it come from its virtual address, and the
        file offset counts up from its `inFileAddr`. */
    method CopySegment(s: Segment)
      requires pageTable.Length == numPages && s.size > 0 && Placed(s, numPages)
      requires PageSized(machine.mainMemory) && PageSized(executable)
      modifies pageTable, machine
      ensures Image(pageTable[..], machine.mainMemory)
              == SegmentCopy(old(Image(pageTable[..], machine.mainMemory)), executable, s)
    {
      var firstPage := s.virtualAddr / PageSize;
      var pageOffset := s.virtualAddr % PageSize;
      var numPage := Pages(s.size);
      PagesBounds(s.size);
      var inFileAddr := s.inFileAddr;
      ghost var im0 := Image(pageTable[..], machine.mainMemory);
      var i := firstPage;
      while i < firstPage + numPage
        invariant firstPage <= i <= firstPage + numPage && PageSized(machine.mainMemory)
        invariant SegmentLoop(Image(pageTable[..], machine.mainMemory), executable, i, firstPage + numPage, pageOffset, inFileAddr)
                  == SegmentLoop(im0, executable, firstPage, firstPage + numPage, pageOffset, s.inFileAddr)
      {
        if pageTable[i].valid {
          machine.mainMemory := LoadAt(machine.mainMemory, pageTable[i].physicalPage, pageOffset, PageAt(executable, inFileAddr));
          pageTable[i] := pageTable[i].(inFileAddr := inFileAddr);
          inFileAddr := inFileAddr + PageSize;
        }
        i := i + 1;
      }
    }

    /** AddrSpace::~AddrSpace of this variant: frees the identifier, then
        passes the frame of every page to BitMap::Clear. Clear's range check
        halts the kernel at the first frame outside the bitmap (`halted`);
        the frames before it are released. */
    method Destroy() returns (halted: bool)
      requires Shape() && 0 <= spaceId < SpaceIdCount
      modifies spaceIdMap, bitmap.bits
      ensures spaceIdMap[..] == old(spaceIdMap[..])[spaceId := false]
      ensures halted <==> exists i :: 0 <= i < numPages && !(0 <= pageTable[i].physicalPage < NumPhysPages)
      ensures SetBits(bitmap.bits[..]) == SetBits(old(bitmap.bits[..])) - FramesBelow(pageTable[..], FirstAbsent(pageTable[..]))
    {
      spaceIdMap[spaceId] := false;
      halted := ClearFrames();
    }

    /** The loop of the destructor. */
    method ClearFrames() returns (halted: bool)
      requires pageTable.Length == numPages && bitmap.Valid() && bitmap.numBits == NumPhysPages
      modifies bitmap.bits
      ensures halted <==> exists i :: 0 <= i < numPages && !(0 <= pageTable[i].physicalPage < NumPhysPages)
      ensures SetBits(bitmap.bits[..]) == SetBits(old(bitmap.bits[..])) - FramesBelow(pageTable[..], FirstAbsent(pageTable[..]))
    {
      ghost var pt := pageTable[..];
      ghost var stop := FirstAbsent(pt);
      var i := 0;
      while i < numPages
        invariant 0 <= i <= stop
        invariant SetBits(bitmap.bits[..]) == SetBits(old(bitmap.bits[..])) - FramesBelow(pt, i)
      {
        ghost var bits := bitmap.bits[..];
        var ok := bitmap.Clear(pageTable[i].physicalPage);
        if !ok {
          return true;
        }
        assert FramesBelow(pt, i + 1) == FramesBelow(pt, i) + {pt[i].physicalPage};
        assert SetBits(bitmap.bits[..]) == SetBits(bits) - {pt[i].physicalPage};
        i := i + 1;
      }
      return false;
    }

    /** AddrSpace::FIFO of this variant: the page under the cursor is evicted
        for the page the faulting address lies in, which takes over its
        slot. */
    method FIFO(faultPageAddr: int)
      requires Shape() && 0 <= firstInPage < AvailablePages
      requires 0 <= virtualPages[firstInPage] < numPages && 0 <= FaultPage(faultPageAddr) < numPages
      modifies this`executable, this`swapFile, this`firstInPage, machine, pageTable, virtualSpaceMap.bits, virtualPages
      ensures Shape()
      ensures virtualPages[..] == old(virtualPages[..])[old(firstInPage) := FaultPage(faultPageAddr)]
      ensures firstInPage == (old(firstInPage) + 1) % AvailablePages
      ensures Abs() == SwapAsWritten(old(Abs()), old(virtualPages[firstInPage]), FaultPage(faultPageAddr))
    {
      var oldPage := virtualPages[firstInPage];
      var newPage := FaultPage(faultPageAddr);
      virtualPages[firstInPage] := newPage;
      firstInPage := (firstInPage + 1) % AvailablePages;
      Swap(oldPage, newPage);
    }

    /** AddrSpace::SecondChance exactly as written: the scan starts at 0,
        reads the use bits of pages 0 .. AvailablePages - 1 (page numbers,
        not ring slots), clears none of them, and stops at the first that is
        clear; the faulting page then goes into the slot under the FIFO
        cursor, while the page in the scanned slot is evicted. When all four
        bits are set the scan never ends (AsWrittenScanNeverExits), so a
        call requires one of them clear. */
    method SecondChance(faultPageAddr: int)
      requires Shape() && numPages >= AvailablePages && 0 <= firstInPage < AvailablePages
      requires AsWrittenScanExit(pageTable[..]).Some?
      requires forall s :: 0 <= s < AvailablePages ==> 0 <= virtualPages[s] < numPages
      requires 0 <= FaultPage(faultPageAddr) < numPages
      modifies this`executable, this`swapFile, this`firstInPage, machine, pageTable, virtualSpaceMap.bits, virtualPages
      ensures Shape()
      ensures virtualPages[..] == old(virtualPages[..])[old(firstInPage) := FaultPage(faultPageAddr)]
      ensures firstInPage == (old(firstInPage) + 1) % AvailablePages
      ensures Abs() == SwapAsWritten(old(Abs()), old(virtualPages[AsWrittenScanExit(pageTable[..]).value]),
                                   FaultPage(faultPageAddr))
    {
      ghost var exit := AsWrittenScanExit(pageTable[..]).value;
      var oldPageIndex := 0;
      while pageTable[oldPageIndex].use
        invariant 0 <= oldPageIndex <= exit
        decreases exit - oldPageIndex
      {
        // The source's `use == FALSE` here is a comparison whose result is
        // discarded.
        oldPageIndex := (oldPageIndex + 1) % AvailablePages;
      }
      var oldPage := virtualPages[oldPageIndex];
      var newPage := FaultPage(faultPageAddr);
      virtualPages[firstInPage] := newPage;
      firstInPage := (firstInPage + 1) % AvailablePages;
      Swap(oldPage, newPage);
    }

    /** AddrSpace::Swap, as written: it does not require the two pages to
        differ (Paging.TransferSamePageLosesFrame shows what that costs),
        and reads the new page in as this variant's ReadIn does. */
    method Swap(oldPage: int, newPage: int)
      requires Shape() && 0 <= oldPage < numPages && 0 <= newPage < numPages
      modifies this`executable, this`swapFile, machine, pageTable, virtualSpaceMap.bits
      ensures Shape()
      ensures Abs() == SwapAsWritten(old(Abs()), oldPage, newPage)
    {
      WriteBack(oldPage);
      pageTable[newPage] := pageTable[newPage].(physicalPage := pageTable[oldPage].physicalPage);
      pageTable[oldPage] := pageTable[oldPage].(physicalPage := -1);
      pageTable[oldPage] := pageTable[oldPage].(valid := false);
      pageTable[newPage] := pageTable[newPage].(valid := true);
      pageTable[newPage] := pageTable[newPage].(use := true);
      pageTable[newPage] := pageTable[newPage].(dirty := false);
      ghost var w := Paging.WriteBack(old(Abs()), oldPage);
      assert pageTable[..] == Transfer(w.pt, oldPage, newPage);
      ReadIn(newPage);
    }

    /** AddrSpace::WriteBack (the same code as lab7's). */
    method WriteBack(oldPage: int)
      requires Shape() && 0 <= oldPage < numPages
      modifies this`executable, this`swapFile, pageTable, virtualSpaceMap.bits
      ensures Shape()
      ensures Abs() == Paging.WriteBack(old(Abs()), oldPage)
    {
      var e := pageTable[oldPage];
      if e.dirty {
        if e.kind == Code || e.kind == InitData {
          executable := executable[e.inFileAddr := PageAt(machine.mainMemory, e.physicalPage)];
        } else if e.kind == UninitData || e.kind == UserStack {
          var slot := virtualSpaceMap.Find();
          pageTable[oldPage] := pageTable[oldPage].(inFileAddr := slot * PageSize);
          swapFile := swapFile[pageTable[oldPage].inFileAddr := PageAt(machine.mainMemory, pageTable[oldPage].physicalPage)];
        }
        pageTable[oldPage] := pageTable[oldPage].(dirty := false);
      }
    }

    /** AddrSpace::ReadIn as written: a page read back from its swap slot
        releases the slot and stays clean. */
    method ReadIn(newPage: int)
      requires Shape() && 0 <= newPage < numPages
      modifies machine, pageTable, virtualSpaceMap.bits
      ensures Shape()
      ensures Abs() == ReadInAsWritten(old(Abs()), newPage)
    {
      var e := pageTable[newPage];
      if e.kind == Code || e.kind == InitData {
        machine.mainMemory := machine.mainMemory[e.physicalPage := PageAt(executable, e.inFileAddr)];
      } else if e.kind == UninitData || e.kind == UserStack {
        if e.inFileAddr >= 0 {
          machine.mainMemory := machine.mainMemory[e.physicalPage := PageAt(swapFile, e.inFileAddr)];
          var _ := virtualSpaceMap.Clear(e.inFileAddr / PageSize);
          pageTable[newPage] := pageTable[newPage].(inFileAddr := -1);
        } else {
          machine.mainMemory := machine.mainMemory[e.physicalPage := ZeroPage()];
        }
      }
    }

    /** AddrSpace::InitRegisters. */
    method InitRegisters()
      requires machine.registers.Length == NumTotalRegs
      modifies machine.registers
      ensures machine.registers[..] == AddrSpaceLab7.InitialRegisters(numPages)
    {
      var i := 0;
      while i < NumTotalRegs
        invariant 0 <= i <= NumTotalRegs
        invariant forall r :: 0 <= r < i ==> machine.registers[r] == 0
      {
        machine.registers[i] := 0;
        i := i + 1;
      }
      machine.registers[PCReg] := 0;
      machine.registers[NextPCReg] := 4;
      machine.registers[StackReg] := numPages * PageSize - 16;
    }

    /** AddrSpace::RestoreState. */
    method RestoreState()
      modifies machine
      ensures machine.pageTable == pageTable && machine.pageTableSize == numPages
      ensures machine.mainMemory == old(machine.mainMemory)
    {
      machine.pageTable := pageTable;
      machine.pageTableSize := numPages;
    }
  }
}
