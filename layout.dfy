// Where the segments of a NOFF image land in the virtual address space of
// the lab7 AddrSpace: code pages first, then initialised data, then
// uninitialised data, each starting on a fresh page, and the stack at the
// top. `Translate` maps a faulting address back to a (page, offset) pair
// with the same layout; `LoadedKind` and `LoadedFileAddr` are what
// setUpTranslation and copy2Mem leave in each page's `type` and
// `inFileAddr`.
module Layout {
  import opened CArith
  import opened Machine
  import opened Noff

  function Pages(bytes: int): int
  {
    DivRoundUp(bytes, PageSize)
  }

  lemma PagesBounds(n: int)
    requires n >= 0
    ensures Pages(n) >= 0
    ensures n <= Pages(n) * PageSize < n + PageSize
    ensures Pages(n) == 0 <==> n == 0
  {
    CDivMod(n, PageSize);
  }

  /** Rounding each segment up separately costs at most two pages more than
      rounding their sum, and never less. */
  lemma PagesOfSum(c: int, i: int, u: int)
    requires c >= 0 && i >= 0 && u >= 0
    ensures Pages(c + i + u) <= Pages(c) + Pages(i) + Pages(u) <= Pages(c + i + u) + 2
  {
    PagesBounds(c);
    PagesBounds(i);
    PagesBounds(u);
    PagesBounds(c + i + u);
  }

  function CodePages(h: NoffHeader): int { Pages(h.code.size) }
  function InitDataStart(h: NoffHeader): int { Pages(h.code.size) }
  function InitDataPages(h: NoffHeader): int { Pages(h.initData.size) }
  function UninitDataStart(h: NoffHeader): int { Pages(h.code.size) + Pages(h.initData.size) }
  function UninitDataPages(h: NoffHeader): int { Pages(h.uninitData.size) }

  predicate InCode(h: NoffHeader, p: int)
  {
    h.code.size > 0 && 0 <= p < CodePages(h)
  }

  predicate InInitData(h: NoffHeader, p: int)
  {
    h.initData.size > 0 && InitDataStart(h) <= p < InitDataStart(h) + InitDataPages(h)
  }

  predicate InUninitData(h: NoffHeader, p: int)
  {
    h.uninitData.size > 0 && UninitDataStart(h) <= p < UninitDataStart(h) + UninitDataPages(h)
  }

  /** Every page copy2Mem visits lies inside the page table, six pages below
      its top: the loops of copy2Mem never index past numPages. */
  lemma SegmentPagesFit(h: NoffHeader)
    requires SaneSizes(h)
    ensures 0 <= CodePages(h) && 0 <= InitDataPages(h) && 0 <= UninitDataPages(h)
    ensures UninitDataStart(h) + UninitDataPages(h) <= NumPages(h) - 6
  {
    var total := h.code.size + h.initData.size + h.uninitData.size;
    PagesOfSum(h.code.size, h.initData.size, h.uninitData.size);
    PagesBounds(total);
    NumPagesCovers(h);
    assert (NumPages(h) - 8) * PageSize > (Pages(total) - 1) * PageSize;
  }

  /** The `type` copy2Mem gives page `p`, whose type was `k` before: the
      type of the non-empty segment whose pages contain `p`, else `k`. */
  function SegmentKind(h: NoffHeader, p: int, k: SegKind): SegKind
  {
    if InUninitData(h, p) then UninitData
    else if InInitData(h, p) then InitData
    else if InCode(h, p) then Code
    else k
  }

  /** The `inFileAddr` copy2Mem gives page `p`, whose offset was `a` before:
      the executable offset of the page's first byte for code and
      initialised data, else `a`. */
  function SegmentFileAddr(h: NoffHeader, p: int, a: int): int
  {
    if InInitData(h, p) then h.initData.inFileAddr + (p - InitDataStart(h)) * PageSize
    else if InCode(h, p) then h.code.inFileAddr + p * PageSize
    else a
  }

  /** The first stack page, `numPages - StackPages` computed in `unsigned
      int`: when StackPages exceeds numPages it wraps round and no page is
      stack. */
  function StackStart(numPages: int, stackPages: int): int
  {
    (numPages - stackPages) % WordRange
  }

  /** The `type` setUpTranslation gives page `p`: stack from StackStart on,
      never assigned below. */
  function SetUpKind(numPages: int, stackPages: int, p: int): SegKind
  {
    if p >= StackStart(numPages, stackPages) then UserStack else Unset
  }

  /** The `type` a page has after setUpTranslation and copy2Mem. */
  function LoadedKind(h: NoffHeader, numPages: int, stackPages: int, p: int): SegKind
  {
    SegmentKind(h, p, SetUpKind(numPages, stackPages, p))
  }

  /** The `inFileAddr` a page has after setUpTranslation (-1) and copy2Mem. */
  function LoadedFileAddr(h: NoffHeader, p: int): int
  {
    SegmentFileAddr(h, p, -1)
  }

  /** The three segment page ranges are disjoint, so the order in which
      copy2Mem assigns types does not matter. */
  lemma SegmentRangesDisjoint(h: NoffHeader, p: int)
    requires SaneSizes(h)
    ensures !(InCode(h, p) && InInitData(h, p))
    ensures !(InCode(h, p) && InUninitData(h, p))
    ensures !(InInitData(h, p) && InUninitData(h, p))
  {
  }

  /** With a stack at least UserStackSize bytes long, every page of the
      address space gets a type: the segment pages and the stack pages
      together cover the page table. */
  lemma EveryPageTyped(h: NoffHeader, stackPages: int, p: int)
    requires SaneSizes(h)
    requires stackPages * PageSize >= UserStackSize && stackPages <= NumPages(h)
    requires 0 <= p < NumPages(h)
    ensures LoadedKind(h, NumPages(h), stackPages, p) != Unset
  {
    NumPagesCovers(h);
    assert StackStart(NumPages(h), stackPages) == NumPages(h) - stackPages;
    var total := h.code.size + h.initData.size + h.uninitData.size;
    PagesOfSum(h.code.size, h.initData.size, h.uninitData.size);
    PagesBounds(total);
    PagesBounds(total + UserStackSize);
    PagesBounds(h.code.size);
    PagesBounds(h.initData.size);
    PagesBounds(h.uninitData.size);
    assert TotalSize(h) == total + UserStackSize;
    assert Pages(total + UserStackSize) == Pages(total) + UserStackSize / PageSize;
  }

  /** The initialised data starts in the executable after the last
      PageSize block that copy2Mem reads for the code, so no two of the
      blocks it reads share a byte. */
  predicate FileOrdered(h: NoffHeader)
  {
    h.code.inFileAddr + Pages(h.code.size) * PageSize <= h.initData.inFileAddr
  }

  /** Two distinct code or initialised-data pages start at distinct
      executable offsets, at least a block apart. */
  lemma LoadedFileAddrsDistinct(h: NoffHeader, p: int, q: int)
    requires SaneSizes(h) && FileOrdered(h)
    requires p != q
    requires InCode(h, p) || InInitData(h, p)
    requires InCode(h, q) || InInitData(h, q)
    ensures LoadedFileAddr(h, p) != LoadedFileAddr(h, q)
  {
    PagesBounds(h.code.size);
  }

  /** A NOFF linker puts the initialised data right after the last byte of
      the code. When the code does not fill its last page, the block read
      for that page and the first block of the data then share bytes of
      the executable: writing one back changes the other. */
  lemma ByteOrderedBlocksOverlap(h: NoffHeader)
    requires SaneSizes(h) && h.initData.size > 0
    requires h.initData.inFileAddr == h.code.inFileAddr + h.code.size
    requires h.code.size % PageSize != 0
    ensures InCode(h, CodePages(h) - 1) && InInitData(h, InitDataStart(h))
    ensures LoadedFileAddr(h, CodePages(h) - 1) < LoadedFileAddr(h, InitDataStart(h))
              < LoadedFileAddr(h, CodePages(h) - 1) + PageSize
  {
    PagesBounds(h.code.size);
    PagesBounds(h.initData.size);
  }

  datatype PageOffset = PageOffset(page: int, offset: int)

  /** The stack-range threshold `numPages * PageSize - UserStackSize`,
      computed in `unsigned int` as in the source. */
  function StackThreshold(numPages: int): int
  {
    (numPages * PageSize - UserStackSize) % WordRange
  }

  /** AddrSpace::Translate of lab7: the stack range is checked first, then
      uninitialised data, then initialised data; anything else is code.
      Division and remainder truncate toward zero as in C. */
  function Translate(h: NoffHeader, numPages: int, stackPages: int, addr: int): (r: PageOffset)
    requires 0 <= addr
    ensures var at := r.page * PageSize + r.offset;
            && (addr >= StackThreshold(numPages) ==> at == addr)
            && (addr < StackThreshold(numPages) && h.uninitData.size > 0 && addr >= h.uninitData.virtualAddr
                ==> at == UninitDataStart(h) * PageSize + (addr - h.uninitData.virtualAddr))
            && (addr < StackThreshold(numPages) && !(h.uninitData.size > 0 && addr >= h.uninitData.virtualAddr)
                && h.initData.size > 0 && addr >= h.initData.virtualAddr
                ==> at == InitDataStart(h) * PageSize + (addr - h.initData.virtualAddr))
            && (addr < StackThreshold(numPages) && !(h.uninitData.size > 0 && addr >= h.uninitData.virtualAddr)
                && !(h.initData.size > 0 && addr >= h.initData.virtualAddr)
                ==> at == addr)
  {
    if addr >= StackThreshold(numPages) then
      var userPages := numPages - stackPages;
      var rel := addr - userPages * PageSize;
      CDivMod(rel, PageSize);
      PageOffset(userPages + CDiv(rel, PageSize), CMod(rel, PageSize))
    else if h.uninitData.size > 0 && addr >= h.uninitData.virtualAddr then
      var rel := addr - h.uninitData.virtualAddr;
      CDivMod(rel, PageSize);
      PageOffset(UninitDataStart(h) + CDiv(rel, PageSize), CMod(rel, PageSize))
    else if h.initData.size > 0 && addr >= h.initData.virtualAddr then
      var rel := addr - h.initData.virtualAddr;
      CDivMod(rel, PageSize);
      PageOffset(InitDataStart(h) + CDiv(rel, PageSize), CMod(rel, PageSize))
    else
      CDivMod(addr, PageSize);
      PageOffset(CDiv(addr, PageSize), CMod(addr, PageSize))
  }

  /** The offset is always less than a page in magnitude; it is never
      negative outside the stack branch, nor inside it when the stack
      spans at least UserStackSize bytes. */
  lemma TranslateOffsetBounds(h: NoffHeader, numPages: int, stackPages: int, addr: int)
    requires 0 <= addr < numPages * PageSize
    requires UserStackSize <= numPages * PageSize && numPages <= NumPhysPages
    ensures var r := Translate(h, numPages, stackPages, addr);
            -PageSize < r.offset < PageSize
            && (stackPages * PageSize >= UserStackSize ==> 0 <= r.offset)
  {
    var userPages := numPages - stackPages;
    CDivMod(addr - userPages * PageSize, PageSize);
    CDivMod(addr - h.uninitData.virtualAddr, PageSize);
    CDivMod(addr - h.initData.virtualAddr, PageSize);
    CDivMod(addr, PageSize);
    assert StackThreshold(numPages) == numPages * PageSize - UserStackSize;
  }

  /** In the stack branch, with a stack of at least UserStackSize bytes, the
      page is simply `addr / PageSize` and lies among the top
      UserStackSize / PageSize pages; when the stack is exactly
      UserStackSize bytes those are the stack pages. */
  lemma TranslateStack(h: NoffHeader, numPages: int, stackPages: int, addr: int)
    requires numPages * PageSize - UserStackSize <= addr < numPages * PageSize
    requires UserStackSize <= numPages * PageSize && numPages <= NumPhysPages
    requires stackPages * PageSize >= UserStackSize
    ensures var r := Translate(h, numPages, stackPages, addr);
            && r == PageOffset(addr / PageSize, addr % PageSize)
            && numPages - UserStackSize / PageSize <= r.page < numPages
            && (stackPages * PageSize == UserStackSize ==> numPages - stackPages <= r.page)
  {
    var userPages := numPages - stackPages;
    var rel := addr - userPages * PageSize;
    assert StackThreshold(numPages) == numPages * PageSize - UserStackSize;
    assert rel >= 0;
    assert rel / PageSize == addr / PageSize - userPages;
  }

  /** With fewer stack pages than UserStackSize bytes require, the stack
      branch yields a negative offset for some address. */
  lemma TranslateShortStackNegativeOffset(h: NoffHeader)
    ensures Translate(h, 10, 7, 257).offset == -127
  {
    assert StackThreshold(10) == 256;
  }

  /** Segments laid out as the linker places them: code at address 0 and
      each later segment above the end of the earlier ones. */
  predicate OrderedLayout(h: NoffHeader)
  {
    && h.code.virtualAddr == 0
    && (h.initData.size > 0 ==> h.code.size <= h.initData.virtualAddr)
    && (h.uninitData.size > 0 ==> h.code.size <= h.uninitData.virtualAddr)
    && ((h.uninitData.size > 0 && h.initData.size > 0)
        ==> h.initData.virtualAddr + h.initData.size <= h.uninitData.virtualAddr)
  }

  /** Translator consistency: an address inside the code segment (and below
      the stack range) translates to a code page, at the offset where
      copy2Mem placed that byte of the executable. */
  lemma TranslateCode(h: NoffHeader, numPages: int, stackPages: int, addr: int)
    requires SaneSizes(h) && OrderedLayout(h)
    requires 0 <= addr < h.code.size
    requires addr < StackThreshold(numPages)
    ensures var r := Translate(h, numPages, stackPages, addr);
            && LoadedKind(h, numPages, stackPages, r.page) == Code
            && r.page * PageSize + r.offset == addr
            && LoadedFileAddr(h, r.page) + r.offset == h.code.inFileAddr + addr
  {
    PagesBounds(h.code.size);
    SegmentRangesDisjoint(h, addr / PageSize);
  }

  /** Translator consistency for initialised data: the page is an
      initialised-data page and its file offset plus the in-page offset is
      the byte's offset in the executable. */
  lemma TranslateInitData(h: NoffHeader, numPages: int, stackPages: int, addr: int)
    requires SaneSizes(h) && OrderedLayout(h)
    requires h.initData.virtualAddr <= addr < h.initData.virtualAddr + h.initData.size
    requires addr < StackThreshold(numPages)
    ensures var r := Translate(h, numPages, stackPages, addr);
            && LoadedKind(h, numPages, stackPages, r.page) == InitData
            && (r.page - InitDataStart(h)) * PageSize + r.offset == addr - h.initData.virtualAddr
            && LoadedFileAddr(h, r.page) + r.offset
               == h.initData.inFileAddr + (addr - h.initData.virtualAddr)
  {
    var rel := addr - h.initData.virtualAddr;
    PagesBounds(h.initData.size);
    var page := InitDataStart(h) + rel / PageSize;
    assert InInitData(h, page);
    SegmentRangesDisjoint(h, page);
  }

  /** Translator consistency for uninitialised data: the page is an
      uninitialised-data page at the byte's distance from the segment
      start. */
  lemma TranslateUninitData(h: NoffHeader, numPages: int, stackPages: int, addr: int)
    requires SaneSizes(h) && OrderedLayout(h)
    requires h.uninitData.virtualAddr <= addr < h.uninitData.virtualAddr + h.uninitData.size
    requires addr < StackThreshold(numPages)
    ensures var r := Translate(h, numPages, stackPages, addr);
            && LoadedKind(h, numPages, stackPages, r.page) == UninitData
            && (r.page - UninitDataStart(h)) * PageSize + r.offset == addr - h.uninitData.virtualAddr
  {
    var rel := addr - h.uninitData.virtualAddr;
    PagesBounds(h.uninitData.size);
    var page := UninitDataStart(h) + rel / PageSize;
    assert InUninitData(h, page);
  }

  /** The address space is sized from the byte total but the segments are
      laid out page by page, so the stack range can reach down into segment
      pages: with one byte in each segment there are nine pages, and stack
      address 128 translates to page 1, the initialised-data page. */
  lemma StackRangeOverlapsInitData()
    ensures var h := NoffHeader(NOFFMAGIC, Segment(0, 40, 1), Segment(1, 41, 1), Segment(2, 0, 1));
            && NumPages(h) == 9
            && Translate(h, 9, 8, 128) == PageOffset(1, 0)
            && LoadedKind(h, 9, 8, 1) == InitData
  {
    var h := NoffHeader(NOFFMAGIC, Segment(0, 40, 1), Segment(1, 41, 1), Segment(2, 0, 1));
    assert TotalSize(h) == 1027;
    assert StackThreshold(9) == 128;
  }
}
