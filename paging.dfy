// The eviction cycle of AddrSpace (Swap -> WriteBack -> ReadIn) as
// functions on the state it reads and writes: the page table, main memory
// (frame -> page), the executable and the swap file (byte offset -> page)
// and the swap-slot bitmap. Both variants of the class run exactly this
// cycle; their methods are proved equal to these functions, and the
// invariants the cycle keeps are proved here once.
module Paging {
  import opened Machine
  import opened BitMaps

  datatype Vm = Vm(
    pt: seq<TranslationEntry>,
    mem: map<int, Page>,
    exec: map<int, Page>,
    swap: map<int, Page>,
    slots: seq<bool>)

  /** The bytes in the frame of page `p`. */
  function Frame(v: Vm, p: int): Page
    requires 0 <= p < |v.pt|
  {
    PageAt(v.mem, v.pt[p].physicalPage)
  }

  /** A stack or uninitialised-data page whose copy sits in a swap slot. */
  predicate HoldsSlot(e: TranslationEntry)
  {
    IsSwapBacked(e.kind) && e.inFileAddr >= 0
  }

  /** Where the copy of page `p` lives while it is not resident: the
      executable for code and initialised data, the swap file once a
      stack or uninitialised-data page has been written out, and nowhere
      (all zeros) before that. */
  function Backing(v: Vm, p: int): Page
    requires 0 <= p < |v.pt|
  {
    var e := v.pt[p];
    if IsFileBacked(e.kind) then PageAt(v.exec, e.inFileAddr)
    else if HoldsSlot(e) then PageAt(v.swap, e.inFileAddr)
    else ZeroPage()
  }

  /** What the program sees at virtual page `p`. */
  function Content(v: Vm, p: int): Page
    requires 0 <= p < |v.pt|
  {
    if v.pt[p].valid then Frame(v, p) else Backing(v, p)
  }

  function SlotHolders(pt: seq<TranslationEntry>): (h: seq<bool>)
    ensures |h| == |pt|
    ensures forall i :: 0 <= i < |pt| ==> h[i] == HoldsSlot(pt[i])
  {
    seq(|pt|, i requires 0 <= i < |pt| => HoldsSlot(pt[i]))
  }

  lemma SlotHoldersUpdate(pt: seq<TranslationEntry>, i: int, e: TranslationEntry)
    requires 0 <= i < |pt|
    ensures SlotHolders(pt[i := e]) == SlotHolders(pt)[i := HoldsSlot(e)]
  {
  }

  /** AddrSpace::WriteBack: a clean page is left alone; a dirty code or
      initialised-data page is written to the executable at its
      `inFileAddr`; a dirty stack or uninitialised-data page is written to
      the swap slot `Find()` returns (the result is not checked) and
      remembers its offset; `dirty` ends up false. */
  function WriteBack(v: Vm, p: int): (r: Vm)
    requires 0 <= p < |v.pt|
    ensures |r.pt| == |v.pt| && r.mem == v.mem
    ensures forall q :: 0 <= q < |v.pt| && q != p ==> r.pt[q] == v.pt[q]
    ensures !v.pt[p].dirty ==> r == v
    ensures !r.pt[p].dirty
    ensures r.pt[p].physicalPage == v.pt[p].physicalPage && r.pt[p].valid == v.pt[p].valid
    ensures r.pt[p].kind == v.pt[p].kind && r.pt[p].virtualPage == v.pt[p].virtualPage
    ensures v.pt[p].dirty && IsFileBacked(v.pt[p].kind) ==> Backing(r, p) == Frame(v, p)
    ensures (v.pt[p].dirty && IsSwapBacked(v.pt[p].kind) && FirstClear(v.slots) >= 0)
            ==> Backing(r, p) == Frame(v, p)
  {
    var e := v.pt[p];
    if !e.dirty then v
    else if IsFileBacked(e.kind) then
      v.(pt := v.pt[p := e.(dirty := false)], exec := v.exec[e.inFileAddr := Frame(v, p)])
    else if IsSwapBacked(e.kind) then
      var slot := FirstClear(v.slots);
      var addr := slot * PageSize;
      v.(pt := v.pt[p := e.(inFileAddr := addr, dirty := false)],
         swap := v.swap[addr := Frame(v, p)],
         slots := if slot >= 0 then v.slots[slot := true] else v.slots)
    else
      v.(pt := v.pt[p := e.(dirty := false)])
  }

  /** The frame hand-over in the middle of AddrSpace::Swap, statement by
      statement: the new page takes the old page's frame, the old page
      loses it and becomes invalid, the new page becomes valid, used and
      clean. */
  function Transfer(pt: seq<TranslationEntry>, oldPage: int, newPage: int): (r: seq<TranslationEntry>)
    requires 0 <= oldPage < |pt| && 0 <= newPage < |pt|
    ensures |r| == |pt|
  {
    var pt1 := pt[newPage := pt[newPage].(physicalPage := pt[oldPage].physicalPage)];
    var pt2 := pt1[oldPage := pt1[oldPage].(physicalPage := -1, valid := false)];
    pt2[newPage := pt2[newPage].(valid := true, use := true, dirty := false)]
  }

  /** For two distinct pages the hand-over moves the frame and changes no
      other entry, nor any field but the frame, `valid`, `use` and `dirty`. */
  lemma TransferMovesFrame(pt: seq<TranslationEntry>, oldPage: int, newPage: int)
    requires 0 <= oldPage < |pt| && 0 <= newPage < |pt| && oldPage != newPage
    ensures var r := Transfer(pt, oldPage, newPage);
            && r[newPage] == pt[newPage].(physicalPage := pt[oldPage].physicalPage,
                                          valid := true, use := true, dirty := false)
            && r[oldPage] == pt[oldPage].(physicalPage := -1, valid := false)
            && forall q :: 0 <= q < |pt| && q != oldPage && q != newPage ==> r[q] == pt[q]
  {
  }

  /** Swapping a page for itself, as the code allows, leaves it valid
      without a frame. */
  lemma TransferSamePageLosesFrame(pt: seq<TranslationEntry>, p: int)
    requires 0 <= p < |pt|
    ensures Transfer(pt, p, p)[p].valid && Transfer(pt, p, p)[p].physicalPage == -1
  {
  }

  /** AddrSpace::ReadIn: code and initialised data are read from the
      executable; a stack or uninitialised-data page is read from its swap
      slot, which is then released, or zero-filled when it has never been
      written out. A page read back from swap is marked dirty, because its
      only copy is now in memory (the source leaves it clean). */
  function ReadIn(v: Vm, p: int): (r: Vm)
    requires 0 <= p < |v.pt|
    ensures |r.pt| == |v.pt| && r.exec == v.exec && r.swap == v.swap
    ensures forall q :: 0 <= q < |v.pt| && q != p ==> r.pt[q] == v.pt[q]
    ensures r.pt[p].physicalPage == v.pt[p].physicalPage && r.pt[p].valid == v.pt[p].valid
    ensures r.pt[p].kind == v.pt[p].kind && r.pt[p].virtualPage == v.pt[p].virtualPage
    ensures r.pt[p].use == v.pt[p].use && !HoldsSlot(r.pt[p])
    ensures v.pt[p].kind != Unset ==> Frame(r, p) == Backing(v, p)
    ensures forall f :: f != v.pt[p].physicalPage ==> PageAt(r.mem, f) == PageAt(v.mem, f)
    ensures (HoldsSlot(v.pt[p]) && v.pt[p].inFileAddr / PageSize < |v.slots|)
            ==> r.slots == v.slots[v.pt[p].inFileAddr / PageSize := false] && r.pt[p].dirty
    ensures !HoldsSlot(v.pt[p]) ==> r.slots == v.slots && r.pt == v.pt
  {
    var e := v.pt[p];
    var f := e.physicalPage;
    if IsFileBacked(e.kind) then
      v.(mem := v.mem[f := PageAt(v.exec, e.inFileAddr)])
    else if IsSwapBacked(e.kind) then
      if e.inFileAddr >= 0 then
        var slot := e.inFileAddr / PageSize;
        v.(mem := v.mem[f := PageAt(v.swap, e.inFileAddr)],
           slots := if slot < |v.slots| then v.slots[slot := false] else v.slots,
           pt := v.pt[p := e.(inFileAddr := -1, dirty := true)])
      else
        v.(mem := v.mem[f := ZeroPage()])
    else
      v
  }

  /** The state in the middle of AddrSpace::Swap: the old page written
      back and its frame handed to the new page, which is not read in yet. */
  function Handover(v: Vm, oldPage: int, newPage: int): (r: Vm)
    requires 0 <= oldPage < |v.pt| && 0 <= newPage < |v.pt|
    ensures |r.pt| == |v.pt| && r.mem == v.mem
  {
    var w := WriteBack(v, oldPage);
    w.(pt := Transfer(w.pt, oldPage, newPage))
  }

  /** AddrSpace::Swap(oldPage, newPage). */
  function Swap(v: Vm, oldPage: int, newPage: int): (r: Vm)
    requires 0 <= oldPage < |v.pt| && 0 <= newPage < |v.pt|
    ensures |r.pt| == |v.pt|
    ensures oldPage != newPage ==>
              && !r.pt[oldPage].valid && r.pt[oldPage].physicalPage == -1
              && r.pt[newPage].valid && r.pt[newPage].physicalPage == v.pt[oldPage].physicalPage
  {
    ReadIn(Handover(v, oldPage, newPage), newPage)
  }

  /** A swap between two distinct pages changes only their two entries,
      and only the bytes of the frame that is handed over. */
  lemma SwapMovesFrame(v: Vm, oldPage: int, newPage: int)
    requires 0 <= oldPage < |v.pt| && 0 <= newPage < |v.pt| && oldPage != newPage
    ensures var r := Swap(v, oldPage, newPage);
            && (forall q :: 0 <= q < |v.pt| && q != oldPage && q != newPage ==> r.pt[q] == v.pt[q])
            && (forall f :: f != v.pt[oldPage].physicalPage ==> PageAt(r.mem, f) == PageAt(v.mem, f))
  {
    var w := WriteBack(v, oldPage);
    TransferMovesFrame(w.pt, oldPage, newPage);
  }

  // ---------------------------------------------------------------------
  // Invariants of the page table and the swap slots

  /** Entry i describes virtual page i. */
  ghost predicate Indexed(pt: seq<TranslationEntry>)
  {
    forall i :: 0 <= i < |pt| ==> pt[i].virtualPage == i
  }

  /** The frame an entry names. */
  function FrameNo(e: TranslationEntry): int
  {
    e.physicalPage
  }

  /** The swap slot an entry's offset names. */
  function SlotNo(e: TranslationEntry): int
  {
    e.inFileAddr / PageSize
  }

  /** A resident page owns a frame of main memory that no other resident
      page owns; a page that is not resident owns none (-1). */
  ghost predicate FramesOwned(pt: seq<TranslationEntry>)
  {
    && (forall i :: 0 <= i < |pt| && pt[i].valid ==> 0 <= pt[i].physicalPage < NumPhysPages)
    && (forall i :: 0 <= i < |pt| && !pt[i].valid ==> pt[i].physicalPage == -1)
    && (forall i, j {:trigger FrameNo(pt[i]), FrameNo(pt[j])}
          :: (0 <= i < |pt| && 0 <= j < |pt| && i != j && pt[i].valid && pt[j].valid
              ==> FrameNo(pt[i]) != FrameNo(pt[j])))
  }

  /** Only a resident page can have been written since it was loaded. */
  ghost predicate DirtyOnlyResident(pt: seq<TranslationEntry>)
  {
    forall i :: 0 <= i < |pt| && pt[i].dirty ==> pt[i].valid
  }

  /** A resident stack or uninitialised-data page holds no swap slot (ReadIn
      released it), except possibly page `except`. */
  ghost predicate ResidentUnslotted(pt: seq<TranslationEntry>, except: int)
  {
    forall i :: 0 <= i < |pt| && i != except && pt[i].valid && IsSwapBacked(pt[i].kind)
      ==> pt[i].inFileAddr < 0
  }

  /** Every slot holder's offset is a page-aligned slot of the swap file
      that the slot bitmap marks taken, no two holders share a slot, and
      the bitmap marks exactly as many slots as there are holders. */
  ghost predicate SlotsConsistent(pt: seq<TranslationEntry>, slots: seq<bool>)
  {
    && |slots| == |pt|
    && (forall i :: 0 <= i < |pt| && HoldsSlot(pt[i])
          ==> && pt[i].inFileAddr % PageSize == 0
              && pt[i].inFileAddr / PageSize < |slots|
              && slots[pt[i].inFileAddr / PageSize])
    && (forall i, j {:trigger SlotNo(pt[i]), SlotNo(pt[j])}
          :: (0 <= i < |pt| && 0 <= j < |pt| && i != j && HoldsSlot(pt[i]) && HoldsSlot(pt[j])
              ==> SlotNo(pt[i]) != SlotNo(pt[j])))
    && CountSet(slots) == CountSet(SlotHolders(pt))
  }

  /** The bookkeeping every AddrSpace keeps between faults. */
  ghost predicate Structural(v: Vm)
  {
    && Indexed(v.pt)
    && FramesOwned(v.pt)
    && DirtyOnlyResident(v.pt)
    && ResidentUnslotted(v.pt, -1)
    && SlotsConsistent(v.pt, v.slots)
  }

  /** Every page has a kind. */
  ghost predicate Typed(pt: seq<TranslationEntry>)
  {
    forall i :: 0 <= i < |pt| ==> pt[i].kind != Unset
  }

  /** No two code or initialised-data pages are backed by the same offset of
      the executable. */
  ghost predicate FileAddrsDistinct(pt: seq<TranslationEntry>)
  {
    forall i, j :: 0 <= i < |pt| && 0 <= j < |pt| && i != j
                   && IsFileBacked(pt[i].kind) && IsFileBacked(pt[j].kind)
      ==> pt[i].inFileAddr != pt[j].inFileAddr
  }

  /** A resident page not written since it was loaded equals its backing
      copy (page `except` aside). */
  ghost predicate CleanBackedExcept(v: Vm, except: int)
  {
    forall i :: 0 <= i < |v.pt| && i != except && v.pt[i].valid && !v.pt[i].dirty
      ==> Frame(v, i) == Backing(v, i)
  }

  ghost predicate CleanBacked(v: Vm)
  {
    CleanBackedExcept(v, -1)
  }

  /** What makes `Content` the program's memory: a page is either in its
      frame or, unchanged, in its backing copy. */
  ghost predicate Coherent(v: Vm)
  {
    Typed(v.pt) && FileAddrsDistinct(v.pt) && CleanBacked(v)
  }

  /** The set of frames owned by resident pages. */
  function ResidentFrames(pt: seq<TranslationEntry>): set<int>
  {
    set i | 0 <= i < |pt| && pt[i].valid :: pt[i].physicalPage
  }

  // ---------------------------------------------------------------------
  // The eviction cycle keeps the bookkeeping

  lemma CountSetBelowLength(bits: seq<bool>, i: int)
    requires 0 <= i < |bits| && !bits[i]
    ensures CountSet(bits) < |bits|
  {
    CountSetUpdate(bits, i, true);
  }

  /** A resident stack or uninitialised-data page can always be given a swap
      slot: it holds none, so fewer slots are taken than there are pages. */
  lemma SlotAvailable(v: Vm, p: int)
    requires Structural(v) && 0 <= p < |v.pt| && v.pt[p].valid
    ensures FirstClear(v.slots) >= 0
  {
    var h := SlotHolders(v.pt);
    if IsSwapBacked(v.pt[p].kind) {
      assert !h[p];
    }
    CountSetBelowLength(h, p);
    NotFullHasClear(v.slots);
  }

  lemma WriteBackKeepsStructure(v: Vm, p: int)
    requires Structural(v) && 0 <= p < |v.pt| && v.pt[p].valid
    ensures var w := WriteBack(v, p);
            && Indexed(w.pt) && FramesOwned(w.pt) && DirtyOnlyResident(w.pt)
            && ResidentUnslotted(w.pt, p) && SlotsConsistent(w.pt, w.slots)
  {
    if v.pt[p].dirty && IsSwapBacked(v.pt[p].kind) {
      WriteBackToSwapKeepsStructure(v, p);
    } else if v.pt[p].dirty {
      var w := WriteBack(v, p);
      assert w.slots == v.slots;
      assert w.pt == v.pt[p := v.pt[p].(dirty := false)];
      FramesAgree(v.pt, w.pt);
      SlotHoldersUpdate(v.pt, p, w.pt[p]);
      assert SlotHolders(v.pt)[p := HoldsSlot(w.pt[p])] == SlotHolders(v.pt);
    }
  }

  lemma WriteBackToSwapKeepsStructure(v: Vm, p: int)
    requires Structural(v) && 0 <= p < |v.pt| && v.pt[p].valid
    requires v.pt[p].dirty && IsSwapBacked(v.pt[p].kind)
    ensures var w := WriteBack(v, p);
            && Indexed(w.pt) && FramesOwned(w.pt) && DirtyOnlyResident(w.pt)
            && ResidentUnslotted(w.pt, p) && SlotsConsistent(w.pt, w.slots)
  {
    var w := WriteBack(v, p);
    FramesAgree(v.pt, w.pt);
    SlotAvailable(v, p);
    WriteBackTakesSlot(v, p);
  }

  lemma WriteBackTakesSlot(v: Vm, p: int)
    requires 0 <= p < |v.pt| && SlotsConsistent(v.pt, v.slots) && !HoldsSlot(v.pt[p])
    requires v.pt[p].dirty && IsSwapBacked(v.pt[p].kind) && FirstClear(v.slots) >= 0
    ensures SlotsConsistent(WriteBack(v, p).pt, WriteBack(v, p).slots)
  {
    var w := WriteBack(v, p);
    var s := FirstClear(v.slots);
    var e' := v.pt[p].(inFileAddr := s * PageSize, dirty := false);
    assert w.slots == v.slots[s := true];
    assert w.pt == v.pt[p := e'];
    assert (s * PageSize) / PageSize == s && (s * PageSize) % PageSize == 0;
    SlotHoldersUpdate(v.pt, p, e');
    CountSetUpdate(v.slots, s, true);
    CountSetUpdate(SlotHolders(v.pt), p, true);
    forall i | 0 <= i < |w.pt| && i != p && HoldsSlot(w.pt[i])
      ensures w.pt[i].inFileAddr / PageSize != s
    {
      assert v.slots[v.pt[i].inFileAddr / PageSize];
    }
  }

  /** Entries that agree on residence and frames own the same frames. */
  lemma FramesAgree(pt: seq<TranslationEntry>, pt': seq<TranslationEntry>)
    requires |pt'| == |pt|
    requires forall i :: 0 <= i < |pt| ==> pt'[i].valid == pt[i].valid && pt'[i].physicalPage == pt[i].physicalPage
    ensures FramesOwned(pt) ==> FramesOwned(pt')
    ensures ResidentFrames(pt') == ResidentFrames(pt)
  {
    forall f | f in ResidentFrames(pt) ensures f in ResidentFrames(pt') {
      var i :| 0 <= i < |pt| && pt[i].valid && pt[i].physicalPage == f;
      assert pt'[i].valid && pt'[i].physicalPage == f;
    }
    if FramesOwned(pt) {
      forall i, j | 0 <= i < |pt'| && 0 <= j < |pt'| && i != j && pt'[i].valid && pt'[j].valid
        ensures FrameNo(pt'[i]) != FrameNo(pt'[j])
      {
        assert FrameNo(pt[i]) != FrameNo(pt[j]);
      }
    }
  }

  /** Entries that agree on which hold a slot, and at which offset, keep the
      slot bookkeeping. */
  lemma SlotsAgree(pt: seq<TranslationEntry>, pt': seq<TranslationEntry>, slots: seq<bool>)
    requires |pt'| == |pt| && SlotsConsistent(pt, slots)
    requires forall i :: 0 <= i < |pt| ==> HoldsSlot(pt'[i]) == HoldsSlot(pt[i])
    requires forall i :: 0 <= i < |pt| && HoldsSlot(pt[i]) ==> pt'[i].inFileAddr == pt[i].inFileAddr
    ensures SlotsConsistent(pt', slots)
  {
    assert SlotHolders(pt') == SlotHolders(pt);
    forall i, j | 0 <= i < |pt'| && 0 <= j < |pt'| && i != j && HoldsSlot(pt'[i]) && HoldsSlot(pt'[j])
      ensures SlotNo(pt'[i]) != SlotNo(pt'[j])
    {
      assert SlotNo(pt[i]) != SlotNo(pt[j]);
    }
  }

  /** No other resident page shares the frame of resident page `p`. */
  lemma FrameUnshared(pt: seq<TranslationEntry>, p: int)
    requires FramesOwned(pt) && 0 <= p < |pt| && pt[p].valid
    ensures forall q :: 0 <= q < |pt| && q != p && pt[q].valid ==> pt[q].physicalPage != pt[p].physicalPage
  {
    forall q | 0 <= q < |pt| && q != p && pt[q].valid
      ensures pt[q].physicalPage != pt[p].physicalPage
    {
      assert FrameNo(pt[q]) != FrameNo(pt[p]);
    }
  }

  /** No other slot holder shares the slot of holder `p`. */
  lemma SlotUnshared(pt: seq<TranslationEntry>, slots: seq<bool>, p: int)
    requires SlotsConsistent(pt, slots) && 0 <= p < |pt| && HoldsSlot(pt[p])
    ensures forall q :: 0 <= q < |pt| && q != p && HoldsSlot(pt[q]) ==> SlotNo(pt[q]) != SlotNo(pt[p])
  {
  }

  lemma TransferKeepsStructure(pt: seq<TranslationEntry>, slots: seq<bool>, oldPage: int, newPage: int)
    requires 0 <= oldPage < |pt| && 0 <= newPage < |pt| && oldPage != newPage
    requires pt[oldPage].valid && !pt[oldPage].dirty && !pt[newPage].valid
    requires Indexed(pt) && FramesOwned(pt) && DirtyOnlyResident(pt)
    requires ResidentUnslotted(pt, oldPage) && SlotsConsistent(pt, slots)
    ensures var u := Transfer(pt, oldPage, newPage);
            && Indexed(u) && FramesOwned(u) && DirtyOnlyResident(u)
            && ResidentUnslotted(u, newPage) && SlotsConsistent(u, slots)
            && ResidentFrames(u) == ResidentFrames(pt)
  {
    var u := Transfer(pt, oldPage, newPage);
    TransferMovesFrame(pt, oldPage, newPage);
    SlotsAgree(pt, u, slots);
    TransferFrames(pt, oldPage, newPage);
  }

  lemma TransferFrames(pt: seq<TranslationEntry>, oldPage: int, newPage: int)
    requires 0 <= oldPage < |pt| && 0 <= newPage < |pt| && oldPage != newPage
    requires pt[oldPage].valid && !pt[newPage].valid && FramesOwned(pt)
    ensures FramesOwned(Transfer(pt, oldPage, newPage))
    ensures ResidentFrames(Transfer(pt, oldPage, newPage)) == ResidentFrames(pt)
  {
    var u := Transfer(pt, oldPage, newPage);
    TransferMovesFrame(pt, oldPage, newPage);
    FrameUnshared(pt, oldPage);
    forall i, j | 0 <= i < |u| && 0 <= j < |u| && i != j && u[i].valid && u[j].valid
      ensures FrameNo(u[i]) != FrameNo(u[j])
    {
      if i != newPage && j != newPage {
        assert FrameNo(pt[i]) != FrameNo(pt[j]);
      }
    }
    forall f | f in ResidentFrames(pt) ensures f in ResidentFrames(u) {
      var i :| 0 <= i < |pt| && pt[i].valid && pt[i].physicalPage == f;
      if i == oldPage {
        assert u[newPage].valid && u[newPage].physicalPage == f;
      } else {
        assert u[i].valid && u[i].physicalPage == f;
      }
    }
    forall f | f in ResidentFrames(u) ensures f in ResidentFrames(pt) {
      var i :| 0 <= i < |u| && u[i].valid && u[i].physicalPage == f;
      if i == newPage {
        assert pt[oldPage].valid && pt[oldPage].physicalPage == f;
      } else {
        assert pt[i].valid && pt[i].physicalPage == f;
      }
    }
  }

  lemma ReadInKeepsStructure(u: Vm, p: int)
    requires 0 <= p < |u.pt| && u.pt[p].valid
    requires Indexed(u.pt) && FramesOwned(u.pt) && DirtyOnlyResident(u.pt)
    requires ResidentUnslotted(u.pt, p) && SlotsConsistent(u.pt, u.slots)
    ensures Structural(ReadIn(u, p))
    ensures ResidentFrames(ReadIn(u, p).pt) == ResidentFrames(u.pt)
  {
    var r := ReadIn(u, p);
    FramesAgree(u.pt, r.pt);
    if HoldsSlot(u.pt[p]) {
      ReadInReleasesSlot(u, p);
    }
  }

  lemma ReadInReleasesSlot(u: Vm, p: int)
    requires 0 <= p < |u.pt| && HoldsSlot(u.pt[p]) && SlotsConsistent(u.pt, u.slots)
    ensures SlotsConsistent(ReadIn(u, p).pt, ReadIn(u, p).slots)
  {
    var r := ReadIn(u, p);
    var t := u.pt[p].inFileAddr / PageSize;
    assert r.pt == u.pt[p := r.pt[p]];
    SlotHoldersUpdate(u.pt, p, r.pt[p]);
    CountSetUpdate(u.slots, t, false);
    CountSetUpdate(SlotHolders(u.pt), p, false);
    SlotUnshared(u.pt, u.slots, p);
    forall i | 0 <= i < |r.pt| && i != p && HoldsSlot(r.pt[i])
      ensures r.pt[i].inFileAddr / PageSize != t
    {
      assert SlotNo(u.pt[i]) != SlotNo(u.pt[p]);
    }
  }

  /** The eviction cycle keeps the bookkeeping and the set of frames the
      address space owns: the new page inherits the old page's frame. */
  lemma SwapKeepsStructure(v: Vm, oldPage: int, newPage: int)
    requires Structural(v)
    requires 0 <= oldPage < |v.pt| && 0 <= newPage < |v.pt| && oldPage != newPage
    requires v.pt[oldPage].valid && !v.pt[newPage].valid
    ensures var r := Swap(v, oldPage, newPage);
            && Structural(r)
            && ResidentFrames(r.pt) == ResidentFrames(v.pt)
            && r.pt[newPage].valid && r.pt[newPage].physicalPage == v.pt[oldPage].physicalPage
            && !r.pt[oldPage].valid
            && forall q :: 0 <= q < |v.pt| && q != oldPage && q != newPage ==> r.pt[q].valid == v.pt[q].valid
  {
    var w := WriteBack(v, oldPage);
    WriteBackKeepsStructure(v, oldPage);
    FramesAgree(v.pt, w.pt);
    TransferKeepsStructure(w.pt, w.slots, oldPage, newPage);
    TransferMovesFrame(w.pt, oldPage, newPage);
    ReadInKeepsStructure(Handover(v, oldPage, newPage), newPage);
  }

  // ---------------------------------------------------------------------
  // The eviction cycle keeps what the program sees

  /** Writing a page back touches no other page's backing copy. */
  lemma WriteBackKeepsOtherBackings(v: Vm, p: int)
    requires Structural(v) && FileAddrsDistinct(v.pt) && 0 <= p < |v.pt| && v.pt[p].valid
    ensures forall q :: 0 <= q < |v.pt| && q != p ==> Backing(WriteBack(v, p), q) == Backing(v, q)
  {
    var w := WriteBack(v, p);
    if v.pt[p].dirty && IsSwapBacked(v.pt[p].kind) {
      SlotAvailable(v, p);
      var s := FirstClear(v.slots);
      assert w.swap == v.swap[s * PageSize := Frame(v, p)] && w.exec == v.exec;
      forall q | 0 <= q < |v.pt| && q != p
        ensures Backing(w, q) == Backing(v, q)
      {
        assert w.pt[q] == v.pt[q];
        if HoldsSlot(v.pt[q]) {
          var a := v.pt[q].inFileAddr;
          assert v.slots[a / PageSize];
          assert a / PageSize != s;
          assert a == (a / PageSize) * PageSize;
          assert a != s * PageSize;
        }
      }
    }
  }

  /** WriteBack changes nothing the program sees, leaves the page clean and
      its backing copy equal to its frame, and keeps the page table coherent. */
  lemma WriteBackKeepsContent(v: Vm, p: int)
    requires Structural(v) && Coherent(v) && 0 <= p < |v.pt| && v.pt[p].valid
    ensures var w := WriteBack(v, p);
            && Coherent(w)
            && Backing(w, p) == Frame(v, p)
            && forall q :: 0 <= q < |v.pt| ==> Content(w, q) == Content(v, q)
  {
    var w := WriteBack(v, p);
    WriteBackKeepsOtherBackings(v, p);
    if v.pt[p].dirty && IsSwapBacked(v.pt[p].kind) {
      SlotAvailable(v, p);
    }
    assert FileAddrsDistinct(w.pt) by {
      forall i | 0 <= i < |w.pt| && IsFileBacked(w.pt[i].kind)
        ensures w.pt[i].inFileAddr == v.pt[i].inFileAddr
      {
      }
    }
  }

  lemma TransferKeepsContent(w: Vm, oldPage: int, newPage: int)
    requires 0 <= oldPage < |w.pt| && 0 <= newPage < |w.pt| && oldPage != newPage
    requires w.pt[oldPage].valid && !w.pt[oldPage].dirty && !w.pt[newPage].valid
    requires Coherent(w)
    ensures var u := w.(pt := Transfer(w.pt, oldPage, newPage));
            && Typed(u.pt) && FileAddrsDistinct(u.pt) && CleanBackedExcept(u, newPage)
            && Backing(u, newPage) == Content(w, newPage)
            && forall q :: 0 <= q < |w.pt| && q != newPage ==> Content(u, q) == Content(w, q)
  {
    TransferMovesFrame(w.pt, oldPage, newPage);
  }

  lemma ReadInKeepsContent(u: Vm, p: int)
    requires 0 <= p < |u.pt| && u.pt[p].valid
    requires FramesOwned(u.pt) && ResidentUnslotted(u.pt, p)
    requires Typed(u.pt) && FileAddrsDistinct(u.pt) && CleanBackedExcept(u, p)
    ensures var r := ReadIn(u, p);
            && Coherent(r)
            && Content(r, p) == Backing(u, p)
            && forall q :: 0 <= q < |u.pt| && q != p ==> Content(r, q) == Content(u, q)
  {
    var r := ReadIn(u, p);
    assert forall q :: 0 <= q < |u.pt| && q != p ==> Backing(r, q) == Backing(u, q);
    FrameUnshared(u.pt, p);
    assert forall q :: 0 <= q < |u.pt| && q != p && u.pt[q].valid ==> Frame(r, q) == Frame(u, q);
    assert FileAddrsDistinct(r.pt) by {
      forall i | 0 <= i < |r.pt| && IsFileBacked(r.pt[i].kind)
        ensures r.pt[i].inFileAddr == u.pt[i].inFileAddr
      {
      }
    }
    if !HoldsSlot(u.pt[p]) {
      assert Backing(r, p) == Backing(u, p);
    }
  }

  /** The main property of the eviction cycle: in a coherent address space
      the program sees the same bytes at every page after a swap as before,
      and the address space stays coherent. */
  lemma SwapKeepsContent(v: Vm, oldPage: int, newPage: int)
    requires Structural(v) && Coherent(v)
    requires 0 <= oldPage < |v.pt| && 0 <= newPage < |v.pt| && oldPage != newPage
    requires v.pt[oldPage].valid && !v.pt[newPage].valid
    ensures Coherent(Swap(v, oldPage, newPage))
    ensures forall q :: 0 <= q < |v.pt| ==> Content(Swap(v, oldPage, newPage), q) == Content(v, q)
  {
    var w := WriteBack(v, oldPage);
    WriteBackKeepsContent(v, oldPage);
    WriteBackKeepsStructure(v, oldPage);
    TransferKeepsContent(w, oldPage, newPage);
    TransferKeepsStructure(w.pt, w.slots, oldPage, newPage);
    ReadInKeepsContent(Handover(v, oldPage, newPage), newPage);
  }

  /** A dirty stack page written to swap and read straight back into the
      same frame comes back unchanged, and its slot is free again. */
  lemma SwapSlotRoundTrip(v: Vm, p: int)
    requires 0 <= p < |v.pt| && v.pt[p].dirty && IsSwapBacked(v.pt[p].kind) && v.pt[p].inFileAddr < 0
    requires FirstClear(v.slots) >= 0
    ensures var r := ReadIn(WriteBack(v, p), p);
            && Frame(r, p) == Frame(v, p)
            && r.slots == v.slots
            && r.pt[p] == v.pt[p].(inFileAddr := -1)
  {
    var w := WriteBack(v, p);
    var s := FirstClear(v.slots);
    assert w.pt[p].inFileAddr == s * PageSize && (s * PageSize) / PageSize == s;
    assert w.slots == v.slots[s := true];
    assert v.slots[s := true][s := false] == v.slots;
  }

  /** A store by the running program into resident page `p` (the machine's
      address translation, which is not part of this model, sets `use` and
      `dirty`). */
  function UserWrite(v: Vm, p: int, data: Page): (r: Vm)
    requires 0 <= p < |v.pt| && v.pt[p].valid
    ensures |r.pt| == |v.pt| && Content(r, p) == data && r.pt[p].dirty
  {
    v.(mem := v.mem[v.pt[p].physicalPage := data],
       pt := v.pt[p := v.pt[p].(use := true, dirty := true)])
  }

  /** A store changes what the program sees at that page only, and keeps the
      bookkeeping and the coherence the eviction cycle relies on. */
  lemma UserWriteKeepsInvariants(v: Vm, p: int, data: Page)
    requires Structural(v) && Coherent(v) && 0 <= p < |v.pt| && v.pt[p].valid
    ensures var r := UserWrite(v, p, data);
            && Structural(r) && Coherent(r)
            && forall q :: 0 <= q < |v.pt| && q != p ==> Content(r, q) == Content(v, q)
  {
    UserWriteKeepsStructure(v, p, data);
    UserWriteKeepsOtherFrames(v, p, data);
    UserWriteKeepsCoherence(v, p, data);
  }

  lemma UserWriteKeepsStructure(v: Vm, p: int, data: Page)
    requires Structural(v) && 0 <= p < |v.pt| && v.pt[p].valid
    ensures Structural(UserWrite(v, p, data))
  {
    var r := UserWrite(v, p, data);
    assert r.pt == v.pt[p := v.pt[p].(use := true, dirty := true)];
    FramesAgree(v.pt, r.pt);
    SlotsAgree(v.pt, r.pt, r.slots);
  }

  lemma UserWriteKeepsCoherence(v: Vm, p: int, data: Page)
    requires FramesOwned(v.pt) && Coherent(v) && 0 <= p < |v.pt| && v.pt[p].valid
    ensures Coherent(UserWrite(v, p, data))
  {
    var r := UserWrite(v, p, data);
    assert r.pt == v.pt[p := v.pt[p].(use := true, dirty := true)];
    UserWriteKeepsOtherFrames(v, p, data);
  }

  lemma UserWriteKeepsOtherFrames(v: Vm, p: int, data: Page)
    requires FramesOwned(v.pt) && 0 <= p < |v.pt| && v.pt[p].valid
    ensures var r := UserWrite(v, p, data);
            forall q :: 0 <= q < |v.pt| && q != p ==> Frame(r, q) == Frame(v, q) && Backing(r, q) == Backing(v, q)
  {
    FrameUnshared(v.pt, p);
  }

  /** Clearing use bits, as the clock hand does, changes neither the
      bookkeeping, nor the frames in use, nor what any page holds. */
  lemma UseBitsIrrelevant(v: Vm, pt': seq<TranslationEntry>)
    requires |pt'| == |v.pt|
    requires forall q :: 0 <= q < |v.pt| ==> pt'[q] == v.pt[q].(use := pt'[q].use)
    ensures var u := v.(pt := pt');
            && (Structural(v) ==> Structural(u))
            && ResidentFrames(pt') == ResidentFrames(v.pt)
            && (Coherent(v) ==> Coherent(u))
            && forall q :: 0 <= q < |v.pt| ==> Content(u, q) == Content(v, q)
  {
    UseBitsKeepStructure(v, pt');
    UseBitsKeepContent(v, pt');
  }

  lemma UseBitsKeepStructure(v: Vm, pt': seq<TranslationEntry>)
    requires |pt'| == |v.pt|
    requires forall q :: 0 <= q < |v.pt| ==> pt'[q] == v.pt[q].(use := pt'[q].use)
    ensures Structural(v) ==> Structural(v.(pt := pt'))
    ensures ResidentFrames(pt') == ResidentFrames(v.pt)
  {
    FramesAgree(v.pt, pt');
    if Structural(v) {
      SlotsAgree(v.pt, pt', v.slots);
    }
  }

  lemma UseBitsKeepContent(v: Vm, pt': seq<TranslationEntry>)
    requires |pt'| == |v.pt|
    requires forall q :: 0 <= q < |v.pt| ==> pt'[q] == v.pt[q].(use := pt'[q].use)
    ensures Coherent(v) ==> Coherent(v.(pt := pt'))
    ensures forall q :: 0 <= q < |v.pt| ==> Content(v.(pt := pt'), q) == Content(v, q)
  {
    var u := v.(pt := pt');
    forall q | 0 <= q < |v.pt| ensures Content(u, q) == Content(v, q) {
      assert pt'[q].valid == v.pt[q].valid && pt'[q].physicalPage == v.pt[q].physicalPage;
    }
    if Coherent(v) {
      forall i, j | 0 <= i < |pt'| && 0 <= j < |pt'| && i != j && IsFileBacked(pt'[i].kind) && IsFileBacked(pt'[j].kind)
        ensures pt'[i].inFileAddr != pt'[j].inFileAddr
      {
        assert v.pt[i].inFileAddr != v.pt[j].inFileAddr;
      }
      forall i | 0 <= i < |pt'| && pt'[i].valid && !pt'[i].dirty ensures Frame(u, i) == Backing(u, i) {
        assert Frame(v, i) == Backing(v, i);
      }
    }
  }

  // ---------------------------------------------------------------------
  // ReadIn as written: a page read back from swap stays clean

  /** ReadIn exactly as the source has it: after reading a page from its swap
      slot and releasing the slot, `dirty` is left as Swap set it. It differs
      from ReadIn in that one bit only. */
  function ReadInAsWritten(v: Vm, p: int): (r: Vm)
    requires 0 <= p < |v.pt|
    ensures var c := ReadIn(v, p);
            && r.mem == c.mem && r.slots == c.slots && r.exec == c.exec && r.swap == c.swap
            && r.pt == c.pt[p := c.pt[p].(dirty := v.pt[p].dirty)]
  {
    var e := v.pt[p];
    var f := e.physicalPage;
    if IsFileBacked(e.kind) then
      v.(mem := v.mem[f := PageAt(v.exec, e.inFileAddr)])
    else if IsSwapBacked(e.kind) then
      if e.inFileAddr >= 0 then
        var slot := e.inFileAddr / PageSize;
        v.(mem := v.mem[f := PageAt(v.swap, e.inFileAddr)],
           slots := if slot < |v.slots| then v.slots[slot := false] else v.slots,
           pt := v.pt[p := e.(inFileAddr := -1)])
      else
        v.(mem := v.mem[f := ZeroPage()])
    else
      v
  }

  function SwapAsWritten(v: Vm, oldPage: int, newPage: int): Vm
    requires 0 <= oldPage < |v.pt| && 0 <= newPage < |v.pt|
  {
    ReadInAsWritten(Handover(v, oldPage, newPage), newPage)
  }

  /** A two-page address space with one frame: page 0 (stack) is resident
      and holds `data`, page 1 (stack) has never been touched. */
  function TwoStackPages(data: Page): Vm
  {
    Vm([TranslationEntry(0, 0, true, false, true, true, UserStack, -1),
        TranslationEntry(1, -1, false, false, false, false, UserStack, -1)],
       map[0 := data], map[], map[], [false, false])
  }

  /** With ReadIn as written, four swaps between the two pages lose page 0:
      it goes to swap, comes back clean (its slot released), is evicted
      again without being written out, and is then zero-filled. */
  lemma ReadInAsWrittenLosesPage()
    ensures var data := seq(PageSize, _ => 1 as byte);
            var v0 := TwoStackPages(data);
            var v4 := SwapAsWritten(SwapAsWritten(SwapAsWritten(SwapAsWritten(v0, 0, 1), 1, 0), 0, 1), 1, 0);
            && Content(v0, 0) == data
            && Content(v4, 0) == ZeroPage() != data
  {
    var data := seq(PageSize, _ => 1 as byte);
    var z := ZeroPage();
    var out0 := TranslationEntry(0, -1, false, false, true, false, UserStack, 0);
    var out0clean := TranslationEntry(0, -1, false, false, true, false, UserStack, -1);
    var in0 := TranslationEntry(0, 0, true, false, true, false, UserStack, -1);
    var in1 := TranslationEntry(1, 0, true, false, true, false, UserStack, -1);
    var out1 := TranslationEntry(1, -1, false, false, true, false, UserStack, -1);
    var v1 := Vm([out0, in1], map[0 := z], map[], map[0 := data], [true, false]);
    var v2 := Vm([in0, out1], map[0 := data], map[], map[0 := data], [false, false]);
    var v3 := Vm([out0clean, in1], map[0 := z], map[], map[0 := data], [false, false]);
    AsWrittenStep1(data);
    AsWrittenStep2(data);
    AsWrittenStep3(data);
    AsWrittenStep4(data);
    assert data[0] != z[0];
  }

  lemma AsWrittenStep1(data: Page)
    requires |data| == PageSize
    ensures SwapAsWritten(TwoStackPages(data), 0, 1)
         == Vm([TranslationEntry(0, -1, false, false, true, false, UserStack, 0),
                TranslationEntry(1, 0, true, false, true, false, UserStack, -1)],
               map[0 := ZeroPage()], map[], map[0 := data], [true, false])
  {
    var v0 := TwoStackPages(data);
    assert FirstClear(v0.slots) == 0;
    var w := WriteBack(v0, 0);
    assert w.pt[0] == TranslationEntry(0, 0, true, false, true, false, UserStack, 0);
    assert w.slots == [true, false] && w.swap == map[0 := data];
    assert w.mem == map[0 := data];
    assert map[0 := data][0 := ZeroPage()] == map[0 := ZeroPage()];
  }

  lemma AsWrittenStep2(data: Page)
    requires |data| == PageSize
    ensures SwapAsWritten(Vm([TranslationEntry(0, -1, false, false, true, false, UserStack, 0),
                              TranslationEntry(1, 0, true, false, true, false, UserStack, -1)],
                             map[0 := ZeroPage()], map[], map[0 := data], [true, false]), 1, 0)
         == Vm([TranslationEntry(0, 0, true, false, true, false, UserStack, -1),
                TranslationEntry(1, -1, false, false, true, false, UserStack, -1)],
               map[0 := data], map[], map[0 := data], [false, false])
  {
    assert map[0 := ZeroPage()][0 := data] == map[0 := data];
  }

  lemma AsWrittenStep3(data: Page)
    requires |data| == PageSize
    ensures SwapAsWritten(Vm([TranslationEntry(0, 0, true, false, true, false, UserStack, -1),
                              TranslationEntry(1, -1, false, false, true, false, UserStack, -1)],
                             map[0 := data], map[], map[0 := data], [false, false]), 0, 1)
         == Vm([TranslationEntry(0, -1, false, false, true, false, UserStack, -1),
                TranslationEntry(1, 0, true, false, true, false, UserStack, -1)],
               map[0 := ZeroPage()], map[], map[0 := data], [false, false])
  {
    assert map[0 := data][0 := ZeroPage()] == map[0 := ZeroPage()];
  }

  lemma AsWrittenStep4(data: Page)
    requires |data| == PageSize
    ensures var v4 := SwapAsWritten(Vm([TranslationEntry(0, -1, false, false, true, false, UserStack, -1),
                                        TranslationEntry(1, 0, true, false, true, false, UserStack, -1)],
                                       map[0 := ZeroPage()], map[], map[0 := data], [false, false]), 1, 0);
            v4.pt[0].valid && PageAt(v4.mem, v4.pt[0].physicalPage) == ZeroPage()
  {
  }
}
