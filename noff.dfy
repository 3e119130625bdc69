// The NOFF executable header and the first steps of the AddrSpace
// constructor: byte-order normalisation of the header and the page count of
// the address space. The header layout and NOFFMAGIC are those of Nachos
// 3.4's noff.h, which is not part of this model; UserStackSize and
// AvailablePages are the constants of lab7/temp/addrspace.h.
module Noff {
  import opened CArith
  import opened Machine
  import opened Outcomes

  const NOFFMAGIC: int := 0xbadfad
  const UserStackSize: int := 1024
  const AvailablePages: int := 4

  /** 2^32: header words are 32 bits and the size sum lands in an `unsigned int`. */
  const WordRange: int := 0x1_0000_0000

  datatype Segment = Segment(virtualAddr: int, inFileAddr: int, size: int)

  datatype NoffHeader = NoffHeader(
    noffMagic: int,
    code: Segment,
    initData: Segment,
    uninitData: Segment)

  function SwapSegment(s: Segment, wordToHost: int -> int): Segment
  {
    Segment(wordToHost(s.virtualAddr), wordToHost(s.inFileAddr), wordToHost(s.size))
  }

  /** The ten 32-bit words of a header, in file order. */
  function Words(h: NoffHeader): (ws: seq<int>)
    ensures |ws| == 10
  {
    [h.noffMagic,
     h.code.virtualAddr, h.code.inFileAddr, h.code.size,
     h.initData.virtualAddr, h.initData.inFileAddr, h.initData.size,
     h.uninitData.virtualAddr, h.uninitData.inFileAddr, h.uninitData.size]
  }

  /** Converts every one of the ten header words with the same conversion. */
  function SwapHeader(h: NoffHeader, wordToHost: int -> int): (r: NoffHeader)
    ensures forall i :: 0 <= i < 10 ==> Words(r)[i] == wordToHost(Words(h)[i])
  {
    NoffHeader(wordToHost(h.noffMagic),
               SwapSegment(h.code, wordToHost),
               SwapSegment(h.initData, wordToHost),
               SwapSegment(h.uninitData, wordToHost))
  }

  /** Byte swapping is its own inverse, and so is the header conversion
      built from it: converting twice gives the header back. */
  lemma SwapHeaderInvolutive(h: NoffHeader, wordToHost: int -> int)
    requires forall x :: wordToHost(wordToHost(x)) == x
    ensures SwapHeader(SwapHeader(h, wordToHost), wordToHost) == h
  {
  }

  /** The header check of the constructor: the header is converted only
      when its magic is wrong as read but right after conversion, and the
      load halts unless the magic is then NOFFMAGIC. */
  function LoadHeader(raw: NoffHeader, wordToHost: int -> int): (r: Option<NoffHeader>)
    ensures r.Some? <==> raw.noffMagic == NOFFMAGIC || wordToHost(raw.noffMagic) == NOFFMAGIC
    ensures r.Some? ==> r.value.noffMagic == NOFFMAGIC
    ensures raw.noffMagic == NOFFMAGIC ==> r == Some(raw)
    ensures (raw.noffMagic != NOFFMAGIC && wordToHost(raw.noffMagic) == NOFFMAGIC)
            ==> r == Some(SwapHeader(raw, wordToHost))
  {
    var h := if raw.noffMagic != NOFFMAGIC && wordToHost(raw.noffMagic) == NOFFMAGIC
             then SwapHeader(raw, wordToHost) else raw;
    if h.noffMagic == NOFFMAGIC then Some(h) else None
  }

  /** A header that has been accepted is accepted again unchanged. */
  lemma LoadHeaderIdempotent(raw: NoffHeader, wordToHost: int -> int)
    requires LoadHeader(raw, wordToHost).Some?
    ensures LoadHeader(LoadHeader(raw, wordToHost).value, wordToHost) == LoadHeader(raw, wordToHost)
  {
  }

  /** `size` of the constructor: the sum of the three segment sizes and the
      stack, stored in an `unsigned int`. */
  function TotalSize(h: NoffHeader): (size: int)
    ensures 0 <= size < WordRange
    ensures var sum := h.code.size + h.initData.size + h.uninitData.size + UserStackSize;
            (size - sum) % WordRange == 0 && (0 <= sum < WordRange ==> size == sum)
  {
    (h.code.size + h.initData.size + h.uninitData.size + UserStackSize) % WordRange
  }

  /** `numPages`: `size` rounded up to whole pages (Noff.NumPagesCovers
      states by how much). */
  function NumPages(h: NoffHeader): (n: int)
    ensures 0 <= n <= TotalSize(h)
    ensures n == 0 <==> TotalSize(h) == 0
  {
    CDivMod(TotalSize(h), PageSize);
    DivRoundUp(TotalSize(h), PageSize)
  }

  /** Segment sizes a linker can produce: none negative, and their sum with
      the stack does not overflow a signed word. This excludes malformed
      headers and signed overflow in the page arithmetic of the
      constructor and of Translate. */
  predicate SaneSizes(h: NoffHeader)
  {
    && h.code.size >= 0 && h.initData.size >= 0 && h.uninitData.size >= 0
    && h.code.size + h.initData.size + h.uninitData.size + UserStackSize < WordRange / 2
  }

  /** The pages cover the segments and the stack, with less than one page
      left over, and there are at least UserStackSize / PageSize of them. */
  lemma NumPagesCovers(h: NoffHeader)
    requires SaneSizes(h)
    ensures var total := h.code.size + h.initData.size + h.uninitData.size + UserStackSize;
            && total <= NumPages(h) * PageSize < total + PageSize
            && NumPages(h) >= UserStackSize / PageSize
  {
    var total := h.code.size + h.initData.size + h.uninitData.size + UserStackSize;
    assert TotalSize(h) == total;
    CDivMod(total, PageSize);
  }
}
