// The pieces of the simulated MIPS machine that an address space touches:
// the page size, the number of physical frames, the register file, the
// translation entry and the machine object that holds main memory and the
// active page table. The numeric constants are those of Nachos 3.4's
// machine.h, which is not part of this model.
module Machine {

  const PageSize: int := 128
  const NumPhysPages: int := 32

  const NumTotalRegs: int := 40
  const StackReg: int := 29
  const PCReg: int := 34
  const NextPCReg: int := 35

  newtype byte = x: int | 0 <= x < 256

  /** The bytes of one page (of a frame or of a page-sized file block). */
  type Page = seq<byte>

  function ZeroPage(): (z: Page)
    ensures |z| == PageSize && forall k :: 0 <= k < |z| ==> z[k] == 0
  {
    seq(PageSize, _ => 0)
  }

  /** The page stored under `key` in a page-keyed store (main memory by frame,
      a file by byte offset); a block never written reads as zeros. */
  function PageAt(store: map<int, Page>, key: int): Page
  {
    if key in store then store[key] else ZeroPage()
  }

  /** Which segment a virtual page belongs to. `Unset` stands for a `type`
      field the code never assigned (its contents are indeterminate). */
  datatype SegKind = Code | InitData | UninitData | UserStack | Unset

  predicate IsFileBacked(k: SegKind) { k == Code || k == InitData }
  predicate IsSwapBacked(k: SegKind) { k == UninitData || k == UserStack }

  /** One entry of a linear page table. */
  datatype TranslationEntry = TranslationEntry(
    virtualPage: int,
    physicalPage: int,
    valid: bool,
    readOnly: bool,
    use: bool,
    dirty: bool,
    kind: SegKind,
    inFileAddr: int)

  /** The machine: main memory as a frame-to-page map, the register file and
      the page table the MMU currently translates through. */
  class Machine {
    var mainMemory: map<int, Page>
    const registers: array<int>
    var pageTable: array?<TranslationEntry>
    var pageTableSize: int

    constructor ()
      ensures mainMemory == map[] && fresh(registers)
      ensures registers.Length == NumTotalRegs && pageTable == null && pageTableSize == 0
    {
      mainMemory := map[];
      registers := new int[NumTotalRegs](_ => 0);
      pageTable := null;
      pageTableSize := 0;
    }
  }
}
