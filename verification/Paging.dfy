/** Constants and value types of `x86/memory/definitions.h`. */
module Paging {
  import opened Bits

  const ENTRIES: nat := 512
  const PAGE_FRAME_SIZE: nat := 4096
  const TWO48: nat := 0x1_0000_0000_0000
  const TWO52: nat := 0x10_0000_0000_0000

  datatype PageSize = Base | Large | Huge {
    function Bytes(): (r: nat)
      ensures r > 0 && r % PAGE_FRAME_SIZE == 0
    {
      match this
      case Base => 4096
      case Large => 0x20_0000
      case Huge => 0x4000_0000
    }

    /** `pageSizeToDepth`. */
    function Depth(): nat {
      match this
      case Base => 4
      case Large => 3
      case Huge => 2
    }
  }

  /** A run of pages of one size, starting at a physical address. */
  datatype PagedMemory = PagedMemory(pageStart: nat, numberOfPages: nat)

  lemma PageSizesArePowers()
    ensures PowerOfTwo(ENTRIES) && PowerOfTwo(PAGE_FRAME_SIZE)
    ensures forall s: PageSize {:trigger s.Bytes()} :: PowerOfTwo(s.Bytes())
  {
    Pow2Values();
    assert ENTRIES == Pow2(9) && PAGE_FRAME_SIZE == Pow2(12);
    forall s: PageSize ensures PowerOfTwo(s.Bytes()) {
      match s
      case Base => assert s.Bytes() == Pow2(12);
      case Large => assert s.Bytes() == Pow2(21);
      case Huge => assert s.Bytes() == Pow2(30);
    }
  }

  /** The first page boundary at or after an address. */
  function RoundUp(v: nat, size: PageSize): nat {
    match size
    case Base => (v + 0xFFF) / 4096 * 4096
    case Large => (v + 0x1F_FFFF) / 0x20_0000 * 0x20_0000
    case Huge => (v + 0x3FFF_FFFF) / 0x4000_0000 * 0x4000_0000
  }

  lemma RoundUpIs(v: nat, size: PageSize)
    ensures RoundUp(v, size) == (v + (size.Bytes() - 1)) / size.Bytes() * size.Bytes()
    ensures RoundUp(v, size) == v <==> v % size.Bytes() == 0
    ensures v <= RoundUp(v, size) < v + size.Bytes() && RoundUp(v, size) % size.Bytes() == 0
  {
    CeilingOf(v, size.Bytes());
  }
}
