/** The policy layer: `allocAndMapExplicit`, `allocContiguousAndMap`, `allocAndMap` and
    `freeMapped`, over the virtual bump allocator, the page tables and the physical managers. */
module Policy {
  import opened Bits
  import opened Options
  import opened Paging
  import opened PageTables
  import opened FreeLists
  import opened CallerBuffer
  import opened PhysicalMemory
  import opened VirtualMemory
  import opened Mappings
  import opened Converter
  import opened Releases

  const HIGHER_HALF_START: nat := 0xffff_8000_0000_0000
  const KERNEL_SPACE_START: nat := 0xffff_ffff_f800_0000
  const JUMBO_PAGE_SIZE: nat := 0x80_0000_0000

  /** How a policy call ends. The kernel halts on `TooLarge` and `Faulted`, and a debug build on
      `NoAddressSpace`. On `Overshot` the bump pointer has left the region unnoticed: the code goes on
      and maps over the addresses behind it, and nothing is promised. */
  datatype Result = Mapped | TooLarge | NoAddressSpace | Overshot | Faulted(status: Status)

  /** One new range, behind the others, with one frame per page. */
  ghost predicate HandedOut(was: seq<Mapping>, live: seq<Mapping>, address: nat, pages: nat, size: PageSize) {
    && |live| == |was| + 1 && live[..|was|] == was
    && live[|was|].start == address && live[|was|].size == size && |live[|was|].frames| == pages
  }

  function LastFrames(live: seq<Mapping>): seq<nat> {
    if live == [] then [] else live[|live| - 1].frames
  }

  /** How a request for scattered pages ends, from the free lists it found: it runs past the 512 slots
      on the stack if and only if the allocation writes more; it fails as the allocation fails; else the
      new range has the frames allocated for it, in order, unless a page table could not be had. */
  ghost predicate ScatteredEnds(free: Managers, pages: nat, size: PageSize,
                                status: Status, frames: seq<nat>, now: Managers, nodes: map<Node, nat>,
                                address: nat) {
    if WritesPast(free, pages, size, ENTRIES) then status == Overrun
    else match AllocPages(free, pages, size)
         case Done(runs, _) =>
           if status == Success then frames == Expand(runs, size) else NoTable(status, now, nodes, address, pages, size)
         case NoMorePhysicalMemory => status == Fault
         case MetadataFull => status == Full
  }

  /** How the allocation itself ends. */
  ghost predicate Took(free: Managers, pages: nat, size: PageSize, status: Status, runs: seq<PagedMemory>) {
    if WritesPast(free, pages, size, ENTRIES) then status == Overrun
    else match AllocPages(free, pages, size)
         case Done(out, _) => status == Success && runs == out
         case NoMorePhysicalMemory => status == Fault
         case MetadataFull => status == Full
  }

  lemma TookEnds(free: Managers, pages: nat, size: PageSize, runs: seq<PagedMemory>,
                 status: Status, frames: seq<nat>, now: Managers, nodes: map<Node, nat>, address: nat)
    requires Took(free, pages, size, Success, runs)
    requires if status == Success then frames == Expand(runs, size)
             else NoTable(status, now, nodes, address, pages, size)
    ensures ScatteredEnds(free, pages, size, status, frames, now, nodes, address)
  {
  }

  /** The same for one contiguous run. */
  ghost predicate ContiguousEnds(free: Managers, pages: nat, size: PageSize,
                                 status: Status, frames: seq<nat>, now: Managers, nodes: map<Node, nat>,
                                 address: nat) {
    match AllocContiguous(free, pages, size)
    case Done(physical, _) =>
      if status == Success then frames == FramesOf(PagedMemory(physical, pages), size)
      else NoTable(status, now, nodes, address, pages, size)
    case NoMorePhysicalMemory => status == Fault
    case MetadataFull => status == Full
  }

  lemma GaveEnds(free: Managers, pages: nat, size: PageSize, physical: nat,
                 status: Status, frames: seq<nat>, now: Managers, nodes: map<Node, nat>, address: nat)
    requires AllocContiguous(free, pages, size).Done? && physical == AllocContiguous(free, pages, size).value
    requires if status == Success then frames == FramesOf(PagedMemory(physical, pages), size)
             else NoTable(status, now, nodes, address, pages, size)
    ensures ContiguousEnds(free, pages, size, status, frames, now, nodes, address)
  {
  }

  /** The next aligned range ends inside the region. */
  predicate FitsRegion(start: nat, pages: nat, size: PageSize) {
    RoundUp(start, size) + pages * size.Bytes() <= KERNEL_SPACE_START
  }

  /** What the region says about a request: a debug build refuses it when an assertion fails; a range
      that is not refused and does not end inside the region overshoots; any other range is the next
      aligned one, and the bump pointer stands right behind it. */
  ghost predicate RegionEnds(debug: bool, start: nat, pages: nat, size: PageSize,
                             result: Result, address: nat, bump: nat) {
    && (result == NoAddressSpace <==> debug && !PassesGuard(start, pages, size))
    && (result == Overshot <==> (!debug || PassesGuard(start, pages, size)) && !FitsRegion(start, pages, size))
    && (result == NoAddressSpace ==> bump == start)
    && (result == Mapped || result.Faulted? ==>
          address == RoundUp(start, size) && bump == address + pages * size.Bytes())
  }

  function Ended(status: Status): Result {
    if status == Success then Mapped else Faulted(status)
  }

  lemma StillEnds(debug: bool, start: nat, pages: nat, size: PageSize, status: Status, address: nat, bump: nat)
    requires RegionEnds(debug, start, pages, size, Mapped, address, bump)
    ensures RegionEnds(debug, start, pages, size, Ended(status), address, bump)
  {
  }

  function StatusOf(result: Result): Status {
    match result case Mapped => Success case Faulted(status) => status case _ => Fault
  }

  /** The number of available pages for a number of preferred pages, with the 64-bit wrap of the
      multiplication. */
  function PagesFor(numberOfPages: nat, preferred: nat): nat {
    (numberOfPages * CountFor(preferred)) % TWO64
  }

  /** The range is as long as asked for if and only if the count of available pages fits in 64 bits. */
  lemma RequestedBytes(numberOfPages: nat, preferred: U64)
    requires preferred == 0 || PowerOfTwo(preferred)
    ensures PagesFor(numberOfPages, preferred) * SizeFor(preferred).Bytes()
              == numberOfPages * AtLeastBasePage(preferred)
       <==> numberOfPages * CountFor(preferred) < TWO64
  {
    var b, c := SizeFor(preferred).Bytes(), CountFor(preferred);
    if preferred != 0 { CountIsExact(preferred); }
    MulAssoc(numberOfPages, c, b);
    WrappedProduct(numberOfPages * c, b);
  }

  lemma WrappedProduct(x: nat, b: nat)
    requires b > 0
    ensures (x % TWO64) * b == x * b <==> x < TWO64
  {
    if x < TWO64 {
      DivMod(x, TWO64, 0, x);
    } else {
      MulStrict(x % TWO64, x, b);
    }
  }

  /** Beyond that the count wraps: 2^31 pages of 2^63 bytes become no pages at all. */
  lemma RequestCanWrap()
    ensures PagesFor(0x8000_0000, 0x8000_0000_0000_0000) == 0
  {
    assert CountFor(0x8000_0000_0000_0000) == 0x2_0000_0000;
  }

  lemma CountIsExact(preferred: nat)
    requires PowerOfTwo(preferred)
    ensures CountFor(preferred) * SizeFor(preferred).Bytes() == AtLeastBasePage(preferred)
  {
    var k: nat :| preferred == Pow2(k);
    var b := SizeFor(preferred).Bytes();
    SizeOfPower(preferred, k);
    if preferred > 4096 {
      var j: nat :| j <= k && b == Pow2(j);
      PowMultiple(k, j);
    }
  }

  lemma SizeOfPower(preferred: nat, k: nat)
    requires preferred == Pow2(k)
    ensures preferred > 4096 ==> exists j: nat :: j <= k && SizeFor(preferred).Bytes() == Pow2(j)
  {
    Pow2Values();
    if preferred > 4096 {
      if preferred >= 0x4000_0000 {
        if k < 30 { Pow2Mono(k + 1, 30); }
        assert SizeFor(preferred).Bytes() == Pow2(30);
      } else if preferred >= 0x20_0000 {
        if k < 21 { Pow2Mono(k + 1, 21); }
        assert SizeFor(preferred).Bytes() == Pow2(21);
      } else {
        if k < 12 { Pow2Mono(k + 1, 12); }
        assert SizeFor(preferred).Bytes() == Pow2(12);
      }
    }
  }

  lemma PowMultiple(k: nat, j: nat)
    requires j <= k
    ensures Pow2(k) >= Pow2(j) && Pow2(k) / Pow2(j) * Pow2(j) == Pow2(k)
  {
    Pow2Add(k - j, j);
    Pow2Mono(j, k);
    DivMod(Pow2(k), Pow2(j), Pow2(k - j), 0);
  }

  lemma SizedRequest(pages: nat, size: PageSize)
    requires pages < TWO64
    ensures PagesFor(pages, size.Bytes()) == pages && SizeFor(size.Bytes()) == size
  {
    assert CountFor(size.Bytes()) == 1;
    DivMod(pages, TWO64, 0, pages);
  }

  /** `pageSizes`, smallest first. */
  const PAGE_SIZES: seq<PageSize> := [Base, Large, Huge]

  /** The page size `allocAndMap` settles on. */
  function ChosenSize(bytes: U64): PageSize {
    if CeilDiv(bytes, 4096) <= ENTRIES / 2 then Base
    else if CeilDiv(bytes, 0x20_0000) <= ENTRIES / 2 then Large
    else Huge
  }

  function ChosenPages(bytes: U64): nat {
    CeilDiv(bytes, ChosenSize(bytes).Bytes())
  }

  /** The loop of `allocAndMap`. */
  method ChoosePages(bytes: U64) returns (pages: nat, size: PageSize)
    ensures pages == ChosenPages(bytes) && size == ChosenSize(bytes) && pages < TWO64
  {
    var i := 0;
    while i < 2
      invariant 0 <= i <= 2
      invariant i >= 1 ==> CeilDiv(bytes, 4096) > ENTRIES / 2
      invariant i >= 2 ==> CeilDiv(bytes, 0x20_0000) > ENTRIES / 2
    {
      size := PAGE_SIZES[i];
      pages := CeilDiv(bytes, size.Bytes());
      if pages <= ENTRIES / 2 {
        return;
      }
      i := i + 1;
    }
    size := PAGE_SIZES[2];
    pages := CeilDiv(bytes, size.Bytes());
    CeilDivBound(bytes, size.Bytes());
  }

  lemma CeilDivBound(v: U64, d: U64)
    requires d > 0
    ensures CeilDiv(v, d) < TWO64
  {
    QuotientBound((v + d - 1) % TWO64, Pow2(TrailingZeros(d)));
  }

  lemma QuotientBound(x: nat, p: nat)
    requires p > 0
    ensures x / p <= x
  {
    MulMono(1, p, x / p);
  }

  /** The pages cover the bytes, with less than a page to spare, exactly when rounding up to huge
      pages does not wrap; beyond that no page is allocated at all. */
  lemma ChosenCovers(bytes: U64)
    ensures bytes <= ChosenPages(bytes) * ChosenSize(bytes).Bytes() <==> bytes + 0x3FFF_FFFF < TWO64
    ensures bytes + 0x3FFF_FFFF < TWO64 ==>
              ChosenPages(bytes) * ChosenSize(bytes).Bytes() < bytes + ChosenSize(bytes).Bytes()
    ensures bytes + 0x3FFF_FFFF >= TWO64 ==> ChosenPages(bytes) == 0
  {
    CeilOrWrap(bytes, Base);
    CeilOrWrap(bytes, Large);
    CeilOrWrap(bytes, Huge);
  }

  /** So a request for 2^64 - 1 bytes becomes one for no pages. */
  lemma ChosenCanWrap()
    ensures ChosenPages(0xFFFF_FFFF_FFFF_FFFF) == 0
  {
    ChosenCovers(0xFFFF_FFFF_FFFF_FFFF);
  }

  /** Which size it settles on: base pages up to 1 MiB, large pages up to 512 MiB, else huge pages; a
      request so near 2^64 that rounding up to a size wraps stops at that size. */
  lemma ChosenSizeIs(bytes: U64)
    ensures ChosenSize(bytes) == Base <==> bytes <= 256 * 4096 || bytes + 0xFFF >= TWO64
    ensures ChosenSize(bytes) == Large
       <==> 256 * 4096 < bytes <= 256 * 0x20_0000 || bytes + 0xFFF < TWO64 <= bytes + 0x1F_FFFF
    ensures ChosenSize(bytes) == Huge <==> bytes > 256 * 0x20_0000 && bytes + 0x1F_FFFF < TWO64
  {
    CeilOrWrap(bytes, Base);
    CeilOrWrap(bytes, Large);
  }

  lemma CeilOrWrap(bytes: U64, size: PageSize)
    ensures bytes + (size.Bytes() - 1) < TWO64 ==>
              bytes <= CeilDiv(bytes, size.Bytes()) * size.Bytes() < bytes + size.Bytes()
    ensures bytes + (size.Bytes() - 1) >= TWO64 ==> CeilDiv(bytes, size.Bytes()) == 0
  {
    PageSizesArePowers();
    var b := size.Bytes();
    if bytes + (b - 1) < TWO64 {
      CeilDivIsCeiling(bytes, b);
    } else {
      var k: nat :| b == Pow2(k);
      TrailingZerosOfPow2(k);
      DivMod(bytes + b - 1, TWO64, 1, bytes + b - 1 - TWO64);
      DivMod(bytes + b - 1 - TWO64, b, 0, bytes + b - 1 - TWO64);
    }
  }

  /** What the code computes is the next boundary, unless that lies beyond 2^64; then the sum wraps
      and lands below the value. */
  lemma AlignUpIsRoundUp(v: U64, size: PageSize)
    requires v >= HIGHER_HALF_START
    ensures RoundUp(v, size) < TWO64 ==> AlignUp(v, size.Bytes()) == RoundUp(v, size)
    ensures RoundUp(v, size) >= TWO64 ==> AlignUp(v, size.Bytes()) < v
  {
    var d := size.Bytes();
    PageSizesArePowers();
    RoundUpIs(v, size);
    RoundUpWraps(v, size);
    if v + (d - 1) < TWO64 {
      AlignUpIsQuotient(v, d);
    } else {
      AlignDownIsFloor((v + (d - 1)) % TWO64, d);
    }
  }

  lemma RoundUpWraps(v: nat, size: PageSize)
    ensures RoundUp(v, size) >= TWO64 <==> v + (size.Bytes() - 1) >= TWO64
  {
    var d := size.Bytes();
    var x := v + (d - 1);
    RoundUpIs(v, size);
    assert x == x / d * d + x % d;
    match size {
      case Base => BelowMultiple(x, d, x / d, x % d, 0x10_0000_0000_0000);
      case Large => BelowMultiple(x, d, x / d, x % d, 0x800_0000_0000);
      case Huge => BelowMultiple(x, d, x / d, x % d, 0x4_0000_0000);
    }
  }

  lemma BelowMultiple(x: nat, d: nat, q: nat, r: nat, k: nat)
    requires d > 0 && x == q * d + r && r < d && k * d == TWO64
    ensures q * d >= TWO64 <==> x >= TWO64
  {
    if q < k {
      MulMono(q + 1, k, d);
      MulDist(q, 1, d);
    } else {
      MulMono(k, q, d);
    }
  }

  // ---------------------------------------------------------------- the guard of the region

  /** The four assertions of `getVirtualMemory`, on 64-bit words. */
  predicate AssertionsHold(start: U64, aligned: nat, bytes: nat) {
    && bytes <= JUMBO_PAGE_SIZE && start <= aligned && aligned <= KERNEL_SPACE_START
    && (KERNEL_SPACE_START - (aligned + bytes)) % TWO64 < start
  }

  /** The last assertion compares a wrapped difference with the start. It passes for every range that
      ends inside the region, and also for one that overshoots the end by more than the distance from
      the start to 2^64. */
  lemma RegionAssertion(start: nat, aligned: nat, bytes: nat)
    requires HIGHER_HALF_START <= start <= aligned <= KERNEL_SPACE_START && bytes <= JUMBO_PAGE_SIZE
    ensures (KERNEL_SPACE_START - (aligned + bytes)) % TWO64 < start
       <==> aligned + bytes <= KERNEL_SPACE_START || aligned + bytes - KERNEL_SPACE_START > TWO64 - start
  {
    var over := aligned + bytes - KERNEL_SPACE_START;
    if over <= 0 {
      DivMod(-over, TWO64, 0, -over);
    } else {
      assert (-over) % TWO64 == TWO64 - over;
    }
  }

  /** What the assertions let through, for a range of pages. */
  predicate PassesGuard(start: nat, pages: nat, size: PageSize) {
    var end := RoundUp(start, size) + pages * size.Bytes();
    && RoundUp(start, size) <= KERNEL_SPACE_START
    && (end <= KERNEL_SPACE_START || end - KERNEL_SPACE_START > TWO64 - start)
  }

  lemma GuardIs(start: U64, pages: nat, size: PageSize, bytes: nat)
    requires HIGHER_HALF_START <= start <= KERNEL_SPACE_START && pages <= ENTRIES && bytes == pages * size.Bytes()
    ensures AssertionsHold(start, AlignUp(start, size.Bytes()), bytes) <==> PassesGuard(start, pages, size)
  {
    AlignUpIsRoundUp(start, size);
    RoundUpIs(start, size);
    MulMono(0, pages, size.Bytes());
    MulMono(pages, ENTRIES, size.Bytes());
    if RoundUp(start, size) <= KERNEL_SPACE_START {
      RegionAssertion(start, RoundUp(start, size), bytes);
    }
  }

  function RangeBytes(pages: nat, size: PageSize): (r: nat)
    requires pages <= ENTRIES
    ensures r == pages * size.Bytes() <= JUMBO_PAGE_SIZE
  {
    MulMono(pages, ENTRIES, size.Bytes());
    pages * size.Bytes()
  }

  lemma FittingRange(start: U64, pages: nat, size: PageSize, bytes: nat)
    requires HIGHER_HALF_START <= start <= KERNEL_SPACE_START && bytes == pages * size.Bytes()
    requires FitsRegion(start, pages, size)
    ensures var address := AlignUp(start, size.Bytes());
            && address == RoundUp(start, size) && start <= address <= KERNEL_SPACE_START && address % size.Bytes() == 0
            && (address + bytes) % TWO64 == address + bytes <= KERNEL_SPACE_START
  {
    MulMono(0, pages, size.Bytes());
    RoundUpIs(start, size);
    AlignUpIsRoundUp(start, size);
    DivMod(RoundUp(start, size) + bytes, TWO64, 0, RoundUp(start, size) + bytes);
  }

  /** The guard tells apart the ranges that end inside the region exactly when the range does not
      overshoot so far that the comparison wraps; one that ends at or below 2^64 never does. */
  lemma GuardDecides(start: nat, pages: nat, size: PageSize)
    requires HIGHER_HALF_START <= start <= KERNEL_SPACE_START
    ensures (PassesGuard(start, pages, size) <==> FitsRegion(start, pages, size))
       <==> (RoundUp(start, size) > KERNEL_SPACE_START
             || RoundUp(start, size) + pages * size.Bytes() <= KERNEL_SPACE_START + (TWO64 - start))
    ensures RoundUp(start, size) + pages * size.Bytes() <= TWO64 ==>
              (PassesGuard(start, pages, size) <==> FitsRegion(start, pages, size))
  {
    MulMono(0, pages, size.Bytes());
  }

  /** 512 large pages asked for 256 MiB before 2^64 pass the assertions, overshoot the region, and
      leave the bump pointer below the higher half. */
  lemma RegionAssertionCanMiss()
    ensures var start := 0xffff_ffff_f000_0000;
            && PassesGuard(start, ENTRIES, Large) && !FitsRegion(start, ENTRIES, Large)
            && (RoundUp(start, Large) + ENTRIES * Large.Bytes()) % TWO64 < HIGHER_HALF_START
  {
    assert RoundUp(0xffff_ffff_f000_0000, Large) == 0xffff_ffff_f000_0000;
  }

  lemma SingleRun(run: PagedMemory, size: PageSize)
    ensures Total([run]) == run.numberOfPages && Expand([run], size) == FramesOf(run, size)
  {
    assert Total([run][..0]) == 0;
    assert Expand([run][..0], size) == [];
    assert [] + FramesOf(run, size) == FramesOf(run, size);
  }

  /** Every handed-out range is aligned, ends before the next one and before `bump`, and is backed
      by its frames. */
  ghost predicate LiveOk(live: seq<Mapping>, mem: Memory, root: nat, bump: nat) {
    live == [] ||
    var m := live[|live| - 1];
    RangeOk(m, bump) && Backed(mem, root, m) && LiveOk(live[..|live| - 1], mem, root, m.start)
  }

  predicate RangeOk(m: Mapping, bump: nat) {
    && m.start % m.size.Bytes() == 0 && FramesOk(m.frames, m.size)
    && HIGHER_HALF_START <= m.start && m.End() <= bump
  }

  /** Nothing is mapped in the part of the region not handed out yet. */
  ghost predicate Unmapped(mem: Memory, root: nat, start: nat, bytes: nat) {
    forall v: U64 :: Within(v, start, bytes) ==> Translate(mem, root, v, 0).None?
  }

  /** Every address is free, or in a page table, or in one handed-out frame, and the account never
      changes. */
  ghost predicate Accounts(free: Managers, nodes: map<Node, nat>, live: seq<Mapping>, total: nat -> nat) {
    forall a: nat :: Owned(free, nodes, a) + DataCount(live, a) == total(a) <= 1
  }

  ghost predicate KernelOk(live: seq<Mapping>, mem: Memory, root: nat, bump: nat,
                           free: Managers, nodes: map<Node, nat>, total: nat -> nat) {
    && HIGHER_HALF_START <= bump <= KERNEL_SPACE_START
    && LiveOk(live, mem, root, bump)
    && Unmapped(mem, root, bump, KERNEL_SPACE_START - bump)
    && Accounts(free, nodes, live, total)
  }

  /** In the higher half the low 48 bits of an address keep the order. */
  lemma HigherHalf(x: nat)
    requires HIGHER_HALF_START <= x < TWO64
    ensures x % TWO48 == x - 0xffff_0000_0000_0000 && x / TWO48 == 0xFFFF
  {}

  /** Where the next run of a range goes. */
  lemma NextRun(virt: U64, done: nat, run: PagedMemory, n: nat, size: PageSize, region: nat)
    requires virt % size.Bytes() == 0 && EntryOk(run, size)
    requires HIGHER_HALF_START <= virt && done + run.numberOfPages <= n
    requires virt + n * size.Bytes() <= KERNEL_SPACE_START
    requires region == virt + done * size.Bytes()
    ensures HIGHER_HALF_START <= region < TWO64
    ensures RegionOk(region, run, size)
    ensures PageNumber(region, size) == PageNumber(virt, size) + done
    ensures Behind(region, run, size) == virt + (done + run.numberOfPages) * size.Bytes()
  {
    var b := size.Bytes();
    MulMono(done + run.numberOfPages, n, b);
    assert (done + run.numberOfPages) * b == done * b + run.numberOfPages * b;
    MulMono(0, done, b);
    MulMono(0, run.numberOfPages, b);
    HigherHalf(virt);
    HigherHalf(virt + done * b);
    assert virt + done * b == (virt / b + done) * b;
    DivMod(virt + done * b, b, virt / b + done, 0);
    match size {
      case Base => PageAdvances(virt, done, 4096);
      case Large => PageAdvances(virt, done, 0x20_0000);
      case Huge => PageAdvances(virt, done, 0x4000_0000);
    }
  }

  /** Where a run mapped at `region` ends. */
  function Behind(region: nat, run: PagedMemory, size: PageSize): nat {
    region + run.numberOfPages * size.Bytes()
  }

  lemma NothingLarger(mem: Memory, was: Memory, root: nat, virt: U64, frames: seq<nat>, count: nat, n: nat,
                      size: PageSize)
    requires virt % size.Bytes() == 0 && |frames| + count <= n
    requires Unmapped(was, root, virt, n * size.Bytes())
    requires MappedSince(was, mem, root, PageNumber(virt, size), frames, size)
    ensures NoLargerPage(mem, root, PageNumber(virt, size) + |frames|, count, size)
  {
    forall v: U64 | PageNumber(virt, size) + |frames| <= PageNumber(v, size) < PageNumber(virt, size) + |frames| + count
      ensures Translate(mem, root, v, 0).None?
    {
      WithinPages(v, virt, n, size);
    }
  }

  class Kernel {
    const space: AddressSpace
    /** Whether assertions are compiled in; without `DEBUG` they are empty. */
    const debug: bool
    var regionStart: nat
    ghost var live: seq<Mapping>
    ghost const total: nat -> nat

    constructor (space': AddressSpace, debug': bool, ghost total': nat -> nat)
      requires space'.Valid()
      requires Unmapped(space'.mem, space'.root, HIGHER_HALF_START, KERNEL_SPACE_START - HIGHER_HALF_START)
      requires forall a: nat :: Owned(space'.pmm.View(), space'.nodes, a) == total'(a)
      ensures Valid() && space == space' && debug == debug' && live == [] && regionStart == HIGHER_HALF_START
    {
      space := space';
      debug := debug';
      regionStart := HIGHER_HALF_START;
      live := [];
      total := total';
    }

    ghost predicate Valid()
      reads this, space, space.pmm.base, space.pmm.large, space.pmm.huge,
            space.pmm.base.buf, space.pmm.large.buf, space.pmm.huge.buf
    {
      && space.Valid()
      && KernelOk(live, space.mem, space.root, regionStart, space.pmm.View(), space.nodes, total)
    }

    /** Map freshly allocated runs at the range just taken from the region, and hand the range out. */
    method Publish(virt: U64, runs: seq<PagedMemory>, size: PageSize) returns (status: Status)
      requires space.Valid() && ListOk(runs, size) && virt % size.Bytes() == 0 && HIGHER_HALF_START <= virt
      requires regionStart == virt + Total(runs) * size.Bytes() <= KERNEL_SPACE_START
      requires LiveOk(live, space.mem, space.root, virt)
      requires Unmapped(space.mem, space.root, virt, KERNEL_SPACE_START - virt)
      requires AccountsWith(space.pmm.View(), space.nodes, live, runs, size, total)
      modifies this`live, space`mem, space`nodes, space.pmm.Repr()
      ensures status == Success ==> Valid() && live == old(live) + [Mapping(virt, size, Expand(runs, size))]
      ensures status == Success ==> HandedOut(old(live), live, virt, Total(runs), size)
      ensures status != Success ==> live == old(live)
      ensures space.pmm.Valid()
      ensures status != Success ==> NoTable(status, space.pmm.View(), space.nodes, virt, Total(runs), size)
    {
      ghost var was, nodes, free := space.mem, space.nodes, space.pmm.View();
      PublishFacts(virt, runs, size, was, space.root);
      status := MapRuns(virt, runs, size);
      if status == Success {
        HandOut(Mapping(virt, size, Expand(runs, size)), runs, was, nodes, free);
      }
    }

    /** Record a range that has just been mapped. */
    ghost method HandOut(m: Mapping, runs: seq<PagedMemory>, was: Memory, nodes: map<Node, nat>, free: Managers)
      requires space.Valid() && regionStart == m.End() <= KERNEL_SPACE_START
      requires LiveOk(live, was, space.root, m.start) && RangeOk(m, m.End()) && m.frames == Expand(runs, m.size)
      requires MappedSince(was, space.mem, space.root, PageNumber(m.start, m.size), m.frames, m.size)
      requires Unmapped(was, space.root, m.start, KERNEL_SPACE_START - m.start)
      requires AccountsWith(free, nodes, live, runs, m.size, total)
      requires SameOwned(free, nodes, space.pmm.View(), space.nodes)
      modifies this`live
      ensures Valid() && live == old(live) + [m]
    {
      PublishKeepsKernel(live, space.mem, was, space.root, m, runs, free, nodes, space.pmm.View(), space.nodes, total);
      live := live + [m];
    }

    /** `getVirtualMemory`: align the bump pointer up and move it past the range, on 64-bit words.
        `ok` is false when a debug build stops at an assertion. */
    method GetVirtualMemory(bytes: U64, align: PageSize) returns (ok: bool, address: nat)
      requires regionStart < TWO64
      modifies this`regionStart
      ensures ok <==> !debug || AssertionsHold(old(regionStart), AlignUp(old(regionStart), align.Bytes()), bytes)
      ensures !ok ==> regionStart == old(regionStart)
      ensures ok ==> address == AlignUp(old(regionStart), align.Bytes())
      ensures ok ==> regionStart == (address + bytes) % TWO64
    {
      var alignedUpValue := AlignUp(regionStart, align.Bytes());
      if debug && !(bytes <= JUMBO_PAGE_SIZE && regionStart <= alignedUpValue && alignedUpValue <= KERNEL_SPACE_START
                    && (KERNEL_SPACE_START - (alignedUpValue + bytes)) % TWO64 < regionStart) {
        return false, alignedUpValue;
      }
      address := alignedUpValue;
      regionStart := (address + bytes) % TWO64;
      ok := true;
    }

    /** Take a range of the region for pages of one size. What is live stays live. */
    method ReserveRange(pages: nat, size: PageSize) returns (ok: bool, address: nat)
      requires Valid() && pages <= ENTRIES
      modifies this`regionStart
      ensures ok <==> !debug || PassesGuard(old(regionStart), pages, size)
      ensures !ok ==> Valid() && regionStart == old(regionStart)
      ensures space.pmm.Valid() && space.pmm.View() == old(space.pmm.View()) && live == old(live)
      ensures ok && FitsRegion(old(regionStart), pages, size) ==> regionStart == address + pages * size.Bytes()
      ensures ok && FitsRegion(old(regionStart), pages, size) ==>
                address == RoundUp(old(regionStart), size) && Reserved(address, pages, size)
    {
      ghost var bump := regionStart;
      var bytes := RangeBytes(pages, size);
      GuardIs(regionStart, pages, size, bytes);
      ok, address := GetVirtualMemory(bytes, size);
      if ok && FitsRegion(bump, pages, size) {
        FittingRange(bump, pages, size, bytes);
        UnmappedLater(space.mem, space.root, bump, address);
        LiveWeaken(live, space.mem, space.root, bump, address);
      }
    }

    /** The same, as the outcome of a call that goes no further; `Mapped` means that it does. */
    method Reserve(pages: nat, size: PageSize) returns (result: Result, address: nat)
      requires Valid() && pages <= ENTRIES
      modifies this`regionStart
      ensures result == Mapped || result == NoAddressSpace || result == Overshot
      ensures RegionEnds(debug, old(regionStart), pages, size, result, address, regionStart)
      ensures result == NoAddressSpace ==> Valid()
      ensures result == Mapped ==> Reserved(address, pages, size)
      ensures space.pmm.Valid() && space.pmm.View() == old(space.pmm.View()) && live == old(live)
    {
      var fits := FitsRegion(regionStart, pages, size);
      var ok;
      MulMono(0, pages, size.Bytes());
      ok, address := ReserveRange(pages, size);
      result := if !ok then NoAddressSpace else if fits then Mapped else Overshot;
    }

    /** Physical pages for a range: they leave the free lists and are not handed out yet. */
    method TakeScattered(pages: nat, size: PageSize) returns (status: Status, runs: seq<PagedMemory>)
      requires space.Valid() && pages <= ENTRIES
      requires Accounts(space.pmm.View(), space.nodes, live, total)
      modifies space.pmm.Repr()
      ensures Took(old(space.pmm.View()), pages, size, status, runs)
      ensures status == Success ==>
                && space.Valid() && ListOk(runs, size) && Total(runs) == pages
                && AccountsWith(space.pmm.View(), space.nodes, live, runs, size, total)
      ensures space.pmm.Valid() && unchanged(space) && unchanged(this)
    {
      ghost var free := space.pmm.View();
      assert pages % 0x1_0000_0000 == pages;
      WritesPastExactly(free, pages, size, ENTRIES);
      status, runs := space.pmm.AllocPhysicalPages(pages, size, ENTRIES);
      if status == Success {
        ScatteredMovesAccount(free, space.nodes, live, total, pages, size);
      }
    }

    method TakeContiguous(pages: nat, size: PageSize) returns (status: Status, physical: nat)
      requires space.Valid() && pages <= ENTRIES
      requires Accounts(space.pmm.View(), space.nodes, live, total)
      modifies space.pmm.Repr()
      ensures status == match AllocContiguous(old(space.pmm.View()), pages, size)
                        case Done(_, _) => Success case NoMorePhysicalMemory => Fault case MetadataFull => Full
      ensures status == Success ==>
                && physical == AllocContiguous(old(space.pmm.View()), pages, size).value
                && space.Valid() && ListOk([PagedMemory(physical, pages)], size)
                && AccountsWith(space.pmm.View(), space.nodes, live, [PagedMemory(physical, pages)], size, total)
      ensures space.pmm.Valid() && unchanged(space) && unchanged(this)
    {
      ghost var free := space.pmm.View();
      status, physical := space.pmm.AllocContiguousPhysicalPages(pages, size);
      if status == Success {
        ContiguousMovesAccount(free, space.nodes, live, total, pages, size);
      }
    }

    /** The state between taking a range of the region and backing it with frames. */
    ghost predicate Reserved(virt: nat, pages: nat, size: PageSize)
      reads this, space, space.pmm.base, space.pmm.large, space.pmm.huge,
            space.pmm.base.buf, space.pmm.large.buf, space.pmm.huge.buf
    {
      && space.Valid() && HIGHER_HALF_START <= virt < TWO64 && virt % size.Bytes() == 0
      && regionStart == virt + pages * size.Bytes() <= KERNEL_SPACE_START
      && LiveOk(live, space.mem, space.root, virt)
      && Unmapped(space.mem, space.root, virt, KERNEL_SPACE_START - virt)
      && Accounts(space.pmm.View(), space.nodes, live, total)
    }

    /** Back a reserved range with scattered pages. */
    method FillScattered(virt: nat, pages: nat, size: PageSize) returns (status: Status)
      requires Reserved(virt, pages, size) && pages <= ENTRIES
      modifies this`live, space`mem, space`nodes, space.pmm.Repr()
      ensures status == Success ==> Valid() && HandedOut(old(live), live, virt, pages, size)
      ensures space.pmm.Valid()
              && ScatteredEnds(old(space.pmm.View()), pages, size, status,
                               LastFrames(live), space.pmm.View(), space.nodes, virt)
    {
      var runs;
      status, runs := TakeScattered(pages, size);
      if status == Success {
        assert Total(runs) * size.Bytes() == pages * size.Bytes();
        status := Publish(virt, runs, size);
        TookEnds(old(space.pmm.View()), pages, size, runs, status,
                 LastFrames(live), space.pmm.View(), space.nodes, virt);
      }
    }

    /** Back a reserved range with one contiguous run. */
    method FillContiguous(virt: nat, pages: nat, size: PageSize) returns (status: Status)
      requires Reserved(virt, pages, size) && pages <= ENTRIES
      modifies this`live, space`mem, space`nodes, space.pmm.Repr()
      ensures status == Success ==>
                Valid() && HandedOut(old(live), live, virt, pages, size)
      ensures space.pmm.Valid()
              && ContiguousEnds(old(space.pmm.View()), pages, size, status,
                                LastFrames(live), space.pmm.View(), space.nodes, virt)
    {
      var physical;
      status, physical := TakeContiguous(pages, size);
      if status == Success {
        SingleRun(PagedMemory(physical, pages), size);
        assert Total([PagedMemory(physical, pages)]) * size.Bytes() == pages * size.Bytes();
        status := Publish(virt, [PagedMemory(physical, pages)], size);
        GaveEnds(old(space.pmm.View()), pages, size, physical, status,
                 LastFrames(live), space.pmm.View(), space.nodes, virt);
      }
    }

    /** Reserve a range and back it with scattered pages. */
    method PlaceScattered(pages: nat, size: PageSize) returns (result: Result, address: nat)
      requires Valid() && pages <= ENTRIES
      modifies this`regionStart, this`live, space`mem, space`nodes, space.pmm.Repr()
      ensures result == Mapped ==> Valid() && HandedOut(old(live), live, address, pages, size)
      ensures result == NoAddressSpace ==> Valid() && live == old(live)
      ensures result != TooLarge
      ensures space.pmm.Valid()
      ensures RegionEnds(debug, old(regionStart), pages, size, result, address, regionStart)
      ensures result == Mapped || result.Faulted? ==>
                ScatteredEnds(old(space.pmm.View()), pages, size, StatusOf(result),
                              LastFrames(live), space.pmm.View(), space.nodes, address)
    {
      result, address := Reserve(pages, size);
      if result == Mapped {
        ghost var start, bump := old(regionStart), regionStart;
        var status := FillScattered(address, pages, size);
        result := Ended(status);
        StillEnds(debug, start, pages, size, status, address, bump);
      }
    }

    /** Reserve a range and back it with one contiguous run. */
    method PlaceContiguous(pages: nat, size: PageSize) returns (result: Result, address: nat)
      requires Valid() && pages <= ENTRIES
      modifies this`regionStart, this`live, space`mem, space`nodes, space.pmm.Repr()
      ensures result == Mapped ==>
                Valid() && HandedOut(old(live), live, address, pages, size)
      ensures result == NoAddressSpace ==> Valid() && live == old(live)
      ensures result != TooLarge
      ensures space.pmm.Valid()
      ensures RegionEnds(debug, old(regionStart), pages, size, result, address, regionStart)
      ensures result == Mapped || result.Faulted? ==>
                ContiguousEnds(old(space.pmm.View()), pages, size, StatusOf(result),
                               LastFrames(live), space.pmm.View(), space.nodes, address)
    {
      result, address := Reserve(pages, size);
      if result == Mapped {
        ghost var start, bump := old(regionStart), regionStart;
        var status := FillContiguous(address, pages, size);
        result := Ended(status);
        StillEnds(debug, start, pages, size, status, address, bump);
      }
    }

    /** `allocAndMapExplicit`. A successful call hands out one new range behind all others. */
    method AllocAndMapExplicit(numberOfPages: U64, preferredPageSize: U64) returns (result: Result, address: nat)
      requires Valid() && (preferredPageSize == 0 || PowerOfTwo(preferredPageSize))
      modifies this`regionStart, this`live, space`mem, space`nodes, space.pmm.Repr()
      ensures result == Mapped ==>
                && Valid()
                && HandedOut(old(live), live, address, PagesFor(numberOfPages, preferredPageSize),
                             SizeFor(preferredPageSize))
      ensures result == TooLarge <==> PagesFor(numberOfPages, preferredPageSize) > ENTRIES
      ensures result == TooLarge || result == NoAddressSpace ==> Valid() && live == old(live)
      ensures space.pmm.Valid()
      ensures result == Mapped || result.Faulted? ==>
                ScatteredEnds(old(space.pmm.View()), PagesFor(numberOfPages, preferredPageSize),
                              SizeFor(preferredPageSize), StatusOf(result),
                              LastFrames(live), space.pmm.View(), space.nodes, address)
      ensures result != TooLarge ==>
                RegionEnds(debug, old(regionStart), PagesFor(numberOfPages, preferredPageSize),
                           SizeFor(preferredPageSize), result, address, regionStart)
    {
      var count, size := ConvertPreferredPageToAvailablePages(preferredPageSize);
      var pages := (numberOfPages * count) % TWO64;
      if pages > ENTRIES {
        return TooLarge, 0;
      }
      result, address := PlaceScattered(pages, size);
    }

    /** `allocContiguousAndMap`. The frames behind the new range are one contiguous run. */
    method AllocContiguousAndMap(numberOfPages: U64, preferredPageSize: U64) returns (result: Result, address: nat)
      requires Valid() && (preferredPageSize == 0 || PowerOfTwo(preferredPageSize))
      modifies this`regionStart, this`live, space`mem, space`nodes, space.pmm.Repr()
      ensures result == Mapped ==>
                && Valid()
                && HandedOut(old(live), live, address, PagesFor(numberOfPages, preferredPageSize),
                             SizeFor(preferredPageSize))
      ensures result == TooLarge <==> PagesFor(numberOfPages, preferredPageSize) > ENTRIES
      ensures result == TooLarge || result == NoAddressSpace ==> Valid() && live == old(live)
      ensures space.pmm.Valid()
      ensures result == Mapped || result.Faulted? ==>
                ContiguousEnds(old(space.pmm.View()), PagesFor(numberOfPages, preferredPageSize),
                               SizeFor(preferredPageSize), StatusOf(result),
                               LastFrames(live), space.pmm.View(), space.nodes, address)
      ensures result != TooLarge ==>
                RegionEnds(debug, old(regionStart), PagesFor(numberOfPages, preferredPageSize),
                           SizeFor(preferredPageSize), result, address, regionStart)
    {
      var count, size := ConvertPreferredPageToAvailablePages(preferredPageSize);
      var pages := (numberOfPages * count) % TWO64;
      if pages > ENTRIES {
        return TooLarge, 0;
      }
      result, address := PlaceContiguous(pages, size);
    }

    /** `allocAndMap`: the smallest page size that needs at most half a table of pages, else huge
        pages. */
    method AllocAndMap(bytes: U64) returns (result: Result, address: nat)
      requires Valid()
      modifies this`regionStart, this`live, space`mem, space`nodes, space.pmm.Repr()
      ensures result == Mapped ==>
                && Valid()
                && HandedOut(old(live), live, address, ChosenPages(bytes), ChosenSize(bytes))
      ensures result == TooLarge <==> ChosenPages(bytes) > ENTRIES
      ensures result == TooLarge || result == NoAddressSpace ==> Valid() && live == old(live)
      ensures space.pmm.Valid()
      ensures result == Mapped || result.Faulted? ==>
                ScatteredEnds(old(space.pmm.View()), ChosenPages(bytes), ChosenSize(bytes), StatusOf(result),
                              LastFrames(live), space.pmm.View(), space.nodes, address)
      ensures result != TooLarge ==> RegionEnds(debug, old(regionStart), ChosenPages(bytes), ChosenSize(bytes), result,
                           address, regionStart)
    {
      var pages, size := ChoosePages(bytes);
      result, address := MapSized(pages, size);
    }

    /** `allocAndMapExplicit` with an available page size. */
    method MapSized(pages: nat, size: PageSize) returns (result: Result, address: nat)
      requires Valid() && pages < TWO64
      modifies this`regionStart, this`live, space`mem, space`nodes, space.pmm.Repr()
      ensures result == Mapped ==> Valid() && HandedOut(old(live), live, address, pages, size)
      ensures result == TooLarge <==> pages > ENTRIES
      ensures result == TooLarge || result == NoAddressSpace ==> Valid() && live == old(live)
      ensures space.pmm.Valid()
      ensures result == Mapped || result.Faulted? ==>
                ScatteredEnds(old(space.pmm.View()), pages, size, StatusOf(result),
                              LastFrames(live), space.pmm.View(), space.nodes, address)
      ensures result != TooLarge ==> RegionEnds(debug, old(regionStart), pages, size, result, address, regionStart)
    {
      PageSizesArePowers();
      SizedRequest(pages, size);
      result, address := AllocAndMapExplicit(pages, size.Bytes());
    }

    /** Map the runs one after the other from `virt` on. */
    method MapRuns(virt: U64, runs: seq<PagedMemory>, size: PageSize) returns (status: Status)
      requires space.Valid() && ListOk(runs, size) && virt % size.Bytes() == 0
      requires HIGHER_HALF_START <= virt && virt + Total(runs) * size.Bytes() <= KERNEL_SPACE_START
      requires Unmapped(space.mem, space.root, virt, Total(runs) * size.Bytes())
      modifies space`mem, space`nodes, space.pmm.Repr()
      ensures status == Success ==>
                && space.Valid()
                && SameOwned(old(space.pmm.View()), old(space.nodes), space.pmm.View(), space.nodes)
                && MappedSince(old(space.mem), space.mem, space.root, PageNumber(virt, size), Expand(runs, size), size)
      ensures space.pmm.Valid()
      ensures status != Success ==> NoTable(status, space.pmm.View(), space.nodes, virt, Total(runs), size)
    {
      ghost var start, first, n := space.mem, PageNumber(virt, size), Total(runs);
      ghost var free, nodes := space.pmm.View(), space.nodes;
      ghost var frames: seq<nat> := [];
      var virtualRegion: nat := virt;
      assert runs[..0] == [];
      for i := 0 to |runs|
        invariant frames == Expand(runs[..i], size) && |frames| == Total(runs[..i]) <= n
        invariant virtualRegion == virt + |frames| * size.Bytes()
        invariant space.Valid()
        invariant SameOwned(free, nodes, space.pmm.View(), space.nodes)
        invariant MappedSince(start, space.mem, space.root, first, frames, size)
      {
        assert runs[..i + 1][..i] == runs[..i];
        TotalPrefix(runs, i + 1);
        status, virtualRegion := MapRunBehind(virt, virtualRegion, runs[i], size, start, frames, n);
        if status != Success {
          return status;
        }
        frames := frames + FramesOf(runs[i], size);
      }
      assert runs[..|runs|] == runs;
      return Success;
    }

    /** Map one run behind `frames`, in a range of `n` pages from `virt` on. */
    method MapRunBehind(virt: U64, virtualRegion: nat, run: PagedMemory, size: PageSize,
                        ghost start: Memory, ghost frames: seq<nat>, ghost n: nat)
      returns (status: Status, next: nat)
      requires space.Valid() && EntryOk(run, size) && virt % size.Bytes() == 0
      requires HIGHER_HALF_START <= virt && virt + n * size.Bytes() <= KERNEL_SPACE_START
      requires |frames| + run.numberOfPages <= n && virtualRegion == virt + |frames| * size.Bytes()
      requires Unmapped(start, space.root, virt, n * size.Bytes())
      requires MappedSince(start, space.mem, space.root, PageNumber(virt, size), frames, size)
      modifies space`mem, space`nodes, space.pmm.Repr()
      ensures status == Success ==>
                && space.Valid()
                && next == virt + (|frames| + run.numberOfPages) * size.Bytes()
                && SameOwned(old(space.pmm.View()), old(space.nodes), space.pmm.View(), space.nodes)
                && MappedSince(start, space.mem, space.root, PageNumber(virt, size), frames + FramesOf(run, size), size)
      ensures space.pmm.Valid()
      ensures status != Success ==> NoTable(status, space.pmm.View(), space.nodes, virt, n, size)
    {
      NextRun(virt, |frames|, run, n, size, virtualRegion);
      NothingLarger(space.mem, start, space.root, virt, frames, run.numberOfPages, n, size);
      status := MapOneRun(virtualRegion, run, size, start, PageNumber(virt, size), frames);
      next := Behind(virtualRegion, run, size);
      if status != Success {
        NoTableInside(status, space.pmm.View(), space.nodes, virtualRegion, run.numberOfPages, virt, |frames|, n, size);
      }
    }

    /** `mapVirtualRegion` behind frames already mapped since the tables were `start`. */
    method MapOneRun(virtualRegion: U64, run: PagedMemory, size: PageSize,
                     ghost start: Memory, ghost first: nat, ghost frames: seq<nat>)
      returns (status: Status)
      requires space.Valid() && RegionOk(virtualRegion, run, size) && HIGHER_HALF_START <= virtualRegion
      requires PageNumber(virtualRegion, size) == first + |frames|
      requires NoLargerPage(space.mem, space.root, first + |frames|, run.numberOfPages, size)
      requires MappedSince(start, space.mem, space.root, first, frames, size)
      modifies space`mem, space`nodes, space.pmm.Repr()
      ensures status == Success ==>
                && space.Valid()
                && SameOwned(old(space.pmm.View()), old(space.nodes), space.pmm.View(), space.nodes)
                && MappedSince(start, space.mem, space.root, first, frames + FramesOf(run, size), size)
      ensures space.pmm.Valid()
      ensures status != Success ==>
                NoTable(status, space.pmm.View(), space.nodes, virtualRegion, run.numberOfPages, size)
    {
      ghost var mid := space.mem;
      HigherHalf(virtualRegion);
      status := space.MapVirtualRegionWithFlags(virtualRegion, run, size, 0);
      if status == Success {
        forall v: U64
          ensures Translate(space.mem, space.root, v, 0)
               == AfterFrames(Translate(start, space.root, v, 0), v, first, frames + FramesOf(run, size), size)
        {
          assert Translate(space.mem, space.root, v, 0)
              == AfterMapping(Translate(mid, space.root, v, 0), v, PageNumber(virtualRegion, size), run.numberOfPages,
                              run.pageStart, 0, size);
          FramesGrow(Translate(start, space.root, v, 0), Translate(mid, space.root, v, 0), v, first, frames, run,
                     PageNumber(virtualRegion, size), size);
        }
      }
    }

    /** `freeMapped` on a whole live range: its frames return to the free lists, every other range
        stays as it is. */
    method FreeLive(start: U64, bytes: nat, ghost i: nat) returns (status: Status)
      requires Valid() && i < |live| && start == live[i].start && bytes == live[i].Bytes()
      requires live[i].frames != [] && FramesReadable(live[i].frames)
      modifies this`live, space.pmm.Repr()
      ensures status == Success ==> Valid() && live == Without(old(live), i)
      ensures status == Success <==> FreeAll(old(space.pmm.View()), Runs(PagesOfMapping(old(live)[i]))).Done?
    {
      ghost var free := space.pmm.View();
      LiveRanges(live, space.mem, space.root, regionStart, i);
      ghost var walk := RangeWalk(space.mem, space.root, space.nodes, live[i], bytes);
      status := FreeRange(start, bytes, walk, PagesOfMapping(live[i]));
      if status == Success {
        Forget(i, free);
      }
    }

    /** `freeMapped` on the pages `j` to `k` of a live range: their frames return to the free lists, and
        what is in front of them and behind them stays live as two ranges. */
    method FreePart(start: U64, bytes: nat, ghost i: nat, ghost j: nat, ghost k: nat) returns (status: Status)
      requires Valid() && i < |live| && j < k <= |live[i].frames| && FramesReadable(live[i].frames[j..k])
      requires start == live[i].start + j * live[i].size.Bytes() && bytes == (k - j) * live[i].size.Bytes()
      modifies this`live, space.pmm.Repr()
      ensures status == Success ==> Valid() && live == Parted(old(live), i, j, k)
      ensures status == Success
          <==> FreeAll(old(space.pmm.View()), Runs(PagesOfMapping(Part(old(live)[i], j, k)))).Done?
    {
      ghost var parts := Cut(Cut(live, i, k), i, j);
      CutOut(live, space.mem, space.root, regionStart, space.pmm.View(), space.nodes, total, i, j, k);
      live := parts;
      status := FreeLive(start, bytes, i + 1);
    }

    /** The range of one mapping gives back the runs of its own pages. */
    method FreeRange(start: U64, bytes: nat, ghost walk: Walk, ghost pages: seq<FramePage>) returns (status: Status)
      requires space.pmm.Valid() && Walked(walk, space.mem, space.root, start, bytes, pages)
      modifies space.pmm.Repr()
      ensures space.pmm.Valid() && unchanged(space)
      ensures Reports(FreeAll(old(space.pmm.View()), Runs(pages)), status, space.pmm.View())
    {
      status := FreeMapped(start, bytes, walk);
    }

    /** Drop a range whose frames have returned to the free lists. */
    ghost method Forget(i: nat, free: Managers)
      requires space.pmm.Valid() && Tree(space.mem, space.root, space.nodes) && Ok(free)
      requires KernelOk(live, space.mem, space.root, regionStart, free, space.nodes, total) && i < |live|
      requires Reports(FreeAll(free, Runs(PagesOfMapping(live[i]))), Success, space.pmm.View())
      modifies this`live
      ensures Valid() && live == Without(old(live), i)
    {
      ReleaseKeepsKernel(live, space.mem, space.root, regionStart, free, space.nodes, total, i, space.pmm.View());
      live := Without(live, i);
    }

    /** The walk of one address, as the frame and page size `freeMapped` uses. */
    method WalkPage(v: U64, ghost walk: Walk) returns (p: FramePage)
      requires space.pmm.Valid() && WalksAs(walk, space.mem, space.root)
      ensures p == walk(v)
      ensures space.pmm.Valid() && space.pmm.View() == old(space.pmm.View()) && unchanged(space)
    {
      var page := space.GetMappedPage(v);
      FrameMaskIs(page.entry);
      p := FramePage(PhysicalAddressFrame(page.entry), SizeOf(page.pageSize));
      assert p == PageAt(space.mem, space.root, v);
    }

    /** `freeMapped`: step through the range page by page and give the frames back, one entry per run
        of consecutive frames of one size. The pages stay mapped. */
    method FreeMapped(start: U64, bytes: nat, ghost walk: Walk) returns (status: Status)
      requires space.pmm.Valid() && WalksAs(walk, space.mem, space.root)
      requires start + bytes < TWO64 && start + walk(start).size.Bytes() < TWO64
      requires StepsFit(walk, RoundUp(start, walk(start).size), start + bytes)
      modifies space.pmm.Repr()
      ensures space.pmm.Valid() && unchanged(space)
      ensures Reports(FreeAll(old(space.pmm.View()), Runs(PagesFreed(walk, start, start + bytes))), status,
                      space.pmm.View())
    {
      var p := WalkPage(start, walk);
      ghost var state := space.pmm.View();
      var current := FirstBoundary(start, p.size);
      assert space.pmm.View() == state;
      PagesFreedFrom(walk, start, start + bytes);
      if current != start && current >= start + bytes {
        return Success;
      }
      status := FreePagesFrom(current, start + bytes, walk);
    }

    /** One round of the loop: the page joins the current run, or the run is freed and a new one
        starts. */
    method TakePage(run: Held, nextPhysical: nat, p: FramePage, ghost rest: seq<FramePage>, ghost state: Managers)
      returns (status: Status, run': Held, ghost state': Managers)
      requires space.pmm.Valid() && space.pmm.View() == state && nextPhysical == RunEnd(run)
      modifies space.pmm.Repr()
      ensures space.pmm.Valid() && unchanged(space)
      ensures status == Success ==>
                && space.pmm.View() == state' && p.frame + p.size.Bytes() == RunEnd(run')
                && FreeAll(state', Gather(run', rest)) == FreeAll(state, Gather(run, [p] + rest))
      ensures status != Success ==> status == Full && FreeAll(state, Gather(run, [p] + rest)) == MetadataFull
    {
      if p.frame == nextPhysical && run.size == p.size {
        GatherExtends(run, p, rest);
        status, run' := Success, Longer(run);
      } else {
        GatherCloses(state, run, p, rest);
        RunsStart(p, rest);
        status := space.pmm.FreePhysicalPages([run.run], run.size);
        run' := OnePage(p);
      }
      state' := space.pmm.View();
    }

    /** Walk one page on and take it in. */
    method StepPage(run: Held, nextPhysical: nat, current: U64, end: nat, ghost walk: Walk,
                    ghost rest: seq<FramePage>, ghost state: Managers)
      returns (status: Status, run': Held, next': nat, current': nat, ghost rest': seq<FramePage>,
               ghost state': Managers)
      requires space.pmm.Valid() && space.pmm.View() == state && WalksAs(walk, space.mem, space.root)
      requires nextPhysical == RunEnd(run) && current < end < TWO64
      requires StepsFit(walk, current, end) && rest == PagesFrom(walk, current, end)
      modifies space.pmm.Repr()
      ensures space.pmm.Valid() && unchanged(space)
      ensures status == Success ==>
                && space.pmm.View() == state' && next' == RunEnd(run') && current < current' < TWO64
                && StepsFit(walk, current', end) && rest' == PagesFrom(walk, current', end)
                && FreeAll(state', Gather(run', rest')) == FreeAll(state, Gather(run, rest))
      ensures status != Success ==> status == Full && FreeAll(state, Gather(run, rest)) == MetadataFull
    {
      var p := WalkPage(current, walk);
      PagesFromStep(walk, current, end);
      current' := current + p.size.Bytes();
      rest' := PagesFrom(walk, current', end);
      status, run', state' := TakePage(run, nextPhysical, p, rest', state);
      next' := p.frame + p.size.Bytes();
    }

    /** The loop of `freeMapped`, from a page that is freed in any case. */
    method FreePagesFrom(start: U64, end: nat, ghost walk: Walk) returns (status: Status)
      requires space.pmm.Valid() && WalksAs(walk, space.mem, space.root)
      requires end < TWO64 && start + walk(start).size.Bytes() < TWO64
      requires StepsFit(walk, start + walk(start).size.Bytes(), end)
      modifies space.pmm.Repr()
      ensures space.pmm.Valid() && unchanged(space)
      ensures Reports(FreeAll(old(space.pmm.View()), Runs(PagesFromPage(walk, start, end))), status, space.pmm.View())
    {
      var p := WalkPage(start, walk);
      RunsStart(p, PagesFrom(walk, start + p.size.Bytes(), end));
      status := FreeRuns(OnePage(p), p.frame + p.size.Bytes(), start + p.size.Bytes(), end, walk);
    }

    method FreeRuns(first: Held, next: nat, start: U64, end: nat, ghost walk: Walk) returns (status: Status)
      requires space.pmm.Valid() && WalksAs(walk, space.mem, space.root)
      requires end < TWO64 && next == RunEnd(first) && StepsFit(walk, start, end)
      modifies space.pmm.Repr()
      ensures space.pmm.Valid() && unchanged(space)
      ensures Reports(FreeAll(old(space.pmm.View()), Gather(first, PagesFrom(walk, start, end))), status,
                      space.pmm.View())
    {
      var run, nextPhysical, current := first, next, start;
      ghost var state := space.pmm.View();
      ghost var rest := PagesFrom(walk, current, end);
      ghost var all := FreeAll(state, Gather(run, rest));
      while current < end
        invariant space.pmm.Valid() && unchanged(space)
        invariant space.pmm.View() == state && all == FreeAll(state, Gather(run, rest))
        invariant nextPhysical == RunEnd(run) && current < TWO64
        invariant StepsFit(walk, current, end) && rest == PagesFrom(walk, current, end)
        decreases end - current
      {
        status, run, nextPhysical, current, rest, state := StepPage(run, nextPhysical, current, end, walk, rest, state);
        if status != Success {
          return status;
        }
      }
      assert rest == [];
      GatherEnds(state, run);
      status := space.pmm.FreePhysicalPages([run.run], run.size);
    }
  }

  lemma RangeFreed(mem: Memory, root: nat, nodes: map<Node, nat>, m: Mapping)
    requires Tree(mem, root, nodes) && Backed(mem, root, m) && FramesReadable(m.frames) && m.frames != []
    requires RangeOk(m, KERNEL_SPACE_START)
    ensures PagesFreed(Walker(mem, root), m.start, m.End()) == PagesOfMapping(m)
    ensures RoundUp(m.start, Walker(mem, root)(m.start).size) == m.start
    ensures m.start + Walker(mem, root)(m.start).size.Bytes() < TWO64
    ensures StepsFit(Walker(mem, root), m.start, m.End())
  {
    RoundUpIs(m.start, m.size);
    HigherHalf(m.start);
    assert m.start + 0 * m.size.Bytes() == m.start;
    MappingServes(mem, root, nodes, m, 0, m.start);
    assert PagesOfMapping(m)[0..] == PagesOfMapping(m);
    EndsAtEnd(PagesOfMapping(m), m.start);
    ServedFreed(Walker(mem, root), PagesOfMapping(m), m.start, m.End());
    ServedFits(Walker(mem, root), PagesOfMapping(m), m.start);
  }

  /** `freeMapped` steps from `start` through `bytes` bytes over these pages. */
  ghost predicate Walked(walk: Walk, mem: Memory, root: nat, start: U64, bytes: nat, pages: seq<FramePage>) {
    && WalksAs(walk, mem, root) && start + bytes < TWO64 && start + walk(start).size.Bytes() < TWO64
    && StepsFit(walk, RoundUp(start, walk(start).size), start + bytes)
    && PagesFreed(walk, start, start + bytes) == pages
  }

  /** The same, with a name for the walks. */
  lemma RangeWalk(mem: Memory, root: nat, nodes: map<Node, nat>, m: Mapping, bytes: nat) returns (walk: Walk)
    requires Tree(mem, root, nodes) && Backed(mem, root, m) && FramesReadable(m.frames) && m.frames != []
    requires RangeOk(m, KERNEL_SPACE_START) && bytes == m.Bytes()
    ensures m.start < TWO64 && Walked(walk, mem, root, m.start, bytes, PagesOfMapping(m))
  {
    walk := Walker(mem, root);
    RangeFreed(mem, root, nodes, m);
  }

  /** Where page `j` of a range starts. */
  function PageStart(m: Mapping, j: nat): U64 {
    if m.start + j * m.size.Bytes() < TWO64 then m.start + j * m.size.Bytes() else 0
  }

  /** The pages of a range from `j` to `k`, as a range of their own. */
  function Part(m: Mapping, j: nat, k: nat): Mapping
    requires j <= k <= |m.frames|
  {
    Mapping(PageStart(m, j), m.size, m.frames[j..k])
  }

  /** The live ranges with the i-th cut in two at page `j`. */
  ghost function Cut(live: seq<Mapping>, i: nat, j: nat): seq<Mapping>
    requires i < |live| && j <= |live[i].frames|
  {
    live[..i] + [Part(live[i], 0, j), Part(live[i], j, |live[i].frames|)] + live[i + 1..]
  }

  /** The live ranges without pages `j` to `k` of the i-th. */
  ghost function Parted(live: seq<Mapping>, i: nat, j: nat, k: nat): seq<Mapping>
    requires i < |live| && j <= k <= |live[i].frames|
  {
    live[..i] + [Part(live[i], 0, j), Part(live[i], k, |live[i].frames|)] + live[i + 1..]
  }

  lemma PartStart(m: Mapping, j: nat, bump: nat)
    requires RangeOk(m, bump) && bump <= KERNEL_SPACE_START && j <= |m.frames|
    ensures PageStart(m, j) == m.start + j * m.size.Bytes() && m.start <= PageStart(m, j) <= m.End()
    ensures PageStart(m, j) % m.size.Bytes() == 0
    ensures PageNumber(PageStart(m, j), m.size) == PageNumber(m.start, m.size) + j
  {
    var b := m.size.Bytes();
    MulMono(0, j, b);
    MulMono(j, |m.frames|, b);
    HigherHalf(m.start);
    MulDist(m.start / b, j, b);
    DivMod(m.start + j * b, b, m.start / b + j, 0);
    match m.size {
      case Base => PageAdvances(m.start, j, 4096);
      case Large => PageAdvances(m.start, j, 0x20_0000);
      case Huge => PageAdvances(m.start, j, 0x4000_0000);
    }
  }

  /** A part of a range is a range, from its first page to its last. */
  lemma PartRange(m: Mapping, j: nat, k: nat, bump: nat)
    requires RangeOk(m, bump) && bump <= KERNEL_SPACE_START && j <= k <= |m.frames|
    ensures Part(m, j, k).End() == PageStart(m, k) && RangeOk(Part(m, j, k), PageStart(m, k))
  {
    PartStart(m, j, bump);
    PartStart(m, k, bump);
    MulDist(j, k - j, m.size.Bytes());
  }

  /** A part of a backed range is backed. */
  lemma PartBacked(mem: Memory, root: nat, m: Mapping, j: nat, k: nat, bump: nat)
    requires RangeOk(m, bump) && bump <= KERNEL_SPACE_START && Backed(mem, root, m) && j <= k <= |m.frames|
    ensures Backed(mem, root, Part(m, j, k))
  {
    PartStart(m, j, bump);
    forall v: U64 | Within(v, PageStart(m, j), Part(m, j, k).Bytes()) ensures PageBacked(mem, root, Part(m, j, k), v) {
      PartPageBacked(mem, root, m, j, k, v);
    }
  }

  /** The clause of `Backed` for one address. */
  ghost predicate PageBacked(mem: Memory, root: nat, m: Mapping, v: U64) {
    && PageNumber(m.start, m.size) <= PageNumber(v, m.size) < PageNumber(m.start, m.size) + |m.frames|
    && Translate(mem, root, v, 0)
         == Some(MappedPage(LeafEntry(m.frames[PageNumber(v, m.size) - PageNumber(m.start, m.size)], 0, m.size),
                            m.size.Bytes()))
  }

  lemma PartPageBacked(mem: Memory, root: nat, m: Mapping, j: nat, k: nat, v: U64)
    requires Backed(mem, root, m) && j <= k <= |m.frames| && m.start % m.size.Bytes() == 0
    requires PageStart(m, j) % m.size.Bytes() == 0
    requires PageNumber(PageStart(m, j), m.size) == PageNumber(m.start, m.size) + j
    requires Within(v, PageStart(m, j), (k - j) * m.size.Bytes())
    ensures PageBacked(mem, root, Part(m, j, k), v)
  {
    PartPageNumber(m, j, k, v);
    assert PageBacked(mem, root, m, v);
    PartFrame(m, j, k, PageNumber(v, m.size) - PageNumber(m.start, m.size));
  }

  lemma PartPageNumber(m: Mapping, j: nat, k: nat, v: U64)
    requires j <= k <= |m.frames| && m.start % m.size.Bytes() == 0 && PageStart(m, j) % m.size.Bytes() == 0
    requires PageNumber(PageStart(m, j), m.size) == PageNumber(m.start, m.size) + j
    requires Within(v, PageStart(m, j), (k - j) * m.size.Bytes())
    ensures PageNumber(m.start, m.size) + j <= PageNumber(v, m.size) < PageNumber(m.start, m.size) + k
    ensures Within(v, m.start, m.Bytes())
  {
    WithinPages(v, PageStart(m, j), k - j, m.size);
    WithinPages(v, m.start, |m.frames|, m.size);
  }

  lemma PartFrame(m: Mapping, j: nat, k: nat, f: nat)
    requires j <= f < k <= |m.frames|
    ensures Part(m, j, k).frames[f - j] == m.frames[f]
  {
  }

  lemma LiveAppend(live: seq<Mapping>, mem: Memory, root: nat, m: Mapping, bump: nat)
    requires LiveOk(live, mem, root, m.start) && RangeOk(m, bump) && Backed(mem, root, m)
    ensures LiveOk(live + [m], mem, root, bump)
  {
    assert (live + [m])[..|live|] == live;
  }

  lemma {:induction false} CutKeepsLive(live: seq<Mapping>, mem: Memory, root: nat, bump: nat, i: nat, j: nat)
    requires LiveOk(live, mem, root, bump) && bump <= KERNEL_SPACE_START && i < |live| && j <= |live[i].frames|
    ensures LiveOk(Cut(live, i, j), mem, root, bump)
    decreases |live|
  {
    var n := |live| - 1;
    var m := live[n];
    LastLive(live, mem, root, bump);
    if i == n {
      CutLast(live[..n], mem, root, m, j, bump);
    } else {
      CutKeepsLive(live[..n], mem, root, m.start, i, j);
      LiveAppend(Cut(live[..n], i, j), mem, root, m, bump);
    }
    CutShape(live, i, j);
  }

  lemma LastLive(live: seq<Mapping>, mem: Memory, root: nat, bump: nat)
    requires LiveOk(live, mem, root, bump) && live != []
    ensures var m := live[|live| - 1];
            && RangeOk(m, bump) && m.start <= bump && Backed(mem, root, m)
            && LiveOk(live[..|live| - 1], mem, root, m.start)
  {
  }

  lemma CutShape(live: seq<Mapping>, i: nat, j: nat)
    requires i < |live| && j <= |live[i].frames|
    ensures var n := |live| - 1;
            Cut(live, i, j)
            == if i == n then live[..n] + [Part(live[n], 0, j)] + [Part(live[n], j, |live[n].frames|)]
               else Cut(live[..n], i, j) + [live[n]]
  {
  }

  lemma CutLast(live: seq<Mapping>, mem: Memory, root: nat, m: Mapping, j: nat, bump: nat)
    requires LiveOk(live, mem, root, m.start) && RangeOk(m, bump) && bump <= KERNEL_SPACE_START
    requires Backed(mem, root, m) && j <= |m.frames|
    ensures LiveOk(live + [Part(m, 0, j)] + [Part(m, j, |m.frames|)], mem, root, bump)
  {
    PartRange(m, 0, j, bump);
    PartRange(m, j, |m.frames|, bump);
    PartBacked(mem, root, m, 0, j, bump);
    PartBacked(mem, root, m, j, |m.frames|, bump);
    PartStart(m, |m.frames|, bump);
    assert PageStart(m, 0) == m.start;
    LiveAppend(live, mem, root, Part(m, 0, j), PageStart(m, j));
    LiveAppend(live + [Part(m, 0, j)], mem, root, Part(m, j, |m.frames|), bump);
  }

  lemma {:induction false} CutCounts(live: seq<Mapping>, i: nat, j: nat, a: nat)
    requires i < |live| && j <= |live[i].frames|
    ensures DataCount(Cut(live, i, j), a) == DataCount(live, a)
    decreases |live|
  {
    var n := |live| - 1;
    var m := live[n];
    assert live == live[..n] + [m];
    DataCountConcat(live[..n], m, a);
    CutShape(live, i, j);
    if i == n {
      var front, back := Part(m, 0, j), Part(m, j, |m.frames|);
      assert m.frames == front.frames + back.frames;
      FrameCountConcat(front.frames, back.frames, m.size, a);
      DataCountConcat(live[..n], front, a);
      DataCountConcat(live[..n] + [front], back, a);
    } else {
      CutCounts(live[..n], i, j, a);
      DataCountConcat(Cut(live[..n], i, j), m, a);
    }
  }

  /** Where a live range is cut makes no difference to the kernel. */
  lemma CutKeepsKernel(live: seq<Mapping>, mem: Memory, root: nat, bump: nat, free: Managers, nodes: map<Node, nat>,
                       total: nat -> nat, i: nat, j: nat)
    requires KernelOk(live, mem, root, bump, free, nodes, total) && i < |live| && j <= |live[i].frames|
    ensures KernelOk(Cut(live, i, j), mem, root, bump, free, nodes, total)
  {
    CutKeepsLive(live, mem, root, bump, i, j);
    forall a: nat ensures Owned(free, nodes, a) + DataCount(Cut(live, i, j), a) == total(a) <= 1 {
      CutCounts(live, i, j, a);
    }
  }

  /** Cut behind page `k` and in front of page `j`, the middle part is what lies between. */
  lemma CutTwice(live: seq<Mapping>, i: nat, j: nat, k: nat)
    requires i < |live| && j <= k <= |live[i].frames|
    ensures |Cut(live, i, k)| == |live| + 1 && |Cut(live, i, k)[i].frames| == k
    ensures var parts := Cut(Cut(live, i, k), i, j);
            |parts| == |live| + 2 && parts[i + 1] == Part(live[i], j, k)
              && Without(parts, i + 1) == Parted(live, i, j, k)
  {
    var m := live[i];
    assert PageStart(m, 0) == m.start && PageStart(Part(m, 0, k), 0) == m.start;
    assert m.frames[0..k][0..j] == m.frames[0..j] && m.frames[0..k][j..k] == m.frames[j..k];
    var once := Cut(live, i, k);
    assert once[..i] == live[..i] && once[i] == Part(m, 0, k);
    assert once[i + 1..] == [Part(m, k, |m.frames|)] + live[i + 1..];
  }

  /** The pages to be freed can be seen as a live range of their own. */
  lemma CutOut(live: seq<Mapping>, mem: Memory, root: nat, bump: nat, free: Managers, nodes: map<Node, nat>,
               total: nat -> nat, i: nat, j: nat, k: nat)
    requires KernelOk(live, mem, root, bump, free, nodes, total) && i < |live| && j <= k <= |live[i].frames|
    ensures |Cut(live, i, k)| == |live| + 1 && |Cut(live, i, k)[i].frames| == k
    ensures KernelOk(Cut(Cut(live, i, k), i, j), mem, root, bump, free, nodes, total)
    ensures var parts, middle := Cut(Cut(live, i, k), i, j), Part(live[i], j, k);
            && |parts| == |live| + 2 && parts[i + 1] == middle && Without(parts, i + 1) == Parted(live, i, j, k)
            && middle.start == live[i].start + j * live[i].size.Bytes()
            && middle.Bytes() == (k - j) * live[i].size.Bytes()
  {
    LiveRanges(live, mem, root, bump, i);
    PartStart(live[i], j, bump);
    CutTwice(live, i, j, k);
    CutKeepsKernel(live, mem, root, bump, free, nodes, total, i, k);
    CutKeepsKernel(Cut(live, i, k), mem, root, bump, free, nodes, total, i, j);
  }

  /** The live ranges without the i-th. */
  function Without(live: seq<Mapping>, i: nat): seq<Mapping>
    requires i < |live|
  {
    live[..i] + live[i + 1..]
  }

  lemma WithoutPrefix(live: seq<Mapping>, i: nat)
    requires i < |live| - 1
    ensures |Without(live, i)| == |live| - 1
    ensures Without(live, i)[|live| - 2] == live[|live| - 1]
    ensures Without(live, i)[..|live| - 2] == Without(live[..|live| - 1], i)
  {}

  lemma {:induction false} DataCountWithout(live: seq<Mapping>, i: nat, a: nat)
    requires i < |live|
    ensures DataCount(live, a) == DataCount(Without(live, i), a) + FrameCount(live[i].frames, live[i].size, a)
    decreases |live|
  {
    var k := |live| - 1;
    if i == k {
      assert Without(live, i) == live[..k];
    } else {
      DataCountWithout(live[..k], i, a);
      WithoutPrefix(live, i);
    }
  }

  lemma {:induction false} LiveWithout(live: seq<Mapping>, mem: Memory, root: nat, bump: nat, i: nat)
    requires LiveOk(live, mem, root, bump) && i < |live|
    ensures LiveOk(Without(live, i), mem, root, bump)
    decreases |live|
  {
    var k := |live| - 1;
    if i == k {
      assert Without(live, i) == live[..k];
      LiveWeaken(live[..k], mem, root, live[k].start, bump);
    } else {
      LiveWithout(live[..k], mem, root, live[k].start, i);
      WithoutPrefix(live, i);
    }
  }

  lemma LiveWeaken(live: seq<Mapping>, mem: Memory, root: nat, bump: nat, bump': nat)
    requires LiveOk(live, mem, root, bump) && bump <= bump'
    ensures LiveOk(live, mem, root, bump')
  {}

  /** Giving a range back moves its frames from handed out to free. */
  lemma ReleaseKeepsKernel(live: seq<Mapping>, mem: Memory, root: nat, bump: nat, free: Managers, nodes: map<Node, nat>,
                           total: nat -> nat, i: nat, free': Managers)
    requires KernelOk(live, mem, root, bump, free, nodes, total) && Ok(free) && i < |live|
    requires Reports(FreeAll(free, Runs(PagesOfMapping(live[i]))), Success, free')
    ensures KernelOk(Without(live, i), mem, root, bump, free', nodes, total)
    ensures Ok(free') && forall a: nat :: Owned(free', nodes, a) <= 1
  {
    LiveRanges(live, mem, root, bump, i);
    FreeMappingOk(free, live[i]);
    LiveWithout(live, mem, root, bump, i);
    forall a: nat ensures Owned(free', nodes, a) + DataCount(Without(live, i), a) == total(a) <= 1 {
      assert Owned(free, nodes, a) + DataCount(live, a) == total(a) <= 1;
      FreeMappingAdds(free, live[i], a);
      DataCountWithout(live, i, a);
    }
  }

  /** A name for what the walker finds in these tables. */
  ghost predicate WalksAs(walk: Walk, mem: Memory, root: nat) {
    forall v: U64 {:trigger PageAt(mem, root, v)} :: walk(v) == PageAt(mem, root, v)
  }

  /** How a call that frees ends, and the lists it leaves. */
  ghost predicate Reports(outcome: FreeLists.Outcome<()>, status: Status, state: Managers) {
    if outcome.Done? then status == Success && state == outcome.state else status == Full
  }

  /** The alignment test and the align-up of `freeMapped`. */
  method FirstBoundary(start: U64, size: PageSize) returns (current: nat)
    requires start + size.Bytes() <= TWO64
    ensures current == RoundUp(start, size) && current < TWO64
  {
    PageSizesArePowers();
    RingRangeIsMod(start, size.Bytes());
    RoundUpIs(start, size);
    current := start;
    if RingRange(start, size.Bytes()) != 0 {
      AlignUpIsNext(start, size.Bytes());
      current := AlignUp(start, size.Bytes());
    }
  }

  /** The pages freed are those from the first boundary on. */
  lemma PagesFreedFrom(walk: Walk, start: U64, end: nat)
    requires start <= end <= TWO64
    ensures var current := RoundUp(start, walk(start).size);
            PagesFreed(walk, start, end)
              == if current < TWO64
                && (current == start || current < end) then PagesFromPage(walk, current, end) else []
  {}

  /** Closing a run frees it before the runs behind it. */
  lemma GatherCloses(state: Managers, run: Held, p: FramePage, rest: seq<FramePage>)
    requires !Extends(run, p)
    ensures var f := FreePages(state, [run.run], run.size);
            FreeAll(state, Gather(run, [p] + rest)) == if f.Done? then FreeAll(f.state, Gather(OnePage(p), rest))
              else MetadataFull
  {
    assert ([p] + rest)[1..] == rest;
    var runs := Gather(OnePage(p), rest);
    assert ([run] + runs)[1..] == runs;
  }

  lemma GatherEnds(state: Managers, run: Held)
    ensures var f := FreePages(state, [run.run], run.size);
            FreeAll(state, Gather(run, [])) == if f.Done? then f else MetadataFull
  {
    var f := FreePages(state, [run.run], run.size);
    if f.Done? { assert FreeAll(f.state, [run][1..]) == Done((), f.state); }
  }

  lemma AlignUpIsNext(v: U64, align: U64)
    requires PowerOfTwo(align) && v + align <= TWO64
    ensures AlignUp(v, align) == (v + (align - 1)) / align * align < v + align
  {
    AlignUpIsQuotient(v, align);
    CeilingOf(v, align);
  }

  /** Memory that is neither free nor a table nor handed out yet: it was just allocated. */
  ghost predicate AccountsWith(free: Managers, nodes: map<Node, nat>, live: seq<Mapping>, runs: seq<PagedMemory>,
                               size: PageSize, total: nat -> nat) {
    forall a: nat :: Owned(free, nodes, a) + DataCount(live, a) + Count(runs, size, a) == total(a) <= 1
  }

  lemma AllocationMovesAccount(free: Managers, free': Managers, nodes: map<Node, nat>, live: seq<Mapping>,
                               runs: seq<PagedMemory>, size: PageSize, total: nat -> nat)
    requires Accounts(free, nodes, live, total) && Conserves(free, free', runs, size)
    ensures AccountsWith(free', nodes, live, runs, size, total)
    ensures forall a: nat :: Owned(free', nodes, a) <= 1
  {
    forall a: nat
      ensures Owned(free', nodes, a) + DataCount(live, a) + Count(runs, size, a) == total(a) <= 1
    {
      assert Owned(free, nodes, a) + DataCount(live, a) == total(a) <= 1;
    }
  }

  lemma ScatteredMovesAccount(free: Managers, nodes: map<Node, nat>, live: seq<Mapping>, total: nat -> nat, pages: nat,
                              size: PageSize)
    requires Ok(free) && Accounts(free, nodes, live, total) && AllocPages(free, pages, size).Done?
    ensures var r := AllocPages(free, pages, size);
            && Ok(r.state) && ListOk(r.value, size) && Total(r.value) == pages
            && AccountsWith(r.state, nodes, live, r.value, size, total)
            && forall a: nat :: Owned(r.state, nodes, a) <= 1
  {
    PagesConserve(free, pages, size);
    AllocationMovesAccount(free, AllocPages(free, pages, size).state, nodes, live, AllocPages(free, pages, size).value,
                           size, total);
  }

  lemma ContiguousMovesAccount(free: Managers, nodes: map<Node, nat>, live: seq<Mapping>, total: nat -> nat,
                               pages: nat, size: PageSize)
    requires Ok(free) && Accounts(free, nodes, live, total) && AllocContiguous(free, pages, size).Done?
    ensures var r := AllocContiguous(free, pages, size);
            && Ok(r.state) && ListOk([PagedMemory(r.value, pages)], size)
            && AccountsWith(r.state, nodes, live, [PagedMemory(r.value, pages)], size, total)
            && forall a: nat :: Owned(r.state, nodes, a) <= 1
  {
    ContiguousConserves(free, pages, size);
    var r := AllocContiguous(free, pages, size);
    AllocationMovesAccount(free, r.state, nodes, live, [PagedMemory(r.value, pages)], size, total);
  }

  lemma PublishingMovesAccount(free: Managers, nodes: map<Node, nat>, free': Managers, nodes': map<Node, nat>,
                               live: seq<Mapping>, runs: seq<PagedMemory>, m: Mapping, total: nat -> nat)
    requires AccountsWith(free, nodes, live, runs, m.size, total)
    requires SameOwned(free, nodes, free', nodes') && m.frames == Expand(runs, m.size)
    ensures Accounts(free', nodes', live + [m], total)
  {
    forall a: nat ensures Owned(free', nodes', a) + DataCount(live + [m], a) == total(a) <= 1 {
      assert Owned(free, nodes, a) + DataCount(live, a) + Count(runs, m.size, a) == total(a) <= 1;
      assert Owned(free', nodes', a) == Owned(free, nodes, a);
      DataCountConcat(live, m, a);
      ExpandCounts(runs, m.size, a);
    }
  }

  /** A new range behind all others keeps the others backed. */
  lemma PublishingKeepsLive(live: seq<Mapping>, mem: Memory, was: Memory, root: nat, m: Mapping)
    requires LiveOk(live, was, root, m.start)
    requires RangeOk(m, m.End()) && m.End() <= KERNEL_SPACE_START
    requires MappedSince(was, mem, root, PageNumber(m.start, m.size), m.frames, m.size)
    ensures LiveOk(live + [m], mem, root, m.End())
    ensures forall v: U64 :: !Within(v, m.start, m.Bytes()) ==> Translate(mem, root, v, 0) == Translate(was, root, v, 0)
  {
    NewlyBacked(mem, was, root, m);
    LiveStays(live, mem, was, root, m.start, m.start, m.Bytes());
    assert (live + [m])[..|live|] == live;
  }

  /** Ranges below a stretch of addresses stay as they are when only that stretch is remapped. */
  lemma {:induction false} LiveStays(live: seq<Mapping>, mem: Memory, was: Memory, root: nat, bump: nat, start: nat,
                                     bytes: nat)
    requires LiveOk(live, was, root, bump) && bump <= start <= KERNEL_SPACE_START
    requires forall v: U64 :: !Within(v, start, bytes) ==> Translate(mem, root, v, 0) == Translate(was, root, v, 0)
    ensures LiveOk(live, mem, root, bump)
    decreases |live|
  {
    if live != [] {
      var m := live[|live| - 1];
      HigherHalf(m.start);
      HigherHalf(start);
      StaysBacked(mem, was, root, m, start, bytes);
      LiveStays(live[..|live| - 1], mem, was, root, m.start, start, bytes);
    }
  }

  /** The handed-out ranges are pairwise disjoint, aligned, and each translates to its frames. */
  lemma {:induction false} LiveRanges(live: seq<Mapping>, mem: Memory, root: nat, bump: nat, i: nat)
    requires LiveOk(live, mem, root, bump) && i < |live|
    ensures RangeOk(live[i], bump) && Backed(mem, root, live[i])
    ensures forall j :: i < j < |live| ==> live[i].End() <= live[j].start
    decreases |live|
  {
    var k := |live| - 1;
    if i < k {
      LiveRanges(live[..k], mem, root, live[k].start, i);
      forall j | i < j < |live| ensures live[i].End() <= live[j].start {
        if j < k { assert live[..k][j] == live[j]; }
      }
    }
  }

  /** Between calls no physical address backs two pages, in one range or in two, and memory behind a
      page is neither free nor part of a page table. */
  lemma FramesExclusive(live: seq<Mapping>, mem: Memory, root: nat, bump: nat, free: Managers, nodes: map<Node, nat>,
                        total: nat -> nat, i: nat, k: nat, j: nat, l: nat, a: nat)
    requires KernelOk(live, mem, root, bump, free, nodes, total)
    requires Holds(live, i, k, a) && Holds(live, j, l, a)
    ensures i == j && k == l
    ensures Cover(free, a) == 0 && !IsTable(nodes, a)
  {
    assert Owned(free, nodes, a) + DataCount(live, a) == total(a) <= 1;
    HoldsCounts(live, i, k, a);
    HoldsOnce(live, i, k, j, l, a);
  }

  /** Between calls every address of a handed-out range translates to the frame of its page, at the
      page size of the range. */
  lemma RangeTranslates(live: seq<Mapping>, mem: Memory, root: nat, bump: nat, i: nat, k: nat, page: nat, v: U64)
    requires LiveOk(live, mem, root, bump) && bump <= KERNEL_SPACE_START && i < |live| && k < |live[i].frames|
    requires page == live[i].start + k * live[i].size.Bytes() && page <= v < page + live[i].size.Bytes()
    ensures Translate(mem, root, v, 0).Some?
    ensures Translate(mem, root, v, 0).value.pageSize == live[i].size.Bytes()
    ensures Target(Translate(mem, root, v, 0).value.entry) == live[i].frames[k]
  {
    LiveRanges(live, mem, root, bump, i);
    HigherHalf(live[i].start);
    MappingTranslates(mem, root, live[i], k, page, v);
  }

  lemma PublishFacts(virt: U64, runs: seq<PagedMemory>, size: PageSize, mem: Memory, root: nat)
    requires ListOk(runs, size) && virt % size.Bytes() == 0 && HIGHER_HALF_START <= virt
    requires virt + Total(runs) * size.Bytes() <= KERNEL_SPACE_START
    requires Unmapped(mem, root, virt, KERNEL_SPACE_START - virt)
    ensures var m := Mapping(virt, size, Expand(runs, size));
            |m.frames| == Total(runs) && m.End() == virt + Total(runs) * size.Bytes() && RangeOk(m, m.End())
    ensures Unmapped(mem, root, virt, Total(runs) * size.Bytes())
  {
    ExpandLength(runs, size);
    ExpandOk(runs, size);
  }

  lemma PublishKeepsKernel(live: seq<Mapping>, mem: Memory, was: Memory, root: nat, m: Mapping, runs: seq<PagedMemory>,
                           free: Managers, nodes: map<Node, nat>, free': Managers, nodes': map<Node, nat>,
                           total: nat -> nat)
    requires LiveOk(live, was, root, m.start)
    requires RangeOk(m, m.End()) && m.End() <= KERNEL_SPACE_START && m.frames == Expand(runs, m.size)
    requires MappedSince(was, mem, root, PageNumber(m.start, m.size), m.frames, m.size)
    requires Unmapped(was, root, m.start, KERNEL_SPACE_START - m.start)
    requires AccountsWith(free, nodes, live, runs, m.size, total) && SameOwned(free, nodes, free', nodes')
    ensures KernelOk(live + [m], mem, root, m.End(), free', nodes', total)
  {
    PublishingKeepsLive(live, mem, was, root, m);
    RestStaysUnmapped(mem, was, root, m);
    PublishingMovesAccount(free, nodes, free', nodes', live, runs, m, total);
  }

  lemma UnmappedLater(mem: Memory, root: nat, start: nat, later: nat)
    requires HIGHER_HALF_START <= start <= later <= KERNEL_SPACE_START
    requires Unmapped(mem, root, start, KERNEL_SPACE_START - start)
    ensures Unmapped(mem, root, later, KERNEL_SPACE_START - later)
  {
    HigherHalf(start);
    HigherHalf(later);
    forall v: U64 | Within(v, later, KERNEL_SPACE_START - later) ensures Translate(mem, root, v, 0).None? {
      assert Within(v, start, KERNEL_SPACE_START - start);
    }
  }

  lemma RestStaysUnmapped(mem: Memory, was: Memory, root: nat, m: Mapping)
    requires HIGHER_HALF_START <= m.start && m.End() <= KERNEL_SPACE_START
    requires Unmapped(was, root, m.start, KERNEL_SPACE_START - m.start)
    requires forall v: U64 :: !Within(v, m.start, m.Bytes()) ==>
               Translate(mem, root, v, 0) == Translate(was, root, v, 0)
    ensures Unmapped(mem, root, m.End(), KERNEL_SPACE_START - m.End())
  {
    HigherHalf(m.start);
    HigherHalf(m.End());
    forall v: U64 | Within(v, m.End(), KERNEL_SPACE_START - m.End()) ensures Translate(mem, root, v, 0).None? {
      assert !Within(v, m.start, m.Bytes()) && Within(v, m.start, KERNEL_SPACE_START - m.start);
    }
  }

  lemma TotalPrefix(runs: seq<PagedMemory>, i: nat)
    requires i <= |runs|
    ensures Total(runs[..i]) <= Total(runs)
  {
    assert runs == runs[..i] + runs[i..];
    TotalConcat(runs[..i], runs[i..]);
  }
}
