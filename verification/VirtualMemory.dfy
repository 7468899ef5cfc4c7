/** `mapVirtualRegionWithFlags` and `getMappedPage` on live page tables whose frames come from the
    physical memory managers. */
module VirtualMemory {
  import opened Bits
  import opened Options
  import opened Paging
  import opened PageTables
  import opened FreeLists
  import opened PhysicalMemory

  /** Whether address `a` lies in a page-table frame. */
  ghost predicate IsTable(nodes: map<Node, nat>, a: nat) {
    a - a % 4096 in nodes.Values
  }

  /** How often address `a` is accounted for: as free memory, or as part of a page table. */
  ghost function Owned(free: Managers, nodes: map<Node, nat>, a: nat): nat {
    Cover(free, a) + if IsTable(nodes, a) then 1 else 0
  }

  /** The same memory is free or in tables, before and after. */
  ghost predicate SameOwned(free: Managers, nodes: map<Node, nat>, free': Managers, nodes': map<Node, nat>) {
    forall a: nat :: Owned(free', nodes', a) == Owned(free, nodes, a)
  }

  /** The number of the page of this size that holds `v`, among the pages of the 48-bit space. */
  function PageNumber(v: U64, size: PageSize): nat {
    Page(v, size.Depth() - 1)
  }

  /** What a translation becomes when `count` pages from page number `first` on are mapped to
      consecutive frames from `physical` on. */
  ghost function AfterMapping(was: Option<MappedPage>, v: U64, first: nat, count: nat,
                              physical: nat, flags: nat, size: PageSize): Option<MappedPage>
  {
    var page := PageNumber(v, size);
    if first <= page < first + count then
      Some(MappedPage(LeafEntry(physical + (page - first) * size.Bytes(), flags, size), size.Bytes()))
    else was
  }

  /** No page larger than this size maps an address in the given stretch of pages. */
  ghost predicate NoLargerPage(mem: Memory, root: nat, first: nat, count: nat, size: PageSize) {
    forall v: U64 :: first <= PageNumber(v, size) < first + count ==>
      Translate(mem, root, v, 0).None? || Translate(mem, root, v, 0).value.pageSize <= size.Bytes()
  }

  /** Turning a free frame into a table leaves the account unchanged. */
  lemma TableTakesFrame(free: Managers, free': Managers, nodes: map<Node, nat>, n: Node, frame: nat)
    requires frame % 4096 == 0 && n !in nodes && frame !in nodes.Values
    requires Conserves(free, free', [PagedMemory(frame, 1)], Base)
    ensures SameOwned(free, nodes, free', nodes[n := frame])
  {
    var nodes' := nodes[n := frame];
    assert nodes'.Values == nodes.Values + {frame} by {
      assert nodes'[n] == frame;
      forall x | x in nodes.Values ensures x in nodes'.Values {
        var m :| m in nodes && nodes[m] == x;
        assert nodes'[m] == x;
      }
    }
    forall a: nat ensures Owned(free', nodes', a) == Owned(free, nodes, a) {
      CountSingle(PagedMemory(frame, 1), Base, a);
      FrameOfAddress(frame, a);
    }
  }

  lemma FrameOfAddress(frame: nat, a: nat)
    requires frame % 4096 == 0
    ensures Covers(PagedMemory(frame, 1), Base, a) <==> a - a % 4096 == frame
  {}

  /** The leaf store, in terms of pages of the size being mapped. */
  lemma LeafMapsPage(mem: Memory, root: nat, nodes: map<Node, nat>, virt: U64, physical: nat, size: PageSize,
                     flags: nat)
    requires Tree(mem, root, nodes) && flags < 4096 && physical % 4096 == 0 && physical < TWO52
    requires Reaches(mem, nodes, virt, size.Depth() - 1)
    ensures LeafEntry(physical, flags, size) < TWO64
    ensures var level := size.Depth() - 1;
            var mem' := Store(mem, nodes[NodeOf(virt, level)], Index(virt, level), LeafEntry(physical, flags, size));
            && Tree(mem', root, nodes)
            && forall v: U64 :: Translate(mem', root, v, 0)
                 == AfterMapping(Translate(mem, root, v, 0), v, PageNumber(virt, size), 1, physical, flags, size)
  {
    var level, value := size.Depth() - 1, LeafEntry(physical, flags, size);
    LeafEntryFields(physical, flags, size);
    LeafKeepsTree(mem, root, nodes, virt, level, value);
    var mem' := Store(mem, nodes[NodeOf(virt, level)], Index(virt, level), value);
    forall v: U64
      ensures Translate(mem', root, v, 0)
           == AfterMapping(Translate(mem, root, v, 0), v, PageNumber(virt, size), 1, physical, flags, size)
    {
      OnlyPage(Translate(mem, root, v, 0), v, virt, physical, flags, size);
    }
  }

  lemma OnlyPage(was: Option<MappedPage>, v: U64, virt: U64, physical: nat, flags: nat, size: PageSize)
    ensures AfterMapping(was, v, PageNumber(virt, size), 1, physical, flags, size)
         == if Page(v, size.Depth() - 1) == Page(virt, size.Depth() - 1)
            then Some(MappedPage(LeafEntry(physical, flags, size), EntrySpan(size.Depth() - 1)))
            else was
  {
    assert EntrySpan(size.Depth() - 1) == size.Bytes();
    assert physical + 0 * size.Bytes() == physical;
  }

  /** What the mapper is asked to do: an aligned region that stays inside the address window. */
  predicate RegionOk(virt: U64, memory: PagedMemory, size: PageSize) {
    && virt % size.Bytes() == 0 && EntryOk(memory, size)
    && virt % TWO48 + memory.numberOfPages * size.Bytes() <= TWO48
    && virt + memory.numberOfPages * size.Bytes() < TWO64
  }

  /** Where the k-th page of a region lies. */
  lemma RegionPage(virt: U64, memory: PagedMemory, size: PageSize, k: nat, page: nat, physical: nat)
    requires RegionOk(virt, memory, size) && k < memory.numberOfPages
    requires page == virt + k * size.Bytes() && physical == memory.pageStart + k * size.Bytes()
    ensures page < TWO64 && page % size.Bytes() == 0 && physical < TWO52 && physical % 4096 == 0
    ensures PageNumber(page, size) == PageNumber(virt, size) + k
    ensures page + size.Bytes() == virt + (k + 1) * size.Bytes() <= virt + memory.numberOfPages * size.Bytes()
    ensures physical + size.Bytes() == memory.pageStart + (k + 1) * size.Bytes()
  {
    var b, n := size.Bytes(), memory.numberOfPages;
    MulMono(k + 1, n, b);
    assert (k + 1) * b == k * b + b;
    assert page == (virt / b + k) * b;
    DivMod(page, b, virt / b + k, 0);
    EntrySplit(memory, k, size);
    match size {
      case Base => PageAdvances(virt, k, 4096);
      case Large => PageAdvances(virt, k, 0x20_0000); DivisorOfBytes(physical, 512);
      case Huge => PageAdvances(virt, k, 0x4000_0000); DivisorOfBytes(physical, 0x4_0000);
    }
  }

  lemma DivisorOfBytes(x: nat, m: nat)
    requires m > 0 && x % (4096 * m) == 0
    ensures x % 4096 == 0
  {
    var q := x / (4096 * m);
    assert x == (q * m) * 4096;
    DivMod(x, 4096, q * m, 0);
  }

  lemma PageAdvances(virt: U64, k: nat, b: nat)
    requires b > 0 && TWO48 % b == 0 && virt % b == 0
    requires virt % TWO48 + k * b < TWO48
    ensures (virt + k * b) % TWO48 / b == virt % TWO48 / b + k
  {
    var w, h := virt % TWO48, virt / TWO48;
    DivMod(virt + k * b, TWO48, h, w + k * b);
    WindowAligned(virt, b);
    var q := w / b;
    assert w + k * b == (q + k) * b;
    DivMod(w + k * b, b, q + k, 0);
  }

  lemma WindowAligned(virt: nat, b: nat)
    requires b > 0 && TWO48 % b == 0 && virt % b == 0
    ensures virt % TWO48 % b == 0
  {
    var h, c, q := virt / TWO48, TWO48 / b, virt / b;
    assert virt % TWO48 == (q - h * c) * b by {
      assert virt == q * b && TWO48 == c * b;
      assert h * TWO48 == (h * c) * b;
      assert (q - h * c) * b == q * b - (h * c) * b;
    }
    if q - h * c < 0 { MulMono(q - h * c, -1, b); }
    DivMod(virt % TWO48, b, q - h * c, 0);
  }

  /** Mapping one more page extends a mapping by one page. */
  lemma MappingGrows(was: Option<MappedPage>, mid: Option<MappedPage>, v: U64, first: nat, k: nat,
                     pageStart: nat, page: nat, physical: nat, flags: nat, size: PageSize)
    requires mid == AfterMapping(was, v, first, k, pageStart, flags, size)
    requires page == first + k && physical == pageStart + k * size.Bytes()
    ensures AfterMapping(mid, v, page, 1, physical, flags, size)
         == AfterMapping(was, v, first, k + 1, pageStart, flags, size)
  {
    assert 0 * size.Bytes() == 0;
  }

  /** A base page taken from the free lists is not a page table. */
  lemma FreshFrame(free: Managers, nodes: map<Node, nat>)
    requires Ok(free) && AllocContiguous(free, 1, Base).Done?
    requires forall a: nat :: Owned(free, nodes, a) <= 1
    ensures var r := AllocContiguous(free, 1, Base);
            && r.value % 4096 == 0 && r.value < TWO52 && r.value !in nodes.Values
            && Ok(r.state) && Conserves(free, r.state, [PagedMemory(r.value, 1)], Base)
  {
    var r := AllocContiguous(free, 1, Base);
    ContiguousConserves(free, 1, Base);
    CountSingle(PagedMemory(r.value, 1), Base, r.value);
    assert Owned(free, nodes, r.value) <= 1;
  }

  /** Why a page table could not be had: no free page is left in any manager, or no base page is left
      and a manager has no room for the rest of a larger one. */
  ghost predicate OutOfMemory(status: Status, free: Managers) {
    match status
    case Success => false
    case Overrun => false
    case Fault => !HasRun(free.base.free, 1) && !HasRun(free.large.free, 1) && !HasRun(free.huge.free, 1)
    case Full => !HasRun(free.base.free, 1) && Crowded(free)
  }

  /** There is no table for the leaf of the page of `v`. */
  predicate LacksTable(nodes: map<Node, nat>, v: U64, size: PageSize) {
    NodeOf(v, size.Depth() - 1) !in nodes
  }

  /** Why mapping `n` pages stops: one of them has no table for its leaf, and none can be had. */
  ghost predicate NoTable(status: Status, free: Managers, nodes: map<Node, nat>, virt: nat, n: nat, size: PageSize) {
    OutOfMemory(status, free) && exists v: U64 :: virt <= v < virt + n * size.Bytes() && LacksTable(nodes, v, size)
  }

  lemma NoTableWidens(status: Status, free: Managers, nodes: map<Node, nat>, v: U64, virt: nat, k: nat, n: nat,
                      size: PageSize)
    requires OutOfMemory(status, free) && LacksTable(nodes, v, size)
    requires v == virt + k * size.Bytes() && k < n
    ensures NoTable(status, free, nodes, virt, n, size)
  {
    MulStrict(k, n, size.Bytes());
    MulMono(0, k, size.Bytes());
  }

  lemma NoTableInside(status: Status, free: Managers, nodes: map<Node, nat>, inner: nat, k: nat, virt: nat,
                      done: nat, n: nat, size: PageSize)
    requires NoTable(status, free, nodes, inner, k, size) && inner == virt + done * size.Bytes() && done + k <= n
    ensures NoTable(status, free, nodes, virt, n, size)
  {
    MulDist(done, k, size.Bytes());
    MulMono(done + k, n, size.Bytes());
    MulMono(0, done, size.Bytes());
  }

  /** Where a table is missing, all tables below it are. */
  lemma {:induction false} MissingBelow(mem: Memory, root: nat, nodes: map<Node, nat>, v: U64, level: nat, below: nat)
    requires Tree(mem, root, nodes) && level <= below < 4 && NodeOf(v, level) !in nodes
    ensures NodeOf(v, below) !in nodes
    decreases below
  {
    if level < below {
      MissingBelow(mem, root, nodes, v, level, below - 1);
      PathStep(v, below - 1);
      assert Parent(NodeOf(v, below)) == NodeOf(v, below - 1);
    }
  }

  lemma MissingNext(mem: Memory, root: nat, nodes: map<Node, nat>, v: U64, level: nat)
    requires Tree(mem, root, nodes) && level < 3 && NodeOf(v, level) in nodes
    requires mem(nodes[NodeOf(v, level)])[Index(v, level)] == 0
    ensures NodeOf(v, level + 1) !in nodes
  {
    assert SlotOk(mem, nodes, NodeOf(v, level), Index(v, level));
    PathStep(v, level);
  }

  /** What linking a fresh table on the path of `virt` achieves. */
  ghost predicate Linked(mem: Memory, mem': Memory, root: nat, nodes: map<Node, nat>, nodes': map<Node, nat>,
                         virt: U64, level: nat, free: Managers, free': Managers)
    requires level < 3
  {
    && Tree(mem', root, nodes') && Reaches(mem', nodes', virt, level + 1)
    && SameTranslations(mem, mem', root) && SameOwned(free, nodes, free', nodes')
  }

  lemma LinkOwned(mem: Memory, root: nat, nodes: map<Node, nat>, virt: U64, level: nat, frame: nat, free: Managers,
                  free': Managers)
    requires Tree(mem, root, nodes) && level < 3 && Reaches(mem, nodes, virt, level)
    requires mem(nodes[NodeOf(virt, level)])[Index(virt, level)] == 0
    requires frame % 4096 == 0 && frame < TWO52 && frame !in nodes.Values
    requires Conserves(free, free', [PagedMemory(frame, 1)], Base)
    ensures SameOwned(free, nodes, free', nodes[NodeOf(virt, level + 1) := frame])
  {
    PathStep(virt, level);
    assert SlotOk(mem, nodes, NodeOf(virt, level), Index(virt, level));
    TableTakesFrame(free, free', nodes, NodeOf(virt, level + 1), frame);
  }

  lemma LinkTables(mem: Memory, mem': Memory, root: nat, nodes: map<Node, nat>, n: Node, i: nat, virt: U64,
                   level: nat, frame: nat)
    requires Tree(mem, root, nodes) && level < 3 && Reaches(mem, nodes, virt, level)
    requires n == NodeOf(virt, level) && i == Index(virt, level) && mem(nodes[n])[i] == 0
    requires frame % 4096 == 0 && frame < TWO52 && frame !in nodes.Values
    requires mem' == Store(ZeroFrame(mem, frame), nodes[n], i, frame + 3)
    ensures Tree(mem', root, nodes[NodeOf(virt, level + 1) := frame])
    ensures Reaches(mem', nodes[NodeOf(virt, level + 1) := frame], virt, level + 1)
    ensures SameTranslations(mem, mem', root)
  {
    PathStep(virt, level);
    LinkReaches(mem, root, nodes, virt, level, frame);
    LinkKeepsTree(mem, root, nodes, n, i, frame);
  }

  lemma LinkStep(mem: Memory, mem': Memory, root: nat, nodes: map<Node, nat>, virt: U64, level: nat, current: nat,
                 frame: nat, free: Managers, free': Managers)
    requires Tree(mem, root, nodes) && level < 3 && Reaches(mem, nodes, virt, level)
    requires current == nodes[NodeOf(virt, level)] && mem(current)[Index(virt, level)] == 0
    requires frame % 4096 == 0 && frame < TWO52 && frame !in nodes.Values && PointerEntry(frame) < TWO64
    requires mem' == Store(ZeroFrame(mem, frame), current, Index(virt, level), PointerEntry(frame))
    requires Conserves(free, free', [PagedMemory(frame, 1)], Base)
    ensures Linked(mem, mem', root, nodes, nodes[NodeOf(virt, level + 1) := frame], virt, level, free, free')
  {
    assert PointerEntry(frame) == frame + 3 by { PointerEntryFields(frame); }
    LinkTables(mem, mem', root, nodes, NodeOf(virt, level), Index(virt, level), virt, level, frame);
    LinkOwned(mem, root, nodes, virt, level, frame, free, free');
  }

  class AddressSpace {
    const pmm: PhysicalMemoryManagers
    const root: nat
    var mem: Memory
    ghost var nodes: map<Node, nat>

    constructor (managers: PhysicalMemoryManagers, level4PageTable: nat, memory: Memory, ghost tables: map<Node, nat>)
      requires managers.Valid() && Ok(managers.View())
      requires Tree(memory, level4PageTable, tables)
      requires forall a: nat :: Owned(managers.View(), tables, a) <= 1
      ensures Valid() && pmm == managers && root == level4PageTable && mem == memory && nodes == tables
    {
      pmm := managers;
      root := level4PageTable;
      mem := memory;
      nodes := tables;
    }

    /** The tables form a tree, and no free frame is a table or is listed twice. */
    ghost predicate Valid()
      reads this, pmm.base, pmm.large, pmm.huge, pmm.base.buf, pmm.large.buf, pmm.huge.buf
    {
      && pmm.Valid() && Ok(pmm.View())
      && Tree(mem, root, nodes)
      && forall a: nat :: Owned(pmm.View(), nodes, a) <= 1
    }

    /** `getZeroBasePage`. */
    method GetZeroBasePage() returns (status: Status, frame: nat)
      requires Valid()
      modifies this`mem, pmm.Repr()
      ensures status == Success ==>
                && frame % 4096 == 0 && frame < TWO52 && frame !in nodes.Values
                && mem == ZeroFrame(old(mem), frame)
                && pmm.Valid() && Ok(pmm.View())
                && Conserves(old(pmm.View()), pmm.View(), [PagedMemory(frame, 1)], Base)
      ensures status == Success <==> AllocContiguous(old(pmm.View()), 1, Base).Done?
      ensures pmm.Valid() && (status != Success ==> OutOfMemory(status, pmm.View()))
    {
      ghost var free := pmm.View();
      ContiguousFaults(free, 1, Base);
      FitIffRun(free.base.free, 1);
      status, frame := pmm.AllocContiguousPhysicalPages(1, Base);
      if status == Success {
        FreshFrame(free, nodes);
        mem := ZeroFrame(mem, frame);
      }
    }

    /** An empty slot on the path of `virt` gets a fresh table. */
    method LinkTable(virt: U64, level: nat, current: nat) returns (status: Status, next: nat)
      requires Valid() && level < 3
      requires Reaches(mem, nodes, virt, level) && current == nodes[NodeOf(virt, level)]
      requires mem(current)[Index(virt, level)] == 0
      modifies this`mem, this`nodes, pmm.Repr()
      ensures status == Success ==>
                && Valid()
                && Reaches(mem, nodes, virt, level + 1) && next == nodes[NodeOf(virt, level + 1)]
                && SameTranslations(old(mem), mem, root)
                && SameOwned(old(pmm.View()), old(nodes), pmm.View(), nodes)
      ensures pmm.Valid()
      ensures status != Success ==>
                OutOfMemory(status, pmm.View()) && nodes == old(nodes) && NodeOf(virt, level + 1) !in nodes
    {
      ghost var mem0, free := mem, pmm.View();
      MissingNext(mem, root, nodes, virt, level);
      status, next := GetZeroBasePage();
      if status == Success {
        PointerEntryFields(next);
        LinkStep(mem0, Store(mem, current, Index(virt, level), PointerEntry(next)), root, nodes, virt, level, current,
                 next, free, pmm.View());
        Attach(virt, level, current, next, mem0, free);
      }
    }

    /** Store the pointer to a zeroed frame in the slot of `virt`. */
    method Attach(virt: U64, level: nat, current: nat, frame: nat, ghost mem0: Memory, ghost free: Managers)
      requires pmm.Valid() && Ok(pmm.View()) && level < 3
      requires NodeOf(virt, level) in nodes && current == nodes[NodeOf(virt, level)]
      requires mem == ZeroFrame(mem0, frame) && PointerEntry(frame) < TWO64
      requires forall a: nat :: Owned(free, nodes, a) <= 1
      requires Linked(mem0, Store(mem, current, Index(virt, level), PointerEntry(frame)), root,
                      nodes, nodes[NodeOf(virt, level + 1) := frame], virt, level, free, pmm.View())
      modifies this`mem, this`nodes
      ensures Valid() && nodes == old(nodes)[NodeOf(virt, level + 1) := frame]
      ensures Linked(mem0, mem, root, old(nodes), nodes, virt, level, free, pmm.View())
    {
      mem := Store(mem, current, SlotOf(virt, level), PointerEntry(frame));
      nodes := nodes[NodeOf(virt, level + 1) := frame];
    }

    /** One level of the descent: follow the slot on the path of `virt`, or fill it first. */
    method Descend(virt: U64, level: nat, ghost page: nat, current: nat) returns (status: Status, next: nat)
      requires Valid() && level < 3
      requires Reaches(mem, nodes, virt, level) && current == nodes[NodeOf(virt, level)]
      requires EntrySpan(level) > page
      requires Translate(mem, root, virt, 0).None? || Translate(mem, root, virt, 0).value.pageSize <= page
      modifies this`mem, this`nodes, pmm.Repr()
      ensures status == Success ==>
                && Valid()
                && Reaches(mem, nodes, virt, level + 1) && next == nodes[NodeOf(virt, level + 1)]
                && SameTranslations(old(mem), mem, root)
                && SameOwned(old(pmm.View()), old(nodes), pmm.View(), nodes)
      ensures pmm.Valid()
      ensures status != Success ==>
                OutOfMemory(status, pmm.View()) && nodes == old(nodes) && NodeOf(virt, level + 1) !in nodes
    {
      if mem(current)[SlotOf(virt, level)] == 0 {
        status, next := LinkTable(virt, level, current);
      } else {
        FollowReaches(mem, root, nodes, virt, level);
        status, next := Success, AlignDown(mem(current)[SlotOf(virt, level)], PAGE_FRAME_SIZE);
      }
    }

    /** Write the leaf of the page of `virt` into the last table of its path. */
    method WriteLeaf(virt: U64, physical: nat, size: PageSize, flags: nat, currentTable: nat)
      requires Valid() && flags < 4096 && physical % 4096 == 0 && physical < TWO52
      requires Reaches(mem, nodes, virt, size.Depth() - 1) && currentTable == nodes[NodeOf(virt, size.Depth() - 1)]
      modifies this`mem
      ensures Valid()
      ensures forall v: U64 :: Translate(mem, root, v, 0)
                == AfterMapping(old(Translate(mem, root, v, 0)), v, PageNumber(virt, size), 1, physical, flags, size)
    {
      var value := LeafEntry(physical, flags, size);
      LeafMapsPage(mem, root, nodes, virt, physical, size, flags);
      mem := Store(mem, currentTable, SlotOf(virt, size.Depth() - 1), value);
    }

    /** Map the page of `virt`: descend to the last table, then write the leaf. */
    method MapPage(virt: U64, physical: nat, size: PageSize, flags: nat) returns (status: Status)
      requires Valid() && flags < 4096 && physical % 4096 == 0 && physical < TWO52
      requires Translate(mem, root, virt, 0).None? || Translate(mem, root, virt, 0).value.pageSize <= size.Bytes()
      modifies this`mem, this`nodes, pmm.Repr()
      ensures status == Success ==>
                && Valid()
                && SameOwned(old(pmm.View()), old(nodes), pmm.View(), nodes)
                && forall v: U64 :: Translate(mem, root, v, 0)
                     == AfterMapping(old(Translate(mem, root, v, 0)), v, PageNumber(virt, size), 1, physical, flags,
                                     size)
      ensures pmm.Valid()
      ensures status != Success ==> OutOfMemory(status, pmm.View()) && LacksTable(nodes, virt, size)
    {
      var table;
      status, table := LastTable(virt, size);
      if status == Success {
        WriteLeaf(virt, physical, size, flags, table);
      }
    }

    /** Descend from the root to the table that holds the leaf of the page of `virt`. */
    method LastTable(virt: U64, size: PageSize) returns (status: Status, currentTable: nat)
      requires Valid()
      requires Translate(mem, root, virt, 0).None? || Translate(mem, root, virt, 0).value.pageSize <= size.Bytes()
      modifies this`mem, this`nodes, pmm.Repr()
      ensures status == Success ==>
                && Valid()
                && Reaches(mem, nodes, virt, size.Depth() - 1) && currentTable == nodes[NodeOf(virt, size.Depth() - 1)]
                && SameTranslations(old(mem), mem, root)
                && SameOwned(old(pmm.View()), old(nodes), pmm.View(), nodes)
      ensures pmm.Valid()
      ensures status != Success ==> OutOfMemory(status, pmm.View()) && LacksTable(nodes, virt, size)
    {
      RootNode(virt);
      status, currentTable := Success, root;
      var i := 0;
      while i < size.Depth() - 1
        invariant 0 <= i < size.Depth() && Valid() && status == Success
        invariant Reaches(mem, nodes, virt, i) && currentTable == nodes[NodeOf(virt, i)]
        invariant SameTranslations(old(mem), mem, root)
        invariant SameOwned(old(pmm.View()), old(nodes), pmm.View(), nodes)
      {
        ghost var was := mem;
        status, currentTable := Descend(virt, i, size.Bytes(), currentTable);
        if status != Success {
          MissingBelow(was, root, nodes, virt, i + 1, size.Depth() - 1);
          return;
        }
        i := i + 1;
      }
    }

    /** Map one more page behind `k` pages already mapped since the tables were `start`. */
    method MapNextPage(page: U64, physical: nat, size: PageSize, flags: nat,
                       ghost start: Memory, ghost first: nat, ghost k: nat, ghost pageStart: nat)
      returns (status: Status)
      requires Valid() && flags < 4096 && physical % 4096 == 0 && physical < TWO52
      requires PageNumber(page, size) == first + k && physical == pageStart + k * size.Bytes()
      requires forall v: U64 :: Translate(mem, root, v, 0)
                 == AfterMapping(Translate(start, root, v, 0), v, first, k, pageStart, flags, size)
      requires Translate(start, root, page, 0).None? || Translate(start, root, page, 0).value.pageSize <= size.Bytes()
      modifies this`mem, this`nodes, pmm.Repr()
      ensures status == Success ==>
                && Valid()
                && SameOwned(old(pmm.View()), old(nodes), pmm.View(), nodes)
                && forall v: U64 :: Translate(mem, root, v, 0)
                     == AfterMapping(Translate(start, root, v, 0), v, first, k + 1, pageStart, flags, size)
      ensures pmm.Valid()
      ensures status != Success ==> OutOfMemory(status, pmm.View()) && LacksTable(nodes, page, size)
    {
      ghost var mid := mem;
      status := MapPage(page, physical, size, flags);
      if status == Success {
        forall v: U64
          ensures Translate(mem, root, v, 0)
               == AfterMapping(Translate(start, root, v, 0), v, first, k + 1, pageStart, flags, size)
        {
          assert Translate(mem, root, v, 0)
              == AfterMapping(Translate(mid, root, v, 0), v, PageNumber(page, size), 1, physical, flags, size);
          MappingGrows(Translate(start, root, v, 0), Translate(mid, root, v, 0), v, first, k,
                       pageStart, PageNumber(page, size), physical, flags, size);
        }
      }
    }

    /** `mapVirtualRegionWithFlags`. On success the translations are those from before, changed on
        exactly the pages asked for. */
    method MapVirtualRegionWithFlags(virt: U64, memory: PagedMemory, size: PageSize, flags: nat)
      returns (status: Status)
      requires Valid() && flags < 4096
      requires virt / TWO48 == 0 || virt / TWO48 == 0xFFFF
      requires RegionOk(virt, memory, size)
      requires NoLargerPage(mem, root, PageNumber(virt, size), memory.numberOfPages, size)
      modifies this`mem, this`nodes, pmm.Repr()
      ensures status == Success ==>
                && Valid()
                && SameOwned(old(pmm.View()), old(nodes), pmm.View(), nodes)
                && forall v: U64 :: Translate(mem, root, v, 0)
                     == AfterMapping(old(Translate(mem, root, v, 0)), v, PageNumber(virt, size), memory.numberOfPages,
                                     memory.pageStart, flags, size)
      ensures pmm.Valid()
      ensures status != Success ==> NoTable(status, pmm.View(), nodes, virt, memory.numberOfPages, size)
    {
      ghost var first, k: nat := PageNumber(virt, size), 0;
      ghost var start := mem;
      var virtualEnd := virt + memory.numberOfPages * size.Bytes();
      var page: nat, physical: nat := virt, memory.pageStart;
      while page < virtualEnd
        invariant k <= memory.numberOfPages
        invariant page == virt + k * size.Bytes() && physical == memory.pageStart + k * size.Bytes()
        invariant Valid()
        invariant SameOwned(old(pmm.View()), old(nodes), pmm.View(), nodes)
        invariant forall v: U64 :: Translate(mem, root, v, 0)
                    == AfterMapping(Translate(start, root, v, 0), v, first, k, memory.pageStart, flags, size)
        decreases memory.numberOfPages - k
      {
        RegionPage(virt, memory, size, k, page, physical);
        status := MapNextPage(page, physical, size, flags, start, first, k, memory.pageStart);
        if status != Success {
          NoTableWidens(status, pmm.View(), nodes, page, virt, k, memory.numberOfPages, size);
          return status;
        }
        page, physical := page + size.Bytes(), physical + size.Bytes();
        k := k + 1;
      }
      assert k == memory.numberOfPages by {
        if k < memory.numberOfPages { MulStrict(k, memory.numberOfPages, size.Bytes()); }
      }
      return Success;
    }

    /** `getMappedPage`. The walk never tests the present bit, so it always returns something; for
        an address the processor can translate it returns that translation. */
    method GetMappedPage(virt: U64) returns (result: MappedPage)
      ensures result == RawWalk(mem, root, virt, 0)
      ensures Tree(mem, root, nodes) && Translate(mem, root, virt, 0).Some? ==>
                Translate(mem, root, virt, 0) == Some(result)
    {
      RootNode(virt);
      if Tree(mem, root, nodes) && Translate(mem, root, virt, 0).Some? { WalkAgrees(mem, root, nodes, virt, 0); }
      var currentTable, level := root, 0;
      while level < 4
        invariant 0 <= level < 4 && RawWalk(mem, root, virt, 0) == RawWalk(mem, currentTable, virt, level)
        decreases 4 - level
      {
        var entry := mem(currentTable)[SlotOf(virt, level)];
        CodeExtended(entry);
        if level == 3 || ((level == 1 || level == 2) && And(entry, 128) != 0) {
          return MappedPage(entry, EntrySpan(level));
        }
        currentTable, level := AlignDown(entry, PAGE_FRAME_SIZE), level + 1;
      }
    }
  }

  /** After a region is mapped, the walker finds for every address in it the page size asked for
      and, below 2^48, the frame of its page. */
  lemma WalkFindsMapped(mem: Memory, root: nat, nodes: map<Node, nat>, was: Option<MappedPage>, v: U64,
                        virt: U64, memory: PagedMemory, size: PageSize, flags: nat, k: nat)
    requires Tree(mem, root, nodes) && RegionOk(virt, memory, size) && flags < 4096
    requires Translate(mem, root, v, 0)
          == AfterMapping(was, v, PageNumber(virt, size), memory.numberOfPages, memory.pageStart, flags, size)
    requires k < memory.numberOfPages && virt + k * size.Bytes() <= v < virt + (k + 1) * size.Bytes()
    ensures var page := RawWalk(mem, root, v, 0);
            && page.pageSize == size.Bytes()
            && Present(page.entry) && Target(page.entry) == memory.pageStart + k * size.Bytes()
            && (PhysicalAddressFrame(page.entry) == memory.pageStart + k * size.Bytes()
                <==> memory.pageStart + k * size.Bytes() < TWO48)
  {
    RootNode(v);
    var physical := memory.pageStart + k * size.Bytes();
    AddressInPage(virt, memory, size, k, v);
    LeafEntryFields(physical, flags, size);
    FrameReadBack(physical, flags, size);
    WalkAgrees(mem, root, nodes, v, 0);
  }

  /** An address inside the k-th page of a region has that page's number. */
  lemma AddressInPage(virt: U64, memory: PagedMemory, size: PageSize, k: nat, v: U64)
    requires RegionOk(virt, memory, size) && k < memory.numberOfPages
    requires virt + k * size.Bytes() <= v < virt + (k + 1) * size.Bytes()
    ensures PageNumber(v, size) == PageNumber(virt, size) + k
    ensures memory.pageStart + k * size.Bytes() < TWO52 && (memory.pageStart + k * size.Bytes()) % 4096 == 0
  {
    var page := virt + k * size.Bytes();
    RegionPage(virt, memory, size, k, page, memory.pageStart + k * size.Bytes());
    assert v < page + size.Bytes();
    SamePage(page, v, size);
  }

  lemma SamePage(page: U64, v: U64, size: PageSize)
    requires page % size.Bytes() == 0 && page <= v < page + size.Bytes()
    ensures PageNumber(v, size) == PageNumber(page, size)
  {
    match size
    case Base => SameWindow(page, v, 4096);
    case Large => SameWindow(page, v, 0x20_0000);
    case Huge => SameWindow(page, v, 0x4000_0000);
  }

  lemma SameWindow(page: U64, v: U64, b: nat)
    requires 0 < b && TWO48 % b == 0 && page % b == 0 && page <= v < page + b
    ensures v % TWO48 / b == page % TWO48 / b
  {
    WindowAligned(page, b);
    var w, q := page % TWO48, page % TWO48 / b;
    assert w == q * b;
    var c := TWO48 / b;
    assert w + b <= TWO48 by {
      assert TWO48 == c * b;
      if q >= c { MulMono(c, q, b); }
      MulMono(q + 1, c, b);
      assert (q + 1) * b == q * b + b;
    }
    DivMod(v, TWO48, page / TWO48, w + (v - page));
    DivMod(w + (v - page), b, q, v - page);
  }
}
