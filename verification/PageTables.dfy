/** The 4-level page table: the entries that `mapVirtualRegionWithFlags` writes, the translation
    the processor performs on them (section 4.5 of the Intel SDM, Volume 3A), and the tree
    invariant under which a radix tree of frames behaves as one flat map. */
module PageTables {
  import opened Bits
  import opened Options
  import opened Paging

  /** One page-table frame. */
  type Table = t: seq<U64> | |t| == ENTRIES witness seq(ENTRIES, _ => 0)

  /** Physical memory read as page-table frames: the contents of the frame at each address. */
  type Memory = nat -> Table

  /** An entry with the size of the page it maps. */
  datatype MappedPage = MappedPage(entry: nat, pageSize: nat)

  // ---------------------------------------------------------------- entries

  predicate Present(e: nat) { e % 2 == 1 }

  predicate Extended(e: nat) { (e / 128) % 2 == 1 }

  /** Bits 51..12 of an entry: the frame or table it points to. */
  function Target(e: nat): nat {
    (e / 4096) % 0x100_0000_0000 * 4096
  }

  predicate IsLeaf(level: nat, e: nat) {
    level == 3 || ((level == 1 || level == 2) && Extended(e))
  }

  /** The value the mapper stores in a non-leaf slot. */
  function PointerEntry(table: nat): nat {
    Or(Or(1, 2), table)
  }

  /** The value the mapper stores in a leaf slot. */
  function LeafEntry(physical: nat, flags: nat, size: PageSize): nat {
    var value := Or(Or(Or(1, 2), physical), flags);
    if size == Base then value else Or(value, 128)
  }

  /** `getPhysicalAddressFrame`: the mask has bits 47..12 only. */
  function PhysicalAddressFrame(e: nat): nat {
    And(e, 0xFFFF_FFFF_F000)
  }

  lemma PointerEntryFields(table: U64)
    requires table % 4096 == 0 && table < TWO52
    ensures PointerEntry(table) == table + 3
    ensures Present(table + 3) && !Extended(table + 3) && Target(table + 3) == table
  {
    OrOneTwo();
    OrPageOffset(table, 3);
    LeafArithmetic(table, 3);
  }

  /** The flag bits of a leaf entry. */
  function LeafBits(flags: nat, size: PageSize): nat {
    Or(Or(3, flags), if size == Base then 0 else 128)
  }

  lemma LeafBitsBound(flags: U64, size: PageSize)
    requires flags < 4096
    ensures LeafBits(flags, size) < 4096
  {
    Pow2Values();
    OrBound(3, flags, 12);
    OrBound(Or(3, flags), if size == Base then 0 else 128, 12);
  }

  /** The bits of an entry are the present and writable bits, the flags asked for, and the size
      bit of a larger page. */
  lemma LeafBitsAre(flags: U64, size: PageSize, k: nat)
    ensures (LeafBits(flags, size) / Pow2(k)) % 2 == 1
       <==> (3 / Pow2(k)) % 2 == 1 || (flags / Pow2(k)) % 2 == 1 || (size != Base && (128 / Pow2(k)) % 2 == 1)
  {
    OrBit(3, flags, k);
    OrBit(Or(3, flags), if size == Base then 0 else 128, k);
    DivMod(0, Pow2(k), 0, 0);
  }

  lemma LeafBitsFields(flags: U64, size: PageSize)
    requires flags < 4096
    ensures LeafBits(flags, size) < 4096
    ensures LeafBits(flags, size) % 2 == 1
    ensures (LeafBits(flags, size) / 128) % 2 == 1 <==> size != Base || (flags / 128) % 2 == 1
  {
    LeafBitsBound(flags, size);
    LeafBitsAre(flags, size, 0);
    SizeBit(flags, size);
  }

  lemma SizeBit(flags: U64, size: PageSize)
    ensures (LeafBits(flags, size) / 128) % 2 == 1 <==> size != Base || (flags / 128) % 2 == 1
  {
    Pow2Values();
    BitOfSize(flags, size, 7, 128);
  }

  lemma BitOfSize(flags: U64, size: PageSize, k: nat, p: nat)
    requires p == Pow2(k) == 128
    ensures (LeafBits(flags, size) / p) % 2 == 1 <==> size != Base || (flags / p) % 2 == 1
  {
    LeafBitsAre(flags, size, k);
  }

  lemma LeafEntryIsSum(physical: U64, flags: U64, size: PageSize)
    requires physical % 4096 == 0 && flags < 4096
    ensures LeafEntry(physical, flags, size) == physical + LeafBits(flags, size)
  {
    OrOneTwo();
    LeafBitsFields(flags, size);
    var ext := if size == Base then 0 else 128;
    calc {
      LeafEntry(physical, flags, size);
      Or(Or(Or(3, physical), flags), ext);
      { OrComm(3, physical); OrAssoc(physical, 3, flags); }
      Or(Or(physical, Or(3, flags)), ext);
      { OrAssoc(physical, Or(3, flags), ext); }
      Or(physical, LeafBits(flags, size));
      { OrPageOffset(physical, LeafBits(flags, size)); }
      physical + LeafBits(flags, size);
    }
  }

  lemma LeafArithmetic(physical: U64, low: nat)
    requires physical % 4096 == 0 && low < 4096
    ensures physical + low < TWO64
    ensures (physical + low) % 2 == low % 2 && ((physical + low) / 128) % 2 == (low / 128) % 2
    ensures physical < TWO52 ==> Target(physical + low) == physical
  {
    var f := physical / 4096;
    DivMod(physical + low, 4096, f, low);
    DivMod(physical + low, 128, 32 * f + low / 128, low % 128);
    DivMod(32 * f + low / 128, 2, 16 * f + low / 128 / 2, low / 128 % 2);
    DivMod(physical + low, 2, 2048 * f + low / 2, low % 2);
  }

  /** A leaf entry is present, marks a larger page as such, and keeps the frame apart from the
      flags. */
  lemma LeafEntryFields(physical: U64, flags: U64, size: PageSize)
    requires physical % 4096 == 0 && flags < 4096
    ensures LeafEntry(physical, flags, size) == physical + LeafBits(flags, size) < TWO64
    ensures Present(LeafEntry(physical, flags, size))
    ensures Extended(LeafEntry(physical, flags, size)) <==> size != Base || (flags / 128) % 2 == 1
    ensures physical < TWO52 ==> Target(LeafEntry(physical, flags, size)) == physical
  {
    LeafEntryIsSum(physical, flags, size);
    LeafBitsFields(flags, size);
    LeafArithmetic(physical, LeafBits(flags, size));
  }

  /** Bits 47..12 of an entry. */
  function FrameBits(e: nat): nat {
    e / 4096 % 0x10_0000_0000 * 4096
  }

  /** The mask of `getPhysicalAddressFrame` keeps bits 47..12. */
  lemma FrameMaskIs(e: nat)
    ensures PhysicalAddressFrame(e) == FrameBits(e)
  {
    Pow2Values();
    AndLow(e, 0xFFFF_FFFF_F000, 48);
    AndHighMask(e % TWO48, 48, 12);
    FrameBitsArithmetic(e);
  }

  lemma FrameBitsArithmetic(e: nat)
    ensures e % TWO48 - e % TWO48 % 4096 == FrameBits(e)
  {
    var q, h := e / 4096, e / 4096 / 0x10_0000_0000;
    var g, r := q % 0x10_0000_0000, e % 4096;
    DivMod(e, TWO48, h, 4096 * g + r);
    DivMod(4096 * g + r, 4096, g, r);
  }

  /** The frame mask stops at bit 47, so the frame read back is the one mapped exactly when that
      frame lies below 2^48. */
  lemma FrameReadBack(physical: U64, flags: U64, size: PageSize)
    requires physical % 4096 == 0 && flags < 4096
    ensures LeafEntry(physical, flags, size) < TWO64
    ensures PhysicalAddressFrame(LeafEntry(physical, flags, size)) == physical <==> physical < TWO48
  {
    LeafEntryFields(physical, flags, size);
    LeafBitsBound(flags, size);
    FrameMaskIs(LeafEntry(physical, flags, size));
    FrameOfSum(physical, LeafBits(flags, size));
  }

  /** A frame at 2^48 is read back as frame 0. */
  lemma FrameCanBeLost()
    ensures PhysicalAddressFrame(LeafEntry(TWO48, 0, Base)) != TWO48
  {
    FrameReadBack(TWO48, 0, Base);
  }

  lemma FrameOfSum(physical: U64, low: nat)
    requires physical % 4096 == 0 && low < 4096
    ensures FrameBits(physical + low) == physical <==> physical < TWO48
  {
    var f := physical / 4096;
    DivMod(physical + low, 4096, f, low);
    if physical < TWO48 { DivMod(f, 0x10_0000_0000, 0, f); }
  }

  // ---------------------------------------------------------------- the translation

  /** Bytes covered by one entry of a table at `level`; level 0 is the root. */
  function EntrySpan(level: nat): (r: nat)
    requires level < 4
    ensures r > 0
  {
    match level
    case 0 => 0x80_0000_0000
    case 1 => 0x4000_0000
    case 2 => 0x20_0000
    case _ => 4096
  }

  /** Which entry-sized piece of the 48-bit address space holds `v`. */
  function Page(v: U64, level: nat): nat
    requires level < 4
  {
    (v % TWO48) / EntrySpan(level)
  }

  function Index(v: U64, level: nat): (r: nat)
    requires level < 4
    ensures r < ENTRIES
  {
    Page(v, level) % ENTRIES
  }

  /** What the processor does with `v`: a not-present entry faults. */
  function Translate(mem: Memory, table: nat, v: U64, level: nat): Option<MappedPage>
    requires level < 4
    decreases 4 - level
  {
    var e := mem(table)[Index(v, level)];
    if !Present(e) then None
    else if IsLeaf(level, e) then Some(MappedPage(e, EntrySpan(level)))
    else Translate(mem, Target(e), v, level + 1)
  }

  /** What the walker `getMappedPage` does with `v`: it never looks at the present bit. */
  function RawWalk(mem: Memory, table: nat, v: U64, level: nat): (r: MappedPage)
    requires level < 4
    ensures r.pageSize == 4096 || r.pageSize == 0x20_0000 || r.pageSize == 0x4000_0000
    decreases 4 - level
  {
    var e := mem(table)[Index(v, level)];
    if IsLeaf(level, e) then MappedPage(e, EntrySpan(level))
    else RawWalk(mem, AlignDown(e, PAGE_FRAME_SIZE), v, level + 1)
  }

  /** The slot the code selects, by its divisions and mask. */
  function SlotOf(v: U64, level: nat): (r: nat)
    requires level < 4
    ensures r == Index(v, level)
  {
    PageSizesArePowers();
    RingRangeIsMod(v / EntrySpan(level), ENTRIES);
    IndexIgnoresHighBits(v, level);
    RingRange(v / EntrySpan(level), ENTRIES)
  }

  lemma SplitIndex(v: nat, d: nat, w: nat, k: nat)
    requires d > 0 && v == 512 * k * d + w
    ensures (v / d) % 512 == (w / d) % 512
  {
    var q, r := w / d, w % d;
    assert v == (512 * k + q) * d + r by {
      assert (512 * k + q) * d == 512 * k * d + q * d;
    }
    DivMod(v, d, 512 * k + q, r);
    DivMod(512 * k + q, 512, k + q / 512, q % 512);
  }

  lemma IndexIgnoresHighBits(v: U64, level: nat)
    requires level < 4
    ensures (v / EntrySpan(level)) % ENTRIES == Index(v, level)
  {
    var w, h := v % TWO48, v / TWO48;
    assert v == TWO48 * h + w;
    match level
    case 0 => SplitIndex(v, 0x80_0000_0000, w, h);
    case 1 => SplitIndex(v, 0x4000_0000, w, 512 * h);
    case 2 => SplitIndex(v, 0x20_0000, w, 512 * 512 * h);
    case 3 => SplitIndex(v, 4096, w, 512 * 512 * 512 * h);
  }

  /** The bit test of the walker is `Extended`. */
  lemma CodeExtended(e: U64)
    ensures And(e, 128) != 0 <==> Extended(e)
  {
    Pow2Values();
    AndBit(e, 7);
  }

  // ---------------------------------------------------------------- the tree

  /** The table at `level` that serves the `prefix`-th stretch of the address space. */
  datatype Node = Node(level: nat, prefix: nat)

  function NodeOf(v: U64, level: nat): Node
    requires level < 4
  {
    Node(level, Page(v, level) / ENTRIES)
  }

  function Child(n: Node, i: nat): Node {
    Node(n.level + 1, n.prefix * ENTRIES + i)
  }

  function Parent(n: Node): Node
    requires n.level > 0
  {
    Node(n.level - 1, n.prefix / ENTRIES)
  }

  ghost predicate SlotOk(mem: Memory, nodes: map<Node, nat>, n: Node, i: nat)
    requires n in nodes && i < ENTRIES
  {
    var e := mem(nodes[n])[i];
    var c := Child(n, i);
    if e == 0 then c !in nodes
    else && Present(e)
         && (IsLeaf(n.level, e) || (e < TWO52 && c in nodes && Target(e) == nodes[c]))
  }

  /** Every table has one place in the tree, and every slot above the last level is empty, maps a
      page, or points to the one table for its stretch. */
  ghost predicate Tree(mem: Memory, root: nat, nodes: map<Node, nat>) {
    && Node(0, 0) in nodes && nodes[Node(0, 0)] == root
    && (forall n :: n in nodes ==> n.level < 4 && nodes[n] % 4096 == 0 && nodes[n] < TWO52)
    && (forall n :: n in nodes && n.level > 0 ==> Parent(n) in nodes)
    && (forall m, n :: m in nodes && n in nodes && nodes[m] == nodes[n] ==> m == n)
    && (forall n, i :: n in nodes && n.level < 3 && 0 <= i < ENTRIES ==> SlotOk(mem, nodes, n, i))
  }

  /** No table is shared: two slots that point to the same table are the same slot. */
  lemma NoSharedTables(mem: Memory, root: nat, nodes: map<Node, nat>, m: Node, i: nat, n: Node, j: nat)
    requires Tree(mem, root, nodes)
    requires m in nodes && m.level < 3 && i < ENTRIES && mem(nodes[m])[i] != 0
    requires n in nodes && n.level < 3 && j < ENTRIES && mem(nodes[n])[j] != 0
    requires !IsLeaf(m.level, mem(nodes[m])[i]) && !IsLeaf(n.level, mem(nodes[n])[j])
    requires Target(mem(nodes[m])[i]) == Target(mem(nodes[n])[j])
    ensures m == n && i == j
    ensures Target(mem(nodes[m])[i]) != root
  {
    assert SlotOk(mem, nodes, m, i) && SlotOk(mem, nodes, n, j);
    assert Child(m, i) == Child(n, j);
  }

  lemma PathStep(v: U64, level: nat)
    requires level < 3
    ensures NodeOf(v, level + 1) == Child(NodeOf(v, level), Index(v, level))
  {
    var w := v % TWO48;
    assert Page(v, level) == Page(v, level) / ENTRIES * ENTRIES + Index(v, level);
    match level
    case 0 => assert w / 0x4000_0000 / 512 == w / 0x80_0000_0000;
    case 1 => assert w / 0x20_0000 / 512 == w / 0x4000_0000;
    case 2 => assert w / 4096 / 512 == w / 0x20_0000;
  }

  lemma RootNode(v: U64)
    ensures NodeOf(v, 0) == Node(0, 0)
  {}

  /** Two addresses use the same slot at a level exactly when they lie in the same piece. */
  lemma SameSlot(v: U64, x: U64, level: nat)
    requires level < 4
    ensures NodeOf(v, level) == NodeOf(x, level) && Index(v, level) == Index(x, level)
       <==> Page(v, level) == Page(x, level)
  {
    assert Page(v, level) == Page(v, level) / ENTRIES * ENTRIES + Index(v, level);
    assert Page(x, level) == Page(x, level) / ENTRIES * ENTRIES + Index(x, level);
  }

  /** The translation of `v` reads only the slots on the path of `v`. */
  lemma {:induction false} TranslateReads(mem: Memory, mem': Memory, root: nat, nodes: map<Node, nat>, v: U64,
                                          level: nat)
    requires Tree(mem, root, nodes)
    requires level < 4 && NodeOf(v, level) in nodes
    requires forall k: nat :: k < 4 && NodeOf(v, k) in nodes
               ==> mem'(nodes[NodeOf(v, k)])[Index(v, k)] == mem(nodes[NodeOf(v, k)])[Index(v, k)]
    ensures Translate(mem', nodes[NodeOf(v, level)], v, level) == Translate(mem, nodes[NodeOf(v, level)], v, level)
    decreases 4 - level
  {
    if level < 3 {
      assert SlotOk(mem, nodes, NodeOf(v, level), Index(v, level));
      PathStep(v, level);
      if NodeOf(v, level + 1) in nodes { TranslateReads(mem, mem', root, nodes, v, level + 1); }
    }
  }

  /** The mask of the code finds the table an entry points to. */
  lemma PointerTarget(e: U64)
    requires e < TWO52
    ensures AlignDown(e, PAGE_FRAME_SIZE) == Target(e)
  {
    PageSizesArePowers();
    AlignDownIsFloor(e, PAGE_FRAME_SIZE);
    assert e == e / 4096 * 4096 + e % 4096;
  }

  /** The walker agrees with the processor on every mapped address. */
  lemma {:induction false} WalkAgrees(mem: Memory, root: nat, nodes: map<Node, nat>, v: U64, level: nat)
    requires Tree(mem, root, nodes)
    requires level < 4 && NodeOf(v, level) in nodes
    requires Translate(mem, nodes[NodeOf(v, level)], v, level).Some?
    ensures Translate(mem, nodes[NodeOf(v, level)], v, level) == Some(RawWalk(mem, nodes[NodeOf(v, level)], v, level))
    decreases 4 - level
  {
    var e := mem(nodes[NodeOf(v, level)])[Index(v, level)];
    if !IsLeaf(level, e) {
      assert SlotOk(mem, nodes, NodeOf(v, level), Index(v, level));
      PathStep(v, level);
      PointerTarget(e);
      WalkAgrees(mem, root, nodes, v, level + 1);
    }
  }

  // ---------------------------------------------------------------- the stores of the mapper

  function Store(mem: Memory, table: nat, i: nat, value: U64): Memory
    requires i < ENTRIES
  {
    a => if a == table then mem(a)[i := value] else mem(a)
  }

  /** `memset` of a fresh frame. */
  function ZeroFrame(mem: Memory, frame: nat): Memory {
    a => if a == frame then seq(ENTRIES, _ => 0) else mem(a)
  }

  /** The path of `v` follows pointers from the root down to the table at `level`. */
  ghost predicate Reaches(mem: Memory, nodes: map<Node, nat>, v: U64, level: nat)
    requires level < 4
  {
    && NodeOf(v, level) in nodes
    && (level > 0 ==> && Reaches(mem, nodes, v, level - 1)
                      && var e := mem(nodes[NodeOf(v, level - 1)])[Index(v, level - 1)];
                         e != 0 && !IsLeaf(level - 1, e))
  }

  lemma {:induction false} ReachesTranslates(mem: Memory, root: nat, nodes: map<Node, nat>, v: U64, level: nat)
    requires Tree(mem, root, nodes)
    requires level < 4 && Reaches(mem, nodes, v, level)
    ensures Translate(mem, root, v, 0) == Translate(mem, nodes[NodeOf(v, level)], v, level)
  {
    RootNode(v);
    if level > 0 {
      ReachesTranslates(mem, root, nodes, v, level - 1);
      assert SlotOk(mem, nodes, NodeOf(v, level - 1), Index(v, level - 1));
      PathStep(v, level - 1);
    }
  }

  /** An address in the same piece of the address space as `v` shares its path. */
  lemma {:induction false} ReachesTogether(mem: Memory, nodes: map<Node, nat>, v: U64, x: U64, level: nat)
    requires level < 4 && Reaches(mem, nodes, v, level)
    requires Page(x, level) / ENTRIES == Page(v, level) / ENTRIES
    ensures Reaches(mem, nodes, x, level)
    decreases level
  {
    if level > 0 {
      PathStep(v, level - 1);
      PathStep(x, level - 1);
      SameSlot(v, x, level - 1);
      ReachesTogether(mem, nodes, v, x, level - 1);
    }
  }

  /** The store and the zeroing leave every other slot of every table alone. */
  lemma LinkElsewhere(mem: Memory, mem': Memory, root: nat, nodes: map<Node, nat>,
                      n: Node, i: nat, frame: nat, m: Node, j: nat)
    requires Tree(mem, root, nodes) && n in nodes && m in nodes && i < ENTRIES && j < ENTRIES
    requires frame + 3 < TWO64 && frame !in nodes.Values && !(m == n && j == i)
    requires mem' == Store(ZeroFrame(mem, frame), nodes[n], i, frame + 3)
    ensures mem'(nodes[m])[j] == mem(nodes[m])[j]
  {
    assert nodes[m] == nodes[n] ==> m == n;
  }

  lemma FreshTableFaults(mem: Memory, table: nat, v: U64, level: nat)
    requires level < 4 && mem(table)[Index(v, level)] == 0
    ensures Translate(mem, table, v, level).None?
  {
  }

  lemma {:induction false} LinkKeepsTranslation(mem: Memory, mem': Memory, root: nat, nodes: map<Node, nat>,
                                                n: Node, i: nat, frame: nat, v: U64, level: nat)
    requires Tree(mem, root, nodes)
    requires n in nodes && n.level < 3 && i < ENTRIES && mem(nodes[n])[i] == 0
    requires frame % 4096 == 0 && frame + 3 < TWO52 && frame !in nodes.Values
    requires mem' == Store(ZeroFrame(mem, frame), nodes[n], i, frame + 3)
    requires level < 4 && NodeOf(v, level) in nodes
    ensures Translate(mem', nodes[NodeOf(v, level)], v, level) == Translate(mem, nodes[NodeOf(v, level)], v, level)
    decreases 4 - level
  {
    var m := NodeOf(v, level);
    assert nodes[m] != frame;
    if m == n && Index(v, level) == i {
      PointerEntryFields(frame);
      FreshTableFaults(mem', frame, v, level + 1);
    } else {
      LinkElsewhere(mem, mem', root, nodes, n, i, frame, m, Index(v, level));
      if level < 3 {
        assert SlotOk(mem, nodes, m, Index(v, level));
        PathStep(v, level);
        if NodeOf(v, level + 1) in nodes {
          LinkKeepsTranslation(mem, mem', root, nodes, n, i, frame, v, level + 1);
        }
      }
    }
  }

  lemma LinkKeepsSlot(mem: Memory, root: nat, nodes: map<Node, nat>, n: Node, i: nat, frame: nat, m: Node, j: nat)
    requires Tree(mem, root, nodes)
    requires n in nodes && n.level < 3 && i < ENTRIES && mem(nodes[n])[i] == 0
    requires frame % 4096 == 0 && frame + 3 < TWO52 && frame !in nodes.Values
    requires m in nodes[Child(n, i) := frame] && m.level < 3 && j < ENTRIES
    ensures SlotOk(Store(ZeroFrame(mem, frame), nodes[n], i, frame + 3), nodes[Child(n, i) := frame], m, j)
  {
    assert SlotOk(mem, nodes, n, i);
    PointerEntryFields(frame);
    if m in nodes {
      assert nodes[m] != frame;
      assert SlotOk(mem, nodes, m, j);
      assert nodes[m] == nodes[n] ==> m == n;
    } else {
      assert Parent(Child(m, j)) == m;
    }
  }

  ghost predicate SameTranslations(mem: Memory, mem': Memory, root: nat) {
    forall v: U64 :: Translate(mem', root, v, 0) == Translate(mem, root, v, 0)
  }

  /** Linking a zeroed fresh frame into an empty slot keeps the tree and changes no translation. */
  lemma LinkKeepsTree(mem: Memory, root: nat, nodes: map<Node, nat>, n: Node, i: nat, frame: nat)
    requires Tree(mem, root, nodes)
    requires n in nodes && n.level < 3 && i < ENTRIES && mem(nodes[n])[i] == 0
    requires frame % 4096 == 0 && frame < TWO52 && frame !in nodes.Values
    ensures frame + 3 < TWO52
    ensures var mem' := Store(ZeroFrame(mem, frame), nodes[n], i, frame + 3);
            && Tree(mem', root, nodes[Child(n, i) := frame]) && SameTranslations(mem, mem', root)
  {
    var mem' := Store(ZeroFrame(mem, frame), nodes[n], i, frame + 3);
    var nodes' := nodes[Child(n, i) := frame];
    assert SlotOk(mem, nodes, n, i);
    forall m, j | m in nodes' && m.level < 3 && 0 <= j < ENTRIES
      ensures SlotOk(mem', nodes', m, j)
    {
      LinkKeepsSlot(mem, root, nodes, n, i, frame, m, j);
    }
    forall v: U64 ensures Translate(mem', root, v, 0) == Translate(mem, root, v, 0) {
      RootNode(v);
      LinkKeepsTranslation(mem, mem', root, nodes, n, i, frame, v, 0);
    }
  }

  lemma {:induction false} ReachesReads(mem: Memory, mem': Memory, nodes: map<Node, nat>, v: U64, level: nat)
    requires level < 4 && Reaches(mem, nodes, v, level)
    requires forall k: nat :: k < level && NodeOf(v, k) in nodes
               ==> mem'(nodes[NodeOf(v, k)])[Index(v, k)] == mem(nodes[NodeOf(v, k)])[Index(v, k)]
    ensures Reaches(mem', nodes, v, level)
  {
    if level > 0 { ReachesReads(mem, mem', nodes, v, level - 1); }
  }

  /** Writing a leaf at the end of the path of `v` maps exactly the page of `v`: every address in
      that page now gives the new entry, and every other address translates as before. */
  lemma LeafKeepsTree(mem: Memory, root: nat, nodes: map<Node, nat>, v: U64, level: nat, e: U64)
    requires Tree(mem, root, nodes)
    requires 1 <= level < 4 && Reaches(mem, nodes, v, level)
    requires Present(e) && IsLeaf(level, e)
    ensures var mem' := Store(mem, nodes[NodeOf(v, level)], Index(v, level), e);
            && Tree(mem', root, nodes)
            && forall x: U64 :: Translate(mem', root, x, 0)
                 == if Page(x, level) == Page(v, level) then Some(MappedPage(e, EntrySpan(level)))
                    else Translate(mem, root, x, 0)
  {
    var n, i := NodeOf(v, level), Index(v, level);
    var mem' := Store(mem, nodes[n], i, e);
    forall m, j | m in nodes && m.level < 3 && 0 <= j < ENTRIES
      ensures SlotOk(mem', nodes, m, j)
    {
      assert SlotOk(mem, nodes, m, j);
      assert nodes[m] == nodes[n] ==> m == n;
    }
    forall x: U64
      ensures Translate(mem', root, x, 0)
           == if Page(x, level) == Page(v, level) then Some(MappedPage(e, EntrySpan(level)))
              else Translate(mem, root, x, 0)
    {
      LeafTranslation(mem, root, nodes, v, level, e, x);
    }
  }

  lemma LeafTranslation(mem: Memory, root: nat, nodes: map<Node, nat>, v: U64, level: nat, e: U64, x: U64)
    requires Tree(mem, root, nodes)
    requires 1 <= level < 4 && Reaches(mem, nodes, v, level)
    requires Present(e) && IsLeaf(level, e)
    requires Tree(Store(mem, nodes[NodeOf(v, level)], Index(v, level), e), root, nodes)
    ensures Translate(Store(mem, nodes[NodeOf(v, level)], Index(v, level), e), root, x, 0)
         == if Page(x, level) == Page(v, level) then Some(MappedPage(e, EntrySpan(level)))
            else Translate(mem, root, x, 0)
  {
    var n := NodeOf(v, level);
    var mem' := Store(mem, nodes[n], Index(v, level), e);
    RootNode(x);
    SameSlot(x, v, level);
    assert forall k: nat :: k < 4 && NodeOf(x, k) in nodes && nodes[NodeOf(x, k)] == nodes[n] ==> k == level;
    if Page(x, level) == Page(v, level) {
      ReachesTogether(mem, nodes, v, x, level);
      ReachesReads(mem, mem', nodes, x, level);
      ReachesTranslates(mem', root, nodes, x, level);
    } else {
      TranslateReads(mem, mem', root, nodes, x, 0);
    }
  }

  /** After a link the path of `v` reaches one level further. */
  lemma LinkReaches(mem: Memory, root: nat, nodes: map<Node, nat>, v: U64, level: nat, frame: nat)
    requires Tree(mem, root, nodes)
    requires level < 3 && Reaches(mem, nodes, v, level)
    requires mem(nodes[NodeOf(v, level)])[Index(v, level)] == 0
    requires frame % 4096 == 0 && frame < TWO52 && frame !in nodes.Values
    ensures frame + 3 < TWO64
    ensures var mem' := Store(ZeroFrame(mem, frame), nodes[NodeOf(v, level)], Index(v, level), frame + 3);
            var nodes' := nodes[NodeOf(v, level + 1) := frame];
            Reaches(mem', nodes', v, level + 1)
  {
    var n, i := NodeOf(v, level), Index(v, level);
    var mem' := Store(ZeroFrame(mem, frame), nodes[n], i, frame + 3);
    var nodes' := nodes[NodeOf(v, level + 1) := frame];
    PathStep(v, level);
    PointerEntryFields(frame);
    assert SlotOk(mem, nodes, n, i);
    forall k: nat | k <= level && NodeOf(v, k) in nodes
      ensures nodes[NodeOf(v, k)] != frame
      ensures k < level ==> nodes[NodeOf(v, k)] != nodes[n]
    {
      assert nodes[NodeOf(v, k)] in nodes.Values;
    }
    ReachesMore(mem, mem', nodes, nodes', v, level);
  }

  lemma {:induction false} ReachesMore(mem: Memory, mem': Memory, nodes: map<Node, nat>, nodes': map<Node, nat>,
                                       v: U64, level: nat)
    requires level < 4 && Reaches(mem, nodes, v, level)
    requires forall k: nat :: k <= level && NodeOf(v, k) in nodes
               ==> NodeOf(v, k) in nodes' && nodes'[NodeOf(v, k)] == nodes[NodeOf(v, k)]
    requires forall k: nat :: k < level && NodeOf(v, k) in nodes
               ==> mem'(nodes[NodeOf(v, k)])[Index(v, k)] == mem(nodes[NodeOf(v, k)])[Index(v, k)]
    ensures Reaches(mem', nodes', v, level)
  {
    if level > 0 { ReachesMore(mem, mem', nodes, nodes', v, level - 1); }
  }

  /** A non-empty slot on the path that does not map a page leads one level further. */
  lemma FollowReaches(mem: Memory, root: nat, nodes: map<Node, nat>, v: U64, level: nat)
    requires Tree(mem, root, nodes)
    requires level < 3 && Reaches(mem, nodes, v, level)
    requires mem(nodes[NodeOf(v, level)])[Index(v, level)] != 0
    ensures var e := mem(nodes[NodeOf(v, level)])[Index(v, level)];
            if IsLeaf(level, e) then Translate(mem, root, v, 0) == Some(MappedPage(e, EntrySpan(level)))
            else Reaches(mem, nodes, v, level + 1) && AlignDown(e, PAGE_FRAME_SIZE) == nodes[NodeOf(v, level + 1)]
  {
    var e := mem(nodes[NodeOf(v, level)])[Index(v, level)];
    assert SlotOk(mem, nodes, NodeOf(v, level), Index(v, level));
    PathStep(v, level);
    ReachesTranslates(mem, root, nodes, v, level);
    if e < TWO52 { PointerTarget(e); }
  }
}
