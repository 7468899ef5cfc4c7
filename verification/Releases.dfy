/** What `freeMapped` gives back: the pages mapped in a range, gathered into runs of physically
    consecutive pages of one size. */
module Releases {
  import opened Bits
  import opened Options
  import opened Paging
  import opened PageTables
  import opened FreeLists
  import opened VirtualMemory
  import opened Mappings

  datatype FramePage = FramePage(frame: nat, size: PageSize)

  function SizeOf(bytes: nat): PageSize {
    if bytes == 4096 then Base else if bytes == 0x20_0000 then Large else Huge
  }

  function PageAt(mem: Memory, root: nat, v: U64): (p: FramePage)
    ensures p.size.Bytes() == RawWalk(mem, root, v, 0).pageSize
  {
    var page := RawWalk(mem, root, v, 0);
    FramePage(FrameBits(page.entry), SizeOf(page.pageSize))
  }

  /** What a walk of each address finds. */
  type Walk = U64 -> FramePage

  function Walker(mem: Memory, root: nat): Walk {
    (v: U64) => PageAt(mem, root, v)
  }

  /** The pages met when stepping from `start` to `end` page by page. */
  function PagesFrom(walk: Walk, start: nat, end: nat): seq<FramePage>
    requires end <= TWO64
    decreases end - start
  {
    if start >= end then []
    else
      var p := walk(start);
      [p] + PagesFrom(walk, start + p.size.Bytes(), end)
  }

  lemma PagesFromStep(walk: Walk, start: nat, end: nat)
    requires start < end <= TWO64
    ensures var p := walk(start);
            PagesFrom(walk, start, end) == [p] + PagesFrom(walk, start + p.size.Bytes(), end)
  {}

  /** Stepping from page to page never passes the top of the address space, where the 64-bit sum of
      the code would wrap. */
  predicate StepsFit(walk: Walk, start: nat, end: nat)
    requires end <= TWO64
    decreases end - start
  {
    start >= end ||
    (start + walk(start).size.Bytes() < TWO64 && StepsFit(walk, start + walk(start).size.Bytes(), end))
  }

  /** The pages `freeMapped` frees. An address inside a page moves up to the next page boundary; at
      a boundary the first page is freed whatever the length of the range. */
  function PagesFreed(walk: Walk, start: U64, end: nat): seq<FramePage>
    requires end <= TWO64
  {
    var size := walk(start).size;
    if RoundUp(start, size) == start then PagesFromPage(walk, start, end)
    else PagesFrom(walk, RoundUp(start, size), end)
  }

  /** The page at `start`, then the pages up to `end`. */
  function PagesFromPage(walk: Walk, start: U64, end: nat): seq<FramePage>
    requires end <= TWO64
  {
    var p := walk(start);
    [p] + PagesFrom(walk, start + p.size.Bytes(), end)
  }

  // ---------------------------------------------------------------- runs

  /** A page extends a run when it is the next frame and has the same size. */
  predicate Extends(run: Held, p: FramePage) {
    p.frame == RunEnd(run) && p.size == run.size
  }

  function RunEnd(run: Held): nat {
    run.run.pageStart + run.run.numberOfPages * run.size.Bytes()
  }

  function OnePage(p: FramePage): Held {
    Held(PagedMemory(p.frame, 1), p.size)
  }

  function Longer(run: Held): Held {
    Held(PagedMemory(run.run.pageStart, run.run.numberOfPages + 1), run.size)
  }

  /** The loop of `freeMapped`: grow the current run or close it and start another. */
  function Gather(run: Held, pages: seq<FramePage>): seq<Held>
    decreases |pages|
  {
    if pages == [] then [run]
    else if Extends(run, pages[0]) then Gather(Longer(run), pages[1..])
    else [run] + Gather(OnePage(pages[0]), pages[1..])
  }

  function Runs(pages: seq<FramePage>): seq<Held> {
    if pages == [] then [] else Gather(OnePage(pages[0]), pages[1..])
  }

  function PagesOfRun(run: Held): (r: seq<FramePage>)
    ensures |r| == run.run.numberOfPages
  {
    seq(run.run.numberOfPages, (k: nat) => FramePage(FrameAt(run.run, run.size, k), run.size))
  }

  function PagesOfRuns(runs: seq<Held>): seq<FramePage> {
    if runs == [] then [] else PagesOfRun(runs[0]) + PagesOfRuns(runs[1..])
  }

  lemma RunsStart(p: FramePage, rest: seq<FramePage>)
    ensures Runs([p] + rest) == Gather(OnePage(p), rest)
    ensures p.frame + p.size.Bytes() == RunEnd(OnePage(p))
  {
    assert ([p] + rest)[1..] == rest;
  }

  lemma GatherExtends(run: Held, p: FramePage, rest: seq<FramePage>)
    requires Extends(run, p)
    ensures Gather(run, [p] + rest) == Gather(Longer(run), rest)
    ensures p.frame + p.size.Bytes() == RunEnd(Longer(run))
  {
    assert ([p] + rest)[1..] == rest;
    MulDist(run.run.numberOfPages, 1, run.size.Bytes());
  }

  lemma {:induction false} GatherExpands(run: Held, pages: seq<FramePage>)
    ensures PagesOfRuns(Gather(run, pages)) == PagesOfRun(run) + pages
    decreases |pages|
  {
    if pages == [] {
      assert PagesOfRuns([run]) == PagesOfRun(run) + PagesOfRuns([run][1..]);
    } else if Extends(run, pages[0]) {
      var longer := Longer(run);
      GatherExpands(longer, pages[1..]);
      assert PagesOfRun(longer) == PagesOfRun(run) + [pages[0]];
      assert PagesOfRun(run) + [pages[0]] + pages[1..] == PagesOfRun(run) + pages;
    } else {
      var first := OnePage(pages[0]);
      GatherExpands(first, pages[1..]);
      assert 0 * first.size.Bytes() == 0;
      assert PagesOfRun(first) == [pages[0]];
      assert ([run] + Gather(first, pages[1..]))[1..] == Gather(first, pages[1..]);
      assert PagesOfRun(run) + ([pages[0]] + pages[1..]) == PagesOfRun(run) + pages;
    }
  }

  /** The runs freed, expanded page by page, are exactly the pages met, in order. */
  lemma RunsExpand(pages: seq<FramePage>)
    ensures PagesOfRuns(Runs(pages)) == pages
  {
    if pages != [] {
      GatherExpands(OnePage(pages[0]), pages[1..]);
      assert 0 * pages[0].size.Bytes() == 0;
      assert PagesOfRun(OnePage(pages[0])) == [pages[0]];
    }
  }

  predicate Joinable(r: Held, s: Held) {
    Extends(r, FramePage(s.run.pageStart, s.size))
  }

  /** No run is empty, and no two neighbouring runs could have been one. */
  predicate Maximal(runs: seq<Held>) {
    runs == [] ||
    (runs[0].run.numberOfPages > 0 && (|runs| > 1 ==> !Joinable(runs[0], runs[1])) && Maximal(runs[1..]))
  }

  lemma {:induction false} GatherIsMaximal(run: Held, pages: seq<FramePage>)
    requires run.run.numberOfPages > 0
    ensures var runs := Gather(run, pages);
            runs != [] && Maximal(runs) && runs[0].run.pageStart == run.run.pageStart && runs[0].size == run.size
    decreases |pages|
  {
    if pages == [] {
      assert Maximal([run][1..]);
    } else if Extends(run, pages[0]) {
      GatherIsMaximal(Longer(run), pages[1..]);
    } else {
      GatherIsMaximal(OnePage(pages[0]), pages[1..]);
      var rest := Gather(OnePage(pages[0]), pages[1..]);
      assert ([run] + rest)[1..] == rest;
    }
  }

  // ---------------------------------------------------------------- giving the runs back

  /** Free the runs one by one. */
  function FreeAll(state: Managers, runs: seq<Held>): Outcome<()>
    decreases |runs|
  {
    if runs == [] then Done((), state)
    else
      match FreePages(state, [runs[0].run], runs[0].size)
      case Done(_, state') => FreeAll(state', runs[1..])
      case _ => MetadataFull
  }

  function PageCount(pages: seq<FramePage>, a: nat): nat {
    if pages == [] then 0 else One(PagedMemory(pages[0].frame, 1), pages[0].size, a) + PageCount(pages[1..], a)
  }

  lemma {:induction false} PageCountConcat(s: seq<FramePage>, t: seq<FramePage>, a: nat)
    ensures PageCount(s + t, a) == PageCount(s, a) + PageCount(t, a)
    decreases |s|
  {
    if s == [] {
      assert s + t == t;
    } else {
      PageCountConcat(s[1..], t, a);
      assert (s + t)[1..] == s[1..] + t;
    }
  }

  lemma {:induction false} RunCounts(run: Held, a: nat)
    ensures PageCount(PagesOfRun(run), a) == One(run.run, run.size, a)
    decreases run.run.numberOfPages
  {
    var n := run.run.numberOfPages;
    if n == 0 {
      assert 0 * run.size.Bytes() == 0;
    } else {
      var shorter := Held(PagedMemory(run.run.pageStart, n - 1), run.size);
      var last := FramePage(FrameAt(run.run, run.size, n - 1), run.size);
      RunCounts(shorter, a);
      assert PagesOfRun(run) == PagesOfRun(shorter) + [last];
      PageCountConcat(PagesOfRun(shorter), [last], a);
      assert PageCount([last], a) == One(PagedMemory(last.frame, 1), last.size, a) + PageCount([last][1..], a);
      OneSplit(run.run.pageStart, n, n - 1, run.size, a);
    }
  }

  /** Freeing runs adds what their pages cover to the free memory. */
  lemma {:induction false} FreeAllAdds(state: Managers, runs: seq<Held>, a: nat)
    requires FreeAll(state, runs).Done?
    ensures Cover(FreeAll(state, runs).state, a) == Cover(state, a) + PageCount(PagesOfRuns(runs), a)
    decreases |runs|
  {
    if runs != [] {
      var r := runs[0];
      FreeAdds(state, [r.run], r.size, a);
      CountSingle(r.run, r.size, a);
      RunCounts(r, a);
      FreeAllAdds(FreePages(state, [r.run], r.size).state, runs[1..], a);
      PageCountConcat(PagesOfRun(r), PagesOfRuns(runs[1..]), a);
    }
  }

  /** How many of the runs go to the manager of one page size. */
  function RunsOfSize(runs: seq<Held>, size: PageSize): nat {
    if runs == [] then 0 else (if runs[0].size == size then 1 else 0) + RunsOfSize(runs[1..], size)
  }

  /** The list of that size has room for the runs that go there. */
  predicate RoomFor(state: Managers, runs: seq<Held>, size: PageSize) {
    RunsOfSize(runs, size) == 0 || |state.At(size).free| + RunsOfSize(runs, size) <= state.At(size).cap
  }

  /** Runs can be freed if and only if every manager has room for those of its own size. */
  lemma {:induction false} FreeAllExactly(state: Managers, runs: seq<Held>)
    ensures FreeAll(state, runs).Done? <==> forall size: PageSize :: RoomFor(state, runs, size)
    decreases |runs|
  {
    if runs != [] {
      var size0 := runs[0].size;
      var f := FreePages(state, [runs[0].run], size0);
      if f.Done? {
        FreeAllExactly(f.state, runs[1..]);
        forall size: PageSize ensures RoomFor(state, runs, size) <==> RoomFor(f.state, runs[1..], size) {
          assert f.state.At(size).cap == state.At(size).cap;
        }
      } else {
        assert !RoomFor(state, runs, size0);
      }
    }
  }

  predicate FramePagesOk(pages: seq<FramePage>) {
    forall i :: 0 <= i < |pages| ==> EntryOk(PagedMemory(pages[i].frame, 1), pages[i].size)
  }

  /** Consecutive aligned pages make an aligned run. */
  lemma RunOk(run: Held)
    requires run.run.numberOfPages > 0 && FramePagesOk(PagesOfRun(run))
    ensures EntryOk(run.run, run.size)
  {
    var n := run.run.numberOfPages;
    assert PagesOfRun(run)[0].frame == run.run.pageStart by { assert 0 * run.size.Bytes() == 0; }
    assert EntryOk(PagedMemory(PagesOfRun(run)[n - 1].frame, 1), run.size);
    MulDist(n - 1, 1, run.size.Bytes());
  }

  lemma {:induction false} FreeAllOk(state: Managers, runs: seq<Held>)
    requires Ok(state) && FreeAll(state, runs).Done? && FramePagesOk(PagesOfRuns(runs))
    requires Maximal(runs)
    ensures Ok(FreeAll(state, runs).state)
    decreases |runs|
  {
    if runs != [] {
      var pages := PagesOfRuns(runs);
      assert forall i :: 0 <= i < |PagesOfRun(runs[0])| ==> PagesOfRun(runs[0])[i] == pages[i];
      assert forall i :: 0 <= i < |PagesOfRuns(runs[1..])| ==>
               PagesOfRuns(runs[1..])[i] == pages[i + |PagesOfRun(runs[0])|];
      RunOk(runs[0]);
      FreeAllOk(FreePages(state, [runs[0].run], runs[0].size).state, runs[1..]);
    }
  }

  // ---------------------------------------------------------------- a mapped range

  function PagesOfMapping(m: Mapping): (r: seq<FramePage>)
    ensures |r| == |m.frames|
  {
    seq(|m.frames|, k requires 0 <= k < |m.frames| => FramePage(m.frames[k], m.size))
  }

  /** The frames fit the mask that reads them back. */
  predicate FramesReadable(frames: seq<nat>) {
    forall k :: 0 <= k < |frames| ==> frames[k] < TWO48
  }

  /** An address inside the k-th page of a mapping. */
  predicate InPage(m: Mapping, k: nat, page: nat, v: nat) {
    && m.start % m.size.Bytes() == 0 && k < |m.frames|
    && m.start % TWO48 + m.Bytes() <= TWO48 && m.End() < TWO64
    && page == m.start + k * m.size.Bytes() && page <= v < page + m.size.Bytes()
  }

  lemma AddressInMapping(m: Mapping, k: nat, page: nat, v: nat)
    requires InPage(m, k, page, v)
    ensures page % m.size.Bytes() == 0 && v < TWO64
    ensures PageNumber(v, m.size) == PageNumber(m.start, m.size) + k
    ensures Within(v, m.start, m.Bytes())
  {
    MulMono(k + 1, |m.frames|, m.size.Bytes());
    MulDist(k, 1, m.size.Bytes());
    PageInMapping(m, k, page);
    SamePage(page, v, m.size);
    WithinPages(v, m.start, |m.frames|, m.size);
  }

  /** The processor finds the frame and the size of the page. */
  lemma MappingTranslates(mem: Memory, root: nat, m: Mapping, k: nat, page: nat, v: nat)
    requires Backed(mem, root, m) && FramesOk(m.frames, m.size) && InPage(m, k, page, v)
    ensures v < TWO64 && Translate(mem, root, v, 0).Some?
    ensures Translate(mem, root, v, 0).value.pageSize == m.size.Bytes()
    ensures Target(Translate(mem, root, v, 0).value.entry) == m.frames[k]
  {
    AddressInMapping(m, k, page, v);
    assert Translate(mem, root, v, 0) == Some(MappedPage(LeafEntry(m.frames[k], 0, m.size), m.size.Bytes()));
    assert EntryOk(PagedMemory(m.frames[k], 1), m.size);
    FrameBelow(m.frames[k], m.size);
    LeafEntryFields(m.frames[k], 0, m.size);
  }

  /** The walker finds the frame and the size of the page. */
  lemma PageOfMapping(mem: Memory, root: nat, nodes: map<Node, nat>, m: Mapping, k: nat, page: nat, v: nat)
    requires Tree(mem, root, nodes) && Backed(mem, root, m) && FramesOk(m.frames, m.size) && FramesReadable(m.frames)
    requires InPage(m, k, page, v)
    ensures v < TWO64 && Walker(mem, root)(v) == FramePage(m.frames[k], m.size)
  {
    AddressInMapping(m, k, page, v);
    assert Translate(mem, root, v, 0) == Some(MappedPage(LeafEntry(m.frames[k], 0, m.size), m.size.Bytes()));
    RootNode(v);
    WalkAgrees(mem, root, nodes, v, 0);
    assert EntryOk(PagedMemory(m.frames[k], 1), m.size);
    FrameBelow(m.frames[k], m.size);
    FrameReadBack(m.frames[k], 0, m.size);
    FrameMaskIs(LeafEntry(m.frames[k], 0, m.size));
  }

  lemma FrameBelow(frame: nat, size: PageSize)
    requires EntryOk(PagedMemory(frame, 1), size)
    ensures frame % 4096 == 0 && frame < TWO64
  {
    match size
    case Base =>
    case Large => DivisorOfBytes(frame, 512);
    case Huge => DivisorOfBytes(frame, 0x4_0000);
  }

  lemma PageInMapping(m: Mapping, k: nat, v: U64)
    requires m.start % m.size.Bytes() == 0 && k < |m.frames| && v == m.start + k * m.size.Bytes()
    requires m.start % TWO48 + m.Bytes() <= TWO48 && m.End() < TWO64
    ensures PageNumber(v, m.size) == PageNumber(m.start, m.size) + k && v % m.size.Bytes() == 0
  {
    var b := m.size.Bytes();
    MulStrict(k, |m.frames|, b);
    MulDist(m.start / b, k, b);
    DivMod(v, b, m.start / b + k, 0);
    match m.size {
      case Base => PageAdvances(m.start, k, 4096);
      case Large => PageAdvances(m.start, k, 0x20_0000);
      case Huge => PageAdvances(m.start, k, 0x4000_0000);
    }
  }

  /** From `v` on the walks find these pages, one behind the other, whatever their sizes. */
  predicate Serves(walk: Walk, pages: seq<FramePage>, v: nat) {
    pages == [] || (v < TWO64 && walk(v) == pages[0] && Serves(walk, pages[1..], v + pages[0].size.Bytes()))
  }

  function EndOf(pages: seq<FramePage>, v: nat): nat {
    if pages == [] then v else EndOf(pages[1..], v + pages[0].size.Bytes())
  }

  lemma {:induction false} EndOfGrows(pages: seq<FramePage>, v: nat)
    ensures EndOf(pages, v) >= v && (pages != [] ==> EndOf(pages, v) > v)
    decreases |pages|
  {
    if pages != [] { EndOfGrows(pages[1..], v + pages[0].size.Bytes()); }
  }

  lemma {:induction false} ServedFits(walk: Walk, pages: seq<FramePage>, v: nat)
    requires Serves(walk, pages, v) && EndOf(pages, v) < TWO64
    ensures StepsFit(walk, v, EndOf(pages, v))
    decreases |pages|
  {
    if pages != [] {
      EndOfGrows(pages, v);
      EndOfGrows(pages[1..], v + pages[0].size.Bytes());
      ServedFits(walk, pages[1..], v + pages[0].size.Bytes());
    }
  }

  /** Stepping over these pages from `v` on ends in the last of them. */
  predicate EndsIn(pages: seq<FramePage>, v: nat, end: nat) {
    if pages == [] then end <= v else v < end && EndsIn(pages[1..], v + pages[0].size.Bytes(), end)
  }

  /** That is, the last page starts before `end` and does not end before it. */
  lemma {:induction false} EndsInLast(pages: seq<FramePage>, v: nat, end: nat)
    requires pages != []
    ensures EndsIn(pages, v, end) <==> EndOf(pages[..|pages| - 1], v) < end <= EndOf(pages, v)
    decreases |pages|
  {
    var next := v + pages[0].size.Bytes();
    if |pages| > 1 {
      EndsInLast(pages[1..], next, end);
      EndOfGrows(pages[1..][..|pages| - 2], next);
      assert pages[..|pages| - 1][1..] == pages[1..][..|pages| - 2];
    }
  }

  lemma {:induction false} ServedUpTo(walk: Walk, pages: seq<FramePage>, v: nat, end: nat)
    requires Serves(walk, pages, v) && EndsIn(pages, v, end) && end <= TWO64
    ensures PagesFrom(walk, v, end) == pages
    decreases |pages|
  {
    if pages != [] {
      PagesFromStep(walk, v, end);
      ServedUpTo(walk, pages[1..], v + pages[0].size.Bytes(), end);
      assert [pages[0]] + pages[1..] == pages;
    }
  }

  lemma {:induction false} EndsAtEnd(pages: seq<FramePage>, v: nat)
    ensures EndsIn(pages, v, EndOf(pages, v))
    decreases |pages|
  {
    EndOfGrows(pages, v);
    if pages != [] { EndsAtEnd(pages[1..], v + pages[0].size.Bytes()); }
  }

  /** `freeMapped` from a page boundary of a mapped range to an end anywhere in its last page frees
      exactly its pages, in order, however frames and page sizes alternate. The first page is freed
      however short the range is. */
  lemma ServedFreed(walk: Walk, pages: seq<FramePage>, v: U64, end: nat)
    requires pages != [] && Serves(walk, pages, v) && v % pages[0].size.Bytes() == 0
    requires EndsIn(pages[1..], v + pages[0].size.Bytes(), end) && end <= TWO64
    ensures PagesFreed(walk, v, end) == pages
    ensures PagesOfRuns(Runs(PagesFreed(walk, v, end))) == pages
  {
    RoundUpIs(v, pages[0].size);
    ServedUpTo(walk, pages[1..], v + pages[0].size.Bytes(), end);
    assert [pages[0]] + pages[1..] == pages;
    assert PagesFromPage(walk, v, end) == pages;
    assert RoundUp(v, walk(v).size) == v;
    assert PagesFreed(walk, v, end) == pages;
    RunsExpand(pages);
  }

  /** It then frees nothing behind the range if and only if the range ends where its last page ends. */
  lemma FreedInRange(walk: Walk, pages: seq<FramePage>, v: U64, end: nat)
    requires pages != [] && Serves(walk, pages, v) && v % pages[0].size.Bytes() == 0
    requires EndsIn(pages[1..], v + pages[0].size.Bytes(), end) && end <= TWO64
    ensures EndOf(PagesFreed(walk, v, end), v) <= end <==> end == EndOf(pages, v)
  {
    ServedFreed(walk, pages, v, end);
    if |pages| > 1 { EndsInLast(pages[1..], v + pages[0].size.Bytes(), end); }
  }

  /** At a boundary an empty range frees a page. */
  lemma EmptyRangeFreesPage(walk: Walk, v: U64)
    requires v % walk(v).size.Bytes() == 0
    ensures PagesFreed(walk, v, v) == [walk(v)]
  {
    RoundUpIs(v, walk(v).size);
  }

  /** From inside a page it frees the pages behind that page, up to the one the range ends in. */
  lemma ServedFreedInside(walk: Walk, start: U64, size: PageSize, next: nat, pages: seq<FramePage>, end: nat)
    requires walk(start).size == size && RoundUp(start, size) == next != start
    requires Serves(walk, pages, next) && EndsIn(pages, next, end) && end <= TWO64
    ensures PagesFreed(walk, start, end) == pages
  {
    ServedUpTo(walk, pages, next, end);
  }

  /** A range handed out by the policy layer is such a range. */
  lemma MappingServes(mem: Memory, root: nat, nodes: map<Node, nat>, m: Mapping, k: nat, v: nat)
    requires Tree(mem, root, nodes) && Backed(mem, root, m) && FramesOk(m.frames, m.size) && FramesReadable(m.frames)
    requires m.start % m.size.Bytes() == 0 && k <= |m.frames| && v == m.start + k * m.size.Bytes()
    requires m.start % TWO48 + m.Bytes() <= TWO48 && m.End() < TWO64
    ensures Serves(Walker(mem, root), PagesOfMapping(m)[k..], v)
    ensures EndOf(PagesOfMapping(m)[k..], v) == m.End()
  {
    PagesServed(mem, root, nodes, m);
    ServesFrom(Walker(mem, root), PagesOfMapping(m), m.size, m.start, k, v);
  }

  lemma PagesServed(mem: Memory, root: nat, nodes: map<Node, nat>, m: Mapping)
    requires Tree(mem, root, nodes) && Backed(mem, root, m) && FramesOk(m.frames, m.size) && FramesReadable(m.frames)
    requires m.start % m.size.Bytes() == 0
    requires m.start % TWO48 + m.Bytes() <= TWO48 && m.End() < TWO64
    ensures forall j :: 0 <= j < |m.frames| ==> ServedAt(Walker(mem, root), PagesOfMapping(m), m.size, m.start, j)
  {
    forall j | 0 <= j < |m.frames| ensures ServedAt(Walker(mem, root), PagesOfMapping(m), m.size, m.start, j) {
      PageServed(mem, root, nodes, m, j, m.start + j * m.size.Bytes());
    }
  }

  /** The walk finds page `j` of a range of pages of one size. */
  ghost predicate ServedAt(walk: Walk, pages: seq<FramePage>, size: PageSize, start: nat, j: nat)
    requires j < |pages|
  {
    start + j * size.Bytes() < TWO64 && walk(start + j * size.Bytes()) == pages[j] && pages[j].size == size
  }

  lemma {:induction false} ServesFrom(walk: Walk, pages: seq<FramePage>, size: PageSize, start: nat, k: nat, v: nat)
    requires k <= |pages| && v == start + k * size.Bytes()
    requires forall j :: k <= j < |pages| ==> ServedAt(walk, pages, size, start, j)
    ensures Serves(walk, pages[k..], v) && EndOf(pages[k..], v) == start + |pages| * size.Bytes()
    decreases |pages| - k
  {
    if k < |pages| {
      assert ServedAt(walk, pages, size, start, k);
      MulDist(k, 1, size.Bytes());
      ServesFrom(walk, pages, size, start, k + 1, v + size.Bytes());
      ServesMore(walk, pages, k, v);
    }
  }

  lemma PageServed(mem: Memory, root: nat, nodes: map<Node, nat>, m: Mapping, k: nat, v: nat)
    requires Tree(mem, root, nodes) && Backed(mem, root, m) && FramesOk(m.frames, m.size) && FramesReadable(m.frames)
    requires m.start % m.size.Bytes() == 0 && k < |m.frames| && v == m.start + k * m.size.Bytes()
    requires m.start % TWO48 + m.Bytes() <= TWO48 && m.End() < TWO64
    ensures ServedAt(Walker(mem, root), PagesOfMapping(m), m.size, m.start, k)
  {
    MulStrict(k, |m.frames|, m.size.Bytes());
    MulDist(k, 1, m.size.Bytes());
    PageOfMapping(mem, root, nodes, m, k, v, v);
  }

  lemma ServesMore(walk: Walk, pages: seq<FramePage>, k: nat, v: U64)
    requires k < |pages| && walk(v) == pages[k] && Serves(walk, pages[k + 1..], v + pages[k].size.Bytes())
    ensures Serves(walk, pages[k..], v)
    ensures EndOf(pages[k..], v) == EndOf(pages[k + 1..], v + pages[k].size.Bytes())
  {
    assert pages[k..][0] == pages[k] && pages[k..][1..] == pages[k + 1..];
  }

  /** The pages of a mapping up to the `j`-th end where the range does. */
  predicate EndsAtPage(m: Mapping, k: nat, j: nat, end: nat) {
    k <= j <= |m.frames| &&
    if k == j then end <= m.start + k * m.size.Bytes()
    else m.start + (j - 1) * m.size.Bytes() < end <= m.start + j * m.size.Bytes()
  }

  /** A range that starts inside page `k` of a mapping frees from the next page on, up to the one it
      ends in. */
  lemma PagesFreedInside(mem: Memory, root: nat, nodes: map<Node, nat>, m: Mapping, k: nat, page: nat,
                         start: U64, j: nat, end: nat)
    requires Tree(mem, root, nodes) && Backed(mem, root, m) && FramesOk(m.frames, m.size) && FramesReadable(m.frames)
    requires InPage(m, k, page, start) && page != start && EndsAtPage(m, k + 1, j, end) && end <= TWO64
    ensures PagesFreed(Walker(mem, root), start, end) == PagesOfMapping(m)[k + 1..j]
  {
    var walk, pages := Walker(mem, root), PagesOfMapping(m);
    var next := page + m.size.Bytes();
    NextPage(m, k, page, start);
    PageOfMapping(mem, root, nodes, m, k, page, start);
    forall i | k + 1 <= i < j ensures ServedAt(walk, pages, m.size, m.start, i) {
      PageServed(mem, root, nodes, m, i, m.start + i * m.size.Bytes());
    }
    PartServes(walk, pages, m, k + 1, j, next, end);
    ServedFreedInside(walk, start, m.size, next, pages[k + 1..j], end);
  }

  lemma {:induction false} PartServes(walk: Walk, pages: seq<FramePage>, m: Mapping, k: nat, j: nat, v: nat, end: nat)
    requires |pages| == |m.frames| && EndsAtPage(m, k, j, end) && v == m.start + k * m.size.Bytes()
    requires forall i :: k <= i < j ==> ServedAt(walk, pages, m.size, m.start, i)
    ensures Serves(walk, pages[k..j], v) && EndsIn(pages[k..j], v, end)
    decreases j - k
  {
    if k < j {
      assert ServedAt(walk, pages, m.size, m.start, k);
      MulDist(k, 1, m.size.Bytes());
      MulMono(k, j - 1, m.size.Bytes());
      PartServes(walk, pages, m, k + 1, j, v + m.size.Bytes(), end);
      assert pages[k..j][0] == pages[k] && pages[k..j][1..] == pages[k + 1..j];
    }
  }

  lemma NextPage(m: Mapping, k: nat, page: nat, start: nat)
    requires InPage(m, k, page, start) && page != start
    ensures RoundUp(start, m.size) == page + m.size.Bytes() == m.start + (k + 1) * m.size.Bytes()
  {
    MulDist(k, 1, m.size.Bytes());
    AddressInMapping(m, k, page, start);
    NextBoundary(start, page, m.size.Bytes());
    RoundUpIs(start, m.size);
  }

  lemma NextBoundary(start: nat, v: nat, b: nat)
    requires b > 0 && v % b == 0 && v < start < v + b
    ensures start % b != 0 && (start + (b - 1)) / b * b == v + b
  {
    var q := v / b;
    DivMod(start, b, q, start - v);
    MulDist(q, 1, b);
    DivMod(start + (b - 1), b, q + 1, start - v - 1);
  }

  // ---------------------------------------------------------------- the account

  lemma {:induction false} MappingCounts(m: Mapping, k: nat, a: nat)
    requires k <= |m.frames|
    ensures PageCount(PagesOfMapping(m)[k..], a) + FrameCount(m.frames[..k], m.size, a)
              == FrameCount(m.frames, m.size, a)
    decreases |m.frames| - k
  {
    if k < |m.frames| {
      MappingCounts(m, k + 1, a);
      assert PagesOfMapping(m)[k..][1..] == PagesOfMapping(m)[k + 1..];
      assert m.frames[..k + 1][..k] == m.frames[..k];
    } else {
      assert m.frames[..k] == m.frames;
    }
  }

  /** Freeing the pages of a mapping gives back exactly its frames. */
  lemma FreeMappingAdds(state: Managers, m: Mapping, a: nat)
    requires FreeAll(state, Runs(PagesOfMapping(m))).Done?
    ensures Cover(FreeAll(state, Runs(PagesOfMapping(m))).state, a) == Cover(state, a) + FrameCount(m.frames, m.size, a)
  {
    FreeAllAdds(state, Runs(PagesOfMapping(m)), a);
    RunsExpand(PagesOfMapping(m));
    MappingCounts(m, 0, a);
    assert PagesOfMapping(m)[0..] == PagesOfMapping(m);
  }

  lemma FreeMappingOk(state: Managers, m: Mapping)
    requires Ok(state) && FramesOk(m.frames, m.size) && FreeAll(state, Runs(PagesOfMapping(m))).Done?
    ensures Ok(FreeAll(state, Runs(PagesOfMapping(m))).state)
  {
    var pages := PagesOfMapping(m);
    RunsExpand(pages);
    if pages != [] { GatherIsMaximal(OnePage(pages[0]), pages[1..]); }
    FreeAllOk(state, Runs(pages));
  }
}
