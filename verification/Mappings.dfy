/** What the policy layer hands out: stretches of virtual pages with the frame behind each page. */
module Mappings {
  import opened Bits
  import opened Options
  import opened Paging
  import opened PageTables
  import opened FreeLists
  import opened VirtualMemory

  /** A virtual range and the frames behind its pages, in order. */
  datatype Mapping = Mapping(start: U64, size: PageSize, frames: seq<nat>) {
    function Bytes(): nat {
      |frames| * size.Bytes()
    }

    function End(): nat {
      start + Bytes()
    }
  }

  // ---------------------------------------------------------------- frames of runs

  function FrameAt(run: PagedMemory, size: PageSize, k: nat): nat {
    run.pageStart + k * size.Bytes()
  }

  function FramesOf(run: PagedMemory, size: PageSize): (r: seq<nat>)
    ensures |r| == run.numberOfPages
  {
    seq(run.numberOfPages, (k: nat) => FrameAt(run, size, k))
  }

  /** The frames of a list of runs, one per page, in order. */
  function Expand(runs: seq<PagedMemory>, size: PageSize): seq<nat> {
    if runs == [] then [] else Expand(runs[..|runs| - 1], size) + FramesOf(runs[|runs| - 1], size)
  }

  /** How many of the frames cover address `a`. */
  function FrameCount(frames: seq<nat>, size: PageSize, a: nat): nat {
    if frames == [] then 0
    else FrameCount(frames[..|frames| - 1], size, a) + One(PagedMemory(frames[|frames| - 1], 1), size, a)
  }

  function DataCount(live: seq<Mapping>, a: nat): nat {
    if live == [] then 0
    else DataCount(live[..|live| - 1], a) + FrameCount(live[|live| - 1].frames, live[|live| - 1].size, a)
  }

  lemma {:induction false} ExpandLength(runs: seq<PagedMemory>, size: PageSize)
    ensures |Expand(runs, size)| == Total(runs)
  {
    if runs != [] { ExpandLength(runs[..|runs| - 1], size); }
  }

  lemma {:induction false} FrameCountConcat(s: seq<nat>, t: seq<nat>, size: PageSize, a: nat)
    ensures FrameCount(s + t, size, a) == FrameCount(s, size, a) + FrameCount(t, size, a)
    decreases |t|
  {
    if t == [] {
      assert s + t == s;
    } else {
      FrameCountConcat(s, t[..|t| - 1], size, a);
      assert (s + t)[..|s + t| - 1] == s + t[..|t| - 1];
    }
  }

  /** A run covers what its frames cover. */
  lemma {:induction false} RunFrames(run: PagedMemory, size: PageSize, a: nat)
    ensures FrameCount(FramesOf(run, size), size, a) == One(run, size, a)
    decreases run.numberOfPages
  {
    var n := run.numberOfPages;
    if n == 0 {
      assert 0 * size.Bytes() == 0;
    } else {
      var shorter := PagedMemory(run.pageStart, n - 1);
      RunFrames(shorter, size, a);
      assert FramesOf(run, size)[..n - 1] == FramesOf(shorter, size);
      OneSplit(run.pageStart, n, n - 1, size, a);
    }
  }

  lemma {:induction false} ExpandCounts(runs: seq<PagedMemory>, size: PageSize, a: nat)
    ensures FrameCount(Expand(runs, size), size, a) == Count(runs, size, a)
  {
    if runs != [] {
      var k := |runs| - 1;
      ExpandCounts(runs[..k], size, a);
      FrameCountConcat(Expand(runs[..k], size), FramesOf(runs[k], size), size, a);
      RunFrames(runs[k], size, a);
    }
  }

  /** Aligned frames below the limit. */
  predicate FramesOk(frames: seq<nat>, size: PageSize) {
    forall k :: 0 <= k < |frames| ==> EntryOk(PagedMemory(frames[k], 1), size)
  }

  lemma {:induction false} ExpandOk(runs: seq<PagedMemory>, size: PageSize)
    requires ListOk(runs, size)
    ensures FramesOk(Expand(runs, size), size)
  {
    if runs != [] {
      var run := runs[|runs| - 1];
      ExpandOk(runs[..|runs| - 1], size);
      forall k | 0 <= k < run.numberOfPages ensures EntryOk(PagedMemory(FramesOf(run, size)[k], 1), size) {
        EntrySplit(run, k, size);
        EntrySplit(PagedMemory(run.pageStart + k * size.Bytes(), run.numberOfPages - k), 1, size);
      }
    }
  }

  // ---------------------------------------------------------------- translations of a mapping

  /** The low 48 bits of `v` lie in the `bytes` bytes from `start` on. */
  predicate Within(v: U64, start: nat, bytes: nat) {
    start % TWO48 <= v % TWO48 < start % TWO48 + bytes
  }

  /** What a translation becomes when consecutive pages are mapped to the given frames. */
  ghost function AfterFrames(was: Option<MappedPage>, v: U64, first: nat, frames: seq<nat>,
                             size: PageSize): Option<MappedPage> {
    var page := PageNumber(v, size);
    if first <= page < first + |frames| then
      Some(MappedPage(LeafEntry(frames[page - first], 0, size), size.Bytes()))
    else was
  }

  /** Since the tables were `was`, consecutive pages from `first` on have been mapped to the given frames
      and nothing else has changed. */
  ghost predicate MappedSince(was: Memory, mem: Memory, root: nat, first: nat, frames: seq<nat>, size: PageSize) {
    forall v: U64 :: Translate(mem, root, v, 0) == AfterFrames(Translate(was, root, v, 0), v, first, frames, size)
  }

  /** Mapping one more run extends a mapping by the frames of that run. */
  lemma FramesGrow(was: Option<MappedPage>, mid: Option<MappedPage>, v: U64, first: nat, frames: seq<nat>,
                   run: PagedMemory, page: nat, size: PageSize)
    requires mid == AfterFrames(was, v, first, frames, size) && page == first + |frames|
    ensures AfterMapping(mid, v, page, run.numberOfPages, run.pageStart, 0, size)
         == AfterFrames(was, v, first, frames + FramesOf(run, size), size)
  {}

  /** A page lies in a region exactly when its number does. */
  lemma WithinPages(v: U64, start: U64, n: nat, size: PageSize)
    requires start % size.Bytes() == 0
    ensures PageNumber(start, size) <= PageNumber(v, size) < PageNumber(start, size) + n
       <==> Within(v, start, n * size.Bytes())
  {
    match size
    case Base => WindowPages(v % TWO48, start, n, 4096);
    case Large => WindowPages(v % TWO48, start, n, 0x20_0000);
    case Huge => WindowPages(v % TWO48, start, n, 0x4000_0000);
  }

  lemma WindowPages(w: nat, start: nat, n: nat, b: nat)
    requires b > 0 && TWO48 % b == 0 && start % b == 0
    ensures start % TWO48 / b <= w / b < start % TWO48 / b + n
       <==> start % TWO48 <= w < start % TWO48 + n * b
  {
    WindowAligned(start, b);
    PagesBetween(w, start % TWO48 / b, n, b);
  }

  lemma PagesBetween(w: nat, q: nat, n: nat, b: nat)
    requires b > 0
    ensures q <= w / b < q + n <==> q * b <= w < q * b + n * b
  {
    QuotientBelow(w, q, b);
    QuotientBelow(w, q + n, b);
    MulDist(q, n, b);
  }

  lemma QuotientBelow(w: nat, q: nat, b: nat)
    requires b > 0
    ensures w / b < q <==> w < q * b
  {
    var p := w / b;
    if p < q {
      MulMono(p + 1, q, b);
      MulDist(p, 1, b);
    } else {
      MulMono(q, p, b);
    }
  }

  /** The processor translates every address of the range to the frame of its page. */
  ghost predicate Backed(mem: Memory, root: nat, m: Mapping) {
    forall v: U64 :: Within(v, m.start, m.Bytes()) ==>
      && PageNumber(m.start, m.size) <= PageNumber(v, m.size) < PageNumber(m.start, m.size) + |m.frames|
      && Translate(mem, root, v, 0)
           == Some(MappedPage(LeafEntry(m.frames[PageNumber(v, m.size) - PageNumber(m.start, m.size)], 0, m.size),
                              m.size.Bytes()))
  }

  lemma NewlyBacked(mem: Memory, was: Memory, root: nat, m: Mapping)
    requires m.start % m.size.Bytes() == 0
    requires MappedSince(was, mem, root, PageNumber(m.start, m.size), m.frames, m.size)
    ensures Backed(mem, root, m)
    ensures forall v: U64 :: !Within(v, m.start, m.Bytes()) ==> Translate(mem, root, v, 0) == Translate(was, root, v, 0)
  {
    MappedInside(mem, was, root, m);
    forall v: U64 | !Within(v, m.start, m.Bytes()) ensures Translate(mem, root, v, 0) == Translate(was, root, v, 0) {
      WithinPages(v, m.start, |m.frames|, m.size);
    }
  }

  lemma MappedInside(mem: Memory, was: Memory, root: nat, m: Mapping)
    requires m.start % m.size.Bytes() == 0
    requires MappedSince(was, mem, root, PageNumber(m.start, m.size), m.frames, m.size)
    ensures Backed(mem, root, m)
  {
    forall v: U64
      ensures Within(v, m.start, m.Bytes())
         ==> PageNumber(m.start, m.size) <= PageNumber(v, m.size) < PageNumber(m.start, m.size) + |m.frames|
    {
      WithinPages(v, m.start, |m.frames|, m.size);
    }
  }

  lemma StaysBacked(mem: Memory, was: Memory, root: nat, m: Mapping, start: nat, bytes: nat)
    requires Backed(was, root, m)
    requires forall v: U64 :: !Within(v, start, bytes) ==> Translate(mem, root, v, 0) == Translate(was, root, v, 0)
    requires m.start % TWO48 + m.Bytes() <= start % TWO48
    ensures Backed(mem, root, m)
  {}

  lemma DataCountConcat(live: seq<Mapping>, m: Mapping, a: nat)
    ensures DataCount(live + [m], a) == DataCount(live, a) + FrameCount(m.frames, m.size, a)
  {
    assert (live + [m])[..|live|] == live;
  }

  // ---------------------------------------------------------------- counting pages

  lemma {:induction false} FrameCountAt(frames: seq<nat>, k: nat, size: PageSize, a: nat)
    requires k < |frames|
    ensures FrameCount(frames, size, a) >= One(PagedMemory(frames[k], 1), size, a)
    decreases |frames|
  {
    if k < |frames| - 1 { FrameCountAt(frames[..|frames| - 1], k, size, a); }
  }

  lemma {:induction false} FrameCountTwo(frames: seq<nat>, k: nat, l: nat, size: PageSize, a: nat)
    requires k < l < |frames|
    ensures FrameCount(frames, size, a)
         >= One(PagedMemory(frames[k], 1), size, a) + One(PagedMemory(frames[l], 1), size, a)
    decreases |frames|
  {
    if l < |frames| - 1 {
      FrameCountTwo(frames[..|frames| - 1], k, l, size, a);
    } else {
      FrameCountAt(frames[..|frames| - 1], k, size, a);
    }
  }

  lemma {:induction false} DataCountAt(live: seq<Mapping>, i: nat, a: nat)
    requires i < |live|
    ensures DataCount(live, a) >= FrameCount(live[i].frames, live[i].size, a)
    decreases |live|
  {
    if i < |live| - 1 { DataCountAt(live[..|live| - 1], i, a); }
  }

  lemma {:induction false} DataCountTwo(live: seq<Mapping>, i: nat, j: nat, a: nat)
    requires i < j < |live|
    ensures DataCount(live, a)
         >= FrameCount(live[i].frames, live[i].size, a) + FrameCount(live[j].frames, live[j].size, a)
    decreases |live|
  {
    if j < |live| - 1 {
      DataCountTwo(live[..|live| - 1], i, j, a);
    } else {
      DataCountAt(live[..|live| - 1], i, a);
    }
  }

  /** The page of a mapping that backs address `a`. */
  predicate Holds(live: seq<Mapping>, i: nat, k: nat, a: nat) {
    i < |live| && k < |live[i].frames| && Covers(PagedMemory(live[i].frames[k], 1), live[i].size, a)
  }

  lemma HoldsCounts(live: seq<Mapping>, i: nat, k: nat, a: nat)
    requires Holds(live, i, k, a)
    ensures DataCount(live, a) >= 1
  {
    DataCountAt(live, i, a);
    FrameCountAt(live[i].frames, k, live[i].size, a);
  }

  /** An address counted at most once lies in at most one page of one mapping. */
  lemma HoldsOnce(live: seq<Mapping>, i: nat, k: nat, j: nat, l: nat, a: nat)
    requires DataCount(live, a) <= 1 && Holds(live, i, k, a) && Holds(live, j, l, a)
    ensures i == j && k == l
  {
    FrameCountAt(live[i].frames, k, live[i].size, a);
    FrameCountAt(live[j].frames, l, live[j].size, a);
    if i < j {
      DataCountTwo(live, i, j, a);
    } else if j < i {
      DataCountTwo(live, j, i, a);
    } else {
      DataCountAt(live, i, a);
      if k < l { FrameCountTwo(live[i].frames, k, l, live[i].size, a); }
      if l < k { FrameCountTwo(live[i].frames, l, k, live[i].size, a); }
    }
  }
}
