/** The three physical memory managers as values: what allocation, stealing and freeing do to the
    free lists of `x86/memory/physical`, and the laws every run of them obeys.

    The central measure is the number of list entries that cover an address. One equation about
    it, for every address, says both that frames are conserved and that no frame is held twice. */
module FreeLists {
  import opened Bits
  import opened Paging

  /** The live entries of one manager and the capacity of its metadata buffer. */
  datatype Manager = Manager(free: seq<PagedMemory>, cap: nat)

  datatype Managers = Managers(base: Manager, large: Manager, huge: Manager) {
    function At(size: PageSize): Manager {
      match size case Base => base case Large => large case Huge => huge
    }

    function With(size: PageSize, free: seq<PagedMemory>): Managers {
      match size
      case Base => this.(base := base.(free := free))
      case Large => this.(large := large.(free := free))
      case Huge => this.(huge := huge.(free := free))
    }
  }

  /** `NoMorePhysicalMemory` is the fault the kernel raises; `MetadataFull` marks the calls in which
      a manager would have to move its own metadata to a larger buffer. */
  datatype Outcome<T> = Done(value: T, state: Managers) | NoMorePhysicalMemory | MetadataFull

  function Larger(size: PageSize): PageSize
    requires size != Huge
  {
    if size == Base then Large else Huge
  }

  function CeilPages(n: nat): nat {
    (n + (ENTRIES - 1)) / ENTRIES
  }

  // ---------------------------------------------------------------- the operations

  /** `decreasePages`: drop pages from the front of an entry; an emptied entry is replaced by the
      last one. */
  function DecreasePages(list: seq<PagedMemory>, i: nat, cut: nat, size: PageSize): seq<PagedMemory>
    requires i < |list| && cut <= list[i].numberOfPages
  {
    if list[i].numberOfPages == cut then list[i := list[|list| - 1]][..|list| - 1]
    else list[i := PagedMemory(list[i].pageStart + cut * size.Bytes(), list[i].numberOfPages - cut)]
  }

  function FirstFit(list: seq<PagedMemory>, n: nat, from: nat): (i: nat)
    requires from <= |list|
    ensures from <= i <= |list|
    ensures i < |list| ==> list[i].numberOfPages >= n
    ensures forall j :: from <= j < i ==> list[j].numberOfPages < n
    decreases |list| - from
  {
    if from == |list| || list[from].numberOfPages >= n then from else FirstFit(list, n, from + 1)
  }

  function FreePages(state: Managers, pages: seq<PagedMemory>, size: PageSize): Outcome<()>
  {
    var m := state.At(size);
    if |m.free| + |pages| <= m.cap || pages == [] then Done((), state.With(size, m.free + pages))
    else MetadataFull
  }

  /** What is left of the larger pages stolen for `n` pages. */
  function Surplus(address: nat, n: nat, size: PageSize): PagedMemory {
    PagedMemory(address + n * size.Bytes(), CeilPages(n) * ENTRIES - n)
  }

  function AllocContiguous(state: Managers, n: nat, size: PageSize): Outcome<nat>
    decreases size != Huge, size == Base
  {
    var list := state.At(size).free;
    var i := FirstFit(list, n, 0);
    if i < |list| then Done(list[i].pageStart, state.With(size, DecreasePages(list, i, n, size)))
    else if size == Huge then NoMorePhysicalMemory
    else
      match AllocContiguous(state, CeilPages(n), Larger(size))
      case NoMorePhysicalMemory => NoMorePhysicalMemory
      case MetadataFull => MetadataFull
      case Done(address, stolen) =>
        match FreePages(stolen, [Surplus(address, n, size)], size)
        case Done(_, state') => Done(address, state')
        case _ => MetadataFull
  }

  /** Entries taken from the end of a list until `n` pages are found; `left` is what the list
      could not serve. */
  datatype Taken = Taken(out: seq<PagedMemory>, rest: seq<PagedMemory>, left: nat, served: bool)

  function Take(list: seq<PagedMemory>, n: nat, size: PageSize): Taken
    decreases |list|
  {
    if list == [] then Taken([], [], n, false)
    else
      var k := |list| - 1;
      if list[k].numberOfPages >= n
      then Taken([PagedMemory(list[k].pageStart, n)], DecreasePages(list, k, n, size), 0, true)
      else
        var t := Take(list[..k], n - list[k].numberOfPages, size);
        t.(out := [list[k]] + t.out)
  }

  function Scale(pages: seq<PagedMemory>): (r: seq<PagedMemory>)
    ensures |r| == |pages|
  {
    seq(|pages|, i requires 0 <= i < |pages| => pages[i].(numberOfPages := pages[i].numberOfPages * ENTRIES))
  }

  function AllocPages(state: Managers, n: nat, size: PageSize): Outcome<seq<PagedMemory>>
    decreases size != Huge, size == Base
  {
    var t := Take(state.At(size).free, n, size);
    if t.served then Done(t.out, state.With(size, t.rest))
    else if size == Huge then NoMorePhysicalMemory
    else
      match AllocPages(state.With(size, []), CeilPages(t.left), Larger(size))
      case NoMorePhysicalMemory => NoMorePhysicalMemory
      case MetadataFull => MetadataFull
      case Done(stolen, state1) =>
        match FreePages(state1, Scale(stolen), size)
        case Done(_, state2) =>
          var u := Take(state2.At(size).free, t.left, size);
          Done(t.out + u.out, state2.With(size, u.rest))
        case _ => MetadataFull
  }

  /** The metadata buffer of some manager is full. */
  predicate Crowded(state: Managers) {
    || |state.base.free| >= state.base.cap
    || |state.large.free| >= state.large.cap
    || |state.huge.free| >= state.huge.cap
  }

  // ---------------------------------------------------------------- what is counted

  predicate Covers(e: PagedMemory, size: PageSize, a: nat) {
    e.pageStart <= a < e.pageStart + e.numberOfPages * size.Bytes()
  }

  function One(e: PagedMemory, size: PageSize, a: nat): nat {
    if Covers(e, size, a) then 1 else 0
  }

  /** How many entries of a list cover address `a`. */
  function Count(list: seq<PagedMemory>, size: PageSize, a: nat): nat {
    if list == [] then 0 else Count(list[..|list| - 1], size, a) + One(list[|list| - 1], size, a)
  }

  /** How many free entries of all three managers cover address `a`. */
  function Cover(state: Managers, a: nat): nat {
    Count(state.base.free, Base, a) + Count(state.large.free, Large, a) + Count(state.huge.free, Huge, a)
  }

  function Total(list: seq<PagedMemory>): nat {
    if list == [] then 0 else Total(list[..|list| - 1]) + list[|list| - 1].numberOfPages
  }

  /** The free pages of a size and all larger sizes, counted in that size. */
  function Available(state: Managers, size: PageSize): nat
    decreases size != Huge, size == Base
  {
    Total(state.At(size).free) + if size == Huge then 0 else ENTRIES * Available(state, Larger(size))
  }

  predicate EntryOk(e: PagedMemory, size: PageSize) {
    && e.pageStart % size.Bytes() == 0
    && e.pageStart + e.numberOfPages * size.Bytes() <= TWO52
  }

  predicate ListOk(list: seq<PagedMemory>, size: PageSize) {
    forall i :: 0 <= i < |list| ==> EntryOk(list[i], size)
  }

  predicate Ok(state: Managers) {
    ListOk(state.base.free, Base) && ListOk(state.large.free, Large) && ListOk(state.huge.free, Huge)
  }

  predicate NoEmptyEntries(list: seq<PagedMemory>) {
    forall i :: 0 <= i < |list| ==> list[i].numberOfPages > 0
  }

  // ---------------------------------------------------------------- lists

  lemma {:induction false} CountConcat(s: seq<PagedMemory>, t: seq<PagedMemory>, size: PageSize, a: nat)
    ensures Count(s + t, size, a) == Count(s, size, a) + Count(t, size, a)
    decreases |t|
  {
    if t == [] {
      assert s + t == s;
    } else {
      CountConcat(s, t[..|t| - 1], size, a);
      assert (s + t)[..|s + t| - 1] == s + t[..|t| - 1];
    }
  }

  lemma {:induction false} TotalConcat(s: seq<PagedMemory>, t: seq<PagedMemory>)
    ensures Total(s + t) == Total(s) + Total(t)
    decreases |t|
  {
    if t == [] {
      assert s + t == s;
    } else {
      TotalConcat(s, t[..|t| - 1]);
      assert (s + t)[..|s + t| - 1] == s + t[..|t| - 1];
    }
  }

  /** Replacing an entry changes the count by the difference of the two entries. */
  lemma {:induction false} CountUpdate(s: seq<PagedMemory>, i: nat, e: PagedMemory, size: PageSize, a: nat)
    requires i < |s|
    ensures Count(s[i := e], size, a) + One(s[i], size, a) == Count(s, size, a) + One(e, size, a)
    ensures Total(s[i := e]) + s[i].numberOfPages == Total(s) + e.numberOfPages
    decreases |s|
  {
    var k := |s| - 1;
    if i == k {
      assert s[i := e][..k] == s[..k];
    } else {
      CountUpdate(s[..k], i, e, size, a);
      assert s[i := e][..k] == s[..k][i := e];
    }
  }

  /** Cutting an entry in two splits what it covers. */
  lemma OneSplit(start: nat, n: nat, cut: nat, size: PageSize, a: nat)
    requires cut <= n
    ensures One(PagedMemory(start, n), size, a)
         == One(PagedMemory(start, cut), size, a) + One(PagedMemory(start + cut * size.Bytes(), n - cut), size, a)
  {
    assert n * size.Bytes() == cut * size.Bytes() + (n - cut) * size.Bytes();
    MulMono(0, cut, size.Bytes());
    MulMono(0, n - cut, size.Bytes());
  }

  lemma EntrySplit(e: PagedMemory, cut: nat, size: PageSize)
    requires EntryOk(e, size) && cut <= e.numberOfPages
    ensures EntryOk(PagedMemory(e.pageStart, cut), size)
    ensures EntryOk(PagedMemory(e.pageStart + cut * size.Bytes(), e.numberOfPages - cut), size)
  {
    var b := size.Bytes();
    assert e.numberOfPages * b == cut * b + (e.numberOfPages - cut) * b;
    MulMono(0, cut, b);
    MulMono(0, e.numberOfPages - cut, b);
    var q := e.pageStart / b;
    assert e.pageStart + cut * b == (q + cut) * b + 0 by { assert (q + cut) * b == q * b + cut * b; }
    DivMod(e.pageStart + cut * b, b, q + cut, 0);
  }

  /** A run of larger pages covers what the same run in smaller pages covers. */
  lemma OneScale(e: PagedMemory, size: PageSize, a: nat)
    requires size != Huge
    ensures One(e, Larger(size), a) == One(e.(numberOfPages := e.numberOfPages * ENTRIES), size, a)
    ensures EntryOk(e, Larger(size)) ==> EntryOk(e.(numberOfPages := e.numberOfPages * ENTRIES), size)
  {
    var n := e.numberOfPages;
    assert n * Larger(size).Bytes() == (n * ENTRIES) * size.Bytes();
    if EntryOk(e, Larger(size)) {
      var q := e.pageStart / Larger(size).Bytes();
      assert e.pageStart == q * Larger(size).Bytes() == (q * ENTRIES) * size.Bytes();
      DivMod(e.pageStart, size.Bytes(), q * ENTRIES, 0);
    }
  }

  /** `decreasePages` takes exactly the front of one entry. */
  lemma DecreaseTakesFront(list: seq<PagedMemory>, i: nat, cut: nat, size: PageSize, a: nat)
    requires i < |list| && cut <= list[i].numberOfPages
    ensures Total(DecreasePages(list, i, cut, size)) + cut == Total(list)
    ensures Count(list, size, a)
         == Count(DecreasePages(list, i, cut, size), size, a) + One(PagedMemory(list[i].pageStart, cut), size, a)
  {
    var e := list[i];
    if e.numberOfPages == cut {
      SwapRemove(list, i, size, a);
      assert e == PagedMemory(e.pageStart, cut);
    } else {
      var rest := PagedMemory(e.pageStart + cut * size.Bytes(), e.numberOfPages - cut);
      assert DecreasePages(list, i, cut, size) == list[i := rest];
      CountUpdate(list, i, rest, size, a);
      OneSplit(e.pageStart, e.numberOfPages, cut, size, a);
    }
  }

  lemma SwapRemove(list: seq<PagedMemory>, i: nat, size: PageSize, a: nat)
    requires i < |list|
    ensures Total(list[i := list[|list| - 1]][..|list| - 1]) + list[i].numberOfPages == Total(list)
    ensures Count(list, size, a) == Count(list[i := list[|list| - 1]][..|list| - 1], size, a) + One(list[i], size, a)
  {
    CountUpdate(list, i, list[|list| - 1], size, a);
  }

  lemma DecreaseKeepsOk(list: seq<PagedMemory>, i: nat, cut: nat, size: PageSize)
    requires ListOk(list, size) && i < |list| && cut <= list[i].numberOfPages
    ensures ListOk(DecreasePages(list, i, cut, size), size)
    ensures EntryOk(PagedMemory(list[i].pageStart, cut), size)
  {
    EntrySplit(list[i], cut, size);
  }

  lemma {:induction false} ScaleKeeps(pages: seq<PagedMemory>, size: PageSize)
    requires size != Huge
    ensures Total(Scale(pages)) == ENTRIES * Total(pages)
    ensures forall a: nat :: Count(Scale(pages), size, a) == Count(pages, Larger(size), a)
    ensures ListOk(pages, Larger(size)) ==> ListOk(Scale(pages), size)
    ensures NoEmptyEntries(pages) ==> NoEmptyEntries(Scale(pages))
    decreases |pages|
  {
    if pages != [] {
      var k := |pages| - 1;
      ScaleKeeps(pages[..k], size);
      assert Scale(pages)[..k] == Scale(pages[..k]);
      forall a: nat ensures Count(Scale(pages), size, a) == Count(pages, Larger(size), a) {
        OneScale(pages[k], size, a);
      }
      if ListOk(pages, Larger(size)) {
        forall i | 0 <= i <= k ensures EntryOk(Scale(pages)[i], size) { OneScale(pages[i], size, 0); }
      }
    }
  }

  // ---------------------------------------------------------------- contiguous allocation

  ghost predicate Conserves(before: Managers, after: Managers, given: seq<PagedMemory>, size: PageSize) {
    forall a: nat :: Cover(before, a) == Cover(after, a) + Count(given, size, a)
  }

  lemma CountSingle(e: PagedMemory, size: PageSize, a: nat)
    ensures Count([e], size, a) == One(e, size, a)
  {
    assert Count([e][..0], size, a) == 0;
  }

  /** Contiguous allocation moves exactly the run it returns out of the free lists, whatever it
      stole on the way, and keeps every list aligned. */
  lemma {:induction false} ContiguousConserves(state: Managers, n: nat, size: PageSize)
    requires Ok(state) && AllocContiguous(state, n, size).Done?
    ensures var r := AllocContiguous(state, n, size);
            && Ok(r.state)
            && EntryOk(PagedMemory(r.value, n), size)
            && Conserves(state, r.state, [PagedMemory(r.value, n)], size)
    decreases size != Huge, size == Base
  {
    var list := state.At(size).free;
    var i := FirstFit(list, n, 0);
    var r := AllocContiguous(state, n, size);
    var run := PagedMemory(r.value, n);
    if i < |list| {
      DecreaseKeepsOk(list, i, n, size);
      forall a: nat ensures Cover(state, a) == Cover(r.state, a) + Count([run], size, a) {
        DecreaseTakesFront(list, i, n, size, a);
        CountSingle(run, size, a);
      }
    } else {
      ContiguousSteps(state, n, size);
      ContiguousConserves(state, CeilPages(n), Larger(size));
      var s := AllocContiguous(state, CeilPages(n), Larger(size));
      SplitStolen(s.value, n, size, 0);
      forall a: nat ensures Cover(state, a) == Cover(r.state, a) + Count([run], size, a) {
        SplitStolen(s.value, n, size, a);
        CountSingle(PagedMemory(s.value, CeilPages(n)), Larger(size), a);
        CountSingle(run, size, a);
        FreeAdds(s.state, [Surplus(s.value, n, size)], size, a);
        CountSingle(Surplus(s.value, n, size), size, a);
      }
    }
  }

  /** The larger pages stolen for a request are the run handed out and the surplus. */
  lemma SplitStolen(address: nat, n: nat, size: PageSize, a: nat)
    requires size != Huge
    ensures One(PagedMemory(address, CeilPages(n)), Larger(size), a)
         == One(PagedMemory(address, n), size, a) + One(Surplus(address, n, size), size, a)
    ensures EntryOk(PagedMemory(address, CeilPages(n)), Larger(size)) ==>
              EntryOk(PagedMemory(address, n), size) && EntryOk(Surplus(address, n, size), size)
  {
    var big := PagedMemory(address, CeilPages(n));
    var all := PagedMemory(address, CeilPages(n) * ENTRIES);
    OneScale(big, size, a);
    OneSplit(address, CeilPages(n) * ENTRIES, n, size, a);
    if EntryOk(big, Larger(size)) { EntrySplit(all, n, size); }
  }

  lemma LargerContiguousLeavesAlone(state: Managers, n: nat, size: PageSize)
    requires size != Huge && AllocContiguous(state, n, Larger(size)).Done?
    ensures AllocContiguous(state, n, Larger(size)).state.At(size) == state.At(size)
    ensures AllocContiguous(state, n, Larger(size)).state.base == state.base
  {}

  /** A contiguous allocation takes exactly its pages from what is available. */
  lemma {:induction false} ContiguousPages(state: Managers, n: nat, size: PageSize)
    requires AllocContiguous(state, n, size).Done?
    ensures Available(AllocContiguous(state, n, size).state, size) + n == Available(state, size)
    decreases size != Huge, size == Base
  {
    var list := state.At(size).free;
    var i := FirstFit(list, n, 0);
    if i < |list| {
      DecreaseTakesFront(list, i, n, size, 0);
      if size != Huge { AvailableAbove(state, size, DecreasePages(list, i, n, size)); }
    } else {
      ContiguousSteps(state, n, size);
      ContiguousPages(state, CeilPages(n), Larger(size));
      LargerContiguousLeavesAlone(state, CeilPages(n), size);
      var s := AllocContiguous(state, CeilPages(n), Larger(size));
      var rest := Surplus(s.value, n, size);
      CeilPagesBounds(n);
      TotalConcat(list, [rest]);
      SingleEntry(rest, size, 0);
      AvailableAbove(s.state, size, list + [rest]);
    }
  }

  lemma NoHugeStays(state: Managers, n: nat, size: PageSize)
    requires state.huge.free == [] && AllocContiguous(state, n, size).Done?
    ensures AllocContiguous(state, n, size).state.huge == state.huge
  {
  }

  /** The request as the manager of a larger size sees it. */
  function Request(n: nat, from: PageSize, size: PageSize): nat {
    match (from, size)
    case (Base, Large) => CeilPages(n)
    case (Large, Huge) => CeilPages(n)
    case (Base, Huge) => CeilPages(CeilPages(n))
    case _ => n
  }

  predicate HasRun(list: seq<PagedMemory>, n: nat) {
    exists i :: 0 <= i < |list| && list[i].numberOfPages >= n
  }

  /** Contiguous allocation faults exactly when no manager from this size upwards holds one run
      long enough. */
  lemma ContiguousFaults(state: Managers, n: nat, size: PageSize)
    ensures AllocContiguous(state, n, size) == NoMorePhysicalMemory
       <==> && !HasRun(state.huge.free, Request(n, size, Huge))
            && (size != Huge ==> !HasRun(state.large.free, Request(n, size, Large)))
            && (size == Base ==> !HasRun(state.base.free, n))
  {
    FitIffRun(state.huge.free, Request(n, size, Huge));
    if size != Huge { FitIffRun(state.large.free, Request(n, size, Large)); }
    if size == Base { FitIffRun(state.base.free, n); }
  }

  /** What a contiguous allocation does with the larger pages it had to steal. */
  lemma ContiguousSteps(state: Managers, n: nat, size: PageSize)
    requires size != Huge && FirstFit(state.At(size).free, n, 0) == |state.At(size).free|
    ensures var s := AllocContiguous(state, CeilPages(n), Larger(size));
            AllocContiguous(state, n, size)
              == if !s.Done? then s
                 else var f := FreePages(s.state, [Surplus(s.value, n, size)], size);
                      if f.Done? then Done(s.value, f.state) else MetadataFull
  {}

  lemma FitIffRun(list: seq<PagedMemory>, n: nat)
    ensures FirstFit(list, n, 0) < |list| <==> HasRun(list, n)
  {}

  // ---------------------------------------------------------------- non-contiguous allocation

  /** Taking from a list moves entries to the output without loss. */
  lemma {:induction false} TakeConserves(list: seq<PagedMemory>, n: nat, size: PageSize, a: nat)
    ensures var t := Take(list, n, size);
            && Count(list, size, a) == Count(t.rest, size, a) + Count(t.out, size, a)
            && Total(list) == Total(t.rest) + Total(t.out)
            && Total(t.out) + t.left == n
            && (t.served ==> t.left == 0)
            && (!t.served ==> t.rest == [])
            && (t.served <==> list != [] && n <= Total(list))
    decreases |list|
  {
    if list != [] {
      var k := |list| - 1;
      if list[k].numberOfPages >= n {
        DecreaseTakesFront(list, k, n, size, a);
        SingleEntry(PagedMemory(list[k].pageStart, n), size, a);
        LastAtMostTotal(list);
      } else {
        TakeConserves(list[..k], n - list[k].numberOfPages, size, a);
        FrontEntry(list[k], Take(list[..k], n - list[k].numberOfPages, size).out, size, a);
      }
    }
  }

  /** Entry `e` without its first `cut` pages, if any remain. */
  function Remainder(e: PagedMemory, cut: nat, size: PageSize): seq<PagedMemory>
    requires cut <= e.numberOfPages
  {
    if cut == e.numberOfPages then []
    else [PagedMemory(e.pageStart + cut * size.Bytes(), e.numberOfPages - cut)]
  }

  /** The entries behind entry `j`, whole and last one first, and the first `cut` pages of entry `j`; what
      is before that entry stays in place. */
  ghost predicate FromEnd(list: seq<PagedMemory>, t: Taken, j: nat, cut: nat, size: PageSize) {
    && j < |list| && cut <= list[j].numberOfPages && |t.out| == |list| - j
    && (forall i :: 0 <= i < |t.out| - 1 ==> t.out[i] == list[|list| - 1 - i])
    && t.out[|t.out| - 1] == PagedMemory(list[j].pageStart, cut)
    && t.rest == list[..j] + Remainder(list[j], cut, size)
  }

  /** What a served request takes. */
  lemma {:induction false} TakesFromEnd(list: seq<PagedMemory>, n: nat, size: PageSize) returns (j: nat, cut: nat)
    requires Take(list, n, size).served
    ensures FromEnd(list, Take(list, n, size), j, cut, size) && Total(list[j + 1..]) + cut == n
    ensures n > 0 ==> cut > 0
    decreases |list|
  {
    var last := |list| - 1;
    if list[last].numberOfPages >= n {
      j, cut := last, n;
      assert Total(list[last + 1..]) == 0;
    } else {
      j, cut := TakesFromEnd(list[..last], n - list[last].numberOfPages, size);
      OneMoreFromEnd(list, Take(list[..last], n - list[last].numberOfPages, size), j, cut, size);
      OneMoreBehind(list, j);
    }
  }

  lemma OneMoreBehind(list: seq<PagedMemory>, j: nat)
    requires j < |list| - 1
    ensures Total(list[j + 1..]) == Total(list[..|list| - 1][j + 1..]) + list[|list| - 1].numberOfPages
  {
    var last := |list| - 1;
    assert list[j + 1..][..last - j - 1] == list[..last][j + 1..];
  }

  lemma OneMoreFromEnd(list: seq<PagedMemory>, t: Taken, j: nat, cut: nat, size: PageSize)
    requires list != [] && FromEnd(list[..|list| - 1], t, j, cut, size)
    ensures FromEnd(list, t.(out := [list[|list| - 1]] + t.out), j, cut, size)
  {
    assert list[..|list| - 1][..j] == list[..j];
  }

  lemma LastAtMostTotal(list: seq<PagedMemory>)
    requires list != []
    ensures list[|list| - 1].numberOfPages <= Total(list)
  {
  }

  lemma SingleEntry(e: PagedMemory, size: PageSize, a: nat)
    ensures Count([e], size, a) == One(e, size, a) && Total([e]) == e.numberOfPages
  {
    CountSingle(e, size, a);
    assert Total([e][..0]) == 0;
  }

  lemma FrontEntry(e: PagedMemory, out: seq<PagedMemory>, size: PageSize, a: nat)
    ensures Count([e] + out, size, a) == One(e, size, a) + Count(out, size, a)
    ensures Total([e] + out) == e.numberOfPages + Total(out)
  {
    SingleEntry(e, size, a);
    CountConcat([e], out, size, a);
    TotalConcat([e], out);
  }

  lemma {:induction false} TakeKeepsOk(list: seq<PagedMemory>, n: nat, size: PageSize)
    requires ListOk(list, size)
    ensures ListOk(Take(list, n, size).rest, size) && ListOk(Take(list, n, size).out, size)
    decreases |list|
  {
    if list != [] {
      var k := |list| - 1;
      if list[k].numberOfPages >= n {
        DecreaseKeepsOk(list, k, n, size);
      } else {
        TakeKeepsOk(list[..k], n - list[k].numberOfPages, size);
      }
    }
  }

  /** The ceiling division of the code, for every request that does not wrap it. */
  lemma CodeCeilPages(n: U64)
    requires n + (ENTRIES - 1) < TWO64
    ensures CeilDiv(n, ENTRIES) == CeilPages(n) <= n <= CeilPages(n) * ENTRIES
  {
    PageSizesArePowers();
    CeilDivIsCeiling(n, ENTRIES);
  }

  lemma CeilPagesBounds(n: nat)
    ensures CeilPages(n) * ENTRIES >= n
    ensures forall m: nat :: CeilPages(n) <= m <==> n <= ENTRIES * m
  {}

  /** The steps of a non-contiguous allocation that had to steal: the larger manager serves the
      rest of the request, its runs become the whole list of this one, and a second attempt takes
      from them. */
  lemma StealSteps(state: Managers, n: nat, size: PageSize)
    requires size != Huge
    requires !Take(state.At(size).free, n, size).served
    ensures var t := Take(state.At(size).free, n, size);
            var s := AllocPages(state.With(size, []), CeilPages(t.left), Larger(size));
            if !s.Done? then AllocPages(state, n, size) == s
            else
              var f := FreePages(s.state, Scale(s.value), size);
              var u := Take(Scale(s.value), t.left, size);
              && s.state.At(size).free == []
              && (f.Done? ==> && f.state.At(size).free == Scale(s.value)
                              && AllocPages(state, n, size) == Done(t.out + u.out, s.state.With(size, u.rest)))
              && (!f.Done? ==> AllocPages(state, n, size) == MetadataFull)
  {
    var t := Take(state.At(size).free, n, size);
    var state0 := state.With(size, []);
    var s := AllocPages(state0, CeilPages(t.left), Larger(size));
    if s.Done? {
      LargerLeavesAlone(state0, CeilPages(t.left), size);
      assert s.state.At(size).free + Scale(s.value) == Scale(s.value);
    }
  }

  lemma {:induction false} PagesTotal(state: Managers, n: nat, size: PageSize)
    requires AllocPages(state, n, size).Done?
    ensures AllocPages(state, n, size).value != []
    ensures Total(AllocPages(state, n, size).value) == n
    decreases size != Huge, size == Base
  {
    var t := Take(state.At(size).free, n, size);
    TakeConserves(state.At(size).free, n, size, 0);
    if !t.served {
      StealSteps(state, n, size);
      var s := AllocPages(state.With(size, []), CeilPages(t.left), Larger(size));
      PagesTotal(state.With(size, []), CeilPages(t.left), Larger(size));
      StealServes(s.value, t.left, size);
      TakeConserves(Scale(s.value), t.left, size, 0);
      TotalConcat(t.out, Take(Scale(s.value), t.left, size).out);
    }
  }

  lemma {:induction false} PagesOk(state: Managers, n: nat, size: PageSize)
    requires Ok(state) && AllocPages(state, n, size).Done?
    ensures Ok(AllocPages(state, n, size).state) && ListOk(AllocPages(state, n, size).value, size)
    decreases size != Huge, size == Base
  {
    var t := Take(state.At(size).free, n, size);
    TakeKeepsOk(state.At(size).free, n, size);
    if !t.served {
      StealSteps(state, n, size);
      var s := AllocPages(state.With(size, []), CeilPages(t.left), Larger(size));
      PagesOk(state.With(size, []), CeilPages(t.left), Larger(size));
      ScaleKeeps(s.value, size);
      TakeKeepsOk(Scale(s.value), t.left, size);
    }
  }

  lemma CoverWith(state: Managers, size: PageSize, free: seq<PagedMemory>, a: nat)
    ensures Cover(state.With(size, free), a) + Count(state.At(size).free, size, a)
         == Cover(state, a) + Count(free, size, a)
  {}

  lemma {:induction false} PagesCount(state: Managers, n: nat, size: PageSize, a: nat)
    requires AllocPages(state, n, size).Done?
    ensures var r := AllocPages(state, n, size);
            Cover(state, a) == Cover(r.state, a) + Count(r.value, size, a)
    decreases size != Huge, size == Base
  {
    var list := state.At(size).free;
    var t := Take(list, n, size);
    TakeConserves(list, n, size, a);
    if t.served {
      CoverWith(state, size, t.rest, a);
    } else {
      StealSteps(state, n, size);
      var state0 := state.With(size, []);
      var s := AllocPages(state0, CeilPages(t.left), Larger(size));
      PagesCount(state0, CeilPages(t.left), Larger(size), a);
      PagesTotal(state0, CeilPages(t.left), Larger(size));
      LargerLeavesAlone(state0, CeilPages(t.left), size);
      var u := Take(Scale(s.value), t.left, size);
      ScaleKeeps(s.value, size);
      TakeConserves(Scale(s.value), t.left, size, a);
      CountConcat(t.out, u.out, size, a);
      CoverWith(state, size, [], a);
      CoverWith(s.state, size, u.rest, a);
    }
  }

  /** Non-contiguous allocation returns runs that total the request and are exactly what left the
      free lists, however many managers it had to go through. */
  lemma PagesConserve(state: Managers, n: nat, size: PageSize)
    requires Ok(state) && AllocPages(state, n, size).Done?
    ensures var r := AllocPages(state, n, size);
            && Ok(r.state)
            && r.value != [] && Total(r.value) == n
            && ListOk(r.value, size)
            && Conserves(state, r.state, r.value, size)
  {
    PagesOk(state, n, size);
    PagesTotal(state, n, size);
    forall a: nat
      ensures Cover(state, a)
           == Cover(AllocPages(state, n, size).state, a) + Count(AllocPages(state, n, size).value, size, a)
    {
      PagesCount(state, n, size, a);
    }
  }

  /** Non-contiguous allocation of at least one page faults exactly when the free pages of this
      size and all larger sizes, counted in this size, are too few. */
  lemma {:induction false} PagesFault(state: Managers, n: nat, size: PageSize)
    requires n >= 1
    ensures AllocPages(state, n, size) == NoMorePhysicalMemory <==> n > Available(state, size)
    decreases size != Huge, size == Base
  {
    var list := state.At(size).free;
    var t := Take(list, n, size);
    TakeConserves(list, n, size, 0);
    if !t.served && size != Huge {
      PagesFault(state.With(size, []), CeilPages(t.left), Larger(size));
      CeilPagesBounds(t.left);
      AvailableAbove(state, size, []);
    }
  }

  lemma AvailableAbove(state: Managers, size: PageSize, free: seq<PagedMemory>)
    requires size != Huge
    ensures Available(state.With(size, free), Larger(size)) == Available(state, Larger(size))
  {}

  /** Serving a larger size does not touch the lists of the smaller sizes. */
  lemma LargerLeavesAlone(state: Managers, n: nat, size: PageSize)
    requires size != Huge && AllocPages(state, n, Larger(size)).Done?
    ensures AllocPages(state, n, Larger(size)).state.At(size) == state.At(size)
    ensures AllocPages(state, n, Larger(size)).state.base == state.base
  {}

  /** What was stolen always serves the rest of the request, so the second attempt on the same
      manager never steals again. */
  lemma StealServes(stolen: seq<PagedMemory>, left: nat, size: PageSize)
    requires size != Huge && stolen != [] && Total(stolen) == CeilPages(left)
    ensures Take(Scale(stolen), left, size).served
  {
    ScaleKeeps(stolen, size);
    CeilPagesBounds(left);
    TakeConserves(Scale(stolen), left, size, 0);
  }

  // ---------------------------------------------------------------- how many entries come out

  predicate AllNonEmpty(state: Managers) {
    NoEmptyEntries(state.base.free) && NoEmptyEntries(state.large.free) && NoEmptyEntries(state.huge.free)
  }

  lemma {:induction false} LengthAtMostTotal(list: seq<PagedMemory>)
    requires NoEmptyEntries(list)
    ensures |list| <= Total(list)
  {
    if list != [] { LengthAtMostTotal(list[..|list| - 1]); }
  }

  lemma {:induction false} TakeKeepsNonEmpty(list: seq<PagedMemory>, n: nat, size: PageSize)
    requires NoEmptyEntries(list) && n >= 1
    ensures NoEmptyEntries(Take(list, n, size).rest) && NoEmptyEntries(Take(list, n, size).out)
    decreases |list|
  {
    if list != [] && list[|list| - 1].numberOfPages < n {
      TakeKeepsNonEmpty(list[..|list| - 1], n - list[|list| - 1].numberOfPages, size);
    }
  }

  lemma {:induction false} PagesNonEmpty(state: Managers, n: nat, size: PageSize)
    requires AllNonEmpty(state) && n >= 1 && AllocPages(state, n, size).Done?
    ensures AllNonEmpty(AllocPages(state, n, size).state) && NoEmptyEntries(AllocPages(state, n, size).value)
    decreases size != Huge, size == Base
  {
    var t := Take(state.At(size).free, n, size);
    TakeKeepsNonEmpty(state.At(size).free, n, size);
    TakeConserves(state.At(size).free, n, size, 0);
    if !t.served {
      StealSteps(state, n, size);
      var s := AllocPages(state.With(size, []), CeilPages(t.left), Larger(size));
      PagesNonEmpty(state.With(size, []), CeilPages(t.left), Larger(size));
      ScaleKeeps(s.value, size);
      TakeKeepsNonEmpty(Scale(s.value), t.left, size);
    }
  }

  /** When no free entry is empty, there is at most one run per requested page. */
  lemma PagesFitBuffer(state: Managers, n: nat, size: PageSize)
    requires AllNonEmpty(state) && n >= 1 && AllocPages(state, n, size).Done?
    ensures |AllocPages(state, n, size).value| <= n
  {
    PagesNonEmpty(state, n, size);
    PagesTotal(state, n, size);
    LengthAtMostTotal(AllocPages(state, n, size).value);
  }

  /** The request is served without a steal that leaves nothing over. */
  predicate LeavesNoEmpty(state: Managers, n: nat, size: PageSize)
    decreases size != Huge, size == Base
  {
    || HasRun(state.At(size).free, n)
    || (size != Huge && n % ENTRIES != 0 && LeavesNoEmpty(state, CeilPages(n), Larger(size)))
  }

  lemma DecreaseKeepsNonEmpty(list: seq<PagedMemory>, i: nat, cut: nat, size: PageSize)
    requires NoEmptyEntries(list) && i < |list| && cut <= list[i].numberOfPages
    ensures NoEmptyEntries(DecreasePages(list, i, cut, size))
  {
  }

  /** A contiguous allocation puts an empty entry into lists that had none if and only if no list on
      its way holds a long enough run before a request that is a whole number of larger pages. */
  lemma {:induction false} ContiguousKeepsNonEmpty(state: Managers, n: nat, size: PageSize)
    requires AllNonEmpty(state) && n >= 1 && AllocContiguous(state, n, size).Done?
    ensures AllNonEmpty(AllocContiguous(state, n, size).state) <==> LeavesNoEmpty(state, n, size)
    decreases size != Huge, size == Base
  {
    var list := state.At(size).free;
    var i := FirstFit(list, n, 0);
    FitIffRun(list, n);
    if i < |list| {
      DecreaseKeepsNonEmpty(list, i, n, size);
    } else {
      ContiguousSteps(state, n, size);
      ContiguousKeepsNonEmpty(state, CeilPages(n), Larger(size));
      var s := AllocContiguous(state, CeilPages(n), Larger(size));
      SurplusEmpty(s.value, n, size);
      SurplusListed(s.state, Surplus(s.value, n, size), size);
    }
  }

  lemma SurplusEmpty(address: nat, n: nat, size: PageSize)
    requires n >= 1
    ensures Surplus(address, n, size).numberOfPages == 0 <==> n % ENTRIES == 0
  {
  }

  lemma SurplusListed(state: Managers, e: PagedMemory, size: PageSize)
    requires FreePages(state, [e], size).Done?
    ensures AllNonEmpty(FreePages(state, [e], size).state) <==> AllNonEmpty(state) && e.numberOfPages > 0
  {
    var list := state.At(size).free;
    assert (list + [e])[|list|] == e;
    assert forall k :: 0 <= k < |list| ==> (list + [e])[k] == list[k];
  }

  /** 512 base pages out of one large page leave such an entry. */
  lemma ContiguousLeavesEmptyEntry()
    ensures var before := Managers(Manager([], 256), Manager([PagedMemory(0, 2)], 256), Manager([], 256));
            var after := Managers(Manager([PagedMemory(0x20_0000, 0)], 256),
                                  Manager([PagedMemory(0x20_0000, 1)], 256), Manager([], 256));
            AllocContiguous(before, 512, Base) == Done(0, after)
  {
    var before := Managers(Manager([], 256), Manager([PagedMemory(0, 2)], 256), Manager([], 256));
    assert FirstFit(before.base.free, 512, 0) == 0;
    assert FirstFit(before.large.free, 1, 0) == 0;
    assert AllocContiguous(before, 1, Large) == Done(0, before.With(Large, [PagedMemory(0x20_0000, 1)]));
    assert [] + [PagedMemory(0x20_0000, 0)] == [PagedMemory(0x20_0000, 0)];
  }

  /** With such an entry at the end of the list, a request for one page returns two runs. */
  lemma EmptyEntryAddsRun()
    ensures var list := [PagedMemory(0, 5), PagedMemory(0x20_0000, 0)];
            |Take(list, 1, Base).out| == 2
  {
    var list := [PagedMemory(0, 5), PagedMemory(0x20_0000, 0)];
    assert list[..1] == [PagedMemory(0, 5)];
    assert Take(list[..1], 1, Base).out == [PagedMemory(0, 1)];
  }

  /** Which entries a request that one list can serve goes through: all of `list[k..]`, and a last
      one that has enough. */
  lemma {:induction false} TakeShape(list: seq<PagedMemory>, n: nat, size: PageSize) returns (k: nat)
    requires n >= 1 && Take(list, n, size).served
    ensures 1 <= k <= |list|
    ensures |Take(list, n, size).out| == |list| - k + 1
    ensures Total(list[k..]) < n <= Total(list[k - 1..])
    ensures Total(list[..k]) > 0
    decreases |list|
  {
    var last := |list| - 1;
    if list[last].numberOfPages >= n {
      k := |list|;
      assert list[last..] == [] + [list[last]];
      TotalConcat([], [list[last]]);
      assert list[..k] == list;
    } else {
      k := TakeShape(list[..last], n - list[last].numberOfPages, size);
      SuffixTotal(list, k);
      SuffixTotal(list, k - 1);
      assert list[..last][..k] == list[..k];
    }
  }

  lemma SuffixTotal(list: seq<PagedMemory>, k: nat)
    requires k < |list|
    ensures Total(list[k..]) == Total(list[..|list| - 1][k..]) + list[|list| - 1].numberOfPages
  {
    assert list[k..][..|list[k..]| - 1] == list[..|list| - 1][k..];
  }

  lemma TotalSuffix(list: seq<PagedMemory>, j: nat, k: nat)
    requires j <= k <= |list|
    ensures Total(list[k..]) <= Total(list[j..])
  {
    assert list[j..] == list[j..k] + list[k..];
    TotalConcat(list[j..k], list[k..]);
  }

  /** Every tail of the list that is not the last resort holds at least as many pages as entries. */
  predicate TailsRich(list: seq<PagedMemory>) {
    forall k :: 0 <= k <= |list| && Total(list[..k]) > 0 ==> |list| - k <= Total(list[k..])
  }

  /** Every request the list can serve returns at most one run per page asked for. */
  ghost predicate RunsFit(list: seq<PagedMemory>, size: PageSize) {
    forall n: nat :: 1 <= n <= Total(list) ==> |Take(list, n, size).out| <= n
  }

  lemma RichTailsFit(list: seq<PagedMemory>, size: PageSize, n: nat)
    requires TailsRich(list) && 1 <= n <= Total(list)
    ensures |Take(list, n, size).out| <= n
  {
    TakeConserves(list, n, size, 0);
    var k := TakeShape(list, n, size);
    assert |list| - k <= Total(list[k..]);
  }

  lemma FittingTailsRich(list: seq<PagedMemory>, size: PageSize, k: nat)
    requires RunsFit(list, size) && k <= |list| && Total(list[..k]) > 0
    ensures |list| - k <= Total(list[k..])
  {
    var n := Total(list[k..]) + 1;
    assert list == list[..k] + list[k..];
    TotalConcat(list[..k], list[k..]);
    TakeConserves(list, n, size, 0);
    var k' := TakeShape(list, n, size);
    assert |Take(list, n, size).out| <= n;
    if k' - 1 >= k { TotalSuffix(list, k, k' - 1); }
  }

  /** For the requests one list can serve, the runs fit the caller's buffer exactly when every such
      tail is rich enough. */
  lemma RunsFitIffTailsRich(list: seq<PagedMemory>, size: PageSize)
    ensures RunsFit(list, size) <==> TailsRich(list)
  {
    if TailsRich(list) {
      forall n: nat | 1 <= n <= Total(list) ensures |Take(list, n, size).out| <= n {
        RichTailsFit(list, size, n);
      }
    }
    if RunsFit(list, size) {
      forall k | 0 <= k <= |list| && Total(list[..k]) > 0 ensures |list| - k <= Total(list[k..]) {
        FittingTailsRich(list, size, k);
      }
    }
  }

  // ---------------------------------------------------------------- runs

  datatype Held = Held(run: PagedMemory, size: PageSize)

  datatype World = World(free: Managers, held: seq<Held>)

  datatype Op =
    | Contiguous(n: nat, size: PageSize)
    | Scattered(n: nat, size: PageSize)
    | Release(pages: seq<PagedMemory>, size: PageSize)

  function HeldCount(held: seq<Held>, a: nat): nat {
    if held == [] then 0
    else HeldCount(held[..|held| - 1], a) + One(held[|held| - 1].run, held[|held| - 1].size, a)
  }

  function AsHeld(pages: seq<PagedMemory>, size: PageSize): (r: seq<Held>)
    ensures |r| == |pages|
  {
    seq(|pages|, i requires 0 <= i < |pages| => Held(pages[i], size))
  }

  /** One call. A caller may give back any part of what it holds, regrouped as it likes. */
  ghost predicate Step(w: World, op: Op, w': World) {
    match op
    case Contiguous(n, size) =>
      var r := AllocContiguous(w.free, n, size);
      r.Done? && w' == World(r.state, w.held + AsHeld([PagedMemory(r.value, n)], size))
    case Scattered(n, size) =>
      var r := AllocPages(w.free, n, size);
      r.Done? && w' == World(r.state, w.held + AsHeld(r.value, size))
    case Release(pages, size) =>
      && FreePages(w.free, pages, size) == Done((), w'.free)
      && ListOk(pages, size)
      && forall a: nat :: HeldCount(w.held, a) == HeldCount(w'.held, a) + Count(pages, size, a)
  }

  ghost predicate IsRun(worlds: seq<World>, ops: seq<Op>) {
    && |worlds| == |ops| + 1
    && forall i :: 0 <= i < |ops| ==> Step(worlds[i], ops[i], worlds[i + 1])
  }

  lemma {:induction false} HeldCountAdds(held: seq<Held>, pages: seq<PagedMemory>, size: PageSize, a: nat)
    ensures HeldCount(held + AsHeld(pages, size), a) == HeldCount(held, a) + Count(pages, size, a)
    decreases |pages|
  {
    if pages == [] {
      assert held + AsHeld(pages, size) == held;
    } else {
      var k := |pages| - 1;
      HeldCountAdds(held, pages[..k], size, a);
      assert (held + AsHeld(pages, size))[..|held| + k] == held + AsHeld(pages[..k], size);
    }
  }

  lemma FreeAdds(state: Managers, pages: seq<PagedMemory>, size: PageSize, a: nat)
    requires FreePages(state, pages, size).Done?
    ensures Cover(FreePages(state, pages, size).state, a) == Cover(state, a) + Count(pages, size, a)
  {
    CountConcat(state.At(size).free, pages, size, a);
    CoverWith(state, size, state.At(size).free + pages, a);
  }

  lemma StepConserves(w: World, op: Op, w': World)
    requires Ok(w.free) && Step(w, op, w')
    ensures Ok(w'.free)
    ensures forall a: nat :: Cover(w'.free, a) + HeldCount(w'.held, a) == Cover(w.free, a) + HeldCount(w.held, a)
  {
    match op {
      case Contiguous(n, size) => ContiguousConserves(w.free, n, size);
      case Scattered(n, size) => PagesConserve(w.free, n, size);
      case Release(pages, size) =>
    }
    forall a: nat
      ensures Cover(w'.free, a) + HeldCount(w'.held, a) == Cover(w.free, a) + HeldCount(w.held, a)
    {
      match op
      case Contiguous(n, size) =>
        HeldCountAdds(w.held, [PagedMemory(AllocContiguous(w.free, n, size).value, n)], size, a);
      case Scattered(n, size) =>
        HeldCountAdds(w.held, AllocPages(w.free, n, size).value, size, a);
      case Release(pages, size) =>
        FreeAdds(w.free, pages, size, a);
    }
  }

  /** Over every run, free and held memory together never change, every free entry stays aligned
      to its manager, and memory that started without overlap never overlaps. */
  lemma {:induction false} RunConserves(worlds: seq<World>, ops: seq<Op>, i: nat)
    requires IsRun(worlds, ops) && i < |worlds| && Ok(worlds[0].free)
    ensures Ok(worlds[i].free)
    ensures forall a: nat :: Cover(worlds[i].free, a) + HeldCount(worlds[i].held, a)
                          == Cover(worlds[0].free, a) + HeldCount(worlds[0].held, a)
    decreases i
  {
    if i > 0 {
      RunConserves(worlds, ops, i - 1);
      StepConserves(worlds[i - 1], ops[i - 1], worlds[i]);
    }
  }

  /** A held run never overlaps free memory. */
  lemma RunKeepsHeldApart(worlds: seq<World>, ops: seq<Op>, i: nat, x: nat, a: nat)
    requires IsRun(worlds, ops) && i < |worlds| && Ok(worlds[0].free)
    requires forall b: nat :: Cover(worlds[0].free, b) + HeldCount(worlds[0].held, b) <= 1
    requires x < |worlds[i].held| && Covers(worlds[i].held[x].run, worlds[i].held[x].size, a)
    ensures Cover(worlds[i].free, a) == 0
  {
    RunConserves(worlds, ops, i);
    HeldCountOne(worlds[i].held, x, a);
  }

  /** Two held runs never overlap. */
  lemma RunKeepsDisjoint(worlds: seq<World>, ops: seq<Op>, i: nat, x: nat, y: nat, a: nat)
    requires IsRun(worlds, ops) && i < |worlds| && Ok(worlds[0].free)
    requires forall b: nat :: Cover(worlds[0].free, b) + HeldCount(worlds[0].held, b) <= 1
    requires x < y < |worlds[i].held|
    ensures !(Covers(worlds[i].held[x].run, worlds[i].held[x].size, a)
              && Covers(worlds[i].held[y].run, worlds[i].held[y].size, a))
  {
    RunConserves(worlds, ops, i);
    HeldCountTwo(worlds[i].held, x, y, a);
  }

  lemma {:induction false} HeldCountTwo(held: seq<Held>, x: nat, y: nat, a: nat)
    requires x < y < |held|
    ensures HeldCount(held, a) >= One(held[x].run, held[x].size, a) + One(held[y].run, held[y].size, a)
    decreases |held|
  {
    var k := |held| - 1;
    if y < k {
      HeldCountTwo(held[..k], x, y, a);
    } else {
      HeldCountOne(held[..k], x, a);
    }
  }

  lemma {:induction false} HeldCountOne(held: seq<Held>, x: nat, a: nat)
    requires x < |held|
    ensures HeldCount(held, a) >= One(held[x].run, held[x].size, a)
    decreases |held|
  {
    if x < |held| - 1 { HeldCountOne(held[..|held| - 1], x, a); }
  }

  // ---------------------------------------------------------------- metadata growth

  /** When a manager outgrows its metadata buffer it lists the old buffer, counted in base pages, as
      an entry of its own page size. */
  function GrowthEntry(buffer: nat, usedBasePages: nat): PagedMemory {
    PagedMemory(buffer, usedBasePages)
  }

  /** The entry covers exactly the old buffer in the base manager, and only there. */
  lemma GrowthEntryCoversBuffer(buffer: nat, usedBasePages: nat, size: PageSize)
    requires usedBasePages > 0
    ensures (forall a: nat :: Covers(GrowthEntry(buffer, usedBasePages), size, a)
                         <==> buffer <= a < buffer + usedBasePages * PAGE_FRAME_SIZE)
       <==> size == Base
  {
    if size != Base {
      var last := buffer + usedBasePages * PAGE_FRAME_SIZE;
      assert Covers(GrowthEntry(buffer, usedBasePages), size, last) by {
        MulStrict(PAGE_FRAME_SIZE, size.Bytes(), usedBasePages);
      }
    }
  }

  /** In the large manager the entry for a one-page buffer at address 0 also covers the next page. */
  lemma GrowthEntryCoversTooMuch()
    ensures Covers(GrowthEntry(0, 1), Large, 4096) && !(0 <= 4096 < 0 + 1 * PAGE_FRAME_SIZE)
  {
  }

  /** Growth of the base manager from its own list: the first run of one page more than before becomes
      the new buffer, and the old buffer becomes free memory. */
  function Grown(list: seq<PagedMemory>, buffer: nat, usedBasePages: nat): seq<PagedMemory>
    requires FirstFit(list, usedBasePages + 1, 0) < |list|
  {
    DecreasePages(list, FirstFit(list, usedBasePages + 1, 0), usedBasePages + 1, Base)
    + [GrowthEntry(buffer, usedBasePages)]
  }

  function NewBuffer(list: seq<PagedMemory>, usedBasePages: nat): PagedMemory
    requires FirstFit(list, usedBasePages + 1, 0) < |list|
  {
    PagedMemory(list[FirstFit(list, usedBasePages + 1, 0)].pageStart, usedBasePages + 1)
  }

  /** Then free memory and the metadata buffer together stay the same at every address, entries stay
      aligned, and the new buffer has room for the grown list and one entry more. */
  lemma BaseGrowthConserves(list: seq<PagedMemory>, buffer: nat, usedBasePages: nat, a: nat)
    requires FirstFit(list, usedBasePages + 1, 0) < |list|
    ensures Count(Grown(list, buffer, usedBasePages), Base, a) + One(NewBuffer(list, usedBasePages), Base, a)
         == Count(list, Base, a) + One(PagedMemory(buffer, usedBasePages), Base, a)
    ensures ListOk(list, Base) && EntryOk(GrowthEntry(buffer, usedBasePages), Base) ==>
              ListOk(Grown(list, buffer, usedBasePages), Base) && EntryOk(NewBuffer(list, usedBasePages), Base)
    ensures |list| <= 256 * usedBasePages ==> |Grown(list, buffer, usedBasePages)| < 256 * (usedBasePages + 1)
  {
    var i := FirstFit(list, usedBasePages + 1, 0);
    var rest := DecreasePages(list, i, usedBasePages + 1, Base);
    DecreaseTakesFront(list, i, usedBasePages + 1, Base, a);
    CountConcat(rest, [GrowthEntry(buffer, usedBasePages)], Base, a);
    CountSingle(GrowthEntry(buffer, usedBasePages), Base, a);
    if ListOk(list, Base) { DecreaseKeepsOk(list, i, usedBasePages + 1, Base); }
  }
}
