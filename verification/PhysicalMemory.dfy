/** The physical memory managers as the kernel runs them: free lists in fixed buffers, changed in
    place by loops. Every method is proved against the list functions of `FreeLists` and
    `Promotion`. */
module PhysicalMemory {
  import opened Bits
  import opened Paging
  import opened FreeLists
  import opened CallerBuffer
  import opened Promotion

  /** How a call ends. The kernel halts on `Fault`; `Full` marks a call that would move a manager's
      metadata to a larger buffer, and `Overrun` one that writes past the end of the caller's buffer. */
  datatype Status = Success | Fault | Full | Overrun

  /** How a call that returns runs ends: with an overrun if and only if it writes more slots than the
      buffer has, and else as the specification says. */
  ghost predicate Answers(before: Managers, n: nat, size: PageSize, room: nat,
                          status: Status, pages: seq<PagedMemory>, view: Managers) {
    if Slots(before, n, size) > room then status == Overrun
    else match AllocPages(before, n, size)
         case Done(out, state) => status == Success && pages == out && view == state
         case NoMorePhysicalMemory => status == Fault
         case MetadataFull => status == Full
  }

  /** How a call that returns one run ends: as the specification says; the base list is the one before
      when it fails. */
  ghost predicate AnswersRun(before: Managers, n: nat, size: PageSize, status: Status, address: nat, view: Managers) {
    match AllocContiguous(before, n, size)
    case Done(a, state) => status == Success && address == a && view == state
    case NoMorePhysicalMemory => status == Fault && view == before
    case MetadataFull => status == Full && Crowded(view) && view.base == before.base
  }

  /** What the larger manager's answer means for the smaller one. */
  lemma StealAnswers(before: Managers, n: nat, size: PageSize, status: Status, address: nat, view: Managers)
    requires size != Huge && FirstFit(before.At(size).free, n, 0) == |before.At(size).free|
    requires AnswersRun(before, CeilPages(n), Larger(size), status, address, view)
    ensures status != Success ==> AnswersRun(before, n, size, status, 0, view)
    ensures status == Success ==>
              && view.base == before.base && view.At(size) == before.At(size)
              && var f := FreePages(view, [Surplus(address, n, size)], size);
                 AllocContiguous(before, n, size) == if f.Done? then Done(address, f.state) else MetadataFull
  {
    ContiguousSteps(before, n, size);
    if status == Success { LargerContiguousLeavesAlone(before, CeilPages(n), size); }
  }

  lemma SlotsStart(state: Managers, n: nat, size: PageSize)
    ensures var t := Take(state.At(size).free, n, size);
            && |t.out| <= Slots(state, n, size)
            && (t.served || size == Huge ==> Slots(state, n, size) == |t.out|)
  {
  }

  /** A non-contiguous allocation that has found `pages` and goes on with the entries in `now`. */
  ghost predicate TakesOn(whole: Taken, now: seq<PagedMemory>, n: nat, size: PageSize, pages: seq<PagedMemory>) {
    var t := Take(now, n, size);
    whole == t.(out := pages + t.out)
  }

  /** One round: the last entry serves the request, or all of it is taken. */
  lemma TakeLast(whole: Taken, now: seq<PagedMemory>, n: nat, size: PageSize, pages: seq<PagedMemory>)
    requires TakesOn(whole, now, n, size, pages) && now != []
    ensures |whole.out| > |pages|
    ensures var i := |now| - 1;
            if now[i].numberOfPages >= n then
              whole == Taken(pages + [PagedMemory(now[i].pageStart, n)],
                             FreeLists.DecreasePages(now, i, n, size), 0, true)
            else TakesOn(whole, now[..i], n - now[i].numberOfPages, size, pages + [now[i]])
  {
    var i := |now| - 1;
    if now[i].numberOfPages < n {
      var t := Take(now[..i], n - now[i].numberOfPages, size);
      assert pages + ([now[i]] + t.out) == pages + [now[i]] + t.out;
    }
  }

  lemma TakeStarts(list: seq<PagedMemory>, n: nat, size: PageSize)
    ensures TakesOn(Take(list, n, size), list, n, size, [])
  {
    assert [] + Take(list, n, size).out == Take(list, n, size).out;
  }

  lemma TakeEnds(whole: Taken, n: nat, size: PageSize, pages: seq<PagedMemory>)
    requires TakesOn(whole, [], n, size, pages)
    ensures whole == Taken(pages, [], n, false)
  {
    assert pages + [] == pages;
  }

  class MemoryManager {
    const pageSize: PageSize
    const buf: array<PagedMemory>
    var len: nat

    constructor (size: PageSize, capacity: nat)
      ensures pageSize == size && Valid() && View() == Manager([], capacity)
      ensures fresh(buf)
    {
      pageSize := size;
      buf := new PagedMemory[capacity](_ => PagedMemory(0, 0));
      len := 0;
    }

    ghost predicate Valid()
      reads this
    {
      len <= buf.Length
    }

    ghost function View(): Manager
      requires Valid()
      reads this, buf
    {
      Manager(buf[..len], buf.Length)
    }

    method DecreasePages(index: nat, decreaseBy: nat)
      requires Valid() && index < len && decreaseBy <= buf[index].numberOfPages
      modifies this, buf
      ensures Valid()
      ensures View() == old(View()).(free := FreeLists.DecreasePages(old(View().free), index, decreaseBy, pageSize))
    {
      if buf[index].numberOfPages == decreaseBy {
        buf[index] := buf[len - 1];
        len := len - 1;
      } else {
        buf[index] := PagedMemory(buf[index].pageStart + decreaseBy * pageSize.Bytes(),
                                  buf[index].numberOfPages - decreaseBy);
      }
    }

    /** The scan of a contiguous allocation: the first entry that is long enough gives up its
        front. */
    method TakeFirstFit(numberOfPages: nat) returns (found: bool, address: nat)
      requires Valid()
      modifies this, buf
      ensures Valid()
      ensures var list := old(View().free);
              var i := FirstFit(list, numberOfPages, 0);
              if i < |list| then
                && found && address == list[i].pageStart
                && View() == old(View()).(free := FreeLists.DecreasePages(list, i, numberOfPages, pageSize))
              else !found && View() == old(View())
    {
      for i := 0 to len
        invariant View() == old(View())
        invariant FirstFit(View().free, numberOfPages, 0) == FirstFit(View().free, numberOfPages, i)
      {
        if buf[i].numberOfPages >= numberOfPages {
          address := buf[i].pageStart;
          DecreasePages(i, numberOfPages);
          return true, address;
        }
      }
      return false, 0;
    }

    /** The loop of a non-contiguous allocation: entries leave from the end of the list until the
        request is met or the list is empty. The caller's buffer has `room` slots. */
    method TakeFromEnd(request: nat, room: nat)
      returns (overrun: bool, served: bool, pages: seq<PagedMemory>, left: nat)
      requires Valid()
      modifies this, buf
      ensures Valid()
      ensures overrun <==> |Take(old(View().free), request, pageSize).out| > room
      ensures !overrun ==>
                var t := Take(old(View().free), request, pageSize);
                && served == t.served && pages == t.out && left == t.left
                && View() == old(View()).(free := t.rest)
    {
      ghost var list := buf[..len];
      ghost var whole := Take(list, request, pageSize);
      TakeStarts(list, request, pageSize);
      var requested: nat := request;
      pages := [];
      while len > 0
        invariant len <= |list| <= buf.Length && buf[..len] == list[..len] && |pages| <= room
        invariant TakesOn(whole, buf[..len], requested, pageSize, pages)
        decreases len
      {
        var i := len - 1;
        TakeLast(whole, buf[..len], requested, pageSize, pages);
        if |pages| == room {
          return true, false, pages, requested;
        }
        if buf[i].numberOfPages >= requested {
          pages := pages + [PagedMemory(buf[i].pageStart, requested)];
          DecreasePages(i, requested);
          return false, true, pages, 0;
        }
        assert buf[..len][..i] == buf[..i];
        pages := pages + [buf[i]];
        requested := requested - buf[i].numberOfPages;
        len := len - 1;
      }
      TakeEnds(whole, requested, pageSize, pages);
      return false, false, pages, requested;
    }

    method FreePhysicalPages(pages: seq<PagedMemory>) returns (status: Status)
      requires Valid()
      modifies this, buf
      ensures Valid()
      ensures status == Success <==> pages == [] || |old(View().free)| + |pages| <= buf.Length
      ensures status != Success ==> status == Full && len == buf.Length
      ensures status != Success && |pages| == 1 ==> View() == old(View())
      ensures status == Success ==> View() == old(View()).(free := old(View().free) + pages)
    {
      ghost var list := buf[..len];
      for i := 0 to |pages|
        invariant len <= buf.Length && len == |list| + i
        invariant buf[..len] == list + pages[..i]
      {
        if len >= buf.Length {
          return Full;
        }
        buf[len] := pages[i];
        len := len + 1;
        assert buf[..len] == buf[..len - 1] + [pages[i]];
      }
      assert pages[..|pages|] == pages;
      return Success;
    }
  }

  class PhysicalMemoryManagers {
    const base: MemoryManager
    const large: MemoryManager
    const huge: MemoryManager

    constructor (capacity: nat)
      ensures Valid() && fresh(Repr())
      ensures View() == Managers(Manager([], capacity), Manager([], capacity), Manager([], capacity))
    {
      base := new MemoryManager(Base, capacity);
      large := new MemoryManager(Large, capacity);
      huge := new MemoryManager(Huge, capacity);
    }

    ghost function Repr(): set<object> {
      {base, large, huge, base.buf, large.buf, huge.buf}
    }

    ghost predicate Valid()
      reads base, large, huge
    {
      && base.pageSize == Base && large.pageSize == Large && huge.pageSize == Huge
      && base.buf != large.buf && base.buf != huge.buf && large.buf != huge.buf
      && base.Valid() && large.Valid() && huge.Valid()
    }

    ghost function View(): Managers
      requires Valid()
      reads base, large, huge, base.buf, large.buf, huge.buf
    {
      Managers(base.View(), large.View(), huge.View())
    }

    function GetMemoryManager(pageSize: PageSize): (m: MemoryManager)
      ensures m in Repr() && m.buf in Repr()
    {
      match pageSize case Base => base case Large => large case Huge => huge
    }

    method FreePhysicalPages(pages: seq<PagedMemory>, pageSize: PageSize) returns (status: Status)
      requires Valid()
      modifies Repr()
      ensures Valid()
      ensures match FreePages(old(View()), pages, pageSize)
              case Done(_, state) => status == Success && View() == state
              case _ => status == Full && Crowded(View()) && (|pages| == 1 ==> View() == old(View()))
    {
      status := GetMemoryManager(pageSize).FreePhysicalPages(pages);
    }

    method TakeFirstFit(numberOfPages: nat, pageSize: PageSize) returns (found: bool, address: nat)
      requires Valid()
      modifies Repr()
      ensures Valid()
      ensures var list := old(View()).At(pageSize).free;
              var i := FirstFit(list, numberOfPages, 0);
              if i < |list| then
                && found && address == list[i].pageStart
                && View() == old(View()).With(pageSize, FreeLists.DecreasePages(list, i, numberOfPages, pageSize))
              else !found && View() == old(View())
    {
      found, address := GetMemoryManager(pageSize).TakeFirstFit(numberOfPages);
    }

    method TakeFromEnd(request: nat, pageSize: PageSize, room: nat)
      returns (overrun: bool, served: bool, pages: seq<PagedMemory>, left: nat)
      requires Valid()
      modifies Repr()
      ensures Valid()
      ensures overrun <==> |Take(old(View()).At(pageSize).free, request, pageSize).out| > room
      ensures !overrun ==>
                var t := Take(old(View()).At(pageSize).free, request, pageSize);
                && served == t.served && pages == t.out && left == t.left
                && View() == old(View()).With(pageSize, t.rest)
    {
      overrun, served, pages, left := GetMemoryManager(pageSize).TakeFromEnd(request, room);
    }

    method AllocContiguousPhysicalPages(numberOfPages: U64, pageSize: PageSize)
      returns (status: Status, address: nat)
      requires Valid() && numberOfPages + (ENTRIES - 1) < TWO64
      modifies Repr()
      ensures Valid()
      ensures AnswersRun(old(View()), numberOfPages, pageSize, status, address, View())
      decreases pageSize != Huge, pageSize == Base
    {
      var found;
      found, address := TakeFirstFit(numberOfPages, pageSize);
      if found {
        return Success, address;
      }
      if pageSize == Huge {
        return Fault, 0;
      }
      ghost var before := View();
      var pagesForLargerManager := CeilDiv(numberOfPages, ENTRIES);
      CodeCeilPages(numberOfPages);
      status, address := AllocContiguousPhysicalPages(pagesForLargerManager, Larger(pageSize));
      StealAnswers(before, numberOfPages, pageSize, status, address, View());
      if status != Success {
        return status, 0;
      }
      status := FreePhysicalPages([Surplus(address, numberOfPages, pageSize)], pageSize);
    }

    /** The request is the length of the caller's array, cut to 32 bits; its buffer has `room` slots. */
    method AllocPhysicalPages(length: U64, pageSize: PageSize, room: nat)
      returns (status: Status, pages: seq<PagedMemory>)
      requires Valid()
      modifies Repr()
      ensures Valid()
      ensures Answers(old(View()), length % 0x1_0000_0000, pageSize, room, status, pages, View())
    {
      status, pages := AllocRequested(length % 0x1_0000_0000, pageSize, room);
    }

    method AllocRequested(requested: nat, pageSize: PageSize, room: nat)
      returns (status: Status, pages: seq<PagedMemory>)
      requires Valid() && requested < 0x1_0000_0000
      modifies Repr()
      ensures Valid()
      ensures Answers(old(View()), requested, pageSize, room, status, pages, View())
      decreases pageSize != Huge, pageSize == Base, !Take(View().At(pageSize).free, requested, pageSize).served
    {
      ghost var before := View();
      var overrun, served, left;
      overrun, served, pages, left := TakeFromEnd(requested, pageSize, room);
      SlotsStart(before, requested, pageSize);
      if overrun {
        return Overrun, pages;
      }
      if served {
        return Success, pages;
      }
      if pageSize == Huge {
        return Fault, pages;
      }
      TakeConserves(before.At(pageSize).free, requested, pageSize, 0);
      var added;
      status, added := Steal(left, pageSize, room - |pages|, before, requested, pages);
      pages := pages + added;
    }

    /** Serve the rest of a request from the larger manager. */
    method Steal(left: nat, pageSize: PageSize, room: nat,
                 ghost before: Managers, ghost requested: nat, ghost found: seq<PagedMemory>)
      returns (status: Status, added: seq<PagedMemory>)
      requires Valid() && left <= requested < 0x1_0000_0000 && pageSize != Huge
      requires var t := Take(before.At(pageSize).free, requested, pageSize);
               !t.served && t.left == left && t.out == found && t.rest == [] && View() == before.With(pageSize, [])
      modifies Repr()
      ensures Valid()
      ensures Answers(before, requested, pageSize, |found| + room, status, found + added, View())
      decreases pageSize != Huge, pageSize == Base, true, 0
    {
      StealSteps(before, requested, pageSize);
      var largerRequest := CeilDiv(left, ENTRIES);
      CodeCeilPages(left);
      var stolen;
      status, stolen := AllocRequested(largerRequest, Larger(pageSize), room);
      added := [];
      if status != Success {
        return;
      }
      PagesTotal(before.With(pageSize, []), largerRequest, Larger(pageSize));
      StealServes(stolen, left, pageSize);
      SecondAttemptFits(before.With(pageSize, []), left, pageSize);
      status := FreePhysicalPages(Scale(stolen), pageSize);
      if status != Success {
        return;
      }
      status, added := AllocRequested(left, pageSize, room);
    }

    /** One round of the promotion loop, on the entry at `i` of the manager being walked. */
    method PromoteEntry(i: nat, smaller: PageSize) returns (status: Status)
      requires Valid() && Ok(View())
      requires smaller != Huge && i < |View().At(smaller).free|
      modifies Repr()
      ensures Valid()
      ensures status == Success || (status == Full && Crowded(View()))
      ensures status == Success
         <==> RoundFits(ListsOf(old(View()), smaller), i, smaller, CapOf(old(View()), smaller),
                        CapOf(old(View()), Larger(smaller)))
      ensures status == Success ==>
                var s := PromoteAt(ListsOf(old(View()), smaller), i, smaller);
                View() == WithLists(old(View()), s, smaller)
    {
      ghost var before := View();
      var manager := GetMemoryManager(smaller);
      var memory := manager.buf[i];
      assert memory == before.At(smaller).free[i];
      var promotes, moved, rest := PromotedPieces(memory, smaller);
      if !promotes {
        return Success;
      }
      manager.DecreasePages(i, moved.numberOfPages);
      assert View() == before.With(smaller,
                                   FreeLists.DecreasePages(before.At(smaller).free, i, moved.numberOfPages, smaller));
      status := ListPieces(PagedMemory(moved.pageStart, moved.numberOfPages / ENTRIES), rest, smaller);
    }

    /** The promoted run goes to the larger manager, what is left over back to the smaller one. */
    method ListPieces(up: PagedMemory, rest: PagedMemory, smaller: PageSize) returns (status: Status)
      requires Valid() && smaller != Huge
      modifies Repr()
      ensures Valid()
      ensures status == Success || (status == Full && Crowded(View()))
      ensures status == Success
         <==> && |ListsOf(old(View()), smaller).upper| < CapOf(old(View()), Larger(smaller))
              && (rest.numberOfPages > 0 ==> |ListsOf(old(View()), smaller).lower| < CapOf(old(View()), smaller))
      ensures status == Success ==>
                var s := ListsOf(old(View()), smaller);
                View() == WithLists(old(View()),
                                    Lists(s.lower + (if rest.numberOfPages > 0 then [rest] else []), s.upper + [up]),
                                    smaller)
    {
      status := FreePhysicalPages([up], Larger(smaller));
      if status == Success && rest.numberOfPages > 0 {
        status := FreePhysicalPages([rest], smaller);
      }
    }

    /** The promotion loop. It walks the list while rounds remove and append entries. */
    method PromoteEntries(smaller: PageSize) returns (status: Status)
      requires Valid() && Ok(View())
      requires smaller != Huge
      modifies Repr()
      ensures Valid()
      ensures status == Success || (status == Full && Crowded(View()))
      ensures status == Success <==> PromotionFits(old(View()), smaller)
      ensures status == Success ==>
                View() == WithLists(old(View()), Promote(ListsOf(old(View()), smaller), 0, smaller), smaller)
    {
      ghost var now := ListsOf(View(), smaller);
      ghost var all := Promote(now, 0, smaller);
      ghost var fits := PromotionFits(View(), smaller);
      ghost var low, up := CapOf(View(), smaller), CapOf(View(), Larger(smaller));
      var manager := GetMemoryManager(smaller);
      var i := 0;
      while i < manager.len
        invariant Valid() && Ok(View()) && now == ListsOf(View(), smaller) && manager.len == |now.lower|
        invariant View() == WithLists(old(View()), now, smaller)
        invariant if i <= |now.lower| then Promote(now, i, smaller) == all else now == all
        invariant fits <==> i <= |now.lower| ==> WalkFits(now, i, smaller, low, up)
        decreases if i <= |now.lower| then Weight(now.lower[i..]) else 0, |now.lower| - i
      {
        RoundIsLighter(now, i, smaller);
        RoundKeepsOk(now, i, smaller);
        status := PromoteEntry(i, smaller);
        if status != Success {
          return status;
        }
        now := PromoteAt(now, i, smaller);
        i := i + 1;
      }
      return Success;
    }

    /** `initPMM` of the manager above `smaller`: one base page becomes its metadata buffer, then
        every entry of the smaller manager is considered for promotion. */
    method InitPMM(smaller: PageSize) returns (status: Status, metadata: nat)
      requires Valid() && Ok(View())
      requires smaller != Huge && View().At(Larger(smaller)).free == []
      modifies Repr()
      ensures Valid()
      ensures status == Fault <==> AllocContiguous(old(View()), 1, Base) == NoMorePhysicalMemory
      ensures status == Success <==> InitFits(old(View()), smaller)
      ensures status == Success ==>
                var r := AllocContiguous(old(View()), 1, Base);
                && r.Done? && metadata == r.value
                && View() == AfterInit(old(View()), smaller)
      ensures status == Full ==> Crowded(View())
    {
      ghost var before := View();
      status, metadata := AllocContiguousPhysicalPages(1, Base);
      if status == Success {
        ContiguousConserves(before, 1, Base);
        status := PromoteEntries(smaller);
      }
    }

    /** The end of `initPhysicalMemoryManager`: large pages are promoted from base pages, then huge pages
        from large ones. Two base pages become metadata; all others stay available. */
    method InitManagers() returns (status: Status)
      requires Valid() && Ok(View()) && View().large.free == [] && View().huge.free == []
      modifies Repr()
      ensures Valid()
      ensures status == Success <==> InitFits(old(View()), Base) && InitFits(AfterInit(old(View()), Base), Large)
      ensures status == Success ==> View() == AfterInit(AfterInit(old(View()), Base), Large)
      ensures status == Success ==> Ok(View()) && Available(View(), Base) + 2 == old(Available(View(), Base))
    {
      ghost var before := View();
      var metadata;
      status, metadata := InitPMM(Base);
      if status == Success {
        InitCounts(before, Base);
        NoHugeStays(before, 1, Base);
        ghost var middle := View();
        status, metadata := InitPMM(Large);
        if status == Success { InitCounts(middle, Large); }
      }
    }
  }

  /** Where the code cuts a run: what it moves from the boundary on, and what of that does not fill
      a larger page. */
  method PromotedPieces(memory: PagedMemory, smaller: PageSize)
    returns (promotes: bool, moved: PagedMemory, rest: PagedMemory)
    requires smaller != Huge && EntryOk(memory, smaller)
    ensures promotes == Promotes(memory, smaller)
    ensures promotes ==> moved == Back(memory, smaller) && rest == Leftover(memory, smaller)
  {
    moved, rest := memory, memory;
    if memory.numberOfPages < ENTRIES {
      return false, moved, rest;
    }
    var boundary := AlignUp(memory.pageStart, Larger(smaller).Bytes());
    CodeBoundary(memory.pageStart, smaller);
    BoundaryFacts(memory, smaller);
    assert boundary == RoundUp(memory.pageStart, Larger(smaller));
    var pagesMoved := (boundary - memory.pageStart) / smaller.Bytes();
    var pagesFromAlign := memory.numberOfPages - pagesMoved;
    if pagesFromAlign < ENTRIES {
      return false, moved, rest;
    }
    var aligned: nat := pagesFromAlign - pagesFromAlign % ENTRIES;
    MulMono(0, aligned, smaller.Bytes());
    var offset: nat := aligned * smaller.Bytes();
    return true, PagedMemory(boundary, pagesFromAlign), PagedMemory(boundary + offset, pagesFromAlign - aligned);
  }

  /** There is a base page for the metadata. */
  predicate InitServes(before: Managers, smaller: PageSize) {
    smaller != Huge && AllocContiguous(before, 1, Base).Done?
  }

  /** And the pieces promoted find room in the metadata buffers. */
  ghost predicate InitFits(before: Managers, smaller: PageSize) {
    InitServes(before, smaller) && PromotionFits(AllocContiguous(before, 1, Base).state, smaller)
  }

  ghost predicate PromotionFits(state: Managers, smaller: PageSize)
    requires smaller != Huge
  {
    WalkFits(ListsOf(state, smaller), 0, smaller, CapOf(state, smaller), CapOf(state, Larger(smaller)))
  }

  function CapOf(state: Managers, size: PageSize): nat {
    state.At(size).cap
  }

  /** The lists `initPMM` leaves: without the metadata page, promoted. */
  ghost function AfterInit(before: Managers, smaller: PageSize): Managers
    requires InitServes(before, smaller)
  {
    var state := AllocContiguous(before, 1, Base).state;
    WithLists(state, Promote(ListsOf(state, smaller), 0, smaller), smaller)
  }

  /** What one `initPMM` leaves available, in base pages. */
  lemma InitCounts(before: Managers, smaller: PageSize)
    requires Ok(before) && smaller != Huge && InitServes(before, smaller)
    ensures Ok(AfterInit(before, smaller)) && Available(AfterInit(before, smaller), Base) + 1 == Available(before, Base)
  {
    var r := AllocContiguous(before, 1, Base);
    ContiguousConserves(before, 1, Base);
    ContiguousPages(before, 1, Base);
    var s := ListsOf(r.state, smaller);
    PromoteKeepsOk(s, 0, smaller);
    PromoteKeepsPages(s, 0, smaller);
    SameAvailable(r.state, Promote(s, 0, smaller), smaller);
  }

  lemma SameAvailable(state: Managers, s: Lists, smaller: PageSize)
    requires smaller != Huge && Pages2(s) == Pages2(ListsOf(state, smaller))
    ensures Available(WithLists(state, s, smaller), Base) == Available(state, Base)
  {
    var after := WithLists(state, s, smaller);
    BaseAvailable(state);
    BaseAvailable(after);
    var b, l, h := Total(state.base.free), Total(state.large.free), Total(state.huge.free);
    if smaller == Base {
      SamePages(Total(s.lower), Total(s.upper), h, b, l, h);
    } else {
      SamePages(b, Total(s.lower), Total(s.upper), b, l, h);
    }
  }

  lemma SamePages(b: nat, l: nat, h: nat, b': nat, l': nat, h': nat)
    requires (b + 512 * l == b' + 512 * l' && h == h') || (b == b' && l + 512 * h == l' + 512 * h')
    ensures b + 512 * (l + 512 * h) == b' + 512 * (l' + 512 * h')
  {
  }

  lemma BaseAvailable(state: Managers)
    ensures Available(state, Base)
         == Total(state.base.free) + 512 * (Total(state.large.free) + 512 * Total(state.huge.free))
  {
    assert Available(state, Huge) == Total(state.huge.free);
    assert Available(state, Large) == Total(state.large.free) + 512 * Available(state, Huge);
  }

  /** The managers after a promotion: the third one and the capacities stay. */
  ghost function WithLists(state: Managers, s: Lists, smaller: PageSize): Managers
    requires smaller != Huge
  {
    state.With(smaller, s.lower).With(Larger(smaller), s.upper)
  }

  /** The lists a promotion works on. */
  ghost function ListsOf(state: Managers, smaller: PageSize): Lists
    requires smaller != Huge
  {
    Lists(state.At(smaller).free, state.At(Larger(smaller)).free)
  }
}
