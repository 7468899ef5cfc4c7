/** The buffer in which a non-contiguous allocation returns its runs: how far it is written, when that
    is past its end, and a run of calls that gets there. */
module CallerBuffer {
  import opened Bits
  import opened Paging
  import opened FreeLists

  /** How many slots of the caller's buffer a non-contiguous allocation writes: the runs of its own
      list, and behind them the stolen runs. The runs taken from those in the second attempt overwrite
      them and are never more. */
  function Slots(state: Managers, n: nat, size: PageSize): nat
    decreases size != Huge, size == Base
  {
    var t := Take(state.At(size).free, n, size);
    if t.served || size == Huge then |t.out|
    else |t.out| + Slots(state.With(size, []), CeilPages(t.left), Larger(size))
  }

  /** The free entries of a size and all larger sizes. */
  function Entries(state: Managers, size: PageSize): nat {
    match size
    case Base => |state.base.free| + |state.large.free| + |state.huge.free|
    case Large => |state.large.free| + |state.huge.free|
    case Huge => |state.huge.free|
  }

  lemma {:induction false} TakeLength(list: seq<PagedMemory>, n: nat, size: PageSize)
    ensures |Take(list, n, size).out| <= |list|
    decreases |list|
  {
    if list != [] && list[|list| - 1].numberOfPages < n {
      TakeLength(list[..|list| - 1], n - list[|list| - 1].numberOfPages, size);
    }
  }

  lemma EntriesAbove(state: Managers, size: PageSize)
    requires size != Huge
    ensures Entries(state.With(size, []), Larger(size)) + |state.At(size).free| == Entries(state, size)
  {
  }

  /** The runs returned lie in the slots written, and neither is more than the free entries there are. */
  lemma {:induction false} SlotsBound(state: Managers, n: nat, size: PageSize)
    ensures Slots(state, n, size) <= Entries(state, size)
    ensures AllocPages(state, n, size).Done? ==> |AllocPages(state, n, size).value| <= Slots(state, n, size)
    decreases size != Huge, size == Base
  {
    var list := state.At(size).free;
    var t := Take(list, n, size);
    TakeLength(list, n, size);
    if !t.served && size != Huge {
      var state0 := state.With(size, []);
      SlotsBound(state0, CeilPages(t.left), Larger(size));
      EntriesAbove(state, size);
      StealSteps(state, n, size);
      var s := AllocPages(state0, CeilPages(t.left), Larger(size));
      if s.Done? { TakeLength(Scale(s.value), t.left, size); }
    }
  }

  /** The second attempt stays in the slots the stolen runs were written to. */
  lemma SecondAttemptFits(state: Managers, left: nat, size: PageSize)
    requires size != Huge && AllocPages(state, CeilPages(left), Larger(size)).Done?
    ensures var stolen := AllocPages(state, CeilPages(left), Larger(size)).value;
            |Take(Scale(stolen), left, size).out| <= Slots(state, CeilPages(left), Larger(size))
  {
    SlotsBound(state, CeilPages(left), Larger(size));
    TakeLength(Scale(AllocPages(state, CeilPages(left), Larger(size)).value), left, size);
  }

  /** A buffer with one slot per requested page is large enough when no free entry is empty. */
  lemma {:induction false} SlotsFit(state: Managers, n: nat, size: PageSize)
    requires AllNonEmpty(state) && n >= 1
    ensures Slots(state, n, size) <= n
    decreases size != Huge, size == Base
  {
    var list := state.At(size).free;
    var t := Take(list, n, size);
    TakeConserves(list, n, size, 0);
    TakeKeepsNonEmpty(list, n, size);
    LengthAtMostTotal(t.out);
    if !t.served && size != Huge {
      CeilPagesBounds(t.left);
      UnservedLeft(list, n, size);
      SlotsFit(state.With(size, []), CeilPages(t.left), Larger(size));
    }
  }

  lemma UnservedLeft(list: seq<PagedMemory>, n: nat, size: PageSize)
    requires n >= 1 && !Take(list, n, size).served
    ensures Take(list, n, size).left == n - Total(list) >= 1 && |Take(list, n, size).out| == |list|
  {
    TakeConserves(list, n, size, 0);
    TakeAll(list, n, size);
  }

  lemma {:induction false} TakeAll(list: seq<PagedMemory>, n: nat, size: PageSize)
    requires !Take(list, n, size).served
    ensures |Take(list, n, size).out| == |list| && Total(Take(list, n, size).out) == Total(list)
    decreases |list|
  {
    TakeConserves(list, n, size, 0);
    if list != [] {
      TakeAll(list[..|list| - 1], n - list[|list| - 1].numberOfPages, size);
    }
  }

  // ---------------------------------------------------------------- exactly when it is too short

  /** More than `r` entries are gone through if and only if there are more and the last `r` of them do
      not hold the pages asked for. */
  lemma {:induction false} TakesMoreThan(list: seq<PagedMemory>, n: nat, size: PageSize, r: nat)
    requires n >= 1
    ensures |Take(list, n, size).out| > r <==> |list| > r && Total(list[|list| - r..]) < n
    decreases |list|
  {
    if list != [] && |list| > r {
      var k := |list| - 1;
      if r == 0 {
        assert list[|list|..] == [];
      } else {
        SuffixTotal(list, |list| - r);
        if list[k].numberOfPages < n {
          TakesMoreThan(list[..k], n - list[k].numberOfPages, size, r - 1);
        }
      }
    } else {
      TakeLength(list, n, size);
    }
  }

  /** From the lists alone: going through the entries of each size from the last to the first, `room`
      of them do not hold the request. */
  predicate WritesPast(state: Managers, n: nat, size: PageSize, room: nat)
    decreases size != Huge, size == Base
  {
    var list := state.At(size).free;
    if |list| > room then Total(list[|list| - room..]) < n
    else && size != Huge && n > Total(list)
         && WritesPast(state, CeilPages(n - Total(list)), Larger(size), room - |list|)
  }

  /** A call writes past a buffer exactly then. */
  lemma {:induction false} WritesPastExactly(state: Managers, n: nat, size: PageSize, room: nat)
    requires n >= 1 || room >= 1
    ensures Slots(state, n, size) > room <==> WritesPast(state, n, size, room)
    decreases size != Huge, size == Base
  {
    var list := state.At(size).free;
    if n == 0 {
      SlotsForNothing(state, size);
      NothingWritesPast(state, size, room);
    } else {
      if |list| <= room && size != Huge && n > Total(list) {
        WritesPastExactly(state, CeilPages(n - Total(list)), Larger(size), room - |list|);
      }
      LevelExactly(state, n, size, room);
    }
  }

  lemma NothingWritesPast(state: Managers, size: PageSize, room: nat)
    ensures !WritesPast(state, 0, size, room)
  {
  }

  /** One size, when the larger ones are known. */
  lemma LevelExactly(state: Managers, n: nat, size: PageSize, room: nat)
    requires n >= 1
    requires var list := state.At(size).free;
             |list| <= room && size != Huge && n > Total(list) ==>
               var m := CeilPages(n - Total(list));
               Slots(state, m, Larger(size)) > room - |list| <==> WritesPast(state, m, Larger(size), room - |list|)
    ensures Slots(state, n, size) > room <==> WritesPast(state, n, size, room)
  {
    if |state.At(size).free| > room {
      LongListWritesPast(state, n, size, room);
    } else {
      ShortListWritesPast(state, n, size, room);
    }
  }

  lemma LongListWritesPast(state: Managers, n: nat, size: PageSize, room: nat)
    requires n >= 1 && |state.At(size).free| > room
    ensures var list := state.At(size).free;
            Slots(state, n, size) > room <==> Total(list[|list| - room..]) < n
  {
    var list := state.At(size).free;
    TakesMoreThan(list, n, size, room);
    if !Take(list, n, size).served { UnservedLeft(list, n, size); }
  }

  lemma ShortListWritesPast(state: Managers, n: nat, size: PageSize, room: nat)
    requires n >= 1 && |state.At(size).free| <= room
    ensures var list := state.At(size).free;
            Slots(state, n, size) > room
            <==> && size != Huge && n > Total(list)
                 && Slots(state, CeilPages(n - Total(list)), Larger(size)) > room - |list|
  {
    var list := state.At(size).free;
    TakeLength(list, n, size);
    TakeConserves(list, n, size, 0);
    if !Take(list, n, size).served {
      UnservedLeft(list, n, size);
      if size != Huge { SlotsIgnoreSmaller(state, CeilPages(n - Total(list)), size); }
    }
  }

  lemma {:induction false} SlotsForNothing(state: Managers, size: PageSize)
    ensures Slots(state, 0, size) <= 1
    decreases size != Huge, size == Base
  {
    var list := state.At(size).free;
    if list == [] && size != Huge { SlotsForNothing(state.With(size, []), Larger(size)); }
  }

  /** What a larger manager does depends only on the larger lists. */
  lemma {:induction false} SlotsIgnoreSmaller(state: Managers, n: nat, size: PageSize)
    requires size != Huge
    ensures Slots(state.With(size, []), n, Larger(size)) == Slots(state, n, Larger(size))
  {
    var t := Take(state.At(Larger(size)).free, n, Larger(size));
    if !t.served && Larger(size) != Huge {
      assert state.With(size, []).With(Large, []).At(Huge) == state.With(Large, []).At(Huge);
    }
  }

  predicate OnePageOfMetadata(state: Managers) {
    && |state.base.free| <= state.base.cap <= 256
    && |state.large.free| <= state.large.cap <= 256
    && |state.huge.free| <= state.huge.cap <= 256
  }

  /** The large list does not hold a request for large pages, and the last huge entries for which slots
      are left do not hold the rest. */
  predicate LargeOverrun(l: seq<PagedMemory>, h: seq<PagedMemory>, n: nat, room: nat) {
    && n > Total(l) && |l| <= room < |l| + |h|
    && Total(h[|h| - (room - |l|)..]) < CeilPages(n - Total(l))
  }

  /** The base list does not hold a request for base pages, and so on with the slots that are left. */
  predicate ListsOverrun(b: seq<PagedMemory>, l: seq<PagedMemory>, h: seq<PagedMemory>, n: nat, room: nat) {
    n > Total(b) && |b| <= room && LargeOverrun(l, h, CeilPages(n - Total(b)), room - |b|)
  }

  /** With one page of metadata per manager, a request for base pages runs past 512 slots exactly then. */
  lemma OverrunExactly(state: Managers, n: nat)
    requires OnePageOfMetadata(state)
    ensures Slots(state, n, Base) > 512 <==> ListsOverrun(state.base.free, state.large.free, state.huge.free, n, 512)
  {
    WritesPastExactly(state, n, Base, 512);
    ResortsExactly(state, n, 512);
  }

  lemma ResortsExactly(state: Managers, n: nat, room: nat)
    requires |state.base.free| + |state.large.free| <= room
    ensures WritesPast(state, n, Base, room)
       <==> ListsOverrun(state.base.free, state.large.free, state.huge.free, n, room)
  {
    FirstResort(state, n, room);
    if n > Total(state.base.free) {
      LaterResorts(state, CeilPages(n - Total(state.base.free)), room - |state.base.free|, n, room);
    }
  }

  lemma LaterResorts(state: Managers, m: nat, rest: nat, n: nat, room: nat)
    requires |state.large.free| <= rest && rest == room - |state.base.free|
    requires n > Total(state.base.free) && m == CeilPages(n - Total(state.base.free))
    ensures WritesPast(state, m, Large, rest)
       <==> ListsOverrun(state.base.free, state.large.free, state.huge.free, n, room)
  {
    SecondResort(state, m, rest);
  }

  lemma FirstResort(state: Managers, n: nat, room: nat)
    requires |state.base.free| <= room
    ensures WritesPast(state, n, Base, room)
       <==> && n > Total(state.base.free)
            && WritesPast(state, CeilPages(n - Total(state.base.free)), Large, room - |state.base.free|)
  {
  }

  lemma SecondResort(state: Managers, m: nat, room: nat)
    requires |state.large.free| <= room
    ensures WritesPast(state, m, Large, room) <==> LargeOverrun(state.large.free, state.huge.free, m, room)
  {
    if m > Total(state.large.free) { LastResort(state, m, room); }
  }

  lemma LastResort(state: Managers, m: nat, room: nat)
    requires |state.large.free| <= room && m > Total(state.large.free)
    ensures var l, h := state.large.free, state.huge.free;
            WritesPast(state, m, Large, room)
            <==> |h| > room - |l| && Total(h[|h| - (room - |l|)..]) < CeilPages(m - Total(l))
  {
  }

  /** The runs returned always fit 512 slots then, and so do the slots written for large and huge pages. */
  lemma OnePageFits(state: Managers, n: nat, size: PageSize)
    requires OnePageOfMetadata(state)
    ensures AllocPages(state, n, size).Done? ==> |AllocPages(state, n, size).value| <= 512
    ensures size != Base ==> Slots(state, n, size) <= 512
  {
    SlotsBound(state, n, size);
    var t := Take(state.At(size).free, n, size);
    TakeLength(state.At(size).free, n, size);
    if size == Base && !t.served {
      StealSteps(state, n, size);
      var s := AllocPages(state.With(size, []), CeilPages(t.left), Larger(size));
      if s.Done? { TakeLength(Scale(s.value), t.left, size); }
      KeepsCapacity(state.With(size, []), CeilPages(t.left), Larger(size));
    }
  }

  lemma {:induction false} KeepsCapacity(state: Managers, n: nat, size: PageSize)
    ensures AllocPages(state, n, size).Done? ==>
              forall z: PageSize :: AllocPages(state, n, size).state.At(z).cap == state.At(z).cap
    decreases size != Huge, size == Base
  {
    var t := Take(state.At(size).free, n, size);
    if !t.served && size != Huge {
      KeepsCapacity(state.With(size, []), CeilPages(t.left), Larger(size));
    }
  }

  // ---------------------------------------------------------------- when a metadata buffer is too short

  /** A list that holds the request serves it. */
  lemma OwnListServes(state: Managers, n: nat, size: PageSize)
    requires state.At(size).free != [] && n <= Total(state.At(size).free)
    ensures var t := Take(state.At(size).free, n, size);
            AllocPages(state, n, size) == Done(t.out, state.With(size, t.rest))
  {
    TakeConserves(state.At(size).free, n, size, 0);
  }

  /** Then no metadata buffer is too short; a request for huge pages never finds one that is. */
  lemma FullNeedsSteal(state: Managers, n: nat, size: PageSize)
    requires n >= 1 && AllocPages(state, n, size) == MetadataFull
    ensures size != Huge && n > Total(state.At(size).free)
  {
    if n <= Total(state.At(size).free) { OwnListServes(state, n, size); }
  }

  /** A request for large pages finds the large manager's buffer too short if and only if the large list
      does not hold it, the huge list holds the rest, and its last entries, as many as the buffer has
      slots, do not. */
  lemma LargeFullExactly(state: Managers, n: nat)
    requires n >= 1
    ensures var l, h, cap := state.large.free, state.huge.free, state.large.cap;
            AllocPages(state, n, Large) == MetadataFull
            <==> && n > Total(l) && CeilPages(n - Total(l)) <= Total(h)
                 && |h| > cap && Total(h[|h| - cap..]) < CeilPages(n - Total(l))
  {
    var l, h, cap := state.large.free, state.huge.free, state.large.cap;
    if n <= Total(l) {
      OwnListServes(state, n, Large);
    } else {
      var m := CeilPages(n - Total(l));
      LargeSteals(state, n, m);
      TakesMoreThan(h, m, Huge, cap);
    }
  }

  lemma LargeSteals(state: Managers, n: nat, m: nat)
    requires n > Total(state.large.free) && m == CeilPages(n - Total(state.large.free))
    ensures m >= 1
    ensures AllocPages(state, n, Large) == MetadataFull
       <==> m <= Total(state.huge.free) && |Take(state.huge.free, m, Huge).out| > state.large.cap
  {
    TakeConserves(state.large.free, n, Large, 0);
    UnservedLeft(state.large.free, n, Large);
    StealSteps(state, n, Large);
    HugeAnswers(state.With(Large, []), m);
  }

  lemma HugeAnswers(state: Managers, m: nat)
    requires m >= 1
    ensures var h := state.huge.free;
            var t := Take(h, m, Huge);
            AllocPages(state, m, Huge)
            == if m <= Total(h) then Done(t.out, state.With(Huge, t.rest)) else NoMorePhysicalMemory
  {
    TakeConserves(state.huge.free, m, Huge, 0);
  }

  /** In any case some larger lists have more entries than a buffer has slots. */
  lemma {:induction false} FullNeedsEntries(state: Managers, n: nat, size: PageSize)
    requires AllocPages(state, n, size) == MetadataFull
    ensures size != Huge
    ensures Entries(state, Larger(size)) > state.At(size).cap
         || (size == Base && Entries(state, Huge) > state.large.cap)
    decreases size != Huge, size == Base
  {
    var t := Take(state.At(size).free, n, size);
    StealSteps(state, n, size);
    var state0, m := state.With(size, []), CeilPages(t.left);
    SlotsBound(state0, m, Larger(size));
    if AllocPages(state0, m, Larger(size)) == MetadataFull {
      FullNeedsEntries(state0, m, Larger(size));
    } else {
      KeepsCapacity(state0, m, Larger(size));
    }
  }

  /** A contiguous request that one entry of its own list holds is served, from the front of the first
      such entry. */
  lemma OwnRunServes(state: Managers, n: nat, size: PageSize)
    requires HasRun(state.At(size).free, n)
    ensures AllocContiguous(state, n, size).Done?
    ensures exists i :: FirstHolds(state.At(size).free, n, i)
                        && AllocContiguous(state, n, size).value == state.At(size).free[i].pageStart
  {
    FitIffRun(state.At(size).free, n);
    assert FirstHolds(state.At(size).free, n, FirstFit(state.At(size).free, n, 0));
  }

  /** Entry `i` is the first with `n` pages. */
  predicate FirstHolds(list: seq<PagedMemory>, n: nat, i: int) {
    0 <= i < |list| && list[i].numberOfPages >= n && forall j :: 0 <= j < i ==> list[j].numberOfPages < n
  }

  /** Otherwise it finds a buffer without room for the rest of a larger page if and only if a larger
      list has a run and a list between is full. */
  predicate NoRoomForRest(state: Managers, n: nat, size: PageSize)
    decreases size != Huge, size == Base
  {
    && size != Huge && !HasRun(state.At(size).free, n)
    && (NoRoomForRest(state, CeilPages(n), Larger(size))
        || (|state.At(size).free| >= state.At(size).cap && HasLargerRun(state, n, size)))
  }

  /** Some larger list has a run long enough. */
  predicate HasLargerRun(state: Managers, n: nat, size: PageSize)
    requires size != Huge
    decreases size == Base
  {
    || HasRun(state.At(Larger(size)).free, CeilPages(n))
    || (size == Base && HasLargerRun(state, CeilPages(n), Large))
  }

  lemma LargerRunOrFault(state: Managers, n: nat, size: PageSize)
    requires size != Huge
    ensures AllocContiguous(state, CeilPages(n), Larger(size)) == NoMorePhysicalMemory
       <==> !HasLargerRun(state, n, size)
  {
    ContiguousFaults(state, CeilPages(n), Larger(size));
  }

  lemma {:induction false} ContiguousFullExactly(state: Managers, n: nat, size: PageSize)
    ensures AllocContiguous(state, n, size) == MetadataFull <==> NoRoomForRest(state, n, size)
    decreases size != Huge, size == Base
  {
    FitIffRun(state.At(size).free, n);
    if !HasRun(state.At(size).free, n) && size != Huge {
      ContiguousSteps(state, n, size);
      ContiguousFullExactly(state, CeilPages(n), Larger(size));
      LargerRunOrFault(state, n, size);
      var s := AllocContiguous(state, CeilPages(n), Larger(size));
      if s.Done? {
        LargerContiguousLeavesAlone(state, CeilPages(n), size);
        ContiguousKeepsCapacity(state, CeilPages(n), Larger(size));
      }
    }
  }

  lemma {:induction false} ContiguousKeepsCapacity(state: Managers, n: nat, size: PageSize)
    requires AllocContiguous(state, n, size).Done?
    ensures forall z: PageSize :: AllocContiguous(state, n, size).state.At(z).cap == state.At(z).cap
    decreases size != Huge, size == Base
  {
    if FirstFit(state.At(size).free, n, 0) == |state.At(size).free| {
      ContiguousSteps(state, n, size);
      ContiguousKeepsCapacity(state, CeilPages(n), Larger(size));
    }
  }

  // ---------------------------------------------------------------- a run that gets there

  predicate Empties(list: seq<PagedMemory>, k: nat) {
    |list| == k && forall i :: 0 <= i < k ==> list[i].numberOfPages == 0
  }

  lemma {:induction false} TotalOfEmpties(list: seq<PagedMemory>, k: nat)
    requires Empties(list, k)
    ensures Total(list) == 0
  {
    if k > 0 { TotalOfEmpties(list[..k - 1], k - 1); }
  }

  /** 258 huge pages, and nothing else. */
  const START: World :=
    World(Managers(Manager([], 256), Manager([], 256), Manager([PagedMemory(0, 258)], 256)), [])

  predicate Roomy(state: Managers) {
    state.base.cap == state.large.cap == state.huge.cap == 256
  }

  /** After `k` requests for 512 contiguous base pages. */
  predicate First(state: Managers, k: nat) {
    && Roomy(state) && k <= 256 && Empties(state.base.free, k)
    && |state.large.free| == 1 && state.large.free[0].numberOfPages == 512 - k
    && |state.huge.free| == 1 && state.huge.free[0].numberOfPages == 257
  }

  /** After the rest of that huge page is gone and `m` requests for 512 contiguous large pages. */
  predicate Second(state: Managers, m: nat) {
    && Roomy(state) && m <= 256 && Empties(state.base.free, 256) && Empties(state.large.free, m)
    && |state.huge.free| == 1 && state.huge.free[0].numberOfPages == 257 - m
  }

  lemma NoFit(list: seq<PagedMemory>, k: nat, n: nat)
    requires Empties(list, k) && n >= 1
    ensures FirstFit(list, n, 0) == |list|
  {
  }

  lemma OneFit(list: seq<PagedMemory>, n: nat)
    requires |list| == 1 && list[0].numberOfPages >= n
    ensures FirstFit(list, n, 0) == 0
  {
  }

  lemma Begins()
    ensures var r := AllocContiguous(START.free, 512, Base);
            r.Done? && First(r.state, 1)
  {
    var s := START.free;
    NoFit(s.base.free, 0, 512);
    NoFit(s.large.free, 0, 1);
    OneFit(s.huge.free, 1);
    assert CeilPages(512) == 1 && CeilPages(1) == 1;
    ContiguousSteps(s, 1, Large);
    ContiguousSteps(s, 512, Base);
  }

  lemma FirstGoesOn(s: Managers, k: nat)
    requires First(s, k) && 1 <= k < 256
    ensures var r := AllocContiguous(s, 512, Base);
            r.Done? && First(r.state, k + 1)
  {
    NoFit(s.base.free, k, 512);
    OneFit(s.large.free, 1);
    assert CeilPages(512) == 1;
    ContiguousSteps(s, 512, Base);
  }

  lemma FirstEnds(s: Managers)
    requires First(s, 256)
    ensures var r := AllocContiguous(s, 256, Large);
            r.Done? && Second(r.state, 0)
  {
    OneFit(s.large.free, 256);
  }

  lemma SecondGoesOn(s: Managers, m: nat)
    requires Second(s, m) && m < 256
    ensures var r := AllocContiguous(s, 512, Large);
            r.Done? && Second(r.state, m + 1)
  {
    NoFit(s.large.free, m, 512);
    OneFit(s.huge.free, 1);
    assert CeilPages(512) == 1;
    ContiguousSteps(s, 512, Large);
  }

  ghost predicate RunTo(worlds: seq<World>, ops: seq<Op>) {
    IsRun(worlds, ops) && worlds[0] == START
  }

  lemma OneMore(worlds: seq<World>, ops: seq<Op>, n: nat, size: PageSize)
    returns (worlds2: seq<World>, ops2: seq<Op>)
    requires RunTo(worlds, ops) && AllocContiguous(worlds[|ops|].free, n, size).Done?
    ensures RunTo(worlds2, ops2)
    ensures worlds2[|ops2|].free == AllocContiguous(worlds[|ops|].free, n, size).state
  {
    var w := worlds[|ops|];
    var r := AllocContiguous(w.free, n, size);
    var next := World(r.state, w.held + AsHeld([PagedMemory(r.value, n)], size));
    worlds2, ops2 := worlds + [next], ops + [Contiguous(n, size)];
    forall i | 0 <= i < |ops2| ensures Step(worlds2[i], ops2[i], worlds2[i + 1]) {
      if i < |ops| { assert Step(worlds[i], ops[i], worlds[i + 1]); }
    }
  }

  lemma {:induction false} FirstPhase(k: nat) returns (worlds: seq<World>, ops: seq<Op>)
    requires 1 <= k <= 256
    ensures RunTo(worlds, ops) && First(worlds[|ops|].free, k)
  {
    if k == 1 {
      worlds, ops := [START], [];
      Begins();
    } else {
      worlds, ops := FirstPhase(k - 1);
      FirstGoesOn(worlds[|ops|].free, k - 1);
    }
    worlds, ops := OneMore(worlds, ops, 512, Base);
  }

  lemma {:induction false} SecondPhase(m: nat) returns (worlds: seq<World>, ops: seq<Op>)
    requires m <= 256
    ensures RunTo(worlds, ops) && Second(worlds[|ops|].free, m)
  {
    if m == 0 {
      worlds, ops := FirstPhase(256);
      FirstEnds(worlds[|ops|].free);
      worlds, ops := OneMore(worlds, ops, 256, Large);
    } else {
      worlds, ops := SecondPhase(m - 1);
      SecondGoesOn(worlds[|ops|].free, m - 1);
      worlds, ops := OneMore(worlds, ops, 512, Large);
    }
  }

  /** A run of contiguous requests from 258 free huge pages ends in lists full of empty entries, where a
      request for a single base page writes past 512 slots. */
  lemma RunOverruns() returns (worlds: seq<World>, ops: seq<Op>)
    ensures IsRun(worlds, ops) && worlds[0] == START && Ok(START.free)
    ensures OnePageOfMetadata(worlds[|ops|].free) && Slots(worlds[|ops|].free, 1, Base) > 512
  {
    worlds, ops := SecondPhase(256);
    var s := worlds[|ops|].free;
    TotalOfEmpties(s.base.free, 256);
    TotalOfEmpties(s.large.free, 256);
    assert s.huge.free[1..] == [];
    OverrunExactly(s, 1);
  }
}
