/** The promotion loop of `initPMM`: long enough runs of one page size move to the manager of the
    next larger size. The loop swaps, removes and appends entries of the list it walks. */
module Promotion {
  import opened Bits
  import opened Paging
  import opened FreeLists

  /** The list being walked and the list being filled. */
  datatype Lists = Lists(lower: seq<PagedMemory>, upper: seq<PagedMemory>)

  /** The align-up of the code finds the first larger-page boundary at or after a run's start. */
  lemma CodeBoundary(start: U64, size: PageSize)
    requires size != Huge && start <= TWO52
    ensures AlignUp(start, Larger(size).Bytes()) == RoundUp(start, Larger(size))
  {
    PageSizesArePowers();
    RoundUpIs(start, Larger(size));
    AlignUpIsQuotient(start, Larger(size).Bytes());
  }

  /** Pages of a run before that boundary. */
  function PagesBefore(e: PagedMemory, size: PageSize): nat
    requires size != Huge
  {
    (RoundUp(e.pageStart, Larger(size)) - e.pageStart) / size.Bytes()
  }

  predicate Promotes(e: PagedMemory, size: PageSize)
    requires size != Huge
  {
    e.numberOfPages >= ENTRIES && e.numberOfPages - PagesBefore(e, size) >= ENTRIES
  }

  /** As many pages as a round moves, taken from the front of the entry. */
  function Front(e: PagedMemory, size: PageSize): PagedMemory
    requires size != Huge && Promotes(e, size)
  {
    PagedMemory(e.pageStart, e.numberOfPages - PagesBefore(e, size))
  }

  /** The part of those that fills whole larger pages, in pages of the smaller size. */
  function WholePart(e: PagedMemory, size: PageSize): PagedMemory
    requires size != Huge && Promotes(e, size)
  {
    var moved := e.numberOfPages - PagesBefore(e, size);
    PagedMemory(RoundUp(e.pageStart, Larger(size)), moved - moved % ENTRIES)
  }

  /** The pages after the boundary that do not fill a larger page. */
  function Leftover(e: PagedMemory, size: PageSize): PagedMemory
    requires size != Huge && Promotes(e, size)
  {
    var moved := e.numberOfPages - PagesBefore(e, size);
    PagedMemory(RoundUp(e.pageStart, Larger(size)) + (moved - moved % ENTRIES) * size.Bytes(), moved % ENTRIES)
  }

  /** The same number of pages from its boundary on. */
  function Back(e: PagedMemory, size: PageSize): PagedMemory
    requires size != Huge && Promotes(e, size)
  {
    PagedMemory(RoundUp(e.pageStart, Larger(size)), e.numberOfPages - PagesBefore(e, size))
  }

  /** One round of the loop. */
  function PromoteAt(s: Lists, i: nat, size: PageSize): Lists
    requires size != Huge && i < |s.lower|
  {
    var e := s.lower[i];
    if !Promotes(e, size) then s
    else
      var moved := Back(e, size);
      var tail := Leftover(e, size);
      Lists(
        DecreasePages(s.lower, i, moved.numberOfPages, size) + (if tail.numberOfPages > 0 then [tail] else []),
        s.upper + [PagedMemory(moved.pageStart, moved.numberOfPages / ENTRIES)])
  }

  /** Rounds left: an entry counts twice while it may still be split. */
  function Weight(list: seq<PagedMemory>): nat {
    if list == [] then 0
    else Weight(list[..|list| - 1]) + (if list[|list| - 1].numberOfPages >= ENTRIES then 2 else 1)
  }

  lemma {:induction false} WeightConcat(s: seq<PagedMemory>, t: seq<PagedMemory>)
    ensures Weight(s + t) == Weight(s) + Weight(t)
    decreases |t|
  {
    if t == [] {
      assert s + t == s;
    } else {
      WeightConcat(s, t[..|t| - 1]);
      assert (s + t)[..|s + t| - 1] == s + t[..|t| - 1];
    }
  }

  lemma WeightOne(e: PagedMemory)
    ensures Weight([e]) == if e.numberOfPages >= ENTRIES then 2 else 1
  {
    assert Weight([e][..0]) == 0;
  }

  /** Each round makes the rest of the walk lighter, although it may append an entry. */
  lemma RoundIsLighter(s: Lists, i: nat, size: PageSize)
    requires size != Huge && i < |s.lower|
    ensures var s' := PromoteAt(s, i, size);
            && i <= |s'.lower|
            && (i < |s'.lower| ==> Weight(s'.lower[i + 1..]) < Weight(s.lower[i..]))
  {
    var e, s' := s.lower[i], PromoteAt(s, i, size);
    assert s.lower[i..] == [e] + s.lower[i + 1..];
    WeightConcat([e], s.lower[i + 1..]);
    WeightOne(e);
    if Promotes(e, size) {
      var cut := DecreasePages(s.lower, i, Back(e, size).numberOfPages, size);
      var tail := if Leftover(e, size).numberOfPages > 0 then [Leftover(e, size)] else [];
      WeightOne(Leftover(e, size));
      CutIsLighter(s.lower, cut, i);
      if i < |cut| {
        assert s'.lower[i + 1..] == cut[i + 1..] + tail;
        WeightConcat(cut[i + 1..], tail);
      } else if i < |s'.lower| {
        assert s'.lower[i + 1..] == [];
      }
    }
  }

  /** Shrinking or swap-removing entry `i` adds nothing behind it. */
  lemma CutIsLighter(list: seq<PagedMemory>, cut: seq<PagedMemory>, i: nat)
    requires i < |list| && |list| - 1 <= |cut| <= |list|
    requires forall j :: i < j < |cut| ==> cut[j] == list[j]
    ensures i < |cut| ==> Weight(cut[i + 1..]) <= Weight(list[i + 1..])
  {
    if i < |cut| {
      if |cut| == |list| {
        assert cut[i + 1..] == list[i + 1..];
      } else {
        assert list[i + 1..] == cut[i + 1..] + [list[|cut|]];
        WeightConcat(cut[i + 1..], [list[|cut|]]);
      }
    }
  }

  /** The whole loop. */
  function Promote(s: Lists, i: nat, size: PageSize): Lists
    requires size != Huge && i <= |s.lower|
    decreases Weight(s.lower[i..]), |s.lower| - i
  {
    if i == |s.lower| then s
    else
      RoundIsLighter(s, i, size);
      var s' := PromoteAt(s, i, size);
      if i + 1 > |s'.lower| then s' else Promote(s', i + 1, size)
  }

  // ---------------------------------------------------------------- laws

  predicate Ok2(s: Lists, size: PageSize)
    requires size != Huge
  {
    ListOk(s.lower, size) && ListOk(s.upper, Larger(size))
  }

  function Cover2(s: Lists, size: PageSize, a: nat): nat
    requires size != Huge
  {
    Count(s.lower, size, a) + Count(s.upper, Larger(size), a)
  }

  function Pages2(s: Lists): nat {
    Total(s.lower) + ENTRIES * Total(s.upper)
  }

  lemma BoundaryFacts(e: PagedMemory, size: PageSize)
    requires size != Huge && EntryOk(e, size)
    ensures RoundUp(e.pageStart, Larger(size)) == e.pageStart + PagesBefore(e, size) * size.Bytes()
    ensures RoundUp(e.pageStart, Larger(size)) % Larger(size).Bytes() == 0
    ensures PagesBefore(e, size) < ENTRIES
    ensures PagesBefore(e, size) == 0 <==> e.pageStart % Larger(size).Bytes() == 0
  {
    match size
    case Base => BoundaryArithmetic(e.pageStart, 4096);
    case Large => BoundaryArithmetic(e.pageStart, 0x20_0000);
  }

  lemma BoundaryArithmetic(start: nat, b: nat)
    requires b > 0 && start % b == 0
    ensures var up := (start + (512 * b - 1)) / (512 * b) * (512 * b);
            && start <= up && up == start + (up - start) / b * b && up % (512 * b) == 0
            && (up - start) / b < 512 && ((up - start) / b == 0 <==> start % (512 * b) == 0)
  {
    var l := 512 * b;
    CeilingOf(start, l);
    var u, q := (start + (l - 1)) / l, start / b;
    var up := u * l;
    var k := 512 * u - q;
    assert up - start == k * b by {
      assert up == (512 * u) * b;
      MulDist(512 * u, -q, b);
    }
    if k < 0 { MulMono(k, -1, b); }
    if k >= 512 { MulMono(512, k, b); }
    DivMod(up - start, b, k, 0);
  }

  /** A run from a larger-page boundary, in whole larger pages. */
  lemma EntryShrink(run: PagedMemory, size: PageSize)
    requires size != Huge && EntryOk(run, size) && run.pageStart % Larger(size).Bytes() == 0
    ensures EntryOk(PagedMemory(run.pageStart, run.numberOfPages / ENTRIES), Larger(size))
  {
    var n := run.numberOfPages / ENTRIES;
    MulAssoc(n, ENTRIES, size.Bytes());
    MulMono(n * ENTRIES, run.numberOfPages, size.Bytes());
  }

  /** The pieces a promoted run is cut into: what stays listed, what is promoted, what is left. */
  lemma BackFacts(run: PagedMemory, size: PageSize)
    requires size != Huge && EntryOk(run, size) && run.pageStart % Larger(size).Bytes() == 0
    ensures var whole := run.numberOfPages - run.numberOfPages % ENTRIES;
            && EntryOk(PagedMemory(run.pageStart, run.numberOfPages / ENTRIES), Larger(size))
            && EntryOk(PagedMemory(run.pageStart + whole * size.Bytes(), run.numberOfPages % ENTRIES), size)
  {
    EntrySplit(run, run.numberOfPages - run.numberOfPages % ENTRIES, size);
    EntryShrink(run, size);
  }

  lemma PieceFacts(e: PagedMemory, size: PageSize)
    requires size != Huge && EntryOk(e, size) && Promotes(e, size)
    ensures var before := PagesBefore(e, size);
            var moved := e.numberOfPages - before;
            var whole := moved - moved % ENTRIES;
            var boundary := RoundUp(e.pageStart, Larger(size));
            && EntryOk(PagedMemory(boundary, moved), size)
            && EntryOk(PagedMemory(boundary, moved / ENTRIES), Larger(size))
            && EntryOk(PagedMemory(boundary + whole * size.Bytes(), moved % ENTRIES), size)
            && EntryOk(PagedMemory(e.pageStart + moved * size.Bytes(), before), size)
  {
    var before := PagesBefore(e, size);
    var moved := e.numberOfPages - before;
    BoundaryFacts(e, size);
    EntrySplit(e, before, size);
    EntrySplit(e, moved, size);
    BackFacts(PagedMemory(RoundUp(e.pageStart, Larger(size)), moved), size);
  }

  lemma RoundKeepsOk(s: Lists, i: nat, size: PageSize)
    requires size != Huge && i < |s.lower| && Ok2(s, size)
    ensures Ok2(PromoteAt(s, i, size), size)
  {
    if Promotes(s.lower[i], size) {
      PieceFacts(s.lower[i], size);
      DecreaseKeepsOk(s.lower, i, s.lower[i].numberOfPages - PagesBefore(s.lower[i], size), size);
    }
  }

  lemma RoundKeepsPages(s: Lists, i: nat, size: PageSize)
    requires size != Huge && i < |s.lower|
    ensures Pages2(PromoteAt(s, i, size)) == Pages2(s)
  {
    if Promotes(s.lower[i], size) {
      RoundLowerPages(s, i, size);
      RoundUpperPages(s, i, size);
    }
  }

  lemma RoundLowerPages(s: Lists, i: nat, size: PageSize)
    requires size != Huge && i < |s.lower| && Promotes(s.lower[i], size)
    ensures Total(PromoteAt(s, i, size).lower)
         == Total(s.lower) - Back(s.lower[i], size).numberOfPages + Leftover(s.lower[i], size).numberOfPages
  {
    var e := s.lower[i];
    var moved := Back(e, size).numberOfPages;
    DecreaseTakesFront(s.lower, i, moved, size, 0);
    TotalConcat(DecreasePages(s.lower, i, moved, size),
                if Leftover(e, size).numberOfPages > 0 then [Leftover(e, size)] else []);
    TotalSingle(Leftover(e, size));
  }

  lemma RoundUpperPages(s: Lists, i: nat, size: PageSize)
    requires size != Huge && i < |s.lower| && Promotes(s.lower[i], size)
    ensures Total(PromoteAt(s, i, size).upper) == Total(s.upper) + Back(s.lower[i], size).numberOfPages / ENTRIES
  {
    var up := PagedMemory(Back(s.lower[i], size).pageStart, Back(s.lower[i], size).numberOfPages / ENTRIES);
    TotalConcat(s.upper, [up]);
    TotalSingle(up);
  }

  lemma TotalSingle(e: PagedMemory)
    ensures Total([e]) == e.numberOfPages
  {
    assert Total([e][..0]) == 0;
  }

  /** What a promoting round does to the count at an address: the run that leaves is the front of
      the entry, the run that arrives is its back. */
  lemma RoundCounts(s: Lists, i: nat, size: PageSize, a: nat)
    requires size != Huge && i < |s.lower| && Promotes(s.lower[i], size)
    ensures Cover2(PromoteAt(s, i, size), size, a) + One(Front(s.lower[i], size), size, a)
         == Cover2(s, size, a) + One(Back(s.lower[i], size), size, a)
  {
    RoundLower(s, i, size, a);
    RoundUpper(s, i, size, a);
    var moved := Back(s.lower[i], size);
    OneSplit(moved.pageStart, moved.numberOfPages, moved.numberOfPages - moved.numberOfPages % ENTRIES, size, a);
  }

  lemma RoundLower(s: Lists, i: nat, size: PageSize, a: nat)
    requires size != Huge && i < |s.lower| && Promotes(s.lower[i], size)
    ensures Count(PromoteAt(s, i, size).lower, size, a) + One(Front(s.lower[i], size), size, a)
         == Count(s.lower, size, a) + One(Leftover(s.lower[i], size), size, a)
  {
    var moved := Back(s.lower[i], size).numberOfPages;
    DecreaseTakesFront(s.lower, i, moved, size, a);
    AppendTail(DecreasePages(s.lower, i, moved, size), Leftover(s.lower[i], size), size, a);
  }

  lemma RoundUpper(s: Lists, i: nat, size: PageSize, a: nat)
    requires size != Huge && i < |s.lower| && Promotes(s.lower[i], size)
    ensures Count(PromoteAt(s, i, size).upper, Larger(size), a)
         == Count(s.upper, Larger(size), a) + One(WholePart(s.lower[i], size), size, a)
  {
    var moved := Back(s.lower[i], size);
    var up := PagedMemory(moved.pageStart, moved.numberOfPages / ENTRIES);
    CountConcat(s.upper, [up], Larger(size), a);
    CountSingle(up, Larger(size), a);
    OneScale(up, size, a);
  }

  lemma AppendTail(cut: seq<PagedMemory>, tail: PagedMemory, size: PageSize, a: nat)
    ensures Count(cut + (if tail.numberOfPages > 0 then [tail] else []), size, a)
         == Count(cut, size, a) + One(tail, size, a)
  {
    CountConcat(cut, if tail.numberOfPages > 0 then [tail] else [], size, a);
    CountSingle(tail, size, a);
  }

  lemma {:induction false} PromoteKeepsOk(s: Lists, i: nat, size: PageSize)
    requires size != Huge && i <= |s.lower| && Ok2(s, size)
    ensures Ok2(Promote(s, i, size), size)
    decreases Weight(s.lower[i..]), |s.lower| - i
  {
    if i < |s.lower| {
      RoundIsLighter(s, i, size);
      RoundKeepsOk(s, i, size);
      var s' := PromoteAt(s, i, size);
      if i + 1 <= |s'.lower| { PromoteKeepsOk(s', i + 1, size); }
    }
  }

  /** Promotion never gains or loses a page, for every list. */
  lemma {:induction false} PromoteKeepsPages(s: Lists, i: nat, size: PageSize)
    requires size != Huge && i <= |s.lower|
    ensures Pages2(Promote(s, i, size)) == Pages2(s)
    decreases Weight(s.lower[i..]), |s.lower| - i
  {
    if i < |s.lower| {
      RoundIsLighter(s, i, size);
      RoundKeepsPages(s, i, size);
      var s' := PromoteAt(s, i, size);
      if i + 1 <= |s'.lower| { PromoteKeepsPages(s', i + 1, size); }
    }
  }

  /** Every run the walk promotes starts on a larger-page boundary. */
  predicate PromotedAligned(s: Lists, i: nat, size: PageSize)
    requires size != Huge && i <= |s.lower|
    decreases Weight(s.lower[i..]), |s.lower| - i
  {
    if i == |s.lower| then true
    else
      RoundIsLighter(s, i, size);
      var e := s.lower[i];
      && (Promotes(e, size) ==> e.pageStart % Larger(size).Bytes() == 0)
      && var s' := PromoteAt(s, i, size);
         (i + 1 <= |s'.lower| ==> PromotedAligned(s', i + 1, size))
  }

  lemma RoundFromBoundary(s: Lists, i: nat, size: PageSize, a: nat)
    requires size != Huge && i < |s.lower| && Ok2(s, size)
    requires Promotes(s.lower[i], size) ==> s.lower[i].pageStart % Larger(size).Bytes() == 0
    ensures Cover2(PromoteAt(s, i, size), size, a) == Cover2(s, size, a)
  {
    if Promotes(s.lower[i], size) {
      BoundaryFacts(s.lower[i], size);
      RoundCounts(s, i, size, a);
    }
  }

  /** If promoted runs start on a boundary, promotion keeps every frame. */
  lemma {:induction false} PromoteKeepsFrames(s: Lists, i: nat, size: PageSize, a: nat)
    requires size != Huge && i <= |s.lower| && Ok2(s, size) && PromotedAligned(s, i, size)
    ensures Cover2(Promote(s, i, size), size, a) == Cover2(s, size, a)
    decreases Weight(s.lower[i..]), |s.lower| - i
  {
    if i < |s.lower| {
      RoundIsLighter(s, i, size);
      RoundKeepsOk(s, i, size);
      RoundFromBoundary(s, i, size, a);
      var s' := PromoteAt(s, i, size);
      if i + 1 <= |s'.lower| { PromoteKeepsFrames(s', i + 1, size, a); }
    }
  }

  lemma CountAtLeastOne(list: seq<PagedMemory>, i: nat, size: PageSize, a: nat)
    requires i < |list|
    ensures Count(list, size, a) >= One(list[i], size, a)
    decreases |list|
  {
    if i < |list| - 1 { CountAtLeastOne(list[..|list| - 1], i, size, a); }
  }

  lemma UnlistedRound(s: Lists, i: nat, size: PageSize, a: nat)
    requires size != Huge && i < |s.lower| && Ok2(s, size) && Cover2(s, size, a) == 0
    ensures Cover2(PromoteAt(s, i, size), size, a) == 0
  {
    var e := s.lower[i];
    if Promotes(e, size) {
      CountAtLeastOne(s.lower, i, size, a);
      BoundaryFacts(e, size);
      OneSplit(e.pageStart, e.numberOfPages, PagesBefore(e, size), size, a);
      RoundCounts(s, i, size, a);
    }
  }

  /** An address nobody lists stays unlisted. */
  lemma {:induction false} UnlistedStays(s: Lists, i: nat, size: PageSize, a: nat)
    requires size != Huge && i <= |s.lower| && Ok2(s, size) && Cover2(s, size, a) == 0
    ensures Cover2(Promote(s, i, size), size, a) == 0
    decreases Weight(s.lower[i..]), |s.lower| - i
  {
    if i < |s.lower| {
      RoundIsLighter(s, i, size);
      RoundKeepsOk(s, i, size);
      UnlistedRound(s, i, size, a);
      var s' := PromoteAt(s, i, size);
      if i + 1 <= |s'.lower| { UnlistedStays(s', i + 1, size, a); }
    }
  }

  /** A run that is promoted from the middle of a larger page loses its first address. */
  lemma MisalignedLoses(s: Lists, i: nat, size: PageSize)
    requires size != Huge && i < |s.lower| && Ok2(s, size)
    requires Promotes(s.lower[i], size) && s.lower[i].pageStart % Larger(size).Bytes() != 0
    ensures Cover2(PromoteAt(s, i, size), size, s.lower[i].pageStart) + 1 == Cover2(s, size, s.lower[i].pageStart)
  {
    var e := s.lower[i];
    var moved := e.numberOfPages - PagesBefore(e, size);
    BoundaryFacts(e, size);
    MulMono(1, moved, size.Bytes());
    MulMono(1, PagesBefore(e, size), size.Bytes());
    RoundCounts(s, i, size, e.pageStart);
  }

  ghost predicate SameFrames(s: Lists, s': Lists, size: PageSize)
    requires size != Huge
  {
    forall a: nat :: Cover2(s', size, a) == Cover2(s, size, a)
  }

  /** Promotion keeps the exact set of frames, of a list without overlaps, exactly when every run
      it promotes starts on a larger-page boundary. */
  lemma {:induction false} PromoteKeepsFramesIff(s: Lists, i: nat, size: PageSize)
    requires size != Huge && i <= |s.lower| && Ok2(s, size)
    requires forall a: nat :: Cover2(s, size, a) <= 1
    ensures SameFrames(s, Promote(s, i, size), size) <==> PromotedAligned(s, i, size)
    decreases Weight(s.lower[i..]), |s.lower| - i
  {
    if i < |s.lower| {
      RoundIsLighter(s, i, size);
      RoundKeepsOk(s, i, size);
      var e, s' := s.lower[i], PromoteAt(s, i, size);
      if Promotes(e, size) && e.pageStart % Larger(size).Bytes() != 0 {
        MisalignedLoses(s, i, size);
        if i + 1 <= |s'.lower| { UnlistedStays(s', i + 1, size, e.pageStart); }
        assert Cover2(Promote(s, i, size), size, e.pageStart) != Cover2(s, size, e.pageStart);
      } else {
        forall a: nat ensures Cover2(s', size, a) == Cover2(s, size, a) { RoundFromBoundary(s, i, size, a); }
        if i + 1 <= |s'.lower| {
          PromoteKeepsFramesIff(s', i + 1, size);
          assert SameFrames(s, Promote(s, i, size), size) <==> SameFrames(s', Promote(s', i + 1, size), size);
        }
      }
    }
  }

  /** A caller can check the list up front: when every long run starts on a boundary, nothing is
      lost. */
  lemma {:induction false} LongRunsAligned(s: Lists, i: nat, size: PageSize)
    requires size != Huge && i <= |s.lower| && Ok2(s, size)
    requires forall j :: 0 <= j < |s.lower| && s.lower[j].numberOfPages >= ENTRIES
               ==> s.lower[j].pageStart % Larger(size).Bytes() == 0
    ensures PromotedAligned(s, i, size)
    decreases Weight(s.lower[i..]), |s.lower| - i
  {
    if i < |s.lower| {
      RoundIsLighter(s, i, size);
      RoundKeepsOk(s, i, size);
      var s' := PromoteAt(s, i, size);
      if Promotes(s.lower[i], size) { BoundaryFacts(s.lower[i], size); }
      if i + 1 <= |s'.lower| { LongRunsAligned(s', i + 1, size); }
    }
  }

  /** 1023 pages from address 4096 contain one whole large page. Promoting it drops the first page
      of the run from the lists. */
  lemma PromotionCanLoseAFrame()
    ensures var s := Lists([PagedMemory(4096, 1023)], []);
            && Cover2(s, Base, 4096) == 1
            && Cover2(Promote(s, 0, Base), Base, 4096) == 0
  {
    var e := PagedMemory(4096, 1023);
    var s := Lists([e], []);
    CountSingle(e, Base, 4096);
    MisalignedLoses(s, 0, Base);
    RoundIsLighter(s, 0, Base);
    RoundKeepsOk(s, 0, Base);
    var s' := PromoteAt(s, 0, Base);
    if 1 <= |s'.lower| { UnlistedStays(s', 1, Base, 4096); }
  }

  // ---------------------------------------------------------------- what is promoted

  lemma LeastBoundary(v: nat, l: nat, b: nat)
    requires l > 0 && b % l == 0 && v <= b
    ensures (v + (l - 1)) / l * l <= b
  {
    CeilingOf(v, l);
    var up := (v + (l - 1)) / l * l;
    if up > b {
      DivMod(b, l, b / l, 0);
      assert up == (v + (l - 1)) / l * l && b == b / l * l;
      if (v + (l - 1)) / l >= b / l + 1 { MulMono(b / l + 1, (v + (l - 1)) / l, l); MulDist(b / l, 1, l); }
      else { MulMono((v + (l - 1)) / l, b / l, l); }
    }
  }

  /** A run is promoted if and only if it contains a whole larger page. */
  lemma PromotesExactly(e: PagedMemory, size: PageSize)
    requires size != Huge && EntryOk(e, size)
    ensures Promotes(e, size)
       <==> exists b: nat :: b % Larger(size).Bytes() == 0 && HoldsPage(e, size, b)
  {
    var b, l := RoundUp(e.pageStart, Larger(size)), Larger(size).Bytes();
    BoundaryFacts(e, size);
    RoundUpIs(e.pageStart, Larger(size));
    var before := PagesBefore(e, size);
    HoldsFrom(e, size, b, before);
    if exists c: nat :: c % l == 0 && HoldsPage(e, size, c) {
      var c: nat :| c % l == 0 && HoldsPage(e, size, c);
      LeastBoundary(e.pageStart, l, c);
      assert HoldsPage(e, size, b);
    }
  }

  /** The larger page at `b` lies in the run. */
  predicate HoldsPage(e: PagedMemory, size: PageSize, b: nat)
    requires size != Huge
  {
    e.pageStart <= b && b + Larger(size).Bytes() <= e.pageStart + e.numberOfPages * size.Bytes()
  }

  lemma HoldsFrom(e: PagedMemory, size: PageSize, b: nat, before: nat)
    requires size != Huge && b == e.pageStart + before * size.Bytes()
    ensures HoldsPage(e, size, b) <==> e.numberOfPages >= before + ENTRIES
  {
    var s := size.Bytes();
    assert Larger(size).Bytes() == ENTRIES * s;
    MulDist(before, ENTRIES, s);
    MulMono(0, before, s);
    if e.numberOfPages >= before + ENTRIES {
      MulMono(before + ENTRIES, e.numberOfPages, s);
    } else {
      MulStrict(e.numberOfPages, before + ENTRIES, s);
    }
  }

  /** A promoting round moves up all whole larger pages of the run, from the first boundary on, and what
      stays listed of the run is too short to be promoted. */
  lemma PromotesAllOf(e: PagedMemory, size: PageSize)
    requires size != Huge && EntryOk(e, size) && Promotes(e, size)
    ensures var b, l := RoundUp(e.pageStart, Larger(size)), Larger(size).Bytes();
            var k := Back(e, size).numberOfPages / ENTRIES;
            && Back(e, size).pageStart == b && k >= 1
            && b + k * l <= e.pageStart + e.numberOfPages * size.Bytes() < b + (k + 1) * l
    ensures e.numberOfPages - Back(e, size).numberOfPages < ENTRIES && Leftover(e, size).numberOfPages < ENTRIES
  {
    BoundaryFacts(e, size);
    var s, before := size.Bytes(), PagesBefore(e, size);
    var moved := Back(e, size).numberOfPages;
    WholePages(moved, moved / ENTRIES, s);
    MulDist(before, moved, s);
  }

  lemma WholePages(n: nat, k: nat, s: nat)
    requires k == n / ENTRIES && s > 0
    ensures k * (ENTRIES * s) <= n * s < (k + 1) * (ENTRIES * s)
  {
    MulAssoc(k, ENTRIES, s);
    MulAssoc(k + 1, ENTRIES, s);
    MulMono(k * ENTRIES, n, s);
    MulStrict(n, (k + 1) * ENTRIES, s);
  }

  // ---------------------------------------------------------------- room for the pieces

  /** Every round finds room for what it lists. */
  predicate WalkFits(s: Lists, i: nat, size: PageSize, lowerCap: nat, upperCap: nat)
    requires size != Huge && i <= |s.lower|
    decreases Weight(s.lower[i..]), |s.lower| - i
  {
    if i == |s.lower| then true
    else
      RoundIsLighter(s, i, size);
      var s' := PromoteAt(s, i, size);
      && RoundFits(s, i, size, lowerCap, upperCap)
      && (i + 1 <= |s'.lower| ==> WalkFits(s', i + 1, size, lowerCap, upperCap))
  }

  predicate RoundFits(s: Lists, i: nat, size: PageSize, lowerCap: nat, upperCap: nat)
    requires size != Huge && i < |s.lower|
  {
    |PromoteAt(s, i, size).lower| <= lowerCap && |PromoteAt(s, i, size).upper| <= upperCap
  }

  /** How many runs hold a whole larger page. */
  function Promotable(list: seq<PagedMemory>, size: PageSize): nat
    requires size != Huge
  {
    if list == [] then 0
    else Promotable(list[..|list| - 1], size) + if Promotes(list[|list| - 1], size) then 1 else 0
  }

  lemma {:induction false} PromotableConcat(s: seq<PagedMemory>, t: seq<PagedMemory>, size: PageSize)
    requires size != Huge
    ensures Promotable(s + t, size) == Promotable(s, size) + Promotable(t, size)
    decreases |t|
  {
    if t == [] {
      assert s + t == s;
    } else {
      PromotableConcat(s, t[..|t| - 1], size);
      assert (s + t)[..|s + t| - 1] == s + t[..|t| - 1];
    }
  }

  lemma PromotableOne(e: PagedMemory, size: PageSize)
    requires size != Huge
    ensures Promotable([e], size) == if Promotes(e, size) then 1 else 0
  {
    assert Promotable([e][..0], size) == 0;
  }

  /** A round leaves fewer of them behind it, and adds at most one entry to either list. */
  lemma RoundPromotesOne(s: Lists, i: nat, size: PageSize)
    requires size != Huge && i < |s.lower|
    ensures var s' := PromoteAt(s, i, size);
            var one := if Promotes(s.lower[i], size) then 1 else 0;
            && |s'.lower| <= |s.lower| + one && |s'.upper| == |s.upper| + one
            && one <= Promotable(s.lower[i..], size)
            && (i < |s'.lower| ==> Promotable(s'.lower[i + 1..], size) + one <= Promotable(s.lower[i..], size))
  {
    var e, s' := s.lower[i], PromoteAt(s, i, size);
    assert s.lower[i..] == [e] + s.lower[i + 1..];
    PromotableConcat([e], s.lower[i + 1..], size);
    PromotableOne(e, size);
    if Promotes(e, size) {
      var cut := DecreasePages(s.lower, i, Back(e, size).numberOfPages, size);
      var tail := if Leftover(e, size).numberOfPages > 0 then [Leftover(e, size)] else [];
      PromotableOne(Leftover(e, size), size);
      CutPromotesLess(s.lower, cut, i, size);
      if i < |cut| {
        assert s'.lower[i + 1..] == cut[i + 1..] + tail;
        PromotableConcat(cut[i + 1..], tail, size);
      } else if i < |s'.lower| {
        assert s'.lower[i + 1..] == [];
      }
    }
  }

  lemma CutPromotesLess(list: seq<PagedMemory>, cut: seq<PagedMemory>, i: nat, size: PageSize)
    requires size != Huge && i < |list| && |list| - 1 <= |cut| <= |list|
    requires forall j :: i < j < |cut| ==> cut[j] == list[j]
    ensures i < |cut| ==> Promotable(cut[i + 1..], size) <= Promotable(list[i + 1..], size)
  {
    if i < |cut| {
      if |cut| == |list| {
        assert cut[i + 1..] == list[i + 1..];
      } else {
        assert list[i + 1..] == cut[i + 1..] + [list[|cut|]];
        PromotableConcat(cut[i + 1..], [list[|cut|]], size);
      }
    }
  }

  /** As much room in both buffers as there are runs to promote is enough. */
  lemma {:induction false} RoomForRunsFits(s: Lists, i: nat, size: PageSize, lowerCap: nat, upperCap: nat)
    requires size != Huge && i <= |s.lower|
    requires |s.lower| + Promotable(s.lower[i..], size) <= lowerCap
    requires |s.upper| + Promotable(s.lower[i..], size) <= upperCap
    ensures WalkFits(s, i, size, lowerCap, upperCap)
    decreases Weight(s.lower[i..]), |s.lower| - i
  {
    if i < |s.lower| {
      RoundIsLighter(s, i, size);
      RoundPromotesOne(s, i, size);
      var s' := PromoteAt(s, i, size);
      if i + 1 <= |s'.lower| { RoomForRunsFits(s', i + 1, size, lowerCap, upperCap); }
    }
  }

  /** And no promotion ends with more entries than a buffer has slots. */
  lemma {:induction false} FittingWalkEnds(s: Lists, i: nat, size: PageSize, lowerCap: nat, upperCap: nat)
    requires size != Huge && i <= |s.lower| <= lowerCap && |s.upper| <= upperCap
    requires WalkFits(s, i, size, lowerCap, upperCap)
    ensures |Promote(s, i, size).lower| <= lowerCap && |Promote(s, i, size).upper| <= upperCap
    decreases Weight(s.lower[i..]), |s.lower| - i
  {
    if i < |s.lower| {
      RoundIsLighter(s, i, size);
      var s' := PromoteAt(s, i, size);
      if i + 1 <= |s'.lower| { FittingWalkEnds(s', i + 1, size, lowerCap, upperCap); }
    }
  }

  // ---------------------------------------------------------------- what stays behind

  /** After a round the walk steps on. The entry it leaves behind, perhaps one swapped in from the end,
      is never one that could be promoted. */
  predicate NeverSkips(s: Lists, i: nat, size: PageSize)
    requires size != Huge && i <= |s.lower|
    decreases Weight(s.lower[i..]), |s.lower| - i
  {
    if i == |s.lower| then true
    else
      RoundIsLighter(s, i, size);
      var s' := PromoteAt(s, i, size);
      && (i < |s'.lower| ==> !Promotes(s'.lower[i], size))
      && (i + 1 <= |s'.lower| ==> NeverSkips(s', i + 1, size))
  }

  predicate NonePromotes(list: seq<PagedMemory>, i: nat, size: PageSize)
    requires size != Huge
  {
    forall j :: i <= j < |list| ==> !Promotes(list[j], size)
  }

  lemma RoundKeepsPrefix(s: Lists, i: nat, size: PageSize)
    requires size != Huge && i < |s.lower|
    ensures i <= |PromoteAt(s, i, size).lower| && PromoteAt(s, i, size).lower[..i] == s.lower[..i]
  {
    RoundIsLighter(s, i, size);
  }

  lemma {:induction false} WalkKeepsPrefix(s: Lists, i: nat, size: PageSize)
    requires size != Huge && i <= |s.lower|
    ensures i <= |Promote(s, i, size).lower| && Promote(s, i, size).lower[..i] == s.lower[..i]
    decreases Weight(s.lower[i..]), |s.lower| - i
  {
    if i < |s.lower| {
      RoundIsLighter(s, i, size);
      RoundKeepsPrefix(s, i, size);
      var s' := PromoteAt(s, i, size);
      if i + 1 <= |s'.lower| {
        WalkKeepsPrefix(s', i + 1, size);
        assert Promote(s', i + 1, size).lower[..i + 1][..i] == s'.lower[..i + 1][..i];
        assert s'.lower[..i + 1][..i] == s'.lower[..i];
      }
    }
  }

  /** The walk leaves nothing that could be promoted if and only if it never steps over such an entry. */
  lemma {:induction false} PromotesAllExactly(s: Lists, i: nat, size: PageSize)
    requires size != Huge && i <= |s.lower|
    ensures NonePromotes(Promote(s, i, size).lower, i, size) <==> NeverSkips(s, i, size)
    decreases Weight(s.lower[i..]), |s.lower| - i
  {
    if i < |s.lower| {
      RoundIsLighter(s, i, size);
      var s' := PromoteAt(s, i, size);
      if i + 1 <= |s'.lower| {
        PromotesAllExactly(s', i + 1, size);
        WalkKeepsPrefix(s', i + 1, size);
        FirstOfRest(Promote(s', i + 1, size).lower, s'.lower, i, size);
      }
    }
  }

  lemma FirstOfRest(list: seq<PagedMemory>, was: seq<PagedMemory>, i: nat, size: PageSize)
    requires size != Huge && i < |was| && i < |list| && list[..i + 1] == was[..i + 1]
    ensures NonePromotes(list, i, size) <==> !Promotes(was[i], size) && NonePromotes(list, i + 1, size)
  {
    assert list[i] == list[..i + 1][i] == was[i];
  }

  /** It can: of two large pages worth of base pages the first is promoted, the second takes its slot, and
      stays. */
  lemma PromotionCanSkip()
    ensures var s := Lists([PagedMemory(0x20_0000, 512), PagedMemory(0x60_0000, 512)], []);
            !NeverSkips(s, 0, Base) && !NonePromotes(Promote(s, 0, Base).lower, 0, Base)
  {
    var first, second := PagedMemory(0x20_0000, 512), PagedMemory(0x60_0000, 512);
    var s := Lists([first, second], []);
    assert RoundUp(0x20_0000, Large) == 0x20_0000 && RoundUp(0x60_0000, Large) == 0x60_0000;
    assert PagesBefore(first, Base) == 0 && PagesBefore(second, Base) == 0;
    assert Promotes(first, Base) && Promotes(second, Base);
    assert Leftover(first, Base).numberOfPages == 0;
    assert PromoteAt(s, 0, Base).lower == [second];
    PromotesAllExactly(s, 0, Base);
  }
}
