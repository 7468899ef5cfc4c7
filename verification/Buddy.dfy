/** The buddy allocator: a section of memory cut into blocks whose headers hold a size and a
    free mark, changed in place by splitting and merging sweeps.

    A block is named by the offset of its header from the head of the section, and a header
    takes 16 bytes, so `size[o]` and `isFree[o]` mean something only where a block starts. */
module Buddy {
  import opened Bits
  import opened Options

  const HEADER: nat := 16

  /** Stepping by block size from `o` lands exactly on `e`, over blocks that are powers of two
      and have room for their headers. */
  ghost predicate Tiles(sz: seq<nat>, o: nat, e: nat)
    decreases e - o
  {
    o == e ||
    (o < e <= |sz| && PowerOfTwo(sz[o]) && HEADER <= sz[o] && o + sz[o] <= e
     && Tiles(sz, o + sz[o], e))
  }

  /** The offsets at which blocks start. */
  ghost function Starts(sz: seq<nat>, o: nat, e: nat): set<nat>
    requires Tiles(sz, o, e)
    decreases e - o
  {
    if o == e then {} else {o} + Starts(sz, o + sz[o], e)
  }

  /** The blocks in use, as (offset, size). */
  ghost function Used(sz: seq<nat>, fr: seq<bool>, o: nat, e: nat): set<(nat, nat)>
    requires Tiles(sz, o, e) && |fr| == |sz|
    decreases e - o
  {
    if o == e then {}
    else (if fr[o] then {} else {(o, sz[o])}) + Used(sz, fr, o + sz[o], e)
  }

  ghost function Count(sz: seq<nat>, o: nat, e: nat): nat
    requires Tiles(sz, o, e)
    decreases e - o
  {
    if o == e then 0 else 1 + Count(sz, o + sz[o], e)
  }

  ghost predicate Agree(sz: seq<nat>, fr: seq<bool>, sz2: seq<nat>, fr2: seq<bool>, o: nat, e: nat)
  {
    && |sz| == |fr| == |sz2| == |fr2|
    && forall i {:trigger sz2[i]} {:trigger fr2[i]} :: o <= i < e && i < |sz| ==> sz2[i] == sz[i] && fr2[i] == fr[i]
  }

  // ---- How tilings are put together and taken apart

  lemma {:induction false} Join(sz: seq<nat>, fr: seq<bool>, o: nat, m: nat, e: nat)
    requires |fr| == |sz| && o <= m <= e
    requires Tiles(sz, o, m) && Tiles(sz, m, e)
    ensures Tiles(sz, o, e)
    ensures Used(sz, fr, o, e) == Used(sz, fr, o, m) + Used(sz, fr, m, e)
    ensures Count(sz, o, e) == Count(sz, o, m) + Count(sz, m, e)
    ensures Starts(sz, o, e) == Starts(sz, o, m) + Starts(sz, m, e)
    decreases m - o
  {
    if o != m { Join(sz, fr, o + sz[o], m, e); }
  }

  lemma {:induction false} Frame(sz: seq<nat>, fr: seq<bool>, sz2: seq<nat>, fr2: seq<bool>, o: nat, e: nat)
    requires Tiles(sz, o, e) && Agree(sz, fr, sz2, fr2, o, e)
    ensures Tiles(sz2, o, e)
    ensures Used(sz2, fr2, o, e) == Used(sz, fr, o, e)
    ensures Count(sz2, o, e) == Count(sz, o, e)
    decreases e - o
  {
    if o != e { Frame(sz, fr, sz2, fr2, o + sz[o], e); }
  }

  lemma {:induction false} TilesBounds(sz: seq<nat>, o: nat, e: nat)
    requires Tiles(sz, o, e)
    ensures o <= e
    decreases e - o
  {
    if o != e { TilesBounds(sz, o + sz[o], e); }
  }

  lemma {:induction false} UsedInside(sz: seq<nat>, fr: seq<bool>, o: nat, e: nat, u: (nat, nat))
    requires Tiles(sz, o, e) && |fr| == |sz| && u in Used(sz, fr, o, e)
    ensures o <= u.0 && u.0 + u.1 <= e && HEADER <= u.1 && PowerOfTwo(u.1)
    ensures u.0 < |sz| && u.1 == sz[u.0] && !fr[u.0]
    decreases e - o
  {
    if u == (o, sz[o]) && !fr[o] { TilesBounds(sz, o + sz[o], e); } else { UsedInside(sz, fr, o + sz[o], e, u); }
  }

  /** Two blocks in use never overlap. */
  lemma {:induction false} UsedDisjoint(sz: seq<nat>, fr: seq<bool>, o: nat, e: nat, u: (nat, nat), v: (nat, nat))
    requires Tiles(sz, o, e) && |fr| == |sz|
    requires u in Used(sz, fr, o, e) && v in Used(sz, fr, o, e) && u != v
    ensures u.0 + u.1 <= v.0 || v.0 + v.1 <= u.0
    decreases e - o
  {
    var n := o + sz[o];
    if u in Used(sz, fr, n, e) {
      UsedInside(sz, fr, n, e, u);
      if v in Used(sz, fr, n, e) { UsedDisjoint(sz, fr, n, e, u, v); }
    } else {
      UsedInside(sz, fr, n, e, v);
    }
  }

  /** Whatever is written where no block starts, into data or over the headers of merged blocks,
      changes neither the tiling nor the blocks in use. */
  lemma {:induction false} OnlyHeadersMatter(sz: seq<nat>, fr: seq<bool>, sz2: seq<nat>, fr2: seq<bool>, o: nat, e: nat)
    requires Tiles(sz, o, e) && |sz| == |fr| == |sz2| == |fr2|
    requires forall b {:trigger sz2[b]} {:trigger fr2[b]} :: b in Starts(sz, o, e) && b < |sz| ==>
               sz2[b] == sz[b] && fr2[b] == fr[b]
    ensures Tiles(sz2, o, e) && Used(sz2, fr2, o, e) == Used(sz, fr, o, e)
    decreases e - o
  {
    if o != e { OnlyHeadersMatter(sz, fr, sz2, fr2, o + sz[o], e); }
  }

  /** A used block is known wherever the tiling is cut at its start. */
  lemma {:induction false} SplitAt(sz: seq<nat>, fr: seq<bool>, o: nat, e: nat, b: nat)
    requires Tiles(sz, o, e) && |fr| == |sz| && b in Starts(sz, o, e)
    ensures o <= b < e && Tiles(sz, o, b) && Tiles(sz, b, e)
    decreases e - o
  {
    if b != o { SplitAt(sz, fr, o + sz[o], e, b); } else { TilesBounds(sz, o + sz[o], e); }
  }

  lemma {:induction false} UsedStarts(sz: seq<nat>, fr: seq<bool>, o: nat, e: nat, u: (nat, nat))
    requires Tiles(sz, o, e) && |fr| == |sz| && u in Used(sz, fr, o, e)
    ensures u.0 in Starts(sz, o, e)
    decreases e - o
  {
    if u !in {(o, sz[o])} || fr[o] { UsedStarts(sz, fr, o + sz[o], e, u); }
  }

  // ---- The three local changes

  lemma Doubled(n: nat)
    requires PowerOfTwo(n)
    ensures PowerOfTwo(2 * n)
  {
    var k: nat :| n == Pow2(k);
    assert 2 * n == Pow2(k + 1);
  }

  lemma Halved(n: nat)
    requires PowerOfTwo(n) && n > 1
    ensures PowerOfTwo(n / 2) && 2 * (n / 2) == n
  {
    var k: nat :| n == Pow2(k);
    assert k > 0;
    HalvedPower(k - 1, n);
  }

  lemma HalvedPower(k: nat, n: nat)
    requires n == Pow2(k + 1)
    ensures PowerOfTwo(n / 2) && 2 * (n / 2) == n
  {
    assert n == 2 * Pow2(k);
    assert n / 2 == Pow2(k);
  }

  lemma JoinThree(sz: seq<nat>, fr: seq<bool>, b: nat, n: nat, e: nat)
    requires |fr| == |sz| && b <= n <= e
    requires Tiles(sz, 0, b) && Tiles(sz, b, n) && Tiles(sz, n, e)
    ensures Tiles(sz, 0, e)
    ensures Used(sz, fr, 0, e) == Used(sz, fr, 0, b) + Used(sz, fr, b, n) + Used(sz, fr, n, e)
    ensures Count(sz, 0, e) == Count(sz, 0, b) + Count(sz, b, n) + Count(sz, n, e)
  {
    Join(sz, fr, 0, b, n);
    Join(sz, fr, 0, n, e);
  }

  /** Changing the headers of one stretch of the tiling. */
  lemma Replace(sz: seq<nat>, fr: seq<bool>, sz2: seq<nat>, fr2: seq<bool>, b: nat, n: nat, e: nat)
    requires |fr| == |sz| == |sz2| == |fr2| && b <= n <= e
    requires Tiles(sz, 0, b) && Tiles(sz, b, n) && Tiles(sz, n, e) && Tiles(sz2, b, n)
    requires Agree(sz, fr, sz2, fr2, 0, b) && Agree(sz, fr, sz2, fr2, n, e)
    requires Used(sz, fr, b, n) == Used(sz2, fr2, b, n)
    ensures Tiles(sz, 0, e) && Tiles(sz2, 0, b) && Tiles(sz2, n, e) && Tiles(sz2, 0, e)
    ensures Used(sz2, fr2, 0, e) == Used(sz, fr, 0, e)
    ensures Count(sz2, 0, e) - Count(sz, 0, e) == Count(sz2, b, n) - Count(sz, b, n)
  {
    Frame(sz, fr, sz2, fr2, 0, b);
    Frame(sz, fr, sz2, fr2, n, e);
    JoinThree(sz, fr, b, n, e);
    JoinThree(sz2, fr2, b, n, e);
  }

  /** A free block of size `h` reaches `h` further and holds no block in use. */
  lemma OneFree(sz: seq<nat>, fr: seq<bool>, b: nat, h: nat)
    requires |fr| == |sz| && b + h <= |sz| && HEADER <= h && PowerOfTwo(h) && sz[b] == h && fr[b]
    ensures Tiles(sz, b, b + h) && Used(sz, fr, b, b + h) == {} && Count(sz, b, b + h) == 1
  {
    assert Tiles(sz, b + h, b + h);
    assert Used(sz, fr, b + h, b + h) == {};
  }

  lemma TwoFree(sz: seq<nat>, fr: seq<bool>, b: nat, h: nat)
    requires |fr| == |sz| && b + h + h <= |sz| && HEADER <= h && PowerOfTwo(h)
    requires sz[b] == sz[b + h] == h && fr[b] && fr[b + h]
    ensures Tiles(sz, b, b + h + h) && Used(sz, fr, b, b + h + h) == {} && Count(sz, b, b + h + h) == 2
    ensures Tiles(sz, b, b + h) && Tiles(sz, b + h, b + h + h)
  {
    OneFree(sz, fr, b, h);
    OneFree(sz, fr, b + h, h);
    Join(sz, fr, b, b + h, b + h + h);
  }

  lemma Step(sz: seq<nat>, o: nat, e: nat)
    requires Tiles(sz, o, e) && o < e
    ensures e <= |sz| && PowerOfTwo(sz[o]) && HEADER <= sz[o] && o + sz[o] <= e && Tiles(sz, o + sz[o], e)
  {
  }

  /** Merging a free block with the free block of the same size after it. */
  lemma MergeKeeps(sz: seq<nat>, fr: seq<bool>, b: nat, h: nat, e: nat, sz2: seq<nat>)
    requires |fr| == |sz| == |sz2| && Tiles(sz, 0, b) && b < e && Tiles(sz, b, e)
    requires b + h < e && sz[b] == sz[b + h] == h && fr[b] && fr[b + h]
    requires sz2 == sz[b := 2 * h]
    ensures Tiles(sz2, 0, b) && b + 2 * h <= e && Tiles(sz2, b + 2 * h, e)
    ensures Tiles(sz2, b, e) && Tiles(sz2, 0, e) && Tiles(sz, 0, e)
    ensures Used(sz2, fr, 0, e) == Used(sz, fr, 0, e)
    ensures Count(sz2, 0, e) == Count(sz, 0, e) - 1
  {
    Step(sz, b, e);
    Step(sz, b + h, e);
    Doubled(h);
    TwoFree(sz, fr, b, h);
    OneFree(sz2, fr, b, 2 * h);
    Replace(sz, fr, sz2, fr, b, b + 2 * h, e);
    Join(sz2, fr, b, b + 2 * h, e);
  }

  /** Splitting a free block into two free halves. */
  lemma SplitKeeps(sz: seq<nat>, fr: seq<bool>, b: nat, h: nat, e: nat, sz2: seq<nat>, fr2: seq<bool>)
    requires |fr| == |sz| && Tiles(sz, 0, b) && b < e && Tiles(sz, b, e) && fr[b]
    requires HEADER <= h && sz[b] == 2 * h
    requires sz2 == sz[b := h][b + h := h] && fr2 == fr[b + h := true]
    ensures Tiles(sz2, 0, b + h) && Tiles(sz2, b + h, e) && b + h < e
    ensures Tiles(sz2, 0, e) && Tiles(sz, 0, e) && Used(sz2, fr2, 0, e) == Used(sz, fr, 0, e)
  {
    Step(sz, b, e);
    Halved(sz[b]);
    OneFree(sz, fr, b, 2 * h);
    TwoFree(sz2, fr2, b, h);
    Replace(sz, fr, sz2, fr2, b, b + h + h, e);
    Join(sz2, fr2, 0, b, b + h);
    Join(sz2, fr2, b + h, b + h + h, e);
  }

  /** Marking a free block as used adds it and nothing else. */
  lemma MarkUsed(sz: seq<nat>, fr: seq<bool>, b: nat, e: nat, fr2: seq<bool>)
    requires |fr| == |sz| && Tiles(sz, 0, b) && b < e && Tiles(sz, b, e) && fr[b]
    requires fr2 == fr[b := false]
    ensures Tiles(sz, 0, e) && Used(sz, fr2, 0, e) == Used(sz, fr, 0, e) + {(b, sz[b])}
    ensures (b, sz[b]) !in Used(sz, fr, 0, e)
  {
    Join(sz, fr, 0, b, e);
    Join(sz, fr2, 0, b, e);
    Frame(sz, fr, sz, fr2, 0, b);
    MarkHead(sz, fr, b, e, fr2);
    if (b, sz[b]) in Used(sz, fr, 0, e) { UsedInside(sz, fr, 0, e, (b, sz[b])); }
  }

  lemma MarkHead(sz: seq<nat>, fr: seq<bool>, b: nat, e: nat, fr2: seq<bool>)
    requires |fr| == |sz| && b < e && Tiles(sz, b, e) && fr[b] && fr2 == fr[b := false]
    ensures Used(sz, fr2, b, e) == Used(sz, fr, b, e) + {(b, sz[b])}
  {
    Step(sz, b, e);
    Frame(sz, fr, sz, fr2, b + sz[b], e);
  }

  /** Marking a used block as free removes it and nothing else. */
  lemma MarkFree(sz: seq<nat>, fr: seq<bool>, b: nat, e: nat, fr2: seq<bool>)
    requires |fr| == |sz| && Tiles(sz, 0, e) && b < |sz| && (b, sz[b]) in Used(sz, fr, 0, e)
    requires fr2 == fr[b := true]
    ensures Used(sz, fr2, 0, e) == Used(sz, fr, 0, e) - {(b, sz[b])}
  {
    UsedInside(sz, fr, 0, e, (b, sz[b]));
    UsedStarts(sz, fr, 0, e, (b, sz[b]));
    SplitAt(sz, fr, 0, e, b);
    assert fr == fr2[b := false];
    MarkUsed(sz, fr2, b, e, fr);
  }

  lemma StepTo(sz: seq<nat>, fr: seq<bool>, b: nat, e: nat)
    requires |fr| == |sz| && Tiles(sz, 0, b) && b < e && Tiles(sz, b, e)
    ensures Tiles(sz, 0, b + sz[b])
  {
    assert Tiles(sz, b + sz[b], b + sz[b]);
    Join(sz, fr, 0, b, b + sz[b]);
  }

  /** The best block so far is free, large enough and at a cut of the tiling at or before the
      sweep's left cursor. */
  ghost predicate Candidate(sz: seq<nat>, fr: seq<bool>, best: nat, block: nat, request: nat) {
    |fr| == |sz| && best < |sz| && best <= block && Tiles(sz, 0, best) && Tiles(sz, best, block) && fr[best]
      && request <= sz[best]
  }

  lemma CandidateMoves(sz: seq<nat>, fr: seq<bool>, best: nat, block: nat, request: nat)
    requires Candidate(sz, fr, best, block, request) && block < |sz| && Tiles(sz, block, |sz|)
    ensures Candidate(sz, fr, best, block + sz[block], request)
  {
    Step(sz, block, |sz|);
    assert Tiles(sz, block + sz[block], block + sz[block]);
    Join(sz, fr, best, block, block + sz[block]);
  }

  lemma CandidateLives(sz: seq<nat>, fr: seq<bool>, best: nat, block: nat, e: nat, request: nat)
    requires Candidate(sz, fr, best, block, request) && Tiles(sz, block, e) && block <= e
    ensures Tiles(sz, best, e)
  {
    Join(sz, fr, best, block, e);
  }

  lemma CandidateKept(sz: seq<nat>, sz2: seq<nat>, fr: seq<bool>, best: nat, block: nat, request: nat)
    requires Candidate(sz, fr, best, block, request) && block < |sz|
    requires sz2 == sz[block := 2 * sz[block]]
    ensures Candidate(sz2, fr, best, block, request)
  {
    Frame(sz, fr, sz2, fr, 0, best);
    Frame(sz, fr, sz2, fr, best, block);
  }

  // ---- What a search that fails, and a coalescing that ends, say about the blocks

  /** Every free block has such a size. */
  ghost predicate AllFree(sz: seq<nat>, fr: seq<bool>, o: nat, e: nat, p: nat -> bool)
    requires Tiles(sz, o, e) && |fr| == |sz|
    decreases e - o
  {
    o == e || ((fr[o] ==> p(sz[o])) && AllFree(sz, fr, o + sz[o], e, p))
  }

  /** Every free block has such a size, the last one excepted. */
  ghost predicate AllFreeButLast(sz: seq<nat>, fr: seq<bool>, o: nat, e: nat, p: nat -> bool)
    requires Tiles(sz, o, e) && |fr| == |sz|
    decreases e - o
  {
    o == e || o + sz[o] == e || ((fr[o] ==> p(sz[o])) && AllFreeButLast(sz, fr, o + sz[o], e, p))
  }

  /** Not large enough for the request. */
  ghost function TooShort(request: nat): nat -> bool {
    (s: nat) => s < request
  }

  /** Not large enough, or not below the bound. */
  ghost function NotBelow(request: nat, bound: nat): nat -> bool {
    (s: nat) => request <= s ==> bound <= s
  }

  /** No free block is large enough, the last one excepted. */
  ghost predicate SmallButLast(sz: seq<nat>, fr: seq<bool>, o: nat, e: nat, request: nat)
    requires Tiles(sz, o, e) && |fr| == |sz|
  {
    AllFreeButLast(sz, fr, o, e, TooShort(request))
  }

  lemma {:induction false} AllFreeGrows(sz: seq<nat>, fr: seq<bool>, o: nat, b: nat, p: nat -> bool)
    requires |fr| == |sz| && Tiles(sz, o, b) && b < |sz| && Tiles(sz, b, |sz|)
    requires AllFree(sz, fr, o, b, p) && (fr[b] ==> p(sz[b]))
    ensures Tiles(sz, o, b + sz[b]) && AllFree(sz, fr, o, b + sz[b], p)
    decreases b - o
  {
    Step(sz, b, |sz|);
    if o == b {
      assert Tiles(sz, b + sz[b], b + sz[b]);
    } else {
      TilesBounds(sz, o + sz[o], b);
      AllFreeGrows(sz, fr, o + sz[o], b, p);
    }
  }

  lemma {:induction false} AllFreeFrame(sz: seq<nat>, fr: seq<bool>, sz2: seq<nat>, o: nat, e: nat, p: nat -> bool)
    requires Tiles(sz, o, e) && Agree(sz, fr, sz2, fr, o, e) && AllFree(sz, fr, o, e, p)
    ensures Tiles(sz2, o, e) && AllFree(sz2, fr, o, e, p)
    decreases e - o
  {
    Frame(sz, fr, sz2, fr, o, e);
    if o != e { AllFreeFrame(sz, fr, sz2, o + sz[o], e, p); }
  }

  lemma {:induction false} AllFreeWeaken(sz: seq<nat>, fr: seq<bool>, o: nat, e: nat, p: nat -> bool, q: nat -> bool)
    requires Tiles(sz, o, e) && |fr| == |sz| && AllFree(sz, fr, o, e, p) && forall n: nat :: p(n) ==> q(n)
    ensures AllFree(sz, fr, o, e, q)
    decreases e - o
  {
    if o != e { AllFreeWeaken(sz, fr, o + sz[o], e, p, q); }
  }

  /** A search that ran to the tail, or to the last block, has seen all others. */
  lemma {:induction false} SearchSawAll(sz: seq<nat>, fr: seq<bool>, o: nat, b: nat, e: nat, p: nat -> bool)
    requires |fr| == |sz| && Tiles(sz, o, b) && Tiles(sz, b, e) && Tiles(sz, o, e) && AllFree(sz, fr, o, b, p)
    requires b == e || b + sz[b] == e
    ensures AllFreeButLast(sz, fr, o, e, p)
    decreases b - o
  {
    if o != b { SearchSawAll(sz, fr, o + sz[o], b, e, p); }
  }

  /** That is a statement about each free block but the last. */
  lemma {:induction false} SeenBlock(sz: seq<nat>, fr: seq<bool>, o: nat, e: nat, p: nat -> bool, b: nat)
    requires Tiles(sz, o, e) && |fr| == |sz| && AllFreeButLast(sz, fr, o, e, p)
    requires b in Starts(sz, o, e) && b < e && fr[b] && b + sz[b] != e
    ensures p(sz[b])
    decreases e - o
  {
    if b != o {
      SeenBlock(sz, fr, o + sz[o], e, p, b);
    }
  }

  /** After a failed search any free block but the last is too small. */
  lemma TooSmall(sz: seq<nat>, fr: seq<bool>, e: nat, request: nat, b: nat)
    requires Tiles(sz, 0, e) && |fr| == |sz| && SmallButLast(sz, fr, 0, e, request)
    requires b in Starts(sz, 0, e) && b < e && fr[b] && b + sz[b] != e
    ensures sz[b] < request
  {
    SeenBlock(sz, fr, 0, e, TooShort(request), b);
  }

  // ---- What a search picks

  /** A block that a search picked: it fits, and no free block that fits, but perhaps the last, is below
      the bound, which is at least half its size. */
  ghost predicate BestFit(sz: seq<nat>, fr: seq<bool>, from: nat, bound: nat, request: nat, e: nat) {
    && |fr| == |sz| && Tiles(sz, 0, e) && from < e <= |sz| && fr[from] && request <= sz[from] <= 2 * bound
    && AllFreeButLast(sz, fr, 0, e, NotBelow(request, bound))
  }

  lemma PowersApart(x: nat, y: nat)
    requires PowerOfTwo(x) && PowerOfTwo(y) && x < y
    ensures 2 * x <= y
  {
    var j: nat :| x == Pow2(j);
    var k: nat :| y == Pow2(k);
    if j >= k { Pow2Mono(k, j); } else { Pow2Mono(j + 1, k); }
  }

  /** The best block so far fits, and of the free blocks before `block` that fit none is below the bound;
      if there is none, no free block before `block` fits. The bound is the size of the best block, or
      half of it when that block was merged after it was picked. */
  ghost predicate BestSoFar(sz: seq<nat>, fr: seq<bool>, best: Option<nat>, bound: nat, block: nat, request: nat) {
    |fr| == |sz| && Tiles(sz, 0, block) &&
    if best.Some? then
      && Candidate(sz, fr, best.value, block, request)
      && (bound == sz[best.value] || (2 * bound == sz[best.value] && best.value < block))
      && AllFree(sz, fr, 0, block, NotBelow(request, bound))
    else AllFree(sz, fr, 0, block, TooShort(request))
  }

  /** A block that fits and is below the best so far takes its place. */
  lemma BestTaken(sz: seq<nat>, fr: seq<bool>, best: Option<nat>, bound: nat, block: nat, request: nat)
    requires BestSoFar(sz, fr, best, bound, block, request) && block < |sz| && Tiles(sz, block, |sz|)
    requires fr[block] && request <= sz[block] && (best.Some? ==> sz[block] < sz[best.value])
    ensures BestSoFar(sz, fr, Some(block), sz[block], block, request)
  {
    Step(sz, block, |sz|);
    if best.Some? {
      CandidatePower(sz, fr, best.value, block, request);
      PowersApart(sz[block], sz[best.value]);
      AllFreeWeaken(sz, fr, 0, block, NotBelow(request, bound), NotBelow(request, sz[block]));
    } else {
      AllFreeWeaken(sz, fr, 0, block, TooShort(request), NotBelow(request, sz[block]));
    }
    assert Tiles(sz, block, block);
  }

  lemma CandidatePower(sz: seq<nat>, fr: seq<bool>, best: nat, block: nat, request: nat)
    requires Candidate(sz, fr, best, block, request) && block < |sz| && Tiles(sz, block, |sz|)
    ensures PowerOfTwo(sz[best])
  {
    if best == block { Step(sz, block, |sz|); }
  }

  /** Behind a block that was looked at. */
  lemma BestMoves(sz: seq<nat>, fr: seq<bool>, best: Option<nat>, bound: nat, block: nat, request: nat)
    requires BestSoFar(sz, fr, best, bound, block, request) && block < |sz| && Tiles(sz, block, |sz|)
    requires fr[block] && request <= sz[block] ==> best.Some? && bound <= sz[block]
    ensures BestSoFar(sz, fr, best, bound, block + sz[block], request)
  {
    Step(sz, block, |sz|);
    if best.Some? {
      CandidateMoves(sz, fr, best.value, block, request);
      AllFreeGrows(sz, fr, 0, block, NotBelow(request, bound));
    } else {
      AllFreeGrows(sz, fr, 0, block, TooShort(request));
    }
  }

  /** The choice behind a merge at `block`. */
  function Picked(sz: seq<nat>, best: Option<nat>, block: nat, request: nat): Option<nat>
    requires block < |sz| && (best.Some? ==> best.value < |sz|)
  {
    if request <= sz[block] && (best.None? || sz[block] <= sz[best.value]) then Some(block) else best
  }

  lemma BestMerged(sz: seq<nat>, sz2: seq<nat>, fr: seq<bool>, best: Option<nat>, bound: nat, block: nat, request: nat)
    returns (bound2: nat)
    requires BestSoFar(sz, fr, best, bound, block, request) && block < |sz| && Tiles(sz, block, |sz|)
    requires sz2 == sz[block := 2 * sz[block]] && Tiles(sz2, block, |sz2|) && fr[block]
    ensures best.Some? ==> best.value < |sz2|
    ensures BestSoFar(sz2, fr, Picked(sz2, best, block, request), bound2, block + sz2[block], request)
  {
    if best.None? {
      bound2 := MergedFirst(sz, sz2, fr, block, request);
    } else {
      bound2 := MergedLater(sz, sz2, fr, best.value, bound, block, request);
    }
  }

  lemma MergedFirst(sz: seq<nat>, sz2: seq<nat>, fr: seq<bool>, block: nat, request: nat) returns (bound2: nat)
    requires BestSoFar(sz, fr, None, 0, block, request) && block < |sz| && Tiles(sz, block, |sz|)
    requires sz2 == sz[block := 2 * sz[block]] && Tiles(sz2, block, |sz2|) && fr[block]
    ensures BestSoFar(sz2, fr, Picked(sz2, None, block, request), bound2, block + sz2[block], request)
  {
    bound2 := sz2[block];
    AllFreeFrame(sz, fr, sz2, 0, block, TooShort(request));
    if request <= sz2[block] { BestTaken(sz2, fr, None, 0, block, request); }
    BestMoves(sz2, fr, Picked(sz2, None, block, request), bound2, block, request);
  }

  lemma MergedLater(sz: seq<nat>, sz2: seq<nat>, fr: seq<bool>, best: nat, bound: nat, block: nat, request: nat)
    returns (bound2: nat)
    requires BestSoFar(sz, fr, Some(best), bound, block, request) && block < |sz| && Tiles(sz, block, |sz|)
    requires sz2 == sz[block := 2 * sz[block]] && Tiles(sz2, block, |sz2|) && fr[block]
    ensures BestSoFar(sz2, fr, Picked(sz2, Some(best), block, request), bound2, block + sz2[block], request)
  {
    Step(sz2, block, |sz2|);
    CandidatePower(sz, fr, best, block, request);
    CandidateKept(sz, sz2, fr, best, block, request);
    AllFreeFrame(sz, fr, sz2, 0, block, NotBelow(request, bound));
    var pick := Picked(sz2, Some(best), block, request);
    if best != block && sz2[block] < sz[best] { PowersApart(sz2[block], sz[best]); }
    bound2 := if pick == Some(block) && sz2[block] <= bound then sz2[block] else bound;
    AllFreeWeaken(sz2, fr, 0, block, NotBelow(request, bound), NotBelow(request, bound2));
    Assemble(sz2, fr, pick.value, bound2, block, request);
  }

  lemma Assemble(sz: seq<nat>, fr: seq<bool>, best: nat, bound: nat, block: nat, request: nat)
    requires |fr| == |sz| && block < |sz| && Tiles(sz, 0, block) && Tiles(sz, block, |sz|)
    requires best <= block && Tiles(sz, 0, best) && Tiles(sz, best, block) && fr[best] && request <= sz[best]
    requires bound == sz[best] || 2 * bound == sz[best]
    requires AllFree(sz, fr, 0, block, NotBelow(request, bound))
    requires fr[block] && request <= sz[block] ==> bound <= sz[block]
    ensures BestSoFar(sz, fr, Some(best), bound, block + sz[block], request)
  {
    Step(sz, block, |sz|);
    CandidateMoves(sz, fr, best, block, request);
    AllFreeGrows(sz, fr, 0, block, NotBelow(request, bound));
  }

  // ---- Merging only makes a tiling coarser

  ghost predicate Coarser(sz2: seq<nat>, sz: seq<nat>, e: nat) {
    && Tiles(sz2, 0, e) && Tiles(sz, 0, e)
    && Starts(sz2, 0, e) <= Starts(sz, 0, e) && Count(sz2, 0, e) <= Count(sz, 0, e)
  }

  lemma CoarserStill(sz3: seq<nat>, sz2: seq<nat>, sz: seq<nat>, e: nat)
    requires Coarser(sz3, sz2, e) && Coarser(sz2, sz, e)
    ensures Coarser(sz3, sz, e)
  {
  }

  lemma {:induction false} FrameStarts(sz: seq<nat>, fr: seq<bool>, sz2: seq<nat>, o: nat, e: nat)
    requires Tiles(sz, o, e) && Agree(sz, fr, sz2, fr, o, e)
    ensures Tiles(sz2, o, e) && Starts(sz2, o, e) == Starts(sz, o, e)
    decreases e - o
  {
    if o != e { FrameStarts(sz, fr, sz2, o + sz[o], e); }
  }

  lemma MergeIsCoarser(sz: seq<nat>, fr: seq<bool>, b: nat, h: nat, e: nat, sz2: seq<nat>)
    requires |fr| == |sz| == |sz2| && Tiles(sz, 0, b) && b < e && Tiles(sz, b, e)
    requires b + h < e && sz[b] == sz[b + h] == h && fr[b] && fr[b + h] && sz2 == sz[b := 2 * h]
    ensures Coarser(sz2, sz, e)
  {
    MergeKeeps(sz, fr, b, h, e, sz2);
    Join(sz, fr, 0, b, e);
    Join(sz2, fr, 0, b, e);
    FrameStarts(sz, fr, sz2, 0, b);
    MergedStarts(sz, fr, b, h, e, sz2);
  }

  lemma MergedStarts(sz: seq<nat>, fr: seq<bool>, b: nat, h: nat, e: nat, sz2: seq<nat>)
    requires |fr| == |sz| == |sz2| && Tiles(sz, b, e) && Tiles(sz2, b, e) && b < e && b + h < e
    requires sz[b] == sz[b + h] == h && sz2 == sz[b := 2 * h]
    ensures Starts(sz2, b, e) <= Starts(sz, b, e)
  {
    Step(sz, b, e);
    Step(sz, b + h, e);
    FrameStarts(sz, fr, sz2, b + h + h, e);
  }

  /** No two blocks that a coalescing sweep compares could be merged. */
  ghost predicate Settled(sz: seq<nat>, fr: seq<bool>, o: nat, e: nat)
    requires Tiles(sz, o, e) && |fr| == |sz|
    decreases e - o
  {
    o == e || o + sz[o] == e ||
    (var n := o + sz[o];
     assert Tiles(sz, n, e);
     && !(fr[o] && fr[n] && sz[o] == sz[n])
     && if sz[o] > sz[n] then Settled(sz, fr, n, e) else Settled(sz, fr, n + sz[n], e))
  }

  ghost predicate LastFree(sz: seq<nat>, fr: seq<bool>, o: nat, e: nat)
    requires Tiles(sz, o, e) && |fr| == |sz|
    decreases e - o
  {
    o < e && ((o + sz[o] == e && fr[o]) || LastFree(sz, fr, o + sz[o], e))
  }

  lemma {:induction false} LastFreeAt(sz: seq<nat>, fr: seq<bool>, o: nat, b: nat, e: nat)
    requires |fr| == |sz| && Tiles(sz, o, b) && b < e && Tiles(sz, b, e) && Tiles(sz, o, e)
    requires b + sz[b] == e && fr[b]
    ensures LastFree(sz, fr, o, e)
    decreases b - o
  {
    if o != b {
      TilesBounds(sz, o + sz[o], b);
      LastFreeAt(sz, fr, o + sz[o], b, e);
    }
  }

  /** The test `size * 2 < block->size` on 64-bit words decides what it says exactly when the
      doubled request does not wrap to something below the block's size. */
  lemma DoublingTest(request: U64, block: U64)
    ensures ((2 * request) % TWO64 < block <==> 2 * request < block)
            <==> (request < TWO63 || block <= 2 * request - TWO64)
  {
  }

  /** A request of 2^63 bytes would have a block of 64 bytes split. */
  lemma DoublingCanWrap()
    ensures (2 * TWO63) % TWO64 < 64 && !(2 * TWO63 < 64)
  {
  }

  class BuddyAllocator {
    const size: array<nat>
    const isFree: array<bool>
    const tail: nat

    ghost predicate Valid()
      reads this, size, isFree
    {
      size.Length == isFree.Length == tail && 0 < tail < TWO64 && Tiles(size[..], 0, tail)
    }

    ghost function InUse(): set<(nat, nat)>
      requires Valid()
      reads this, size, isFree
    {
      Used(size[..], isFree[..], 0, tail)
    }

    /** A live free block: the tiling can be cut where it starts. */
    ghost predicate LiveFree(b: nat)
      requires Valid()
      reads this, size, isFree
    {
      b < tail && Tiles(size[..], 0, b) && Tiles(size[..], b, tail) && isFree[b]
    }

    constructor (bytes: U64)
      requires PowerOfTwo(bytes) && bytes > HEADER
      ensures Valid() && fresh(size) && fresh(isFree) && tail == bytes
      ensures InUse() == {} && LiveFree(0) && size[0] == tail
    {
      size := new nat[bytes](_ => bytes);
      isFree := new bool[bytes](_ => true);
      tail := bytes;
      new;
      assert Tiles(size[..], tail, tail);
      assert Used(size[..], isFree[..], tail, tail) == {};
    }

    /** Merges the free block `block` with the free block of its size after it. */
    method Merge(block: nat)
      requires Valid() && LiveFree(block) && block + size[block] < tail
      requires isFree[block + size[block]] && size[block + size[block]] == size[block]
      modifies size
      ensures Valid() && InUse() == old(InUse()) && LiveFree(block)
      ensures size[..] == old(size[..])[block := 2 * old(size[block])]
      ensures Tiles(size[..], block + size[block], tail)
      ensures Count(size[..], 0, tail) == old(Count(size[..], 0, tail)) - 1
      ensures Coarser(size[..], old(size[..]), tail)
    {
      ghost var was: seq<nat> := size[..];
      ghost var h := size[block];
      Step(was, block, tail);
      Step(was, block + h, tail);
      size[block] := (2 * size[block]) % TWO64;
      MergeKeeps(was, isFree[..], block, h, tail, size[..]);
      MergeIsCoarser(was, isFree[..], block, h, tail, size[..]);
    }

    /** Cuts a free block in two free halves; returns the upper one. */
    method Halve(block: nat) returns (upper: nat)
      requires Valid() && LiveFree(block) && 2 * HEADER <= size[block]
      modifies size, isFree
      ensures Valid() && InUse() == old(InUse()) && LiveFree(upper)
      ensures upper == block + old(size[block]) / 2 && 2 * size[upper] == old(size[block])
    {
      ghost var was, wasFree := size[..], isFree[..];
      Halved(size[block]);
      TilesBounds(was, block + size[block], tail);
      var halfSize := size[block] / 2;
      size[block] := halfSize;
      upper := block + size[block];
      size[upper] := halfSize;
      isFree[upper] := true;
      SplitKeeps(was, wasFree, block, halfSize, tail, size[..], isFree[..]);
    }

    /** Cuts a free block down to at most twice the request. */
    method SplitBuddy(start: nat, request: U64) returns (r: Option<nat>)
      requires Valid() && LiveFree(start) && HEADER <= request < TWO63
      modifies size, isFree
      ensures Valid() && InUse() == old(InUse())
      ensures r.Some? <==> request <= old(size[start])
      ensures r.None? ==> size[..] == old(size[..]) && isFree[..] == old(isFree[..])
      ensures r.Some? ==> LiveFree(r.value) && request <= size[r.value] <= 2 * request
      ensures r.Some? ==> r.value + size[r.value] == start + old(size[start])
    {
      var block := start;
      ghost var n, sizes, frees := size[start], size[..], isFree[..];
      assert (2 * request) % TWO64 == 2 * request;
      while (2 * request) % TWO64 < size[block]
        invariant Valid() && LiveFree(block) && InUse() == old(InUse())
        invariant size[block] <= n && block + size[block] == start + n
        invariant request <= size[block] <==> request <= n
        invariant request > n ==> block == start && size[..] == sizes && isFree[..] == frees
        decreases size[block]
      {
        block := Halve(block);
      }
      if request <= size[block] { return Some(block); }
      return None;
    }

    /** The block after a live block, or the tail. */
    method Next(block: nat) returns (next: nat)
      requires Valid() && block < tail && Tiles(size[..], 0, block) && Tiles(size[..], block, tail)
      ensures next == block + size[block] && block < next <= tail
      ensures Tiles(size[..], 0, next) && Tiles(size[..], next, tail)
    {
      Step(size[..], block, tail);
      next := block + size[block];
      StepTo(size[..], isFree[..], block, tail);
    }

    /** What a sweep knows of its two cursors. */
    ghost predicate Sweeping(block: nat, buddy: nat)
      requires Valid()
      reads this, size, isFree
    {
      && block <= tail && Tiles(size[..], 0, block) && Tiles(size[..], block, tail)
      && (block < tail ==> buddy == block + size[block] && buddy <= tail
                           && Tiles(size[..], 0, buddy) && Tiles(size[..], buddy, tail))
    }

    method Advance(block: nat, buddy: nat) returns (block2: nat, buddy2: nat)
      requires Valid() && Sweeping(block, buddy) && block < tail && buddy < tail
      ensures Sweeping(block2, buddy2) && block2 == buddy + size[buddy] && buddy < block2
    {
      block2 := Next(buddy);
      buddy2 := buddy;
      if block2 < tail { buddy2 := Next(block2); }
    }

    ghost predicate Best(best: Option<nat>, bound: nat, block: nat, request: nat)
      reads this, size, isFree
    {
      BestSoFar(size[..], isFree[..], best, bound, block, request)
    }

    /** Merges two free neighbours and takes the result as the best so far if it is. */
    method MergeInSweep(best: Option<nat>, ghost bound: nat, block: nat, buddy: nat, request: U64)
      returns (best2: Option<nat>, ghost bound2: nat, next: nat)
      requires Valid() && Sweeping(block, buddy) && block < tail && buddy < tail && Best(best, bound, block, request)
      requires isFree[block] && isFree[buddy] && size[block] == size[buddy]
      modifies size
      ensures Valid() && InUse() == old(InUse()) && buddy < next <= tail
      ensures Tiles(size[..], 0, next) && Tiles(size[..], next, tail) && Best(best2, bound2, next, request)
      ensures Coarser(size[..], old(size[..]), tail) && Count(size[..], 0, tail) < old(Count(size[..], 0, tail))
    {
      ghost var was: seq<nat> := size[..];
      Merge(block);
      bound2 := BestMerged(was, size[..], isFree[..], best, bound, block, request);
      best2 := best;
      if request <= size[block] && (best.None? || size[block] <= size[best.value]) {
        best2 := Some(block);
      }
      next := buddy + size[buddy];
      StepTo(size[..], isFree[..], block, tail);
    }

    /** Searches for a free block, merging equal free neighbours on its way. The block it cuts down is
        `from`, in the tiling `mid` that the search leaves. */
    method FindBestBuddy(request: U64) returns (r: Option<nat>, ghost from: nat, ghost mid: seq<nat>, ghost bound: nat)
      requires Valid() && HEADER <= request < TWO63
      modifies size, isFree
      ensures Valid() && InUse() == old(InUse())
      ensures r.Some? ==> LiveFree(r.value) && request <= size[r.value] <= 2 * request
      ensures r.Some? ==> BestFit(mid, old(isFree[..]), from, bound, request, tail) && Coarser(mid, old(size[..]), tail)
      ensures r.Some? ==> r.value + size[r.value] == from + mid[from]
      ensures r.Some? && mid == old(size[..]) ==> bound == mid[from]
      ensures r.None? ==> SmallButLast(size[..], isFree[..], 0, tail, request)
      ensures r.None? ==> isFree[..] == old(isFree[..]) && Coarser(size[..], old(size[..]), tail)
      ensures old(isFree[0] && size[0] == tail) ==> (r.Some? <==> request <= tail)
    {
      var best: Option<nat> := None;
      var block := 0;
      var buddy := Next(block);
      mid, from, bound := size[..], 0, size[0];
      if buddy == tail && isFree[block] {
        r := SplitBuddy(block, request);
        return;
      }
      best, bound := Sweep(block, buddy, request);
      mid := size[..];
      if best.Some? {
        from := best.value;
        r := SplitBuddy(best.value, request);
        return;
      }
      r := None;
    }

    /** The search loop. */
    method Sweep(first: nat, second: nat, request: U64) returns (best: Option<nat>, ghost bound: nat)
      requires Valid() && first == 0 && Sweeping(first, second)
      modifies size
      ensures Valid() && InUse() == old(InUse()) && Coarser(size[..], old(size[..]), tail)
      ensures best.Some? ==> LiveFree(best.value) && BestFit(size[..], isFree[..], best.value, bound, request, tail)
      ensures best.Some? && size[..] == old(size[..]) ==> bound == size[best.value]
      ensures best.None? ==> SmallButLast(size[..], isFree[..], 0, tail, request)
    {
      best, bound := None, 0;
      var block: nat, buddy: nat := first, second;
      ghost var merged := false;
      while block < tail && buddy < tail
        invariant Valid() && Sweeping(block, buddy) && InUse() == old(InUse())
        invariant Best(best, bound, block, request)
        invariant Searched(old(size[..]), best, bound, merged)
        decreases tail - block
      {
        ghost var was, now := size[..], false;
        best, bound, block, buddy, now := SweepStep(best, bound, block, buddy, request);
        CoarserStill(size[..], was, old(size[..]), tail);
        merged := merged || now;
      }
      if best.Some? {
        CandidateLives(size[..], isFree[..], best.value, block, tail, request);
        SearchSawAll(size[..], isFree[..], 0, block, tail, NotBelow(request, bound));
      } else {
        SearchSawAll(size[..], isFree[..], 0, block, tail, TooShort(request));
      }
    }

    /** What a search has done to the tiling. */
    ghost predicate Searched(was: seq<nat>, best: Option<nat>, bound: nat, merged: bool)
      requires Valid()
      reads this, size, isFree
    {
      && |was| == tail && Coarser(size[..], was, tail)
      && (merged ==> Count(size[..], 0, tail) < Count(was, 0, tail))
      && (!merged ==> size[..] == was && (best.Some? ==> best.value < tail && bound == size[best.value]))
    }

    /** One turn of the search loop. */
    method SweepStep(was: Option<nat>, ghost before: nat, block: nat, buddy: nat, request: U64)
      returns (best: Option<nat>, ghost bound: nat, block2: nat, buddy2: nat, ghost merged: bool)
      requires Valid() && Sweeping(block, buddy) && block < tail && buddy < tail && Best(was, before, block, request)
      modifies size
      ensures Valid() && InUse() == old(InUse()) && Sweeping(block2, buddy2) && Best(best, bound, block2, request)
      ensures block < block2 && Coarser(size[..], old(size[..]), tail)
      ensures merged ==> Count(size[..], 0, tail) < old(Count(size[..], 0, tail))
      ensures !merged ==> size[..] == old(size[..])
      ensures !merged && (was.Some? ==> before == old(size[was.value])) ==> best.Some? ==> bound == size[best.value]
    {
      merged := isFree[block] && isFree[buddy] && size[block] == size[buddy];
      if isFree[block] && isFree[buddy] && size[block] == size[buddy] {
        best, bound, block2 := MergeInSweep(was, before, block, buddy, request);
        buddy2 := buddy;
        if block2 < tail { buddy2 := Next(block2); }
      } else {
        best, bound, block2, buddy2 := LookOn(was, before, block, buddy, request);
      }
    }

    /** The rest of a turn, when nothing is merged. */
    method LookOn(was: Option<nat>, ghost before: nat, block: nat, buddy: nat, request: U64)
      returns (best: Option<nat>, ghost bound: nat, block2: nat, buddy2: nat)
      requires Valid() && Sweeping(block, buddy) && block < tail && buddy < tail && Best(was, before, block, request)
      ensures Sweeping(block2, buddy2) && Best(best, bound, block2, request) && block < block2
      ensures (was.Some? ==> before == size[was.value]) ==> best.Some? ==> bound == size[best.value]
    {
      best, bound := Choose(was, before, block, buddy, request);
      if size[block] < size[buddy] {
        block2, buddy2 := Advance(block, buddy);
        BestMoves(size[..], isFree[..], best, bound, buddy, request);
      } else {
        block2 := buddy;
        buddy2 := Next(buddy);
      }
    }

    /** Looks at both blocks. */
    method Choose(was: Option<nat>, ghost before: nat, block: nat, buddy: nat, request: U64)
      returns (best: Option<nat>, ghost bound: nat)
      requires Valid() && Sweeping(block, buddy) && block < tail && buddy < tail && Best(was, before, block, request)
      ensures Best(best, bound, buddy, request)
      ensures isFree[buddy] && request <= size[buddy] ==> best.Some? && bound <= size[buddy]
      ensures (was.Some? ==> before == size[was.value]) ==> best.Some? ==> bound == size[best.value]
    {
      best, bound := was, before;
      if isFree[block] && request <= size[block] && (best.None? || size[block] < size[best.value]) {
        BestTaken(size[..], isFree[..], best, bound, block, request);
        best, bound := Some(block), size[block];
      }
      BestMoves(size[..], isFree[..], best, bound, block, request);
      if isFree[buddy] && request <= size[buddy] && (best.None? || size[buddy] < size[best.value]) {
        BestTaken(size[..], isFree[..], best, bound, buddy, request);
        best, bound := Some(buddy), size[buddy];
      }
    }

    /** One sweep of `coalesceBuddies`; says whether another is due. */
    method CoalesceOnce() returns (noCoalesce: bool, ghost merged: bool)
      requires Valid()
      modifies size
      ensures Valid() && InUse() == old(InUse())
      ensures merged ==> Count(size[..], 0, tail) < old(Count(size[..], 0, tail))
      ensures !noCoalesce ==> merged
      ensures !merged ==> size[..] == old(size[..]) && Settled(size[..], isFree[..], 0, tail)
      ensures merged && noCoalesce ==> LastFree(size[..], isFree[..], 0, tail)
      ensures Coarser(size[..], old(size[..]), tail)
    {
      var block: nat := 0;
      var buddy: nat := Next(block);
      noCoalesce, merged := true, false;
      while block < tail && buddy < tail
        invariant Valid() && Sweeping(block, buddy) && InUse() == old(InUse())
        invariant Progress(old(size[..]), block, noCoalesce, merged)
        decreases tail - block
      {
        var flagged;
        ghost var now, was := false, size[..];
        block, buddy, flagged, now := CoalesceStep(block, buddy);
        CoarserStill(size[..], was, old(size[..]), tail);
        if flagged { noCoalesce := false; }
        merged := merged || now;
      }
    }

    /** What a sweep has done up to `block`. */
    ghost predicate Progress(was: seq<nat>, block: nat, noCoalesce: bool, merged: bool)
      requires Valid() && block <= tail && Tiles(size[..], block, tail)
      reads this, size, isFree
    {
      && |was| == tail && Coarser(size[..], was, tail)
      && (merged ==> Count(size[..], 0, tail) < Count(was, 0, tail))
      && (!noCoalesce ==> merged)
      && (!merged ==> size[..] == was && (Settled(was, isFree[..], block, tail) ==> Settled(was, isFree[..], 0, tail)))
      && (merged && noCoalesce ==> block == tail && LastFree(size[..], isFree[..], 0, tail))
    }

    /** One turn of the coalescing loop. */
    method CoalesceStep(block: nat, buddy: nat) returns (block2: nat, buddy2: nat, flagged: bool, ghost merged: bool)
      requires Valid() && Sweeping(block, buddy) && block < tail && buddy < tail
      modifies size
      ensures Valid() && InUse() == old(InUse()) && Sweeping(block2, buddy2) && block < block2
      ensures merged ==> Count(size[..], 0, tail) < old(Count(size[..], 0, tail))
      ensures flagged <==> merged && block2 < tail
      ensures merged && !flagged ==> LastFree(size[..], isFree[..], 0, tail)
      ensures !merged ==> size[..] == old(size[..])
      ensures Coarser(size[..], old(size[..]), tail)
      ensures !merged && Settled(size[..], isFree[..], block2, tail) ==> Settled(size[..], isFree[..], block, tail)
    {
      flagged, merged := false, false;
      if size[block] < size[buddy] {
        block2, buddy2 := Advance(block, buddy);
      } else if size[block] > size[buddy] {
        block2 := buddy;
        buddy2 := Next(buddy);
      } else if isFree[block] && isFree[buddy] {
        block2, buddy2, flagged := CoalescePair(block, buddy);
        merged := true;
      } else {
        block2, buddy2 := Advance(block, buddy);
      }
    }

    /** The branch that merges. */
    method CoalescePair(block: nat, buddy: nat) returns (block2: nat, buddy2: nat, flagged: bool)
      requires Valid() && Sweeping(block, buddy) && block < tail && buddy < tail
      requires isFree[block] && isFree[buddy] && size[block] == size[buddy]
      modifies size
      ensures Valid() && InUse() == old(InUse()) && Sweeping(block2, buddy2) && block < block2
      ensures Count(size[..], 0, tail) < old(Count(size[..], 0, tail))
      ensures flagged <==> block2 < tail
      ensures Coarser(size[..], old(size[..]), tail)
      ensures !flagged ==> LastFree(size[..], isFree[..], 0, tail)
    {
      Merge(block);
      block2 := Next(block);
      buddy2, flagged := buddy, false;
      if block2 < tail {
        buddy2 := Next(block2);
        flagged := true;
      } else {
        LastFreeAt(size[..], isFree[..], 0, block, tail);
      }
    }

    /** Sweeps until one asks for no other. Then nothing a sweep compares can be merged, unless that
        sweep merged the last two blocks; and if nothing was merged, nothing could be. */
    method CoalesceBuddies()
      requires Valid()
      modifies size
      ensures Valid() && InUse() == old(InUse()) && Coarser(size[..], old(size[..]), tail)
      ensures Settled(size[..], isFree[..], 0, tail) || LastFree(size[..], isFree[..], 0, tail)
      ensures Settled(size[..], isFree[..], 0, tail) || Count(size[..], 0, tail) < old(Count(size[..], 0, tail))
      ensures Settled(old(size[..]), isFree[..], 0, tail) || Count(size[..], 0, tail) < old(Count(size[..], 0, tail))
    {
      ghost var first := true;
      while true
        invariant Valid() && InUse() == old(InUse()) && Coarser(size[..], old(size[..]), tail)
        invariant if first then size[..] == old(size[..]) else Count(size[..], 0, tail) < old(Count(size[..], 0, tail))
        decreases Count(size[..], 0, tail)
      {
        var noCoalesce;
        ghost var merged, was := false, size[..];
        noCoalesce, merged := CoalesceOnce();
        CoarserStill(size[..], was, old(size[..]), tail);
        if noCoalesce { return; }
        first := false;
      }
    }

    /** Serves `bytes * count` bytes and returns the offset of the data, just past the header. A request
        fails only after a coalescing: `mid` is the tiling after the first search. */
    method BuddyAlloc(bytes: nat, count: nat) returns (data: Option<nat>, ghost mid: seq<nat>)
      requires Valid() && bytes > 0 && bytes * count + HEADER < TWO63
      modifies size, isFree
      ensures Valid()
      ensures data.None? ==> InUse() == old(InUse()) && isFree[..] == old(isFree[..])
      ensures data.None? ==> SmallButLast(size[..], isFree[..], 0, tail, bytes * count + HEADER)
      ensures data.None? ==>
                && |mid| == tail && Coarser(mid, old(size[..]), tail) && Coarser(size[..], mid, tail)
                && SmallButLast(mid, isFree[..], 0, tail, bytes * count + HEADER)
                && (Settled(mid, isFree[..], 0, tail) || Count(size[..], 0, tail) < Count(mid, 0, tail))
      ensures data.Some? ==> HEADER <= data.value && data.value - HEADER < tail
      ensures data.Some? ==>
                var b := data.value - HEADER;
                && bytes * count + HEADER <= size[b] <= 2 * (bytes * count + HEADER)
                && (b, size[b]) !in old(InUse()) && InUse() == old(InUse()) + {(b, size[b])}
      ensures old(isFree[0] && size[0] == tail) ==> (data.Some? <==> bytes * count + HEADER <= tail)
    {
      var total := bytes * count;
      ghost var used := InUse();
      var found: Option<nat>;
      ghost var from, picked, bound;
      found, from, picked, bound := FindBestBuddy(total + HEADER);
      mid := size[..];
      if found.None? {
        found := SecondTry(total + HEADER, mid);
      }
      if found.None? { return None, mid; }
      assert InUse() == used;
      Claim(found.value);
      return Some(found.value + HEADER), mid;
    }

    /** A live free block becomes a block in use. */
    method Claim(block: nat)
      requires Valid() && LiveFree(block)
      modifies isFree
      ensures Valid() && size[..] == old(size[..])
      ensures (block, size[block]) !in old(InUse()) && InUse() == old(InUse()) + {(block, size[block])}
    {
      MarkUsed(size[..], isFree[..], block, tail, isFree[..][block := false]);
      isFree[block] := false;
    }

    /** The search behind a coalescing. */
    method SecondTry(request: U64, ghost mid: seq<nat>) returns (found: Option<nat>)
      requires Valid() && HEADER <= request < TWO63 && size[..] == mid
      modifies size, isFree
      ensures Valid() && InUse() == old(InUse())
      ensures found.Some? ==> LiveFree(found.value) && request <= size[found.value] <= 2 * request
      ensures found.None? ==>
                && isFree[..] == old(isFree[..]) && SmallButLast(size[..], isFree[..], 0, tail, request)
                && Coarser(size[..], mid, tail)
                && (Settled(mid, isFree[..], 0, tail) || Count(size[..], 0, tail) < Count(mid, 0, tail))
    {
      CoalesceBuddies();
      ghost var middle := size[..];
      ghost var from, picked, bound;
      found, from, picked, bound := FindBestBuddy(request);
      if found.None? { CoarserStill(size[..], middle, mid, tail); }
    }

    /** Takes back the block whose data starts at `data`, and coalesces. */
    method FreeBuddy(data: nat)
      requires Valid() && HEADER <= data && data - HEADER < tail
      requires (data - HEADER, size[data - HEADER]) in InUse()
      modifies size, isFree
      ensures Valid() && InUse() == old(InUse()) - {(data - HEADER, old(size[data - HEADER]))}
      ensures isFree[..] == old(isFree[..])[data - HEADER := true] && Coarser(size[..], old(size[..]), tail)
      ensures Settled(size[..], isFree[..], 0, tail) || LastFree(size[..], isFree[..], 0, tail)
      ensures Settled(old(size[..]), isFree[..], 0, tail) || Count(size[..], 0, tail) < old(Count(size[..], 0, tail))
    {
      var block := data - HEADER;
      MarkFree(size[..], isFree[..], block, tail, isFree[..][block := true]);
      isFree[block] := true;
      CoalesceBuddies();
    }
  }
}
