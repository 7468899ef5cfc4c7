/** The freestanding `memcpy`, `memmove` and `memset`, on a memory that is an array of bytes
    indexed by address. A wide load reads all its bytes before the wide store writes any. */
module Manipulation {
  import opened Bits
  import opened Texts

  const WS: nat := 8

  /** Byte by byte: the range at `d` holds what the range at `s` held, the rest is as before. */
  ghost predicate Moved(old_: seq<Byte>, new_: seq<Byte>, d: nat, s: nat, n: nat)
    requires s + n <= |old_|
  {
    |new_| == |old_| && forall i {:trigger new_[i]} :: 0 <= i < |old_| ==>
        new_[i] == if d <= i < d + n then old_[s + (i - d)] else old_[i]
  }

  /** Byte by byte: the range at `s` holds `c`, the rest is as before. */
  ghost predicate Filled(old_: seq<Byte>, new_: seq<Byte>, s: nat, c: Byte, n: nat) {
    |new_| == |old_| && forall i {:trigger new_[i]} :: 0 <= i < |old_| ==>
        new_[i] == if s <= i < s + n then c else old_[i]
  }

  ghost predicate Disjoint(d: nat, s: nat, n: nat) {
    d + n <= s || s + n <= d
  }

  // ---------------------------------------------------------------- putting moves together

  /** A move next to, or overlapping, one already made, whose source is still untouched. */
  lemma Extend(o: seq<Byte>, m: seq<Byte>, m2: seq<Byte>, a: nat, b: nat, k: nat, a2: nat, b2: nat, w: nat, lo: nat,
               from: nat, n: nat)
    requires b + k <= |o| && Moved(o, m, a, b, k) && b2 + w <= |m| && Moved(m, m2, a2, b2, w)
    requires a - b == a2 - b2 == lo - from && (b2 + w <= a || a + k <= b2)
    requires (a == lo && a <= a2 <= a + k && a2 + w == lo + n >= a + k) || (a2 == lo && a2 + w == a && a + k == lo + n)
    ensures from + n <= |o| && Moved(o, m2, lo, from, n)
  {
    forall i | 0 <= i < |o| ensures m2[i] == if lo <= i < lo + n then o[from + (i - lo)] else o[i] {
      if a2 <= i < a2 + w {
        var j := b2 + (i - a2);
        assert 0 <= j < |o| && !(a <= j < a + k);
        assert m[j] == o[j];
        assert j == from + (i - lo);
      } else if a <= i < a + k {
        assert b + (i - a) == from + (i - lo);
      }
    }
  }

  /** The case of a move just below one already made. */
  lemma Prepend(o: seq<Byte>, m: seq<Byte>, m2: seq<Byte>, a: nat, b: nat, w: nat, a2: nat, b2: nat, k: nat, n: nat)
    requires a2 == a + w && b2 == b + w && n == w + k && b < a
    requires b + n <= |o| && Moved(o, m, a2, b2, k) && |m| == |o| && Moved(m, m2, a, b, w)
    ensures Moved(o, m2, a, b, n)
  {
    Extend(o, m, m2, a2, b2, k, a, b, w, a, b, n);
  }

  lemma FillMore(o: seq<Byte>, m: seq<Byte>, m2: seq<Byte>, s: nat, c: Byte, k: nat, at: nat, w: nat)
    requires Filled(o, m, s, c, k) && Filled(m, m2, at, c, w) && s <= at <= s + k <= at + w
    ensures Filled(o, m2, s, c, at + w - s)
  {
  }

  // ---------------------------------------------------------------- the overlap test

  /** `(U64)s - (U64)d - n <= -2ULL * n`, on 64-bit words. */
  predicate TakesMemcpy(d: nat, s: nat, n: nat) {
    (s - d - n) % TWO64 <= (-(2 * n)) % TWO64
  }

  lemma Wraps(x: int, q: int, r: nat)
    requires x == q * TWO64 + r && r < TWO64
    ensures x % TWO64 == r
  {
  }

  /** The test finds exactly the disjoint ranges, except that a length above 2^63 always passes. */
  lemma OverlapTest(d: nat, s: nat, n: nat)
    requires d + n <= TWO64 && s + n <= TWO64 && d != s && n > 0
    ensures TakesMemcpy(d, s, n) <==> Disjoint(d, s, n) || n > TWO63
  {
    var x := s - d - n;
    if x >= 0 { Wraps(x, 0, x); } else { Wraps(x, -1, x + TWO64); }
    if n < TWO63 { Wraps(-(2 * n), -1, TWO64 - 2 * n); }
    else if n == TWO63 { Wraps(-(2 * n), -1, 0); }
    else if n < TWO64 { Wraps(-(2 * n), -2, 2 * TWO64 - 2 * n); }
  }

  /** So above 2^63 overlapping ranges reach `memcpy`. */
  lemma HugeOverlapTakesMemcpy()
    ensures TakesMemcpy(0, 1, TWO63 + 1) && !Disjoint(0, 1, TWO63 + 1)
  {
    OverlapTest(0, 1, TWO63 + 1);
  }

  // ---------------------------------------------------------------- memcpy

  method CopyWord(mem: array<Byte>, d: nat, s: nat, w: nat)
    requires d + w <= mem.Length && s + w <= mem.Length
    modifies mem
    ensures Moved(old(mem[..]), mem[..], d, s, w)
  {
    var word := mem[s..s + w];
    StoreWord(mem, d, word);
  }

  method StoreWord(mem: array<Byte>, d: nat, word: seq<Byte>)
    requires d + |word| <= mem.Length
    modifies mem
    ensures forall i :: 0 <= i < mem.Length ==> mem[i] == if d <= i < d + |word| then word[i - d] else old(mem[i])
  {
    forall i | d <= i < d + |word| { mem[i] := word[i - d]; }
  }

  /** Two words of `w` bytes, at the start and at the end, cover up to `2 * w` bytes. */
  method CopyEnds(mem: array<Byte>, d: nat, s: nat, n: nat, w: nat)
    requires d + n <= mem.Length && s + n <= mem.Length && Disjoint(d, s, n) && w <= n <= 2 * w
    modifies mem
    ensures Moved(old(mem[..]), mem[..], d, s, n)
  {
    CopyWord(mem, d, s, w);
    ghost var m := mem[..];
    CopyWord(mem, d + n - w, s + n - w, w);
    Extend(old(mem[..]), m, mem[..], d, s, w, d + n - w, s + n - w, w, d, s, n);
  }

  method CopyFew(mem: array<Byte>, d: nat, s: nat, n: nat)
    requires d + n <= mem.Length && s + n <= mem.Length && Disjoint(d, s, n) && n < 5
    modifies mem
    ensures Moved(old(mem[..]), mem[..], d, s, n)
  {
    if n == 0 { return; }
    mem[d] := mem[s];
    mem[d + n - 1] := mem[s + n - 1];
    if n <= 2 { return; }
    mem[d + 1] := mem[s + 1];
    mem[d + 2] := mem[s + 2];
  }

  method Memcpy(mem: array<Byte>, dest: nat, src: nat, n: nat)
    requires dest + n <= mem.Length && src + n <= mem.Length && Disjoint(dest, src, n)
    modifies mem
    ensures Moved(old(mem[..]), mem[..], dest, src, n)
  {
    if n < 5 {
      CopyFew(mem, dest, src, n);
    } else if n <= 16 {
      CopyEnds(mem, dest, src, n, if n >= 8 then 8 else 4);
    } else if n <= 32 {
      CopyEnds(mem, dest, src, n, 16);
    } else {
      CopyBlocks(mem, dest, src, n);
    }
  }

  method CopyBlocks(mem: array<Byte>, dest: nat, src: nat, n: nat)
    requires dest + n <= mem.Length && src + n <= mem.Length && Disjoint(dest, src, n) && n > 32
    modifies mem
    ensures Moved(old(mem[..]), mem[..], dest, src, n)
  {
    var lastS, lastD := src + n - 32, dest + n - 32;
    CopyWord(mem, dest, src, 32);
    var d, s := dest + 32, src + 32;
    while d < lastD
      invariant 32 <= d - dest == s - src <= n && Moved(old(mem[..]), mem[..], dest, src, d - dest)
    {
      ghost var m := mem[..];
      CopyWord(mem, d, s, 32);
      Extend(old(mem[..]), m, mem[..], dest, src, d - dest, d, s, 32, dest, src, d + 32 - dest);
      d, s := d + 32, s + 32;
    }
    ghost var m := mem[..];
    CopyWord(mem, lastD, lastS, 32);
    Extend(old(mem[..]), m, mem[..], dest, src, d - dest, lastD, lastS, 32, dest, src, n);
  }

  // ---------------------------------------------------------------- memmove

  /** Bytes up to the next word boundary, then words, then bytes, upwards. */
  method MoveUp(mem: array<Byte>, dest: nat, src: nat, count: nat)
    requires dest + count <= mem.Length && src + count <= mem.Length && dest < src
    modifies mem
    ensures Moved(old(mem[..]), mem[..], dest, src, count)
  {
    var d: nat, s: nat, n: nat := dest, src, count;
    if s % WS == d % WS {
      while d % WS != 0
        invariant d - dest == s - src == count - n >= 0 && Moved(old(mem[..]), mem[..], dest, src, d - dest)
        decreases n
      {
        if n == 0 { return; }
        n := n - 1;
        StepUp(mem, old(mem[..]), dest, src, d, s, 1);
        d, s := d + 1, s + 1;
      }
      while n >= WS
        invariant d - dest == s - src == count - n >= 0 && Moved(old(mem[..]), mem[..], dest, src, d - dest)
      {
        StepUp(mem, old(mem[..]), dest, src, d, s, WS);
        n, d, s := n - WS, d + WS, s + WS;
      }
    }
    while n != 0
      invariant d - dest == s - src == count - n >= 0 && Moved(old(mem[..]), mem[..], dest, src, d - dest)
      decreases n
    {
      StepUp(mem, old(mem[..]), dest, src, d, s, 1);
      d, s, n := d + 1, s + 1, n - 1;
    }
  }

  method StepUp(mem: array<Byte>, ghost o: seq<Byte>, dest: nat, src: nat, d: nat, s: nat, w: nat)
    requires dest < src && d - dest == s - src >= 0 && s + w <= mem.Length == |o|
    requires Moved(o, mem[..], dest, src, d - dest)
    modifies mem
    ensures Moved(o, mem[..], dest, src, d - dest + w)
  {
    ghost var m := mem[..];
    CopyWord(mem, d, s, w);
    Extend(o, m, mem[..], dest, src, d - dest, d, s, w, dest, src, d - dest + w);
  }

  /** Bytes down to a word boundary, then words, then bytes, downwards. */
  method MoveDown(mem: array<Byte>, dest: nat, src: nat, count: nat)
    requires dest + count <= mem.Length && src + count <= mem.Length && src < dest
    modifies mem
    ensures Moved(old(mem[..]), mem[..], dest, src, count)
  {
    ghost var o := mem[..];
    var n: nat := count;
    if src % WS == dest % WS {
      var done;
      done, n := AlignBytesDown(mem, o, dest, src, count);
      if done { return; }
      n := StepsDown(mem, o, dest, src, count, n, WS);
    }
    n := StepsDown(mem, o, dest, src, count, n, 1);
  }

  /** The loops that copy whole words, and the last bytes. */
  method StepsDown(mem: array<Byte>, ghost o: seq<Byte>, dest: nat, src: nat, count: nat, from: nat, w: nat)
    returns (n: nat)
    requires dest + count <= mem.Length == |o| && src < dest && from <= count && w > 0
    requires Moved(o, mem[..], dest + from, src + from, count - from)
    modifies mem
    ensures n < w && n <= from && Moved(o, mem[..], dest + n, src + n, count - n)
  {
    n := from;
    while n >= w
      invariant n <= from && Moved(o, mem[..], dest + n, src + n, count - n)
    {
      ghost var was := n;
      n := n - w;
      StepDown(mem, o, dest + n, src + n, w, dest + was, src + was, count - was, count - n);
    }
  }

  /** The loop that brings the end to a word boundary, or finishes. */
  method AlignBytesDown(mem: array<Byte>, ghost o: seq<Byte>, dest: nat, src: nat, count: nat)
    returns (done: bool, n: nat)
    requires dest + count <= mem.Length && src + count <= mem.Length && src < dest && mem[..] == o
    modifies mem
    ensures n <= count && Moved(o, mem[..], dest + n, src + n, count - n)
    ensures done ==> n == 0
  {
    n := count;
    while (dest + n) % WS != 0
      invariant n <= count && Moved(o, mem[..], dest + n, src + n, count - n)
    {
      if n == 0 { return true, 0; }
      n := ByteDown(mem, o, dest, src, count, n);
    }
    done := false;
  }

  method ByteDown(mem: array<Byte>, ghost o: seq<Byte>, dest: nat, src: nat, ghost count: nat,
                  was: nat) returns (n: nat)
    requires dest + count <= mem.Length == |o| && src < dest && 0 < was <= count
    requires Moved(o, mem[..], dest + was, src + was, count - was)
    modifies mem
    ensures n == was - 1 && Moved(o, mem[..], dest + n, src + n, count - n)
  {
    n := was - 1;
    StepDown(mem, o, dest + n, src + n, 1, dest + was, src + was, count - was, count - n);
  }

  /** Copies `w` bytes just below the `k` bytes already in place. */
  method StepDown(mem: array<Byte>, ghost o: seq<Byte>, d: nat, s: nat, w: nat,
                  ghost d2: nat, ghost s2: nat, ghost k: nat, ghost n: nat)
    requires s < d && d2 == d + w && s2 == s + w && n == w + k && d + n <= mem.Length == |o|
    requires Moved(o, mem[..], d2, s2, k)
    modifies mem
    ensures Moved(o, mem[..], d, s, n)
  {
    ghost var m := mem[..];
    CopyWord(mem, d, s, w);
    Prepend(o, m, mem[..], d, s, w, d2, s2, k, n);
  }

  method Memmove(mem: array<Byte>, dest: nat, src: nat, n: nat)
    requires mem.Length <= TWO64 && dest + n <= mem.Length && src + n <= mem.Length && n <= TWO63
    modifies mem
    ensures Moved(old(mem[..]), mem[..], dest, src, n)
  {
    if dest == src { return; }
    if n > 0 { OverlapTest(dest, src, n); }
    if TakesMemcpy(dest, src, n) {
      Memcpy(mem, dest, src, n);
    } else if dest < src {
      MoveUp(mem, dest, src, n);
    } else {
      MoveDown(mem, dest, src, n);
    }
  }

  // ---------------------------------------------------------------- memset

  /** `(U8)c` for a C int. */
  function LowByte(c: int): Byte {
    c % 256
  }

  /** An integer as it lies in memory, lowest byte first. */
  function LittleEndian(v: nat, w: nat): (r: seq<Byte>)
    ensures |r| == w
  {
    if w == 0 then [] else [v % 256] + LittleEndian(v / 256, w - 1)
  }

  /** 0x01, 0x0101, 0x010101, ... */
  function Ones(w: nat): nat {
    if w == 0 then 0 else 256 * Ones(w - 1) + 1
  }

  /** Multiplying by such a constant repeats the byte. */
  lemma {:induction false} OnesRepeat(c: Byte, w: nat)
    ensures forall i :: 0 <= i < w ==> LittleEndian(Ones(w) * c, w)[i] == c
  {
    if w > 0 {
      OnesRepeat(c, w - 1);
      var rest := Ones(w - 1) * c;
      assert Ones(w) * c == 256 * rest + c by { MulDist(256 * Ones(w - 1), 1, c); MulAssoc(256, Ones(w - 1), c); }
      LowestByte(Ones(w) * c, rest, c, w);
    }
  }

  lemma LowestByte(v: nat, rest: nat, c: Byte, w: nat)
    requires w > 0 && v == 256 * rest + c
    ensures LittleEndian(v, w) == [c] + LittleEndian(rest, w - 1)
  {
  }

  lemma Val8Val4(c: Byte)
    ensures Ones(8) == 0x0101010101010101 && Ones(4) == 0x01010101
    ensures 0x0101010101010101 * c < TWO64 && (0x0101010101010101 * c) % 0x1_0000_0000 == 0x01010101 * c
  {
    assert Ones(2) == 0x0101 && Ones(4) == 0x01010101 && Ones(6) == 0x010101010101;
  }

  method FillWord(mem: array<Byte>, at: nat, c: Byte, w: nat)
    requires at + w <= mem.Length
    modifies mem
    ensures Filled(old(mem[..]), mem[..], at, c, w)
  {
    StoreWord(mem, at, seq(w, _ => c));
  }

  /** An aligned 32-byte store. */
  method FillAligned(mem: array<Byte>, at: nat, c: Byte)
    requires at % 32 == 0 && at + 32 <= mem.Length
    modifies mem
    ensures Filled(old(mem[..]), mem[..], at, c, 32)
  {
    FillWord(mem, at, c, 32);
  }

  /** An integer store of `val8` or `val4`. */
  method FillInteger(mem: array<Byte>, at: nat, c: Byte, val: nat, w: nat)
    requires at + w <= mem.Length && val == Ones(w) * c
    modifies mem
    ensures Filled(old(mem[..]), mem[..], at, c, w)
  {
    OnesRepeat(c, w);
    StoreWord(mem, at, LittleEndian(val, w));
  }

  method SetFew(mem: array<Byte>, s: nat, c: Byte, n: nat)
    requires s + n <= mem.Length && n < 5
    modifies mem
    ensures Filled(old(mem[..]), mem[..], s, c, n)
  {
    if n == 0 { return; }
    mem[s] := c;
    mem[s + n - 1] := c;
    if n <= 2 { return; }
    mem[s + 1] := c;
    mem[s + 2] := c;
  }

  method SetIntegers(mem: array<Byte>, s: nat, c: Byte, n: nat, val: nat, w: nat)
    requires s + n <= mem.Length && w <= n <= 2 * w && val == Ones(w) * c
    modifies mem
    ensures Filled(old(mem[..]), mem[..], s, c, n)
  {
    FillInteger(mem, s, c, val, w);
    ghost var m := mem[..];
    FillInteger(mem, s + n - w, c, val, w);
    FillMore(old(mem[..]), m, mem[..], s, c, w, s + n - w, w);
  }

  /** Lengths below 33. */
  method SmallMemset(mem: array<Byte>, s: nat, c: int, n: nat)
    requires s + n <= mem.Length && n <= 32
    modifies mem
    ensures Filled(old(mem[..]), mem[..], s, LowByte(c), n)
  {
    if n < 5 {
      SetFew(mem, s, LowByte(c), n);
    } else if n <= 16 {
      Val8Val4(LowByte(c));
      var val8 := (0x0101010101010101 * LowByte(c)) % TWO64;
      if n >= 8 {
        SetIntegers(mem, s, LowByte(c), n, val8, 8);
      } else {
        SetIntegers(mem, s, LowByte(c), n, val8 % 0x1_0000_0000, 4);
      }
    } else {
      FillWord(mem, s + n - 16, LowByte(c), 16);
      ghost var m := mem[..];
      FillWord(mem, s, LowByte(c), 16);
      FillBoth(old(mem[..]), m, mem[..], s, LowByte(c), n);
    }
  }

  lemma FillBoth(o: seq<Byte>, m: seq<Byte>, m2: seq<Byte>, s: nat, c: Byte, n: nat)
    requires 16 <= n <= 32 && Filled(o, m, s + n - 16, c, 16) && Filled(m, m2, s, c, 16)
    ensures Filled(o, m2, s, c, n)
  {
  }

  /** The first `f` bytes are filled, and `p` lies in or right behind the last 32 of them. */
  ghost predicate Reached(o: seq<Byte>, m: seq<Byte>, s: nat, c: Byte, p: nat, f: nat) {
    s <= p <= s + f <= p + 32 && p % 32 == 0 && Filled(o, m, s, c, f)
  }

  /** One more aligned block. */
  method Stamp(mem: array<Byte>, ghost o: seq<Byte>, s: nat, c: Byte, p: nat, ghost f: nat) returns (next: nat)
    requires p + 32 <= mem.Length == |o| && Reached(o, mem[..], s, c, p, f)
    modifies mem
    ensures next == p + 32 && Reached(o, mem[..], s, c, next, next - s)
  {
    ghost var m := mem[..];
    FillAligned(mem, p, c);
    FillMore(o, m, mem[..], s, c, f, p, 32);
    next := p + 32;
  }

  method TryStamp(mem: array<Byte>, ghost o: seq<Byte>, s: nat, c: Byte, p: nat, lastWord: nat, ghost f: nat)
    returns (next: nat, ghost f2: nat)
    requires lastWord + 32 <= mem.Length == |o| && Reached(o, mem[..], s, c, p, f)
    modifies mem
    ensures Reached(o, mem[..], s, c, next, f2)
    ensures if p < lastWord then next == p + 32 && f2 == next - s else next == p && f2 == f
  {
    next, f2 := p, f;
    if p < lastWord {
      next := Stamp(mem, o, s, c, p, f);
      f2 := next - s;
    }
  }

  method FiveStamps(mem: array<Byte>, ghost o: seq<Byte>, s: nat, c: Byte, p: nat, ghost f: nat) returns (next: nat)
    requires p + 160 <= mem.Length == |o| && Reached(o, mem[..], s, c, p, f)
    modifies mem
    ensures next == p + 160 && Reached(o, mem[..], s, c, next, next - s)
  {
    next := Stamp(mem, o, s, c, p, f);
    next := Stamp(mem, o, s, c, next, next - s);
    next := Stamp(mem, o, s, c, next, next - s);
    next := Stamp(mem, o, s, c, next, next - s);
    next := Stamp(mem, o, s, c, next, next - s);
  }

  /** The four conditional stamps always reach the last word and never pass the end. */
  method FourTries(mem: array<Byte>, ghost o: seq<Byte>, s: nat, c: Byte, p: nat, lastWord: nat, ghost f: nat)
    returns (ghost f2: nat)
    requires lastWord <= p + 128 && lastWord + 32 <= mem.Length == |o|
    requires Reached(o, mem[..], s, c, p, f) && s + f <= lastWord + 32
    modifies mem
    ensures lastWord <= s + f2 <= lastWord + 32 && Filled(o, mem[..], s, c, f2)
  {
    var next;
    next, f2 := TryStamp(mem, o, s, c, p, lastWord, f);
    next, f2 := TryStamp(mem, o, s, c, next, lastWord, f2);
    next, f2 := TryStamp(mem, o, s, c, next, lastWord, f2);
    next, f2 := TryStamp(mem, o, s, c, next, lastWord, f2);
  }

  /** Lengths above 160. */
  method HugeMemset(mem: array<Byte>, s: nat, c: int, n: nat)
    requires s + n <= mem.Length && n > 160
    modifies mem
    ensures Filled(old(mem[..]), mem[..], s, LowByte(c), n)
  {
    var x := LowByte(c);
    FillWord(mem, s, x, 32);
    var p := s + 32 - s % 32;
    var bufferEnd := s + n;
    var lastWord := bufferEnd - 32;
    ghost var f: nat := 32;
    while p + 32 * 5 < bufferEnd
      invariant f <= n && Reached(old(mem[..]), mem[..], s, x, p, f)
    {
      p := FiveStamps(mem, old(mem[..]), s, x, p, f);
      f := p - s;
    }
    f := FourTries(mem, old(mem[..]), s, x, p, lastWord, f);
    ghost var m := mem[..];
    FillWord(mem, lastWord, x, 32);
    FillMore(old(mem[..]), m, mem[..], s, x, f, lastWord, 32);
  }

  method Memset(mem: array<Byte>, s: nat, c: int, n: nat)
    requires s + n <= mem.Length
    modifies mem
    ensures Filled(old(mem[..]), mem[..], s, LowByte(c), n)
  {
    if n < 32 {
      SmallMemset(mem, s, c, n);
    } else if n > 160 {
      HugeMemset(mem, s, c, n);
    } else {
      FillBlocks(mem, s, LowByte(c), n);
    }
  }

  method FillBlocks(mem: array<Byte>, s: nat, c: Byte, n: nat)
    requires s + n <= mem.Length && n >= 32
    modifies mem
    ensures Filled(old(mem[..]), mem[..], s, c, n)
  {
    var lastWord := s + n - 32;
    FillWord(mem, s, c, 32);
    var p := s + 32;
    while p < lastWord
      invariant s + 32 <= p <= s + n && Filled(old(mem[..]), mem[..], s, c, p - s)
    {
      ghost var m := mem[..];
      FillWord(mem, p, c, 32);
      FillMore(old(mem[..]), m, mem[..], s, c, p - s, p, 32);
      p := p + 32;
    }
    ghost var m := mem[..];
    FillWord(mem, lastWord, c, 32);
    FillMore(old(mem[..]), m, mem[..], s, c, p - s, lastWord, 32);
  }
}
