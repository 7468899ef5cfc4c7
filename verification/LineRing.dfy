/** The terminal's scrollback: a ring of the last characters and a ring of the last line starts,
    filled by `flushToScreen` and searched by `I8IndexToLogicalLine`. */
module LineRing {
  import opened Bits
  import opened Texts

  const LINES: nat := 8192
  const CHARS: nat := 65536

  // ---------------------------------------------------------------- ring arithmetic on U32

  function RingPlus(v: nat, amount: nat, size: nat): nat
    requires size > 0
  {
    And((v + amount) % TWO32, size - 1)
  }

  function RingMinus(v: nat, amount: nat, size: nat): nat
    requires size > 0
  {
    And((v - amount) % TWO32, size - 1)
  }

  lemma SizesArePowers()
    ensures LINES == Pow2(13) && CHARS == Pow2(16)
  {
    assert Pow2(4) == 16 && Pow2(8) == 256;
    assert Pow2(12) == 4096 && Pow2(13) == 8192 && Pow2(16) == 65536;
  }

  lemma Small(x: nat)
    requires x < TWO32
    ensures x % TWO32 == x
  {
  }

  lemma RingPlusIs(v: nat, amount: nat, k: nat)
    requires v + amount < TWO32
    ensures RingPlus(v, amount, Pow2(k)) == (v + amount) % Pow2(k)
  {
    Small(v + amount);
    AndMask(v + amount, k);
  }

  lemma RingPlusLines(v: nat, amount: nat)
    requires v + amount < TWO32
    ensures RingPlus(v, amount, LINES) == (v + amount) % LINES
  {
    SizesArePowers();
    RingPlusIs(v, amount, 13);
  }

  lemma ModPlus(l: int, d: nat)
    ensures (l % LINES + d) % LINES == (l + d) % LINES
  {
  }

  lemma RingMinusIs(v: nat, amount: nat)
    requires v < LINES && amount < LINES
    ensures RingMinus(v, amount, LINES) == if v >= amount then v - amount else v + LINES - amount
  {
    SizesArePowers();
    AndMask((v - amount) % TWO32, 13);
  }

  /** The ring slot of line `l`, counted from the first line ever; lines before it are padding. */
  function Slot(l: int): (r: nat)
    ensures r < LINES
  {
    l % LINES
  }

  lemma SlotPlus(l: int, d: nat)
    requires d < LINES
    ensures RingPlus(Slot(l), d, LINES) == Slot(l + d)
  {
    RingPlusLines(Slot(l), d);
    ModPlus(l, d);
  }

  lemma SlotMinus(r: int, l: int)
    requires 0 <= r - l < LINES
    ensures RingMinus(Slot(r), Slot(l), LINES) == r - l
  {
    RingMinusIs(Slot(r), Slot(l));
  }

  lemma SlotsDiffer(r: int, l: int)
    requires 0 < r - l < LINES
    ensures Slot(r) != Slot(l)
  {
  }

  // ---------------------------------------------------------------- line starts of a text

  /** Where the lines of a text start; a line starts with its first character, so a newline at
      the very end starts none. */
  function Starts(text: Text): (r: seq<nat>)
    ensures |r| >= 1
  {
    if text == [] then [0]
    else
      var n := |text| - 1;
      if n > 0 && text[n - 1] == NEWLINE then Starts(text[..n]) + [n] else Starts(text[..n])
  }

  lemma {:induction false} StartsIncrease(text: Text)
    ensures forall i, j :: 0 <= i < j < |Starts(text)| ==> Starts(text)[i] < Starts(text)[j]
    ensures forall i :: 0 <= i < |Starts(text)| ==> Starts(text)[i] == 0 || Starts(text)[i] < |text|
  {
    if text != [] { StartsIncrease(text[..|text| - 1]); }
  }

  /** The starts are 0 and every position right after a newline. */
  lemma {:induction false} StartsAre(text: Text, p: nat)
    ensures p in Starts(text) <==> p == 0 || (p < |text| && text[p - 1] == NEWLINE)
  {
    if text != [] {
      var n := |text| - 1;
      StartsAre(text[..n], p);
    }
  }

  lemma StartsGrow(text: Text, ch: Byte)
    ensures Starts(text + [ch])
            == if text != [] && text[|text| - 1] == NEWLINE then Starts(text) + [|text|] else Starts(text)
  {
    assert (text + [ch])[..|text|] == text;
  }

  lemma Grown(before: Text, buffer: Text, a: nat, i: nat)
    requires a <= i < |buffer|
    ensures before + buffer[a..i] + [buffer[i]] == before + buffer[a..i + 1]
  {
    assert buffer[a..i + 1] == buffer[a..i] + [buffer[i]];
  }

  /** The start of line `l`, 0 for padding. */
  ghost function StartOf(s: seq<nat>, l: int): nat
    requires l < |s|
  {
    if l < 0 then 0 else s[l]
  }

  /** Of the lines held, the last one that starts at or before `index`, or the oldest one. */
  ghost predicate LastAtOrBefore(s: seq<nat>, line: int, index: nat) {
    && |s| - LINES <= line < |s|
    && (StartOf(s, line) <= index || line == |s| - LINES)
    && (forall l :: line < l < |s| ==> StartOf(s, l) > index)
  }

  // ---------------------------------------------------------------- the rings

  ghost predicate HoldsLines(lines: seq<nat>, s: seq<nat>) {
    |lines| == LINES && |s| >= 1 &&
    forall l {:trigger Slot(l)} :: |s| - LINES <= l < |s| ==> lines[Slot(l)] == StartOf(s, l)
  }

  function CharSlot(j: nat): (r: nat)
    ensures r < CHARS
  {
    j % CHARS
  }

  lemma CharSlotNext(j: nat)
    ensures RingPlus(CharSlot(j), 1, CHARS) == CharSlot(j + 1)
  {
    RingPlusChars(CharSlot(j), 1);
    ModPlusOne(j);
  }

  lemma RingPlusChars(v: nat, amount: nat)
    requires v + amount < TWO32
    ensures RingPlus(v, amount, CHARS) == (v + amount) % CHARS
  {
    SizesArePowers();
    RingPlusIs(v, amount, 16);
  }

  lemma ModPlusOne(j: nat)
    ensures (j % CHARS + 1) % CHARS == (j + 1) % CHARS
  {
  }

  ghost predicate HoldsText(buf: seq<Byte>, text: Text) {
    |buf| == CHARS &&
    forall j: nat {:trigger CharSlot(j)} :: |text| - CHARS <= j < |text| ==> buf[CharSlot(j)] == text[j]
  }

  lemma AddLine(lines: seq<nat>, s: seq<nat>, start: nat, lines2: seq<nat>)
    requires HoldsLines(lines, s) && lines2 == lines[Slot(|s|) := start]
    ensures HoldsLines(lines2, s + [start])
  {
    var s2 := s + [start];
    forall l {:trigger Slot(l)} | |s2| - LINES <= l < |s2| ensures lines2[Slot(l)] == StartOf(s2, l) {
      if l < |s| { SlotsDiffer(|s|, l); }
    }
  }

  lemma AddChar(buf: seq<Byte>, text: Text, ch: Byte, buf2: seq<Byte>)
    requires HoldsText(buf, text) && buf2 == buf[CharSlot(|text|) := ch]
    ensures HoldsText(buf2, text + [ch])
  {
    var text2 := text + [ch];
    forall j: nat {:trigger CharSlot(j)} | |text2| - CHARS <= j < |text2| ensures buf2[CharSlot(j)] == text2[j] {
      if j < |text| { CharSlotsDiffer(|text|, j); }
    }
  }

  lemma CharSlotsDiffer(r: nat, l: nat)
    requires 0 < r - l < CHARS
    ensures CharSlot(r) != CharSlot(l)
  {
  }

  /** Oldest to newest, the ring of line starts never decreases. */
  lemma RingIncreases(lines: seq<nat>, text: Text, l: int, m: int)
    requires HoldsLines(lines, Starts(text)) && |Starts(text)| - LINES <= l <= m < |Starts(text)|
    ensures lines[Slot(l)] <= lines[Slot(m)]
  {
    StartsIncrease(text);
    var s := Starts(text);
    assert lines[Slot(l)] == StartOf(s, l);
    assert lines[Slot(m)] == StartOf(s, m);
  }

  class Screen {
    const logicalLines: array<nat>
    const buf: array<Byte>
    var logicalLineToWrite: nat
    var logicalNewline: bool
    var nextCharInBuf: nat
    var charCount: nat
    /** Every character accepted so far. */
    ghost var text: Text

    ghost predicate Valid()
      reads this, logicalLines, buf
    {
      && charCount == |text| < TWO64
      && nextCharInBuf == CharSlot(|text|)
      && logicalNewline == (text != [] && text[|text| - 1] == NEWLINE)
      && logicalLineToWrite == Slot(|Starts(text)| - 1)
      && HoldsLines(logicalLines[..], Starts(text))
      && HoldsText(buf[..], text)
    }

    constructor ()
      ensures Valid() && text == [] && fresh(logicalLines) && fresh(buf)
    {
      logicalLines := new nat[LINES](_ => 0);
      buf := new Byte[CHARS](_ => 0);
      logicalLineToWrite := 0;
      logicalNewline := false;
      nextCharInBuf := 0;
      charCount := 0;
      text := [];
    }

    /** A new line starts at the current character. */
    method StartLine()
      requires charCount == |text| && HoldsLines(logicalLines[..], Starts(text))
               && logicalLineToWrite == Slot(|Starts(text)| - 1)
      modifies this`logicalLineToWrite, this`logicalNewline, logicalLines
      ensures !logicalNewline && logicalLineToWrite == Slot(|Starts(text)|)
      ensures HoldsLines(logicalLines[..], Starts(text) + [charCount])
    {
      ghost var was, s := logicalLines[..], Starts(text);
      SlotPlus(|s| - 1, 1);
      logicalLineToWrite := RingPlus(logicalLineToWrite, 1, LINES);
      logicalLines[logicalLineToWrite] := charCount;
      AddLine(was, s, charCount, logicalLines[..]);
      logicalNewline := false;
    }

    method StoreChar(ch: Byte)
      requires nextCharInBuf == CharSlot(|text|) && HoldsText(buf[..], text)
      modifies buf
      ensures HoldsText(buf[..], text + [ch])
    {
      ghost var was := buf[..];
      buf[nextCharInBuf] := ch;
      AddChar(was, text, ch, buf[..]);
    }

    /** Accepts one character. */
    method Put(ch: Byte)
      requires Valid() && charCount + 1 < TWO64
      modifies this, logicalLines, buf
      ensures Valid() && text == old(text) + [ch] && charCount == old(charCount) + 1
    {
      StartsGrow(text, ch);
      CharSlotNext(|text|);
      StoreChar(ch);
      if logicalNewline { StartLine(); }
      if ch == NEWLINE { logicalNewline := true; }
      nextCharInBuf := RingPlus(nextCharInBuf, 1, CHARS);
      charCount := charCount + 1;
      Accepted(ch);
    }

    ghost method Accepted(ch: Byte)
      requires charCount == |text| + 1 < TWO64 && nextCharInBuf == CharSlot(|text| + 1)
      requires logicalNewline == (ch == NEWLINE) && logicalLineToWrite == Slot(|Starts(text + [ch])| - 1)
      requires HoldsLines(logicalLines[..], Starts(text + [ch])) && HoldsText(buf[..], text + [ch])
      modifies this`text
      ensures Valid() && text == old(text) + [ch]
    {
      text := text + [ch];
    }

    /** Accepts a buffer, or its last 65536 characters when it is longer. */
    method Flush(buffer: Text)
      requires Valid() && charCount + |buffer| < TWO64
      modifies this, logicalLines, buf
      ensures Valid()
      ensures text == old(text) + if |buffer| > CHARS then buffer[|buffer| - CHARS..] else buffer
    {
      var startIndex := 0;
      if |buffer| > CHARS { startIndex := |buffer| - CHARS; }
      Accept(buffer, startIndex);
    }

    method Accept(buffer: Text, startIndex: nat)
      requires Valid() && startIndex <= |buffer| && charCount + |buffer| < TWO64
      modifies this, logicalLines, buf
      ensures Valid() && text == old(text) + buffer[startIndex..]
    {
      ghost var before, room := text, TWO64 - |buffer|;
      var i := startIndex;
      while i < |buffer|
        invariant startIndex <= i <= |buffer| && Valid() && charCount < room + i
        invariant text == before + buffer[startIndex..i]
      {
        Put(buffer[i]);
        Grown(before, buffer, startIndex, i);
        i := i + 1;
      }
      assert buffer[startIndex..i] == buffer[startIndex..];
    }

    /** The slot halfway between two. */
    method Middle(left: nat, right: nat, ghost lo: int, ghost hi: int) returns (mid: nat)
      requires Valid() && |Starts(text)| - LINES <= lo < hi < |Starts(text)|
      requires left == Slot(lo) && right == Slot(hi) && RingMinus(right, left, LINES) == hi - lo > 1
      ensures var middle := lo + (hi - lo) / 2;
              && mid == Slot(middle) && logicalLines[mid] == StartOf(Starts(text), middle)
              && RingMinus(right, mid, LINES) == hi - middle && RingMinus(mid, left, LINES) == middle - lo
    {
      var half := RingMinus(right, left, LINES) / 2;
      SlotPlus(lo, half);
      mid := RingPlus(left, half, LINES);
      SlotMinus(hi, lo + half);
      SlotMinus(lo + half, lo);
      assert logicalLines[..][Slot(lo + half)] == StartOf(Starts(text), lo + half);
    }

    /** The slot of the last line that starts at or before `index`, or of the oldest line held. */
    method IndexToLogicalLine(index: nat) returns (slot: nat)
      requires Valid()
      ensures exists line :: slot == Slot(line) && LastAtOrBefore(Starts(text), line, index)
    {
      ghost var s := Starts(text);
      ghost var hi, lo := |s| - 1, |s| - LINES;
      assert logicalLines[..][Slot(hi)] == StartOf(s, hi);
      if index >= logicalLines[logicalLineToWrite] {
        assert LastAtOrBefore(s, hi, index);
        return logicalLineToWrite;
      }
      var right := logicalLineToWrite;
      SlotPlus(hi, 1);
      SlotAround(lo);
      var left := RingPlus(right, 1, LINES);
      ghost var line;
      slot, line := Narrow(index, left, right, lo, hi);
      LaterLines(text, line, index);
      assert LastAtOrBefore(s, line, index);
    }

    /** The binary search between the oldest line and a line that starts after `index`. */
    method Narrow(index: nat, first: nat, last: nat, ghost oldest: int,
                  ghost newest: int) returns (slot: nat, ghost line: int)
      requires Valid() && oldest == |Starts(text)| - LINES && newest == |Starts(text)| - 1
      requires first == Slot(oldest) && last == Slot(newest) && StartOf(Starts(text), newest) > index
      ensures oldest <= line < newest && slot == Slot(line)
      ensures StartOf(Starts(text), line) <= index || line == oldest
      ensures StartOf(Starts(text), line + 1) > index
    {
      ghost var s := Starts(text);
      ghost var lo, hi := oldest, newest;
      var left, right := first, last;
      SlotMinus(hi, lo);
      while RingMinus(right, left, LINES) > 1
        invariant oldest <= lo < hi <= newest && left == Slot(lo) && right == Slot(hi)
                  && RingMinus(right, left, LINES) == hi - lo
        invariant StartOf(s, hi) > index && (StartOf(s, lo) <= index || lo == oldest)
        decreases hi - lo
      {
        ghost var middle := lo + (hi - lo) / 2;
        var mid := Middle(left, right, lo, hi);
        if logicalLines[mid] > index {
          right := mid;
          hi := middle;
        } else {
          left := mid;
          lo := middle;
        }
      }
      return left, lo;
    }
  }

  lemma SlotAround(l: int)
    ensures Slot(l) == Slot(l + LINES)
  {
  }

  lemma LaterLines(text: Text, line: int, index: nat)
    requires line + 1 < |Starts(text)| && StartOf(Starts(text), line + 1) > index
    ensures forall l :: line < l < |Starts(text)| ==> StartOf(Starts(text), l) > index
  {
    StartsIncrease(text);
  }
}
