/** KERNEL.INF: written by the image builder, read back by the loader. */
module KernelInfo {
  import opened Bits
  import opened Options
  import opened Texts

  const EQUALS: Byte := 61
  const ZERO: Byte := 48
  const SIZE_KEY: Text := [75, 69, 82, 78, 69, 76, 95, 83, 73, 90, 69, 95, 66, 89, 84, 69, 83] // KERNEL_SIZE_BYTES
  const LBA_KEY: Text := [75, 69, 82, 78, 69, 76, 95, 83, 84, 65, 82, 84, 95, 76, 66, 65] // KERNEL_START_LBA

  datatype Info = Info(bytes: Option<nat>, lbaStart: Option<nat>)

  // ---------------------------------------------------------------- numbers in decimal

  function Decimal(n: nat): (r: Text)
    ensures |r| >= 1
  {
    if n < 10 then [ZERO + n] else Decimal(n / 10) + [ZERO + n % 10]
  }

  lemma {:induction false} DecimalDigits(n: nat)
    ensures forall i :: 0 <= i < |Decimal(n)| ==> ZERO <= Decimal(n)[i] <= ZERO + 9
  {
    if n >= 10 { DecimalDigits(n / 10); }
  }

  function Pow10(k: nat): (r: nat)
    ensures r > 0
  {
    if k == 0 then 1 else 10 * Pow10(k - 1)
  }

  lemma {:induction false} DecimalLength(n: nat, k: nat)
    requires n < Pow10(k) && k >= 1
    ensures |Decimal(n)| <= k
  {
    if n >= 10 { DecimalLength(n / 10, k - 1); }
  }

  lemma U64Length(n: U64)
    ensures |Decimal(n)| <= 20
  {
    assert Pow10(5) == 100000;
    assert Pow10(10) == 100000 * Pow10(5);
    assert Pow10(15) == 100000 * Pow10(10);
    assert Pow10(20) == 100000 * Pow10(15);
    DecimalLength(n, 20);
  }

  /** Fills the buffer from its end backwards; the text is what lies from `beg` on. */
  method U64ToString(number: U64, tmp: array<Byte>) returns (beg: nat)
    requires tmp.Length >= 20
    modifies tmp
    ensures beg <= tmp.Length && tmp[beg..] == Decimal(number)
    ensures tmp[..beg] == old(tmp[..beg])
  {
    U64Length(number);
    var data: nat := number;
    beg := tmp.Length - 1;
    tmp[beg] := ZERO + data % 10;
    data := data / 10;
    while data != 0
      invariant beg < tmp.Length && |Decimal(number)| == |tmp[beg..]| + (if data == 0 then 0 else |Decimal(data)|)
      invariant Decimal(number) == (if data == 0 then [] else Decimal(data)) + tmp[beg..]
      invariant tmp[..beg] == old(tmp[..beg])
      decreases data
    {
      Unfolded(data, tmp[beg..]);
      beg := PutBefore(tmp, beg, ZERO + data % 10);
      data := data / 10;
    }
  }

  method PutBefore(tmp: array<Byte>, end: nat, ch: Byte) returns (beg: nat)
    requires 0 < end <= tmp.Length
    modifies tmp
    ensures beg == end - 1 && tmp[beg..] == [ch] + old(tmp[end..]) && tmp[..beg] == old(tmp[..beg])
  {
    beg := end - 1;
    tmp[beg] := ch;
  }

  /** The last digit moves from the number to the text behind it. */
  lemma Unfolded(n: nat, rest: Text)
    requires n > 0
    ensures Decimal(n) + rest == (if n / 10 == 0 then [] else Decimal(n / 10)) + ([ZERO + n % 10] + rest)
    ensures |Decimal(n)| == (if n / 10 == 0 then 0 else |Decimal(n / 10)|) + 1
  {
  }

  // ---------------------------------------------------------------- the tokenizer

  /** The text before the first `token`. */
  function First(s: Text, token: Byte): (r: Text)
    ensures |r| <= |s|
  {
    if s == [] || s[0] == token then [] else [s[0]] + First(s[1..], token)
  }

  /** The pieces between the tokens; nothing follows a token that ends the text. */
  function Split(s: Text, token: Byte): (r: seq<Text>) {
    if s == [] then []
    else
      var t := First(s, token);
      [t] + (if |t| + 1 <= |s| then Split(s[|t| + 1..], token) else [])
  }

  lemma {:induction false} FirstIs(s: Text, token: Byte, n: nat)
    requires n <= |s| && token !in s[..n] && (n < |s| ==> s[n] == token)
    ensures First(s, token) == s[..n]
  {
    if n > 0 {
      assert s[0] in s[..n];
      assert s[1..][..n - 1] == s[..n][1..];
      FirstIs(s[1..], token, n - 1);
      assert s[..n] == [s[0]] + s[1..][..n - 1];
    }
  }

  /** The pieces from a position on. */
  function SplitFrom(s: Text, token: Byte, pos: nat): seq<Text> {
    if pos <= |s| then Split(s[pos..], token) else []
  }

  lemma SplitFromStep(s: Text, token: Byte, pos: nat, t: Text)
    requires pos < |s| && t == First(s[pos..], token)
    ensures SplitFrom(s, token, pos) == [t] + SplitFrom(s, token, pos + |t| + 1)
  {
    var rest := s[pos..];
    if |t| + 1 <= |rest| { assert s[pos + |t| + 1..] == rest[|t| + 1..]; }
  }

  lemma SplitFromStart(s: Text, token: Byte)
    ensures SplitFrom(s, token, 0) == Split(s, token)
  {
    assert s[0..] == s;
  }

  method SplitString(s: Text, token: Byte, from: nat) returns (r: Text)
    requires from < |s|
    ensures r == First(s[from..], token)
  {
    var i := from;
    while i < |s|
      invariant from <= i <= |s| && token !in s[from..i]
    {
      assert s[from..][..i - from] == s[from..i];
      if s[i] == token {
        FirstIs(s[from..], token, i - from);
        return s[from..i];
      }
      assert s[from..i + 1] == s[from..i] + [s[i]];
      i := i + 1;
    }
    assert s[from..][..i - from] == s[from..i];
    FirstIs(s[from..], token, i - from);
    return s[from..];
  }

  /** A token, its separator and more. */
  lemma SplitStep(t: Text, token: Byte, rest: Text)
    requires token !in t
    ensures Split(t + [token] + rest, token) == [t] + Split(rest, token)
  {
    var s := t + [token] + rest;
    assert s[..|t|] == t;
    FirstIs(s, token, |t|);
    assert s[|t| + 1..] == rest;
  }

  lemma SplitLast(t: Text, token: Byte)
    requires token !in t && t != []
    ensures Split(t, token) == [t]
  {
    assert t[..|t|] == t;
    FirstIs(t, token, |t|);
  }

  // ---------------------------------------------------------------- the reader

  /** The digit loop, on 64-bit words, for whatever bytes it is given. */
  function Digits(t: Text): U64 {
    if t == [] then 0 else (Digits(t[..|t| - 1]) * 10 + (t[|t| - 1] - ZERO)) % TWO64
  }

  method ParseDigits(t: Text) returns (r: U64)
    ensures r == Digits(t)
  {
    r := 0;
    var i := 0;
    while i < |t|
      invariant i <= |t| && r == Digits(t[..i])
    {
      assert t[..i + 1][..i] == t[..i];
      r := (r * 10 + (t[i] - ZERO)) % TWO64;
      i := i + 1;
    }
    assert t[..i] == t;
  }

  function Assign(info: Info, layout: nat, v: nat): Info {
    if layout == 0 then info.(bytes := Some(v)) else if layout == 1 then info.(lbaStart := Some(v)) else info
  }

  /** Every piece after the first one of a line is taken as the line's number. */
  function ParseTokens(tokens: seq<Text>, second: bool, layout: nat, info: Info): Info {
    if tokens == [] then info
    else ParseTokens(tokens[1..], true, layout, if second then Assign(info, layout, Digits(tokens[0])) else info)
  }

  function ParseLines(lines: seq<Text>, layout: nat, info: Info): Info {
    if lines == [] then info
    else ParseLines(lines[1..], layout + 1, ParseTokens(Split(lines[0], EQUALS), false, layout, info))
  }

  function Parse(file: Text): Info {
    ParseLines(Split(file, NEWLINE), 0, Info(None, None))
  }

  method ReadLine(line: Text, layout: nat, before: Info) returns (info: Info)
    ensures info == ParseTokens(Split(line, EQUALS), false, layout, before)
  {
    info := before;
    var pos: nat, second := 0, false;
    SplitFromStart(line, EQUALS);
    while pos < |line|
      invariant ParseTokens(Split(line, EQUALS), false, layout, before)
                == ParseTokens(SplitFrom(line, EQUALS, pos), second, layout, info)
      decreases |line| - pos
    {
      var token := SplitString(line, EQUALS, pos);
      SplitFromStep(line, EQUALS, pos, token);
      if second {
        var number := ParseDigits(token);
        info := Assign(info, layout, number);
      }
      second := true;
      pos := pos + |token| + 1;
    }
  }

  /** The loop at the end of `getKernelInfo`. */
  method GetKernelInfo(file: Text) returns (info: Info)
    ensures info == Parse(file)
  {
    info := Info(None, None);
    var pos: nat, layout: nat := 0, 0;
    SplitFromStart(file, NEWLINE);
    while pos < |file|
      invariant Parse(file) == ParseLines(SplitFrom(file, NEWLINE, pos), layout, info)
      decreases |file| - pos
    {
      var line := SplitString(file, NEWLINE, pos);
      SplitFromStep(file, NEWLINE, pos, line);
      info := ReadLine(line, layout, info);
      layout := layout + 1;
      pos := pos + |line| + 1;
    }
  }

  // ---------------------------------------------------------------- the writer

  function Line(key: Text, n: nat): Text {
    key + [EQUALS] + Decimal(n) + [NEWLINE]
  }

  method WriteKernelInfo(kernelSizeBytes: U64, startLBA: U64, tmp: array<Byte>) returns (file: Text)
    requires tmp.Length >= 20
    modifies tmp
    ensures file == Line(SIZE_KEY, kernelSizeBytes) + Line(LBA_KEY, startLBA)
  {
    file := SIZE_KEY + [EQUALS];
    var beg := U64ToString(kernelSizeBytes, tmp);
    file := file + tmp[beg..];
    file := file + [NEWLINE];
    file := file + (LBA_KEY + [EQUALS]);
    beg := U64ToString(startLBA, tmp);
    file := file + tmp[beg..];
    file := file + [NEWLINE];
  }

  // ---------------------------------------------------------------- the written text as ASCII

  predicate IsAscii(s: string) {
    forall i :: 0 <= i < |s| ==> s[i] as int < 128
  }

  function Ascii(s: string): Text
    requires IsAscii(s)
  {
    seq(|s|, i requires 0 <= i < |s| => s[i] as int)
  }

  lemma AsciiConcat(s: string, t: string)
    requires IsAscii(s) && IsAscii(t)
    ensures IsAscii(s + t) && Ascii(s + t) == Ascii(s) + Ascii(t)
  {
    assert forall i :: 0 <= i < |s + t| ==> (s + t)[i] == if i < |s| then s[i] else t[i - |s|];
  }

  /** The usual numeral of a number. */
  function Numeral(n: nat): (s: string)
    ensures IsAscii(s)
  {
    if n < 10 then ["0123456789"[n]] else Numeral(n / 10) + ["0123456789"[n % 10]]
  }

  lemma {:induction false} DecimalIsNumeral(n: nat)
    ensures Decimal(n) == Ascii(Numeral(n))
  {
    if n >= 10 {
      DecimalIsNumeral(n / 10);
      AsciiConcat(Numeral(n / 10), ["0123456789"[n % 10]]);
    }
  }

  lemma SizeKeyIsAscii()
    ensures SIZE_KEY + [EQUALS] == Ascii("KERNEL_SIZE_BYTES=")
  {
    var s, t := SIZE_KEY + [EQUALS], Ascii("KERNEL_SIZE_BYTES=");
    assert |s| == |t|;
    assert s[..9] == t[..9];
    assert s[9..] == t[9..];
    assert s == s[..9] + s[9..] && t == t[..9] + t[9..];
  }

  lemma LbaKeyIsAscii()
    ensures LBA_KEY + [EQUALS] == Ascii("KERNEL_START_LBA=")
  {
    var s, t := LBA_KEY + [EQUALS], Ascii("KERNEL_START_LBA=");
    assert |s| == |t|;
    assert s[..9] == t[..9];
    assert s[9..] == t[9..];
    assert s == s[..9] + s[9..] && t == t[..9] + t[9..];
  }

  /** A line of the file, as a reader of the text sees it. */
  lemma LineIsAscii(key: Text, name: string, n: nat)
    requires IsAscii(name) && key + [EQUALS] == Ascii(name)
    ensures IsAscii(name + Numeral(n) + "\n") && Line(key, n) == Ascii(name + Numeral(n) + "\n")
  {
    DecimalIsNumeral(n);
    AsciiConcat(name, Numeral(n));
    AsciiConcat(name + Numeral(n), "\n");
  }

  /** The file is two lines of ASCII text. */
  lemma WrittenAsAscii(kernelSizeBytes: U64, startLBA: U64)
    ensures var size, lba := "KERNEL_SIZE_BYTES=" + Numeral(kernelSizeBytes) + "\n",
                             "KERNEL_START_LBA=" + Numeral(startLBA) + "\n";
            && IsAscii(size + lba)
            && Line(SIZE_KEY, kernelSizeBytes) + Line(LBA_KEY, startLBA) == Ascii(size + lba)
  {
    SizeKeyIsAscii();
    LbaKeyIsAscii();
    LineIsAscii(SIZE_KEY, "KERNEL_SIZE_BYTES=", kernelSizeBytes);
    LineIsAscii(LBA_KEY, "KERNEL_START_LBA=", startLBA);
    AsciiConcat("KERNEL_SIZE_BYTES=" + Numeral(kernelSizeBytes) + "\n",
                "KERNEL_START_LBA=" + Numeral(startLBA) + "\n");
  }

  // ---------------------------------------------------------------- the round trip

  lemma {:induction false} DigitsOfDecimal(n: U64)
    ensures Digits(Decimal(n)) == n
  {
    if n >= 10 {
      DigitsOfDecimal(n / 10);
      var t := Decimal(n);
      assert t[..|t| - 1] == Decimal(n / 10);
    } else {
      assert Decimal(n)[..0] == [];
    }
  }

  /** No step of the digit loop overflows: what it computes before reducing is at most `n`. */
  lemma {:induction false} DigitsNeverWrap(n: U64, k: nat)
    requires k < |Decimal(n)|
    ensures Digits(Decimal(n)[..k]) * 10 + (Decimal(n)[k] - ZERO) <= n
  {
    var t := Decimal(n);
    if n < 10 {
      assert t[..0] == [];
    } else if k == |t| - 1 {
      assert t[..k] == Decimal(n / 10);
      DigitsOfDecimal(n / 10);
    } else {
      DigitsNeverWrap(n / 10, k);
      assert t[..k] == Decimal(n / 10)[..k];
    }
  }

  lemma LineReads(key: Text, n: U64, layout: nat, info: Info)
    requires EQUALS !in key
    ensures ParseTokens(Split(key + [EQUALS] + Decimal(n), EQUALS), false, layout, info) == Assign(info, layout, n)
  {
    DecimalDigits(n);
    SplitStep(key, EQUALS, Decimal(n));
    SplitLast(Decimal(n), EQUALS);
    DigitsOfDecimal(n);
    var tokens := [key, Decimal(n)];
    assert Split(key + [EQUALS] + Decimal(n), EQUALS) == tokens;
    assert tokens[1..] == [Decimal(n)];
    assert ParseTokens(tokens[1..], true, layout, info) == ParseTokens([], true, layout, Assign(info, layout, n));
  }

  /** What the image builder writes is what the loader reads, for every pair of numbers. */
  lemma RoundTrip(kernelSizeBytes: U64, startLBA: U64)
    ensures Parse(Line(SIZE_KEY, kernelSizeBytes) + Line(LBA_KEY, startLBA))
              == Info(Some(kernelSizeBytes), Some(startLBA))
  {
    var a := SIZE_KEY + [EQUALS] + Decimal(kernelSizeBytes);
    var b := LBA_KEY + [EQUALS] + Decimal(startLBA);
    DecimalDigits(kernelSizeBytes);
    DecimalDigits(startLBA);
    var file := Line(SIZE_KEY, kernelSizeBytes) + Line(LBA_KEY, startLBA);
    assert file == a + [NEWLINE] + (b + [NEWLINE] + []);
    SplitStep(a, NEWLINE, b + [NEWLINE] + []);
    SplitStep(b, NEWLINE, []);
    assert Split(file, NEWLINE) == [a, b];
    LineReads(SIZE_KEY, kernelSizeBytes, 0, Info(None, None));
    var one := Info(Some(kernelSizeBytes), None);
    LineReads(LBA_KEY, startLBA, 1, one);
    assert [a, b][1..] == [b];
    assert ParseLines([b], 1, one) == ParseLines([], 2, Info(Some(kernelSizeBytes), Some(startLBA)));
  }
}
