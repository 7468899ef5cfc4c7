/** `calculateCRC32`: the table-driven checksum of the GPT header. The reference is the CRC of
    section 8 of RFC 1952, computed one bit at a time. */
module Crc32 {

  // ---------------------------------------------------------------- bit at a time

  /** One bit of the reflected division by the polynomial 0xEDB88320. */
  function Step(c: bv32): bv32 {
    if c & 1 == 1 then 0xedb88320 ^ (c >> 1) else c >> 1
  }

  /** `n` times the same step. */
  function Iter<W>(step: W -> W, n: nat, c: W): W {
    if n == 0 then c else Iter(step, n - 1, step(c))
  }

  // ---------------------------------------------------------------- the table

  /** `crc32Table`, a quarter at a time. */
  function FirstQuarter(i: bv8): bv32 {
    if i < 32 then
      if i < 16 then
        if i < 8 then
          if i < 4 then
            if i == 0 then 0x00000000 else if i == 1 then 0x77073096
            else if i == 2 then 0xee0e612c else 0x990951ba
          else
            if i == 4 then 0x076dc419 else if i == 5 then 0x706af48f
            else if i == 6 then 0xe963a535 else 0x9e6495a3
        else
          if i < 12 then
            if i == 8 then 0x0edb8832 else if i == 9 then 0x79dcb8a4
            else if i == 10 then 0xe0d5e91e else 0x97d2d988
          else
            if i == 12 then 0x09b64c2b else if i == 13 then 0x7eb17cbd
            else if i == 14 then 0xe7b82d07 else 0x90bf1d91
      else
        if i < 24 then
          if i < 20 then
            if i == 16 then 0x1db71064 else if i == 17 then 0x6ab020f2
            else if i == 18 then 0xf3b97148 else 0x84be41de
          else
            if i == 20 then 0x1adad47d else if i == 21 then 0x6ddde4eb
            else if i == 22 then 0xf4d4b551 else 0x83d385c7
        else
          if i < 28 then
            if i == 24 then 0x136c9856 else if i == 25 then 0x646ba8c0
            else if i == 26 then 0xfd62f97a else 0x8a65c9ec
          else
            if i == 28 then 0x14015c4f else if i == 29 then 0x63066cd9
            else if i == 30 then 0xfa0f3d63 else 0x8d080df5
    else
      if i < 48 then
        if i < 40 then
          if i < 36 then
            if i == 32 then 0x3b6e20c8 else if i == 33 then 0x4c69105e
            else if i == 34 then 0xd56041e4 else 0xa2677172
          else
            if i == 36 then 0x3c03e4d1 else if i == 37 then 0x4b04d447
            else if i == 38 then 0xd20d85fd else 0xa50ab56b
        else
          if i < 44 then
            if i == 40 then 0x35b5a8fa else if i == 41 then 0x42b2986c
            else if i == 42 then 0xdbbbc9d6 else 0xacbcf940
          else
            if i == 44 then 0x32d86ce3 else if i == 45 then 0x45df5c75
            else if i == 46 then 0xdcd60dcf else 0xabd13d59
      else
        if i < 56 then
          if i < 52 then
            if i == 48 then 0x26d930ac else if i == 49 then 0x51de003a
            else if i == 50 then 0xc8d75180 else 0xbfd06116
          else
            if i == 52 then 0x21b4f4b5 else if i == 53 then 0x56b3c423
            else if i == 54 then 0xcfba9599 else 0xb8bda50f
        else
          if i < 60 then
            if i == 56 then 0x2802b89e else if i == 57 then 0x5f058808
            else if i == 58 then 0xc60cd9b2 else 0xb10be924
          else
            if i == 60 then 0x2f6f7c87 else if i == 61 then 0x58684c11
            else if i == 62 then 0xc1611dab else 0xb6662d3d
  }

  function SecondQuarter(i: bv8): bv32 {
    if i < 96 then
      if i < 80 then
        if i < 72 then
          if i < 68 then
            if i == 64 then 0x76dc4190 else if i == 65 then 0x01db7106
            else if i == 66 then 0x98d220bc else 0xefd5102a
          else
            if i == 68 then 0x71b18589 else if i == 69 then 0x06b6b51f
            else if i == 70 then 0x9fbfe4a5 else 0xe8b8d433
        else
          if i < 76 then
            if i == 72 then 0x7807c9a2 else if i == 73 then 0x0f00f934
            else if i == 74 then 0x9609a88e else 0xe10e9818
          else
            if i == 76 then 0x7f6a0dbb else if i == 77 then 0x086d3d2d
            else if i == 78 then 0x91646c97 else 0xe6635c01
      else
        if i < 88 then
          if i < 84 then
            if i == 80 then 0x6b6b51f4 else if i == 81 then 0x1c6c6162
            else if i == 82 then 0x856530d8 else 0xf262004e
          else
            if i == 84 then 0x6c0695ed else if i == 85 then 0x1b01a57b
            else if i == 86 then 0x8208f4c1 else 0xf50fc457
        else
          if i < 92 then
            if i == 88 then 0x65b0d9c6 else if i == 89 then 0x12b7e950
            else if i == 90 then 0x8bbeb8ea else 0xfcb9887c
          else
            if i == 92 then 0x62dd1ddf else if i == 93 then 0x15da2d49
            else if i == 94 then 0x8cd37cf3 else 0xfbd44c65
    else
      if i < 112 then
        if i < 104 then
          if i < 100 then
            if i == 96 then 0x4db26158 else if i == 97 then 0x3ab551ce
            else if i == 98 then 0xa3bc0074 else 0xd4bb30e2
          else
            if i == 100 then 0x4adfa541 else if i == 101 then 0x3dd895d7
            else if i == 102 then 0xa4d1c46d else 0xd3d6f4fb
        else
          if i < 108 then
            if i == 104 then 0x4369e96a else if i == 105 then 0x346ed9fc
            else if i == 106 then 0xad678846 else 0xda60b8d0
          else
            if i == 108 then 0x44042d73 else if i == 109 then 0x33031de5
            else if i == 110 then 0xaa0a4c5f else 0xdd0d7cc9
      else
        if i < 120 then
          if i < 116 then
            if i == 112 then 0x5005713c else if i == 113 then 0x270241aa
            else if i == 114 then 0xbe0b1010 else 0xc90c2086
          else
            if i == 116 then 0x5768b525 else if i == 117 then 0x206f85b3
            else if i == 118 then 0xb966d409 else 0xce61e49f
        else
          if i < 124 then
            if i == 120 then 0x5edef90e else if i == 121 then 0x29d9c998
            else if i == 122 then 0xb0d09822 else 0xc7d7a8b4
          else
            if i == 124 then 0x59b33d17 else if i == 125 then 0x2eb40d81
            else if i == 126 then 0xb7bd5c3b else 0xc0ba6cad
  }

  function ThirdQuarter(i: bv8): bv32 {
    if i < 160 then
      if i < 144 then
        if i < 136 then
          if i < 132 then
            if i == 128 then 0xedb88320 else if i == 129 then 0x9abfb3b6
            else if i == 130 then 0x03b6e20c else 0x74b1d29a
          else
            if i == 132 then 0xead54739 else if i == 133 then 0x9dd277af
            else if i == 134 then 0x04db2615 else 0x73dc1683
        else
          if i < 140 then
            if i == 136 then 0xe3630b12 else if i == 137 then 0x94643b84
            else if i == 138 then 0x0d6d6a3e else 0x7a6a5aa8
          else
            if i == 140 then 0xe40ecf0b else if i == 141 then 0x9309ff9d
            else if i == 142 then 0x0a00ae27 else 0x7d079eb1
      else
        if i < 152 then
          if i < 148 then
            if i == 144 then 0xf00f9344 else if i == 145 then 0x8708a3d2
            else if i == 146 then 0x1e01f268 else 0x6906c2fe
          else
            if i == 148 then 0xf762575d else if i == 149 then 0x806567cb
            else if i == 150 then 0x196c3671 else 0x6e6b06e7
        else
          if i < 156 then
            if i == 152 then 0xfed41b76 else if i == 153 then 0x89d32be0
            else if i == 154 then 0x10da7a5a else 0x67dd4acc
          else
            if i == 156 then 0xf9b9df6f else if i == 157 then 0x8ebeeff9
            else if i == 158 then 0x17b7be43 else 0x60b08ed5
    else
      if i < 176 then
        if i < 168 then
          if i < 164 then
            if i == 160 then 0xd6d6a3e8 else if i == 161 then 0xa1d1937e
            else if i == 162 then 0x38d8c2c4 else 0x4fdff252
          else
            if i == 164 then 0xd1bb67f1 else if i == 165 then 0xa6bc5767
            else if i == 166 then 0x3fb506dd else 0x48b2364b
        else
          if i < 172 then
            if i == 168 then 0xd80d2bda else if i == 169 then 0xaf0a1b4c
            else if i == 170 then 0x36034af6 else 0x41047a60
          else
            if i == 172 then 0xdf60efc3 else if i == 173 then 0xa867df55
            else if i == 174 then 0x316e8eef else 0x4669be79
      else
        if i < 184 then
          if i < 180 then
            if i == 176 then 0xcb61b38c else if i == 177 then 0xbc66831a
            else if i == 178 then 0x256fd2a0 else 0x5268e236
          else
            if i == 180 then 0xcc0c7795 else if i == 181 then 0xbb0b4703
            else if i == 182 then 0x220216b9 else 0x5505262f
        else
          if i < 188 then
            if i == 184 then 0xc5ba3bbe else if i == 185 then 0xb2bd0b28
            else if i == 186 then 0x2bb45a92 else 0x5cb36a04
          else
            if i == 188 then 0xc2d7ffa7 else if i == 189 then 0xb5d0cf31
            else if i == 190 then 0x2cd99e8b else 0x5bdeae1d
  }

  function FourthQuarter(i: bv8): bv32 {
    if i < 224 then
      if i < 208 then
        if i < 200 then
          if i < 196 then
            if i == 192 then 0x9b64c2b0 else if i == 193 then 0xec63f226
            else if i == 194 then 0x756aa39c else 0x026d930a
          else
            if i == 196 then 0x9c0906a9 else if i == 197 then 0xeb0e363f
            else if i == 198 then 0x72076785 else 0x05005713
        else
          if i < 204 then
            if i == 200 then 0x95bf4a82 else if i == 201 then 0xe2b87a14
            else if i == 202 then 0x7bb12bae else 0x0cb61b38
          else
            if i == 204 then 0x92d28e9b else if i == 205 then 0xe5d5be0d
            else if i == 206 then 0x7cdcefb7 else 0x0bdbdf21
      else
        if i < 216 then
          if i < 212 then
            if i == 208 then 0x86d3d2d4 else if i == 209 then 0xf1d4e242
            else if i == 210 then 0x68ddb3f8 else 0x1fda836e
          else
            if i == 212 then 0x81be16cd else if i == 213 then 0xf6b9265b
            else if i == 214 then 0x6fb077e1 else 0x18b74777
        else
          if i < 220 then
            if i == 216 then 0x88085ae6 else if i == 217 then 0xff0f6a70
            else if i == 218 then 0x66063bca else 0x11010b5c
          else
            if i == 220 then 0x8f659eff else if i == 221 then 0xf862ae69
            else if i == 222 then 0x616bffd3 else 0x166ccf45
    else
      if i < 240 then
        if i < 232 then
          if i < 228 then
            if i == 224 then 0xa00ae278 else if i == 225 then 0xd70dd2ee
            else if i == 226 then 0x4e048354 else 0x3903b3c2
          else
            if i == 228 then 0xa7672661 else if i == 229 then 0xd06016f7
            else if i == 230 then 0x4969474d else 0x3e6e77db
        else
          if i < 236 then
            if i == 232 then 0xaed16a4a else if i == 233 then 0xd9d65adc
            else if i == 234 then 0x40df0b66 else 0x37d83bf0
          else
            if i == 236 then 0xa9bcae53 else if i == 237 then 0xdebb9ec5
            else if i == 238 then 0x47b2cf7f else 0x30b5ffe9
      else
        if i < 248 then
          if i < 244 then
            if i == 240 then 0xbdbdf21c else if i == 241 then 0xcabac28a
            else if i == 242 then 0x53b39330 else 0x24b4a3a6
          else
            if i == 244 then 0xbad03605 else if i == 245 then 0xcdd70693
            else if i == 246 then 0x54de5729 else 0x23d967bf
        else
          if i < 252 then
            if i == 248 then 0xb3667a2e else if i == 249 then 0xc4614ab8
            else if i == 250 then 0x5d681b02 else 0x2a6f2b94
          else
            if i == 252 then 0xb40bbe37 else if i == 253 then 0xc30c8ea1
            else if i == 254 then 0x5a05df1b else 0x2d02ef8d
  }

  function Table(i: bv8): bv32 {
    if i < 128 then
      if i < 64 then FirstQuarter(i) else SecondQuarter(i)
    else
      if i < 192 then ThirdQuarter(i) else FourthQuarter(i)
  }

  // ---------------------------------------------------------------- why a table is enough

  function Xor(a: bv32, b: bv32): bv32 { a ^ b }
  function Shr(a: bv32): bv32 { a >> 1 }
  predicate Even(a: bv32) { a & 1 == 0 }

  lemma OddStepShifts(c: bv32, h: bv32)
    requires h & 1 == 0 && c & 1 == 1
    ensures Step(c ^ h) == Step(c) ^ (h >> 1)
  {}

  lemma EvenStepShifts(c: bv32, h: bv32)
    requires h & 1 == 0 && c & 1 != 1
    ensures Step(c ^ h) == Step(c) ^ (h >> 1)
  {}

  /** A bit step treats the bits above the lowest one as a plain shift. */
  lemma StepShifts(c: bv32, h: bv32)
    requires h & 1 == 0
    ensures Step(c ^ h) == Step(c) ^ (h >> 1)
  {
    if c & 1 == 1 {
      OddStepShifts(c, h);
    } else {
      EvenStepShifts(c, h);
    }
  }

  lemma EvenStep(h: bv32)
    requires h & 1 != 1
    ensures h & 1 == 0 && Step(h) == h >> 1
  {}

  lemma OddStepsCancel(a: bv32, b: bv32)
    requires a & 1 == 1 && b & 1 == 1
    ensures Step(a ^ b) == Step(a) ^ Step(b)
  {}

  lemma XorCommutes(a: bv32, b: bv32)
    ensures Xor(a, b) == Xor(b, a)
  {}

  /** A bit step is linear. */
  lemma StepLinear(a: bv32, b: bv32)
    ensures Step(Xor(a, b)) == Xor(Step(a), Step(b))
  {
    if b & 1 != 1 {
      EvenStep(b);
      StepShifts(a, b);
    } else if a & 1 != 1 {
      EvenStep(a);
      StepShifts(b, a);
      XorCommutes(a, b);
      XorCommutes(Step(a), Step(b));
    } else {
      OddStepsCancel(a, b);
    }
  }

  // The arguments from one bit to eight need only these two laws, so they are made for any
  // operations that obey them.

  ghost predicate Splits<W(!new)>(step: W -> W, xor: (W, W) -> W, shr: W -> W, even: W -> bool) {
    forall c: W, h: W {:trigger xor(c, h)} :: even(h) ==> step(xor(c, h)) == xor(step(c), shr(h))
  }

  /** The low `n` bits are clear. */
  ghost predicate Clear<W>(shr: W -> W, even: W -> bool, n: nat, h: W) {
    n == 0 || (even(h) && Clear(shr, even, n - 1, shr(h)))
  }

  /** Bits above the `n` lowest only move down in `n` steps. */
  lemma {:induction false} IterSplits<W(!new)>(step: W -> W, xor: (W, W) -> W, shr: W -> W, even: W -> bool, n: nat,
                                               c: W, h: W)
    requires Splits(step, xor, shr, even) && Clear(shr, even, n, h)
    ensures Iter(step, n, xor(c, h)) == xor(Iter(step, n, c), Iter(shr, n, h))
  {
    if n > 0 {
      IterSplits(step, xor, shr, even, n - 1, step(c), shr(h));
    }
  }

  ghost predicate Linear<W(!new)>(step: W -> W, xor: (W, W) -> W) {
    forall a: W, b: W {:trigger xor(a, b)} :: step(xor(a, b)) == xor(step(a), step(b))
  }

  lemma {:induction false} IterLinear<W(!new)>(step: W -> W, xor: (W, W) -> W, n: nat, a: W, b: W)
    requires Linear(step, xor)
    ensures Iter(step, n, xor(a, b)) == xor(Iter(step, n, a), Iter(step, n, b))
  {
    if n > 0 {
      IterLinear(step, xor, n - 1, step(a), step(b));
    }
  }

  function Sum4<W>(xor: (W, W) -> W, a: W, b: W, c: W, d: W): W {
    xor(xor(xor(a, b), c), d)
  }

  lemma IterSum4<W(!new)>(step: W -> W, xor: (W, W) -> W, n: nat, a: W, b: W, c: W, d: W)
    requires Linear(step, xor)
    ensures Iter(step, n, Sum4(xor, a, b, c, d))
         == Sum4(xor, Iter(step, n, a), Iter(step, n, b), Iter(step, n, c), Iter(step, n, d))
  {
    IterLinear(step, xor, n, xor(xor(a, b), c), d);
    IterLinear(step, xor, n, xor(a, b), c);
    IterLinear(step, xor, n, a, b);
  }

  lemma StepSplits()
    ensures Splits(Step, Xor, Shr, Even)
  {
    forall c: bv32, h: bv32 | Even(h) ensures Step(Xor(c, h)) == Xor(Step(c), Shr(h)) {
      StepShifts(c, h);
    }
  }

  lemma IterEight<W>(step: W -> W, c: W)
    ensures Iter(step, 8, c) == step(step(step(step(step(step(step(step(c))))))))
  {
  }

  lemma StepIsLinear()
    ensures Linear(Step, Xor)
  {
    forall a: bv32, b: bv32 ensures Step(Xor(a, b)) == Xor(Step(a), Step(b)) { StepLinear(a, b); }
  }

  function Bit(i: bv8, mask: bv8, value: bv32): bv32 {
    if i & mask != 0 then value else 0
  }

  /** The bits of a byte. */
  lemma Bits(i: bv8)
    ensures i as bv32 == Xor(Sum4(Xor, Bit(i, 1, 0x1), Bit(i, 2, 0x2), Bit(i, 4, 0x4), Bit(i, 8, 0x8)),
                             Sum4(Xor, Bit(i, 16, 0x10), Bit(i, 32, 0x20), Bit(i, 64, 0x40), Bit(i, 128, 0x80)))
  {}

  /** What eight steps make of them. */
  function BitSum(i: bv8): bv32 {
    Xor(Sum4(Xor, Bit(i, 1, 0x77073096), Bit(i, 2, 0xee0e612c), Bit(i, 4, 0x76dc419), Bit(i, 8, 0xedb8832)),
        Sum4(Xor, Bit(i, 16, 0x1db71064), Bit(i, 32, 0x3b6e20c8), Bit(i, 64, 0x76dc4190), Bit(i, 128, 0xedb88320)))
  }

  lemma BitSteps(i: bv8, mask: bv8, w: bv32, k: bv32)
    requires Iter(Step, 8, w) == k && Iter(Step, 8, 0) == 0
    ensures Iter(Step, 8, Bit(i, mask, w)) == Bit(i, mask, k)
  {}

  lemma LowBitSteps()
    ensures Iter(Step, 8, 0) == 0
    ensures Iter(Step, 8, 1) == 0x77073096
    ensures Iter(Step, 8, 2) == 0xee0e612c
    ensures Iter(Step, 8, 4) == 0x076dc419
    ensures Iter(Step, 8, 8) == 0x0edb8832
  {}

  lemma HighBitSteps()
    ensures Iter(Step, 8, 16) == 0x1db71064
    ensures Iter(Step, 8, 32) == 0x3b6e20c8
    ensures Iter(Step, 8, 64) == 0x76dc4190
    ensures Iter(Step, 8, 128) == 0xedb88320
  {}

  lemma LowSum(i: bv8)
    requires Linear(Step, Xor)
    ensures Iter(Step, 8, Sum4(Xor, Bit(i, 1, 0x1), Bit(i, 2, 0x2), Bit(i, 4, 0x4), Bit(i, 8, 0x8)))
         == Sum4(Xor, Bit(i, 1, 0x77073096), Bit(i, 2, 0xee0e612c), Bit(i, 4, 0x76dc419), Bit(i, 8, 0xedb8832))
  {
    LowBitSteps();
    IterSum4(Step, Xor, 8, Bit(i, 1, 0x1), Bit(i, 2, 0x2), Bit(i, 4, 0x4), Bit(i, 8, 0x8));
    BitSteps(i, 1, 1, 0x77073096);
    BitSteps(i, 2, 2, 0xee0e612c);
    BitSteps(i, 4, 4, 0x76dc419);
    BitSteps(i, 8, 8, 0xedb8832);
  }

  lemma HighSum(i: bv8)
    requires Linear(Step, Xor)
    ensures Iter(Step, 8, Sum4(Xor, Bit(i, 16, 0x10), Bit(i, 32, 0x20), Bit(i, 64, 0x40), Bit(i, 128, 0x80)))
         == Sum4(Xor, Bit(i, 16, 0x1db71064), Bit(i, 32, 0x3b6e20c8), Bit(i, 64, 0x76dc4190), Bit(i, 128, 0xedb88320))
  {
    LowBitSteps();
    HighBitSteps();
    IterSum4(Step, Xor, 8, Bit(i, 16, 0x10), Bit(i, 32, 0x20), Bit(i, 64, 0x40), Bit(i, 128, 0x80));
    BitSteps(i, 16, 16, 0x1db71064);
    BitSteps(i, 32, 32, 0x3b6e20c8);
    BitSteps(i, 64, 64, 0x76dc4190);
    BitSteps(i, 128, 128, 0xedb88320);
  }

  lemma StepsAreBits(i: bv8)
    ensures Iter(Step, 8, i as bv32) == BitSum(i)
  {
    StepIsLinear();
    Bits(i);
    LowSum(i);
    HighSum(i);
    IterOfSum(Step, Xor, i as bv32,
              Sum4(Xor, Bit(i, 1, 0x1), Bit(i, 2, 0x2), Bit(i, 4, 0x4), Bit(i, 8, 0x8)),
              Sum4(Xor, Bit(i, 16, 0x10), Bit(i, 32, 0x20), Bit(i, 64, 0x40), Bit(i, 128, 0x80)),
              Sum4(Xor, Bit(i, 1, 0x77073096), Bit(i, 2, 0xee0e612c), Bit(i, 4, 0x76dc419), Bit(i, 8, 0xedb8832)),
              Sum4(Xor, Bit(i, 16, 0x1db71064), Bit(i, 32, 0x3b6e20c8), Bit(i, 64, 0x76dc4190),
                   Bit(i, 128, 0xedb88320)));
  }

  lemma IterOfSum<W(!new)>(step: W -> W, xor: (W, W) -> W, x: W, a: W, b: W, ra: W, rb: W)
    requires Linear(step, xor) && x == xor(a, b) && Iter(step, 8, a) == ra && Iter(step, 8, b) == rb
    ensures Iter(step, 8, x) == xor(ra, rb)
  {
    IterLinear(step, xor, 8, a, b);
  }

  /** The same sum, written out. */
  function PlainSum(i: bv8): bv32 {
    Xor(Xor(Xor(Xor(Bit(i, 1, 0x77073096), Bit(i, 2, 0xee0e612c)),
            Bit(i, 4, 0x076dc419)), Bit(i, 8, 0x0edb8832)),
        Xor(Xor(Xor(Bit(i, 16, 0x1db71064), Bit(i, 32, 0x3b6e20c8)),
            Bit(i, 64, 0x76dc4190)), Bit(i, 128, 0xedb88320)))
  }

  lemma SameSum(i: bv8)
    ensures PlainSum(i) == BitSum(i)
  {}

  lemma FirstEntriesLow(i: bv8)
    requires i < 32
    ensures FirstQuarter(i) == PlainSum(i)
  {}

  lemma FirstEntriesHigh(i: bv8)
    requires 32 <= i < 64
    ensures FirstQuarter(i) == PlainSum(i)
  {}

  lemma SecondEntriesLow(i: bv8)
    requires 64 <= i < 96
    ensures SecondQuarter(i) == PlainSum(i)
  {}

  lemma SecondEntriesHigh(i: bv8)
    requires 96 <= i < 128
    ensures SecondQuarter(i) == PlainSum(i)
  {}

  lemma ThirdEntriesLow(i: bv8)
    requires 128 <= i < 160
    ensures ThirdQuarter(i) == PlainSum(i)
  {}

  lemma ThirdEntriesHigh(i: bv8)
    requires 160 <= i < 192
    ensures ThirdQuarter(i) == PlainSum(i)
  {}

  lemma FourthEntriesLow(i: bv8)
    requires 192 <= i < 224
    ensures FourthQuarter(i) == PlainSum(i)
  {}

  lemma FourthEntriesHigh(i: bv8)
    requires 224 <= i
    ensures FourthQuarter(i) == PlainSum(i)
  {}

  /** Entry i is what eight steps make of i. */
  lemma TableEntry(i: bv8)
    ensures Iter(Step, 8, i as bv32) == Table(i)
  {
    StepsAreBits(i);
    SameSum(i);
    if i < 64 {
      if i < 32 { FirstEntriesLow(i); } else { FirstEntriesHigh(i); }
    } else if i < 128 {
      if i < 96 { SecondEntriesLow(i); } else { SecondEntriesHigh(i); }
    } else if i < 192 {
      if i < 160 { ThirdEntriesLow(i); } else { ThirdEntriesHigh(i); }
    } else {
      if i < 224 { FourthEntriesLow(i); } else { FourthEntriesHigh(i); }
    }
  }

  lemma HighShifted(h: bv32)
    ensures Iter(Shr, 8, h) == h >> 8
  {
    IterEight(Shr, h);
  }

  lemma HighClear(h: bv32)
    requires h & 0xff == 0
    ensures Clear(Shr, Even, 8, h)
  {
  }

  lemma Parts(c: bv32, b: bv32)
    requires b & 0xffffff00 == 0
    ensures c ^ b == Xor((c ^ b) & 0xff, (c ^ b) & 0xffffff00)
    ensures ((c ^ b) & 0xffffff00) & 0xff == 0 && ((c ^ b) & 0xffffff00) >> 8 == c >> 8
  {
  }

  lemma ByteIsSmall(b: bv8)
    ensures (b as bv32) & 0xffffff00 == 0
  {
  }

  lemma LowByte(x: bv32)
    ensures ((x & 0xff) as bv8) as bv32 == x & 0xff
  {
  }

  lemma Combine<W(!new)>(step: W -> W, xor: (W, W) -> W, shr: W -> W, even: W -> bool, x: W, lo: W, hi: W, t: W, d: W)
    requires Splits(step, xor, shr, even) && Clear(shr, even, 8, hi)
    requires x == xor(lo, hi) && Iter(step, 8, lo) == t && Iter(shr, 8, hi) == d
    ensures Iter(step, 8, x) == xor(t, d)
  {
    IterSplits(step, xor, shr, even, 8, lo, hi);
  }

  // From here on `step` and `table` stand for `Step` and `Table`, known by these two laws.

  ghost predicate TableLaw(table: bv8 -> bv32, step: bv32 -> bv32) {
    forall i: bv8 {:trigger table(i)} :: Iter(step, 8, i as bv32) == table(i)
  }

  ghost predicate Laws(table: bv8 -> bv32, step: bv32 -> bv32) {
    Splits(step, Xor, Shr, Even) && TableLaw(table, step)
  }

  lemma BothLaws()
    ensures Laws(Table, Step)
  {
    StepSplits();
    forall i: bv8 ensures Iter(Step, 8, i as bv32) == Table(i) { TableEntry(i); }
  }

  /** The low byte goes by the table, the rest by a shift. */
  lemma WordLaw(table: bv8 -> bv32, step: bv32 -> bv32, x: bv32, i: bv8, lo: bv32, hi: bv32, d: bv32)
    requires Laws(table, step)
    requires lo == i as bv32 && x == Xor(lo, hi) && hi & 0xff == 0 && d == hi >> 8
    ensures Iter(step, 8, x) == Xor(table(i), d)
  {
    HighClear(hi);
    HighShifted(hi);
    Combine(step, Xor, Shr, Even, x, lo, hi, table(i), d);
  }

  /** The loop body of `calculateCRC32`, on a byte widened to a word. */
  function TableByte(table: bv8 -> bv32, c: bv32, w: bv32): bv32 {
    Xor(table(((c ^ w) & 0xff) as bv8), c >> 8)
  }

  /** A byte is eight bits. */
  function BitByte(step: bv32 -> bv32, c: bv32, w: bv32): bv32 {
    Iter(step, 8, c ^ w)
  }

  lemma WidenedLaw(table: bv8 -> bv32, step: bv32 -> bv32, c: bv32, w: bv32)
    requires Laws(table, step) && w & 0xffffff00 == 0 && (((c ^ w) & 0xff) as bv8) as bv32 == (c ^ w) & 0xff
    ensures TableByte(table, c, w) == BitByte(step, c, w)
  {
    Parts(c, w);
    WordLaw(table, step, c ^ w, ((c ^ w) & 0xff) as bv8, (c ^ w) & 0xff, (c ^ w) & 0xffffff00, c >> 8);
  }

  /** One table step is eight bit steps. */
  lemma ByteLaw(table: bv8 -> bv32, step: bv32 -> bv32, c: bv32, w: bv32)
    requires Laws(table, step) && w & 0xffffff00 == 0
    ensures TableByte(table, c, w) == BitByte(step, c, w)
  {
    LowByte(c ^ w);
    WidenedLaw(table, step, c, w);
  }

  // ---------------------------------------------------------------- the loop

  /** The register after a message, one bit at a time. */
  function BitCrc(step: bv32 -> bv32, c: bv32, data: seq<bv8>): bv32 {
    if data == [] then c else BitByte(step, BitCrc(step, c, data[..|data| - 1]), data[|data| - 1] as bv32)
  }

  lemma BitCrcAdds(step: bv32 -> bv32, c: bv32, data: seq<bv8>, b: bv8)
    ensures BitCrc(step, c, data + [b]) == BitByte(step, BitCrc(step, c, data), b as bv32)
  {
    assert (data + [b])[..|data|] == data;
  }

  method Run(table: bv8 -> bv32, ghost step: bv32 -> bv32, data: array<bv8>) returns (crc: bv32)
    requires Laws(table, step)
    ensures crc == BitCrc(step, 0xFFFFFFFF, data[..])
  {
    crc := 0xFFFFFFFF;
    for i := 0 to data.Length
      invariant crc == BitCrc(step, 0xFFFFFFFF, data[..i])
    {
      BitCrcAdds(step, 0xFFFFFFFF, data[..i], data[i]);
      assert data[..i + 1] == data[..i] + [data[i]];
      ByteIsSmall(data[i]);
      ByteLaw(table, step, crc, data[i] as bv32);
      crc := TableByte(table, crc, data[i] as bv32);
    }
    assert data[..data.Length] == data[..];
  }

  /** The checksum of every buffer is the bit-at-a-time CRC-32 of its bytes. */
  method CalculateCRC32(data: array<bv8>) returns (crc: bv32)
    ensures crc == !BitCrc(Step, 0xFFFFFFFF, data[..])
  {
    BothLaws();
    crc := Run(Table, Step, data);
    crc := !crc;
  }

  // ---------------------------------------------------------------- the check value

  /** The registers of a message, by the table, one more than it has bytes. */
  predicate Registers(table: bv8 -> bv32, data: seq<bv8>, regs: seq<bv32>) {
    && |regs| == |data| + 1 && regs[0] == 0xFFFFFFFF
    && forall i :: 0 <= i < |data| ==> regs[i + 1] == TableByte(table, regs[i], data[i] as bv32)
  }

  /** The last register is the one that takes the bytes bit by bit. */
  lemma {:induction false} LastRegister(table: bv8 -> bv32, step: bv32 -> bv32, data: seq<bv8>, regs: seq<bv32>)
    requires Laws(table, step) && Registers(table, data, regs)
    ensures BitCrc(step, 0xFFFFFFFF, data) == regs[|data|]
  {
    if data != [] {
      var n := |data| - 1;
      LastRegister(table, step, data[..n], regs[..n + 1]);
      ByteIsSmall(data[n]);
      ByteLaw(table, step, regs[n], data[n] as bv32);
    }
  }

  const CHECK_TEXT: seq<bv8> := [0x31, 0x32, 0x33, 0x34, 0x35, 0x36, 0x37, 0x38, 0x39]
  const CHECK_REGISTERS: seq<bv32> := [
    0xffffffff, 0x7c231048, 0xb0acbb32, 0x77b79c2d, 0x641c1f5c,
    0x340ac5e3, 0xf68d2c9e, 0xaffc9660, 0x651f2550, 0x340bc6d9
  ]

  lemma CheckBytes()
    ensures TableByte(Table, 0xffffffff, 0x31) == 0x7c231048
    ensures TableByte(Table, 0x7c231048, 0x32) == 0xb0acbb32
    ensures TableByte(Table, 0xb0acbb32, 0x33) == 0x77b79c2d
    ensures TableByte(Table, 0x77b79c2d, 0x34) == 0x641c1f5c
    ensures TableByte(Table, 0x641c1f5c, 0x35) == 0x340ac5e3
    ensures TableByte(Table, 0x340ac5e3, 0x36) == 0xf68d2c9e
    ensures TableByte(Table, 0xf68d2c9e, 0x37) == 0xaffc9660
    ensures TableByte(Table, 0xaffc9660, 0x38) == 0x651f2550
    ensures TableByte(Table, 0x651f2550, 0x39) == 0x340bc6d9
  {
  }

  lemma CheckRegisters()
    ensures Registers(Table, CHECK_TEXT, CHECK_REGISTERS)
  {
    CheckBytes();
    var t, r := CHECK_TEXT, CHECK_REGISTERS;
    forall i | 0 <= i < |t|
      ensures r[i + 1] == TableByte(Table, r[i], t[i] as bv32)
    {
      if i == 0 { assert t[i] as bv32 == 0x31; }
      else if i == 1 { assert t[i] as bv32 == 0x32; }
      else if i == 2 { assert t[i] as bv32 == 0x33; }
      else if i == 3 { assert t[i] as bv32 == 0x34; }
      else if i == 4 { assert t[i] as bv32 == 0x35; }
      else if i == 5 { assert t[i] as bv32 == 0x36; }
      else if i == 6 { assert t[i] as bv32 == 0x37; }
      else if i == 7 { assert t[i] as bv32 == 0x38; }
      else if i == 8 { assert t[i] as bv32 == 0x39; }
    }
  }

  /** The check value of this CRC: the checksum of the ASCII text 123456789. */
  lemma CheckValue()
    ensures !BitCrc(Step, 0xFFFFFFFF, CHECK_TEXT) == 0xCBF43926
  {
    BothLaws();
    CheckRegisters();
    LastRegister(Table, Step, CHECK_TEXT, CHECK_REGISTERS);
  }
}
