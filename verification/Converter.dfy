/** `convertPreferredPageToAvailablePages`: a preferred power-of-two size becomes a number of pages
    of a size the processor has. */
module Converter {
  import opened Bits
  import opened Paging

  /** Bits 12, 21 and 30: the page sizes of the processor. */
  const AVAILABLE_PAGE_SIZES_MASK: nat := 0x4020_1000

  /** `isPageSizeValid`. */
  predicate IsPageSizeValid(pageSize: nat, mask: nat) {
    And(mask, pageSize) != 0
  }

  lemma ValidSizes(k: nat, mask: nat)
    requires mask == AVAILABLE_PAGE_SIZES_MASK
    ensures IsPageSizeValid(Pow2(k), mask) <==> k == 12 || k == 21 || k == 30
  {
    AndBit(mask, k);
    MaskBits(k);
  }

  lemma MaskBits(k: nat)
    ensures (AVAILABLE_PAGE_SIZES_MASK / Pow2(k)) % 2 == 1 <==> k == 12 || k == 21 || k == 30
  {
    Pow2Values();
    if k <= 12 {
      BitAt(k, 12 - k, 0x4_0201, 0);
    } else if k <= 21 {
      Pow2Mono(13, k);
      assert Pow2(13) == 2 * Pow2(12);
      BitAt(k, 21 - k, 0x201, 0x1000);
    } else if k <= 30 {
      Pow2Mono(22, k);
      assert Pow2(22) == 2 * Pow2(21);
      BitAt(k, 30 - k, 1, 0x20_1000);
    } else {
      Pow2Mono(31, k);
      assert Pow2(31) == 2 * Pow2(30);
      DivMod(AVAILABLE_PAGE_SIZES_MASK, Pow2(k), 0, AVAILABLE_PAGE_SIZES_MASK);
    }
  }

  /** Above the bits in `low`, the next bit of the mask is bit k + j. */
  lemma BitAt(k: nat, j: nat, high: nat, low: nat)
    requires high % 2 == 1 && low < Pow2(k)
    requires AVAILABLE_PAGE_SIZES_MASK == high * Pow2(k + j) + low
    ensures (AVAILABLE_PAGE_SIZES_MASK / Pow2(k)) % 2 == 1 <==> j == 0
  {
    Pow2Add(j, k);
    MulAssoc(high, Pow2(j), Pow2(k));
    DivMod(AVAILABLE_PAGE_SIZES_MASK, Pow2(k), high * Pow2(j), low);
    if j > 0 {
      MulAssoc(high, 2, Pow2(j - 1));
      MulAssoc(2, high, Pow2(j - 1));
    }
  }

  function AtLeastBasePage(preferred: nat): nat {
    if preferred <= 4096 then 4096 else preferred
  }

  /** The largest available page size that does not exceed the preferred size. */
  function SizeFor(preferred: nat): PageSize {
    if preferred < 0x20_0000 then Base else if preferred < 0x4000_0000 then Large else Huge
  }

  function CountFor(preferred: nat): nat {
    AtLeastBasePage(preferred) / SizeFor(preferred).Bytes()
  }

  /** The result is as many bytes as asked for, at least one base page, in the largest available
      pages that do not exceed the preferred size. */
  method ConvertPreferredPageToAvailablePages(bytes: U64) returns (numberOfPages: nat, size: PageSize)
    requires bytes == 0 || PowerOfTwo(bytes)
    ensures size == SizeFor(bytes) && numberOfPages == CountFor(bytes)
    ensures numberOfPages * size.Bytes() == AtLeastBasePage(bytes)
    ensures bytes >= 4096 ==> numberOfPages * size.Bytes() == bytes
    ensures bytes < 4096 ==> numberOfPages == 1 && size == Base
    ensures bytes >= 4096 ==> forall s: PageSize :: s.Bytes() <= bytes <==> s.Bytes() <= size.Bytes()
  {
    if bytes <= 4096 {
      return 1, Base;
    }
    ghost var k: nat :| bytes == Pow2(k);
    var pageSize;
    numberOfPages, pageSize := Halve(bytes, k);
    if pageSize == 4096 {
      size := Base;
    } else if pageSize == 0x20_0000 {
      size := Large;
    } else {
      size := Huge;
    }
    DivMod(bytes, size.Bytes(), numberOfPages, 0);
  }

  /** The loop: halve the size and double the count until the size is available. */
  method Halve(bytes: U64, ghost k: nat) returns (numberOfPages: nat, pageSize: nat)
    requires bytes == Pow2(k) && bytes > 4096
    ensures numberOfPages * pageSize == bytes
    ensures pageSize == if bytes < 0x20_0000 then 4096 else if bytes < 0x4000_0000 then 0x20_0000 else 0x4000_0000
  {
    var mask := AVAILABLE_PAGE_SIZES_MASK;
    numberOfPages, pageSize := 1, bytes;
    assert k >= 12 by { Pow2Values(); if k < 12 { Pow2Mono(k, 12); } }
    ghost var j := k;
    ValidSizes(j, mask);
    while !IsPageSizeValid(pageSize, mask)
      invariant 12 <= j <= k && pageSize == Pow2(j) && numberOfPages == Pow2(k - j)
      invariant IsPageSizeValid(pageSize, mask) <==> j == 12 || j == 21 || j == 30
      invariant (k >= 30 ==> j >= 30) && (k >= 21 ==> j >= 21)
      decreases j
    {
      numberOfPages, pageSize := numberOfPages * 2, pageSize / 2;
      j := j - 1;
      ValidSizes(j, mask);
    }
    Pow2Add(k - j, j);
    SizeOfExponent(k, j);
  }

  lemma SizeOfExponent(k: nat, j: nat)
    requires j <= k && (j == 12 || j == 21 || j == 30)
    requires (k >= 30 ==> j >= 30) && (k >= 21 ==> j >= 21)
    ensures Pow2(j) == if j == 12 then 4096 else if j == 21 then 0x20_0000 else 0x4000_0000
    ensures Pow2(k) >= 0x4000_0000 <==> j == 30
    ensures Pow2(k) < 0x20_0000 <==> j == 12
  {
    Pow2Values();
    if k >= 30 {
      Pow2Mono(30, k);
    } else {
      Pow2Mono(k + 1, 30);
    }
    if k >= 21 {
      Pow2Mono(21, k);
    } else {
      Pow2Mono(k + 1, 21);
    }
  }
}
