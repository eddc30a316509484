/** Address arithmetic of the page-table code: page boundaries, table indices. */
module PageAddresses {
  import opened Words
  import opened Bits
  import opened PageMap

  // ---------------------------------------------------------------------
  // Page boundaries
  // ---------------------------------------------------------------------

  /** The 64-bit complement of 4095. */
  const PAGE_MASK: nat := 0xFFFF_FFFF_FFFF_F000

  lemma MaskIsRounding(x: nat)
    requires x < U64_SIZE
    ensures And(x, PAGE_MASK) == x / 4096 * 4096
  {
    var k := ExponentOf(0x1000);
    var n := ExponentOf(0x10_0000_0000_0000);
    MaskAt(x, k, n, 4096, 0x10_0000_0000_0000, PAGE_MASK);
    FieldIsWhole(x / 4096, 0x10_0000_0000_0000);
  }

  method AlignDown(addr: nat) returns (r: nat)
    requires addr < U64_SIZE
    ensures r == addr / 4096 * 4096
  {
    MaskIsRounding(addr);
    r := And(addr, PAGE_MASK);
  }

  /** The sum of an address and 4095, which wraps at 64 bits. */
  function RoundingSum(addr: nat): (sum: nat)
    ensures sum < U64_SIZE
  {
    (addr + 4095) % U64_SIZE
  }

  lemma RoundsUp(addr: nat)
    requires addr + 4095 < U64_SIZE
    ensures RoundingSum(addr) == addr + 4095 && addr <= RoundingSum(addr) / 4096 * 4096 < addr + 4096
  {
  }

  /** Rounds up, except that the sum wraps. */
  method AlignUp(addr: nat) returns (r: nat)
    requires addr < U64_SIZE
    ensures r == RoundingSum(addr) / 4096 * 4096
  {
    var sum := RoundingSum(addr);
    MaskIsRounding(sum);
    r := And(sum, PAGE_MASK);
  }

  // ---------------------------------------------------------------------
  // Table indices
  // ---------------------------------------------------------------------

  /** The number of page numbers that the indices can tell apart. */
  function PageSpan(levels: nat): nat {
    if levels == 3 then 0x800_0000 else 0x10_0000_0000
  }

  /** The page number that the indices see: higher bits are ignored. */
  function Wrap(levels: nat, page: nat): (v: nat)
    ensures page < PageSpan(levels) ==> v == page
  {
    if levels == 3 then page % 0x800_0000 else page % 0x10_0000_0000
  }

  function PageOf(levels: nat, virt: nat): nat {
    Wrap(levels, virt / 4096)
  }

  lemma UpValues(v: nat)
    ensures Up(v, 0) == v && Up(v, 1) == v / 512 && Up(v, 2) == v / 0x4_0000
    ensures Up(v, 3) == v / 0x800_0000 && Up(v, 4) == v / 0x10_0000_0000
  {
    assert Up(v, 1) == Up(v, 0) / 512;
    assert Up(v, 2) == Up(v, 1) / 512;
    assert Up(v, 3) == Up(v, 2) / 512;
    assert Up(v, 4) == Up(v, 3) / 512;
  }

  lemma WrapInSpan(levels: nat, page: nat)
    requires 3 <= levels <= 4
    ensures Up(Wrap(levels, page), levels) == 0
  {
    UpValues(Wrap(levels, page));
  }

  lemma SplitTimes(q: nat, m: nat, p: nat)
    ensures q * (p * (512 * m)) == ((q * m) * 512) * p
  {
    assert q * (p * (512 * m)) == (q * (512 * m)) * p;
    assert q * (512 * m) == (q * m) * 512;
  }

  lemma DigitOf(v: nat, p: nat, k: nat, r: nat)
    requires p > 0 && v == (k * 512) * p + r
    ensures v / p % 512 == r / p % 512
  {
    assert v == (k * 512 + r / p) * p + r % p;
    QuotientIs(v, p, k * 512 + r / p, r % p);
  }

  /** Dropping high bits does not change a digit that is kept. */
  lemma DigitOfLowPart(v: nat, p: nat, m: nat)
    requires p > 0 && m > 0
    ensures p * (512 * m) > 0
    ensures v % (p * (512 * m)) / p % 512 == v / p % 512
  {
    AtLeastOne(512 * m, p);
    var span := p * (512 * m);
    SplitTimes(v / span, m, p);
    DigitOf(v, p, (v / span) * m, v % span);
  }

  lemma DigitsOfPage(v: nat)
    ensures v % 0x800_0000 % 512 == v % 512
    ensures v % 0x800_0000 / 0x200 % 512 == v / 0x200 % 512
    ensures v % 0x800_0000 / 0x4_0000 % 512 == v / 0x4_0000 % 512
    ensures v % 0x10_0000_0000 % 512 == v % 512
    ensures v % 0x10_0000_0000 / 0x200 % 512 == v / 0x200 % 512
    ensures v % 0x10_0000_0000 / 0x4_0000 % 512 == v / 0x4_0000 % 512
    ensures v % 0x10_0000_0000 / 0x800_0000 % 512 == v / 0x800_0000 % 512
  {
    DigitOfLowPart(v, 1, 0x4_0000);
    DigitOfLowPart(v, 0x200, 0x200);
    DigitOfLowPart(v, 0x4_0000, 1);
    DigitOfLowPart(v, 1, 0x800_0000);
    DigitOfLowPart(v, 0x200, 0x4_0000);
    DigitOfLowPart(v, 0x4_0000, 0x200);
    DigitOfLowPart(v, 0x800_0000, 1);
  }

  lemma NineBits(x: nat)
    ensures And(x, 0x1FF) == x % 512
  {
    Powers();
    AndLow(x, 9);
  }

  /** The table indices of an address, from the root down, are the base-512
      digits of its page number. */
  method Indices(levels: nat, virt: nat) returns (r: seq<nat>)
    requires 3 <= levels <= 4
    ensures |r| == levels
    ensures forall k :: 0 <= k < levels ==> r[k] == Up(PageOf(levels, virt), levels - 1 - k) % 512
  {
    ghost var v := virt / 4096;
    NineBits(v);
    NineBits(virt / 0x20_0000);
    NineBits(virt / 0x4000_0000);
    NineBits(virt / 0x80_0000_0000);
    assert virt / 0x20_0000 == v / 0x200;
    assert virt / 0x4000_0000 == v / 0x4_0000;
    assert virt / 0x80_0000_0000 == v / 0x800_0000;
    DigitsOfPage(v);
    UpValues(PageOf(levels, virt));
    if levels == 3 {
      r := [And(virt / 0x4000_0000, 0x1FF), And(virt / 0x20_0000, 0x1FF), And(virt / 0x1000, 0x1FF)];
    } else {
      r := [And(virt / 0x80_0000_0000, 0x1FF), And(virt / 0x4000_0000, 0x1FF), And(virt / 0x20_0000, 0x1FF),
        And(virt / 0x1000, 0x1FF)];
    }
  }

  /** The test of an entry's lowest bit. */
  method InUse(entry: nat) returns (b: bool)
    ensures b == Present(entry)
  {
    AndLow(entry, 1);
    b := And(entry, 1) != 0;
  }
}
