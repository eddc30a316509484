/** The entries of the three formats as sums of disjoint fields. */
module PageLeaves {
  import opened Bits
  import opened Hal
  import opened PageRegions
  import opened PageEntries

  lemma TopAbove(low: nat, k: nat, hi: nat, top: nat)
    requires low < Pow2(k) && top == hi * Pow2(k)
    ensures Or(low, top) == low + top
  {
    OrDisjoint(hi, k, low);
  }

  /** Fields below and above an aligned value are simply added to it. */
  lemma OrFields(p: nat, low: nat, k: nat, hi: nat, top: nat)
    requires p % 4096 == 0 && p < Pow2(k) && k >= 12 && low < 4096 && top == hi * Pow2(k)
    ensures Or(p, low + top) == p + low + top
  {
    var pl, lt := p + low, low + top;
    BelowPow2(p, low, k);
    assert Or(low, top) == lt by { TopAbove(low, k, hi, top); }
    assert Or(pl, top) == pl + top by { TopAbove(pl, k, hi, top); }
    assert Or(p, low) == pl by { OrLowBitsOf(p, low); }
    OrThree(p, low, top, pl, lt);
  }

  lemma OrLowBitsOf(p: nat, low: nat)
    requires p % 4096 == 0 && low < 4096
    ensures Or(p, low) == p + low
  {
    OrLowBits(p / 4096, low);
    assert p == p / 4096 * 0x1000;
  }

  lemma FrameKept(phys: nat)
    requires phys % 4096 == 0
    ensures phys < FrameLimit(X86_64) ==> And(phys, X86_FRAME_MASK) == phys
    ensures phys < FrameLimit(AArch64) ==> And(phys, ARM_FRAME_MASK) == phys
  {
    FrameOfLow(phys, 0);
  }

  /** Low bits below a page boundary do not carry past a power of two. */
  lemma BelowPow2(p: nat, low: nat, k: nat)
    requires p % 4096 == 0 && p < Pow2(k) && k >= 12 && low < 4096
    ensures p + low < Pow2(k) && low < Pow2(k)
  {
    Pow2Add(12, k - 12);
    assert Pow2(12) == 4096 by { Powers(); }
    var m := Pow2(k - 12);
    assert Pow2(k) == 4096 * m;
    assert p / 4096 < m;
  }

  lemma SmallOrs()
    ensures Or(0x10, 0x8) == 0x18 && Or(0x2, 0x18) == 0x1A
    ensures Or(0x300, 0x4) == 0x304 && Or(0x300, 0) == 0x300
    ensures Or(0x2, 0x4) == 0x6 && Or(0x2, 0x8) == 0xA && Or(0x6, 0x8) == 0xE
  {
    Powers();
    OrDisjoint(1, 4, 0x8);
    OrDisjoint(3, 3, 0x2);
    OrDisjoint(3, 8, 0x4);
    OrDisjoint(1, 2, 0x2);
    OrDisjoint(1, 3, 0x2);
    OrDisjoint(1, 3, 0x6);
  }

  lemma X86FlagOrs()
    ensures var nx := 0x8000_0000_0000_0000;
      && Or(0x2, nx) == 0x2 + nx && Or(nx, 0x18) == 0x18 + nx && Or(0x2 + nx, 0x18) == 0x1A + nx
  {
    SmallOrs();
    var nx := 0x8000_0000_0000_0000;
    var k := ExponentOf(nx);
    TopAbove(0x2, k, 1, nx);
    OrAt(1, k, nx, 0x2);
    OrAt(1, k, nx, 0x18);
    OrAt(1, k, nx, 0x1A);
    OrThree(nx, 0x2, 0x18, nx + 0x2, 0x1A);
  }

  lemma X86FlagsSum(perms: MapPermissions)
    ensures PermissionsToFlags(X86_64, perms) ==
      (if perms.writable then 0x2 else 0) + (if perms.deviceUncached then 0x18 else 0)
      + (if perms.executable then 0 else 0x8000_0000_0000_0000)
  {
    SmallOrs();
    X86FlagOrs();
  }

  lemma ArmFlagOrs()
    ensures var xn := 0x60_0000_0000_0000;
      && Or(ARM_PXN, ARM_UXN) == xn && Or(0x304, xn) == 0x304 + xn && Or(0x300, xn) == 0x300 + xn
  {
    assert Or(ARM_PXN, ARM_UXN) == 0x60_0000_0000_0000 by {
      WidePowers();
      OrDisjoint(1, 54, 0x20_0000_0000_0000);
    }
    var k := ExponentOf(0x20_0000_0000_0000);
    TopAbove(0x304, k, 3, 0x60_0000_0000_0000);
    TopAbove(0x300, k, 3, 0x60_0000_0000_0000);
  }

  lemma ArmFlagsSum(perms: MapPermissions)
    ensures PermissionsToFlags(AArch64, perms) ==
      0x300 + (if perms.deviceUncached then 0x4 else 0) + (if perms.executable then 0 else 0x60_0000_0000_0000)
  {
    SmallOrs();
    ArmFlagOrs();
  }

  lemma Sv39FlagsSum(perms: MapPermissions)
    ensures PermissionsToFlags(Sv39, perms) ==
      0x2 + (if perms.writable then 0x4 else 0) + (if perms.executable then 0x8 else 0)
  {
    SmallOrs();
  }

  // ---------------------------------------------------------------------
  // Leaf entries, as sums
  // ---------------------------------------------------------------------

  lemma SetBitZero(x: nat)
    requires x % 2 == 0
    ensures Or(x, 1) == x + 1
  {
    OrDisjoint(x / 2, 1, 1);
  }

  /** Fields below 2^k and a field at 2^k or nothing. */
  lemma OrTop(p: nat, low: nat, k: nat, hi: nat, top: nat)
    requires p % 4096 == 0 && p < Pow2(k) && k >= 12 && low < 4096 && (top == 0 || top == hi * Pow2(k))
    ensures Or(p, low + top) == p + low + top
  {
    if top == 0 {
      OrLowBitsOf(p, low);
    } else {
      OrFields(p, low, k, hi, top);
    }
  }

  lemma X86Fields(p: nat, low: nat, top: nat)
    requires p % 4096 == 0 && p < 0x10_0000_0000_0000 && low < 4096 && low % 2 == 0
    requires top == 0 || top == 0x8000_0000_0000_0000
    ensures Or(Or(p, low + top), 1) == p + low + top + 1
  {
    var k := ExponentOf(0x8000_0000_0000_0000);
    OrTop(p, low, k, 1, top);
    EvenSum(p, low, top);
    SetBitZero(p + low + top);
  }

  lemma EvenSum(p: nat, low: nat, top: nat)
    requires p % 4096 == 0 && low % 2 == 0 && top % 2 == 0
    ensures (p + low + top) % 2 == 0
  {
    assert p == p / 4096 * 4096;
  }

  lemma X86LeafOf(phys: nat, low: nat, top: nat)
    requires FrameOk(X86_64, phys) && low < 4096 && low % 2 == 0
    requires top == 0 || top == 0x8000_0000_0000_0000
    ensures LeafEntry(X86_64, phys, low + top) == phys + low + top + 1
  {
    FrameKept(phys);
    X86Fields(phys, low, top);
  }

  function X86LowBits(perms: MapPermissions): (low: nat)
    ensures low < 4096 && low % 2 == 0
  {
    (if perms.writable then 0x2 else 0) + (if perms.deviceUncached then 0x18 else 0)
  }

  function X86TopBits(perms: MapPermissions): (top: nat)
    ensures top == 0 || top == 0x8000_0000_0000_0000
  {
    if perms.executable then 0 else 0x8000_0000_0000_0000
  }

  /** x86_64: frame, rights and bit 0 lie side by side. */
  lemma X86LeafSum(phys: nat, perms: MapPermissions)
    requires FrameOk(X86_64, phys)
    ensures LeafEntry(X86_64, phys, PermissionsToFlags(X86_64, perms)) ==
      phys + 0x1 + (if perms.writable then 0x2 else 0) + (if perms.deviceUncached then 0x18 else 0)
      + (if perms.executable then 0 else 0x8000_0000_0000_0000)
  {
    var low, top := X86LowBits(perms), X86TopBits(perms);
    assert PermissionsToFlags(X86_64, perms) == low + top by { X86FlagsSum(perms); }
    X86LeafOf(phys, low, top);
  }

  /** The three constants a leaf descriptor always carries, set one by one. */
  lemma OrConstants(p: nat, f: nat, a: nat, b: nat, c: nat)
    ensures Or(Or(Or(Or(p, f), a), b), c) == Or(p, Or(f, Or(a, Or(b, c))))
  {
    OrAssociates(Or(Or(p, f), a), b, c);
    OrAssociates(Or(p, f), a, Or(b, c));
    OrAssociates(p, f, Or(a, Or(b, c)));
  }

  lemma ArmConstants()
    ensures Or(0x1, Or(0x2, 0x400)) == 0x403
  {
    Powers();
    OrDisjoint(1, 10, 0x2);
    OrDisjoint(0x201, 1, 0x1);
  }

  lemma ArmLow(low: nat)
    requires low % 4 == 0 && low < 0x400
    ensures Or(low, 0x403) == low + 0x403
  {
    var j := ExponentOf(0x4);
    var k := ExponentOf(0x400);
    assert Or(low, 3) == low + 3 by {
      assert low == low / 4 * 4;
      OrAt(low / 4, j, 4, 3);
    }
    TopAbove(3, k, 1, 0x400);
    TopAbove(low + 3, k, 1, 0x400);
    OrThree(low, 3, 0x400, low + 3, 0x403);
  }

  lemma ArmRights(low: nat, top: nat)
    requires low % 4 == 0 && low < 0x400
    requires top == 0 || top == 0x60_0000_0000_0000
    ensures Or(low + top, 0x403) == low + 0x403 + top
  {
    ArmLow(low);
    if top > 0 {
      var k := ExponentOf(0x20_0000_0000_0000);
      OrAt(3, k, 0x20_0000_0000_0000, low);
      OrAt(3, k, 0x20_0000_0000_0000, low + 0x403);
      OrThree(top, low, 0x403, top + low, low + 0x403);
    }
  }

  lemma ArmFields(p: nat, low: nat, top: nat)
    requires p % 4096 == 0 && p < 0x1_0000_0000_0000 && low % 4 == 0 && low < 0x400
    requires top == 0 || top == 0x60_0000_0000_0000
    ensures Or(p, Or(low + top, 0x403)) == p + low + top + 0x403
  {
    ArmRights(low, top);
    var k := ExponentOf(0x20_0000_0000_0000);
    OrTop(p, low + 0x403, k, 3, top);
  }

  lemma ArmJoin(p: nat, f: nat)
    ensures Or(Or(Or(Or(p, f), ARM_VALID), ARM_TABLE_OR_PAGE), ARM_ACCESS_FLAG) == Or(p, Or(f, 0x403))
  {
    OrConstants(p, f, 0x1, 0x2, 0x400);
    ArmConstants();
  }

  lemma ArmLeafUnfolds(phys: nat, f: nat)
    requires FrameOk(AArch64, phys)
    ensures LeafEntry(AArch64, phys, f) == Or(phys, Or(f, 0x403))
  {
    FrameKept(phys);
    ArmJoin(phys, f);
  }

  lemma ArmLeafOf(phys: nat, f: nat, low: nat, top: nat)
    requires FrameOk(AArch64, phys) && f == low + top && low % 4 == 0 && low < 0x400
    requires top == 0 || top == 0x60_0000_0000_0000
    ensures LeafEntry(AArch64, phys, f) == phys + f + 0x403
  {
    ArmLeafUnfolds(phys, f);
    ArmFields(phys, low, top);
  }

  function ArmLowBits(perms: MapPermissions): (low: nat)
    ensures low % 4 == 0 && low < 0x400
  {
    if perms.deviceUncached then 0x304 else 0x300
  }

  function ArmTopBits(perms: MapPermissions): (top: nat)
    ensures top == 0 || top == 0x60_0000_0000_0000
  {
    if perms.executable then 0 else 0x60_0000_0000_0000
  }

  /** AArch64: the same, with the access flag and the page bit always set. */
  lemma ArmLeafSum(phys: nat, perms: MapPermissions)
    requires FrameOk(AArch64, phys)
    ensures LeafEntry(AArch64, phys, PermissionsToFlags(AArch64, perms)) ==
      phys + 0x703 + (if perms.deviceUncached then 0x4 else 0) + (if perms.executable then 0 else 0x60_0000_0000_0000)
  {
    var low, top := ArmLowBits(perms), ArmTopBits(perms);
    assert PermissionsToFlags(AArch64, perms) == low + top by { ArmFlagsSum(perms); }
    ArmLeafOf(phys, low + top, low, top);
  }

  lemma Sv39Constants()
    ensures Or(0x1, Or(0x40, 0x80)) == 0xC1
  {
    Powers();
    OrDisjoint(1, 7, 0x40);
    OrDisjoint(3, 6, 0x1);
  }

  lemma Sv39Rights(f: nat)
    requires f % 2 == 0 && f < 0x40
    ensures Or(f, 0xC1) == f + 0xC1
  {
    assert Pow2(6) == 0x40 by { Powers(); }
    TopAbove(1, 6, 3, 0xC0);
    SetBitZero(f);
    TopAbove(f + 1, 6, 3, 0xC0);
    OrThree(f, 1, 0xC0, f + 1, 0xC1);
  }

  lemma Sv39Fields(page: nat, f: nat)
    requires f % 2 == 0 && f < 0x40
    ensures Or(Or(Or(Or(page * 0x400, f), 0x1), 0x40), 0x80) == page * 0x400 + f + 0xC1
  {
    OrConstants(page * 0x400, f, 0x1, 0x40, 0x80);
    Sv39Constants();
    Sv39Rights(f);
    Powers();
    OrDisjoint(page, 10, f + 0xC1);
  }

  /** Sv39: page number above bit 10, rights below. */
  lemma Sv39LeafSum(phys: nat, perms: MapPermissions)
    ensures LeafEntry(Sv39, phys, PermissionsToFlags(Sv39, perms)) ==
      phys / 0x1000 * 0x400 + 0xC3 + (if perms.writable then 0x4 else 0) + (if perms.executable then 0x8 else 0)
  {
    Sv39FlagsSum(perms);
    Sv39Fields(phys / 0x1000, PermissionsToFlags(Sv39, perms));
  }

  // ---------------------------------------------------------------------
  // All three formats
  // ---------------------------------------------------------------------

  /** The entry for a table, as a number. */
  function TableValue(arch: Arch, table: nat): nat {
    match arch
    case X86_64 => table + 0x7
    case AArch64 => table + 0x3
    case Sv39 => table / 0x1000 * 0x400 + 0x1
  }

  /** The entry that maps a page with permissions, as a number. */
  function LeafValue(arch: Arch, phys: nat, perms: MapPermissions): nat {
    match arch
    case X86_64 =>
      phys + 0x1 + (if perms.writable then 0x2 else 0) + (if perms.deviceUncached then 0x18 else 0)
      + (if perms.executable then 0 else 0x8000_0000_0000_0000)
    case AArch64 =>
      phys + 0x703 + (if perms.deviceUncached then 0x4 else 0) + (if perms.executable then 0 else 0x60_0000_0000_0000)
    case Sv39 =>
      phys / 0x1000 * 0x400 + 0xC3 + (if perms.writable then 0x4 else 0) + (if perms.executable then 0x8 else 0)
  }

  lemma TableValueIs(arch: Arch, table: nat)
    requires table % 4096 == 0
    ensures TableEntry(arch, table) == TableValue(arch, table)
  {
    match arch {
      case X86_64 => TableEntrySum(table);
      case AArch64 => TableEntrySum(table);
      case Sv39 => Sv39TableEntrySum(table);
    }
  }

  lemma LeafValueIs(arch: Arch, phys: nat, perms: MapPermissions)
    requires FrameOk(arch, phys)
    ensures LeafEntry(arch, phys, PermissionsToFlags(arch, perms)) == LeafValue(arch, phys, perms)
  {
    match arch {
      case X86_64 => X86LeafSum(phys, perms);
      case AArch64 => ArmLeafSum(phys, perms);
      case Sv39 => Sv39LeafSum(phys, perms);
    }
  }

  /** The frame that an entry keeps of a page: the wide formats drop the bits above
      the frame field, Sv39 lets them spill into the reserved bits. */
  function FrameSeen(arch: Arch, page: nat): nat {
    match arch
    case X86_64 => page % 0x100_0000_0000
    case AArch64 => page % 0x10_0000_0000
    case Sv39 => page
  }

  lemma PageQuotient(page: nat)
    ensures page * 4096 / 0x1000 == page
  {
    QuotientIs(page * 4096, 0x1000, page, 0);
  }

  lemma X86SameFrame(page: nat, frame: nat)
    requires frame == page % 0x100_0000_0000
    ensures And(page * 4096, X86_FRAME_MASK) == And(frame * 4096, X86_FRAME_MASK) && FrameOk(X86_64, frame * 4096)
  {
    PageQuotient(page);
    PageQuotient(frame);
    FieldIsWhole(frame, 0x100_0000_0000);
    X86Mask(page * 4096);
    X86Mask(frame * 4096);
  }

  lemma ArmSameFrame(page: nat, frame: nat)
    requires frame == page % 0x10_0000_0000
    ensures And(page * 4096, ARM_FRAME_MASK) == And(frame * 4096, ARM_FRAME_MASK) && FrameOk(AArch64, frame * 4096)
  {
    PageQuotient(page);
    PageQuotient(frame);
    FieldIsWhole(frame, 0x10_0000_0000);
    ArmMask(page * 4096);
    ArmMask(frame * 4096);
  }

  lemma SameMasked(arch: Arch, p: nat, q: nat, flags: nat)
    requires arch == X86_64 ==> And(p, X86_FRAME_MASK) == And(q, X86_FRAME_MASK)
    requires arch == AArch64 ==> And(p, ARM_FRAME_MASK) == And(q, ARM_FRAME_MASK)
    requires arch != Sv39
    ensures LeafEntry(arch, p, flags) == LeafEntry(arch, q, flags)
  {
  }

  lemma X86LeafIs(page: nat, frame: nat, perms: MapPermissions)
    requires frame == page % 0x100_0000_0000
    ensures LeafEntry(X86_64, page * 4096, PermissionsToFlags(X86_64, perms)) == LeafValue(X86_64, frame * 4096, perms)
  {
    X86SameFrame(page, frame);
    SameMasked(X86_64, page * 4096, frame * 4096, PermissionsToFlags(X86_64, perms));
    LeafValueIs(X86_64, frame * 4096, perms);
  }

  lemma ArmLeafIs(page: nat, frame: nat, perms: MapPermissions)
    requires frame == page % 0x10_0000_0000
    ensures LeafEntry(AArch64, page * 4096, PermissionsToFlags(AArch64, perms))
      == LeafValue(AArch64, frame * 4096, perms)
  {
    ArmSameFrame(page, frame);
    SameMasked(AArch64, page * 4096, frame * 4096, PermissionsToFlags(AArch64, perms));
    LeafValueIs(AArch64, frame * 4096, perms);
  }

  /** The entry for any page whatever. */
  lemma IdentityLeafIs(arch: Arch, page: nat, perms: MapPermissions)
    ensures IdentityLeaf(FormatOf(arch), page, perms) == LeafValue(arch, FrameSeen(arch, page) * 4096, perms)
  {
    match arch {
      case X86_64 => X86LeafIs(page, FrameSeen(X86_64, page), perms);
      case AArch64 => ArmLeafIs(page, FrameSeen(AArch64, page), perms);
      case Sv39 => Sv39LeafSum(page * 4096, perms);
    }
  }
}
