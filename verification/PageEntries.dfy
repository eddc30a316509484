/** The 64-bit page-table entries of the three architectures, as the three
    `memory.rs` files assemble and take them apart. */
module PageEntries {
  import opened Bits
  import opened Hal
  import opened PageMap
  import opened PageTables

  datatype Arch = X86_64 | AArch64 | Sv39

  // x86_64: Intel SDM Vol. 3A, section 4.5
  const X86_PRESENT: nat := 0x1
  const X86_WRITABLE: nat := 0x2
  const X86_USER_ACCESSIBLE: nat := 0x4
  const X86_WRITE_THROUGH: nat := 0x8
  const X86_CACHE_DISABLE: nat := 0x10
  const X86_NO_EXECUTE: nat := 0x8000_0000_0000_0000
  const X86_FRAME_MASK: nat := 0x000F_FFFF_FFFF_F000

  // AArch64: Arm Architecture Reference Manual, D5.3
  const ARM_VALID: nat := 0x1
  const ARM_TABLE_OR_PAGE: nat := 0x2
  const ARM_ATTR_NORMAL: nat := 0x0
  const ARM_ATTR_DEVICE: nat := 0x4
  const ARM_AP_RW_EL1: nat := 0x0
  const ARM_SHAREABILITY_INNER: nat := 0x300
  const ARM_ACCESS_FLAG: nat := 0x400
  const ARM_PXN: nat := 0x20_0000_0000_0000
  const ARM_UXN: nat := 0x40_0000_0000_0000
  const ARM_FRAME_MASK: nat := 0x0000_FFFF_FFFF_F000

  // RISC-V: Privileged Architecture, section 4.3.1
  const SV39_VALID: nat := 0x1
  const SV39_READ: nat := 0x2
  const SV39_WRITE: nat := 0x4
  const SV39_EXECUTE: nat := 0x8
  const SV39_ACCESSED: nat := 0x40
  const SV39_DIRTY: nat := 0x80
  const SV39_PPN_MASK: nat := 0x0FFF_FFFF_FFFF

  function Levels(arch: Arch): nat {
    if arch == Sv39 then 3 else 4
  }

  /** Physical addresses below this bound fit the frame field of an entry. */
  function FrameLimit(arch: Arch): nat {
    match arch
    case X86_64 => 0x10_0000_0000_0000
    case AArch64 => 0x1_0000_0000_0000
    case Sv39 => 0x100_0000_0000_0000
  }

  predicate FrameOk(arch: Arch, p: nat) {
    p % 4096 == 0 && p < FrameLimit(arch)
  }

  function TableEntry(arch: Arch, table: nat): nat {
    match arch
    case X86_64 => Or(Or(Or(table, X86_PRESENT), X86_WRITABLE), X86_USER_ACCESSIBLE)
    case AArch64 => Or(Or(table, ARM_VALID), ARM_TABLE_OR_PAGE)
    case Sv39 => Or(table / 0x1000 * 0x400, SV39_VALID)
  }

  function NextTable(arch: Arch, e: nat): nat {
    match arch
    case X86_64 => And(e, X86_FRAME_MASK)
    case AArch64 => And(e, ARM_FRAME_MASK)
    case Sv39 => And(e / 0x400, SV39_PPN_MASK) * 0x1000
  }

  function LeafEntry(arch: Arch, phys: nat, flags: nat): nat {
    match arch
    case X86_64 => Or(Or(And(phys, X86_FRAME_MASK), flags), X86_PRESENT)
    case AArch64 => Or(Or(Or(Or(And(phys, ARM_FRAME_MASK), flags), ARM_VALID), ARM_TABLE_OR_PAGE), ARM_ACCESS_FLAG)
    case Sv39 => Or(Or(Or(Or(phys / 0x1000 * 0x400, flags), SV39_VALID), SV39_ACCESSED), SV39_DIRTY)
  }

  function PermissionsToFlags(arch: Arch, perms: MapPermissions): nat {
    match arch
    case X86_64 =>
      var w := if perms.writable then Or(0, X86_WRITABLE) else 0;
      var x := if !perms.executable then Or(w, X86_NO_EXECUTE) else w;
      if perms.deviceUncached then Or(x, Or(X86_CACHE_DISABLE, X86_WRITE_THROUGH)) else x
    case AArch64 =>
      var a := Or(ARM_SHAREABILITY_INNER, if perms.deviceUncached then ARM_ATTR_DEVICE else ARM_ATTR_NORMAL);
      var w := if perms.writable then Or(a, ARM_AP_RW_EL1) else a;
      if !perms.executable then Or(w, Or(ARM_PXN, ARM_UXN)) else w
    case Sv39 =>
      var w := if perms.writable then Or(SV39_READ, SV39_WRITE) else SV39_READ;
      if perms.executable then Or(w, SV39_EXECUTE) else w
  }

  lemma X86Mask(x: nat)
    ensures And(x, X86_FRAME_MASK) == x / 0x1000 % 0x100_0000_0000 * 0x1000
  {
    var k := ExponentOf(0x1000);
    var n := ExponentOf(0x100_0000_0000);
    MaskAt(x, k, n, 0x1000, 0x100_0000_0000, X86_FRAME_MASK);
  }

  lemma ArmMask(x: nat)
    ensures And(x, ARM_FRAME_MASK) == x / 0x1000 % 0x10_0000_0000 * 0x1000
  {
    var k := ExponentOf(0x1000);
    var n := ExponentOf(0x10_0000_0000);
    MaskAt(x, k, n, 0x1000, 0x10_0000_0000, ARM_FRAME_MASK);
  }

  lemma Sv39Mask(x: nat)
    ensures And(x, SV39_PPN_MASK) == x % 0x1000_0000_0000
  {
    WidePowers();
    AndLow(x, 44);
  }

  /** Setting a single bit above a multiple of a higher power of two. */
  lemma OrLowBits(q: nat, low: nat)
    requires low < 0x1000
    ensures Or(q * 0x1000, low) == q * 0x1000 + low
  {
    var k := ExponentOf(0x1000);
    OrAt(q, k, 0x1000, low);
  }

  /** An entry for a table points back to that table and is in use. */
  lemma TableEntryRoundTrip(arch: Arch, table: nat)
    requires FrameOk(arch, table)
    ensures Present(TableEntry(arch, table))
    ensures NextTable(arch, TableEntry(arch, table)) == table
  {
    match arch {
      case X86_64 => WideRoundTrip(table);
      case AArch64 => WideRoundTrip(table);
      case Sv39 => Sv39RoundTrip(table);
    }
  }

  lemma WideRoundTrip(table: nat)
    requires table % 4096 == 0
    ensures Present(TableEntry(X86_64, table)) && Present(TableEntry(AArch64, table))
    ensures table < FrameLimit(X86_64) ==> NextTable(X86_64, TableEntry(X86_64, table)) == table
    ensures table < FrameLimit(AArch64) ==> NextTable(AArch64, TableEntry(AArch64, table)) == table
  {
    TableEntrySum(table);
    WideNextTable(table);
  }

  lemma Sv39RoundTrip(table: nat)
    requires FrameOk(Sv39, table)
    ensures Present(TableEntry(Sv39, table)) && NextTable(Sv39, TableEntry(Sv39, table)) == table
  {
    var e := TableEntry(Sv39, table);
    assert e == table / 0x1000 * 0x400 + 1 && e / 0x400 == table / 0x1000 by { Sv39TableEntrySum(table); }
    OddIsPresent(e, table / 0x1000 * 0x200);
    Sv39NextTable(e, table);
  }

  lemma OddIsPresent(e: nat, half: nat)
    requires e == 2 * half + 1
    ensures Present(e)
  {
  }

  lemma WideNextTable(table: nat)
    requires table % 4096 == 0
    ensures Present(table + 7) && Present(table + 3)
    ensures table < FrameLimit(X86_64) ==> NextTable(X86_64, table + 7) == table
    ensures table < FrameLimit(AArch64) ==> NextTable(AArch64, table + 3) == table
  {
    FrameOfLow(table, 7);
    FrameOfLow(table, 3);
  }

  /** Low bits do not disturb the frame field. */
  lemma FrameOfLow(table: nat, low: nat)
    requires table % 4096 == 0 && low < 4096
    ensures table < FrameLimit(X86_64) ==> And(table + low, X86_FRAME_MASK) == table
    ensures table < FrameLimit(AArch64) ==> And(table + low, ARM_FRAME_MASK) == table
  {
    PageOfLow(table, low);
    X86Mask(table + low);
    ArmMask(table + low);
    if table < FrameLimit(X86_64) {
      PageFits(table, 0x100_0000_0000);
    }
    if table < FrameLimit(AArch64) {
      PageFits(table, 0x10_0000_0000);
    }
  }

  lemma PageFits(table: nat, size: nat)
    requires table < size * 0x1000
    ensures table / 0x1000 % size == table / 0x1000
  {
    FieldIsWhole(table / 0x1000, size);
  }

  lemma PageOfLow(table: nat, low: nat)
    requires table % 4096 == 0 && low < 4096
    ensures (table + low) / 0x1000 == table / 0x1000 && table / 0x1000 * 0x1000 == table
  {
    QuotientIs(table + low, 0x1000, table / 0x1000, low);
  }

  lemma Sv39NextTable(e: nat, table: nat)
    requires FrameOk(Sv39, table) && e / 0x400 == table / 0x1000
    ensures NextTable(Sv39, e) == table
  {
    Sv39Mask(table / 0x1000);
  }

  lemma TableEntrySum(table: nat)
    requires table % 4096 == 0
    ensures TableEntry(X86_64, table) == table + 7
    ensures TableEntry(AArch64, table) == table + 3
  {
    var q := table / 0x1000;
    assert table == q * 0x1000;
    OrAssociates(table, 1, 2);
    OrAssociates(table, Or(1, 2), 4);
    assert Or(1, 2) == 3;
    assert Or(Or(1, 2), 4) == 7;
    OrLowBits(q, 3);
    OrLowBits(q, 7);
  }

  lemma Sv39TableEntrySum(table: nat)
    requires table % 4096 == 0
    ensures TableEntry(Sv39, table) == table / 0x1000 * 0x400 + 1
    ensures TableEntry(Sv39, table) / 0x400 == table / 0x1000
  {
    Powers();
    OrDisjoint(table / 0x1000, 10, 1);
  }

  /** Whatever is written as a leaf is in use. */
  lemma LeafPresent(arch: Arch, phys: nat, flags: nat)
    ensures Present(LeafEntry(arch, phys, flags))
  {
    var e := LeafEntry(arch, phys, flags);
    assert Bit(e, 0) by {
      match arch {
        case X86_64 =>
          BitOr(Or(And(phys, X86_FRAME_MASK), flags), X86_PRESENT, 0);
        case AArch64 =>
          var a := Or(And(phys, ARM_FRAME_MASK), flags);
          BitOr(a, ARM_VALID, 0);
          BitOr(Or(a, ARM_VALID), ARM_TABLE_OR_PAGE, 0);
          BitOr(Or(Or(a, ARM_VALID), ARM_TABLE_OR_PAGE), ARM_ACCESS_FLAG, 0);
        case Sv39 =>
          var a := Or(phys / 0x1000 * 0x400, flags);
          BitOr(a, SV39_VALID, 0);
          BitOr(Or(a, SV39_VALID), SV39_ACCESSED, 0);
          BitOr(Or(Or(a, SV39_VALID), SV39_ACCESSED), SV39_DIRTY, 0);
      }
    }
  }

  /** The table format of an architecture. */
  function FormatOf(arch: Arch): Format {
    Format(Levels(arch), t => TableEntry(arch, t), e => NextTable(arch, e),
      (phys, flags) => LeafEntry(arch, phys, flags), perms => PermissionsToFlags(arch, perms))
  }

  ghost predicate ValidAddresses(arch: Arch, addr: seq<nat>) {
    && |addr| == ROWS && Distinct(addr)
    && (forall t :: 0 <= t < ROWS ==> FrameOk(arch, addr[t]))
  }

  /** Page-aligned tables that fit the frame field make a valid layout. */
  lemma LayoutIsValid(arch: Arch, addr: seq<nat>)
    requires ValidAddresses(arch, addr)
    ensures ValidLayout(Layout(FormatOf(arch), addr))
  {
    var lay := Layout(FormatOf(arch), addr);
    forall t | 0 <= t < ROWS
      ensures Points(lay.format, lay.addr[t])
    {
      TableEntryRoundTrip(arch, addr[t]);
    }
    forall phys: nat, flags: nat
      ensures Present(lay.format.leaf(phys, flags))
    {
      LeafPresent(arch, phys, flags);
    }
  }
}
