/** What the hardware makes of the tables: the three architectures' page walks,
    written from their manuals, run on memory that holds the builder's tables. */
module Mmu {
  import opened Bits
  import opened Hal
  import opened PageMap
  import opened PageTables
  import opened PageAddresses
  import opened PageEntries
  import opened PageLeaves

  /** The outcome of a walk: a fault, or the physical address and the rights that
      privileged code (and, for `user`, unprivileged code) has there. */
  datatype Access =
    | Fault
    | Access(phys: nat, readable: bool, writable: bool, executable: bool, user: bool, uncached: bool)

  /** Virtual addresses below this bound are canonical and positive. */
  function CanonicalLimit(arch: Arch): nat {
    match arch
    case X86_64 => 0x8000_0000_0000
    case AArch64 => 0x1_0000_0000_0000
    case Sv39 => 0x40_0000_0000
  }

  /** What the walks depend on besides memory. On x86_64: IA32_EFER.NXE, CR0.WP and
      the bound on physical addresses that the processor implements. On AArch64:
      SCTLR_EL1.WXN and the bound that TCR_EL1.IPS sets. */
  datatype Controls = Controls(nxe: bool, wp: bool, wxn: bool, physLimit: nat)

  ghost predicate TableIn(mem: Memory, table: nat) {
    table in mem && |mem[table]| == ENTRIES_PER_TABLE
  }

  /** The table index of an address at a level, counted from the pages: nine bits
      from bit 12 + 9 * level up. */
  function VpnDigit(va: nat, level: nat): (i: nat)
    ensures i < ENTRIES_PER_TABLE
  {
    Up(va / 4096, level) % 512
  }

  // ---------------------------------------------------------------------
  // Intel SDM Vol. 3A, sections 4.5 and 4.6: four-level paging
  // ---------------------------------------------------------------------

  /** A walk from level 4 (PML4) to level 1 (PT). Rights accumulate: writable and
      user need every level, no-execute needs any. Where the processor does not
      enable no-execute, its bit is reserved, as are the frame bits it does not have;
      where it does not protect writes, privileged code writes every page. PAT
      entry 3 (PWT and PCD set) is uncacheable. */
  ghost function X86Walk(ctl: Controls, mem: Memory, table: nat, level: nat, va: nat, w: bool, u: bool,
      nx: bool): Access
    decreases level
  {
    if level == 0 || !TableIn(mem, table) then Fault
    else
      var e := mem[table][VpnDigit(va, level - 1)];
      var w', u', nx' := w && e / 0x2 % 2 == 1, u && e / 0x4 % 2 == 1, nx || e / 0x8000_0000_0000_0000 % 2 == 1;
      var pwt, pcd, ps := e / 0x8 % 2 == 1, e / 0x10 % 2 == 1, e / 0x80 % 2 == 1;
      var frame := e / 0x1000 % 0x100_0000_0000 * 0x1000;
      if e % 2 == 0 then Fault
      else if (!ctl.nxe && e / 0x8000_0000_0000_0000 % 2 == 1) || frame >= ctl.physLimit then Fault
      else if level == 1 then Access(frame + va % 4096, true, w' || !ctl.wp, !nx', u', pwt && pcd && !ps)
      else if ps && level == 4 then Fault
      else if ps then LargePage(frame, level, va, w' || !ctl.wp, !nx', u')
      else X86Walk(ctl, mem, frame, level - 1, va, w', u', nx')
  }

  /** A page that a walk finds above the last level; the builder makes none. */
  ghost function LargePage(frame: nat, level: nat, va: nat, w: bool, x: bool, u: bool): Access {
    var size := if level == 2 then 0x20_0000 else 0x4000_0000;
    Access(frame / size * size + va % size, true, w, x, u, false)
  }

  // ---------------------------------------------------------------------
  // Arm ARM, D5.3: 4 KiB granule, 48-bit addresses, stage 1, EL1
  // ---------------------------------------------------------------------

  /** A walk from level 4 (the manual's level 0) to level 1 (its level 3). */
  ghost function ArmWalk(ctl: Controls, mem: Memory, table: nat, level: nat, va: nat, readOnly: bool, pxn: bool,
      noEl0: bool): Access
    decreases level
  {
    if level == 0 || !TableIn(mem, table) then Fault
    else
      var e := mem[table][VpnDigit(va, level - 1)];
      var frame := e / 0x1000 % 0x10_0000_0000 * 0x1000;
      if e % 2 == 0 || frame >= ctl.physLimit then Fault
      else if level == 1 then
        if e / 0x2 % 2 == 0 || e / 0x400 % 2 == 0 then Fault
        else
          Access(frame + va % 4096,
            true,
            !readOnly && e / 0x80 % 2 == 0,
            !pxn && e / 0x20_0000_0000_0000 % 2 == 0 && !(ctl.wxn && !readOnly && e / 0x80 % 2 == 0),
            !noEl0 && e / 0x40 % 2 == 1,
            e / 0x4 % 8 == 1)
      else if e / 0x2 % 2 == 0 then
        if level == 4 || e / 0x400 % 2 == 0 then Fault
        else
          LargePage(frame, level, va, !readOnly && e / 0x80 % 2 == 0,
            !pxn && e / 0x20_0000_0000_0000 % 2 == 0 && !(ctl.wxn && !readOnly && e / 0x80 % 2 == 0),
            !noEl0 && e / 0x40 % 2 == 1)
      else
        ArmWalk(ctl, mem, frame, level - 1, va,
          readOnly || e / 0x4000_0000_0000_0000 % 2 == 1,
          pxn || e / 0x800_0000_0000_0000 % 2 == 1,
          noEl0 || e / 0x2000_0000_0000_0000 % 2 == 1)
  }

  // ---------------------------------------------------------------------
  // RISC-V Privileged Architecture v1.12, sections 4.3.2 and 4.4: Sv39
  // ---------------------------------------------------------------------

  /** Steps 2 to 8 of the translation algorithm, at level `i`. */
  ghost function Sv39Walk(mem: Memory, a: nat, i: int, va: nat): Access
    decreases i + 1
  {
    if i < 0 || !TableIn(mem, a) then Fault
    else
      var pte := mem[a][VpnDigit(va, i)];
      var r, w, x := pte / 0x2 % 2 == 1, pte / 0x4 % 2 == 1, pte / 0x8 % 2 == 1;
      var ppn := pte / 0x400 % 0x1000_0000_0000;
      if pte % 2 == 0 || (!r && w) || pte / 0x40_0000_0000_0000 != 0 then Fault
      else if r || x then
        if (i == 1 && ppn % 512 != 0) || (i >= 2 && ppn % 0x4_0000 != 0) then Fault
        else if pte / 0x40 % 2 == 0 then Fault
        else
          var offset := if i == 0 then va % 4096 else if i == 1 then va % 0x20_0000 else va % 0x4000_0000;
          Access(ppn * 4096 + offset, r, w && pte / 0x80 % 2 == 1, x, pte / 0x10 % 2 == 1, false)
      else Sv39Walk(mem, ppn * 4096, i - 1, va)
  }

  ghost function HwWalk(arch: Arch, ctl: Controls, mem: Memory, root: nat, va: nat): Access {
    match arch
    case X86_64 => X86Walk(ctl, mem, root, 4, va, true, true, false)
    case AArch64 => ArmWalk(ctl, mem, root, 4, va, false, false, false)
    case Sv39 => Sv39Walk(mem, root, 2, va)
  }

  // ---------------------------------------------------------------------
  // Agreement with the page map
  // ---------------------------------------------------------------------

  /** What a page was mapped as: the page that was asked for, and its permissions. */
  datatype Grant = Grant(page: nat, perms: MapPermissions)

  /** The hardware reaches a page: it has the address bits of its frame, and on
      x86_64 it knows the no-execute bit if the entry has it set. */
  predicate Reaches(arch: Arch, ctl: Controls, g: Grant) {
    match arch
    case X86_64 => FrameSeen(arch, g.page) * 4096 < ctl.physLimit && (ctl.nxe || g.perms.executable)
    case AArch64 => FrameSeen(arch, g.page) * 4096 < ctl.physLimit
    case Sv39 => g.page < 0x1000_0000_0000
  }

  /** The rights the hardware grants at an offset in a page mapped as `g`. Every page
      can be read, whatever was asked. On AArch64 it is writable, whatever was asked;
      on Sv39 an entry cannot ask for uncached memory. */
  function Granted(arch: Arch, ctl: Controls, g: Grant, offset: nat): Access {
    if !Reaches(arch, ctl, g) then Fault
    else
      var phys, perms := FrameSeen(arch, g.page) * 4096 + offset, g.perms;
      match arch
      case X86_64 => Access(phys, true, perms.writable || !ctl.wp, perms.executable, false, perms.deviceUncached)
      case AArch64 => Access(phys, true, true, perms.executable && !ctl.wxn, false, perms.deviceUncached)
      case Sv39 => Access(phys, true, perms.writable, perms.executable, false, false)
  }

  predicate InReach(arch: Arch, ctl: Controls, table: nat) {
    arch == Sv39 || table < ctl.physLimit
  }

  /** The memory of a machine whose tables represent `pm`, where the pages are mapped
      as `grants` says. */
  ghost predicate Booted(arch: Arch, ctl: Controls, mem: Memory, lay: Layout, s: Tables, pm: PageMap,
      grants: map<nat, Grant>) {
    && Represents(lay, s, pm) && Holds(mem, lay, s)
    && lay.format.levels == Levels(arch)
    && (forall t :: 0 <= t < ROWS ==>
          FrameOk(arch, lay.addr[t]) && InReach(arch, ctl, lay.addr[t])
            && lay.format.entry(lay.addr[t]) == TableValue(arch, lay.addr[t]))
    && pm.leaves.Keys == grants.Keys
    && (forall v :: v in grants ==>
          pm.leaves[v] == LeafValue(arch, FrameSeen(arch, grants[v].page) * 4096, grants[v].perms))
  }

  ghost function Expected(arch: Arch, ctl: Controls, grants: map<nat, Grant>, va: nat): Access {
    if va / 4096 in grants then Granted(arch, ctl, grants[va / 4096], va % 4096) else Fault
  }

  // ---------------------------------------------------------------------
  // Reading fields back
  // ---------------------------------------------------------------------

  /** Bits 0 to 3 of a sum with a multiple of 4096. */
  lemma LowField(x: nat, low: nat)
    requires x % 4096 == 0
    ensures (x + low) % 2 == low % 2 && (x + low) / 0x2 % 2 == low / 0x2 % 2
    ensures (x + low) / 0x4 % 2 == low / 0x4 % 2 && (x + low) / 0x8 % 2 == low / 0x8 % 2
  {
    var q := x / 4096;
    assert x == q * 4096;
    assert (x + low) % 2 == low % 2 by { BitAbove(x, q * 2048, 1, low); }
    assert (x + low) / 0x2 % 2 == low / 0x2 % 2 by { BitAbove(x, q * 1024, 0x2, low); }
    assert (x + low) / 0x4 % 2 == low / 0x4 % 2 by { BitAbove(x, q * 512, 0x4, low); }
    assert (x + low) / 0x8 % 2 == low / 0x8 % 2 by { BitAbove(x, q * 256, 0x8, low); }
  }

  lemma BitAbove(x: nat, k: nat, w: nat, low: nat)
    requires w > 0 && x == k * 2 * w
    ensures (x + low) / w % 2 == low / w % 2
  {
    FieldAbove(x, k, 2, w, low);
  }

  /** Bits 4, 6, 7 and 10, and the three bits from 2. */
  lemma MidField(x: nat, low: nat)
    requires x % 4096 == 0
    ensures (x + low) / 0x10 % 2 == low / 0x10 % 2 && (x + low) / 0x40 % 2 == low / 0x40 % 2
    ensures (x + low) / 0x80 % 2 == low / 0x80 % 2 && (x + low) / 0x400 % 2 == low / 0x400 % 2
    ensures (x + low) / 0x4 % 8 == low / 0x4 % 8
  {
    var q := x / 4096;
    assert x == q * 4096;
    assert (x + low) / 0x10 % 2 == low / 0x10 % 2 by { BitAbove(x, q * 128, 0x10, low); }
    assert (x + low) / 0x40 % 2 == low / 0x40 % 2 by { BitAbove(x, q * 32, 0x40, low); }
    assert (x + low) / 0x80 % 2 == low / 0x80 % 2 by { BitAbove(x, q * 16, 0x80, low); }
    assert (x + low) / 0x400 % 2 == low / 0x400 % 2 by { BitAbove(x, q * 2, 0x400, low); }
    assert (x + low) / 0x4 % 8 == low / 0x4 % 8 by { FieldAbove(x, q * 128, 8, 0x4, low); }
  }

  /** The frame field, between low bits and bits from 52 up. */
  lemma FrameField(phys: nat, low: nat, hi: nat)
    requires phys % 4096 == 0 && phys < 0x10_0000_0000_0000 && low < 4096
    ensures var e := phys + low + hi * 0x10_0000_0000_0000;
      && e / 0x1000 % 0x100_0000_0000 * 0x1000 == phys
      && (phys < 0x1_0000_0000_0000 ==> e / 0x1000 % 0x10_0000_0000 * 0x1000 == phys)
      && e / 0x10_0000_0000_0000 == hi
  {
    var q := phys / 0x1000;
    var e := phys + low + hi * 0x10_0000_0000_0000;
    assert phys == q * 0x1000;
    QuotientIs(e, 0x1000, q + hi * 0x100_0000_0000, low);
    QuotientIs(q + hi * 0x100_0000_0000, 0x100_0000_0000, hi, q);
    if phys < 0x1_0000_0000_0000 {
      QuotientIs(q + hi * 0x100_0000_0000, 0x10_0000_0000, hi * 16, q);
    }
    QuotientIs(e, 0x10_0000_0000_0000, hi, phys + low);
  }

  lemma X86TableBits(a: nat)
    requires FrameOk(X86_64, a)
    ensures var e := TableValue(X86_64, a);
      && e % 2 == 1 && e / 0x2 % 2 == 1 && e / 0x4 % 2 == 1 && e / 0x80 % 2 == 0
      && e / 0x8000_0000_0000_0000 % 2 == 0 && e / 0x1000 % 0x100_0000_0000 * 0x1000 == a
  {
    LowField(a, 0x7);
    MidField(a, 0x7);
    FrameField(a, 0x7, 0);
  }

  lemma X86Low(w: bool, d: bool)
    ensures var low := 0x1 + (if w then 0x2 else 0) + (if d then 0x18 else 0);
      && low < 4096 && low % 2 == 1 && (low / 0x2 % 2 == 1 <==> w) && low / 0x4 % 2 == 0
      && (low / 0x8 % 2 == 1 <==> d) && (low / 0x10 % 2 == 1 <==> d) && low / 0x80 % 2 == 0
  {
    if w {
      if d { } else { }
    } else {
      if d { } else { }
    }
  }

  lemma X86High(phys: nat, low: nat, x: bool)
    requires FrameOk(X86_64, phys) && low < 4096
    ensures var e := phys + low + (if x then 0 else 0x8000_0000_0000_0000);
      && (e / 0x8000_0000_0000_0000 % 2 == 1 <==> !x)
      && e / 0x1000 % 0x100_0000_0000 * 0x1000 == phys
  {
    FrameField(phys, low, if x then 0 else 0x800);
  }

  lemma X86LeafBits(phys: nat, perms: MapPermissions)
    requires FrameOk(X86_64, phys)
    ensures var e := LeafValue(X86_64, phys, perms);
      && e % 2 == 1 && (e / 0x2 % 2 == 1 <==> perms.writable) && e / 0x4 % 2 == 0
      && (e / 0x8 % 2 == 1 <==> perms.deviceUncached) && (e / 0x10 % 2 == 1 <==> perms.deviceUncached)
      && e / 0x80 % 2 == 0 && (e / 0x8000_0000_0000_0000 % 2 == 1 <==> !perms.executable)
      && e / 0x1000 % 0x100_0000_0000 * 0x1000 == phys
  {
    var low := 0x1 + (if perms.writable then 0x2 else 0) + (if perms.deviceUncached then 0x18 else 0);
    var x := phys + (if perms.executable then 0 else 0x8000_0000_0000_0000);
    X86Low(perms.writable, perms.deviceUncached);
    X86High(phys, low, perms.executable);
    LowField(x, low);
    MidField(x, low);
    assert LeafValue(X86_64, phys, perms) == x + low;
  }

  /** The walk below a table entry goes on with the same rights. */
  lemma X86WalkDown(ctl: Controls, mem: Memory, table: nat, h: nat, va: nat, e: nat, a: nat)
    requires h > 1 && TableIn(mem, table) && e == mem[table][VpnDigit(va, h - 1)]
    requires FrameOk(X86_64, a) && a < ctl.physLimit && e == TableValue(X86_64, a)
    ensures X86Walk(ctl, mem, table, h, va, true, true, false) == X86Walk(ctl, mem, a, h - 1, va, true, true, false)
  {
    X86TableBits(a);
  }

  lemma X86WalkLeaf(ctl: Controls, mem: Memory, table: nat, va: nat, e: nat, g: Grant)
    requires TableIn(mem, table) && e == mem[table][VpnDigit(va, 0)]
    requires e == LeafValue(X86_64, FrameSeen(X86_64, g.page) * 4096, g.perms)
    ensures X86Walk(ctl, mem, table, 1, va, true, true, false) == Granted(X86_64, ctl, g, va % 4096)
  {
    X86LeafBits(FrameSeen(X86_64, g.page) * 4096, g.perms);
  }

  lemma X86Next(ctl: Controls, mem: Memory, lay: Layout, s: Tables, pm: PageMap, grants: map<nat, Grant>,
      t: nat, va: nat, h: nat) returns (u: nat)
    requires Booted(X86_64, ctl, mem, lay, s, pm, grants) && va < CanonicalLimit(X86_64)
    requires t <= s.next && h >= 1 && DirAt(4, pm, t) == Dir(h, Up(va / 4096, h))
    ensures u > 0 ==>
      && h > 1 && u <= s.next && DirAt(4, pm, u) == Dir(h - 1, Up(va / 4096, h - 1))
      && X86Walk(ctl, mem, lay.addr[t], h, va, true, true, false)
        == X86Walk(ctl, mem, lay.addr[u], h - 1, va, true, true, false)
    ensures u == 0 ==> X86Walk(ctl, mem, lay.addr[t], h, va, true, true, false) == Expected(X86_64, ctl, grants, va)
  {
    var v, e := va / 4096, 0;
    e, u := EntryOnPath(lay, s, pm, t, v, h);
    if u > 0 {
      X86WalkDown(ctl, mem, lay.addr[t], h, va, e, lay.addr[u]);
    } else if h == 1 && v in grants {
      X86WalkLeaf(ctl, mem, lay.addr[t], va, e, grants[v]);
    }
  }

  lemma {:induction false} X86FromDir(ctl: Controls, mem: Memory, lay: Layout, s: Tables, pm: PageMap,
      grants: map<nat, Grant>, t: nat, va: nat, h: nat)
    requires Booted(X86_64, ctl, mem, lay, s, pm, grants) && va < CanonicalLimit(X86_64)
    requires t <= s.next && h >= 1 && DirAt(4, pm, t) == Dir(h, Up(va / 4096, h))
    ensures X86Walk(ctl, mem, lay.addr[t], h, va, true, true, false) == Expected(X86_64, ctl, grants, va)
    decreases h
  {
    var u := X86Next(ctl, mem, lay, s, pm, grants, t, va, h);
    if u > 0 {
      X86FromDir(ctl, mem, lay, s, pm, grants, u, va, h - 1);
    }
  }

  lemma ArmTableBits(a: nat)
    requires FrameOk(AArch64, a)
    ensures var e := TableValue(AArch64, a);
      && e % 2 == 1 && e / 0x2 % 2 == 1 && e / 0x1000 % 0x10_0000_0000 * 0x1000 == a
      && e / 0x800_0000_0000_0000 == 0 && e / 0x2000_0000_0000_0000 == 0 && e / 0x4000_0000_0000_0000 == 0
  {
    LowField(a, 0x3);
    FrameField(a, 0x3, 0);
  }

  lemma ArmLow(d: bool)
    ensures var low := 0x703 + (if d then 0x4 else 0);
      && low % 2 == 1 && low / 0x2 % 2 == 1 && low / 0x400 % 2 == 1
      && low / 0x80 % 2 == 0 && low / 0x40 % 2 == 0 && (low / 0x4 % 8 == 1 <==> d)
  {
    if d { } else { }
  }

  lemma ArmHigh(phys: nat, low: nat, x: bool)
    requires FrameOk(AArch64, phys) && low < 4096
    ensures var e := phys + low + (if x then 0 else 0x60_0000_0000_0000);
      && (e / 0x20_0000_0000_0000 % 2 == 0 <==> x)
      && e / 0x1000 % 0x10_0000_0000 * 0x1000 == phys
  {
    FrameField(phys, low, if x then 0 else 0x6);
  }

  lemma ArmLeafBits(phys: nat, perms: MapPermissions)
    requires FrameOk(AArch64, phys)
    ensures var e := LeafValue(AArch64, phys, perms);
      && e % 2 == 1 && e / 0x2 % 2 == 1 && e / 0x400 % 2 == 1
      && e / 0x80 % 2 == 0 && e / 0x40 % 2 == 0 && (e / 0x4 % 8 == 1 <==> perms.deviceUncached)
      && (e / 0x20_0000_0000_0000 % 2 == 0 <==> perms.executable)
      && e / 0x1000 % 0x10_0000_0000 * 0x1000 == phys
  {
    var low := 0x703 + (if perms.deviceUncached then 0x4 else 0);
    var x := phys + (if perms.executable then 0 else 0x60_0000_0000_0000);
    ArmLow(perms.deviceUncached);
    ArmHigh(phys, low, perms.executable);
    LowField(x, low);
    MidField(x, low);
    assert LeafValue(AArch64, phys, perms) == x + low;
  }

  /** The walk below a table descriptor goes on with the same rights. */
  lemma ArmWalkDown(ctl: Controls, mem: Memory, table: nat, h: nat, va: nat, e: nat, a: nat)
    requires h > 1 && TableIn(mem, table) && e == mem[table][VpnDigit(va, h - 1)]
    requires FrameOk(AArch64, a) && a < ctl.physLimit && e == TableValue(AArch64, a)
    ensures ArmWalk(ctl, mem, table, h, va, false, false, false) == ArmWalk(ctl, mem, a, h - 1, va, false, false, false)
  {
    ArmTableBits(a);
  }

  lemma ArmWalkLeaf(ctl: Controls, mem: Memory, table: nat, va: nat, e: nat, g: Grant)
    requires TableIn(mem, table) && e == mem[table][VpnDigit(va, 0)]
    requires e == LeafValue(AArch64, FrameSeen(AArch64, g.page) * 4096, g.perms)
    ensures ArmWalk(ctl, mem, table, 1, va, false, false, false) == Granted(AArch64, ctl, g, va % 4096)
  {
    ArmLeafBits(FrameSeen(AArch64, g.page) * 4096, g.perms);
  }

  lemma ArmNext(ctl: Controls, mem: Memory, lay: Layout, s: Tables, pm: PageMap, grants: map<nat, Grant>,
      t: nat, va: nat, h: nat) returns (u: nat)
    requires Booted(AArch64, ctl, mem, lay, s, pm, grants) && va < CanonicalLimit(AArch64)
    requires t <= s.next && h >= 1 && DirAt(4, pm, t) == Dir(h, Up(va / 4096, h))
    ensures u > 0 ==>
      && h > 1 && u <= s.next && DirAt(4, pm, u) == Dir(h - 1, Up(va / 4096, h - 1))
      && ArmWalk(ctl, mem, lay.addr[t], h, va, false, false, false)
        == ArmWalk(ctl, mem, lay.addr[u], h - 1, va, false, false, false)
    ensures u == 0 ==> ArmWalk(ctl, mem, lay.addr[t], h, va, false, false, false) == Expected(AArch64, ctl, grants, va)
  {
    var v, e := va / 4096, 0;
    e, u := EntryOnPath(lay, s, pm, t, v, h);
    if u > 0 {
      ArmWalkDown(ctl, mem, lay.addr[t], h, va, e, lay.addr[u]);
    } else if h == 1 && v in grants {
      ArmWalkLeaf(ctl, mem, lay.addr[t], va, e, grants[v]);
    }
  }

  lemma {:induction false} ArmFromDir(ctl: Controls, mem: Memory, lay: Layout, s: Tables, pm: PageMap,
      grants: map<nat, Grant>, t: nat, va: nat, h: nat)
    requires Booted(AArch64, ctl, mem, lay, s, pm, grants) && va < CanonicalLimit(AArch64)
    requires t <= s.next && h >= 1 && DirAt(4, pm, t) == Dir(h, Up(va / 4096, h))
    ensures ArmWalk(ctl, mem, lay.addr[t], h, va, false, false, false) == Expected(AArch64, ctl, grants, va)
    decreases h
  {
    var u := ArmNext(ctl, mem, lay, s, pm, grants, t, va, h);
    if u > 0 {
      ArmFromDir(ctl, mem, lay, s, pm, grants, u, va, h - 1);
    }
  }

  lemma Sv39TableBits(a: nat)
    requires FrameOk(Sv39, a)
    ensures var e := TableValue(Sv39, a);
      && e % 2 == 1 && e / 0x2 % 2 == 0 && e / 0x4 % 2 == 0 && e / 0x8 % 2 == 0
      && e / 0x40_0000_0000_0000 == 0 && e / 0x400 % 0x1000_0000_0000 * 4096 == a
  {
    PageField(a / 0x1000, 0x1);
  }

  /** The page-number field of an Sv39 entry, and bits 0 to 7 below it. */
  lemma PageField(page: nat, low: nat)
    requires page < 0x1000_0000_0000 && low < 0x400
    ensures var e := page * 0x400 + low;
      && e / 0x400 == page && e / 0x40_0000_0000_0000 == 0
      && e % 2 == low % 2 && e / 0x2 % 2 == low / 0x2 % 2 && e / 0x4 % 2 == low / 0x4 % 2
        && e / 0x8 % 2 == low / 0x8 % 2
  {
    var x := page * 0x400;
    assert (x + low) / 0x400 == page by { QuotientIs(x + low, 0x400, page, low); }
    assert (x + low) / 0x40_0000_0000_0000 == 0 by { QuotientIs(x + low, 0x40_0000_0000_0000, 0, x + low); }
    assert (x + low) % 2 == low % 2 by { BitAbove(x, page * 512, 1, low); }
    assert (x + low) / 0x2 % 2 == low / 0x2 % 2 by { BitAbove(x, page * 256, 0x2, low); }
    assert (x + low) / 0x4 % 2 == low / 0x4 % 2 by { BitAbove(x, page * 128, 0x4, low); }
    assert (x + low) / 0x8 % 2 == low / 0x8 % 2 by { BitAbove(x, page * 64, 0x8, low); }
  }

  lemma PageMidField(page: nat, low: nat)
    ensures var e := page * 0x400 + low;
      e / 0x10 % 2 == low / 0x10 % 2 && e / 0x40 % 2 == low / 0x40 % 2 && e / 0x80 % 2 == low / 0x80 % 2
  {
    var x := page * 0x400;
    assert (x + low) / 0x10 % 2 == low / 0x10 % 2 by { BitAbove(x, page * 32, 0x10, low); }
    assert (x + low) / 0x40 % 2 == low / 0x40 % 2 by { BitAbove(x, page * 8, 0x40, low); }
    assert (x + low) / 0x80 % 2 == low / 0x80 % 2 by { BitAbove(x, page * 4, 0x80, low); }
  }

  lemma Sv39Low(w: bool, x: bool)
    ensures var low := 0xC3 + (if w then 0x4 else 0) + (if x then 0x8 else 0);
      && low < 0x400 && low % 2 == 1 && low / 0x2 % 2 == 1 && (low / 0x4 % 2 == 1 <==> w) && (low / 0x8 % 2 == 1 <==> x)
      && low / 0x10 % 2 == 0 && low / 0x40 % 2 == 1 && low / 0x80 % 2 == 1
  {
    if w {
      if x { } else { }
    } else {
      if x { } else { }
    }
  }

  lemma Sv39LeafBits(page: nat, perms: MapPermissions)
    requires page < 0x1000_0000_0000
    ensures var e := LeafValue(Sv39, page * 4096, perms);
      && e % 2 == 1 && e / 0x2 % 2 == 1 && (e / 0x4 % 2 == 1 <==> perms.writable)
        && (e / 0x8 % 2 == 1 <==> perms.executable)
      && e / 0x10 % 2 == 0 && e / 0x40 % 2 == 1 && e / 0x80 % 2 == 1
      && e / 0x40_0000_0000_0000 == 0 && e / 0x400 % 0x1000_0000_0000 == page
  {
    var low := 0xC3 + (if perms.writable then 0x4 else 0) + (if perms.executable then 0x8 else 0);
    Sv39Low(perms.writable, perms.executable);
    PageField(page, low);
    PageMidField(page, low);
    assert LeafValue(Sv39, page * 4096, perms) == page * 0x400 + low;
  }

  /** The walk below a pointer entry goes on; R, W and X are all clear there. */
  lemma Sv39WalkDown(mem: Memory, table: nat, i: nat, va: nat, e: nat, a: nat)
    requires TableIn(mem, table) && e == mem[table][VpnDigit(va, i)]
    requires FrameOk(Sv39, a) && e == TableValue(Sv39, a)
    ensures Sv39Walk(mem, table, i, va) == Sv39Walk(mem, a, i - 1, va)
  {
    Sv39TableBits(a);
  }

  /** A page number that does not fit its field sets reserved bits. */
  lemma Sv39Spills(page: nat, low: nat)
    requires page >= 0x1000_0000_0000
    ensures (page * 0x400 + low) / 0x40_0000_0000_0000 != 0
  {
    assert page * 0x400 + low >= 0x40_0000_0000_0000;
  }

  lemma Sv39WalkLeaf(ctl: Controls, mem: Memory, table: nat, va: nat, e: nat, g: Grant)
    requires TableIn(mem, table) && e == mem[table][VpnDigit(va, 0)]
    requires e == LeafValue(Sv39, g.page * 4096, g.perms)
    ensures Sv39Walk(mem, table, 0, va) == Granted(Sv39, ctl, g, va % 4096)
  {
    if g.page < 0x1000_0000_0000 {
      Sv39LeafBits(g.page, g.perms);
    } else {
      var low := 0xC3 + (if g.perms.writable then 0x4 else 0) + (if g.perms.executable then 0x8 else 0);
      assert e == g.page * 0x400 + low;
      Sv39Spills(g.page, low);
    }
  }

  lemma Sv39Next(ctl: Controls, mem: Memory, lay: Layout, s: Tables, pm: PageMap, grants: map<nat, Grant>,
      t: nat, va: nat, i: nat) returns (u: nat)
    requires Booted(Sv39, ctl, mem, lay, s, pm, grants) && va < CanonicalLimit(Sv39)
    requires t <= s.next && DirAt(3, pm, t) == Dir(i + 1, Up(va / 4096, i + 1))
    ensures u > 0 ==>
      && i > 0 && u <= s.next && DirAt(3, pm, u) == Dir(i, Up(va / 4096, i))
      && Sv39Walk(mem, lay.addr[t], i, va) == Sv39Walk(mem, lay.addr[u], i - 1, va)
    ensures u == 0 ==> Sv39Walk(mem, lay.addr[t], i, va) == Expected(Sv39, ctl, grants, va)
  {
    var v, e := va / 4096, 0;
    e, u := EntryOnPath(lay, s, pm, t, v, i + 1);
    if u > 0 {
      Sv39WalkDown(mem, lay.addr[t], i, va, e, lay.addr[u]);
    } else if i == 0 && v in grants {
      Sv39WalkLeaf(ctl, mem, lay.addr[t], va, e, grants[v]);
    }
  }

  lemma {:induction false} Sv39FromDir(ctl: Controls, mem: Memory, lay: Layout, s: Tables, pm: PageMap,
      grants: map<nat, Grant>, t: nat, va: nat, i: nat)
    requires Booted(Sv39, ctl, mem, lay, s, pm, grants) && va < CanonicalLimit(Sv39)
    requires t <= s.next && DirAt(3, pm, t) == Dir(i + 1, Up(va / 4096, i + 1))
    ensures Sv39Walk(mem, lay.addr[t], i, va) == Expected(Sv39, ctl, grants, va)
    decreases i
  {
    var u := Sv39Next(ctl, mem, lay, s, pm, grants, t, va, i);
    if u > 0 {
      Sv39FromDir(ctl, mem, lay, s, pm, grants, u, va, i - 1);
    }
  }

  /** The hardware walk agrees with the page map at every canonical low address:
      a mapped page translates to the frame it was mapped to with the granted rights,
      and every other address faults. */
  lemma HardwareAgrees(arch: Arch, ctl: Controls, mem: Memory, lay: Layout, s: Tables, pm: PageMap,
      grants: map<nat, Grant>, va: nat)
    requires Booted(arch, ctl, mem, lay, s, pm, grants) && va < CanonicalLimit(arch)
    ensures HwWalk(arch, ctl, mem, lay.addr[0], va) == Expected(arch, ctl, grants, va)
  {
    UpValues(va / 4096);
    match arch {
      case X86_64 => X86FromDir(ctl, mem, lay, s, pm, grants, 0, va, 4);
      case AArch64 => ArmFromDir(ctl, mem, lay, s, pm, grants, 0, va, 4);
      case Sv39 => Sv39FromDir(ctl, mem, lay, s, pm, grants, 0, va, 2);
    }
  }
}
