/** What the hardware sees after any run of `setup_identity_mapping` calls, on one
    architecture and across the three. */
module BootTheorems {
  import opened Words
  import opened Bits
  import opened Hal
  import opened PageMap
  import opened PageTables
  import opened PageAddresses
  import opened PageRegions
  import opened PageEntries
  import opened PageLeaves
  import opened PageTheorems
  import opened PageBuilder
  import opened Mmu

  // ---------------------------------------------------------------------
  // What a run of calls maps
  // ---------------------------------------------------------------------

  /** What mapping the pages from `a` up to `m` makes of the pages that the indices
      tell apart: each is mapped as the last page taken for it. */
  ghost function PageGrants(levels: nat, a: nat, m: nat, perms: MapPermissions): (g: map<nat, Grant>)
    ensures forall v :: v in g <==> LastAlias(levels, a, m, v).Some?
    ensures forall v :: v in g ==> g[v] == Grant(LastAlias(levels, a, m, v).value, perms)
    decreases m - a
  {
    if a >= m then map[]
    else PageGrants(levels, a, m - 1, perms)[Wrap(levels, m - 1) := Grant(m - 1, perms)]
  }

  /** The pages that a run of calls maps, whether or not each call succeeds. */
  ghost function Grants(f: Format, pm: PageMap, rs: seq<Region>): map<nat, Grant>
    decreases |rs|
  {
    if rs == [] then map[]
    else
      var r := rs[0];
      PageGrants(f.levels, FirstPage(r.base), MappedUpTo(f, pm, r), r.perms)
      + Grants(f, MapRegion(f, pm, r.base, r.length, r.perms).0, rs[1..])
  }

  ghost function LeavesOf(f: Format, grants: map<nat, Grant>): map<nat, nat> {
    map v | v in grants :: IdentityLeaf(f, grants[v].page, grants[v].perms)
  }

  /** The page map after a run of calls, whether or not each call succeeds. */
  ghost function RunRegions(f: Format, pm: PageMap, rs: seq<Region>): PageMap
    decreases |rs|
  {
    if rs == [] then pm
    else RunRegions(f, MapRegion(f, pm, rs[0].base, rs[0].length, rs[0].perms).0, rs[1..])
  }

  lemma OneCallMaps(f: Format, pm: PageMap, r: Region)
    requires 3 <= f.levels <= 4 && Sound(f.levels, pm)
    ensures var pm' := MapRegion(f, pm, r.base, r.length, r.perms).0;
      && Sound(f.levels, pm')
      && pm'.leaves == pm.leaves + LeavesOf(f, PageGrants(f.levels, FirstPage(r.base), MappedUpTo(f, pm, r), r.perms))
  {
    var pm' := MapRegion(f, pm, r.base, r.length, r.perms).0;
    var m := MappedUpTo(f, pm, r);
    var g := PageGrants(f.levels, FirstPage(r.base), m, r.perms);
    RegionAnywhere(f, pm, r);
    forall v: nat
      ensures Lookup(pm'.leaves, v) == Lookup(pm.leaves + LeavesOf(f, g), v)
    {
      LookupMerged(f, pm.leaves, g, v);
      assert v in g <==> LastAlias(f.levels, FirstPage(r.base), m, v).Some?;
    }
    SameLookups(pm'.leaves, pm.leaves + LeavesOf(f, g));
  }

  lemma LookupMerged(f: Format, leaves: map<nat, nat>, g: map<nat, Grant>, v: nat)
    ensures Lookup(leaves + LeavesOf(f, g), v)
      == if v in g then Some(IdentityLeaf(f, g[v].page, g[v].perms)) else Lookup(leaves, v)
  {
  }

  lemma SameLookups(x: map<nat, nat>, y: map<nat, nat>)
    requires forall v: nat :: Lookup(x, v) == Lookup(y, v)
    ensures x == y
  {
    forall v: nat
      ensures v in x <==> v in y
      ensures v in x ==> x[v] == y[v]
    {
      assert Lookup(x, v) == Lookup(y, v);
    }
  }

  lemma LeavesOfMerged(f: Format, x: map<nat, Grant>, y: map<nat, Grant>)
    ensures LeavesOf(f, x + y) == LeavesOf(f, x) + LeavesOf(f, y)
  {
  }

  /** Over every run whatever, failing calls included, the mapped pages are mapped as
      the last call that reached them says. */
  lemma {:induction false} RunMaps(f: Format, pm: PageMap, rs: seq<Region>)
    requires 3 <= f.levels <= 4 && Sound(f.levels, pm)
    ensures Sound(f.levels, RunRegions(f, pm, rs))
    ensures RunRegions(f, pm, rs).leaves == pm.leaves + LeavesOf(f, Grants(f, pm, rs))
    decreases |rs|
  {
    if rs == [] {
      assert LeavesOf(f, Grants(f, pm, rs)) == map[];
    } else {
      var r := rs[0];
      var next := MapRegion(f, pm, r.base, r.length, r.perms).0;
      var g := PageGrants(f.levels, FirstPage(r.base), MappedUpTo(f, pm, r), r.perms);
      OneCallMaps(f, pm, r);
      RunMaps(f, next, rs[1..]);
      LeavesOfMerged(f, g, Grants(f, next, rs[1..]));
      MergeAssociates(pm.leaves, LeavesOf(f, g), LeavesOf(f, Grants(f, next, rs[1..])));
    }
  }

  /** When no region reaches past the index span, every page that is mapped is mapped
      to itself. */
  lemma {:induction false} RunMapsIdentity(f: Format, pm: PageMap, rs: seq<Region>, v: nat)
    requires 3 <= f.levels <= 4 && Sound(f.levels, pm)
    requires (forall r :: r in rs ==> Fits(f.levels, r)) && v in Grants(f, pm, rs)
    ensures Grants(f, pm, rs)[v].page == v < PageSpan(f.levels)
    decreases |rs|
  {
    var r := rs[0];
    assert r in rs;
    var next := MapRegion(f, pm, r.base, r.length, r.perms).0;
    OneCallMaps(f, pm, r);
    if v in Grants(f, next, rs[1..]) {
      RunMapsIdentity(f, next, rs[1..], v);
    } else {
      RegionNotEmpty(f.levels, r);
      StopPageIsEnd(f, pm, FirstPage(r.base), EndPage(r.base, r.length), r.perms);
    }
  }

  /** Any run of calls on the builder, whether or not each call succeeds, leaves
      tables that represent the page map of that run. */
  method RunCalls(b: PageTableBuilder, rs: seq<Region>)
    requires b.Valid() && forall i :: 0 <= i < |rs| ==> rs[i].base < U64_SIZE && rs[i].length < U64_SIZE
    modifies b, b.root, b.pool
    ensures b.Valid() && b.pm == RunRegions(b.format, old(b.pm), rs)
    decreases |rs|
  {
    if rs != [] {
      var r := b.SetupIdentityMapping(rs[0].base, rs[0].length, rs[0].perms);
      RunCalls(b, rs[1..]);
    }
  }

  /** Each page mapped to itself. */
  ghost function ToItself(covered: map<nat, MapPermissions>): map<nat, Grant> {
    map v | v in covered :: Grant(v, covered[v])
  }

  lemma ToItselfMerges(x: map<nat, MapPermissions>, y: map<nat, MapPermissions>)
    ensures ToItself(x + y) == ToItself(x) + ToItself(y)
  {
  }

  lemma GrantsOfRegion(f: Format, r: Region)
    requires Fits(f.levels, r) && r.length > 0
    ensures PageGrants(f.levels, FirstPage(r.base), EndPage(r.base, r.length), r.perms) == ToItself(RegionPages(r))
  {
    var a, b := FirstPage(r.base), EndPage(r.base, r.length);
    RegionNotEmpty(f.levels, r);
    var g := PageGrants(f.levels, a, b, r.perms);
    forall v: nat
      ensures v in g <==> v in RegionPages(r)
      ensures v in g ==> g[v] == Grant(v, r.perms)
    {
      AliasInSpan(f.levels, a, b, v);
    }
  }

  lemma AliasInSpan(levels: nat, a: nat, b: nat, v: nat)
    requires b <= PageSpan(levels)
    ensures LastAlias(levels, a, b, v) == if a <= v < b then Some(v) else None
  {
  }

  /** When every call of the run succeeds, the mapped pages are the covered ones. */
  lemma {:induction false} GrantsOfSuccess(f: Format, pm: PageMap, rs: seq<Region>)
    requires forall r :: r in rs ==> Fits(f.levels, r)
    requires MapRegions(f, pm, rs).1
    ensures RunRegions(f, pm, rs) == MapRegions(f, pm, rs).0 && Grants(f, pm, rs) == ToItself(Covered(rs))
    decreases |rs|
  {
    if rs != [] {
      var r := rs[0];
      assert r in rs;
      RegionNotEmpty(f.levels, r);
      StopPageIsEnd(f, pm, FirstPage(r.base), EndPage(r.base, r.length), r.perms);
      GrantsOfRegion(f, r);
      GrantsOfSuccess(f, MapRegion(f, pm, r.base, r.length, r.perms).0, rs[1..]);
      ToItselfMerges(RegionPages(r), Covered(rs[1..]));
    }
  }

  /** After a sequence of successful calls, exactly the covered pages are mapped,
      each to itself with the permissions of the last call that covers it. */
  lemma RegionsEffect(f: Format, pm: PageMap, rs: seq<Region>)
    requires 3 <= f.levels <= 4 && Sound(f.levels, pm)
    requires forall r :: r in rs ==> Fits(f.levels, r)
    requires MapRegions(f, pm, rs).1
    ensures Sound(f.levels, MapRegions(f, pm, rs).0)
    ensures MapRegions(f, pm, rs).0.leaves == pm.leaves + LeavesOf(f, ToItself(Covered(rs)))
  {
    GrantsOfSuccess(f, pm, rs);
    RunMaps(f, pm, rs);
  }

  /** A machine of architecture `arch` whose tables, at addresses `addr` in memory,
      are those that the calls `rs` build from fresh ones. */
  ghost predicate Machine(
    arch: Arch, ctl: Controls, mem: Memory, addr: seq<nat>, s: Tables, rs: seq<Region>)
  {
    && ValidAddresses(arch, addr)
    && (forall t :: 0 <= t < ROWS ==> InReach(arch, ctl, addr[t]))
    && Represents(Layout(FormatOf(arch), addr), s, RunRegions(FormatOf(arch), EMPTY, rs))
    && Holds(mem, Layout(FormatOf(arch), addr), s)
  }

  lemma MachineEntries(arch: Arch, addr: seq<nat>, t: nat)
    requires ValidAddresses(arch, addr) && t < ROWS
    ensures FormatOf(arch).entry(addr[t]) == TableValue(arch, addr[t])
  {
    TableValueIs(arch, addr[t]);
  }

  lemma MachineBooted(arch: Arch, ctl: Controls, mem: Memory, addr: seq<nat>, s: Tables, rs: seq<Region>)
    requires Machine(arch, ctl, mem, addr, s, rs)
    ensures var f := FormatOf(arch);
      Booted(arch, ctl, mem, Layout(f, addr), s, RunRegions(f, EMPTY, rs), Grants(f, EMPTY, rs))
  {
    var f := FormatOf(arch);
    var grants := Grants(f, EMPTY, rs);
    RunMaps(f, EMPTY, rs);
    forall t | 0 <= t < ROWS
      ensures f.entry(addr[t]) == TableValue(arch, addr[t])
    {
      MachineEntries(arch, addr, t);
    }
    forall v | v in grants
      ensures RunRegions(f, EMPTY, rs).leaves[v]
        == LeafValue(arch, FrameSeen(arch, grants[v].page) * 4096, grants[v].perms)
    {
      IdentityLeafIs(arch, grants[v].page, grants[v].perms);
    }
  }

  /** After every run of calls whatever, the hardware walk translates exactly the
      mapped pages that it can reach, each to the frame it was mapped to, and faults
      everywhere else. */
  lemma HardwareAfterRun(
    arch: Arch, ctl: Controls, mem: Memory, addr: seq<nat>, s: Tables, rs: seq<Region>, va: nat)
    requires Machine(arch, ctl, mem, addr, s, rs) && va < CanonicalLimit(arch)
    ensures HwWalk(arch, ctl, mem, addr[0], va) == Expected(arch, ctl, Grants(FormatOf(arch), EMPTY, rs), va)
  {
    var f := FormatOf(arch);
    MachineBooted(arch, ctl, mem, addr, s, rs);
    HardwareAgrees(arch, ctl, mem, Layout(f, addr), s, RunRegions(f, EMPTY, rs), Grants(f, EMPTY, rs), va);
  }

  // ---------------------------------------------------------------------
  // From fresh tables to the hardware walk
  // ---------------------------------------------------------------------

  lemma BuilderIsMachine(arch: Arch, ctl: Controls, b: PageTableBuilder, mem: Memory, rs: seq<Region>)
    requires b.Valid() && b.format == FormatOf(arch) && ValidAddresses(arch, b.addr)
    requires forall t :: 0 <= t < ROWS ==> InReach(arch, ctl, b.addr[t])
    requires b.pm == RunRegions(b.format, EMPTY, rs) && Holds(mem, Layout(b.format, b.addr), b.s)
    ensures Machine(arch, ctl, mem, b.addr, b.s, rs)
  {
  }

  /** Makes a builder for one architecture, runs the calls on it, and shows what the
      hardware finds in the memory that results: at every canonical address the
      mapped page with its rights, or a fault. */
  method Boot(arch: Arch, ghost ctl: Controls, addr: seq<nat>, rs: seq<Region>)
    returns (b: PageTableBuilder, ghost mem: Memory)
    requires ValidAddresses(arch, addr) && forall t :: 0 <= t < ROWS ==> InReach(arch, ctl, addr[t])
    requires forall i :: 0 <= i < |rs| ==> rs[i].base < U64_SIZE && rs[i].length < U64_SIZE
    ensures fresh(b) && b.Valid() && b.format == FormatOf(arch) && b.addr == addr
    ensures Machine(arch, ctl, mem, addr, b.s, rs)
    ensures forall va: nat :: va < CanonicalLimit(arch) ==>
      HwWalk(arch, ctl, mem, addr[0], va) == Expected(arch, ctl, Grants(FormatOf(arch), EMPTY, rs), va)
  {
    LayoutIsValid(arch, addr);
    b := new PageTableBuilder(FormatOf(arch), addr);
    RunCalls(b, rs);
    mem := MemoryExists(Layout(b.format, b.addr), b.s);
    BuilderIsMachine(arch, ctl, b, mem, rs);
    forall va: nat | va < CanonicalLimit(arch)
      ensures HwWalk(arch, ctl, mem, addr[0], va) == Expected(arch, ctl, Grants(FormatOf(arch), EMPTY, rs), va)
    {
      HardwareAfterRun(arch, ctl, mem, addr, b.s, rs, va);
    }
  }

  // ---------------------------------------------------------------------
  // How much the pool holds
  // ---------------------------------------------------------------------

  /** From address 0 on fresh tables, the longest run of 2 MiB blocks that fits. */
  function PoolHolds(arch: Arch): nat {
    if arch == Sv39 then 0x1E0_0000 else 0x1C0_0000
  }

  lemma FromZero(f: Format, n: nat, end: nat, perms: MapPermissions)
    requires 3 <= f.levels <= 4 && 0 < n <= end < 0x1_0000_0000 && end == (n + 4095) / 4096 * 4096
    ensures MapRegion(f, EMPTY, 0, n, perms).1
      == if TableBill(f.levels, 0, end) <= 16 then Ok(0) else Err(InvalidMemoryRegion)
  {
    var r := Region(0, n, perms);
    assert FirstPage(0) == 0 && EndPage(0, n) == (n + 4095) / 4096;
    FreshRegionSucceeds(f, r);
  }

  lemma RoundsToPages(n: nat)
    requires n % 4096 == 0
    ensures (n + 4095) / 4096 * 4096 == n && (n + 1 + 4095) / 4096 * 4096 == n + 4096
  {
  }

  lemma PoolEdge(f: Format, n: nat, perms: MapPermissions)
    requires 3 <= f.levels <= 4 && n % 4096 == 0 && 0 < n < 0x8000_0000
    requires TableBill(f.levels, 0, n) == 16 && TableBill(f.levels, 0, n + 4096) > 16
    ensures MapRegion(f, EMPTY, 0, n, perms).1 == Ok(0)
    ensures MapRegion(f, EMPTY, 0, n + 1, perms).1 == Err(InvalidMemoryRegion)
  {
    RoundsToPages(n);
    FromZero(f, n, n, perms);
    FromZero(f, n + 1, n + 4096, perms);
  }

  /** That many bytes from address 0 can be mapped, and one byte more cannot. */
  lemma PoolIsFullThere(arch: Arch, perms: MapPermissions)
    ensures MapRegion(FormatOf(arch), EMPTY, 0, PoolHolds(arch), perms).1 == Ok(0)
    ensures MapRegion(FormatOf(arch), EMPTY, 0, PoolHolds(arch) + 1, perms).1 == Err(InvalidMemoryRegion)
  {
    assert TableBill(4, 0, 0x1C0_0000) == 16 && TableBill(4, 0, 0x1C0_1000) == 17;
    assert TableBill(3, 0, 0x1E0_0000) == 16 && TableBill(3, 0, 0x1E0_1000) == 17;
    PoolEdge(FormatOf(arch), PoolHolds(arch), perms);
  }

  // ---------------------------------------------------------------------
  // Translation across architectures
  // ---------------------------------------------------------------------

  /** The physical address a walk arrives at. */
  ghost function FrameOf(a: Access): Option<nat> {
    if a.Fault? then None else Some(a.phys)
  }

  /** The page was covered by some call, and this hardware reaches it. */
  ghost predicate Served(arch: Arch, ctl: Controls, rs: seq<Region>, va: nat) {
    va / 4096 in Covered(rs) && Reaches(arch, ctl, Grant(va / 4096, Covered(rs)[va / 4096]))
  }

  /** After successful calls, the walk of a served address ends at that address,
      and every other walk faults. */
  lemma CoveredTranslation(
    arch: Arch, ctl: Controls, mem: Memory, addr: seq<nat>, s: Tables, rs: seq<Region>, va: nat)
    requires Machine(arch, ctl, mem, addr, s, rs) && MapRegions(FormatOf(arch), EMPTY, rs).1
    requires va < CanonicalLimit(arch) && forall r :: r in rs ==> Fits(Levels(arch), r)
    ensures FrameOf(HwWalk(arch, ctl, mem, addr[0], va)) == if Served(arch, ctl, rs, va) then Some(va) else None
  {
    HardwareAfterRun(arch, ctl, mem, addr, s, rs, va);
    GrantsOfSuccess(FormatOf(arch), EMPTY, rs);
    if va / 4096 in Covered(rs) {
      FrameOfItself(arch, ctl, Covered(rs)[va / 4096], va);
    }
  }

  lemma FrameOfItself(arch: Arch, ctl: Controls, perms: MapPermissions, va: nat)
    requires va < CanonicalLimit(arch)
    ensures var g := Grant(va / 4096, perms);
      FrameOf(Granted(arch, ctl, g, va % 4096)) == if Reaches(arch, ctl, g) then Some(va) else None
  {
    FrameIsSeen(arch, va);
  }

  lemma FrameIsSeen(arch: Arch, va: nat)
    requires va < CanonicalLimit(arch)
    ensures FrameSeen(arch, va / 4096) * 4096 + va % 4096 == va
  {
    match arch {
      case X86_64 => FieldIsWhole(va / 4096, 0x100_0000_0000);
      case AArch64 => FieldIsWhole(va / 4096, 0x10_0000_0000);
      case Sv39 =>
    }
  }

  /** The same successful calls give the same page-to-frame function on two
      architectures, at an address that both can translate, exactly when both reach
      the page or neither does. */
  lemma SameTranslation(
    arch: Arch, ctl: Controls, mem: Memory, addr: seq<nat>, s: Tables,
    arch': Arch, ctl': Controls, mem': Memory, addr': seq<nat>, s': Tables, rs: seq<Region>, va: nat)
    requires Machine(arch, ctl, mem, addr, s, rs) && MapRegions(FormatOf(arch), EMPTY, rs).1
    requires Machine(arch', ctl', mem', addr', s', rs) && MapRegions(FormatOf(arch'), EMPTY, rs).1
    requires va < CanonicalLimit(Sv39)
    requires forall r :: r in rs ==> Fits(Levels(arch), r) && Fits(Levels(arch'), r)
    ensures FrameOf(HwWalk(arch, ctl, mem, addr[0], va)) == FrameOf(HwWalk(arch', ctl', mem', addr'[0], va))
      <==> (Served(arch, ctl, rs, va) <==> Served(arch', ctl', rs, va))
  {
    CoveredTranslation(arch, ctl, mem, addr, s, rs, va);
    CoveredTranslation(arch', ctl', mem', addr', s', rs, va);
  }

  // ---------------------------------------------------------------------
  // Rights
  // ---------------------------------------------------------------------

  /** The hardware grants the rights that were asked for, and never to user code. */
  ghost predicate Honours(a: Access, perms: MapPermissions) {
    && a.Access? && !a.user && a.readable == perms.readable
    && a.writable == perms.writable && a.executable == perms.executable && a.uncached == perms.deviceUncached
  }

  /** When the rights of a mapped page are honoured. The page must be readable, for
      every mapped page is, and except on Sv39 within the physical addresses in use.
      On x86_64 either no-execute is enabled or the page is executable, and either
      writes are protected or the page is writable. On AArch64 the page is writable,
      and not executable if writable pages never are. On Sv39 it need not be uncached. */
  lemma RightsHonoured(
    arch: Arch, ctl: Controls, mem: Memory, addr: seq<nat>, s: Tables, rs: seq<Region>, va: nat)
    requires Machine(arch, ctl, mem, addr, s, rs) && va < CanonicalLimit(arch)
    requires va / 4096 in Grants(FormatOf(arch), EMPTY, rs)
    ensures var g := Grants(FormatOf(arch), EMPTY, rs)[va / 4096];
      var a, perms, frame := HwWalk(arch, ctl, mem, addr[0], va), g.perms, FrameSeen(arch, g.page) * 4096;
      && (a.Access? ==> !a.user && a.readable && a.phys == frame + va % 4096)
      && (Honours(a, perms) <==>
            perms.readable &&
            match arch
            case X86_64 => frame < ctl.physLimit && (ctl.nxe || perms.executable) && (ctl.wp || perms.writable)
            case AArch64 => frame < ctl.physLimit && perms.writable && !(ctl.wxn && perms.executable)
            case Sv39 => g.page < 0x1000_0000_0000 && !perms.deviceUncached)
  {
    HardwareAfterRun(arch, ctl, mem, addr, s, rs, va);
  }

  // ---------------------------------------------------------------------
  // Pages whose rights are not honoured
  // ---------------------------------------------------------------------

  /** One page of the low gigabyte, and the run that maps it. */
  const LOW_PAGE: nat := 0x1000

  function OnePage(perms: MapPermissions): seq<Region> {
    [Region(LOW_PAGE, 4096, perms)]
  }

  lemma OnePageSucceeds(f: Format, perms: MapPermissions)
    requires 3 <= f.levels <= 4
    ensures Fits(f.levels, Region(LOW_PAGE, 4096, perms))
    ensures MapRegion(f, EMPTY, LOW_PAGE, 4096, perms).1.Ok?
  {
    var r := Region(LOW_PAGE, 4096, perms);
    RegionNotEmpty(f.levels, r);
    assert FirstPage(LOW_PAGE) == 1 && EndPage(LOW_PAGE, 4096) == 2;
    assert TableBill(f.levels, 4096, 8192) == if f.levels == 3 then 2 else 3;
    FreshRegionSucceeds(f, r);
  }

  lemma OneRegion(f: Format, pm: PageMap, r: Region)
    requires MapRegion(f, pm, r.base, r.length, r.perms).1.Ok?
    ensures MapRegions(f, pm, [r]).1 && Covered([r]) == RegionPages(r)
  {
    var next := MapRegion(f, pm, r.base, r.length, r.perms).0;
    assert [r][1..] == [];
    assert MapRegions(f, next, []) == (next, true);
    assert Covered([]) == map[];
    assert RegionPages(r) + map[] == RegionPages(r);
  }

  lemma OnePageIsGranted(f: Format, perms: MapPermissions)
    requires 3 <= f.levels <= 4
    ensures Grants(f, EMPTY, OnePage(perms)) == map[1 := Grant(1, perms)]
  {
    var r := Region(LOW_PAGE, 4096, perms);
    OnePageSucceeds(f, perms);
    OneRegion(f, EMPTY, r);
    GrantsOfSuccess(f, EMPTY, OnePage(perms));
    assert FirstPage(LOW_PAGE) == 1 && EndPage(LOW_PAGE, 4096) == 2;
    assert RegionPages(r) == map[1 := perms];
    assert ToItself(map[1 := perms]) == map[1 := Grant(1, perms)];
  }

  /** What the hardware makes of the one page. */
  function LowAccess(arch: Arch, ctl: Controls, perms: MapPermissions): Access {
    match arch
    case X86_64 =>
      if !ctl.nxe && !perms.executable then Fault
      else Access(LOW_PAGE, true, perms.writable || !ctl.wp, perms.executable, false, perms.deviceUncached)
    case AArch64 => Access(LOW_PAGE, true, true, perms.executable && !ctl.wxn, false, perms.deviceUncached)
    case Sv39 => Access(LOW_PAGE, true, perms.writable, perms.executable, false, false)
  }

  lemma LowFrame(arch: Arch)
    ensures FrameSeen(arch, 1) == 1
  {
  }

  lemma LowAccessIs(arch: Arch, ctl: Controls, perms: MapPermissions)
    requires ctl.physLimit > LOW_PAGE
    ensures Granted(arch, ctl, Grant(1, perms), 0) == LowAccess(arch, ctl, perms)
  {
    LowFrame(arch);
  }

  /** What the hardware finds at the one page. */
  lemma OnePageAccess(
    arch: Arch, ctl: Controls, mem: Memory, addr: seq<nat>, s: Tables, perms: MapPermissions)
    requires ctl.physLimit > LOW_PAGE && Machine(arch, ctl, mem, addr, s, OnePage(perms))
    ensures HwWalk(arch, ctl, mem, addr[0], LOW_PAGE) == LowAccess(arch, ctl, perms)
  {
    OnePageIsGranted(FormatOf(arch), perms);
    HardwareAfterRun(arch, ctl, mem, addr, s, OnePage(perms), LOW_PAGE);
    assert LOW_PAGE / 4096 == 1 && LOW_PAGE % 4096 == 0;
    LowAccessIs(arch, ctl, perms);
  }

  /** Which of the four presets are honoured, by architecture and control bits. */
  lemma PresetsHonoured(
    arch: Arch, ctl: Controls, mem: Memory, addr: seq<nat>, s: Tables, perms: MapPermissions)
    requires perms in {KERNEL_CODE, KERNEL_DATA, KERNEL_RODATA, DEVICE_MMIO}
    requires ctl.physLimit > LOW_PAGE && Machine(arch, ctl, mem, addr, s, OnePage(perms))
    ensures Honours(HwWalk(arch, ctl, mem, addr[0], LOW_PAGE), perms) <==>
      match arch
      case X86_64 =>
        (ctl.nxe || perms == KERNEL_CODE) && (ctl.wp || perms == KERNEL_DATA || perms == DEVICE_MMIO)
      case AArch64 => perms == KERNEL_DATA || perms == DEVICE_MMIO
      case Sv39 => perms != DEVICE_MMIO
  {
    OnePageAccess(arch, ctl, mem, addr, s, perms);
  }

  /** Read-only data is writable on AArch64. On x86_64 it faults where no-execute is
      not enabled, and is writable where writes are not protected. */
  lemma ReadOnlyDataLost(arch: Arch, ctl: Controls, mem: Memory, addr: seq<nat>, s: Tables)
    requires arch != Sv39 && ctl.physLimit > LOW_PAGE
    requires Machine(arch, ctl, mem, addr, s, OnePage(KERNEL_RODATA))
    ensures var a := HwWalk(arch, ctl, mem, addr[0], LOW_PAGE);
      if arch == X86_64 && !ctl.nxe then a.Fault?
      else a.Access? && a.writable == (arch == AArch64 || !ctl.wp)
  {
    OnePageAccess(arch, ctl, mem, addr, s, KERNEL_RODATA);
  }

  /** A page that must not be read can be read, on every architecture that reaches it. */
  lemma UnreadableIsRead(arch: Arch, ctl: Controls, mem: Memory, addr: seq<nat>, s: Tables)
    requires ctl.physLimit > LOW_PAGE && ctl.nxe
    requires Machine(arch, ctl, mem, addr, s, OnePage(MapPermissions(false, true, false, false)))
    ensures var a := HwWalk(arch, ctl, mem, addr[0], LOW_PAGE);
      a.Access? && a.readable && !Honours(a, MapPermissions(false, true, false, false))
  {
    OnePageAccess(arch, ctl, mem, addr, s, MapPermissions(false, true, false, false));
  }

  /** Device memory is not uncached on Sv39. */
  lemma UncachedLost(ctl: Controls, mem: Memory, addr: seq<nat>, s: Tables)
    requires ctl.physLimit > LOW_PAGE && Machine(Sv39, ctl, mem, addr, s, OnePage(DEVICE_MMIO))
    ensures var a := HwWalk(Sv39, ctl, mem, addr[0], LOW_PAGE); a.Access? && !a.uncached
  {
    OnePageAccess(Sv39, ctl, mem, addr, s, DEVICE_MMIO);
  }

  /** The translation control register that the AArch64 code programs. */
  const TCR_EL1: nat := 0x10 + 0x100 + 0x400 + 0x3000

  /** The bound on output addresses that its IPS field, bits 32 to 34, stands for. */
  function OutputLimit(tcr: nat): nat {
    match tcr / 0x1_0000_0000 % 8
    case 0 => 0x1_0000_0000
    case 1 => 0x10_0000_0000
    case 2 => 0x100_0000_0000
    case 3 => 0x400_0000_0000
    case 4 => 0x1000_0000_0000
    case _ => 0x1_0000_0000_0000
  }

  lemma ProgrammedLimit()
    ensures OutputLimit(TCR_EL1) == 0x1_0000_0000
  {
    assert TCR_EL1 / 0x1_0000_0000 == 0;
  }

  /** With the limit that it programs, AArch64 reaches exactly the mapped pages whose
      frame is below 4 GiB: any other is mapped with success and faults. */
  lemma FourGibibytes(ctl: Controls, mem: Memory, addr: seq<nat>, s: Tables, rs: seq<Region>, va: nat)
    requires Machine(AArch64, ctl, mem, addr, s, rs) && va < CanonicalLimit(AArch64)
    requires ctl.physLimit == OutputLimit(TCR_EL1)
    ensures var grants := Grants(FormatOf(AArch64), EMPTY, rs);
      HwWalk(AArch64, ctl, mem, addr[0], va).Access?
      <==> va / 4096 in grants && FrameSeen(AArch64, grants[va / 4096].page) < 0x10_0000
  {
    ProgrammedLimit();
    HardwareAfterRun(AArch64, ctl, mem, addr, s, rs, va);
  }

  /** The page at 4 GiB. */
  const HIGH_PAGE: Region := Region(0x1_0000_0000, 4096, KERNEL_DATA)

  lemma HighPageSucceeds(f: Format)
    requires f.levels == 4
    ensures Fits(4, HIGH_PAGE) && MapRegions(f, EMPTY, [HIGH_PAGE]).1
  {
    assert FirstPage(0x1_0000_0000) == 0x10_0000 && EndPage(0x1_0000_0000, 4096) == 0x10_0001;
    assert TableBill(4, 0x1_0000_0000, 0x1_0000_1000) == 3;
    FreshRegionSucceeds(f, HIGH_PAGE);
    OneRegion(f, EMPTY, HIGH_PAGE);
  }

  lemma HighPageIsGranted(f: Format)
    requires f.levels == 4
    ensures Grants(f, EMPTY, [HIGH_PAGE]) == map[0x10_0000 := Grant(0x10_0000, KERNEL_DATA)]
  {
    HighPageSucceeds(f);
    GrantsOfSuccess(f, EMPTY, [HIGH_PAGE]);
    OneRegion(f, EMPTY, HIGH_PAGE);
    assert FirstPage(0x1_0000_0000) == 0x10_0000 && EndPage(0x1_0000_0000, 4096) == 0x10_0001;
    assert RegionPages(HIGH_PAGE) == map[0x10_0000 := KERNEL_DATA];
  }

  /** For instance the page at 4 GiB: the call succeeds, and the page faults. */
  lemma HighPageFaults(ctl: Controls, mem: Memory, addr: seq<nat>, s: Tables)
    requires Machine(AArch64, ctl, mem, addr, s, [HIGH_PAGE]) && ctl.physLimit == OutputLimit(TCR_EL1)
    ensures MapRegions(FormatOf(AArch64), EMPTY, [HIGH_PAGE]).1
    ensures HwWalk(AArch64, ctl, mem, addr[0], 0x1_0000_0000).Fault?
  {
    HighPageSucceeds(FormatOf(AArch64));
    FourGibibytes(ctl, mem, addr, s, [HIGH_PAGE], 0x1_0000_0000);
    HighPageIsGranted(FormatOf(AArch64));
  }

  // ---------------------------------------------------------------------
  // A region past the index span
  // ---------------------------------------------------------------------

  function PastSpan(levels: nat): Region {
    Region(PageSpan(levels) * 4096, 4096, KERNEL_DATA)
  }

  lemma PastSpanIsGranted(f: Format)
    requires 3 <= f.levels <= 4
    ensures var span := PageSpan(f.levels);
      Grants(f, EMPTY, [PastSpan(f.levels)]) == map[0 := Grant(span, KERNEL_DATA)]
  {
    var span, r := PageSpan(f.levels), PastSpan(f.levels);
    PageZeroIsTaken(f, KERNEL_DATA);
    assert FirstPage(r.base) == span && EndPage(r.base, 4096) == span + 1;
    StopPageIsEnd(f, EMPTY, span, span + 1, KERNEL_DATA);
    assert MappedUpTo(f, EMPTY, r) == span + 1;
    assert PageGrants(f.levels, span, span, KERNEL_DATA) == map[];
    assert Wrap(f.levels, span) == 0;
    assert PageGrants(f.levels, span, span + 1, KERNEL_DATA) == map[0 := Grant(span, KERNEL_DATA)];
    assert [r][1..] == [];
  }

  /** On Sv39, mapping the first page past the span succeeds, and the walk of address
      0 ends at 2^39. */
  lemma AddressZeroEndsElsewhere(ctl: Controls, mem: Memory, addr: seq<nat>, s: Tables)
    requires Machine(Sv39, ctl, mem, addr, s, [PastSpan(3)])
    ensures FrameOf(HwWalk(Sv39, ctl, mem, addr[0], 0)) == Some(0x80_0000_0000)
  {
    PastSpanIsGranted(FormatOf(Sv39));
    HardwareAfterRun(Sv39, ctl, mem, addr, s, [PastSpan(3)], 0);
  }
}
