/** The PCI bus scan for compute devices. */
module PciScan {
  import opened Bits
  import opened Hal
  import opened PciAddress
  import opened PciConfig

  const MAX_COMPUTE_DEVICES: nat := 32
  const CLASS_DISPLAY_CONTROLLER: nat := 0x03
  const CLASS_PROCESSING_ACCELERATOR: nat := 0x12
  const VENDOR_GOOGLE: nat := 0x1AE0

  datatype Kind = Cpu | Gpu | Npu | Tpu | Fpga

  datatype ComputeDevice = ComputeDevice(
    kind: Kind, vendor: nat, hasDedicatedMemory: bool, dedicatedMemoryBytes: nat, unifiedMemoryCapable: bool,
      deviceIndex: nat)

  const ZERO: ComputeDevice := ComputeDevice(Cpu, 0, false, 0, false, 0)

  datatype Header = Header(vendorId: nat, deviceId: nat, classCode: nat, subclass: nat, headerType: nat)

  /** The fields of a header in the dwords at offsets 0, 8 and 12. */
  function HeaderOf(dword0: nat, dword2: nat, dword3: nat): Header {
    Header(dword0 % 0x1_0000, dword0 / 0x1_0000, dword2 / 0x100_0000 % 0x100, dword2 / 0x1_0000 % 0x100,
      dword3 / 0x1_0000 % 0x100)
  }

  function HeaderIn(space: Space, slot: Slot): Option<Header> {
    if ReadIn(space, slot, 0) % 0x1_0000 == 0xFFFF then None
    else Some(HeaderOf(ReadIn(space, slot, 0), ReadIn(space, slot, 8), ReadIn(space, slot, 0xC)))
  }

  function Classify(h: Header): Option<Kind> {
    if h.classCode == CLASS_DISPLAY_CONTROLLER then Some(Gpu)
    else if h.classCode == CLASS_PROCESSING_ACCELERATOR then Some(Npu)
    else if h.vendorId == VENDOR_GOOGLE then Some(Tpu)
    else None
  }

  predicate Multifunction(h: Header) {
    h.headerType / 0x80 % 2 == 1
  }

  // ---------------------------------------------------------------------
  // What a scan should find
  // ---------------------------------------------------------------------

  const ALL_FUNCTIONS: nat := 65536

  /** All functions, in (bus, device, function) order. */
  function SlotOf(n: nat): (s: Slot)
    ensures n < ALL_FUNCTIONS ==> s.Ok()
  {
    Slot(n / 256, n / 8 % 32, n % 8)
  }

  lemma SlotNumber(s: Slot)
    requires s.Ok()
    ensures SlotOf(s.bus * 256 + s.device * 8 + s.func) == s
  {
    var n := s.bus * 256 + s.device * 8 + s.func;
    QuotientIs(n, 256, s.bus, s.device * 8 + s.func);
    QuotientIs(n, 8, s.bus * 32 + s.device, s.func);
    QuotientIs(s.bus * 32 + s.device, 32, s.bus, s.device);
  }

  /** Function 0 is there, and unless this is it, says that there are others. */
  predicate MayVisit(space: Space, s: Slot) {
    var h0 := HeaderIn(space, Slot(s.bus, s.device, 0));
    h0.Some? && (s.func == 0 || Multifunction(h0.value))
  }

  /** A compute device: one that may be visited, is there, and has the class or
      the vendor of one. */
  predicate IsCompute(space: Space, s: Slot) {
    var h := HeaderIn(space, s);
    MayVisit(space, s) && h.Some? && Classify(h.value).Some?
  }

  predicate Eligible(space: Space, n: nat) {
    IsCompute(space, SlotOf(n))
  }

  /** The compute devices among the first `n` functions, in order. */
  function Eligibles(space: Space, n: nat): (e: seq<nat>)
    decreases n
  {
    if n == 0 then [] else Eligibles(space, n - 1) + if Eligible(space, n - 1) then [n - 1] else []
  }

  lemma {:induction false} EligiblesAreAll(space: Space, n: nat, k: nat)
    ensures k in Eligibles(space, n) <==> k < n && Eligible(space, k)
    decreases n
  {
    if n > 0 {
      EligiblesAreAll(space, n - 1, k);
    }
  }

  lemma {:induction false} EligiblesAscend(space: Space, n: nat, i: nat, j: nat)
    requires i < j < |Eligibles(space, n)|
    ensures Eligibles(space, n)[i] < Eligibles(space, n)[j]
    decreases n
  {
    if j < |Eligibles(space, n - 1)| {
      EligiblesAscend(space, n - 1, i, j);
    } else {
      EligiblesAreAll(space, n - 1, Eligibles(space, n)[i]);
    }
  }

  lemma {:induction false} EligiblesGrow(space: Space, m: nat, n: nat)
    requires m <= n
    ensures Eligibles(space, m) <= Eligibles(space, n)
    decreases n
  {
    if m < n {
      EligiblesGrow(space, m, n - 1);
    }
  }

  lemma {:induction false} NothingBetween(space: Space, m: nat, n: nat)
    requires m <= n && forall k :: m <= k < n ==> !Eligible(space, k)
    ensures Eligibles(space, n) == Eligibles(space, m)
    decreases n
  {
    if m < n {
      NothingBetween(space, m, n - 1);
    }
  }

  /** What is recorded for a compute device. */
  function Describe(kind: Kind, vendor: nat, memory: Option<nat>): ComputeDevice {
    ComputeDevice(kind, vendor, memory.Some?, if memory.Some? then memory.value else 0, false, 0)
  }

  function DeviceAt(space: Space, s: Slot): (d: ComputeDevice)
    requires SpaceOk(space)
    ensures d.deviceIndex == 0
  {
    var h := HeaderIn(space, s);
    if h.None? || Classify(h.value).None? then ZERO
    else Describe(Classify(h.value).value, h.value.vendorId, BarSize(space, s, BAR_0))
  }

  /** The two kinds of bus device told by their class, the top byte of the dword at 8:
      display controllers are GPUs, processing accelerators NPUs. */
  predicate HasClass(space: Space, s: Slot) {
    var class_ := ReadIn(space, s, 8) / 0x100_0000 % 0x100;
    class_ == 0x03 || class_ == 0x12
  }

  /** What makes a function a compute device, in the words of its header: it answers,
      function 0 answers and, unless this is it, has bit 23 of the dword at 0xC set,
      and it has the class or the vendor of one. */
  lemma WhatIsCompute(space: Space, s: Slot)
    ensures IsCompute(space, s) <==>
      var first := Slot(s.bus, s.device, 0);
      && ReadIn(space, first, 0) % 0x1_0000 != 0xFFFF && ReadIn(space, s, 0) % 0x1_0000 != 0xFFFF
      && (s.func == 0 || ReadIn(space, first, 0xC) / 0x80_0000 % 2 == 1)
      && (HasClass(space, s) || ReadIn(space, s, 0) % 0x1_0000 == 0x1AE0)
  {
    var x := ReadIn(space, Slot(s.bus, s.device, 0), 0xC);
    assert x / 0x1_0000 % 0x100 / 0x80 % 2 == x / 0x80_0000 % 2;
  }

  /** What is recorded of it: the kind by class or else as the vendor's, the vendor,
      and the size that its first base address register is probed to have. */
  lemma WhatIsRecorded(space: Space, s: Slot)
    requires SpaceOk(space) && IsCompute(space, s)
    ensures var d, class_ := DeviceAt(space, s), ReadIn(space, s, 8) / 0x100_0000 % 0x100;
      && d.kind == (if class_ == 0x03 then Gpu else if class_ == 0x12 then Npu else Tpu)
      && d.vendor == ReadIn(space, s, 0) % 0x1_0000
      && (d.hasDedicatedMemory <==> BarSize(space, s, 0x10).Some?)
      && d.dedicatedMemoryBytes == (if d.hasDedicatedMemory then BarSize(space, s, 0x10).value else 0)
      && !d.unifiedMemoryCapable && d.deviceIndex == 0
  {
  }

  /** The table that describes the functions `e`, one by one, and is zero after
      them. */
  function Table(space: Space, e: seq<nat>): (t: seq<ComputeDevice>)
    requires SpaceOk(space) && |e| <= MAX_COMPUTE_DEVICES
    ensures |t| == 32
    ensures forall i :: 0 <= i < |t| ==> t[i] == if i < |e| then DeviceAt(space, SlotOf(e[i])) else ZERO
    ensures forall i :: |e| <= i < 32 ==> t[i] == ComputeDevice(Cpu, 0, false, 0, false, 0)
  {
    seq(MAX_COMPUTE_DEVICES, i requires 0 <= i => if i < |e| then DeviceAt(space, SlotOf(e[i])) else ZERO)
  }

  function FirstFew(e: seq<nat>): (f: seq<nat>)
    ensures f <= e && |f| == if |e| <= 32 then |e| else 32
  {
    if |e| <= MAX_COMPUTE_DEVICES then e else e[..MAX_COMPUTE_DEVICES]
  }

  /** The result of a scan: the first 32 compute devices, in order, and nothing
      after them. */
  ghost predicate IsScanOf(space: Space, devices: seq<ComputeDevice>, count: nat)
    requires SpaceOk(space)
  {
    var e := FirstFew(Eligibles(space, ALL_FUNCTIONS));
    count == |e| && devices == Table(space, e)
  }

  /** The scan has seen the first `n` functions. */
  ghost predicate ScannedTo(space: Space, devices: seq<ComputeDevice>, count: nat, n: nat)
    requires SpaceOk(space)
  {
    var e := Eligibles(space, n);
    count == |e| && count <= MAX_COMPUTE_DEVICES && devices == Table(space, e)
  }

  lemma NothingAt(space: Space, devices: seq<ComputeDevice>, count: nat, m: nat, n: nat)
    requires SpaceOk(space) && ScannedTo(space, devices, count, m)
    requires m <= n && forall k :: m <= k < n ==> !Eligible(space, k)
    ensures ScannedTo(space, devices, count, n)
  {
    NothingBetween(space, m, n);
  }

  lemma OneMore(space: Space, before: seq<ComputeDevice>, after: seq<ComputeDevice>, count: nat, n: nat)
    requires SpaceOk(space) && ScannedTo(space, before, count, n) && count < MAX_COMPUTE_DEVICES
    requires Eligible(space, n) && after == before[count := DeviceAt(space, SlotOf(n))]
    ensures ScannedTo(space, after, count + 1, n + 1)
  {
    assert Eligibles(space, n + 1) == Eligibles(space, n) + [n];
    assert after == Table(space, Eligibles(space, n + 1));
  }

  lemma Complete(space: Space, devices: seq<ComputeDevice>, count: nat)
    requires SpaceOk(space) && ScannedTo(space, devices, count, ALL_FUNCTIONS)
    ensures IsScanOf(space, devices, count)
  {
  }

  /** Stopping at one device too many loses nothing that would be kept. */
  lemma StoppedFull(space: Space, devices: seq<ComputeDevice>, count: nat, n: nat)
    requires SpaceOk(space) && ScannedTo(space, devices, count, n) && n <= ALL_FUNCTIONS && count == MAX_COMPUTE_DEVICES
    ensures IsScanOf(space, devices, count)
  {
    EligiblesGrow(space, n, ALL_FUNCTIONS);
    assert FirstFew(Eligibles(space, ALL_FUNCTIONS)) == Eligibles(space, n);
  }

  /** How many functions of a device are visited. */
  function FunctionCount(space: Space, bus: nat, device: nat): nat {
    var h0 := HeaderIn(space, Slot(bus, device, 0));
    if h0.None? then 0 else if Multifunction(h0.value) then 8 else 1
  }

  lemma VisitsFunction(space: Space, bus: nat, device: nat, func: nat)
    requires func < FunctionCount(space, bus, device)
    ensures MayVisit(space, Slot(bus, device, func)) && func < 8
  {
  }

  lemma NoMoreFunctions(space: Space, bus: nat, device: nat)
    requires bus < 256 && device < 32
    ensures var base := bus * 256 + device * 8;
      forall k :: base + FunctionCount(space, bus, device) <= k < base + 8 ==> !Eligible(space, k)
  {
    var base := bus * 256 + device * 8;
    forall k | base + FunctionCount(space, bus, device) <= k < base + 8
      ensures !Eligible(space, k)
    {
      SlotNumber(Slot(bus, device, k - base));
    }
  }

  lemma DeviceDone(space: Space, devices: seq<ComputeDevice>, count: nat, bus: nat, device: nat, base: nat)
    requires SpaceOk(space) && bus < 256 && device < 32 && base == bus * 256 + device * 8
    requires ScannedTo(space, devices, count, base + FunctionCount(space, bus, device))
    ensures ScannedTo(space, devices, count, base + 8)
  {
    NoMoreFunctions(space, bus, device);
    NothingAt(space, devices, count, base + FunctionCount(space, bus, device), base + 8);
  }

  // ---------------------------------------------------------------------
  // The scan
  // ---------------------------------------------------------------------

  method ReadPciHeader(host: HostBridge, access: Access, slot: Slot) returns (h: Option<Header>)
    requires host.Valid() && slot.Ok()
    modifies host`configAddress
    ensures h == HeaderIn(host.space, slot)
    ensures h.None? <==> ReadIn(host.space, slot, 0) % 0x1_0000 == 0xFFFF
    ensures h.Some? ==>
      && h.value.vendorId == ReadIn(host.space, slot, 0) % 0x1_0000
      && h.value.deviceId == ReadIn(host.space, slot, 0) / 0x1_0000
      && h.value.classCode == ReadIn(host.space, slot, 8) / 0x100_0000 % 0x100
      && h.value.subclass == ReadIn(host.space, slot, 8) / 0x1_0000 % 0x100
      && h.value.headerType == ReadIn(host.space, slot, 0xC) / 0x1_0000 % 0x100
  {
    var dword0 := ReadConfig(host, access, slot, 0x00);
    var vendorId := dword0 % 0x1_0000;
    if vendorId == 0xFFFF {
      return None;
    }
    var dword2 := ReadConfig(host, access, slot, 0x08);
    var dword3 := ReadConfig(host, access, slot, 0x0C);
    return Some(HeaderOf(dword0, dword2, dword3));
  }

  lemma AtFunction(space: Space, s: Slot, n: nat)
    requires s.Ok() && n == s.bus * 256 + s.device * 8 + s.func
    requires MayVisit(space, s)
    ensures SlotOf(n) == s
    ensures var h := HeaderIn(space, s); Eligible(space, n) <==> h.Some? && Classify(h.value).Some?
  {
    SlotNumber(s);
  }

  /** One function. It is `full` when it is a compute device that finds no room. */
  method ScanFunction(host: HostBridge, access: Access, slot: Slot, devices: array<ComputeDevice>, start: nat,
      ghost n: nat)
    returns (count: nat, full: bool)
    requires host.Valid() && slot.Ok() && devices.Length == MAX_COMPUTE_DEVICES
    requires n == slot.bus * 256 + slot.device * 8 + slot.func
    requires MayVisit(host.space, slot)
    requires ScannedTo(host.space, devices[..], start, n)
    modifies host, devices
    ensures host.Valid() && host.space == old(host.space)
    ensures !full ==> ScannedTo(host.space, devices[..], count, n + 1)
    ensures full ==> IsScanOf(host.space, devices[..], count)
  {
    ghost var space := host.space;
    AtFunction(space, slot, n);
    count, full := start, false;
    var header := ReadPciHeader(host, access, slot);
    if header.None? || Classify(header.value).None? {
      NothingAt(space, devices[..], count, n, n + 1);
      return;
    }
    var kind := Classify(header.value).value;
    if count >= MAX_COMPUTE_DEVICES {
      StoppedFull(space, devices[..], count, n);
      full := true;
      return;
    }
    var memory := ProbeBarSize(host, access, slot, 0);
    ghost var before := devices[..];
    devices[count] := Describe(kind, header.value.vendorId, memory);
    OneMore(space, before, devices[..], count, n);
    count := count + 1;
  }

  /** The functions of one device. */
  method ScanFunctions(host: HostBridge, access: Access, bus: nat, device: nat, functionCount: nat,
      devices: array<ComputeDevice>, start: nat, ghost base: nat)
    returns (count: nat, full: bool)
    requires host.Valid() && bus < 256 && device < 32 && devices.Length == MAX_COMPUTE_DEVICES
    requires 0 < functionCount == FunctionCount(host.space, bus, device) && base == bus * 256 + device * 8
    requires ScannedTo(host.space, devices[..], start, base)
    modifies host, devices
    ensures host.Valid() && host.space == old(host.space)
    ensures !full ==> ScannedTo(host.space, devices[..], count, base + 8)
    ensures full ==> IsScanOf(host.space, devices[..], count)
  {
    ghost var space := host.space;
    count, full := start, false;
    for func := 0 to functionCount
      invariant host.Valid() && host.space == space
      invariant ScannedTo(space, devices[..], count, base + func)
    {
      VisitsFunction(space, bus, device, func);
      count, full := ScanFunction(host, access, Slot(bus, device, func), devices, count, base + func);
      if full {
        return;
      }
    }
    DeviceDone(space, devices[..], count, bus, device, base);
  }

  /** The devices found so far, in a table of fixed size. */
  class ComputeDiscovery {
    const host: HostBridge
    const access: Access
    var devices: array<ComputeDevice>
    var deviceCount: nat

    ghost predicate Valid()
      reads this, host, devices
    {
      host.Valid() && devices.Length == MAX_COMPUTE_DEVICES && deviceCount <= MAX_COMPUTE_DEVICES
    }

    /** The table is what a scan of the configuration space would find. */
    ghost predicate UpToDate()
      requires Valid()
      reads this, host, devices
    {
      IsScanOf(host.space, devices[..], deviceCount)
    }

    constructor (host: HostBridge, access: Access)
      requires host.Valid()
      modifies host
      ensures Valid() && this.host == host && this.access == access && fresh(devices)
      ensures host.space == old(host.space) && UpToDate()
    {
      this.host := host;
      this.access := access;
      devices := new ComputeDevice[MAX_COMPUTE_DEVICES](_ => ZERO);
      deviceCount := 0;
      new;
      devices, deviceCount := BusScan(host, access);
    }

    /** The devices found. */
    function EnumerateComputeDevices(): seq<ComputeDevice>
      requires Valid()
      reads this, host, devices
    {
      devices[..deviceCount]
    }

    /** Scans again: the table matches the configuration space of now, whatever the
        filter. The error for too many devices cannot occur. */
    method Rescan(kindFilter: Option<Kind>) returns (r: Result<()>)
      requires Valid()
      modifies this, host
      ensures Valid() && r == Ok(()) && UpToDate() && host.space == old(host.space)
    {
      var fresh_, freshCount := BusScan(host, access);
      if freshCount > MAX_COMPUTE_DEVICES {
        return Err(TooManyComputeDevices);
      }
      devices, deviceCount := fresh_, freshCount;
      return Ok(());
    }

    /** Since no device gets an index of its own, only index 0 finds anything, and
        it finds the first device. */
    method DeviceByIndex(index: nat) returns (d: Option<ComputeDevice>)
      requires Valid() && UpToDate()
      ensures d == if index == 0 && deviceCount > 0 then Some(devices[0]) else None
    {
      for i := 0 to deviceCount
        invariant i == 0 || index != 0
      {
        if devices[i].deviceIndex == index {
          return Some(devices[i]);
        }
      }
      return None;
    }
  }

  /** One device: its first function, and the others if that says so. */
  method ScanDevice(host: HostBridge, access: Access, bus: nat, device: nat, devices: array<ComputeDevice>,
      start: nat, ghost base: nat) returns (count: nat, full: bool)
    requires host.Valid() && bus < 256 && device < 32 && devices.Length == MAX_COMPUTE_DEVICES
    requires base == bus * 256 + device * 8 && ScannedTo(host.space, devices[..], start, base)
    modifies host, devices
    ensures host.Valid() && host.space == old(host.space)
    ensures !full ==> ScannedTo(host.space, devices[..], count, base + 8)
    ensures full ==> IsScanOf(host.space, devices[..], count)
  {
    var header0 := ReadPciHeader(host, access, Slot(bus, device, 0));
    if header0.None? {
      DeviceDone(host.space, devices[..], start, bus, device, base);
      return start, false;
    }
    var functionCount := if Multifunction(header0.value) then 8 else 1;
    count, full := ScanFunctions(host, access, bus, device, functionCount, devices, start, base);
  }

  /** Buses, devices and functions in order, stopping at the first compute device
      that finds no room. */
  method BusScan(host: HostBridge, access: Access) returns (devices: array<ComputeDevice>, count: nat)
    requires host.Valid()
    modifies host
    ensures host.Valid() && host.space == old(host.space) && fresh(devices)
    ensures IsScanOf(host.space, devices[..], count)
  {
    ghost var space := host.space;
    devices := new ComputeDevice[MAX_COMPUTE_DEVICES](_ => ZERO);
    count := 0;
    for bus := 0 to 256
      invariant host.Valid() && host.space == space && fresh(devices)
      invariant ScannedTo(space, devices[..], count, bus * 256)
    {
      for device := 0 to 32
        invariant host.Valid() && host.space == space && fresh(devices)
        invariant ScannedTo(space, devices[..], count, bus * 256 + device * 8)
      {
        var full: bool;
        count, full := ScanDevice(host, access, bus, device, devices, count, bus * 256 + device * 8);
        if full {
          return;
        }
      }
    }
    Complete(space, devices[..], count);
  }
}
