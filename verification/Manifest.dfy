/** The hardware manifest: filled at boot in tables of fixed size, converted once to
    sequences. */
module Manifest {
  import opened Words
  import opened Hal
  import opened UefiMap
  import Acpi
  import Bytes
  import Madt
  import PciConfig
  import PciScan

  const MAX_COMPUTE_DEVICES: nat := PciScan.MAX_COMPUTE_DEVICES
  const MAX_POWER_DOMAINS: nat := 16
  const NO_ASSOCIATED_DEVICE: nat := 0xFFFF_FFFF
  const IOMMU_CAPABLE: nat := 8

  type RawDevice = PciScan.ComputeDevice

  datatype InterruptKind = ApicXapic | ApicX2apic | Gicv3 | Gicv4 | PlicClic

  datatype RawInterrupt = RawInterrupt(
    kind: InterruptKind, primaryBase: nat, hasSecondary: bool, secondaryBase: nat, irqLineCount: nat,
    ipiTargetCoreCount: nat)

  datatype TimerKind = Tsc | Hpet | ArmGenericTimer | RiscvSbiTimer

  datatype TimerInfo = TimerInfo(kind: TimerKind, frequencyHz: nat, supportsTickless: bool)

  datatype RawDomain = RawDomain(
    domainId: nat, associatedComputeDeviceIndex: nat, supportsDvfs: bool, hasThermalSensor: bool)

  const ZERO_DOMAIN: RawDomain := RawDomain(0, NO_ASSOCIATED_DEVICE, false, false)

  /** The processor: its cores, and its features by bit number. */
  class Cpu {
    const coreCount: nat
    var featureFlags: set<nat>

    constructor (coreCount: nat, featureFlags: set<nat>)
      ensures this.coreCount == coreCount && this.featureFlags == featureFlags
    {
      this.coreCount, this.featureFlags := coreCount, featureFlags;
    }

    method MarkIommuCapable(present: bool)
      modifies this
      ensures 8 in featureFlags <==> present
      ensures featureFlags - {8} == old(featureFlags) - {8}
    {
      featureFlags := if present then featureFlags + {IOMMU_CAPABLE} else featureFlags - {IOMMU_CAPABLE};
    }
  }

  class HardwareManifestRaw {
    var cpuCoreCount: nat
    var cpuFeatureFlags: set<nat>
    const memoryRegions: array<Region>
    const computeDevices: array<RawDevice>
    const powerDomains: array<RawDomain>
    var memoryRegionCount: nat
    var computeDeviceCount: nat
    var powerDomainCount: nat
    var interruptController: RawInterrupt
    var timer: TimerInfo

    /** Every device in the table carries its own position. */
    ghost predicate Valid()
      reads this, memoryRegions, computeDevices, powerDomains
    {
      && memoryRegions.Length == MAX_MEMORY_REGIONS && memoryRegionCount <= MAX_MEMORY_REGIONS
      && computeDevices.Length == MAX_COMPUTE_DEVICES && computeDeviceCount <= MAX_COMPUTE_DEVICES
      && powerDomains.Length == MAX_POWER_DOMAINS && powerDomainCount <= MAX_POWER_DOMAINS
      && forall i :: 0 <= i < computeDeviceCount ==> computeDevices[i].deviceIndex == i
    }

    function MemoryRegions(): seq<Region>
      requires Valid()
      reads this, memoryRegions, computeDevices, powerDomains
    {
      memoryRegions[..memoryRegionCount]
    }

    function ComputeDevices(): seq<RawDevice>
      requires Valid()
      reads this, memoryRegions, computeDevices, powerDomains
    {
      computeDevices[..computeDeviceCount]
    }

    function PowerDomains(): seq<RawDomain>
      requires Valid()
      reads this, memoryRegions, computeDevices, powerDomains
    {
      powerDomains[..powerDomainCount]
    }

    constructor Zeroed()
      ensures Valid() && MemoryRegions() == [] && ComputeDevices() == [] && PowerDomains() == []
      ensures fresh(memoryRegions) && fresh(computeDevices) && fresh(powerDomains)
    {
      memoryRegions := new Region[MAX_MEMORY_REGIONS](_ => ZERO_REGION);
      computeDevices := new RawDevice[MAX_COMPUTE_DEVICES](_ => PciScan.ZERO);
      powerDomains := new RawDomain[MAX_POWER_DOMAINS](_ => ZERO_DOMAIN);
      memoryRegionCount, computeDeviceCount, powerDomainCount := 0, 0, 0;
      cpuCoreCount, cpuFeatureFlags := 0, {};
      interruptController := RawInterrupt(ApicXapic, 0, false, 0, 0, 0);
      timer := TimerInfo(Tsc, 0, false);
    }

    /** Appends, or leaves everything alone when the table is full. */
    method PushMemoryRegion(region: Region) returns (ok: bool)
      requires Valid()
      modifies this`memoryRegionCount, memoryRegions
      ensures Valid() && ok == (old(memoryRegionCount) < 64)
      ensures MemoryRegions() == if ok then old(MemoryRegions()) + [region] else old(MemoryRegions())
    {
      var idx := memoryRegionCount;
      if idx >= MAX_MEMORY_REGIONS {
        return false;
      }
      memoryRegions[idx] := region;
      memoryRegionCount := memoryRegionCount + 1;
      return true;
    }

    method PushComputeDevice(device: RawDevice) returns (ok: bool)
      requires Valid()
      modifies this`computeDeviceCount, computeDevices
      ensures Valid() && ok == (old(computeDeviceCount) < 32)
      ensures ComputeDevices() == old(ComputeDevices())
        + if ok then [device.(deviceIndex := old(computeDeviceCount))] else []
    {
      var idx := computeDeviceCount;
      if idx >= MAX_COMPUTE_DEVICES {
        return false;
      }
      computeDevices[idx] := device.(deviceIndex := idx);
      computeDeviceCount := computeDeviceCount + 1;
      return true;
    }

    method PushPowerDomain(domain: RawDomain) returns (ok: bool)
      requires Valid()
      modifies this`powerDomainCount, powerDomains
      ensures Valid() && ok == (old(powerDomainCount) < 16)
      ensures PowerDomains() == if ok then old(PowerDomains()) + [domain] else old(PowerDomains())
    {
      var idx := powerDomainCount;
      if idx >= MAX_POWER_DOMAINS {
        return false;
      }
      powerDomains[idx] := domain;
      powerDomainCount := powerDomainCount + 1;
      return true;
    }
  }

  /** The devices, each with its position as its index. */
  function Indexed(ds: seq<RawDevice>): (r: seq<RawDevice>)
    ensures |r| == |ds|
    ensures forall i :: 0 <= i < |ds| ==> r[i] == ds[i].(deviceIndex := i)
  {
    seq(|ds|, i requires 0 <= i < |ds| => ds[i].(deviceIndex := i))
  }

  method PushRegions(m: HardwareManifestRaw, regions: seq<Region>)
    requires m.Valid() && m.MemoryRegions() == [] && |regions| <= MAX_MEMORY_REGIONS
    modifies m`memoryRegionCount, m.memoryRegions
    ensures m.Valid() && m.MemoryRegions() == regions
  {
    for i := 0 to |regions|
      invariant m.Valid() && m.MemoryRegions() == regions[..i]
    {
      var ok := m.PushMemoryRegion(regions[i]);
    }
  }

  method PushDevices(m: HardwareManifestRaw, devices: seq<RawDevice>)
    requires m.Valid() && m.ComputeDevices() == [] && |devices| <= MAX_COMPUTE_DEVICES
    modifies m`computeDeviceCount, m.computeDevices
    ensures m.Valid() && m.ComputeDevices() == Indexed(devices)
  {
    for i := 0 to |devices|
      invariant m.Valid() && m.ComputeDevices() == Indexed(devices[..i])
    {
      var ok := m.PushComputeDevice(devices[i]);
      assert Indexed(devices[..i + 1]) == Indexed(devices[..i]) + [devices[i].(deviceIndex := i)];
    }
    assert devices[..|devices|] == devices;
  }

  /** What there is no room for is dropped. */
  method PushDomains(m: HardwareManifestRaw, domains: seq<RawDomain>)
    requires m.Valid() && m.PowerDomains() == []
    modifies m`powerDomainCount, m.powerDomains
    ensures m.Valid()
    ensures m.PowerDomains() == if |domains| <= MAX_POWER_DOMAINS then domains else domains[..MAX_POWER_DOMAINS]
  {
    for i := 0 to |domains|
      invariant m.Valid()
      invariant m.PowerDomains() == if i <= MAX_POWER_DOMAINS then domains[..i] else domains[..MAX_POWER_DOMAINS]
    {
      var ok := m.PushPowerDomain(domains[i]);
    }
  }

  method FillTables(
      m: HardwareManifestRaw, regions: seq<Region>, devices: seq<RawDevice>, domains: seq<RawDomain>)
    requires m.Valid() && m.MemoryRegions() == [] && m.ComputeDevices() == [] && m.PowerDomains() == []
    requires |regions| <= MAX_MEMORY_REGIONS && |devices| <= MAX_COMPUTE_DEVICES
    modifies m`memoryRegionCount, m`computeDeviceCount, m`powerDomainCount
    modifies m.memoryRegions, m.computeDevices, m.powerDomains
    ensures m.Valid() && m.MemoryRegions() == regions && m.ComputeDevices() == Indexed(devices)
    ensures m.PowerDomains() == if |domains| <= MAX_POWER_DOMAINS then domains else domains[..MAX_POWER_DOMAINS]
  {
    PushRegions(m, regions);
    PushDevices(m, devices);
    PushDomains(m, domains);
  }

  /** The manifest holds what every subsystem has found: the regions, devices and
      domains in order, and the IOMMU among the features exactly if there is one. */
  method BuiltHardwareManifest(
      memory: Memory, compute: PciScan.ComputeDiscovery, domains: seq<RawDomain>, cpu: Cpu,
      interrupt: RawInterrupt, timer: TimerInfo) returns (m: HardwareManifestRaw)
    requires memory.Valid() && compute.Valid()
    modifies cpu
    ensures fresh(m) && m.Valid()
    ensures m.MemoryRegions() == memory.PhysicalMemoryMap()
    ensures m.ComputeDevices() == Indexed(compute.EnumerateComputeDevices())
    ensures m.PowerDomains() == if |domains| <= 16 then domains else domains[..16]
    ensures m.interruptController == interrupt && m.timer == timer && m.cpuCoreCount == cpu.coreCount
    ensures 8 in m.cpuFeatureFlags <==> memory.iommuPresent
    ensures m.cpuFeatureFlags - {8} == old(cpu.featureFlags) - {8}
  {
    var regions, devices := memory.PhysicalMemoryMap(), compute.EnumerateComputeDevices();
    m := new HardwareManifestRaw.Zeroed();
    m.cpuCoreCount := cpu.coreCount;
    FillTables(m, regions, devices, domains);
    m.interruptController := interrupt;
    m.timer := timer;
    cpu.MarkIommuCapable(memory.iommuPresent);
    m.cpuFeatureFlags := cpu.featureFlags;
  }

  // ---------------------------------------------------------------------
  // The converted manifest
  // ---------------------------------------------------------------------

  datatype Device = Device(
    kind: PciScan.Kind, vendor: nat, dedicatedMemoryBytes: Option<nat>, unifiedMemoryCapable: bool, deviceIndex: nat)

  datatype Interrupt = Interrupt(
    kind: InterruptKind, primaryBase: nat, secondaryBase: Option<nat>, irqLineCount: nat, ipiTargetCoreCount: nat)

  datatype PowerDomain = PowerDomain(
    domainId: nat, associatedComputeDeviceIndex: Option<nat>, supportsDvfs: bool, hasThermalSensor: bool)

  datatype HardwareManifest = HardwareManifest(
    coreCount: nat, featureFlags: set<nat>, memoryRegions: seq<Region>, computeDevices: seq<Device>,
    interruptController: Interrupt, timer: TimerInfo, powerDomains: seq<PowerDomain>)

  function DeviceFromRaw(raw: RawDevice): Device {
    Device(raw.kind, raw.vendor, if raw.hasDedicatedMemory then Some(raw.dedicatedMemoryBytes) else None,
           raw.unifiedMemoryCapable, raw.deviceIndex)
  }

  function InterruptFromRaw(raw: RawInterrupt): Interrupt {
    Interrupt(raw.kind, raw.primaryBase, if raw.hasSecondary then Some(raw.secondaryBase) else None,
              raw.irqLineCount, raw.ipiTargetCoreCount)
  }

  function DomainFromRaw(raw: RawDomain): PowerDomain {
    var i := raw.associatedComputeDeviceIndex;
    PowerDomain(raw.domainId, if i == NO_ASSOCIATED_DEVICE then None else Some(i), raw.supportsDvfs,
                raw.hasThermalSensor)
  }

  /** The device with all fields of the raw one. */
  predicate SameDevice(d: Device, raw: RawDevice, i: nat) {
    && d.kind == raw.kind && d.vendor == raw.vendor && d.unifiedMemoryCapable == raw.unifiedMemoryCapable
    && d.dedicatedMemoryBytes == (if raw.hasDedicatedMemory then Some(raw.dedicatedMemoryBytes) else None)
    && d.deviceIndex == i
  }

  predicate SameInterrupt(c: Interrupt, raw: RawInterrupt) {
    && c.kind == raw.kind && c.primaryBase == raw.primaryBase
    && c.secondaryBase == (if raw.hasSecondary then Some(raw.secondaryBase) else None)
    && c.irqLineCount == raw.irqLineCount && c.ipiTargetCoreCount == raw.ipiTargetCoreCount
  }

  predicate SameDomain(p: PowerDomain, raw: RawDomain) {
    && p.domainId == raw.domainId && p.supportsDvfs == raw.supportsDvfs && p.hasThermalSensor == raw.hasThermalSensor
    && p.associatedComputeDeviceIndex == (if raw.associatedComputeDeviceIndex == 0xFFFF_FFFF then None
        else Some(raw.associatedComputeDeviceIndex))
  }

  /** Every record is kept, field by field and in order, and device i has index i. */
  method FromRaw(raw: HardwareManifestRaw) returns (m: HardwareManifest)
    requires raw.Valid()
    ensures m.coreCount == raw.cpuCoreCount && m.featureFlags == raw.cpuFeatureFlags
    ensures m.memoryRegions == raw.MemoryRegions()
    ensures |m.computeDevices| == raw.computeDeviceCount
    ensures forall i :: 0 <= i < |m.computeDevices| ==> SameDevice(m.computeDevices[i], raw.ComputeDevices()[i], i)
    ensures SameInterrupt(m.interruptController, raw.interruptController) && m.timer == raw.timer
    ensures |m.powerDomains| == raw.powerDomainCount
    ensures forall i :: 0 <= i < |m.powerDomains| ==> SameDomain(m.powerDomains[i], raw.PowerDomains()[i])
  {
    var raws, domains := raw.ComputeDevices(), raw.PowerDomains();
    m := HardwareManifest(
      raw.cpuCoreCount, raw.cpuFeatureFlags, raw.MemoryRegions(),
      seq(|raws|, i requires 0 <= i < |raws| => DeviceFromRaw(raws[i])),
      InterruptFromRaw(raw.interruptController), raw.timer,
      seq(|domains|, i requires 0 <= i < |domains| => DomainFromRaw(domains[i])));
  }

  /** The bytes of usable memory; additions wrap at 64 bits. */
  function TotalUsable(rs: seq<Region>): (total: nat)
    ensures total < U64_SIZE
    decreases |rs|
  {
    if rs == [] then 0
    else
      var r := rs[|rs| - 1];
      (TotalUsable(rs[..|rs| - 1]) + if r.kind == Usable then r.lengthBytes else 0) % U64_SIZE
  }

  method TotalUsableMemoryBytes(m: HardwareManifest) returns (total: nat)
    ensures total == TotalUsable(m.memoryRegions)
  {
    total := 0;
    for i := 0 to |m.memoryRegions|
      invariant total == TotalUsable(m.memoryRegions[..i])
    {
      assert m.memoryRegions[..i + 1][..i] == m.memoryRegions[..i];
      if m.memoryRegions[i].kind == Usable {
        total := (total + m.memoryRegions[i].lengthBytes) % U64_SIZE;
      }
    }
    assert m.memoryRegions[..|m.memoryRegions|] == m.memoryRegions;
  }

  // ---------------------------------------------------------------------
  // Conservation
  // ---------------------------------------------------------------------

  /** The types whose memory is free once boot services have ended (section 7.2 of
      the UEFI Specification). */
  predicate IsFree(ty: nat) {
    1 <= ty <= 4 || ty == 7
  }

  function FreePages(ds: seq<Descriptor>): nat
    decreases |ds|
  {
    if ds == [] then 0
    else FreePages(ds[..|ds| - 1]) + if IsFree(ds[|ds| - 1].ty) then ds[|ds| - 1].numberOfPages else 0
  }

  lemma WrappedSum(a: nat, b: nat)
    ensures (a % U64_SIZE + b % U64_SIZE) % U64_SIZE == (a + b) % U64_SIZE
  {
    var q := a / U64_SIZE + b / U64_SIZE;
    assert a + b == q * U64_SIZE + (a % U64_SIZE + b % U64_SIZE);
  }

  /** Usable bytes come through the whole way from the descriptors to the manifest,
      up to the wrap at 64 bits. */
  lemma {:induction false} UsableBytes(ds: seq<Descriptor>, iommu: bool)
    ensures TotalUsable(RegionsOf(ds, iommu)) == FreePages(ds) * PAGE_SIZE % U64_SIZE
    decreases |ds|
  {
    if ds != [] {
      var n := |ds| - 1;
      var rs := RegionsOf(ds, iommu);
      UsableBytes(ds[..n], iommu);
      assert rs[..n] == RegionsOf(ds[..n], iommu);
      var bytes := if IsFree(ds[n].ty) then ds[n].numberOfPages * PAGE_SIZE else 0;
      WrappedSum(FreePages(ds[..n]) * PAGE_SIZE, bytes);
    }
  }

  /** So the total is right exactly when there is less than 2^64 bytes of it. */
  lemma UsableBytesAreExact(ds: seq<Descriptor>, iommu: bool)
    ensures TotalUsable(RegionsOf(ds, iommu)) == FreePages(ds) * PAGE_SIZE <==> FreePages(ds) * PAGE_SIZE < U64_SIZE
  {
    UsableBytes(ds, iommu);
  }

  /** Device i is the i-th compute device of the configuration space, with index i. */
  ghost predicate DevicesOfScan(space: PciConfig.Space, devices: seq<Device>)
    requires PciConfig.SpaceOk(space)
  {
    var e := PciScan.FirstFew(PciScan.Eligibles(space, PciScan.ALL_FUNCTIONS));
    && |devices| == |e|
    && forall i :: 0 <= i < |e| ==> SameDevice(devices[i], PciScan.DeviceAt(space, PciScan.SlotOf(e[i])), i)
  }

  /** The boot-time manifest, converted. */
  method ConvertedManifest(
      memory: Memory, compute: PciScan.ComputeDiscovery, domains: seq<RawDomain>, cpu: Cpu,
      interrupt: RawInterrupt, timer: TimerInfo) returns (m: HardwareManifest)
    requires memory.Valid() && compute.Valid() && compute.UpToDate()
    modifies cpu
    ensures m.memoryRegions == memory.PhysicalMemoryMap() && (8 in m.featureFlags <==> memory.iommuPresent)
    ensures DevicesOfScan(old(compute.host.space), m.computeDevices)
  {
    var raw := BuiltHardwareManifest(memory, compute, domains, cpu, interrupt, timer);
    m := FromRaw(raw);
  }

  /** The whole way, on any valid map and any configuration space: from the bytes of
      the one through the tracked regions, and from the scan of the other, to the
      boot-time manifest, the converted one and its total. */
  method UsableOfFirmware(
      blob: seq<Bytes.Byte>, mem: Madt.Memory, compute: PciScan.ComputeDiscovery, domains: seq<RawDomain>, cpu: Cpu,
      interrupt: RawInterrupt, timer: TimerInfo) returns (m: HardwareManifest, total: nat)
    requires ValidBlob(blob) && Acpi.ValidRoot(mem, LocateAcpiRsdp(blob))
    requires compute.Valid() && compute.UpToDate()
    modifies cpu
    ensures m.memoryRegions == RegionsOf(FirstRegions(MapOf(blob)), IommuDescribed(blob, mem))
    ensures DescribeAll(m.memoryRegions, MapOf(blob), IommuDescribed(blob, mem))
    ensures DevicesOfScan(old(compute.host.space), m.computeDevices)
    ensures 8 in m.featureFlags <==> IommuDescribed(blob, mem)
    ensures total == FreePages(FirstRegions(MapOf(blob))) * PAGE_SIZE % U64_SIZE
  {
    var memory := new Memory.FromUefiMemoryMap(blob, mem);
    m := ConvertedManifest(memory, compute, domains, cpu, interrupt, timer);
    total := TotalUsableMemoryBytes(m);
    UsableBytes(FirstRegions(MapOf(blob)), memory.iommuPresent);
  }

  /** On every blob put together from its parts, the regions describe the first 64
      descriptors, all behind the IOMMU exactly if a table reached from its root pointer
      describes one; the total is that of these descriptors, and exact if and only
      if it is less than 2^64. */
  method UsableOfEncodedMap(
      blob: seq<Bytes.Byte>, mem: Madt.Memory, compute: PciScan.ComputeDiscovery, domains: seq<RawDomain>, cpu: Cpu,
      interrupt: RawInterrupt, timer: TimerInfo,
      ghost w: Firmware)
    returns (m: HardwareManifest, total: nat)
    requires w.Ok() && blob == w.Bytes() && Acpi.ValidRoot(mem, w.rsdp)
    requires compute.Valid() && compute.UpToDate()
    modifies cpu
    ensures DescribeAll(m.memoryRegions, w.ds, Acpi.Lists(mem, Acpi.TablesListed(mem, w.rsdp), Acpi.DMAR))
    ensures total == FreePages(FirstRegions(w.ds)) * 4096 % U64_SIZE
    ensures total == FreePages(FirstRegions(w.ds)) * 4096 <==> FreePages(FirstRegions(w.ds)) * 4096 < U64_SIZE
  {
    FirmwareReadsBack(blob, w);
    m, total := UsableOfFirmware(blob, mem, compute, domains, cpu, interrupt, timer);
    WrapIsExact(FreePages(FirstRegions(w.ds)) * 4096);
  }

  lemma WrapIsExact(n: nat)
    ensures n % U64_SIZE == n <==> n < U64_SIZE
  {
  }

  /** A stride too small for a descriptor gives no memory at all. */
  lemma SmallStride(blob: seq<Bytes.Byte>, iommu: bool)
    requires ValidBlob(blob) && Stride(blob) < DESCRIPTOR_SIZE
    ensures RegionsOf(FirstRegions(MapOf(blob)), iommu) == []
      && TotalUsable(RegionsOf(FirstRegions(MapOf(blob)), iommu)) == 0
  {
    DescriptorCount(blob, HEADER_SIZE, MapSize(blob), Stride(blob));
  }
}
