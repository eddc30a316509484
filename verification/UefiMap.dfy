/** The UEFI memory map: descriptors at a stride the firmware chooses, and the
    regions made of them. */
module UefiMap {
  import opened Words
  import opened Bytes
  import opened Hal
  import Acpi
  import Madt

  const PAGE_SIZE: nat := 4096
  const MAX_MEMORY_REGIONS: nat := 64
  const HEADER_SIZE: nat := 16
  const DESCRIPTOR_SIZE: nat := 40

  // ---------------------------------------------------------------------
  // Descriptors
  // ---------------------------------------------------------------------

  datatype Descriptor = Descriptor(
    ty: nat, padding: nat, physicalStart: nat, virtualStart: nat, numberOfPages: nat, attribute: nat)
  {
    ghost predicate Ok() {
      ty < U32_SIZE && padding < U32_SIZE && physicalStart < U64_SIZE && virtualStart < U64_SIZE
        && numberOfPages < U64_SIZE && attribute < U64_SIZE
    }
  }

  function DescriptorAt(blob: seq<Byte>, at: nat): Descriptor
    requires at + DESCRIPTOR_SIZE <= |blob|
  {
    Descriptor(LeAt(blob, at, 4), LeAt(blob, at + 4, 4), LeAt(blob, at + 8, 8),
               LeAt(blob, at + 16, 8), LeAt(blob, at + 24, 8), LeAt(blob, at + 32, 8))
  }

  /** The descriptors in `remaining` bytes from an offset on. */
  function Descriptors(blob: seq<Byte>, at: nat, remaining: nat, stride: nat): (ds: seq<Descriptor>)
    requires at + remaining <= |blob|
    decreases remaining
  {
    if remaining < stride || stride < DESCRIPTOR_SIZE then []
    else [DescriptorAt(blob, at)] + Descriptors(blob, at + stride, remaining - stride, stride)
  }

  /** The place `i` strides on. */
  function Position(at: nat, stride: nat, i: nat): nat
    decreases i
  {
    if i == 0 then at else Position(at, stride, i - 1) + stride
  }

  lemma {:induction false} PositionIs(at: nat, stride: nat, i: nat)
    ensures Position(at, stride, i) == at + i * stride
    decreases i
  {
    if i > 0 {
      PositionIs(at, stride, i - 1);
      assert i * stride == (i - 1) * stride + stride;
    }
  }

  lemma {:induction false} PositionFromNext(at: nat, stride: nat, i: nat)
    requires i > 0
    ensures Position(at, stride, i) == Position(at + stride, stride, i - 1)
    decreases i
  {
    if i > 1 {
      PositionFromNext(at, stride, i - 1);
    }
  }

  lemma FirstDescriptor(blob: seq<Byte>, at: nat, remaining: nat, stride: nat)
    requires at + remaining <= |blob| && Descriptors(blob, at, remaining, stride) != []
    ensures DESCRIPTOR_SIZE <= stride <= remaining
    ensures var ds := Descriptors(blob, at, remaining, stride);
      ds[0] == DescriptorAt(blob, at) && ds[1..] == Descriptors(blob, at + stride, remaining - stride, stride)
  {
  }

  lemma {:induction false} DescriptorFrom(
      blob: seq<Byte>, at: nat, remaining: nat, stride: nat, i: nat, p: nat, ds: seq<Descriptor>)
    requires at + remaining <= |blob| && ds == Descriptors(blob, at, remaining, stride)
    requires i < |ds| && p == Position(at, stride, i)
    ensures p + DESCRIPTOR_SIZE <= |blob| && ds[i] == DescriptorAt(blob, p)
    decreases i
  {
    FirstDescriptor(blob, at, remaining, stride);
    if i > 0 {
      PositionFromNext(at, stride, i);
      DescriptorFrom(blob, at + stride, remaining - stride, stride, i - 1, p, ds[1..]);
    }
  }

  /** Descriptor i starts at i strides. */
  lemma DescriptorI(blob: seq<Byte>, at: nat, remaining: nat, stride: nat, i: nat)
    requires at + remaining <= |blob| && i < |Descriptors(blob, at, remaining, stride)|
    ensures Position(at, stride, i) == at + i * stride
    ensures Position(at, stride, i) + DESCRIPTOR_SIZE <= |blob|
    ensures Descriptors(blob, at, remaining, stride)[i] == DescriptorAt(blob, Position(at, stride, i))
  {
    PositionIs(at, stride, i);
    DescriptorFrom(blob, at, remaining, stride, i, Position(at, stride, i), Descriptors(blob, at, remaining, stride));
  }

  /** There are as many as whole strides fit, or none when the stride is too small
      to hold one. */
  lemma {:induction false} DescriptorCount(blob: seq<Byte>, at: nat, remaining: nat, stride: nat)
    requires at + remaining <= |blob|
    ensures var n := |Descriptors(blob, at, remaining, stride)|;
      if stride < DESCRIPTOR_SIZE then n == 0 else n * stride <= remaining < (n + 1) * stride
    decreases remaining
  {
    if stride >= DESCRIPTOR_SIZE && remaining >= stride {
      DescriptorCount(blob, at + stride, remaining - stride, stride);
      var n := |Descriptors(blob, at + stride, remaining - stride, stride)|;
      assert (n + 1) * stride == n * stride + stride && (n + 2) * stride == (n + 1) * stride + stride;
    }
  }

  // ---------------------------------------------------------------------
  // Encoding
  // ---------------------------------------------------------------------

  function Encode(d: Descriptor): (s: seq<Byte>)
    ensures |s| == DESCRIPTOR_SIZE
  {
    FieldBytes(Field(d.ty, 4)) + (FieldBytes(Field(d.padding, 4)) + (FieldBytes(Field(d.physicalStart, 8))
      + (FieldBytes(Field(d.virtualStart, 8))
        + (FieldBytes(Field(d.numberOfPages, 8)) + FieldBytes(Field(d.attribute, 8))))))
  }

  lemma DecodeEncode(s: seq<Byte>, d: Descriptor)
    requires d.Ok() && HasBytes(s, 0, Encode(d))
    ensures DescriptorAt(s, 0) == d
  {
    WordSizes();
    var f0, f1, f2 := Field(d.ty, 4), Field(d.padding, 4), Field(d.physicalStart, 8);
    var f3, f4, f5 := Field(d.virtualStart, 8), Field(d.numberOfPages, 8), Field(d.attribute, 8);
    var r4 := FieldBytes(f4) + FieldBytes(f5);
    var r3 := FieldBytes(f3) + r4;
    var r2 := FieldBytes(f2) + r3;
    var r1 := FieldBytes(f1) + r2;
    HasPart(s, 0, FieldBytes(f0), r1);
    HasPart(s, 4, FieldBytes(f1), r2);
    HasPart(s, 8, FieldBytes(f2), r3);
    HasPart(s, 16, FieldBytes(f3), r4);
    HasPart(s, 24, FieldBytes(f4), FieldBytes(f5));
    FieldReadsBack(s, 0, f0);
    FieldReadsBack(s, 4, f1);
    FieldReadsBack(s, 8, f2);
    FieldReadsBack(s, 16, f3);
    FieldReadsBack(s, 24, f4);
    FieldReadsBack(s, 32, f5);
  }

  /** One slot of a map: a descriptor and the vendor's own bytes after it. */
  function Slot(d: Descriptor, tail: seq<Byte>): seq<Byte> {
    Encode(d) + tail
  }

  lemma SlotReadsBack(d: Descriptor, tail: seq<Byte>)
    requires d.Ok()
    ensures DescriptorAt(Slot(d, tail), 0) == d
  {
    assert Slot(d, tail)[0..DESCRIPTOR_SIZE] == Encode(d);
    DecodeEncode(Slot(d, tail), d);
  }

  function Concat(slots: seq<seq<Byte>>): seq<Byte>
    decreases |slots|
  {
    if slots == [] then [] else slots[0] + Concat(slots[1..])
  }

  ghost predicate SlotsFit(slots: seq<seq<Byte>>, stride: nat) {
    forall i :: 0 <= i < |slots| ==> |slots[i]| == stride
  }

  lemma {:induction false} ConcatSize(slots: seq<seq<Byte>>, stride: nat)
    requires SlotsFit(slots, stride)
    ensures |Concat(slots)| == |slots| * stride
    decreases |slots|
  {
    if slots != [] {
      ConcatSize(slots[1..], stride);
      assert |slots| * stride == (|slots| - 1) * stride + stride;
    }
  }

  /** Slot i starts at i strides. */
  lemma {:induction false} SlotInConcat(s: seq<Byte>, at: nat, slots: seq<seq<Byte>>, stride: nat, i: nat)
    requires SlotsFit(slots, stride) && i < |slots| && HasBytes(s, at, Concat(slots))
    ensures HasBytes(s, Position(at, stride, i), slots[i])
    decreases i
  {
    HasPart(s, at, slots[0], Concat(slots[1..]));
    if i > 0 {
      PositionFromNext(at, stride, i);
      SlotInConcat(s, at + stride, slots[1..], stride, i - 1);
    }
  }

  lemma SameField(blob: seq<Byte>, at: nat, slot: seq<Byte>, i: nat, k: nat)
    requires HasBytes(blob, at, slot) && i + k <= |slot|
    ensures LeAt(blob, at + i, k) == LeAt(slot, i, k)
  {
    var a, b := blob[at + i..at + i + k], slot[i..i + k];
    forall j | 0 <= j < k
      ensures a[j] == b[j]
    {
      assert a[j] == blob[at..at + |slot|][i + j];
    }
    assert a == b;
  }

  lemma SameDescriptor(blob: seq<Byte>, at: nat, slot: seq<Byte>)
    requires |slot| >= DESCRIPTOR_SIZE && HasBytes(blob, at, slot)
    ensures DescriptorAt(blob, at) == DescriptorAt(slot, 0)
  {
    SameField(blob, at, slot, 0, 4);
    SameField(blob, at, slot, 4, 4);
    SameField(blob, at, slot, 8, 8);
    SameField(blob, at, slot, 16, 8);
    SameField(blob, at, slot, 24, 8);
    SameField(blob, at, slot, 32, 8);
  }

  lemma SameCount(m: nat, n: nat, left: nat, stride: nat)
    requires left < stride && n * stride <= m * stride + left < (n + 1) * stride
    ensures m == n
  {
    assert (m + 1) * stride == m * stride + stride;
    if m < n {
      TimesMonotone(m + 1, n, stride);
    } else if m > n {
      TimesMonotone(n + 1, m, stride);
    }
  }

  lemma EncodedCount(blob: seq<Byte>, at: nat, slots: seq<seq<Byte>>, stride: nat, left: nat)
    requires SlotsFit(slots, stride) && left < stride && DESCRIPTOR_SIZE <= stride
    requires at + |Concat(slots)| + left <= |blob|
    ensures |Descriptors(blob, at, |Concat(slots)| + left, stride)| == |slots|
  {
    ConcatSize(slots, stride);
    DescriptorCount(blob, at, |Concat(slots)| + left, stride);
    SameCount(|slots|, |Descriptors(blob, at, |Concat(slots)| + left, stride)|, left, stride);
  }

  lemma EncodedI(blob: seq<Byte>, at: nat, slots: seq<seq<Byte>>, stride: nat, size: nat, i: nat)
    requires SlotsFit(slots, stride) && DESCRIPTOR_SIZE <= stride && at + size <= |blob|
    requires HasBytes(blob, at, Concat(slots))
    requires i < |slots| && i < |Descriptors(blob, at, size, stride)|
    ensures Descriptors(blob, at, size, stride)[i] == DescriptorAt(slots[i], 0)
  {
    DescriptorI(blob, at, size, stride, i);
    SlotInConcat(blob, at, slots, stride, i);
    SameDescriptor(blob, Position(at, stride, i), slots[i]);
  }

  /** The iterator finds the descriptor at the front of every slot of a map, for any
      stride, and ignores what is left over at the end. */
  lemma DescriptorsOfSlots(blob: seq<Byte>, at: nat, slots: seq<seq<Byte>>, stride: nat, size: nat)
    requires SlotsFit(slots, stride) && DESCRIPTOR_SIZE <= stride && at + size <= |blob|
    requires HasBytes(blob, at, Concat(slots)) && |Concat(slots)| <= size < |Concat(slots)| + stride
    ensures var found := Descriptors(blob, at, size, stride);
      |found| == |slots| && forall i :: 0 <= i < |slots| ==> found[i] == DescriptorAt(slots[i], 0)
  {
    var found := Descriptors(blob, at, size, stride);
    EncodedCount(blob, at, slots, stride, size - |Concat(slots)|);
    forall i | 0 <= i < |slots|
      ensures found[i] == DescriptorAt(slots[i], 0)
    {
      EncodedI(blob, at, slots, stride, size, i);
    }
  }

  lemma Recovered(found: seq<Descriptor>, slots: seq<seq<Byte>>, ds: seq<Descriptor>, tails: seq<seq<Byte>>)
    requires |found| == |slots| == |ds| == |tails|
    requires forall i :: 0 <= i < |ds| ==> |slots[i]| >= DESCRIPTOR_SIZE && found[i] == DescriptorAt(slots[i], 0)
    requires forall i :: 0 <= i < |ds| ==> ds[i].Ok() && slots[i] == Slot(ds[i], tails[i])
    ensures found == ds
  {
    forall i | 0 <= i < |ds|
      ensures found[i] == ds[i]
    {
      SlotReadsBack(ds[i], tails[i]);
    }
  }

  /** Decoding recovers every descriptor that was encoded, whatever the tails hold. */
  lemma DecodeEncodedMap(blob: seq<Byte>, at: nat, slots: seq<seq<Byte>>, stride: nat, size: nat,
      ds: seq<Descriptor>, tails: seq<seq<Byte>>)
    requires SlotsFit(slots, stride) && DESCRIPTOR_SIZE <= stride && at + size <= |blob|
    requires HasBytes(blob, at, Concat(slots)) && |Concat(slots)| <= size < |Concat(slots)| + stride
    requires |slots| == |ds| == |tails|
    requires forall i :: 0 <= i < |ds| ==> ds[i].Ok() && slots[i] == Slot(ds[i], tails[i])
    ensures Descriptors(blob, at, size, stride) == ds
  {
    DescriptorsOfSlots(blob, at, slots, stride, size);
    Recovered(Descriptors(blob, at, size, stride), slots, ds, tails);
  }

  // ---------------------------------------------------------------------
  // Regions
  // ---------------------------------------------------------------------

  datatype RegionKind = Usable | Reserved | AcpiReclaimable | AcpiNvs | Mmio | KernelImage | BootReserved

  datatype Region = Region(baseAddr: nat, lengthBytes: nat, kind: RegionKind, behindIommu: bool)

  const ZERO_REGION: Region := Region(0, 0, Reserved, false)

  /** Loader and boot-services memory is free once boot services have ended;
      runtime services, persistent and unknown memory is not. */
  function ClassifyUefiType(ty: nat): RegionKind {
    match ty
    case 7 => Usable
    case 3 => Usable
    case 4 => Usable
    case 1 => Usable
    case 2 => Usable
    case 9 => AcpiReclaimable
    case 10 => AcpiNvs
    case 11 => Mmio
    case 12 => Mmio
    case _ => Reserved
  }

  function RegionOf(d: Descriptor, iommu: bool): Region {
    Region(d.physicalStart, d.numberOfPages * PAGE_SIZE % U64_SIZE, ClassifyUefiType(d.ty), iommu)
  }

  /** What a region says of its descriptor: where it begins, how long it is up to the
      wrap, and what it is for by the type's number. */
  predicate Describes(r: Region, d: Descriptor, iommu: bool) {
    && r.baseAddr == d.physicalStart
    && r.lengthBytes == d.numberOfPages * 4096 % 0x1_0000_0000_0000_0000
    && (r.kind == Usable <==> 1 <= d.ty <= 4 || d.ty == 7)
    && (r.kind == AcpiReclaimable <==> d.ty == 9)
    && (r.kind == AcpiNvs <==> d.ty == 10)
    && (r.kind == Mmio <==> d.ty == 11 || d.ty == 12)
    && r.kind != KernelImage && r.kind != BootReserved && r.behindIommu == iommu
  }

  lemma RegionDescribes(d: Descriptor, iommu: bool)
    ensures Describes(RegionOf(d, iommu), d, iommu)
  {
  }

  /** The regions describe the first 64 descriptors, or all if there are fewer. */
  ghost predicate DescribeAll(rs: seq<Region>, ds: seq<Descriptor>, iommu: bool) {
    && |rs| == (if |ds| <= 64 then |ds| else 64)
    && forall i :: 0 <= i < |rs| ==> Describes(rs[i], ds[i], iommu)
  }

  lemma RegionsDescribe(ds: seq<Descriptor>, iommu: bool)
    ensures DescribeAll(RegionsOf(FirstRegions(ds), iommu), ds, iommu)
  {
    var few := FirstRegions(ds);
    forall i | 0 <= i < |few|
      ensures Describes(RegionsOf(few, iommu)[i], ds[i], iommu)
    {
      RegionDescribes(few[i], iommu);
    }
  }

  function FirstRegions(ds: seq<Descriptor>): (few: seq<Descriptor>)
    ensures few <= ds && |few| == if |ds| <= 64 then |ds| else 64
  {
    if |ds| <= MAX_MEMORY_REGIONS then ds else ds[..MAX_MEMORY_REGIONS]
  }

  function RegionsOf(ds: seq<Descriptor>, iommu: bool): (rs: seq<Region>)
    ensures |rs| == |ds|
    ensures forall i :: 0 <= i < |ds| ==> rs[i] == RegionOf(ds[i], iommu)
  {
    seq(|ds|, i requires 0 <= i < |ds| => RegionOf(ds[i], iommu))
  }

  /** The header, the descriptors and the trailing table address are all there. */
  ghost predicate ValidBlob(blob: seq<Byte>) {
    |blob| >= HEADER_SIZE && HEADER_SIZE + MapSize(blob) + 8 <= |blob|
  }

  function MapSize(blob: seq<Byte>): nat
    requires |blob| >= HEADER_SIZE
  {
    LeAt(blob, 0, 8)
  }

  function Stride(blob: seq<Byte>): nat
    requires |blob| >= HEADER_SIZE
  {
    LeAt(blob, 8, 8)
  }

  function MapOf(blob: seq<Byte>): seq<Descriptor>
    requires ValidBlob(blob)
  {
    Descriptors(blob, HEADER_SIZE, MapSize(blob), Stride(blob))
  }

  /** The root pointer that follows the descriptors. */
  function LocateAcpiRsdp(blob: seq<Byte>): nat
    requires ValidBlob(blob)
  {
    LeAt(blob, HEADER_SIZE + MapSize(blob), 8)
  }

  /** Some ACPI table describes DMA remapping. */
  ghost predicate IommuDescribed(blob: seq<Byte>, mem: Madt.Memory)
    requires ValidBlob(blob) && Acpi.ValidRoot(mem, LocateAcpiRsdp(blob))
  {
    Acpi.Lists(mem, Acpi.TablesListed(mem, LocateAcpiRsdp(blob)), Acpi.DMAR)
  }

  /** The blob holds the descriptors `ds`, each in a slot of its own before the
      vendor's bytes `tails`, at a stride that has room for one. */
  ghost predicate Encodes(blob: seq<Byte>, slots: seq<seq<Byte>>, ds: seq<Descriptor>, tails: seq<seq<Byte>>) {
    && ValidBlob(blob) && DESCRIPTOR_SIZE <= Stride(blob) && SlotsFit(slots, Stride(blob))
    && HasBytes(blob, HEADER_SIZE, Concat(slots))
    && |Concat(slots)| <= MapSize(blob) < |Concat(slots)| + Stride(blob)
    && |slots| == |ds| == |tails|
    && forall i :: 0 <= i < |ds| ==> ds[i].Ok() && slots[i] == Slot(ds[i], tails[i])
  }

  lemma EncodedMapIs(blob: seq<Byte>, slots: seq<seq<Byte>>, ds: seq<Descriptor>, tails: seq<seq<Byte>>)
    requires Encodes(blob, slots, ds, tails)
    ensures MapOf(blob) == ds
  {
    DecodeEncodedMap(blob, HEADER_SIZE, slots, Stride(blob), MapSize(blob), ds, tails);
  }

  /** A blob, part by part: the size of the map and its stride, the descriptors and
      the vendor's bytes after each, what is left over, the address of the ACPI root
      pointer, and anything after it. */
  datatype Firmware = Firmware(
    stride: nat, ds: seq<Descriptor>, tails: seq<seq<Byte>>, left: seq<Byte>, rsdp: nat, after: seq<Byte>)
  {
    ghost predicate Ok() {
      && |ds| == |tails| && 40 <= stride < U64_SIZE && |left| < stride && rsdp < U64_SIZE
      && (forall i :: 0 <= i < |ds| ==> ds[i].Ok() && |tails[i]| == stride - 40)
      && |Map()| < U64_SIZE
    }

    function Slots(): (slots: seq<seq<Byte>>)
      requires |ds| == |tails|
      ensures |slots| == |ds| && forall i :: 0 <= i < |ds| ==> slots[i] == Slot(ds[i], tails[i])
    {
      seq(|ds|, i requires 0 <= i < |ds| => Slot(ds[i], tails[i]))
    }

    function Map(): seq<Byte>
      requires |ds| == |tails|
    {
      Concat(Slots()) + left
    }

    function Bytes(): seq<Byte>
      requires |ds| == |tails|
    {
      FieldBytes(Field(|Map()|, 8)) + (FieldBytes(Field(stride, 8)) + (Map() + (FieldBytes(Field(rsdp, 8)) + after)))
    }
  }

  lemma Parts(blob: seq<Byte>, a: seq<Byte>, b: seq<Byte>, c: seq<Byte>, d: seq<Byte>, e: seq<Byte>)
    requires blob == a + (b + (c + (d + e)))
    ensures HasBytes(blob, 0, a) && HasBytes(blob, |a|, b) && HasBytes(blob, |a| + |b|, c)
    ensures HasBytes(blob, |a| + |b| + |c|, d)
  {
    assert HasBytes(blob, 0, blob);
    HasPart(blob, 0, a, b + (c + (d + e)));
    HasPart(blob, |a|, b, c + (d + e));
    HasPart(blob, |a| + |b|, c, d + e);
    HasPart(blob, |a| + |b| + |c|, d, e);
  }

  lemma HeaderReadsBack(blob: seq<Byte>, size: Field, stride: Field, map_: seq<Byte>, rsdp: Field, after: seq<Byte>)
    requires size.size == stride.size == rsdp.size == 8 && size.value == |map_|
    requires size.value < U64_SIZE && stride.value < U64_SIZE && rsdp.value < U64_SIZE
    requires blob == FieldBytes(size) + (FieldBytes(stride) + (map_ + (FieldBytes(rsdp) + after)))
    ensures |blob| >= 24 + |map_| && HasBytes(blob, 16, map_)
    ensures LeAt(blob, 0, 8) == size.value && LeAt(blob, 8, 8) == stride.value
    ensures LeAt(blob, 16 + |map_|, 8) == rsdp.value
  {
    WordSizes();
    Parts(blob, FieldBytes(size), FieldBytes(stride), map_, FieldBytes(rsdp), after);
    FieldReadsBack(blob, 0, size);
    FieldReadsBack(blob, 8, stride);
    FieldReadsBack(blob, 16 + |map_|, rsdp);
  }

  lemma HeaderWordsAre(blob: seq<Byte>, size: Field, stride: Field, map_: seq<Byte>, rsdp: Field, after: seq<Byte>)
    requires size.size == stride.size == rsdp.size == 8 && size.value == |map_|
    requires size.value < U64_SIZE && stride.value < U64_SIZE && rsdp.value < U64_SIZE
    requires blob == FieldBytes(size) + (FieldBytes(stride) + (map_ + (FieldBytes(rsdp) + after)))
    ensures ValidBlob(blob) && MapSize(blob) == |map_| && Stride(blob) == stride.value
    ensures LocateAcpiRsdp(blob) == rsdp.value && HasBytes(blob, 16, map_)
  {
    HeaderReadsBack(blob, size, stride, map_, rsdp, after);
  }

  lemma HeaderOfFirmware(blob: seq<Byte>, w: Firmware)
    requires |w.ds| == |w.tails| && |w.Map()| < U64_SIZE && w.stride < U64_SIZE && w.rsdp < U64_SIZE
    requires blob == w.Bytes()
    ensures ValidBlob(blob) && MapSize(blob) == |w.Map()| && Stride(blob) == w.stride
    ensures LocateAcpiRsdp(blob) == w.rsdp && HasBytes(blob, 16, w.Map())
  {
    HeaderWordsAre(blob, Field(|w.Map()|, 8), Field(w.stride, 8), w.Map(), Field(w.rsdp, 8), w.after);
  }

  /** Reading the parts of a blob gives them back: the header at 0 and 8, the map
      from 16 on with every descriptor in it, the root pointer's address behind it. */
  lemma FirmwareReadsBack(blob: seq<Byte>, w: Firmware)
    requires w.Ok() && blob == w.Bytes()
    ensures ValidBlob(blob) && MapOf(blob) == w.ds && LocateAcpiRsdp(blob) == w.rsdp
  {
    HeaderOfFirmware(blob, w);
    HasPart(blob, 16, Concat(w.Slots()), w.left);
    EncodedMapIs(blob, w.Slots(), w.ds, w.tails);
  }

  class DescriptorIter {
    const blob: seq<Byte>
    const descriptorSize: nat
    var current: nat
    var remainingBytes: nat

    ghost predicate Valid()
      reads this
    {
      current + remainingBytes <= |blob|
    }

    /** What the iterator will still return. */
    ghost function Rest(): seq<Descriptor>
      requires Valid()
      reads this
    {
      Descriptors(blob, current, remainingBytes, descriptorSize)
    }

    constructor (blob: seq<Byte>, current: nat, remainingBytes: nat, descriptorSize: nat)
      requires current + remainingBytes <= |blob|
      ensures Valid() && Rest() == Descriptors(blob, current, remainingBytes, descriptorSize)
    {
      this.blob, this.current, this.remainingBytes, this.descriptorSize :=
        blob, current, remainingBytes, descriptorSize;
    }

    method Next() returns (d: Option<Descriptor>)
      requires Valid()
      modifies this
      ensures Valid()
      ensures d.None? ==> old(Rest()) == [] && Rest() == [] && remainingBytes == old(remainingBytes)
      ensures d.Some? ==> old(Rest()) == [d.value] + Rest() && remainingBytes < old(remainingBytes)
    {
      if remainingBytes < descriptorSize || descriptorSize < DESCRIPTOR_SIZE {
        return None;
      }
      d := Some(DescriptorAt(blob, current));
      current := current + descriptorSize;
      remainingBytes := remainingBytes - descriptorSize;
    }
  }

  /** The firmware's memory, as the boot code keeps it. */
  class Memory {
    const regions: array<Region>
    var regionCount: nat
    const iommuPresent: bool

    ghost predicate Valid()
      reads this, regions
    {
      regions.Length == MAX_MEMORY_REGIONS && regionCount <= MAX_MEMORY_REGIONS
    }

    function PhysicalMemoryMap(): seq<Region>
      requires Valid()
      reads this, regions
    {
      regions[..regionCount]
    }

    /** The regions are those of the first 64 descriptors, in order, all of them behind
        the IOMMU or none. */
    constructor FromUefiMemoryMap(blob: seq<Byte>, mem: Madt.Memory)
      requires ValidBlob(blob) && Acpi.ValidRoot(mem, LocateAcpiRsdp(blob))
      ensures Valid() && fresh(regions)
      ensures iommuPresent == IommuDescribed(blob, mem)
      ensures PhysicalMemoryMap() == RegionsOf(FirstRegions(MapOf(blob)), iommuPresent)
      ensures DescribeAll(PhysicalMemoryMap(), MapOf(blob), iommuPresent)
    {
      var present := Acpi.AcpiDmarPresent(mem, LocateAcpiRsdp(blob));
      regions := new Region[MAX_MEMORY_REGIONS](_ => ZERO_REGION);
      regionCount := 0;
      iommuPresent := present;
      new;
      var iter := new DescriptorIter(blob, HEADER_SIZE, MapSize(blob), Stride(blob));
      Track(iter);
      if present {
        MarkBehindIommu(FirstRegions(MapOf(blob)));
      }
      RegionsDescribe(MapOf(blob), present);
    }

    /** Takes descriptors until there is no more room or there are no more. */
    method Track(iter: DescriptorIter)
      requires Valid() && iter.Valid() && regionCount == 0
      modifies this, regions, iter
      ensures Valid() && PhysicalMemoryMap() == RegionsOf(FirstRegions(old(iter.Rest())), false)
    {
      ghost var all := iter.Rest();
      var descriptor := iter.Next();
      while descriptor.Some?
        invariant iter.Valid() && Valid() && regionCount <= |all|
        invariant all[regionCount..] == (if descriptor.Some? then [descriptor.value] + iter.Rest() else [])
        invariant PhysicalMemoryMap() == RegionsOf(all[..regionCount], false)
        decreases iter.remainingBytes, descriptor.Some?
      {
        if regionCount >= MAX_MEMORY_REGIONS {
          break;
        }
        AddRegion(descriptor.value, all);
        descriptor := iter.Next();
      }
      assert all[..regionCount] == FirstRegions(all);
    }

    method AddRegion(d: Descriptor, ghost all: seq<Descriptor>)
      requires Valid() && regionCount < MAX_MEMORY_REGIONS && regionCount < |all| && all[regionCount] == d
      requires PhysicalMemoryMap() == RegionsOf(all[..regionCount], false)
      modifies this, regions
      ensures Valid() && regionCount == old(regionCount) + 1
      ensures PhysicalMemoryMap() == RegionsOf(all[..regionCount], false)
      ensures all[regionCount..] == all[old(regionCount)..][1..]
    {
      ghost var before := PhysicalMemoryMap();
      regions[regionCount] := RegionOf(d, false);
      regionCount := regionCount + 1;
      assert PhysicalMemoryMap() == before + [RegionOf(d, false)];
    }

    method MarkBehindIommu(ghost ds: seq<Descriptor>)
      requires Valid() && |ds| == regionCount && regions[..regionCount] == RegionsOf(ds, false)
      modifies regions
      ensures Valid() && regions[..regionCount] == RegionsOf(ds, true)
    {
      for i := 0 to regionCount
        invariant forall j :: 0 <= j < regionCount ==> regions[j] == RegionOf(ds[j], j < i)
      {
        regions[i] := regions[i].(behindIommu := true);
      }
    }
  }
}
