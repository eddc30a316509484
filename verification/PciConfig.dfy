/** PCI configuration space: its registers, the two ways of reaching them, and the
    probe that sizes a base address register. */
module PciConfig {
  import opened Words
  import opened Bits
  import opened Hal
  import opened PciAddress

  const ALL_ONES: nat := 0xFFFF_FFFF

  /** One register: the value it holds, and the bits that software can change. */
  datatype Register = Register(value: nat, writable: nat)

  type Space = map<Address, Register>

  ghost predicate SpaceOk(space: Space) {
    forall a :: a in space ==> space[a].value < U32_SIZE
  }

  /** A read of a register that no function answers for returns all ones. */
  function ReadIn(space: Space, slot: Slot, offset: nat): nat {
    if (slot, offset) in space then space[(slot, offset)].value else 0xFFFF_FFFF
  }

  // ---------------------------------------------------------------------
  // Writable bits
  // ---------------------------------------------------------------------

  /** `old` with the bits of `mask` taken from `value`. */
  function Merge(old_: nat, value: nat, mask: nat): (r: nat)
    decreases mask
  {
    if mask == 0 then old_
    else 2 * Merge(old_ / 2, value / 2, mask / 2) + (if mask % 2 == 1 then value else old_) % 2
  }

  lemma {:induction false} MergeBits(w: nat, value: nat, mask: nat, k: nat)
    ensures Bit(Merge(w, value, mask), k) <==> if Bit(mask, k) then Bit(value, k) else Bit(w, k)
    decreases k
  {
    if mask == 0 {
      BitZero(k);
    } else if k > 0 {
      MergeBits(w / 2, value / 2, mask / 2, k - 1);
    }
  }

  /** Writing a register and then writing back what it held restores it, whichever
      bits are writable. */
  lemma {:induction false} WriteBackRestores(w: nat, value: nat, mask: nat)
    ensures Merge(Merge(w, value, mask), w, mask) == w
    decreases mask
  {
    if mask != 0 {
      WriteBackRestores(w / 2, value / 2, mask / 2);
    }
  }

  lemma {:induction false} MergeBelow(w: nat, value: nat, mask: nat, n: nat)
    requires w < Pow2(n) && value < Pow2(n)
    ensures Merge(w, value, mask) < Pow2(n)
    decreases n
  {
    if mask != 0 && n > 0 {
      MergeBelow(w / 2, value / 2, mask / 2, n - 1);
    } else if mask != 0 {
      MergeZero(mask);
    }
  }

  lemma {:induction false} MergeZero(mask: nat)
    ensures Merge(0, 0, mask) == 0
    decreases mask
  {
    if mask != 0 {
      MergeZero(mask / 2);
    }
  }

  /** The mask with the bits from k up to n. */
  function HighBits(k: nat, n: nat): (m: nat)
    requires k <= n
    ensures m + Pow2(k) == Pow2(n)
    decreases n
  {
    if n == k then 0 else if k == 0 then 2 * HighBits(0, n - 1) + 1 else 2 * HighBits(k - 1, n - 1)
  }

  lemma MergeStep(w: nat, value: nat, mask: nat)
    ensures Merge(w, value, mask) == 2 * Merge(w / 2, value / 2, mask / 2) + (if mask % 2 == 1 then value else w) % 2
  {
  }

  /** Writing ones sets the writable bits and leaves the others. */
  lemma {:induction false} MergeOnes(w: nat, k: nat, n: nat)
    requires w < Pow2(n) && k <= n
    ensures Merge(w, Ones(n), HighBits(k, n)) == HighBits(k, n) + w % Pow2(k)
    decreases n
  {
    if n == k {
      Remainder(w, Pow2(n));
    } else {
      MergeStep(w, Ones(n), HighBits(k, n));
      OnesHalves(n);
      MergeOnes(w / 2, if k == 0 then 0 else k - 1, n - 1);
      HighBitsHalves(k, n);
      if k > 0 {
        ModPow2Step(w, k);
      }
    }
  }

  lemma HighBitsHalves(k: nat, n: nat)
    requires k < n
    ensures HighBits(k, n) / 2 == HighBits(if k == 0 then 0 else k - 1, n - 1)
    ensures HighBits(k, n) % 2 == if k == 0 then 1 else 0
  {
  }

  lemma Remainder(w: nat, d: nat)
    requires w < d
    ensures w % d == w
  {
  }

  // ---------------------------------------------------------------------
  // Access
  // ---------------------------------------------------------------------

  /** The host bridge and everything behind it. */
  class HostBridge {
    const ecamBase: nat
    var space: Space
    var configAddress: nat

    ghost predicate Valid()
      reads `space
    {
      SpaceOk(space)
    }

    function Value(a: Option<Address>): nat
      reads `space
    {
      if a.Some? && a.value in space then space[a.value].value else 0xFFFF_FFFF
    }

    function Written(a: Option<Address>, value: nat): Space
      reads `space
    {
      if a.Some? && a.value in space then
        space[a.value := space[a.value].(value := Merge(space[a.value].value, value, space[a.value].writable))]
      else space
    }

    method MmioRead(address: nat) returns (v: nat)
      requires address >= ecamBase
      ensures v == Value(Some(EcamDecode(address - ecamBase)))
    {
      v := Value(Some(EcamDecode(address - ecamBase)));
    }

    method MmioWrite(address: nat, value: nat)
      requires address >= ecamBase
      modifies this`space
      ensures space == old(Written(Some(EcamDecode(address - ecamBase)), value))
    {
      space := Written(Some(EcamDecode(address - ecamBase)), value);
    }

    method OutAddress(value: nat)
      modifies this`configAddress
      ensures configAddress == value
    {
      configAddress := value;
    }

    method InData() returns (v: nat)
      ensures v == Value(PortDecode(configAddress))
    {
      v := Value(PortDecode(configAddress));
    }

    method OutData(value: nat)
      modifies this`space
      ensures space == old(Written(PortDecode(configAddress), value))
    {
      space := Written(PortDecode(configAddress), value);
    }

    constructor (ecamBase: nat, space: Space)
      requires SpaceOk(space)
      ensures Valid() && this.space == space && this.ecamBase == ecamBase
    {
      this.ecamBase := ecamBase;
      this.space := space;
      configAddress := 0;
    }
  }

  datatype Access = Ecam | Ports

  predicate Aligned(offset: nat) {
    offset < 0x100 && offset % 4 == 0
  }

  method EcamRead(host: HostBridge, slot: Slot, offset: nat) returns (v: nat)
    requires host.Valid() && slot.Ok() && Aligned(offset)
    ensures v == ReadIn(host.space, slot, offset)
  {
    EcamReaches(slot, offset);
    v := host.MmioRead(host.ecamBase + EcamOffset(slot) + offset);
  }

  method PortRead(host: HostBridge, slot: Slot, offset: nat) returns (v: nat)
    requires host.Valid() && slot.Ok() && Aligned(offset)
    modifies host`configAddress
    ensures v == ReadIn(host.space, slot, offset)
  {
    PortReaches(slot, offset);
    host.OutAddress(ConfigAddress(slot, offset));
    v := host.InData();
  }

  /** Writes at an offset into the window. */
  method WindowWrite(host: HostBridge, offset: nat, ghost register: Address, value: nat)
    requires host.Valid() && value < U32_SIZE && EcamDecode(offset) == register
    modifies host`space
    ensures host.space == old(host.Written(Some(register), value))
  {
    var address := host.ecamBase + offset;
    assert address - host.ecamBase == offset;
    host.MmioWrite(address, value);
  }

  method EcamWrite(host: HostBridge, slot: Slot, offset: nat, value: nat)
    requires host.Valid() && slot.Ok() && Aligned(offset) && value < U32_SIZE
    modifies host`space
    ensures host.space == old(host.Written(Some((slot, offset)), value))
  {
    EcamReaches(slot, offset);
    WindowWrite(host, EcamOffset(slot) + offset, (slot, offset), value);
  }

  method PortWrite(host: HostBridge, slot: Slot, offset: nat, value: nat)
    requires host.Valid() && slot.Ok() && Aligned(offset) && value < U32_SIZE
    modifies host
    ensures host.space == old(host.Written(Some((slot, offset)), value))
  {
    PortReaches(slot, offset);
    host.OutAddress(ConfigAddress(slot, offset));
    host.OutData(value);
  }

  method ReadConfig(host: HostBridge, access: Access, slot: Slot, offset: nat) returns (v: nat)
    requires host.Valid() && slot.Ok() && Aligned(offset)
    modifies host`configAddress
    ensures v == ReadIn(host.space, slot, offset)
  {
    match access {
      case Ecam => v := EcamRead(host, slot, offset);
      case Ports => v := PortRead(host, slot, offset);
    }
  }

  method WriteConfig(host: HostBridge, access: Access, slot: Slot, offset: nat, value: nat)
    requires host.Valid() && slot.Ok() && Aligned(offset) && value < U32_SIZE
    modifies host
    ensures host.Valid() && host.space == old(host.Written(Some((slot, offset)), value))
  {
    match access {
      case Ecam => EcamWrite(host, slot, offset, value);
      case Ports => PortWrite(host, slot, offset, value);
    }
    WrittenIsOk(old(host.space), host.space, (slot, offset), value);
  }

  lemma WrittenIsOk(before: Space, after: Space, a: Address, value: nat)
    requires SpaceOk(before) && value < U32_SIZE
    requires after ==
      if a in before then before[a := before[a].(value := Merge(before[a].value, value, before[a].writable))]
      else before
    ensures SpaceOk(after)
  {
    if a in before {
      WidePowers();
      MergeBelow(before[a].value, value, before[a].writable, 32);
    }
  }

  // ---------------------------------------------------------------------
  // Base address registers
  // ---------------------------------------------------------------------

  const BAR_0: nat := 0x10

  /** What a read after writing all ones returns. */
  function ReadBack(space: Space, slot: Slot, offset: nat): nat {
    if (slot, offset) in space
    then Merge(space[(slot, offset)].value, 0xFFFF_FFFF, space[(slot, offset)].writable)
    else 0xFFFF_FFFF
  }

  function SizeOf(readBack: nat): Option<nat>
    requires readBack < U32_SIZE
  {
    if readBack == 0 then None else Some(ALL_ONES - readBack / 16 * 16 + 1)
  }

  lemma ReadBackBelow(space: Space, slot: Slot, offset: nat)
    requires SpaceOk(space)
    ensures ReadBack(space, slot, offset) < U32_SIZE
  {
    if (slot, offset) in space {
      WidePowers();
      MergeBelow(space[(slot, offset)].value, ALL_ONES, space[(slot, offset)].writable, 32);
    }
  }

  function BarSize(space: Space, slot: Slot, offset: nat): Option<nat>
    requires SpaceOk(space)
  {
    ReadBackBelow(space, slot, offset);
    if ReadIn(space, slot, offset) % 2 != 0 then None else SizeOf(ReadBack(space, slot, offset))
  }

  /** Write all ones, read back, restore: the size, and the space as it was. */
  method ProbeBarSize(host: HostBridge, access: Access, slot: Slot, bar: nat) returns (size: Option<nat>)
    requires host.Valid() && slot.Ok() && bar < 6
    modifies host
    ensures host.Valid() && host.space == old(host.space)
    ensures size == BarSize(host.space, slot, 0x10 + bar * 4)
  {
    var offset := BAR_0 + bar * 4;
    ghost var before := host.space;
    ReadBackBelow(before, slot, offset);
    var original := ReadConfig(host, access, slot, offset);
    if original % 2 != 0 {
      return None;
    }
    assert original < U32_SIZE;
    WriteConfig(host, access, slot, offset, ALL_ONES);
    var sizeMask := ReadConfig(host, access, slot, offset);
    WriteConfig(host, access, slot, offset, original);
    if (slot, offset) in before {
      WriteBackRestores(before[(slot, offset)].value, ALL_ONES, before[(slot, offset)].writable);
      assert host.space[(slot, offset)] == before[(slot, offset)];
    }
    assert host.space == before;
    if sizeMask == 0 {
      return None;
    }
    var sizeBits := sizeMask / 16 * 16;
    return Some((ALL_ONES - sizeBits) + 1);
  }

  /** The low register of a memory base address register for 2^k bytes (section
      6.2.5.1 of PCI Local Bus 3.0): the address bits from k up can be written, the
      ones below are zero, the lowest four are the type. From 2^32 bytes on only a
      64-bit register will do, and its low half has no address bit at all. */
  predicate MemoryBar(r: Register, k: nat) {
    && k >= 4 && r.value < U32_SIZE && r.value % 2 == 0
    && if k < 32 then r.writable == HighBits(k, 32) && r.value % Pow2(k) < 16
       else r.writable == 0 && r.value < 16 && r.value / 2 % 4 == 2
  }

  lemma SmallBarReads(value: nat, k: nat)
    requires 4 <= k < 32 && value < U32_SIZE
    ensures Pow2(k) == 16 * Pow2(k - 4) && Pow2(k) < U32_SIZE
    ensures Merge(value, ALL_ONES, HighBits(k, 32)) == U32_SIZE - Pow2(k) + value % Pow2(k)
  {
    WidePowers();
    assert Ones(32) == ALL_ONES;
    MergeOnes(value, k, 32);
    Pow2Monotone(k, 31);
    assert Pow2(32) == 2 * Pow2(31);
    FourBits(k);
  }

  lemma FourBits(k: nat)
    requires k >= 4
    ensures Pow2(k) == 16 * Pow2(k - 4)
  {
    Powers();
    Pow2Add(4, k - 4);
  }

  lemma SmallBar(r: Register, k: nat)
    requires k < 32 && MemoryBar(r, k)
    ensures var readBack := Merge(r.value, ALL_ONES, r.writable);
      readBack < U32_SIZE && SizeOf(readBack) == Some(Pow2(k))
  {
    SmallBarReads(r.value, k);
    TopBits(Pow2(k), Pow2(k - 4), r.value % Pow2(k), Merge(r.value, ALL_ONES, r.writable));
  }

  lemma LargeBar(r: Register, k: nat)
    requires k >= 32 && MemoryBar(r, k)
    ensures var readBack := Merge(r.value, ALL_ONES, r.writable);
      readBack < U32_SIZE && SizeOf(readBack) == Some(U32_SIZE)
  {
  }

  /** The size reported for a region of 2^k bytes. */
  function Reported(k: nat): nat {
    if k < 32 then Pow2(k) else U32_SIZE
  }

  /** The probe finds the size of a memory region up to 2^32 bytes, and reports
      2^32 for anything larger. */
  lemma BarSizeIs(space: Space, slot: Slot, offset: nat, k: nat)
    requires SpaceOk(space) && (slot, offset) in space && MemoryBar(space[(slot, offset)], k)
    ensures BarSize(space, slot, offset) == Some(Reported(k))
  {
    ReadBackBelow(space, slot, offset);
    if k < 32 {
      SmallBar(space[(slot, offset)], k);
    } else {
      LargeBar(space[(slot, offset)], k);
    }
  }

  lemma {:induction false} MergeIsZero(w: nat, mask: nat, n: nat)
    requires w < Pow2(n) && mask < Pow2(n)
    ensures Merge(w, Ones(n), mask) == 0 <==> w == 0 && mask == 0
    decreases n
  {
    if n > 0 {
      OnesHalves(n);
      MergeIsZero(w / 2, mask / 2, n - 1);
    }
  }

  /** An I/O register, one that is not there and one that is not implemented have no
      size, and all others have one. */
  lemma WithoutSize(space: Space, slot: Slot, offset: nat)
    requires SpaceOk(space) && ((slot, offset) in space ==> space[(slot, offset)].writable < 0x1_0000_0000)
    ensures BarSize(space, slot, offset).None? <==>
      || (slot, offset) !in space
      || space[(slot, offset)].value % 2 == 1
      || (space[(slot, offset)].value == 0 && space[(slot, offset)].writable == 0)
  {
    if (slot, offset) in space {
      WidePowers();
      assert Ones(32) == 0xFFFF_FFFF;
      MergeIsZero(space[(slot, offset)].value, space[(slot, offset)].writable, 32);
    }
  }

  lemma TopBits(p: nat, q: nat, low: nat, readBack: nat)
    requires 0 < p == 16 * q && p < U32_SIZE && low < 16 && readBack == U32_SIZE - p + low
    ensures readBack < U32_SIZE && SizeOf(readBack) == Some(p)
  {
    QuotientIs(readBack, 16, 0x1000_0000 - q, low);
  }

  /** The size reported is the true one exactly up to 2^32 bytes. */
  lemma SizeReportedExactly(space: Space, slot: Slot, offset: nat, k: nat)
    requires SpaceOk(space) && (slot, offset) in space && MemoryBar(space[(slot, offset)], k)
    ensures BarSize(space, slot, offset) == Some(Pow2(k)) <==> k <= 32
  {
    BarSizeIs(space, slot, offset, k);
    WidePowers();
    if k > 32 {
      Pow2Monotone(33, k);
      assert Pow2(33) == 2 * Pow2(32);
    }
  }

  /** For instance a 64-bit region of 2^33 bytes is reported as 2^32. */
  lemma LargeRegionMisreported(slot: Slot)
    ensures var space: Space := map[(slot, BAR_0) := Register(0x4, 0)];
      && SpaceOk(space) && MemoryBar(space[(slot, BAR_0)], 33)
      && BarSize(space, slot, BAR_0) == Some(U32_SIZE) && Pow2(33) == 2 * U32_SIZE
  {
    var space: Space := map[(slot, BAR_0) := Register(0x4, 0)];
    WidePowers();
    assert Pow2(33) == 2 * Pow2(32);
    BarSizeIs(space, slot, BAR_0, 33);
  }

  /** So two regions are told apart by the probe exactly when one has less than
      2^32 bytes. */
  lemma SizesToldApart(space: Space, a: Address, b: Address, j: nat, k: nat)
    requires SpaceOk(space) && a in space && b in space && j < k
    requires MemoryBar(space[a], j) && MemoryBar(space[b], k)
    ensures BarSize(space, a.0, a.1) != BarSize(space, b.0, b.1) <==> j < 32
  {
    BarSizeIs(space, a.0, a.1, j);
    BarSizeIs(space, b.0, b.1, k);
    ReportedApart(j, k);
  }

  lemma ReportedApart(j: nat, k: nat)
    requires j < k
    ensures Reported(j) != Reported(k) <==> j < 32
  {
    if j < 32 {
      WidePowers();
      Pow2Monotone(j + 1, if k < 32 then k else 32);
    }
  }
}
