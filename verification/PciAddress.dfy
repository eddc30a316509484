/** The addresses of PCI configuration registers: the memory-mapped window and the
    address port. */
module PciAddress {
  import opened Bits
  import opened Hal

  /** A function is named by bus, device and function number. */
  datatype Slot = Slot(bus: nat, device: nat, func: nat)
  {
    predicate Ok() {
      bus < 256 && device < 32 && func < 8
    }
  }

  type Address = (Slot, nat)

  /** The ECAM window of a function. */
  function EcamOffset(slot: Slot): nat {
    Or(Or(slot.bus * 0x10_0000, slot.device * 0x8000), slot.func * 0x1000)
  }

  /** The word for the CONFIG_ADDRESS port. */
  function ConfigAddress(slot: Slot, offset: nat): nat {
    Or(Or(Or(Or(0x8000_0000, slot.bus * 0x1_0000), slot.device * 0x800), slot.func * 0x100), offset / 4 * 4)
  }

  /** How the host bridge reads an ECAM offset (section 7.2.2 of the PCI Express
      Base Specification). */
  function EcamDecode(a: nat): Address {
    (Slot(a / 0x10_0000 % 256, a / 0x8000 % 32, a / 0x1000 % 8), a % 0x1000)
  }

  /** How it reads the CONFIG_ADDRESS port (section 3.2.2.3.2 of PCI Local Bus 3.0). */
  function PortDecode(a: nat): Option<Address> {
    if a / 0x8000_0000 % 2 == 0 then None
    else Some((Slot(a / 0x1_0000 % 256, a / 0x800 % 32, a / 0x100 % 8), a % 0x100 / 4 * 4))
  }

  lemma AddressPowers()
    ensures Pow2(5) == 32 && Pow2(11) == 0x800 && Pow2(15) == 0x8000 && Pow2(20) == 0x10_0000 && Pow2(31) == 0x8000_0000
  {
    Powers();
    WidePowers();
    assert Pow2(5) == 2 * Pow2(4) && Pow2(11) == 2 * Pow2(10);
    assert Pow2(16) == 2 * Pow2(15);
    Pow2Add(12, 8);
    assert Pow2(32) == 2 * Pow2(31);
  }

  lemma OrAt8(hi: nat, lo: nat)
    requires lo < 0x100
    ensures Or(hi * 0x100, lo) == hi * 0x100 + lo
  {
    Powers();
    OrDisjoint(hi, 8, lo);
  }

  lemma OrAt11(hi: nat, lo: nat)
    requires lo < 0x800
    ensures Or(hi * 0x800, lo) == hi * 0x800 + lo
  {
    AddressPowers();
    OrDisjoint(hi, 11, lo);
  }

  lemma OrAt15(hi: nat, lo: nat)
    requires lo < 0x8000
    ensures Or(hi * 0x8000, lo) == hi * 0x8000 + lo
  {
    AddressPowers();
    OrDisjoint(hi, 15, lo);
  }

  lemma OrAt16(hi: nat, lo: nat)
    requires lo < 0x1_0000
    ensures Or(hi * 0x1_0000, lo) == hi * 0x1_0000 + lo
  {
    WidePowers();
    OrDisjoint(hi, 16, lo);
  }

  lemma OrAt31(hi: nat, lo: nat)
    requires lo < 0x8000_0000
    ensures Or(hi * 0x8000_0000, lo) == hi * 0x8000_0000 + lo
  {
    AddressPowers();
    OrDisjoint(hi, 31, lo);
  }

  lemma OrAt20(hi: nat, lo: nat)
    requires lo < 0x10_0000
    ensures Or(hi * 0x10_0000, lo) == hi * 0x10_0000 + lo
  {
    AddressPowers();
    OrDisjoint(hi, 20, lo);
  }

  lemma EcamOffsetIs(slot: Slot)
    requires slot.Ok()
    ensures EcamOffset(slot) == slot.bus * 0x10_0000 + slot.device * 0x8000 + slot.func * 0x1000
  {
    OrAt20(slot.bus, slot.device * 0x8000);
    OrAt15(slot.bus * 32 + slot.device, slot.func * 0x1000);
  }

  lemma EcamFields(slot: Slot, offset: nat, a: nat)
    requires slot.Ok() && offset < 0x1000
    requires a == slot.bus * 0x10_0000 + slot.device * 0x8000 + slot.func * 0x1000 + offset
    ensures EcamDecode(a) == (slot, offset)
  {
    var rest := slot.func * 0x1000 + offset;
    QuotientIs(a, 0x1000, slot.bus * 256 + slot.device * 8 + slot.func, offset);
    QuotientIs(a, 0x8000, slot.bus * 32 + slot.device, rest);
    QuotientIs(a, 0x10_0000, slot.bus, slot.device * 0x8000 + rest);
    QuotientIs(slot.bus * 256 + slot.device * 8 + slot.func, 8, slot.bus * 32 + slot.device, slot.func);
    QuotientIs(slot.bus * 32 + slot.device, 32, slot.bus, slot.device);
  }

  /** ECAM addresses reach the register they are meant for. */
  lemma EcamReaches(slot: Slot, offset: nat)
    requires slot.Ok() && offset < 0x1000
    ensures EcamDecode(EcamOffset(slot) + offset) == (slot, offset)
  {
    EcamOffsetIs(slot);
    EcamFields(slot, offset, EcamOffset(slot) + offset);
  }

  lemma ConfigTop(bus: nat, device: nat)
    requires bus < 256 && device < 32
    ensures Or(Or(0x8000_0000, bus * 0x1_0000), device * 0x800) == (0x10_0000 + bus * 32 + device) * 0x800
  {
    assert Or(0x8000_0000, bus * 0x1_0000) == (0x8000 + bus) * 0x1_0000 by { OrAt31(1, bus * 0x1_0000); }
    OrAt16(0x8000 + bus, device * 0x800);
  }

  lemma ConfigBottom(top: nat, func: nat, low: nat)
    requires func < 8 && low < 0x100
    ensures Or(Or(top * 0x800, func * 0x100), low) == top * 0x800 + func * 0x100 + low
  {
    OrAt11(top, func * 0x100);
    OrAt8(top * 8 + func, low);
  }

  lemma ConfigAddressIs(slot: Slot, offset: nat)
    requires slot.Ok() && offset < 0x100
    ensures ConfigAddress(slot, offset)
      == 0x8000_0000 + slot.bus * 0x1_0000 + slot.device * 0x800 + slot.func * 0x100 + offset / 4 * 4
  {
    var top := 0x10_0000 + slot.bus * 32 + slot.device;
    ConfigTop(slot.bus, slot.device);
    assert offset / 4 * 4 < 0x100;
    ConfigBottom(top, slot.func, offset / 4 * 4);
  }

  lemma PortFields(slot: Slot, offset: nat, a: nat)
    requires slot.Ok() && offset < 0x100 && offset % 4 == 0
    requires a == 0x8000_0000 + slot.bus * 0x1_0000 + slot.device * 0x800 + slot.func * 0x100 + offset
    ensures PortDecode(a) == Some((slot, offset))
  {
    var d, f := slot.device * 0x800, slot.func * 0x100;
    var q := 0x10_0000 + slot.bus * 32 + slot.device;
    QuotientIs(a, 0x100, q * 8 + slot.func, offset);
    QuotientIs(a, 0x800, q, f + offset);
    QuotientIs(a, 0x1_0000, 0x8000 + slot.bus, d + f + offset);
    QuotientIs(a, 0x8000_0000, 1, slot.bus * 0x1_0000 + d + f + offset);
    QuotientIs(q * 8 + slot.func, 8, q, slot.func);
    QuotientIs(q, 32, 0x8000 + slot.bus, slot.device);
    QuotientIs(0x8000 + slot.bus, 256, 0x80, slot.bus);
    QuotientIs(offset, 4, offset / 4, 0);
  }

  /** So do CONFIG_ADDRESS words, for the registers of the first 256 bytes. */
  lemma PortReaches(slot: Slot, offset: nat)
    requires slot.Ok() && offset < 0x100 && offset % 4 == 0
    ensures PortDecode(ConfigAddress(slot, offset)) == Some((slot, offset))
  {
    ConfigAddressIs(slot, offset);
    PortFields(slot, offset, ConfigAddress(slot, offset));
  }
}
