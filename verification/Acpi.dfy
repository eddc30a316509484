/** The walk from the ACPI root pointer to the tables: whether an IOMMU is described,
    and where the GIC distributor is. */
module Acpi {
  import opened Words
  import opened Bytes
  import opened Hal
  import opened Madt

  const XSDT_IN_RSDP: nat := 24
  const LENGTH_IN_HEADER: nat := 4
  const DMAR: seq<Byte> := [68, 77, 65, 82]
  const MADT: seq<Byte> := [65, 80, 73, 67]
  const IORT: seq<Byte> := [73, 79, 82, 84]

  function XsdtAddress(mem: Memory, rsdp: nat): nat {
    Le(ReadBytes(mem, rsdp + XSDT_IN_RSDP, 8))
  }

  function TableLength(mem: Memory, table: nat): nat {
    Le(ReadBytes(mem, table + LENGTH_IN_HEADER, 4))
  }

  function EntryAt(mem: Memory, xsdt: nat, i: nat): nat {
    Le(ReadBytes(mem, xsdt + SDT_HEADER_SIZE + i * 8, 8))
  }

  predicate Named(mem: Memory, table: nat, signature: seq<Byte>) {
    ReadBytes(mem, table, 4) == signature
  }

  /** The root table is at least as long as its header. */
  ghost predicate ValidRoot(mem: Memory, rsdp: nat) {
    rsdp == 0 || XsdtAddress(mem, rsdp) == 0 || TableLength(mem, XsdtAddress(mem, rsdp)) >= SDT_HEADER_SIZE
  }

  /** The addresses of the tables that the root table lists; none without a root. */
  function TablesListed(mem: Memory, rsdp: nat): seq<nat>
    requires ValidRoot(mem, rsdp)
  {
    var xsdt := XsdtAddress(mem, rsdp);
    if rsdp == 0 || xsdt == 0 then []
    else
      seq((TableLength(mem, xsdt) - SDT_HEADER_SIZE) / 8, i requires 0 <= i => EntryAt(mem, xsdt, i))
  }

  ghost predicate Lists(mem: Memory, tables: seq<nat>, signature: seq<Byte>) {
    exists i :: 0 <= i < |tables| && Named(mem, tables[i], signature)
  }

  // ---------------------------------------------------------------------
  // Encoded tables
  // ---------------------------------------------------------------------

  /** The four letters at the front of a table. */
  predicate Spells(mem: Memory, table: nat, letters: string) {
    |letters| == 4 && forall i :: 0 <= i < 4 ==> mem(table + i) == letters[i] as int
  }

  lemma Spelled(mem: Memory, table: nat, signature: seq<Byte>, letters: string)
    requires |signature| == |letters| == 4 && forall i :: 0 <= i < 4 ==> signature[i] == letters[i] as int
    ensures Named(mem, table, signature) <==> Spells(mem, table, letters)
  {
    if Named(mem, table, signature) {
      forall i | 0 <= i < 4
        ensures mem(table + i) == letters[i] as int
      {
        assert ReadBytes(mem, table, 4)[i] == signature[i];
      }
    }
  }

  ghost predicate SomeSpells(mem: Memory, tables: seq<nat>, letters: string) {
    exists i :: 0 <= i < |tables| && Spells(mem, tables[i], letters)
  }

  lemma ListsSpelled(mem: Memory, tables: seq<nat>, signature: seq<Byte>, letters: string)
    requires |signature| == |letters| == 4 && forall i :: 0 <= i < 4 ==> signature[i] == letters[i] as int
    ensures Lists(mem, tables, signature) <==> SomeSpells(mem, tables, letters)
  {
    forall i | 0 <= i < |tables|
      ensures Named(mem, tables[i], signature) <==> Spells(mem, tables[i], letters)
    {
      Spelled(mem, tables[i], signature, letters);
    }
  }

  predicate HasNumber(mem: Memory, at: nat, f: Field) {
    f.value < Pow256(f.size) && HasAt(mem, at, FieldBytes(f))
  }

  lemma NumberReadsBack(mem: Memory, at: nat, f: Field)
    requires HasNumber(mem, at, f)
    ensures Le(ReadBytes(mem, at, f.size)) == f.value
  {
    LeOfToLe(f.value, f.size);
  }

  /** Memory holds a root pointer and the root table that it leads to (sections 5.2.5.3
      and 5.2.8 of the ACPI Specification): the table's address 24 bytes into the one;
      in the other the length, in 4 bytes from the fourth on, and from byte 36 on the
      addresses of the tables, in 8 bytes each. */
  ghost predicate HoldsTables(mem: Memory, root: nat, xsdt: nat, tables: seq<nat>) {
    && root > 0 && xsdt > 0
    && HasNumber(mem, root + 24, Field(xsdt, 8))
    && HasNumber(mem, xsdt + 4, Field(36 + 8 * |tables|, 4))
    && forall i :: 0 <= i < |tables| ==> HasNumber(mem, xsdt + 36 + 8 * i, Field(tables[i], 8))
  }

  /** The tables listed are exactly those whose addresses are there. */
  lemma TablesAreThose(mem: Memory, root: nat, xsdt: nat, tables: seq<nat>)
    requires HoldsTables(mem, root, xsdt, tables)
    ensures ValidRoot(mem, root) && TablesListed(mem, root) == tables
  {
    RootReadsBack(mem, root, xsdt, Field(xsdt, 8), Field(36 + 8 * |tables|, 4));
    ListedAt(mem, root, xsdt, |tables|);
    forall i | 0 <= i < |tables|
      ensures TablesListed(mem, root)[i] == tables[i]
    {
      EntryReadsBack(mem, xsdt, i, Field(tables[i], 8));
    }
  }

  lemma RootReadsBack(mem: Memory, root: nat, xsdt: nat, address: Field, length: Field)
    requires address == Field(xsdt, 8) && HasNumber(mem, root + 24, address)
    requires length.size == 4 && HasNumber(mem, xsdt + 4, length)
    ensures XsdtAddress(mem, root) == xsdt && TableLength(mem, xsdt) == length.value
  {
    NumberReadsBack(mem, root + 24, address);
    NumberReadsBack(mem, xsdt + 4, length);
  }

  lemma EntryReadsBack(mem: Memory, xsdt: nat, i: nat, address: Field)
    requires address.size == 8 && HasNumber(mem, xsdt + 36 + 8 * i, address)
    ensures EntryAt(mem, xsdt, i) == address.value
  {
    NumberReadsBack(mem, xsdt + 36 + 8 * i, address);
  }

  /** There are none without a root pointer, or when it leads nowhere. */
  lemma NoTables(mem: Memory, root: nat)
    requires root == 0 || HasNumber(mem, root + 24, Field(0, 8))
    ensures ValidRoot(mem, root) && TablesListed(mem, root) == []
  {
    if root > 0 {
      NumberReadsBack(mem, root + 24, Field(0, 8));
    }
  }

  lemma ListedAt(mem: Memory, rsdp: nat, xsdt: nat, count: nat)
    requires ValidRoot(mem, rsdp) && rsdp != 0 && xsdt == XsdtAddress(mem, rsdp) != 0
    requires count == (TableLength(mem, xsdt) - SDT_HEADER_SIZE) / 8
    ensures |TablesListed(mem, rsdp)| == count
    ensures forall i :: 0 <= i < count ==> TablesListed(mem, rsdp)[i] == EntryAt(mem, xsdt, i)
  {
  }

  /** Looks through the first `count` addresses for a table with the signature. */
  method AnyNamed(mem: Memory, xsdt: nat, count: nat, signature: seq<Byte>) returns (found: bool)
    ensures found <==> exists i :: 0 <= i < count && Named(mem, EntryAt(mem, xsdt, i), signature)
  {
    for i := 0 to count
      invariant forall k :: 0 <= k < i ==> !Named(mem, EntryAt(mem, xsdt, k), signature)
    {
      if Named(mem, EntryAt(mem, xsdt, i), signature) {
        return true;
      }
    }
    return false;
  }

  /** On memory that holds a root table, whether some table in it spells "DMAR". */
  lemma DmarOfTables(mem: Memory, root: nat, xsdt: nat, tables: seq<nat>)
    requires HoldsTables(mem, root, xsdt, tables)
    ensures ValidRoot(mem, root)
    ensures Lists(mem, TablesListed(mem, root), DMAR) <==> SomeSpells(mem, tables, "DMAR")
  {
    TablesAreThose(mem, root, xsdt, tables);
    ListsSpelled(mem, tables, DMAR, "DMAR");
  }

  /** True exactly when some listed table is the one for DMA remapping. */
  method AcpiDmarPresent(mem: Memory, rsdp: nat) returns (present: bool)
    requires ValidRoot(mem, rsdp)
    ensures present <==> Lists(mem, TablesListed(mem, rsdp), DMAR)
    ensures forall xsdt, tables :: HoldsTables(mem, rsdp, xsdt, tables) ==>
      (present <==> SomeSpells(mem, tables, "DMAR"))
  {
    forall xsdt, tables | HoldsTables(mem, rsdp, xsdt, tables)
      ensures Lists(mem, TablesListed(mem, rsdp), DMAR) <==> SomeSpells(mem, tables, "DMAR")
    {
      DmarOfTables(mem, rsdp, xsdt, tables);
    }
    if rsdp == 0 {
      return false;
    }
    var xsdt := XsdtAddress(mem, rsdp);
    if xsdt == 0 {
      return false;
    }
    var count := (TableLength(mem, xsdt) - SDT_HEADER_SIZE) / 8;
    ListedAt(mem, rsdp, xsdt, count);
    present := AnyNamed(mem, xsdt, count, DMAR);
  }

  // ---------------------------------------------------------------------
  // AArch64: the distributor and the SMMU
  // ---------------------------------------------------------------------

  datatype Discovery = Discovery(gicdBase: Option<nat>, smmuPresent: bool)

  function From(mem: Memory, table: nat): Memory {
    i => mem(table + i)
  }

  /** The distributor that the last interrupt controller table names. */
  function LastDistributor(mem: Memory, tables: seq<nat>): Option<nat>
    decreases |tables|
  {
    if tables == [] then None
    else
      var last := tables[|tables| - 1];
      if Named(mem, last, MADT) then Find(From(mem, last), FIRST_ENTRY, TableLength(mem, last))
      else LastDistributor(mem, tables[..|tables| - 1])
  }

  ghost predicate ShortMadts(mem: Memory, tables: seq<nat>) {
    forall i :: 0 <= i < |tables| && Named(mem, tables[i], MADT) ==> TableLength(mem, tables[i]) <= MAX_LENGTH
  }

  /** What the tables that were looked at tell. */
  ghost predicate Tells(mem: Memory, tables: seq<nat>, result: Discovery) {
    && result.gicdBase == LastDistributor(mem, tables)
    && (result.smmuPresent <==> Lists(mem, tables, IORT))
  }

  lemma TellsNext(mem: Memory, tables: seq<nat>, table: nat, before: Discovery, after: Discovery)
    requires Tells(mem, tables, before)
    requires after == if Named(mem, table, MADT)
        then before.(gicdBase := Find(From(mem, table), FIRST_ENTRY, TableLength(mem, table)))
        else if Named(mem, table, IORT) then before.(smmuPresent := true) else before
    ensures Tells(mem, tables + [table], after)
  {
    var more := tables + [table];
    assert more[..|tables|] == tables;
    assert MADT[0] != IORT[0];
    if Lists(mem, tables, IORT) {
      var i :| 0 <= i < |tables| && Named(mem, tables[i], IORT);
      assert Named(mem, more[i], IORT);
    }
    if Named(mem, table, IORT) {
      assert Named(mem, more[|tables|], IORT);
    }
  }

  /** One table of the list. */
  method Examine(mem: Memory, table: nat, before: Discovery) returns (after: Discovery)
    requires Named(mem, table, MADT) ==> TableLength(mem, table) <= MAX_LENGTH
    ensures after == if Named(mem, table, MADT)
        then before.(gicdBase := Find(From(mem, table), FIRST_ENTRY, TableLength(mem, table)))
        else if Named(mem, table, IORT) then before.(smmuPresent := true) else before
  {
    after := before;
    if Named(mem, table, MADT) {
      var base := FindGicdInMadt(From(mem, table), TableLength(mem, table));
      after := before.(gicdBase := base);
    } else if Named(mem, table, IORT) {
      after := before.(smmuPresent := true);
    }
  }

  /** A distributor is found only if some interrupt controller table is listed. */
  lemma {:induction false} DistributorNeedsMadt(mem: Memory, tables: seq<nat>)
    ensures LastDistributor(mem, tables).Some? ==> Lists(mem, tables, MADT)
    decreases |tables|
  {
    if tables != [] && !Named(mem, tables[|tables| - 1], MADT) {
      DistributorNeedsMadt(mem, tables[..|tables| - 1]);
    }
  }

  /** An interrupt controller table at an address: its length, in 4 bytes from the fourth
      on, and its entries from byte 44 on. */
  ghost predicate HoldsMadt(mem: Memory, table: nat, entries: seq<Entry>) {
    && AllOk(entries)
    && HasNumber(mem, table + 4, Field(44 + |EncodeAll(entries)|, 4))
    && HasAt(mem, table + 44, EncodeAll(entries))
  }

  /** What is discovered among the tables: the SMMU exactly if one spells "IORT"; no
      distributor if none spells "APIC"; otherwise the first one that the last such
      table names. */
  ghost predicate DiscoveredIn(mem: Memory, tables: seq<nat>, r: Discovery) {
    && (r.smmuPresent <==> SomeSpells(mem, tables, "IORT"))
    && (!SomeSpells(mem, tables, "APIC") ==> r.gicdBase == None)
    && forall k: nat, entries :: LastMadt(mem, tables, k, entries) ==> r.gicdBase == FirstBase(entries)
  }

  ghost predicate LastMadt(mem: Memory, tables: seq<nat>, k: nat, entries: seq<Entry>) {
    && k < |tables| && Spells(mem, tables[k], "APIC") && HoldsMadt(mem, tables[k], entries)
    && !SomeSpells(mem, tables[k + 1..], "APIC")
  }

  lemma FromHas(mem: Memory, table: nat, at: nat, s: seq<Byte>)
    requires HasAt(mem, table + at, s)
    ensures HasAt(From(mem, table), at, s)
  {
    assert ReadBytes(From(mem, table), at, |s|) == ReadBytes(mem, table + at, |s|);
  }

  lemma MadtReadsBack(mem: Memory, table: nat, entries: seq<Entry>)
    requires HoldsMadt(mem, table, entries)
    ensures Find(From(mem, table), FIRST_ENTRY, TableLength(mem, table)) == FirstBase(entries)
  {
    var s := EncodeAll(entries);
    var length := Field(44 + |s|, 4);
    NumberReadsBack(mem, table + 4, length);
    FromHas(mem, table, 44, s);
    FindsFirstDistributor(From(mem, table), length.value, entries);
  }

  /** The last interrupt controller table decides. */
  lemma {:induction false} LastDecides(mem: Memory, tables: seq<nat>, k: nat)
    requires k < |tables| && Named(mem, tables[k], MADT)
    requires forall i :: k < i < |tables| ==> !Named(mem, tables[i], MADT)
    ensures LastDistributor(mem, tables) == Find(From(mem, tables[k]), FIRST_ENTRY, TableLength(mem, tables[k]))
    decreases |tables|
  {
    if k < |tables| - 1 {
      LastDecides(mem, tables[..|tables| - 1], k);
    }
  }

  lemma DiscoveryOfTables(mem: Memory, tables: seq<nat>, r: Discovery)
    requires Tells(mem, tables, r)
    ensures DiscoveredIn(mem, tables, r)
  {
    ListsSpelled(mem, tables, IORT, "IORT");
    ListsSpelled(mem, tables, MADT, "APIC");
    DistributorNeedsMadt(mem, tables);
    forall k: nat, entries | LastMadt(mem, tables, k, entries)
      ensures r.gicdBase == FirstBase(entries)
    {
      forall i | 0 <= i < |tables|
        ensures Named(mem, tables[i], MADT) <==> Spells(mem, tables[i], "APIC")
      {
        Spelled(mem, tables[i], MADT, "APIC");
      }
      forall i | k < i < |tables|
        ensures !Named(mem, tables[i], MADT)
      {
        assert tables[k + 1..][i - k - 1] == tables[i];
      }
      LastDecides(mem, tables, k);
      MadtReadsBack(mem, tables[k], entries);
    }
  }

  /** Examines the tables of the list, one by one. */
  method ExamineAll(mem: Memory, xsdt: nat, count: nat, ghost tables: seq<nat>) returns (result: Discovery)
    requires |tables| == count && forall i :: 0 <= i < count ==> tables[i] == EntryAt(mem, xsdt, i)
    requires ShortMadts(mem, tables)
    ensures Tells(mem, tables, result)
  {
    result := Discovery(None, false);
    for i := 0 to count
      invariant Tells(mem, tables[..i], result)
    {
      ghost var before := result;
      result := Examine(mem, EntryAt(mem, xsdt, i), result);
      TellsNext(mem, tables[..i], tables[i], before, result);
      assert tables[..i + 1] == tables[..i] + [tables[i]];
    }
    assert tables[..count] == tables;
  }

  /** The SMMU is found exactly when a table describes it. Of several interrupt
      controller tables the last one decides, even if it names no distributor. */
  method AcpiDiscover(mem: Memory, rsdp: nat) returns (result: Discovery)
    requires ValidRoot(mem, rsdp) && ShortMadts(mem, TablesListed(mem, rsdp))
    ensures Tells(mem, TablesListed(mem, rsdp), result)
    ensures result.gicdBase.Some? ==> Lists(mem, TablesListed(mem, rsdp), MADT)
    ensures forall xsdt, tables :: HoldsTables(mem, rsdp, xsdt, tables) ==> DiscoveredIn(mem, tables, result)
  {
    DistributorNeedsMadt(mem, TablesListed(mem, rsdp));
    result := Discovery(None, false);
    if rsdp != 0 {
      var xsdt := XsdtAddress(mem, rsdp);
      if xsdt != 0 {
        var count := (TableLength(mem, xsdt) - SDT_HEADER_SIZE) / 8;
        ListedAt(mem, rsdp, xsdt, count);
        result := ExamineAll(mem, xsdt, count, TablesListed(mem, rsdp));
      }
    }
    forall xsdt, tables | HoldsTables(mem, rsdp, xsdt, tables)
      ensures DiscoveredIn(mem, tables, result)
    {
      TablesAreThose(mem, rsdp, xsdt, tables);
      DiscoveryOfTables(mem, tables, result);
    }
  }
}
