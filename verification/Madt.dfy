/** The ACPI interrupt controller table (section 5.2.12 of the ACPI Specification)
    and the search for the GIC distributor in it. */
module Madt {
  import opened Words
  import opened Bytes
  import opened Hal

  const SDT_HEADER_SIZE: nat := 36
  const MADT_FIXED_FIELDS_SIZE: nat := 8
  const FIRST_ENTRY: nat := SDT_HEADER_SIZE + MADT_FIXED_FIELDS_SIZE
  const GIC_DISTRIBUTOR: nat := 0x0C
  const BASE_IN_ENTRY: nat := 8

  /** The longest table for which the 32-bit offset cannot wrap. */
  const MAX_LENGTH: nat := 0xFFFF_FF01

  /** Memory from the start of the table on. */
  type Memory = nat -> Byte

  function ReadBytes(mem: Memory, at: nat, k: nat): (s: seq<Byte>)
    ensures |s| == k
    ensures forall i :: 0 <= i < k ==> s[i] == mem(at + i)
  {
    seq(k, i requires 0 <= i => mem(at + i))
  }

  /** Walks the entries from `offset` on, by their length bytes. */
  function Find(mem: Memory, offset: nat, length: nat): Option<nat>
    decreases if offset < length then length - offset else 0
  {
    if offset >= length then None
    else if mem(offset) == GIC_DISTRIBUTOR then Some(Le(ReadBytes(mem, offset + BASE_IN_ENTRY, 8)))
    else if mem(offset + 1) == 0 then None
    else Find(mem, offset + mem(offset + 1), length)
  }

  /** Ends on any memory whatever: an entry without length stops the walk, any other
      moves it on, and for tables up to this length the sum does not wrap. */
  method FindGicdInMadt(mem: Memory, length: nat) returns (base: Option<nat>)
    requires length <= MAX_LENGTH
    ensures base == Find(mem, 44, length)
  {
    var offset := FIRST_ENTRY;
    while offset < length
      invariant Find(mem, offset, length) == Find(mem, FIRST_ENTRY, length)
      decreases length - offset
    {
      var entryType, entryLength := mem(offset), mem(offset + 1);
      if entryType == GIC_DISTRIBUTOR {
        return Some(Le(ReadBytes(mem, offset + BASE_IN_ENTRY, 8)));
      }
      if entryLength == 0 {
        break;
      }
      offset := (offset + entryLength) % U32_SIZE;
    }
    return None;
  }

  // ---------------------------------------------------------------------
  // When the walk ends
  // ---------------------------------------------------------------------

  /** Whether the walk goes on from an offset, and where, in 32 bits. */
  predicate GoesOn(mem: Memory, offset: nat, length: nat) {
    offset < length && mem(offset) != GIC_DISTRIBUTOR && mem(offset + 1) != 0
  }

  function Next(mem: Memory, offset: nat): nat {
    (offset + mem(offset + 1)) % U32_SIZE
  }

  /** The walk from an offset ends within `turns` turns. */
  predicate EndsWithin(mem: Memory, offset: nat, length: nat, turns: nat)
    decreases turns
  {
    GoesOn(mem, offset, length) ==> turns > 0 && EndsWithin(mem, Next(mem, offset), length, turns - 1)
  }

  ghost predicate WalkEnds(mem: Memory, length: nat) {
    exists turns :: EndsWithin(mem, 44, length, turns)
  }

  lemma {:induction false} ShortTableEnds(mem: Memory, offset: nat, length: nat, turns: nat)
    requires length <= MAX_LENGTH && length <= offset + turns
    ensures EndsWithin(mem, offset, length, turns)
    decreases turns
  {
    if GoesOn(mem, offset, length) {
      ShortTableEnds(mem, Next(mem, offset), length, turns - 1);
    }
  }

  /** Entries of one byte, but one of 255 bytes whose end is 2^32. */
  function Cycle(i: nat): Byte {
    if i == MAX_LENGTH + 1 then 255 else 1
  }

  lemma {:induction false} CycleGoesOn(offset: nat, length: nat, turns: nat)
    requires offset <= MAX_LENGTH < length
    ensures !EndsWithin(Cycle, offset, length, turns)
    decreases turns
  {
    assert GoesOn(Cycle, offset, length);
    if turns > 0 {
      CycleGoesOn(Next(Cycle, offset), length, turns - 1);
    }
  }

  /** The walk ends on every memory exactly for tables up to that length; a longer
      one can send it round for ever. */
  lemma WalkEndsExactly(length: nat)
    ensures (forall mem :: WalkEnds(mem, length)) <==> length <= 0xFFFF_FF01
  {
    if length <= MAX_LENGTH {
      forall mem
        ensures WalkEnds(mem, length)
      {
        ShortTableEnds(mem, FIRST_ENTRY, length, length);
      }
    } else {
      forall turns: nat
        ensures !EndsWithin(Cycle, FIRST_ENTRY, length, turns)
      {
        CycleGoesOn(FIRST_ENTRY, length, turns);
      }
      assert !WalkEnds(Cycle, length);
    }
  }

  // ---------------------------------------------------------------------
  // Encoded tables
  // ---------------------------------------------------------------------

  /** A distributor, or an entry of another kind with its bytes. */
  datatype Entry =
    | Distributor(reserved: seq<Byte>, base: nat, rest: seq<Byte>)
    | Other(kind: Byte, body: seq<Byte>)
  {
    ghost predicate Ok() {
      match this
      case Distributor(reserved, base, rest) => |reserved| == 6 && base < Pow256(8) && |rest| == 8
      case Other(kind, body) => kind != GIC_DISTRIBUTOR && |body| <= 253
    }

    function Encode(): (s: seq<Byte>)
      requires Ok()
      ensures 2 <= |s| < 256 && s[1] == |s|
      ensures s[0] == if Distributor? then 0x0C else kind
    {
      match this
      case Distributor(reserved, base, rest) => [0x0C, 24] + (reserved + (FieldBytes(Field(base, 8)) + rest))
      case Other(kind, body) => [kind, 2 + |body|] + body
    }
  }

  ghost predicate AllOk(entries: seq<Entry>) {
    forall i :: 0 <= i < |entries| ==> entries[i].Ok()
  }

  function EncodeAll(entries: seq<Entry>): seq<Byte>
    requires AllOk(entries)
    decreases |entries|
  {
    if entries == [] then [] else entries[0].Encode() + EncodeAll(entries[1..])
  }

  function FirstBase(entries: seq<Entry>): Option<nat>
    decreases |entries|
  {
    if entries == [] then None
    else if entries[0].Distributor? then Some(entries[0].base)
    else FirstBase(entries[1..])
  }

  predicate HasAt(mem: Memory, at: nat, s: seq<Byte>) {
    ReadBytes(mem, at, |s|) == s
  }

  lemma HasPart(mem: Memory, at: nat, a: seq<Byte>, b: seq<Byte>)
    requires HasAt(mem, at, a + b)
    ensures HasAt(mem, at, a) && HasAt(mem, at + |a|, b)
  {
    var all := ReadBytes(mem, at, |a| + |b|);
    forall i | 0 <= i < |a|
      ensures mem(at + i) == a[i]
    {
      assert all[i] == (a + b)[i];
    }
    forall i | 0 <= i < |b|
      ensures mem(at + |a| + i) == b[i]
    {
      assert all[|a| + i] == (a + b)[|a| + i];
    }
  }

  lemma BaseReadsBack(mem: Memory, at: nat, e: Entry)
    requires e.Ok() && e.Distributor? && HasAt(mem, at, e.Encode())
    ensures Le(ReadBytes(mem, at + BASE_IN_ENTRY, 8)) == e.base
  {
    var field := Field(e.base, 8);
    var tail := FieldBytes(field) + e.rest;
    HasPart(mem, at, [0x0C, 24], e.reserved + tail);
    HasPart(mem, at + 2, e.reserved, tail);
    HasPart(mem, at + 8, FieldBytes(field), e.rest);
    assert ReadBytes(mem, at + 8, 8) == FieldBytes(field);
    LeOfToLe(field.value, field.size);
  }

  /** What stops the walk: the end of the table, or an entry without length that is
      not a distributor. */
  ghost predicate Ends(mem: Memory, at: nat, length: nat) {
    at >= length || (mem(at) != GIC_DISTRIBUTOR && mem(at + 1) == 0)
  }

  lemma FindStep(mem: Memory, at: nat, length: nat, e: Entry)
    requires e.Ok() && HasAt(mem, at, e.Encode()) && at < length
    ensures Find(mem, at, length) == if e.Distributor? then Some(e.base) else Find(mem, at + |e.Encode()|, length)
  {
    var head := e.Encode();
    assert ReadBytes(mem, at, |head|)[0] == mem(at) && ReadBytes(mem, at, |head|)[1] == mem(at + 1);
    if e.Distributor? {
      BaseReadsBack(mem, at, e);
    }
  }

  lemma EncodeAllCons(entries: seq<Entry>)
    requires entries != [] && AllOk(entries)
    ensures AllOk(entries[1..]) && EncodeAll(entries) == entries[0].Encode() + EncodeAll(entries[1..])
  {
  }

  /** The first entry is read, and the rest begins where it ends. */
  lemma FindHead(mem: Memory, at: nat, length: nat, entries: seq<Entry>) returns (next: nat)
    requires entries != [] && AllOk(entries)
    requires HasAt(mem, at, EncodeAll(entries)) && at + |EncodeAll(entries)| <= length
    ensures at < next && next + |EncodeAll(entries[1..])| == at + |EncodeAll(entries)|
    ensures HasAt(mem, next, EncodeAll(entries[1..]))
    ensures Find(mem, at, length) == if entries[0].Distributor? then Some(entries[0].base) else Find(mem, next, length)
  {
    var head, tail := entries[0].Encode(), EncodeAll(entries[1..]);
    next := at + |head|;
    assert EncodeAll(entries) == head + tail by { EncodeAllCons(entries); }
    HasPart(mem, at, head, tail);
    FindStep(mem, at, length, entries[0]);
  }

  lemma {:induction false} FindsFirstFrom(mem: Memory, at: nat, length: nat, entries: seq<Entry>)
    requires AllOk(entries)
    requires HasAt(mem, at, EncodeAll(entries)) && at + |EncodeAll(entries)| <= length
    requires Ends(mem, at + |EncodeAll(entries)|, length)
    ensures Find(mem, at, length) == FirstBase(entries)
    decreases |entries|
  {
    if entries != [] {
      var next := FindHead(mem, at, length, entries);
      if entries[0].Other? {
        FindsFirstFrom(mem, next, length, entries[1..]);
      }
    }
  }

  /** In a table of well-formed entries the search returns the base of the first
      distributor, or nothing when there is none; what follows an entry without
      length is not seen. */
  lemma FindsFirstDistributor(mem: Memory, length: nat, entries: seq<Entry>)
    requires AllOk(entries)
    requires HasAt(mem, 44, EncodeAll(entries)) && 44 + |EncodeAll(entries)| <= length
    requires Ends(mem, 44 + |EncodeAll(entries)|, length)
    ensures Find(mem, FIRST_ENTRY, length) == FirstBase(entries)
    ensures Find(mem, FIRST_ENTRY, length).None? <==> forall e :: e in entries ==> e.Other?
  {
    FindsFirstFrom(mem, FIRST_ENTRY, length, entries);
    NoBase(entries);
  }

  lemma {:induction false} NoBase(entries: seq<Entry>)
    ensures FirstBase(entries).None? <==> forall e :: e in entries ==> e.Other?
    decreases |entries|
  {
    if entries != [] && entries[0].Other? {
      NoBase(entries[1..]);
      assert entries == [entries[0]] + entries[1..];
    }
  }
}
