/** The devicetree walker itself: a cursor over the bytes of the blob. */
module FdtWalk {
  import opened Words
  import opened Bits
  import opened Hal
  import opened Bytes
  import opened FdtFormat
  import opened FdtScan

  const QEMU_VIRT_DEFAULT_PLIC_BASE: nat := 0x0c00_0000
  const QEMU_VIRT_DEFAULT_MEMORY_BASE: nat := 0x8000_0000
  const QEMU_VIRT_DEFAULT_MEMORY_SIZE: nat := 128 * 1024 * 1024

  function Aligned(offset: nat): nat {
    (offset + 3) / 4 * 4
  }

  ghost function NamesIn(blob: seq<Byte>, strings: nat): Names {
    nameOff => CStr(blob, strings + nameOff)
  }

  // ---------------------------------------------------------------------
  // Reading the front of a structure block
  // ---------------------------------------------------------------------

  /** From `offset` to `end` the blob holds the tokens `ts` and the end marker. */
  ghost predicate TokensAt(blob: seq<Byte>, offset: nat, end: nat, ts: seq<Token>) {
    && offset % 4 == 0 && offset <= end <= |blob| < U32_SIZE
    && blob[offset..end] == EncodeAll(ts) + Be32(FDT_END)
  }

  function Code(t: Token): nat {
    match t
    case Begin(_) => FDT_BEGIN_NODE
    case End => FDT_END_NODE
    case Prop(_, _) => FDT_PROP
    case Nop => FDT_NOP
  }

  lemma EndAt(blob: seq<Byte>, offset: nat, end: nat)
    requires TokensAt(blob, offset, end, [])
    ensures offset + 4 == end && ReadU32(blob, offset) == FDT_END
  {
    assert blob[offset..end] == Be32(FDT_END);
    WordOfBe32(FDT_END);
  }

  lemma SliceOfSlice(blob: seq<Byte>, offset: nat, end: nat, a: seq<Byte>, b: seq<Byte>)
    requires offset <= end <= |blob| && blob[offset..end] == a + b
    ensures offset + |a| <= end && blob[offset..offset + |a|] == a && blob[offset + |a|..end] == b
  {
    assert blob[offset..end][..|a|] == a;
    assert blob[offset..end][|a|..] == b;
  }

  /** The first token is where the cursor is, and the rest is behind it. */
  lemma FirstAt(blob: seq<Byte>, offset: nat, end: nat, ts: seq<Token>)
    requires TokensAt(blob, offset, end, ts) && ts != []
    ensures var next := offset + |Encode(ts[0])|;
      && next <= end && blob[offset..next] == Encode(ts[0])
      && TokensAt(blob, next, end, ts[1..])
  {
    FirstOfAll(ts);
    SliceOfSlice(blob, offset, end, Encode(ts[0]), EncodeAll(ts[1..]) + Be32(FDT_END));
    SumAligned(offset, |Encode(ts[0])|);
  }

  lemma FirstOfAll(ts: seq<Token>)
    requires ts != []
    ensures EncodeAll(ts) + Be32(FDT_END) == Encode(ts[0]) + (EncodeAll(ts[1..]) + Be32(FDT_END))
  {
    var first, others := Encode(ts[0]), EncodeAll(ts[1..]);
    assert EncodeAll(ts) == first + others;
    Associates(first, others, Be32(FDT_END));
  }

  lemma SumAligned(a: nat, b: nat)
    requires a % 4 == 0 && b % 4 == 0
    ensures (a + b) % 4 == 0
  {
  }

  lemma Associates(a: seq<Byte>, b: seq<Byte>, c: seq<Byte>)
    ensures (a + b) + c == a + (b + c)
  {
  }

  lemma SubSlice(blob: seq<Byte>, offset: nat, next: nat, i: nat, j: nat)
    requires offset <= next <= |blob| && i <= j <= next - offset
    ensures blob[offset + i..offset + j] == blob[offset..next][i..j]
  {
    var outer := blob[offset..next];
    forall k | 0 <= k < j - i
      ensures blob[offset + i..offset + j][k] == outer[i..j][k]
    {
      assert outer[i + k] == blob[offset + (i + k)];
    }
  }

  lemma CodeAt(blob: seq<Byte>, offset: nat, next: nat, t: Token)
    requires offset <= next <= |blob| && blob[offset..next] == Encode(t)
    ensures offset + 4 <= next && ReadU32(blob, offset) == Code(t)
  {
    assert Encode(t)[..4] == Be32(Code(t));
    assert blob[offset..offset + 4] == blob[offset..next][..4];
    WordOfBe32(Code(t));
  }

  lemma {:induction false} CStrIs(blob: seq<Byte>, offset: nat, name: seq<Byte>)
    requires NoZero(name) && offset + |name| < |blob|
    requires blob[offset..offset + |name|] == name && blob[offset + |name|] == 0
    ensures CStr(blob, offset) == name
    decreases |name|
  {
    if name != [] {
      assert blob[offset] == blob[offset..offset + |name|][0] == name[0];
      assert blob[offset + 1..offset + 1 + |name[1..]|] == name[1..] by {
        assert blob[offset + 1..offset + |name|] == blob[offset..offset + |name|][1..];
      }
      CStrIs(blob, offset + 1, name[1..]);
    }
  }

  lemma PaddedLength(offset: nat, len: nat)
    requires offset % 4 == 0
    ensures Aligned(offset + len) == offset + len + (4 - len % 4) % 4
  {
  }

  lemma BeginParts(name: seq<Byte>)
    ensures var e := Encode(Begin(name));
      && |e| == 4 + |name| + 1 + (4 - (|name| + 1) % 4) % 4
      && e[4..4 + |name|] == name && e[4 + |name|] == 0
  {
  }

  lemma BeginAt(blob: seq<Byte>, offset: nat, next: nat, name: seq<Byte>)
    requires offset % 4 == 0 && offset <= next <= |blob| && NoZero(name)
    requires blob[offset..next] == Encode(Begin(name)) && next == offset + |Encode(Begin(name))|
    ensures Terminated(blob, offset + 4) && CStr(blob, offset + 4) == name
    ensures Aligned(offset + 4 + |name| + 1) == next
  {
    var k := offset + 4 + |name|;
    BeginParts(name);
    SubSlice(blob, offset, next, 4, 4 + |name|);
    assert blob[k] == blob[offset..next][4 + |name|] == 0;
    CStrIs(blob, offset + 4, name);
    PaddedLength(offset + 4, |name| + 1);
  }

  lemma PropParts(nameOff: nat, value: seq<Byte>)
    ensures var e := Encode(Token.Prop(nameOff, value));
      && |e| == 12 + |value| + (4 - |value| % 4) % 4
      && e[4..8] == Be32(|value|) && e[8..12] == Be32(nameOff) && e[12..12 + |value|] == value
  {
  }

  lemma PropAt(blob: seq<Byte>, offset: nat, next: nat, nameOff: nat, value: seq<Byte>)
    requires offset % 4 == 0 && offset <= next <= |blob| && |value| < U32_SIZE && nameOff < U32_SIZE
    requires var e := Encode(Token.Prop(nameOff, value)); blob[offset..next] == e && next == offset + |e|
    ensures offset + 12 + |value| <= next && Aligned(offset + 12 + |value|) == next
    ensures ReadU32(blob, offset + 4) == |value| && ReadU32(blob, offset + 8) == nameOff
    ensures blob[offset + 12..offset + 12 + |value|] == value
  {
    PropParts(nameOff, value);
    SubSlice(blob, offset, next, 4, 8);
    SubSlice(blob, offset, next, 8, 12);
    SubSlice(blob, offset, next, 12, 12 + |value|);
    WordOfBe32(|value|);
    WordOfBe32(nameOff);
    PaddedLength(offset + 12, |value|);
  }

  /** What the walk sees at the cursor: the end marker, or the code of the first
      token, whose bytes end at `next`. */
  lemma FrontAt(blob: seq<Byte>, offset: nat, end: nat, ts: seq<Token>) returns (next: nat)
    requires TokensAt(blob, offset, end, ts)
    ensures offset + 4 <= end
    ensures if ts == [] then ReadU32(blob, offset) == FDT_END
      else
        && next == offset + |Encode(ts[0])| && offset < next && next + 4 <= end
        && blob[offset..next] == Encode(ts[0]) && ReadU32(blob, offset) == Code(ts[0])
        && TokensAt(blob, next, end, ts[1..])
  {
    if ts == [] {
      EndAt(blob, offset, end);
      next := end;
    } else {
      FirstAt(blob, offset, end, ts);
      next := offset + |Encode(ts[0])|;
      CodeAt(blob, offset, next, ts[0]);
      assert |blob[next..end]| >= 4;
    }
  }

  // ---------------------------------------------------------------------
  // The walker
  // ---------------------------------------------------------------------

  /** The 32-bit complement of 3. */
  const FOUR_MASK: nat := 0xFFFF_FFFC

  lemma FourMask(x: nat)
    requires x < U32_SIZE
    ensures And(x, FOUR_MASK) == x / 4 * 4
  {
    var k := ExponentOf(4);
    var n := ExponentOf(0x4000_0000);
    MaskAt(x, k, n, 4, 0x4000_0000, FOUR_MASK);
    FieldIsWhole(x / 4, 0x4000_0000);
  }

  lemma AlignIs(offset: nat)
    requires offset + 3 < U32_SIZE
    ensures And(offset + 3, FOUR_MASK) == Aligned(offset)
  {
    FourMask(offset + 3);
  }

  class FdtWalker {
    const blob: seq<Byte>
    const structEnd: nat
    const stringsStart: nat
    var offset: nat

    constructor (blob: seq<Byte>)
      requires |blob| >= 40
      ensures this.blob == blob && offset == ReadU32(blob, 8)
      ensures structEnd == ReadU32(blob, 8) + ReadU32(blob, 36) && stringsStart == ReadU32(blob, 12)
    {
      this.blob := blob;
      structEnd := ReadU32(blob, 8) + ReadU32(blob, 36);
      stringsStart := ReadU32(blob, 12);
      offset := ReadU32(blob, 8);
    }

    method ReadCstrAt(at: nat) returns (s: seq<Byte>)
      requires Terminated(blob, at)
      ensures s == CStr(blob, at)
    {
      ghost var k :| at <= k < |blob| && blob[k] == 0;
      var len := 0;
      s := [];
      while blob[at + len] != 0
        invariant at + len <= k
        invariant CStr(blob, at) == s + CStr(blob, at + len)
        decreases k - at - len
      {
        s := s + [blob[at + len]];
        len := len + 1;
      }
    }

    /** Rounds the cursor up to a multiple of four. */
    method AlignOffset()
      requires offset + 3 < U32_SIZE
      modifies this
      ensures offset == Aligned(old(offset))
    {
      AlignIs(offset);
      offset := And(offset + 3, FOUR_MASK);
    }

    /** Reads the name of a node and moves past it. */
    method TakeName(ghost node: seq<Byte>, ghost next: nat) returns (name: seq<Byte>)
      requires Terminated(blob, offset) && CStr(blob, offset) == node
      requires Aligned(offset + |node| + 1) == next && next + 4 <= U32_SIZE
      modifies this
      ensures name == node && offset == next
    {
      name := ReadCstrAt(offset);
      offset := offset + |name| + 1;
      AlignOffset();
    }

    /** Reads a property and moves past it. */
    method TakeProp(ghost at: nat, ghost held: seq<Byte>, ghost next: nat)
      returns (name: seq<Byte>, value: seq<Byte>)
      requires offset + 8 + |held| <= next <= |blob| && next + 4 <= U32_SIZE
      requires ReadU32(blob, offset) == |held| && ReadU32(blob, offset + 4) == at
      requires blob[offset + 8..offset + 8 + |held|] == held && Aligned(offset + 8 + |held|) == next
      requires Terminated(blob, stringsStart + at)
      modifies this
      ensures value == held && name == CStr(blob, stringsStart + at) && offset == next
    {
      var len := ReadU32(blob, offset);
      var nameOff := ReadU32(blob, offset + 4);
      var valueOffset := offset + 8;
      offset := valueOffset + len;
      AlignOffset();
      name := ReadCstrAt(stringsStart + nameOff);
      value := blob[valueOffset..valueOffset + len];
    }
  }

  method AnyIommuWindow(value: seq<Byte>) returns (b: bool)
    ensures b <==> MentionsIommu(value)
  {
    var i := 0;
    while i + 5 <= |value|
      invariant i <= |value| + 1
      invariant forall k: nat :: k < i ==> !WindowIsIommu(value, k)
    {
      if value[i..i + 5] == IOMMU {
        assert WindowIsIommu(value, i);
        return true;
      }
      i := i + 1;
    }
    return false;
  }

  /** The 64-bit value at `i`, put together with a shift and an or. */
  method ReadPair(value: seq<Byte>, i: nat) returns (n: nat)
    requires i + 8 <= |value|
    ensures n == Pair(value, i)
  {
    var hi, lo := ReadU32(value, i), ReadU32(value, i + 4);
    WidePowers();
    OrDisjoint(hi, 32, lo);
    n := Or(hi * 0x1_0000_0000, lo);
  }

  /** The part of the walk that looks at one property. */
  method TakeNote(current: CurrentNode, name: seq<Byte>, value: seq<Byte>, found: Discovery) returns (r: Discovery)
    ensures r == Note(current, name, value, found)
  {
    r := found;
    match current
    case MemoryNode =>
      if name == REG && |value| >= 16 {
        var base := ReadPair(value, 0);
        var size := ReadPair(value, 8);
        r := r.(memoryBase := Some(base), memorySize := Some(size));
      }
    case PlicNode =>
      if name == REG && |value| >= 8 {
        var base := ReadPair(value, 0);
        r := r.(plicBase := Some(base));
      }
    case PossibleIommu =>
      if name == COMPATIBLE {
        var iommu := AnyIommuWindow(value);
        if iommu {
          r := r.(iommuPresent := true);
        }
      }
    case NoNode =>
  }

  /** A node begins: unless one is being tracked, its name decides. */
  method TakeBegin(w: FdtWalker, st: Scan, ghost node: seq<Byte>, ghost next: nat) returns (st': Scan)
    requires Terminated(w.blob, w.offset) && CStr(w.blob, w.offset) == node
    requires Aligned(w.offset + |node| + 1) == next && next + 4 <= U32_SIZE
    modifies w
    ensures w.offset == next
    ensures st' == Step(NamesIn(w.blob, w.stringsStart), st, Begin(node))
  {
    var name := w.TakeName(node, next);
    var depth := st.depth + 1;
    st' := st.(depth := depth);
    if st.current == NoNode {
      if MEMORY_AT <= name || name == MEMORY {
        st' := st'.(current := MemoryNode, currentDepth := depth);
      } else if PLIC_AT <= name {
        st' := st'.(current := PlicNode, currentDepth := depth);
      } else {
        st' := st'.(current := PossibleIommu, currentDepth := depth);
      }
    }
  }

  /** A property: it is noted for what is being tracked. */
  method TakeProperty(w: FdtWalker, st: Scan, ghost at: nat, ghost held: seq<Byte>, ghost next: nat)
    returns (st': Scan)
    requires w.offset + 8 + |held| <= next <= |w.blob| && next + 4 <= U32_SIZE
    requires ReadU32(w.blob, w.offset) == |held| && ReadU32(w.blob, w.offset + 4) == at
    requires w.blob[w.offset + 8..w.offset + 8 + |held|] == held && Aligned(w.offset + 8 + |held|) == next
    requires Terminated(w.blob, w.stringsStart + at)
    modifies w
    ensures w.offset == next
    ensures st' == Step(NamesIn(w.blob, w.stringsStart), st, Token.Prop(at, held))
  {
    var name, value := w.TakeProp(at, held, next);
    var found := TakeNote(st.current, name, value, st.found);
    st' := st.(found := found);
  }

  /** One turn of the walk's loop on the token `t`, ending behind it. */
  method TakeToken(w: FdtWalker, st: Scan, ghost t: Token, ghost next: nat) returns (st': Scan)
    requires w.offset % 4 == 0 && w.offset <= next <= |w.blob| < U32_SIZE && next + 4 <= U32_SIZE
    requires GoodToken(w.blob, w.stringsStart, t)
    requires w.blob[w.offset..next] == Encode(t) && next == w.offset + |Encode(t)|
    modifies w
    ensures w.offset == next
    ensures st' == Step(NamesIn(w.blob, w.stringsStart), st, t)
  {
    ghost var start := w.offset;
    CodeAt(w.blob, start, next, t);
    match t {
      case Begin(name) => BeginAt(w.blob, start, next, name);
      case Prop(nameOff, value) => PropAt(w.blob, start, next, nameOff, value);
      case _ =>
    }
    var token := ReadU32(w.blob, w.offset);
    w.offset := w.offset + 4;
    st' := st;
    if token == FDT_BEGIN_NODE {
      st' := TakeBegin(w, st, t.name, next);
    } else if token == FDT_END_NODE {
      if st.depth == st.currentDepth {
        st' := st'.(current := NoNode, currentDepth := -1);
      }
      st' := st'.(depth := st.depth - 1);
    } else if token == FDT_PROP {
      st' := TakeProperty(w, st, t.nameOff, t.value, next);
    }
  }

  /** Walks the structure block and returns what it found. On a blob that holds the
      tokens `ts` it takes exactly those tokens, in order, and stops at the end. */
  method WalkDeviceTree(blob: seq<Byte>, ghost ts: seq<Token>) returns (r: Discovery)
    requires |blob| >= 40 && (ReadU32(blob, 0) == FDT_MAGIC ==> Holds(blob, ts))
    ensures ReadU32(blob, 0) != FDT_MAGIC ==> r == NOTHING_FOUND
    ensures ReadU32(blob, 0) == FDT_MAGIC ==>
      r == ScanAll(NamesIn(blob, ReadU32(blob, 12)), START, ts).found
  {
    if ReadU32(blob, 0) != FDT_MAGIC {
      return NOTHING_FOUND;
    }
    var w := new FdtWalker(blob);
    ghost var names, rest := NamesIn(blob, w.stringsStart), ts;
    var st := START;
    while w.offset < w.structEnd
      invariant w.blob == blob && w.stringsStart == ReadU32(blob, 12)
      invariant TokensAt(blob, w.offset, w.structEnd, rest)
      invariant forall t :: t in rest ==> GoodToken(blob, w.stringsStart, t)
      invariant ScanAll(names, st, rest) == ScanAll(names, START, ts)
      decreases w.structEnd - w.offset
    {
      ghost var next := FrontAt(blob, w.offset, w.structEnd, rest);
      if ReadU32(blob, w.offset) == FDT_END {
        break;
      }
      assert rest[0] in rest;
      st := TakeToken(w, st, rest[0], next);
      rest := rest[1..];
    }
    return st.found;
  }

  // ---------------------------------------------------------------------
  // One blob, byte by byte
  // ---------------------------------------------------------------------

  /** A root named "memory@8" whose property `reg` is 0x8000_0000 and 0x1000_0000. */
  const SAMPLE_NAME: seq<Byte> := [109, 101, 109, 111, 114, 121, 64, 56]
  const SAMPLE_REG: seq<Byte> := [0, 0, 0, 0, 128, 0, 0, 0, 0, 0, 0, 0, 16, 0, 0, 0]
  const SAMPLE_BEGIN: seq<Byte> := [0, 0, 0, 1] + SAMPLE_NAME + [0, 0, 0, 0]
  const SAMPLE_PROP: seq<Byte> := [0, 0, 0, 3, 0, 0, 0, 16, 0, 0, 0, 0] + SAMPLE_REG
  const SAMPLE_STRUCTURE: seq<Byte> := SAMPLE_BEGIN + (SAMPLE_PROP + [0, 0, 0, 2]) + [0, 0, 0, 9]
  const SAMPLE_STRINGS: seq<Byte> := [114, 101, 103, 0]

  predicate FourBytes(blob: seq<Byte>, at: nat, a: Byte, b: Byte, c: Byte, d: Byte) {
    at + 4 <= |blob| && blob[at] == a && blob[at + 1] == b && blob[at + 2] == c && blob[at + 3] == d
  }

  /** A blob with the magic number, that structure block at 40, its size at 36, and the
      strings at 92; the other words of the header are free. */
  predicate IsSample(blob: seq<Byte>) {
    && |blob| == 96 && FourBytes(blob, 0, 0xd0, 0x0d, 0xfe, 0xed)
    && FourBytes(blob, 8, 0, 0, 0, 40) && FourBytes(blob, 12, 0, 0, 0, 92) && FourBytes(blob, 36, 0, 0, 0, 52)
    && blob[40..92] == SAMPLE_STRUCTURE && blob[92..] == SAMPLE_STRINGS
  }

  /** The codes of the tokens (section 5.4.1). */
  lemma TokenCodes()
    ensures Be32(FDT_BEGIN_NODE) == [0, 0, 0, 1] && Encode(End) == [0, 0, 0, 2] && Be32(FDT_PROP) == [0, 0, 0, 3]
    ensures Encode(Nop) == [0, 0, 0, 4] && Be32(FDT_END) == [0, 0, 0, 9]
    ensures Be32(FDT_MAGIC) == [0xd0, 0x0d, 0xfe, 0xed]
  {
  }

  lemma SampleBegin(name: seq<Byte>)
    requires name == SAMPLE_NAME
    ensures Encode(Begin(name)) == SAMPLE_BEGIN
  {
    assert Pad(9) == [0, 0, 0] && Be32(FDT_BEGIN_NODE) == [0, 0, 0, 1];
  }

  lemma SampleProp(value: seq<Byte>)
    requires value == SAMPLE_REG
    ensures Encode(Token.Prop(0, value)) == SAMPLE_PROP
  {
    assert Pad(16) == [] && Be32(FDT_PROP) == [0, 0, 0, 3] && Be32(16) == [0, 0, 0, 16] && Be32(0) == [0, 0, 0, 0];
  }

  lemma SampleTokens(name: seq<Byte>, value: seq<Byte>)
    requires name == SAMPLE_NAME && value == SAMPLE_REG
    ensures EncodeAll(TreeTokens(MemoryTree(name, value))) + Be32(FDT_END) == SAMPLE_STRUCTURE
  {
    MemoryTreeTokens(name, value);
    SampleBegin(name);
    SampleProp(value);
    assert Encode(End) == [0, 0, 0, 2] && Be32(FDT_END) == [0, 0, 0, 9];
  }

  lemma WordAt(blob: seq<Byte>, at: nat, a: Byte, b: Byte, c: Byte, d: Byte)
    requires FourBytes(blob, at, a, b, c, d)
    ensures ReadU32(blob, at) == a as int * 0x100_0000 + b as int * 0x1_0000 + c as int * 0x100 + d as int
  {
  }

  lemma SampleWords(blob: seq<Byte>)
    requires IsSample(blob)
    ensures ReadU32(blob, 0) == 0xd00d_feed && ReadU32(blob, 8) == 40
    ensures ReadU32(blob, 12) == 92 && ReadU32(blob, 36) == 52
  {
    WordAt(blob, 0, 0xd0, 0x0d, 0xfe, 0xed);
    WordAt(blob, 8, 0, 0, 0, 40);
    WordAt(blob, 12, 0, 0, 0, 92);
    WordAt(blob, 36, 0, 0, 0, 52);
  }

  lemma SampleNames(blob: seq<Byte>)
    requires |blob| == 96 && blob[92..] == SAMPLE_STRINGS
    ensures Terminated(blob, 92) && CStr(blob, 92) == REG
  {
    assert forall i :: 0 <= i < 4 ==> blob[92 + i] == blob[92..][i];
    CStrIs(blob, 92, REG);
  }

  lemma SamplePairs(value: seq<Byte>)
    requires value == SAMPLE_REG
    ensures |value| == 16 && Pair(value, 0) == 0x8000_0000 && Pair(value, 8) == 0x1000_0000
  {
    assert value[4] == 128 && value[12] == 16;
    PairIs(value, 0);
    PairIs(value, 8);
  }

  lemma SampleFound(names: Names, name: seq<Byte>, value: seq<Byte>)
    requires name == SAMPLE_NAME && value == SAMPLE_REG && names(0) == REG
    ensures Found(names, MemoryTree(name, value)) == Discovery(None, false, Some(0x8000_0000), Some(0x1000_0000))
  {
    assert Classify(name) == MemoryNode by { NodeNames(name); }
    SamplePairs(value);
    MemoryTreeFound(names, name, value);
  }

  lemma SampleHolds(blob: seq<Byte>, name: seq<Byte>, value: seq<Byte>)
    requires |blob| == 96 && NoZero(name) && |value| < U32_SIZE && Terminated(blob, 92)
    requires ReadU32(blob, 0) == FDT_MAGIC && ReadU32(blob, 8) == 40
    requires ReadU32(blob, 12) == 92 && ReadU32(blob, 36) == 52
    requires blob[40..92] == EncodeAll(TreeTokens(MemoryTree(name, value))) + Be32(FDT_END)
    ensures Holds(blob, TreeTokens(MemoryTree(name, value)))
  {
    MemoryTreeTokens(name, value);
  }

  /** These bytes hold that tree, and the walk finds the region in it. */
  lemma SampleIsRead(blob: seq<Byte>, name: seq<Byte>, value: seq<Byte>)
    requires IsSample(blob) && name == SAMPLE_NAME && value == SAMPLE_REG
    ensures var t := MemoryTree(name, value);
      && Holds(blob, TreeTokens(t)) && ReadU32(blob, 12) == 92
      && Found(NamesIn(blob, 92), t) == Discovery(None, false, Some(0x8000_0000), Some(0x1000_0000))
  {
    SampleWords(blob);
    SampleNames(blob);
    SampleTokens(name, value);
    SampleHolds(blob, name, value);
    SampleFound(NamesIn(blob, 92), name, value);
  }

  // ---------------------------------------------------------------------
  // Memory::from_device_tree
  // ---------------------------------------------------------------------

  /** The one region and the PLIC base that the walk's result gives. */
  datatype BootMemory = BootMemory(base: nat, length: nat, behindIommu: bool, plicBase: nat)

  function GetOr(o: Option<nat>, default: nat): nat {
    match o
    case Some(v) => v
    case None => default
  }

  /** The region and the PLIC base are what the walk of the tree finds, or else the
      defaults. For a tree whose root has no name they are always the defaults,
      whatever the tree says, and only the IOMMU flag depends on it. */
  method FromDeviceTree(blob: seq<Byte>, ghost t: Tree) returns (m: BootMemory)
    requires |blob| >= 40 && (ReadU32(blob, 0) == FDT_MAGIC ==> Holds(blob, TreeTokens(t)))
    ensures var found := if ReadU32(blob, 0) == FDT_MAGIC
        then Found(NamesIn(blob, ReadU32(blob, 12)), t) else NOTHING_FOUND;
      m == BootMemory(GetOr(found.memoryBase, 0x8000_0000), GetOr(found.memorySize, 0x800_0000),
        found.iommuPresent, GetOr(found.plicBase, 0xC00_0000))
    ensures t.rootName == [] ==>
      m == BootMemory(0x8000_0000, 0x800_0000,
        ReadU32(blob, 0) == FDT_MAGIC && HasIommuNode(NamesIn(blob, ReadU32(blob, 12)), t.body), 0xC00_0000)
  {
    var dt := WalkDeviceTree(blob, TreeTokens(t));
    if t.rootName == [] {
      UnnamedRoot(NamesIn(blob, ReadU32(blob, 12)), t);
    }
    m := BootMemory(
      GetOr(dt.memoryBase, QEMU_VIRT_DEFAULT_MEMORY_BASE),
      GetOr(dt.memorySize, QEMU_VIRT_DEFAULT_MEMORY_SIZE),
      dt.iommuPresent,
      GetOr(dt.plicBase, QEMU_VIRT_DEFAULT_PLIC_BASE));
  }
}
