/** The flattened devicetree: bytes, tokens and trees, after sections 5.2 to 5.5 of
    the Devicetree Specification. */
module FdtFormat {
  import opened Words
  import opened Bytes

  const FDT_MAGIC: nat := 0xd00d_feed
  const FDT_BEGIN_NODE: nat := 1
  const FDT_END_NODE: nat := 2
  const FDT_PROP: nat := 3
  const FDT_NOP: nat := 4
  const FDT_END: nat := 9

  // ---------------------------------------------------------------------
  // Bytes
  // ---------------------------------------------------------------------

  /** A 32-bit word, most significant byte first. */
  function Be32(n: nat): (s: seq<Byte>)
    ensures |s| == 4
  {
    [n / 0x100_0000 % 256, n / 0x1_0000 % 256, n / 0x100 % 256, n % 256]
  }

  function Word(s: seq<Byte>): (n: nat)
    requires |s| == 4
    ensures n < U32_SIZE
  {
    var a: int, b: int, c: int, d: int := s[0], s[1], s[2], s[3];
    a * 0x100_0000 + b * 0x1_0000 + c * 0x100 + d
  }

  lemma WordOfBe32(n: nat)
    requires n < U32_SIZE
    ensures Word(Be32(n)) == n
  {
    var a, b, c := n / 0x100, n / 0x1_0000, n / 0x100_0000;
    assert b == a / 0x100 && c == b / 0x100;
    assert n == a * 0x100 + n % 256 && a == b * 0x100 + a % 256 && b == c * 0x100 + b % 256;
    assert c < 256;
  }

  function Zeros(k: nat): (s: seq<Byte>)
    ensures |s| == k
  {
    seq(k, _ => 0)
  }

  /** Zero bytes up to the next multiple of four. */
  function Pad(len: nat): (s: seq<Byte>)
    ensures |s| == (4 - len % 4) % 4
  {
    Zeros((4 - len % 4) % 4)
  }

  ghost predicate NoZero(s: seq<Byte>) {
    forall i :: 0 <= i < |s| ==> s[i] != 0
  }

  // ---------------------------------------------------------------------
  // Tokens
  // ---------------------------------------------------------------------

  datatype Token =
    | Begin(name: seq<Byte>)
    | End
    | Prop(nameOff: nat, value: seq<Byte>)
    | Nop

  /** Section 5.4.1: every token is padded to a multiple of four bytes. */
  lemma Padded(front: nat, len: nat)
    requires front % 4 == 0
    ensures (front + len + (4 - len % 4) % 4) % 4 == 0
  {
  }

  function Encode(t: Token): (s: seq<Byte>)
    ensures |s| >= 4 && |s| % 4 == 0
  {
    match t
    case Begin(name) =>
      Padded(4, |name| + 1);
      Be32(FDT_BEGIN_NODE) + name + [0] + Pad(|name| + 1)
    case End => Be32(FDT_END_NODE)
    case Prop(nameOff, value) =>
      Padded(12, |value|);
      Be32(FDT_PROP) + Be32(|value|) + Be32(nameOff) + value + Pad(|value|)
    case Nop => Be32(FDT_NOP)
  }

  function EncodeAll(ts: seq<Token>): seq<Byte> {
    if ts == [] then [] else Encode(ts[0]) + EncodeAll(ts[1..])
  }

  // ---------------------------------------------------------------------
  // Trees
  // ---------------------------------------------------------------------

  /** The inside of a node: properties, child nodes and NOPs, in order. */
  datatype Body =
    | Nothing
    | Property(nameOff: nat, value: seq<Byte>, rest: Body)
    | Child(name: seq<Byte>, body: Body, rest: Body)
    | Padding(rest: Body)

  function Tokens(b: Body): seq<Token> {
    match b
    case Nothing => []
    case Property(nameOff, value, rest) => [Token.Prop(nameOff, value)] + Tokens(rest)
    case Child(name, body, rest) => [Begin(name)] + Tokens(body) + [End] + Tokens(rest)
    case Padding(rest) => [Nop] + Tokens(rest)
  }

  /** A tree with one root, and NOPs before and after it. */
  datatype Tree = Tree(before: nat, rootName: seq<Byte>, body: Body, after: nat)

  function Nops(n: nat): (ts: seq<Token>)
    ensures |ts| == n && forall i :: 0 <= i < n ==> ts[i] == Nop
    decreases n
  {
    if n == 0 then [] else [Nop] + Nops(n - 1)
  }

  function RootTokens(rootName: seq<Byte>, b: Body): seq<Token> {
    [Begin(rootName)] + Tokens(b) + [End]
  }

  /** The structure block of a tree. */
  function TreeTokens(t: Tree): seq<Token> {
    Nops(t.before) + (RootTokens(t.rootName, t.body) + Nops(t.after))
  }

  // ---------------------------------------------------------------------
  // Blobs
  // ---------------------------------------------------------------------

  function ReadU32(blob: seq<Byte>, offset: nat): (n: nat)
    requires offset + 4 <= |blob|
    ensures n < U32_SIZE
  {
    Word(blob[offset..offset + 4])
  }

  /** The bytes from `offset` up to the next NUL. */
  function CStr(blob: seq<Byte>, offset: nat): seq<Byte>
    decreases |blob| - offset
  {
    if offset >= |blob| || blob[offset] == 0 then [] else [blob[offset]] + CStr(blob, offset + 1)
  }

  ghost predicate Terminated(blob: seq<Byte>, offset: nat) {
    exists k :: offset <= k < |blob| && blob[k] == 0
  }

  ghost predicate GoodToken(blob: seq<Byte>, strings: nat, t: Token) {
    match t
    case Begin(name) => NoZero(name)
    case Prop(nameOff, value) => |value| < U32_SIZE && nameOff < U32_SIZE && Terminated(blob, strings + nameOff)
    case _ => true
  }

  /** The blob is a flattened tree whose structure block holds the tokens `ts`. */
  ghost predicate Holds(blob: seq<Byte>, ts: seq<Token>) {
    && 40 <= |blob| < U32_SIZE
    && ReadU32(blob, 0) == FDT_MAGIC
    && (var start, strings, size := ReadU32(blob, 8), ReadU32(blob, 12), ReadU32(blob, 36);
        && start % 4 == 0 && start + size <= |blob|
        && blob[start..start + size] == EncodeAll(ts) + Be32(FDT_END)
        && (forall t :: t in ts ==> GoodToken(blob, strings, t)))
  }

  // ---------------------------------------------------------------------
  // An encoder
  // ---------------------------------------------------------------------

  function BigEndianWords(ws: seq<nat>): (s: seq<Byte>)
    ensures |s| == 4 * |ws|
    decreases |ws|
  {
    if ws == [] then [] else Be32(ws[0]) + BigEndianWords(ws[1..])
  }

  lemma ReadBehind(a: seq<Byte>, b: seq<Byte>, k: nat)
    requires k + 4 <= |b|
    ensures ReadU32(a + b, |a| + k) == ReadU32(b, k)
  {
    assert (a + b)[|a| + k..|a| + k + 4] == b[k..k + 4];
  }

  lemma {:induction false} WordReadsBack(ws: seq<nat>, rest: seq<Byte>, i: nat)
    requires i < |ws| && ws[i] < U32_SIZE
    ensures ReadU32(BigEndianWords(ws) + rest, 4 * i) == ws[i]
    decreases i
  {
    var first, others := Be32(ws[0]), BigEndianWords(ws[1..]) + rest;
    assert BigEndianWords(ws) + rest == first + others;
    if i == 0 {
      assert (first + others)[0..4] == first;
      WordOfBe32(ws[0]);
    } else {
      ReadBehind(first, others, 4 * (i - 1));
      WordReadsBack(ws[1..], rest, i - 1);
    }
  }

  /** The ten words of the header (section 5.2), for version 17. */
  function Header(total: nat, offStruct: nat, offStrings: nat, offRsv: nat, sizeStrings: nat,
      sizeStruct: nat): (s: seq<Byte>)
    ensures |s| == 40
  {
    BigEndianWords([FDT_MAGIC, total, offStruct, offStrings, offRsv, 17, 16, 0, sizeStrings, sizeStruct])
  }

  /** Header, an empty memory reservation block, structure block, strings block. */
  function Assemble(structure: seq<Byte>, strings: seq<Byte>): seq<Byte> {
    Header(56 + |structure| + |strings|, 56, 56 + |structure|, 40, |strings|, |structure|)
    + Zeros(16) + structure + strings
  }

  function Flatten(ts: seq<Token>, strings: seq<Byte>): seq<Byte> {
    Assemble(EncodeAll(ts) + Be32(FDT_END), strings)
  }

  ghost predicate GoodStrings(strings: seq<Byte>, ts: seq<Token>) {
    forall t :: t in ts ==>
      match t
      case Begin(name) => NoZero(name)
      case Prop(nameOff, value) => |value| < U32_SIZE && Terminated(strings, nameOff)
      case _ => true
  }

  lemma HeaderWords(total: nat, offStruct: nat, offStrings: nat, offRsv: nat, sizeStrings: nat, sizeStruct: nat,
      rest: seq<Byte>)
    requires total < U32_SIZE && offStruct < U32_SIZE && offStrings < U32_SIZE && sizeStruct < U32_SIZE
    ensures var blob := Header(total, offStruct, offStrings, offRsv, sizeStrings, sizeStruct) + rest;
      && ReadU32(blob, 0) == FDT_MAGIC && ReadU32(blob, 8) == offStruct
      && ReadU32(blob, 12) == offStrings && ReadU32(blob, 36) == sizeStruct
  {
    var ws := [FDT_MAGIC, total, offStruct, offStrings, offRsv, 17, 16, 0, sizeStrings, sizeStruct];
    WordReadsBack(ws, rest, 0);
    WordReadsBack(ws, rest, 2);
    WordReadsBack(ws, rest, 3);
    WordReadsBack(ws, rest, 9);
  }

  lemma StringsInBlob(front: seq<Byte>, strings: seq<Byte>, ts: seq<Token>, t: Token)
    requires GoodStrings(strings, ts) && t in ts && |front + strings| < U32_SIZE
    ensures GoodToken(front + strings, |front|, t)
  {
    if t.Prop? {
      var k :| t.nameOff <= k < |strings| && strings[k] == 0;
      assert (front + strings)[|front| + k] == 0;
    }
  }

  lemma FourParts(a: seq<Byte>, b: seq<Byte>, c: seq<Byte>, d: seq<Byte>)
    ensures a + b + c + d == a + (b + c + d)
    ensures (a + b + c + d)[|a| + |b|..|a| + |b| + |c|] == c
  {
  }

  lemma AssembledParts(structure: seq<Byte>, strings: seq<Byte>) returns (front: seq<Byte>)
    requires |Assemble(structure, strings)| < U32_SIZE
    ensures var blob := Assemble(structure, strings); var base := 56 + |structure|;
      && |blob| == base + |strings|
      && ReadU32(blob, 0) == FDT_MAGIC && ReadU32(blob, 8) == 56
      && ReadU32(blob, 12) == base && ReadU32(blob, 36) == |structure|
      && blob[56..56 + |structure|] == structure
      && |front| == base && blob == front + strings
  {
    var blob, base := Assemble(structure, strings), 56 + |structure|;
    var header := Header(base + |strings|, 56, base, 40, |strings|, |structure|);
    var zeros: seq<Byte> := Zeros(16);
    var rest := zeros + structure + strings;
    front := header + zeros + structure;
    assert blob == header + zeros + structure + strings;
    FourParts(header, zeros, structure, strings);
    HeaderWords(base + |strings|, 56, base, 40, |strings|, |structure|, rest);
  }

  /** Every list of tokens with good names has a blob that holds it. */
  lemma FlattenHolds(ts: seq<Token>, strings: seq<Byte>)
    requires GoodStrings(strings, ts) && |Flatten(ts, strings)| < U32_SIZE
    ensures Holds(Flatten(ts, strings), ts)
  {
    var structure := EncodeAll(ts) + Be32(FDT_END);
    var front := AssembledParts(structure, strings);
    forall t | t in ts
      ensures GoodToken(Flatten(ts, strings), 56 + |structure|, t)
    {
      StringsInBlob(front, strings, ts, t);
    }
  }
}
