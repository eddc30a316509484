/** What the devicetree walker computes, token by token, and what that means for
    whole trees. */
module FdtScan {
  import opened Words
  import opened Hal
  import opened Bytes
  import opened FdtFormat

  const MEMORY: seq<Byte> := [109, 101, 109, 111, 114, 121]
  const MEMORY_AT: seq<Byte> := [109, 101, 109, 111, 114, 121, 64]
  const PLIC_AT: seq<Byte> := [112, 108, 105, 99, 64]
  const REG: seq<Byte> := [114, 101, 103]
  const COMPATIBLE: seq<Byte> := [99, 111, 109, 112, 97, 116, 105, 98, 108, 101]
  const IOMMU: seq<Byte> := [105, 111, 109, 109, 117]

  datatype CurrentNode = NoNode | MemoryNode | PlicNode | PossibleIommu

  datatype Discovery = Discovery(
    plicBase: Option<nat>,
    iommuPresent: bool,
    memoryBase: Option<nat>,
    memorySize: Option<nat>)

  const NOTHING_FOUND: Discovery := Discovery(None, false, None, None)

  datatype Scan = Scan(current: CurrentNode, currentDepth: int, depth: int, found: Discovery)

  const START: Scan := Scan(NoNode, -1, 0, NOTHING_FOUND)

  /** Property names by their offset in the strings block. */
  type Names = nat -> seq<Byte>

  function Classify(name: seq<Byte>): (c: CurrentNode)
    ensures c != NoNode
  {
    if MEMORY_AT <= name || name == MEMORY then MemoryNode
    else if PLIC_AT <= name then PlicNode
    else PossibleIommu
  }

  /** The bytes of a text. */
  function Ascii(s: string): (b: seq<Byte>)
    requires forall i :: 0 <= i < |s| ==> s[i] as int < 128
    ensures |b| == |s| && forall i :: 0 <= i < |s| ==> b[i] == s[i] as int
  {
    seq(|s|, i requires 0 <= i < |s| => s[i] as int)
  }

  lemma Spelling()
    ensures REG == Ascii("reg") && COMPATIBLE == Ascii("compatible") && IOMMU == Ascii("iommu")
  {
  }

  /** What the name of a node makes of it. */
  lemma NodeNames(name: seq<Byte>)
    ensures Classify(name) == MemoryNode <==> name == Ascii("memory") || Ascii("memory@") <= name
    ensures Classify(name) == PlicNode <==> Ascii("plic@") <= name
  {
    assert MEMORY == Ascii("memory") && MEMORY_AT == Ascii("memory@") && PLIC_AT == Ascii("plic@");
    assert MEMORY[0] != PLIC_AT[0];
    if Ascii("plic@") <= name {
      assert name[0] == PLIC_AT[0];
    }
  }

  /** The 64-bit value of the two words at offset `i`, most significant byte first. */
  function Pair(value: seq<Byte>, i: nat): nat
    requires i + 8 <= |value|
  {
    Word(value[i..i + 4]) * U32_SIZE + Word(value[i + 4..i + 8])
  }

  lemma PairIs(v: seq<Byte>, i: nat)
    requires i + 8 <= |v|
    ensures Pair(v, i) == v[i] as int * 0x100_0000_0000_0000 + v[i + 1] as int * 0x1_0000_0000_0000
      + v[i + 2] as int * 0x100_0000_0000 + v[i + 3] as int * 0x1_0000_0000 + v[i + 4] as int * 0x100_0000
      + v[i + 5] as int * 0x1_0000 + v[i + 6] as int * 0x100 + v[i + 7] as int
  {
  }

  predicate WindowIsIommu(value: seq<Byte>, i: nat) {
    i + 5 <= |value| && value[i..i + 5] == IOMMU
  }

  ghost predicate MentionsIommu(value: seq<Byte>) {
    exists i :: WindowIsIommu(value, i)
  }

  /** What one property adds to the findings. */
  ghost function Note(current: CurrentNode, name: seq<Byte>, value: seq<Byte>, found: Discovery): Discovery {
    match current
    case MemoryNode =>
      if name == REG && |value| >= 16
        then found.(memoryBase := Some(Pair(value, 0)), memorySize := Some(Pair(value, 8)))
      else found
    case PlicNode =>
      if name == REG && |value| >= 8 then found.(plicBase := Some(Pair(value, 0))) else found
    case PossibleIommu =>
      if name == COMPATIBLE && MentionsIommu(value) then found.(iommuPresent := true) else found
    case NoNode => found
  }

  ghost function Step(names: Names, st: Scan, t: Token): Scan {
    match t
    case Begin(name) =>
      var depth := st.depth + 1;
      if st.current == NoNode then st.(current := Classify(name), currentDepth := depth, depth := depth)
      else st.(depth := depth)
    case End =>
      if st.depth == st.currentDepth then st.(current := NoNode, currentDepth := -1, depth := st.depth - 1)
      else st.(depth := st.depth - 1)
    case Prop(nameOff, value) => st.(found := Note(st.current, names(nameOff), value, st.found))
    case Nop => st
  }

  ghost function ScanAll(names: Names, st: Scan, ts: seq<Token>): Scan
    decreases |ts|
  {
    if ts == [] then st else ScanAll(names, Step(names, st, ts[0]), ts[1..])
  }

  // ---------------------------------------------------------------------
  // Whole trees
  // ---------------------------------------------------------------------

  /** The findings of a node and all nodes below it, all taken to be of one kind. */
  ghost function Collect(names: Names, kind: CurrentNode, b: Body, found: Discovery): Discovery {
    match b
    case Nothing => found
    case Property(nameOff, value, rest) => Collect(names, kind, rest, Note(kind, names(nameOff), value, found))
    case Child(name, body, rest) => Collect(names, kind, rest, Collect(names, kind, body, found))
    case Padding(rest) => Collect(names, kind, rest, found)
  }

  lemma {:induction false} ScanConcat(names: Names, st: Scan, a: seq<Token>, b: seq<Token>)
    ensures ScanAll(names, st, a + b) == ScanAll(names, ScanAll(names, st, a), b)
    decreases |a|
  {
    if a == [] {
      assert a + b == b;
    } else {
      assert (a + b)[1..] == a[1..] + b;
      ScanConcat(names, Step(names, st, a[0]), a[1..], b);
    }
  }

  lemma ScanCons(names: Names, st: Scan, t: Token, ts: seq<Token>)
    ensures ScanAll(names, st, [t] + ts) == ScanAll(names, Step(names, st, t), ts)
  {
    assert ([t] + ts)[1..] == ts;
  }

  /** Inside a node that is being tracked, everything below belongs to it: names of
      inner nodes are not looked at, and depth comes back to where it was. */
  lemma {:induction false} TrackedBody(names: Names, st: Scan, b: Body)
    requires st.current != NoNode && st.currentDepth <= st.depth
    ensures ScanAll(names, st, Tokens(b)) == st.(found := Collect(names, st.current, b, st.found))
    decreases b
  {
    match b {
      case Nothing =>
      case Property(nameOff, value, rest) =>
        var t := Token.Prop(nameOff, value);
        ScanCons(names, st, t, Tokens(rest));
        TrackedBody(names, Step(names, st, t), rest);
      case Child(name, body, rest) =>
        var inner := st.(depth := st.depth + 1);
        var found := Collect(names, st.current, body, st.found);
        assert Tokens(b) == [Begin(name)] + (Tokens(body) + ([End] + Tokens(rest)));
        ScanCons(names, st, Begin(name), Tokens(body) + ([End] + Tokens(rest)));
        ScanConcat(names, inner, Tokens(body), [End] + Tokens(rest));
        TrackedBody(names, inner, body);
        ScanCons(names, inner.(found := found), End, Tokens(rest));
        TrackedBody(names, st.(found := found), rest);
      case Padding(rest) =>
        ScanCons(names, st, Nop, Tokens(rest));
        TrackedBody(names, st, rest);
    }
  }

  lemma ScanOfRoot(names: Names, rootName: seq<Byte>, b: Body)
    ensures ScanAll(names, START, RootTokens(rootName, b)) ==
      Scan(NoNode, -1, 0, Collect(names, Classify(rootName), b, NOTHING_FOUND))
  {
    var root := Scan(Classify(rootName), 1, 1, NOTHING_FOUND);
    assert RootTokens(rootName, b) == [Begin(rootName)] + (Tokens(b) + [End]);
    ScanCons(names, START, Begin(rootName), Tokens(b) + [End]);
    ScanConcat(names, root, Tokens(b), [End]);
    TrackedBody(names, root, b);
    ScanCons(names, root.(found := Collect(names, root.current, b, NOTHING_FOUND)), End, []);
    assert [End] + [] == [End];
  }

  lemma {:induction false} ScanOfNops(names: Names, st: Scan, n: nat)
    ensures ScanAll(names, st, Nops(n)) == st
    decreases n
  {
    if n > 0 {
      ScanCons(names, st, Nop, Nops(n - 1));
      ScanOfNops(names, st, n - 1);
    }
  }

  /** The walk of a tree with one root: the root's own name decides what every
      property of the tree is taken for; at the end nothing is tracked any more. */
  lemma ScanOfTree(names: Names, t: Tree)
    ensures ScanAll(names, START, TreeTokens(t)) ==
      Scan(NoNode, -1, 0, Collect(names, Classify(t.rootName), t.body, NOTHING_FOUND))
  {
    var root := RootTokens(t.rootName, t.body);
    ScanConcat(names, START, Nops(t.before), root + Nops(t.after));
    ScanOfNops(names, START, t.before);
    ScanConcat(names, START, root, Nops(t.after));
    ScanOfRoot(names, t.rootName, t.body);
    ScanOfNops(names, ScanAll(names, START, root), t.after);
  }

  // ---------------------------------------------------------------------
  // What is found, stated over the nodes
  // ---------------------------------------------------------------------

  /** Some node, at any depth, has this property. */
  ghost predicate HasProperty(b: Body, nameOff: nat, value: seq<Byte>) {
    match b
    case Nothing => false
    case Property(o, v, rest) => (o == nameOff && v == value) || HasProperty(rest, nameOff, value)
    case Child(_, body, rest) => HasProperty(body, nameOff, value) || HasProperty(rest, nameOff, value)
    case Padding(rest) => HasProperty(rest, nameOff, value)
  }

  /** Some node, at any depth, has a property `name` with at least `size` bytes. */
  ghost predicate HasNamed(names: Names, b: Body, name: seq<Byte>, size: nat) {
    exists o, v :: HasProperty(b, o, v) && names(o) == name && |v| >= size
  }

  ghost predicate HasIommuNode(names: Names, b: Body) {
    exists o, v :: HasProperty(b, o, v) && names(o) == COMPATIBLE && MentionsIommu(v)
  }

  lemma HasNamedCases(names: Names, b: Body, name: seq<Byte>, size: nat)
    ensures HasNamed(names, b, name, size) <==>
      match b
      case Nothing => false
      case Property(o, v, rest) => (names(o) == name && |v| >= size) || HasNamed(names, rest, name, size)
      case Child(_, body, rest) => HasNamed(names, body, name, size) || HasNamed(names, rest, name, size)
      case Padding(rest) => HasNamed(names, rest, name, size)
  {
    match b {
      case Nothing =>
      case Property(o, v, rest) =>
        assert HasProperty(b, o, v);
        if HasNamed(names, rest, name, size) {
          var o', v' :| HasProperty(rest, o', v') && names(o') == name && |v'| >= size;
          assert HasProperty(b, o', v');
        }
      case Child(_, body, rest) =>
        if HasNamed(names, body, name, size) {
          var o', v' :| HasProperty(body, o', v') && names(o') == name && |v'| >= size;
          assert HasProperty(b, o', v');
        }
        if HasNamed(names, rest, name, size) {
          var o', v' :| HasProperty(rest, o', v') && names(o') == name && |v'| >= size;
          assert HasProperty(b, o', v');
        }
      case Padding(rest) =>
        if HasNamed(names, rest, name, size) {
          var o', v' :| HasProperty(rest, o', v') && names(o') == name && |v'| >= size;
          assert HasProperty(b, o', v');
        }
    }
  }

  lemma HasIommuCases(names: Names, b: Body)
    ensures HasIommuNode(names, b) <==>
      match b
      case Nothing => false
      case Property(o, v, rest) => (names(o) == COMPATIBLE && MentionsIommu(v)) || HasIommuNode(names, rest)
      case Child(_, body, rest) => HasIommuNode(names, body) || HasIommuNode(names, rest)
      case Padding(rest) => HasIommuNode(names, rest)
  {
    match b {
      case Nothing =>
      case Property(o, v, rest) =>
        assert HasProperty(b, o, v);
        if HasIommuNode(names, rest) {
          var o', v' :| HasProperty(rest, o', v') && names(o') == COMPATIBLE && MentionsIommu(v');
          assert HasProperty(b, o', v');
        }
      case Child(_, body, rest) =>
        if HasIommuNode(names, body) {
          var o', v' :| HasProperty(body, o', v') && names(o') == COMPATIBLE && MentionsIommu(v');
          assert HasProperty(b, o', v');
        }
        if HasIommuNode(names, rest) {
          var o', v' :| HasProperty(rest, o', v') && names(o') == COMPATIBLE && MentionsIommu(v');
          assert HasProperty(b, o', v');
        }
      case Padding(rest) =>
        if HasIommuNode(names, rest) {
          var o', v' :| HasProperty(rest, o', v') && names(o') == COMPATIBLE && MentionsIommu(v');
          assert HasProperty(b, o', v');
        }
    }
  }

  lemma {:induction false} CollectIommu(names: Names, b: Body, found: Discovery)
    ensures Collect(names, PossibleIommu, b, found)
      == found.(iommuPresent := found.iommuPresent || HasIommuNode(names, b))
    decreases b
  {
    HasIommuCases(names, b);
    match b {
      case Nothing =>
      case Property(o, v, rest) => CollectIommu(names, rest, Note(PossibleIommu, names(o), v, found));
      case Child(_, body, rest) =>
        CollectIommu(names, body, found);
        CollectIommu(names, rest, Collect(names, PossibleIommu, body, found));
      case Padding(rest) => CollectIommu(names, rest, found);
    }
  }

  ghost predicate IsReg(names: Names, t: Token, size: nat) {
    t.Prop? && names(t.nameOff) == REG && |t.value| >= size
  }

  /** Token `k` is the last such property, and `value` is its value. */
  ghost predicate IsLastReg(names: Names, ts: seq<Token>, size: nat, k: nat, value: seq<Byte>) {
    && k < |ts| && IsReg(names, ts[k], size) && ts[k].value == value
    && forall i :: k < i < |ts| ==> !IsReg(names, ts[i], size)
  }

  lemma LastRegKept(names: Names, ts: seq<Token>, size: nat, k: nat, value: seq<Byte>)
    requires ts != [] && !IsReg(names, ts[|ts| - 1], size) && IsLastReg(names, ts[..|ts| - 1], size, k, value)
    ensures IsLastReg(names, ts, size, k, value)
  {
    assert forall i :: 0 <= i < |ts| - 1 ==> ts[..|ts| - 1][i] == ts[i];
  }

  /** The value of the last `reg` with at least `size` bytes, in document order. */
  ghost function LastReg(names: Names, ts: seq<Token>, size: nat): (r: Option<seq<Byte>>)
    ensures r.None? ==> forall k :: 0 <= k < |ts| ==> !IsReg(names, ts[k], size)
    ensures r.Some? ==> |r.value| >= size && exists k: nat :: IsLastReg(names, ts, size, k, r.value)
    decreases |ts|
  {
    if ts == [] then None
    else
      var n := |ts| - 1;
      if IsReg(names, ts[n], size) then
        assert IsLastReg(names, ts, size, n, ts[n].value);
        Some(ts[n].value)
      else
        var r := LastReg(names, ts[..n], size);
        assert forall i :: 0 <= i < n ==> ts[..n][i] == ts[i];
        if r.Some? then
          var k: nat :| IsLastReg(names, ts[..n], size, k, r.value);
          LastRegKept(names, ts, size, k, r.value);
          r
        else r
  }

  function OrElse<T>(a: Option<T>, b: Option<T>): Option<T> {
    if a.Some? then a else b
  }

  lemma LastRegMore(names: Names, ts: seq<Token>, t: Token, size: nat)
    ensures LastReg(names, ts + [t], size) == if IsReg(names, t, size) then Some(t.value) else LastReg(names, ts, size)
  {
    assert (ts + [t])[..|ts|] == ts;
  }

  lemma {:induction false} LastRegConcat(names: Names, a: seq<Token>, b: seq<Token>, size: nat)
    ensures LastReg(names, a + b, size) == OrElse(LastReg(names, b, size), LastReg(names, a, size))
    decreases |b|
  {
    if b == [] {
      assert a + b == a;
    } else {
      var n := |b| - 1;
      assert b == b[..n] + [b[n]] && a + b == a + b[..n] + [b[n]];
      LastRegConcat(names, a, b[..n], size);
      LastRegMore(names, b[..n], b[n], size);
      LastRegMore(names, a + b[..n], b[n], size);
    }
  }

  lemma LastRegOne(names: Names, t: Token, size: nat)
    ensures LastReg(names, [t], size) == if IsReg(names, t, size) then Some(t.value) else None
  {
    assert [t][..0] == [];
  }

  lemma LastRegCons(names: Names, t: Token, ts: seq<Token>, size: nat)
    ensures LastReg(names, [t] + ts, size)
      == OrElse(LastReg(names, ts, size), if IsReg(names, t, size) then Some(t.value) else None)
  {
    LastRegConcat(names, [t], ts, size);
    LastRegOne(names, t, size);
  }

  lemma LastRegChild(names: Names, name: seq<Byte>, body: Body, rest: Body, size: nat)
    ensures LastReg(names, Tokens(Child(name, body, rest)), size)
      == OrElse(LastReg(names, Tokens(rest), size), LastReg(names, Tokens(body), size))
  {
    assert Tokens(Child(name, body, rest)) == [Begin(name)] + (Tokens(body) + ([End] + Tokens(rest)));
    LastRegCons(names, Begin(name), Tokens(body) + ([End] + Tokens(rest)), size);
    LastRegConcat(names, Tokens(body), [End] + Tokens(rest), size);
    LastRegCons(names, End, Tokens(rest), size);
  }

  lemma {:induction false} HasNamedIsReg(names: Names, b: Body, size: nat)
    ensures HasNamed(names, b, REG, size) <==> LastReg(names, Tokens(b), size).Some?
    decreases b
  {
    HasNamedCases(names, b, REG, size);
    match b {
      case Nothing =>
      case Property(o, v, rest) =>
        LastRegCons(names, Token.Prop(o, v), Tokens(rest), size);
        HasNamedIsReg(names, rest, size);
      case Child(name, body, rest) =>
        LastRegChild(names, name, body, rest, size);
        HasNamedIsReg(names, body, size);
        HasNamedIsReg(names, rest, size);
      case Padding(rest) =>
        LastRegCons(names, Nop, Tokens(rest), size);
        HasNamedIsReg(names, rest, size);
    }
  }

  /** The 64-bit value at offset `i` of a value, if there is one. */
  function PairOf(value: Option<seq<Byte>>, i: nat): Option<nat>
    requires value.Some? ==> i + 8 <= |value.value|
  {
    match value
    case Some(v) => Some(Pair(v, i))
    case None => None
  }

  lemma {:induction false} CollectMemory(names: Names, b: Body, found: Discovery)
    ensures var last := LastReg(names, Tokens(b), 16);
      Collect(names, MemoryNode, b, found) == found.(
        memoryBase := OrElse(PairOf(last, 0), found.memoryBase),
        memorySize := OrElse(PairOf(last, 8), found.memorySize))
    decreases b
  {
    match b {
      case Nothing =>
      case Property(o, v, rest) =>
        LastRegCons(names, Token.Prop(o, v), Tokens(rest), 16);
        CollectMemory(names, rest, Note(MemoryNode, names(o), v, found));
      case Child(name, body, rest) =>
        LastRegChild(names, name, body, rest, 16);
        CollectMemory(names, body, found);
        CollectMemory(names, rest, Collect(names, MemoryNode, body, found));
      case Padding(rest) =>
        LastRegCons(names, Nop, Tokens(rest), 16);
        CollectMemory(names, rest, found);
    }
  }

  lemma {:induction false} CollectPlic(names: Names, b: Body, found: Discovery)
    ensures Collect(names, PlicNode, b, found)
      == found.(plicBase := OrElse(PairOf(LastReg(names, Tokens(b), 8), 0), found.plicBase))
    decreases b
  {
    match b {
      case Nothing =>
      case Property(o, v, rest) =>
        LastRegCons(names, Token.Prop(o, v), Tokens(rest), 8);
        CollectPlic(names, rest, Note(PlicNode, names(o), v, found));
      case Child(name, body, rest) =>
        LastRegChild(names, name, body, rest, 8);
        CollectPlic(names, body, found);
        CollectPlic(names, rest, Collect(names, PlicNode, body, found));
      case Padding(rest) =>
        LastRegCons(names, Nop, Tokens(rest), 8);
        CollectPlic(names, rest, found);
    }
  }

  lemma {:induction false} LastRegNops(names: Names, n: nat, size: nat)
    ensures LastReg(names, Nops(n), size) == None
    decreases n
  {
    if n > 0 {
      LastRegCons(names, Nop, Nops(n - 1), size);
      LastRegNops(names, n - 1, size);
    }
  }

  lemma LastRegOfTree(names: Names, t: Tree, size: nat)
    ensures LastReg(names, TreeTokens(t), size) == LastReg(names, Tokens(t.body), size)
  {
    var root := RootTokens(t.rootName, t.body);
    LastRegConcat(names, Nops(t.before), root + Nops(t.after), size);
    LastRegConcat(names, root, Nops(t.after), size);
    LastRegNops(names, t.before, size);
    LastRegNops(names, t.after, size);
    assert root == [Begin(t.rootName)] + (Tokens(t.body) + [End]);
    LastRegCons(names, Begin(t.rootName), Tokens(t.body) + [End], size);
    LastRegConcat(names, Tokens(t.body), [End], size);
    LastRegOne(names, End, size);
  }

  ghost function Found(names: Names, t: Tree): Discovery {
    ScanAll(names, START, TreeTokens(t)).found
  }

  /** What is found, and exactly when: the root node itself must be the memory or
      PLIC node, and base and size are then those of the last `reg` of the whole tree
      that is long enough; an IOMMU is found exactly when the root is neither and
      some node at any depth is compatible with one. */
  lemma WhatIsFound(names: Names, t: Tree)
    ensures var kind, ts := Classify(t.rootName), TreeTokens(t);
      Found(names, t) == Discovery(
        if kind == PlicNode then PairOf(LastReg(names, ts, 8), 0) else None,
        kind == PossibleIommu && HasIommuNode(names, t.body),
        if kind == MemoryNode then PairOf(LastReg(names, ts, 16), 0) else None,
        if kind == MemoryNode then PairOf(LastReg(names, ts, 16), 8) else None)
    ensures LastReg(names, TreeTokens(t), 8).Some? <==> HasNamed(names, t.body, REG, 8)
    ensures LastReg(names, TreeTokens(t), 16).Some? <==> HasNamed(names, t.body, REG, 16)
  {
    ScanOfTree(names, t);
    LastRegOfTree(names, t, 8);
    LastRegOfTree(names, t, 16);
    HasNamedIsReg(names, t.body, 8);
    HasNamedIsReg(names, t.body, 16);
    match Classify(t.rootName) {
      case MemoryNode => CollectMemory(names, t.body, NOTHING_FOUND);
      case PlicNode => CollectPlic(names, t.body, NOTHING_FOUND);
      case PossibleIommu => CollectIommu(names, t.body, NOTHING_FOUND);
    }
  }

  /** Section 2.2.1 gives the root no name. Then no memory region and no PLIC is
      ever found, and an IOMMU is found exactly when some node has one. */
  lemma UnnamedRoot(names: Names, t: Tree)
    requires t.rootName == []
    ensures Found(names, t) == Discovery(None, HasIommuNode(names, t.body), None, None)
  {
    WhatIsFound(names, t);
  }

  /** A memory node with one `reg` of 16 bytes, and nothing else. */
  function MemoryTree(name: seq<Byte>, value: seq<Byte>): Tree {
    Tree(0, name, Property(0, value, Nothing), 0)
  }

  lemma MemoryTreeFound(names: Names, name: seq<Byte>, value: seq<Byte>)
    requires Classify(name) == MemoryNode && names(0) == REG && |value| == 16
    ensures Found(names, MemoryTree(name, value)) == Discovery(None, false, Some(Pair(value, 0)), Some(Pair(value, 8)))
  {
    ScanOfTree(names, MemoryTree(name, value));
  }

  lemma MemoryTreeTokens(name: seq<Byte>, value: seq<Byte>)
    ensures TreeTokens(MemoryTree(name, value)) == [Begin(name), Token.Prop(0, value), End]
    ensures EncodeAll(TreeTokens(MemoryTree(name, value)))
      == Encode(Begin(name)) + (Encode(Token.Prop(0, value)) + Encode(End))
  {
    var ts := [Begin(name), Token.Prop(0, value), End];
    assert Tokens(Property(0, value, Nothing)) == [Token.Prop(0, value)];
    assert RootTokens(name, Property(0, value, Nothing)) == ts;
    assert Nops(0) == [];
    assert TreeTokens(MemoryTree(name, value)) == [] + (ts + []) == ts;
    assert ts[1..] == [Token.Prop(0, value), End] && ts[1..][1..] == [End] && [End][1..] == [];
    assert EncodeAll([End]) == Encode(End);
    assert EncodeAll(ts[1..]) == Encode(Token.Prop(0, value)) + Encode(End);
  }

  /** A tree on which the walker misses a memory node that is there. */
  lemma MemoryNodeMissed(names: Names, value: seq<Byte>)
    requires names(0) == REG && |value| == 16
    ensures var node := Property(0, value, Nothing);
      var memory := Child(MEMORY_AT + [56], node, Nothing);
      && HasNamed(names, memory, REG, 16)
      && Found(names, Tree(0, [], memory, 0)).memoryBase == None
      && Found(names, Tree(0, MEMORY_AT + [56], node, 0)).memoryBase == Some(Pair(value, 0))
  {
    var node := Property(0, value, Nothing);
    var memory := Child(MEMORY_AT + [56], node, Nothing);
    assert HasProperty(node, 0, value);
    assert HasProperty(memory, 0, value);
    UnnamedRoot(names, Tree(0, [], memory, 0));
    ScanOfTree(names, Tree(0, MEMORY_AT + [56], node, 0));
    assert MEMORY_AT <= MEMORY_AT + [56];
  }
}
