/** The page tables in memory: what their words are, for a given page map, and
    how a walk through memory finds an entry. */
module PageTables {
  import opened PageMap
  import opened Hal

  /** A page-table format: the number of levels, the entry that points at a
      table, the table that an entry points at, the leaf entry for a physical
      address with flags, and the flags for permissions. */
  datatype Format = Format(
    levels: nat,
    entry: nat -> nat,
    next: nat -> nat,
    leaf: (nat, nat) -> nat,
    flags: MapPermissions -> nat)

  /** A format, and where the root table (index 0) and the pool (1 to 16) are. */
  datatype Layout = Layout(format: Format, addr: seq<nat>)

  /** The contents of the root (row 0) and of the pool, and the pool counter. */
  datatype Tables = Tables(words: seq<seq<nat>>, next: nat)

  const ROWS: nat := POOL_SIZE + 1

  /** The entry for a table is in use and points back at the table. */
  ghost predicate Points(format: Format, table: nat) {
    Present(format.entry(table)) && format.next(format.entry(table)) == table
  }

  ghost predicate ValidLayout(lay: Layout) {
    && |lay.addr| == ROWS && Distinct(lay.addr)
    && 3 <= lay.format.levels <= 4
    && (forall phys: nat, flags: nat :: Present(lay.format.leaf(phys, flags)))
    && (forall t :: 0 <= t < ROWS ==> Points(lay.format, lay.addr[t]))
  }

  ghost predicate Shape(s: Tables) {
    && |s.words| == ROWS && s.next <= POOL_SIZE
    && (forall t :: 0 <= t < ROWS ==> |s.words[t]| == ENTRIES_PER_TABLE)
  }

  function RootDir(levels: nat): Dir {
    Dir(levels, 0)
  }

  ghost function DirAt(levels: nat, pm: PageMap, t: nat): Dir
    requires t <= |pm.dirs|
  {
    if t == 0 then RootDir(levels) else pm.dirs[t - 1]
  }

  ghost function RowOf(dirs: seq<Dir>, d: Dir): (t: nat)
    requires d in dirs
    ensures 1 <= t <= |dirs| && dirs[t - 1] == d
  {
    var k :| 0 <= k < |dirs| && dirs[k] == d;
    k + 1
  }

  /** The prefix or page that entry `i` of a table with prefix `n` stands for. */
  function Child(n: nat, i: nat): nat {
    n * 512 + i
  }

  ghost function EntryFor(lay: Layout, pm: PageMap, d: Dir, i: nat): nat
    requires ValidLayout(lay) && |pm.dirs| <= POOL_SIZE
  {
    var c := Child(d.n, i);
    if d.h <= 1 then
      if c in pm.leaves then pm.leaves[c] else 0
    else if Dir(d.h - 1, c) in pm.dirs then
      lay.format.entry(lay.addr[RowOf(pm.dirs, Dir(d.h - 1, c))])
    else 0
  }

  /** The prefix of a directory does not exceed what the indices can express. */
  ghost predicate DirInSpan(levels: nat, d: Dir) {
    d.h <= levels && Up(d.n, levels - d.h) == 0
  }

  ghost predicate LeafInSpan(levels: nat, v: nat, e: nat) {
    Up(v, levels) == 0 && Present(e)
  }

  ghost predicate InSpan(levels: nat, pm: PageMap) {
    && (forall d {:trigger DirInSpan(levels, d)} :: d in pm.dirs ==> DirInSpan(levels, d))
    && (forall v {:trigger LeafInSpan(levels, v, pm.leaves[v])}
      :: v in pm.leaves ==> LeafInSpan(levels, v, pm.leaves[v]))
  }

  /** The tables in memory are those of the page map, slot by slot. */
  ghost predicate Represents(lay: Layout, s: Tables, pm: PageMap) {
    match lay
    case Layout(format, addr) =>
      && ValidLayout(lay) && Shape(s)
      && Sound(format.levels, pm) && InSpan(format.levels, pm)
      && s.next == |pm.dirs|
      && (forall t, i :: 0 <= t <= s.next && 0 <= i < ENTRIES_PER_TABLE ==>
            s.words[t][i] == EntryFor(lay, pm, DirAt(format.levels, pm, t), i))
      && (forall t, i :: s.next < t < ROWS && 0 <= i < ENTRIES_PER_TABLE ==> s.words[t][i] == 0)
  }

  ghost function Write(s: Tables, t: nat, i: nat, e: nat): (s': Tables)
    requires Shape(s) && t < ROWS && i < ENTRIES_PER_TABLE
    ensures Shape(s') && s'.next == s.next
    ensures forall u, j :: 0 <= u < ROWS && 0 <= j < ENTRIES_PER_TABLE ==>
      s'.words[u][j] == if u == t && j == i then e else s.words[u][j]
  {
    var row: seq<nat> := s.words[t][i := e];
    s.(words := s.words[t := row])
  }

  // ---------------------------------------------------------------------
  // The two kinds of write
  // ---------------------------------------------------------------------

  lemma ChildInjective(n: nat, i: nat, n': nat, i': nat)
    requires i < 512 && i' < 512 && Child(n, i) == Child(n', i')
    ensures n == n' && i == i'
  {
    assert Child(n, i) / 512 == n && Child(n', i') / 512 == n';
  }

  lemma DirAtInjective(levels: nat, pm: PageMap, t: nat, u: nat)
    requires Sound(levels, pm) && t <= |pm.dirs| && u <= |pm.dirs|
    requires DirAt(levels, pm, t) == DirAt(levels, pm, u)
    ensures t == u
  {
    if t > 0 { assert pm.dirs[t - 1] in pm.dirs; }
    if u > 0 { assert pm.dirs[u - 1] in pm.dirs; }
  }

  /** The tables after linking the next pool table into entry `i` of row `t`. */
  ghost function LinkedTables(lay: Layout, s: Tables, t: nat, i: nat): Tables
    requires ValidLayout(lay) && Shape(s) && s.next < POOL_SIZE && t < ROWS && i < ENTRIES_PER_TABLE
  {
    Write(s, t, i, lay.format.entry(lay.addr[s.next + 1])).(next := s.next + 1)
  }

  ghost function ChildDir(levels: nat, pm: PageMap, t: nat, i: nat): Dir
    requires t <= |pm.dirs| && DirAt(levels, pm, t).h > 1
  {
    var d := DirAt(levels, pm, t);
    Dir(d.h - 1, Child(d.n, i))
  }

  ghost function LinkedMap(levels: nat, pm: PageMap, t: nat, i: nat): PageMap
    requires t <= |pm.dirs| && DirAt(levels, pm, t).h > 1
  {
    pm.(dirs := pm.dirs + [ChildDir(levels, pm, t, i)])
  }

  /** Linking a fresh table into a free entry adds one directory. */
  lemma LinkStep(lay: Layout, s: Tables, pm: PageMap, t: nat, i: nat)
    requires Represents(lay, s, pm) && t <= s.next < POOL_SIZE && i < ENTRIES_PER_TABLE
    requires DirAt(lay.format.levels, pm, t).h > 1 && ChildDir(lay.format.levels, pm, t, i) !in pm.dirs
    ensures Represents(lay, LinkedTables(lay, s, t, i), LinkedMap(lay.format.levels, pm, t, i))
  {
    var s', pm' := LinkedTables(lay, s, t, i), LinkedMap(lay.format.levels, pm, t, i);
    LinkSound(lay, pm, t, i);
    forall u, j | 0 <= u <= s'.next && 0 <= j < ENTRIES_PER_TABLE
      ensures s'.words[u][j] == EntryFor(lay, pm', DirAt(lay.format.levels, pm', u), j)
    {
      LinkEntry(lay, s, pm, t, i, u, j);
    }
  }

  lemma LinkEntry(lay: Layout, s: Tables, pm: PageMap, t: nat, i: nat, u: nat, j: nat)
    requires Represents(lay, s, pm) && t <= s.next < POOL_SIZE && i < ENTRIES_PER_TABLE
    requires DirAt(lay.format.levels, pm, t).h > 1 && ChildDir(lay.format.levels, pm, t, i) !in pm.dirs
    requires u <= s.next + 1 && j < ENTRIES_PER_TABLE
    ensures var pm' := LinkedMap(lay.format.levels, pm, t, i);
      LinkedTables(lay, s, t, i).words[u][j] == EntryFor(lay, pm', DirAt(lay.format.levels, pm', u), j)
  {
    var pm' := LinkedMap(lay.format.levels, pm, t, i);
    LinkSound(lay, pm, t, i);
    if u == s.next + 1 {
      assert pm'.dirs[..|pm'.dirs| - 1] == pm.dirs;
      assert pm'.dirs[|pm'.dirs| - 1] in pm'.dirs;
      FreshTableIsEmpty(lay, pm', j);
    } else {
      assert DirAt(lay.format.levels, pm', u) == DirAt(lay.format.levels, pm, u);
      if u == t && j == i {
        ChildInLink(lay, pm', DirAt(lay.format.levels, pm, t), i, s.next + 1);
      } else {
        LinkKeepsOthers(lay, pm, t, i, u, j);
      }
    }
  }

  lemma ChildInLink(lay: Layout, pm: PageMap, d: Dir, i: nat, r: nat)
    requires ValidLayout(lay) && 1 <= r <= |pm.dirs| <= POOL_SIZE && Distinct(pm.dirs)
    requires d.h > 1 && pm.dirs[r - 1] == Dir(d.h - 1, Child(d.n, i))
    ensures EntryFor(lay, pm, d, i) == lay.format.entry(lay.addr[r])
  {
    assert pm.dirs[r - 1] in pm.dirs;
    assert RowOf(pm.dirs, pm.dirs[r - 1]) == r;
  }

  lemma LinkSound(lay: Layout, pm: PageMap, t: nat, i: nat)
    requires Sound(lay.format.levels, pm) && InSpan(lay.format.levels, pm)
    requires t <= |pm.dirs| < POOL_SIZE && i < ENTRIES_PER_TABLE
    requires DirAt(lay.format.levels, pm, t).h > 1 && ChildDir(lay.format.levels, pm, t, i) !in pm.dirs
    ensures Sound(lay.format.levels, LinkedMap(lay.format.levels, pm, t, i))
    ensures InSpan(lay.format.levels, LinkedMap(lay.format.levels, pm, t, i))
  {
    var levels := lay.format.levels;
    var d, c := DirAt(lay.format.levels, pm, t), ChildDir(lay.format.levels, pm, t, i);
    if t > 0 { assert d in pm.dirs; }
    assert c.n / 512 == d.n;
    var dirs' := LinkedMap(levels, pm, t, i).dirs;
    forall x | x in dirs'
      ensures ParentIn(levels, dirs', x)
    {
      assert x in pm.dirs ==> ParentIn(levels, pm.dirs, x);
    }
    UpShift(c.n, levels - c.h);
    assert DirInSpan(levels, d);
    assert Up(c.n, levels - c.h) == Up(d.n, levels - d.h) == 0;
    forall x | x in dirs'
      ensures DirInSpan(levels, x)
    {
      assert x in pm.dirs ==> DirInSpan(levels, x);
    }
    forall v | v in pm.leaves
      ensures LeafInSpan(levels, v, pm.leaves[v])
    {
    }
  }

  lemma LinkKeepsOthers(lay: Layout, pm: PageMap, t: nat, i: nat, u: nat, j: nat)
    requires ValidLayout(lay) && Sound(lay.format.levels, pm)
    requires t <= |pm.dirs| && u <= |pm.dirs| < POOL_SIZE && i < ENTRIES_PER_TABLE && j < ENTRIES_PER_TABLE
    requires DirAt(lay.format.levels, pm, t).h > 1 && (u != t || j != i)
    requires ChildDir(lay.format.levels, pm, t, i) !in pm.dirs
    ensures EntryFor(lay, LinkedMap(lay.format.levels, pm, t, i), DirAt(lay.format.levels, pm, u), j)
      == EntryFor(lay, pm, DirAt(lay.format.levels, pm, u), j)
  {
    var d, e := DirAt(lay.format.levels, pm, t), DirAt(lay.format.levels, pm, u);
    var c, pm' := ChildDir(lay.format.levels, pm, t, i), LinkedMap(lay.format.levels, pm, t, i);
    if e.h > 1 {
      var x := Dir(e.h - 1, Child(e.n, j));
      if x == c {
        ChildInjective(e.n, j, d.n, i);
        DirAtInjective(lay.format.levels, pm, u, t);
        assert false;
      } else if x in pm.dirs {
        assert pm'.dirs[RowOf(pm.dirs, x) - 1] == x;
        assert x in pm'.dirs;
        assert RowOf(pm'.dirs, x) == RowOf(pm.dirs, x);
      }
    }
  }

  /** Shifting a prefix up one level at a time, from below or from above. */
  lemma {:induction false} UpShift(n: nat, k: nat)
    requires k >= 1
    ensures Up(n, k) == Up(n / 512, k - 1)
  {
    if k > 1 {
      UpShift(n, k - 1);
    }
  }

  /** The table linked last has no entries yet: nothing in the map is below it. */
  lemma FreshTableIsEmpty(lay: Layout, pm: PageMap, j: nat)
    requires ValidLayout(lay) && |pm.dirs| <= POOL_SIZE && j < ENTRIES_PER_TABLE && pm.dirs != []
    requires Distinct(pm.dirs)
    requires var c := pm.dirs[|pm.dirs| - 1];
      && 1 <= c.h < lay.format.levels
      && Sound(lay.format.levels, pm.(dirs := pm.dirs[..|pm.dirs| - 1]))
    ensures EntryFor(lay, pm, pm.dirs[|pm.dirs| - 1], j) == 0
  {
    var k := |pm.dirs| - 1;
    var c := pm.dirs[k];
    var v := Child(c.n, j);
    assert c !in pm.dirs[..k];
    assert v / 512 == c.n;
    if c.h == 1 {
      assert Up(v, 1) == Up(v, 0) / 512 == c.n;
      assert v !in pm.leaves;
    } else {
      var x := Dir(c.h - 1, v);
      assert x != c;
      assert x in pm.dirs[..k] ==> ParentIn(lay.format.levels, pm.dirs[..k], x);
    }
  }

  /** Writing a leaf entry maps one page. */
  lemma LeafStep(lay: Layout, s: Tables, pm: PageMap, t: nat, v: nat, leaf: nat)
    requires Represents(lay, s, pm) && t <= s.next
    requires DirAt(lay.format.levels, pm, t) == Dir(1, Up(v, 1)) && t > 0
    requires Up(v, lay.format.levels) == 0 && Present(leaf)
    ensures Represents(lay, Write(s, t, v % 512, leaf), pm.(leaves := pm.leaves[v := leaf]))
  {
    var levels := lay.format.levels;
    var s', pm' := Write(s, t, v % 512, leaf), pm.(leaves := pm.leaves[v := leaf]);
    assert Up(v, 1) == Up(v, 0) / 512 == v / 512;
    assert Child(Up(v, 1), v % 512) == v;
    assert pm.dirs[t - 1] in pm.dirs;
    assert InSpan(levels, pm') by {
      forall x | x in pm'.dirs
        ensures DirInSpan(levels, x)
      {
      }
      forall x | x in pm'.leaves
        ensures LeafInSpan(levels, x, pm'.leaves[x])
      {
        assert x in pm.leaves ==> LeafInSpan(levels, x, pm.leaves[x]);
      }
    }
    forall u, j | 0 <= u <= s'.next && 0 <= j < ENTRIES_PER_TABLE
      ensures s'.words[u][j] == EntryFor(lay, pm', DirAt(levels, pm', u), j)
    {
      var e := DirAt(levels, pm, u);
      assert DirAt(levels, pm', u) == e;
      if e.h <= 1 && Child(e.n, j) == v {
        ChildInjective(e.n, j, Up(v, 1), v % 512);
        if u > 0 { assert pm.dirs[u - 1] in pm.dirs; }
        DirAtInjective(levels, pm, u, t);
      }
    }
  }

  /** What the entry on the path of page `v` holds, at row `t` of height `h`:
      the pointer to row `u`, or, when `u` is 0, the leaf entry of `v` if there
      is one and otherwise nothing. */
  lemma EntryOnPath(lay: Layout, s: Tables, pm: PageMap, t: nat, v: nat, h: nat) returns (e: nat, u: nat)
    requires Represents(lay, s, pm) && t <= s.next && h >= 1
    requires DirAt(lay.format.levels, pm, t) == Dir(h, Up(v, h))
    ensures h <= lay.format.levels && e == s.words[t][Up(v, h - 1) % 512]
    ensures h > 1 ==> ChildDir(lay.format.levels, pm, t, Up(v, h - 1) % 512) == Dir(h - 1, Up(v, h - 1))
    ensures u > 0 <==> h > 1 && Dir(h - 1, Up(v, h - 1)) in pm.dirs
    ensures u > 0 ==>
      && u <= s.next && DirAt(lay.format.levels, pm, u) == Dir(h - 1, Up(v, h - 1))
      && e == lay.format.entry(lay.addr[u]) && Present(e) && lay.format.next(e) == lay.addr[u]
    ensures h == 1 ==> if v in pm.leaves then Present(e) && e == pm.leaves[v] else !Present(e)
    ensures u == 0 && h > 1 ==> !Present(e) && v !in pm.leaves
  {
    var below := Up(v, h - 1);
    assert v in pm.leaves ==> LeafInSpan(lay.format.levels, v, pm.leaves[v]);
    e, u := s.words[t][below % 512], 0;
    if t > 0 { assert pm.dirs[t - 1] in pm.dirs; }
    assert Up(v, h) == below / 512;
    assert Child(Up(v, h), below % 512) == below;
    var d := Dir(h - 1, below);
    if h > 1 && d in pm.dirs {
      u := RowOf(pm.dirs, d);
      assert Points(lay.format, lay.addr[u]);
    } else if h > 1 {
      LeafNeedsPath(lay.format.levels, pm, v, h - 1);
    }
  }

  // ---------------------------------------------------------------------
  // Walking memory
  // ---------------------------------------------------------------------

  /** Physical memory, as the tables at their addresses. */
  type Memory = map<nat, seq<nat>>

  /** `mem` holds the root and the pool where the layout says they are. */
  ghost predicate Holds(mem: Memory, lay: Layout, s: Tables)
    requires ValidLayout(lay) && Shape(s)
  {
    forall t :: 0 <= t < ROWS ==> lay.addr[t] in mem && mem[lay.addr[t]] == s.words[t]
  }

  /** Such a memory exists: no two tables share an address. */
  lemma MemoryExists(lay: Layout, s: Tables) returns (mem: Memory)
    requires ValidLayout(lay) && Shape(s)
    ensures Holds(mem, lay, s)
  {
    mem := map[];
    for k := 0 to ROWS
      invariant forall t :: 0 <= t < k ==> lay.addr[t] in mem && mem[lay.addr[t]] == s.words[t]
    {
      mem := mem[lay.addr[k] := s.words[k]];
    }
  }

  /** The walk the builder's own code performs: follow entries that are in use,
      by address, and return the leaf entry of page `v`. */
  ghost function Walk(format: Format, mem: Memory, table: nat, v: nat, h: nat): Option<nat>
    decreases h
  {
    if h == 0 || table !in mem || |mem[table]| != ENTRIES_PER_TABLE then None
    else
      var e := mem[table][Up(v, h - 1) % 512];
      if !Present(e) then None
      else if h == 1 then Some(e)
      else Walk(format, mem, format.next(e), v, h - 1)
  }

  ghost function Lookup<V>(m: map<nat, V>, v: nat): Option<V> {
    if v in m then Some(m[v]) else None
  }

  lemma WalkUnfolds(format: Format, mem: Memory, table: nat, v: nat, h: nat, e: nat)
    requires h >= 1 && table in mem && |mem[table]| == ENTRIES_PER_TABLE && e == mem[table][Up(v, h - 1) % 512]
    ensures Walk(format, mem, table, v, h) ==
      if !Present(e) then None else if h == 1 then Some(e) else Walk(format, mem, format.next(e), v, h - 1)
  {
  }

  lemma WalkStep(mem: Memory, lay: Layout, s: Tables, pm: PageMap, t: nat, v: nat, h: nat) returns (u: nat)
    requires Represents(lay, s, pm) && Holds(mem, lay, s) && t <= s.next && 1 <= h
    requires DirAt(lay.format.levels, pm, t) == Dir(h, Up(v, h))
    ensures u > 0 ==>
      && h > 1 && u <= s.next && DirAt(lay.format.levels, pm, u) == Dir(h - 1, Up(v, h - 1))
      && Walk(lay.format, mem, lay.addr[t], v, h) == Walk(lay.format, mem, lay.addr[u], v, h - 1)
    ensures u == 0 ==> Walk(lay.format, mem, lay.addr[t], v, h) == Lookup(pm.leaves, v)
  {
    var e;
    e, u := EntryOnPath(lay, s, pm, t, v, h);
    WalkUnfolds(lay.format, mem, lay.addr[t], v, h, e);
  }

  lemma {:induction false} WalkFromDir(mem: Memory, lay: Layout, s: Tables, pm: PageMap, t: nat, v: nat, h: nat)
    requires Represents(lay, s, pm) && Holds(mem, lay, s) && t <= s.next && 1 <= h
    requires DirAt(lay.format.levels, pm, t) == Dir(h, Up(v, h))
    ensures Walk(lay.format, mem, lay.addr[t], v, h) == Lookup(pm.leaves, v)
    decreases h
  {
    var u := WalkStep(mem, lay, s, pm, t, v, h);
    if u > 0 {
      WalkFromDir(mem, lay, s, pm, u, v, h - 1);
    }
  }

  /** A mapped page has every table of its path. */
  lemma LeafNeedsPath(levels: nat, pm: PageMap, v: nat, h: nat)
    requires Sound(levels, pm) && 1 <= h < levels && Dir(h, Up(v, h)) !in pm.dirs
    ensures v !in pm.leaves
  {
    if v in pm.leaves {
      RootedHasPath(levels, pm.dirs, v, 1);
      assert false;
    }
  }

  /** The translation found in memory is the page map. */
  lemma WalkIsLookup(mem: Memory, lay: Layout, s: Tables, pm: PageMap, v: nat)
    requires Represents(lay, s, pm) && Holds(mem, lay, s) && Up(v, lay.format.levels) == 0
    ensures Walk(lay.format, mem, lay.addr[0], v, lay.format.levels) == Lookup(pm.leaves, v)
  {
    WalkFromDir(mem, lay, s, pm, 0, v, lay.format.levels);
  }

  /** The tables form a tree: each row in use has one level; each entry in use of
      a non-leaf row leads to a pool row in use, one level down, and never back to
      the root; no two entries lead to the same row, and every pool row in use has
      an entry that leads to it. */
  ghost predicate IsTree(lay: Layout, s: Tables, level: seq<nat>)
    requires ValidLayout(lay) && Shape(s)
  {
    && |level| == s.next + 1 && level[0] == lay.format.levels
    && (forall t :: 0 <= t <= s.next ==> level[t] >= 1)
    && (forall t, i :: 0 <= t <= s.next && level[t] > 1 && 0 <= i < 512 && Present(s.words[t][i]) ==>
          exists u :: 1 <= u <= s.next && Leads(lay, s, t, i, u) && level[u] == level[t] - 1)
    && (forall t, i, t', i', u |
          && 0 <= t <= s.next && 0 <= t' <= s.next && level[t] > 1 && level[t'] > 1
          && 0 <= i < 512 && 0 <= i' < 512 && 0 <= u < ROWS
          && Leads(lay, s, t, i, u) && Leads(lay, s, t', i', u)
          :: t == t' && i == i' && u > 0)
    && (forall u :: 1 <= u <= s.next ==> HasParent(lay, s, level, u))
  }

  ghost predicate HasParent(lay: Layout, s: Tables, level: seq<nat>, u: nat)
    requires ValidLayout(lay) && Shape(s) && u < ROWS && |level| == s.next + 1
  {
    exists t, i :: 0 <= t <= s.next && 0 <= i < 512 && level[t] > 1 && Leads(lay, s, t, i, u)
  }

  ghost predicate Leads(lay: Layout, s: Tables, t: nat, i: nat, u: nat)
    requires ValidLayout(lay) && Shape(s) && t < ROWS && i < 512 && u < ROWS
  {
    Present(s.words[t][i]) && lay.format.next(s.words[t][i]) == lay.addr[u]
  }

  lemma LeadsToChild(lay: Layout, s: Tables, pm: PageMap, t: nat, i: nat, u: nat)
    requires Represents(lay, s, pm) && t <= s.next && i < 512 && u < ROWS
    requires DirAt(lay.format.levels, pm, t).h > 1
    ensures var d := DirAt(lay.format.levels, pm, t);
      Leads(lay, s, t, i, u) <==> 1 <= u <= s.next && DirAt(lay.format.levels, pm, u) == Dir(d.h - 1, Child(d.n, i))
  {
    var d := DirAt(lay.format.levels, pm, t);
    var c := Dir(d.h - 1, Child(d.n, i));
    if c in pm.dirs {
      var r := RowOf(pm.dirs, c);
      assert Points(lay.format, lay.addr[r]);
      assert Leads(lay, s, t, i, u) <==> lay.addr[r] == lay.addr[u];
      if lay.addr[r] == lay.addr[u] {
        assert r == u;
      }
      if 1 <= u <= s.next && DirAt(lay.format.levels, pm, u) == c {
        DirAtInjective(lay.format.levels, pm, u, r);
      }
    } else if 1 <= u <= s.next {
      assert DirAt(lay.format.levels, pm, u) in pm.dirs;
    }
  }

  /** In every reachable state the tables form a tree. */
  lemma TablesFormTree(lay: Layout, s: Tables, pm: PageMap)
    requires Represents(lay, s, pm)
    ensures exists level :: IsTree(lay, s, level)
  {
    var levels := lay.format.levels;
    var level := seq(s.next + 1, t requires 0 <= t <= s.next => DirAt(levels, pm, t).h);
    forall t | 0 <= t <= s.next
      ensures level[t] == DirAt(levels, pm, t).h >= 1
    {
      if t > 0 { assert DirAt(levels, pm, t) in pm.dirs; }
    }
    forall t, i | 0 <= t <= s.next && level[t] > 1 && 0 <= i < 512 && Present(s.words[t][i])
      ensures exists u :: 1 <= u <= s.next && Leads(lay, s, t, i, u) && level[u] == level[t] - 1
    {
      var d := DirAt(levels, pm, t);
      var u := RowOf(pm.dirs, Dir(d.h - 1, Child(d.n, i)));
      LeadsToChild(lay, s, pm, t, i, u);
    }
    forall t, i, t', i', u | 0 <= t <= s.next && 0 <= t' <= s.next && level[t] > 1 && level[t'] > 1 && 0 <= i < 512
      && 0 <= i' < 512
      && 0 <= u < ROWS && Leads(lay, s, t, i, u) && Leads(lay, s, t', i', u)
      ensures t == t' && i == i' && u > 0
    {
      LeadsToChild(lay, s, pm, t, i, u);
      LeadsToChild(lay, s, pm, t', i', u);
      ChildInjective(DirAt(levels, pm, t).n, i, DirAt(levels, pm, t').n, i');
      DirAtInjective(levels, pm, t, t');
    }
    forall u | 1 <= u <= s.next
      ensures HasParent(lay, s, level, u)
    {
      var t, i := ParentEntry(lay, s, pm, u);
      LeadsToChild(lay, s, pm, t, i, u);
    }
    assert IsTree(lay, s, level);
  }

  lemma ParentEntry(lay: Layout, s: Tables, pm: PageMap, u: nat) returns (t: nat, i: nat)
    requires Represents(lay, s, pm) && 1 <= u <= s.next
    ensures t <= s.next && i < 512
    ensures var d := DirAt(lay.format.levels, pm, t);
      d.h > 1 && DirAt(lay.format.levels, pm, u) == Dir(d.h - 1, Child(d.n, i))
  {
    var c := DirAt(lay.format.levels, pm, u);
    assert c in pm.dirs;
    i := c.n % 512;
    if c.h + 1 < lay.format.levels {
      assert ParentIn(lay.format.levels, pm.dirs, c);
      t := RowOf(pm.dirs, Dir(c.h + 1, c.n / 512));
    } else {
      t := 0;
      assert DirInSpan(lay.format.levels, c);
      assert Up(c.n, 1) == Up(c.n, 0) / 512;
    }
  }
}
