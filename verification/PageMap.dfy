/** The abstract page map: what the boot-time page tables mean.

    A directory is a lower-level table, named by its height above the pages
    (1 = the table that holds leaf entries) and by the address prefix it serves.
    A page map lists the directories in the order in which the fixed pool handed
    them out, and gives the leaf entry of every mapped page. */
module PageMap {

  const POOL_SIZE: nat := 16

  datatype Dir = Dir(h: nat, n: nat)

  datatype PageMap = PageMap(dirs: seq<Dir>, leaves: map<nat, nat>)

  /** One call of `map_page`: a page number and the leaf entry to store. */
  datatype Op = Op(page: nat, leaf: nat)

  const ENTRIES_PER_TABLE: nat := 512

  /** Bit 0 says that an entry is in use, on all three architectures. */
  predicate Present(e: nat) {
    e % 2 == 1
  }

  const EMPTY: PageMap := PageMap([], map[])

  /** The prefix of page `v` that a table of height `h` is named by. */
  function Up(v: nat, h: nat): nat {
    if h == 0 then v else Up(v, h - 1) / 512
  }

  // ---------------------------------------------------------------------
  // One call
  // ---------------------------------------------------------------------

  /** Creates the missing directories on the way from height `h` down to the
      leaf table of `v`, or stops when the pool is empty. */
  function Grow(dirs: seq<Dir>, v: nat, h: nat): (seq<Dir>, bool)
    decreases h
  {
    if h <= 1 then (dirs, true)
    else
      var d := Dir(h - 1, Up(v, h - 1));
      if d in dirs then Grow(dirs, v, h - 1)
      else if |dirs| >= POOL_SIZE then (dirs, false)
      else Grow(dirs + [d], v, h - 1)
  }

  function MapOne(levels: nat, pm: PageMap, op: Op): (PageMap, bool) {
    var (dirs, ok) := Grow(pm.dirs, op.page, levels);
    (PageMap(dirs, if ok then pm.leaves[op.page := op.leaf] else pm.leaves), ok)
  }

  /** Calls in sequence, stopping at the first failure. */
  function MapAll(levels: nat, pm: PageMap, ops: seq<Op>): (PageMap, bool)
    decreases |ops|
  {
    if ops == [] then (pm, true)
    else
      var (pm', ok) := MapOne(levels, pm, ops[0]);
      if ok then MapAll(levels, pm', ops[1..]) else (pm', false)
  }

  /** Calls in sequence, carrying on after failures. */
  function Run(levels: nat, pm: PageMap, ops: seq<Op>): PageMap
    decreases |ops|
  {
    if ops == [] then pm else Run(levels, MapOne(levels, pm, ops[0]).0, ops[1..])
  }

  // ---------------------------------------------------------------------
  // What the calls do, as sets
  // ---------------------------------------------------------------------

  ghost predicate Distinct<T>(s: seq<T>) {
    forall i, j :: 0 <= i < j < |s| ==> s[i] != s[j]
  }

  ghost function Elems<T>(s: seq<T>): set<T> {
    set x | x in s
  }

  /** The directories below height `h` that the walk to `v` passes through. */
  ghost function PathDirs(v: nat, h: nat): set<Dir> {
    set k | 1 <= k < h :: Dir(k, Up(v, k))
  }

  ghost function Pages(ops: seq<Op>): set<nat> {
    set op | op in ops :: op.page
  }

  ghost function DirsOf(levels: nat, pages: set<nat>): set<Dir> {
    set k, v | 1 <= k < levels && v in pages :: Dir(k, Up(v, k))
  }

  /** The last leaf that `ops` stores for each of its pages. */
  ghost function Written(ops: seq<Op>): (w: map<nat, nat>)
    ensures w.Keys == Pages(ops)
  {
    if ops == [] then map[]
    else
      assert ops == [ops[0]] + ops[1..];
      map[ops[0].page := ops[0].leaf] + Written(ops[1..])
  }

  ghost predicate ParentIn(levels: nat, dirs: seq<Dir>, d: Dir) {
    d.h + 1 < levels ==> Dir(d.h + 1, d.n / 512) in dirs
  }

  /** Every directory hangs from the root or from another directory. */
  ghost predicate Rooted(levels: nat, dirs: seq<Dir>) {
    && (forall d :: d in dirs ==> 1 <= d.h < levels)
    && (forall d {:trigger ParentIn(levels, dirs, d)} :: d in dirs ==> ParentIn(levels, dirs, d))
  }

  /** The invariant of every page map the code can reach. */
  ghost predicate Sound(levels: nat, pm: PageMap) {
    && Distinct(pm.dirs) && |pm.dirs| <= POOL_SIZE
    && Rooted(levels, pm.dirs)
    && (forall v :: v in pm.leaves ==> Dir(1, Up(v, 1)) in pm.dirs)
  }

  lemma ElemsOfMore<T>(init: seq<T>, last: T)
    requires Distinct(init + [last])
    ensures Elems(init + [last]) == Elems(init) + {last} && last !in Elems(init) && Distinct(init)
  {
    var s := init + [last];
    assert s[..|init|] == init && s[|init|] == last;
    assert forall i :: 0 <= i < |init| ==> s[i] == init[i];
  }

  lemma {:induction false} CardinalOfDistinct<T>(s: seq<T>)
    requires Distinct(s)
    ensures |Elems(s)| == |s|
  {
    if s != [] {
      var init, last := s[..|s| - 1], s[|s| - 1];
      assert s == init + [last];
      ElemsOfMore(init, last);
      CardinalOfDistinct(init);
    }
  }

  lemma SubsetCardinal<T>(a: set<T>, b: set<T>)
    requires a <= b
    ensures |a| <= |b|
    ensures |a| == |b| ==> a == b
  {
    assert b == a + (b - a);
  }

  lemma GrowUnfolds(dirs: seq<Dir>, v: nat, h: nat)
    requires h > 1
    ensures var d := Dir(h - 1, Up(v, h - 1));
      Grow(dirs, v, h) ==
        if d in dirs then Grow(dirs, v, h - 1)
        else if |dirs| >= POOL_SIZE then (dirs, false)
        else Grow(dirs + [d], v, h - 1)
  {
  }

  ghost predicate OnPath(d: Dir, v: nat, h: nat) {
    1 <= d.h < h && d.n == Up(v, d.h)
  }

  lemma {:induction false} GrowStep(dirs: seq<Dir>, v: nat, h: nat)
    requires Distinct(dirs) && |dirs| <= POOL_SIZE
    ensures var (dirs', ok) := Grow(dirs, v, h);
      && Distinct(dirs') && dirs <= dirs' && |dirs'| <= POOL_SIZE
      && (forall d :: d in dirs' ==> d in dirs || OnPath(d, v, h))
      && (ok ==> forall k :: 1 <= k < h ==> Dir(k, Up(v, k)) in dirs')
      && (!ok ==> |dirs'| == POOL_SIZE && exists k :: 1 <= k < h && Dir(k, Up(v, k)) !in dirs')
    decreases h
  {
    if h > 1 {
      var d := Dir(h - 1, Up(v, h - 1));
      if d in dirs {
        GrowStep(dirs, v, h - 1);
      } else if |dirs| < POOL_SIZE {
        GrowStep(dirs + [d], v, h - 1);
        assert d in dirs + [d];
      }
    }
  }

  /** What growing a path means: it succeeds exactly when the directories it has
      and those it needs fit in the pool together; on success it has both, and
      on failure the pool is used up and some of the path is missing. */
  lemma GrowMeaning(dirs: seq<Dir>, v: nat, h: nat)
    requires Distinct(dirs) && |dirs| <= POOL_SIZE
    ensures var (dirs', ok) := Grow(dirs, v, h);
      && Distinct(dirs') && dirs <= dirs' && |dirs'| <= POOL_SIZE
      && (ok <==> |Elems(dirs) + PathDirs(v, h)| <= 16)
      && (ok ==> Elems(dirs') == Elems(dirs) + PathDirs(v, h))
      && (!ok ==> |dirs'| == POOL_SIZE && !(PathDirs(v, h) <= Elems(dirs')))
  {
    var (dirs', ok) := Grow(dirs, v, h);
    GrowStep(dirs, v, h);
    CardinalOfDistinct(dirs');
    var all := Elems(dirs) + PathDirs(v, h);
    assert Elems(dirs') <= all;
    if ok {
      assert PathDirs(v, h) <= Elems(dirs');
      assert Elems(dirs') == all;
    } else {
      var k :| 1 <= k < h && Dir(k, Up(v, k)) !in dirs';
      assert Dir(k, Up(v, k)) in PathDirs(v, h);
      SubsetCardinal(Elems(dirs'), all);
    }
  }

  lemma {:induction false} GrowRooted(levels: nat, dirs: seq<Dir>, v: nat, h: nat)
    requires 1 <= h <= levels && Rooted(levels, dirs)
    requires h < levels ==> Dir(h, Up(v, h)) in dirs
    ensures Rooted(levels, Grow(dirs, v, h).0)
    decreases h
  {
    if h > 1 {
      var d := Dir(h - 1, Up(v, h - 1));
      if d in dirs {
        GrowRooted(levels, dirs, v, h - 1);
      } else if |dirs| < POOL_SIZE {
        forall x | x in dirs + [d]
          ensures ParentIn(levels, dirs + [d], x)
        {
          assert x in dirs ==> ParentIn(levels, dirs, x);
        }
        GrowRooted(levels, dirs + [d], v, h - 1);
      }
    }
  }

  lemma PathReachesLeafTable(v: nat, h: nat)
    requires h >= 2
    ensures Dir(1, Up(v, 1)) in PathDirs(v, h)
  {
  }

  lemma MapOneSound(levels: nat, pm: PageMap, op: Op)
    requires levels >= 2 && Sound(levels, pm)
    ensures Sound(levels, MapOne(levels, pm, op).0)
  {
    GrowMeaning(pm.dirs, op.page, levels);
    GrowRooted(levels, pm.dirs, op.page, levels);
    PathReachesLeafTable(op.page, levels);
    var (dirs, ok) := Grow(pm.dirs, op.page, levels);
    assert ok ==> Dir(1, Up(op.page, 1)) in Elems(dirs);
  }

  /** A rooted set of directories that has a table has everything above it. */
  lemma {:induction false} RootedHasPath(levels: nat, dirs: seq<Dir>, v: nat, h: nat)
    requires Rooted(levels, dirs) && 1 <= h < levels && Dir(h, Up(v, h)) in dirs
    ensures forall k :: h <= k < levels ==> Dir(k, Up(v, k)) in dirs
    decreases levels - h
  {
    if h + 1 < levels {
      assert ParentIn(levels, dirs, Dir(h, Up(v, h)));
      RootedHasPath(levels, dirs, v, h + 1);
    }
  }

  /** Once the pool is used up, a call changes no table and succeeds exactly on
      the pages whose leaf table already exists. */
  lemma FullPool(levels: nat, pm: PageMap, op: Op)
    requires levels >= 2 && Sound(levels, pm) && |pm.dirs| == POOL_SIZE
    ensures MapOne(levels, pm, op).0.dirs == pm.dirs
    ensures MapOne(levels, pm, op).1 <==> Dir(1, Up(op.page, 1)) in pm.dirs
  {
    GrowMeaning(pm.dirs, op.page, levels);
    PathReachesLeafTable(op.page, levels);
    CardinalOfDistinct(pm.dirs);
    var (dirs, ok) := Grow(pm.dirs, op.page, levels);
    assert dirs == pm.dirs;
    if Dir(1, Up(op.page, 1)) in pm.dirs {
      RootedHasPath(levels, pm.dirs, op.page, 1);
      assert PathDirs(op.page, levels) <= Elems(pm.dirs);
    }
    if ok {
      assert Dir(1, Up(op.page, 1)) in Elems(dirs);
    }
  }

  lemma {:induction false} FullPoolForever(levels: nat, pm: PageMap, ops: seq<Op>)
    requires levels >= 2 && Sound(levels, pm) && |pm.dirs| == POOL_SIZE
    ensures Run(levels, pm, ops).dirs == pm.dirs
    decreases |ops|
  {
    if ops != [] {
      FullPool(levels, pm, ops[0]);
      MapOneSound(levels, pm, ops[0]);
      FullPoolForever(levels, MapOne(levels, pm, ops[0]).0, ops[1..]);
    }
  }

  // ---------------------------------------------------------------------
  // Sequences of calls
  // ---------------------------------------------------------------------

  lemma DirsOfCons(levels: nat, ops: seq<Op>)
    requires ops != []
    ensures DirsOf(levels, Pages(ops)) == PathDirs(ops[0].page, levels) + DirsOf(levels, Pages(ops[1..]))
  {
    assert ops == [ops[0]] + ops[1..];
    assert Pages(ops) == {ops[0].page} + Pages(ops[1..]);
  }

  /** A sequence of calls succeeds exactly when the tables it starts with and all
      the tables its pages need fit in the pool, and then those are the tables
      there are. */
  lemma {:induction false} MapAllDirs(levels: nat, pm: PageMap, ops: seq<Op>)
    requires levels >= 2 && Sound(levels, pm)
    ensures var (pm', ok) := MapAll(levels, pm, ops);
      var all := Elems(pm.dirs) + DirsOf(levels, Pages(ops));
      && Sound(levels, pm') && pm.dirs <= pm'.dirs
      && (ok <==> |all| <= 16)
      && (ok ==> Elems(pm'.dirs) == all)
      && (!ok ==> |pm'.dirs| == 16)
    decreases |ops|
  {
    if ops == [] {
      assert Elems(pm.dirs) + DirsOf(levels, Pages(ops)) == Elems(pm.dirs);
      CardinalOfDistinct(pm.dirs);
    } else {
      var (next, ok) := MapOne(levels, pm, ops[0]);
      GrowMeaning(pm.dirs, ops[0].page, levels);
      MapOneSound(levels, pm, ops[0]);
      DirsOfCons(levels, ops);
      var path, rest := PathDirs(ops[0].page, levels), DirsOf(levels, Pages(ops[1..]));
      assert Elems(pm.dirs) + DirsOf(levels, Pages(ops)) == (Elems(pm.dirs) + path) + rest;
      if ok {
        MapAllDirs(levels, next, ops[1..]);
      } else {
        SubsetCardinal(Elems(pm.dirs) + path, (Elems(pm.dirs) + path) + rest);
      }
    }
  }

  lemma UpdateIsMerge(m: map<nat, nat>, k: nat, v: nat)
    ensures m[k := v] == m + map[k := v]
  {
  }

  lemma {:induction false} MapAllLeaves(levels: nat, pm: PageMap, ops: seq<Op>)
    requires MapAll(levels, pm, ops).1
    ensures MapAll(levels, pm, ops).0.leaves == pm.leaves + Written(ops)
    decreases |ops|
  {
    if ops != [] {
      var next := MapOne(levels, pm, ops[0]).0;
      MapAllLeaves(levels, next, ops[1..]);
      UpdateIsMerge(pm.leaves, ops[0].page, ops[0].leaf);
      MergeAssociates(pm.leaves, map[ops[0].page := ops[0].leaf], Written(ops[1..]));
    }
  }

  /** A failing sequence is a successful proper prefix of it, then a call that
      fails and changes no leaf. */
  lemma {:induction false} MapAllPrefix(levels: nat, pm: PageMap, ops: seq<Op>) returns (m: nat)
    requires !MapAll(levels, pm, ops).1
    ensures m < |ops|
    ensures MapAll(levels, pm, ops[..m]).1
    ensures MapAll(levels, pm, ops) == MapOne(levels, MapAll(levels, pm, ops[..m]).0, ops[m])
    decreases |ops|
  {
    var (next, ok) := MapOne(levels, pm, ops[0]);
    if ok {
      var k := MapAllPrefix(levels, next, ops[1..]);
      m := k + 1;
      assert ops[..m] == [ops[0]] + ops[1..][..k];
      assert ops[..m][1..] == ops[1..][..k];
    } else {
      m := 0;
    }
  }

  // ---------------------------------------------------------------------
  // Counting
  // ---------------------------------------------------------------------

  /** The distinct prefixes, at height `h`, of a set of pages. */
  ghost function Prefixes(pages: set<nat>, h: nat): set<nat> {
    set v | v in pages :: Up(v, h)
  }

  ghost function TablesFor(levels: nat, pages: set<nat>): nat {
    if levels <= 1 then 0 else |Prefixes(pages, levels - 1)| + TablesFor(levels - 1, pages)
  }

  ghost function LevelDirs(h: nat, ns: set<nat>): set<Dir> {
    set n | n in ns :: Dir(h, n)
  }

  lemma {:induction false} CardinalOfLevel(h: nat, ns: set<nat>)
    ensures |LevelDirs(h, ns)| == |ns|
  {
    if ns != {} {
      var n :| n in ns;
      CardinalOfLevel(h, ns - {n});
      assert LevelDirs(h, ns) == LevelDirs(h, ns - {n}) + {Dir(h, n)};
    }
  }

  /** Exact accounting: a set of pages needs, at each level below the root, one
      table per distinct prefix. */
  lemma {:induction false} TablesAreCounted(levels: nat, pages: set<nat>)
    ensures |DirsOf(levels, pages)| == TablesFor(levels, pages)
  {
    if levels <= 1 {
      assert DirsOf(levels, pages) == {};
    } else {
      var top := LevelDirs(levels - 1, Prefixes(pages, levels - 1));
      TablesAreCounted(levels - 1, pages);
      CardinalOfLevel(levels - 1, Prefixes(pages, levels - 1));
      TopLevelApart(levels, pages);
    }
  }

  lemma TopLevelApart(levels: nat, pages: set<nat>)
    requires levels > 1
    ensures DirsOf(levels, pages) == DirsOf(levels - 1, pages) + LevelDirs(levels - 1, Prefixes(pages, levels - 1))
    ensures DirsOf(levels - 1, pages) !! LevelDirs(levels - 1, Prefixes(pages, levels - 1))
  {
    forall d | d in DirsOf(levels, pages) && d.h == levels - 1
      ensures d in LevelDirs(levels - 1, Prefixes(pages, levels - 1))
    {
      assert d.n in Prefixes(pages, levels - 1);
    }
  }

  /** After any run of successful calls from a fresh pool, the pool counter is
      the number of distinct prefixes, summed over the levels. */
  lemma PoolAccounting(levels: nat, ops: seq<Op>)
    requires levels >= 2 && MapAll(levels, EMPTY, ops).1
    ensures |MapAll(levels, EMPTY, ops).0.dirs| == TablesFor(levels, Pages(ops))
  {
    MapAllDirs(levels, EMPTY, ops);
    CardinalOfDistinct(MapAll(levels, EMPTY, ops).0.dirs);
    TablesAreCounted(levels, Pages(ops));
    assert Elems<Dir>([]) + DirsOf(levels, Pages(ops)) == DirsOf(levels, Pages(ops));
  }

  // ---------------------------------------------------------------------
  // Order and repetition
  // ---------------------------------------------------------------------

  lemma {:induction false} MapAllConcat(levels: nat, pm: PageMap, first: seq<Op>, second: seq<Op>)
    ensures var (mid, ok) := MapAll(levels, pm, first);
      MapAll(levels, pm, first + second) == if ok then MapAll(levels, mid, second) else (mid, false)
    decreases |first|
  {
    if first == [] {
      assert first + second == second;
    } else {
      assert (first + second)[1..] == first[1..] + second;
      MapAllConcat(levels, MapOne(levels, pm, first[0]).0, first[1..], second);
    }
  }

  lemma {:induction false} WrittenConcat(a: seq<Op>, b: seq<Op>)
    ensures Written(a + b) == Written(a) + Written(b)
  {
    if a == [] {
      assert a + b == b;
    } else {
      assert (a + b)[1..] == a[1..] + b;
      WrittenConcat(a[1..], b);
      MergeAssociates(map[a[0].page := a[0].leaf], Written(a[1..]), Written(b));
    }
  }

  lemma MergeAssociates(a: map<nat, nat>, b: map<nat, nat>, c: map<nat, nat>)
    ensures a + (b + c) == (a + b) + c
  {
  }

  /** Mapping the same pages again allocates nothing and changes nothing. */
  lemma RepeatIsIdle(levels: nat, pm: PageMap, ops: seq<Op>)
    requires levels >= 2 && Sound(levels, pm) && MapAll(levels, pm, ops).1
    ensures MapAll(levels, MapAll(levels, pm, ops).0, ops) == (MapAll(levels, pm, ops).0, true)
  {
    var once := MapAll(levels, pm, ops).0;
    RepeatKeepsDirs(levels, pm, ops);
    MapAllLeaves(levels, pm, ops);
    MapAllLeaves(levels, once, ops);
    assert (pm.leaves + Written(ops)) + Written(ops) == pm.leaves + Written(ops);
  }

  lemma RepeatKeepsDirs(levels: nat, pm: PageMap, ops: seq<Op>)
    requires levels >= 2 && Sound(levels, pm) && MapAll(levels, pm, ops).1
    ensures var once := MapAll(levels, pm, ops).0;
      MapAll(levels, once, ops).1 && MapAll(levels, once, ops).0.dirs == once.dirs
  {
    var once := MapAll(levels, pm, ops).0;
    MapAllDirs(levels, pm, ops);
    MapAllDirs(levels, once, ops);
    assert Elems(once.dirs) + DirsOf(levels, Pages(ops)) == Elems(once.dirs);
    CardinalOfDistinct(once.dirs);
    var twice := MapAll(levels, once, ops).0;
    CardinalOfDistinct(twice.dirs);
    assert |twice.dirs| == |once.dirs|;
  }

  /** Two runs over disjoint pages may be done in either order: both orders
      succeed or fail together, and when they succeed they leave the same leaves,
      the same set of tables and the same number of used slots. */
  lemma OrderIsIrrelevant(levels: nat, pm: PageMap, a: seq<Op>, b: seq<Op>)
    requires levels >= 2 && Sound(levels, pm) && Pages(a) !! Pages(b)
    ensures MapAll(levels, pm, a + b).1 == MapAll(levels, pm, b + a).1
    ensures MapAll(levels, pm, a + b).1 ==>
      var ab, ba := MapAll(levels, pm, a + b).0, MapAll(levels, pm, b + a).0;
      ab.leaves == ba.leaves && Elems(ab.dirs) == Elems(ba.dirs) && |ab.dirs| == |ba.dirs|
  {
    MapAllDirs(levels, pm, a + b);
    MapAllDirs(levels, pm, b + a);
    assert Pages(a + b) == Pages(a) + Pages(b) == Pages(b + a);
    if MapAll(levels, pm, a + b).1 {
      var ab, ba := MapAll(levels, pm, a + b).0, MapAll(levels, pm, b + a).0;
      MapAllLeaves(levels, pm, a + b);
      MapAllLeaves(levels, pm, b + a);
      WrittenConcat(a, b);
      WrittenConcat(b, a);
      DisjointMergeCommutes(Written(a), Written(b));
      CardinalOfDistinct(ab.dirs);
      CardinalOfDistinct(ba.dirs);
    }
  }

  lemma DisjointMergeCommutes(a: map<nat, nat>, b: map<nat, nat>)
    requires a.Keys !! b.Keys
    ensures a + b == b + a
  {
  }
}
