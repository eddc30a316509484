/** Results about whole regions and sequences of regions. */
module PageTheorems {
  import opened Words
  import opened Bits
  import opened Hal
  import opened PageMap
  import opened PageTables
  import opened PageAddresses
  import opened PageRegions

  /** A call of `setup_identity_mapping`. */
  datatype Region = Region(base: nat, length: nat, perms: MapPermissions)

  /** The region ends where the table indices do, or before, or is empty. */
  predicate Fits(levels: nat, r: Region) {
    r.base < U64_SIZE && (r.length == 0 || r.base + r.length <= PageSpan(levels) * 4096)
  }

  lemma RegionNotEmpty(levels: nat, r: Region)
    requires Fits(levels, r) && r.length > 0
    ensures FirstPage(r.base) < EndPage(r.base, r.length) <= PageSpan(levels)
    ensures EndPage(r.base, r.length) == (r.base + r.length + 4095) / 4096
  {
  }

  // ---------------------------------------------------------------------
  // What a call maps
  // ---------------------------------------------------------------------

  /** The pages from `a` up to `b`, each mapped to itself. */
  ghost function IdentityMap(f: Format, a: nat, b: nat, perms: MapPermissions): (m: map<nat, nat>)
    ensures forall v :: v in m <==> a <= v < b
    ensures forall v :: v in m ==> m[v] == IdentityLeaf(f, v, perms)
    decreases b - a
  {
    if a >= b then map[] else map[a := IdentityLeaf(f, a, perms)] + IdentityMap(f, a + 1, b, perms)
  }

  lemma IdentityMapStep(f: Format, leaves: map<nat, nat>, a: nat, m: nat, perms: MapPermissions)
    requires a < m
    ensures leaves[a := IdentityLeaf(f, a, perms)] + IdentityMap(f, a + 1, m, perms)
      == leaves + IdentityMap(f, a, m, perms)
  {
  }

  /** The first page from `a` on that a call does not map: `b` if it succeeds. */
  ghost function StopPage(f: Format, pm: PageMap, a: nat, b: nat, perms: MapPermissions): nat
    decreases b - a
  {
    if a >= b then b
    else
      var (pm', ok) := MapOne(f.levels, pm, IdentityOp(f, a, perms));
      if ok then StopPage(f, pm', a + 1, b, perms) else a
  }

  lemma {:induction false} StopPageIsEnd(f: Format, pm: PageMap, a: nat, b: nat, perms: MapPermissions)
    requires a <= b
    ensures a <= StopPage(f, pm, a, b, perms) <= b
    ensures MapPages(f, pm, a, b, perms).1 <==> StopPage(f, pm, a, b, perms) == b
    decreases b - a
  {
    if a < b {
      var (next, ok) := MapOne(f.levels, pm, IdentityOp(f, a, perms));
      if ok {
        StopPageIsEnd(f, next, a + 1, b, perms);
      }
    }
  }

  /** Writing the leaves from page `a` up to page `m`, in order. */
  ghost function WriteLeaves(f: Format, leaves: map<nat, nat>, a: nat, m: nat, perms: MapPermissions): map<nat, nat>
    decreases m - a
  {
    if a >= m then leaves else WriteLeaves(f, leaves[a := IdentityLeaf(f, a, perms)], a + 1, m, perms)
  }

  lemma WriteLeavesCons(f: Format, leaves: map<nat, nat>, a: nat, m: nat, perms: MapPermissions)
    requires a < m
    ensures WriteLeaves(f, leaves, a, m, perms)
      == WriteLeaves(f, leaves[a := IdentityLeaf(f, a, perms)], a + 1, m, perms)
  {
  }

  lemma {:induction false} WriteLeavesMerges(f: Format, leaves: map<nat, nat>, a: nat, m: nat, perms: MapPermissions)
    ensures WriteLeaves(f, leaves, a, m, perms) == leaves + IdentityMap(f, a, m, perms)
    decreases m - a
  {
    if a < m {
      WriteLeavesMerges(f, leaves[a := IdentityLeaf(f, a, perms)], a + 1, m, perms);
      IdentityMapStep(f, leaves, a, m, perms);
    }
  }

  lemma {:induction false} StopPageLeaves(f: Format, pm: PageMap, a: nat, b: nat, perms: MapPermissions)
    requires a <= b <= PageSpan(f.levels)
    ensures MapPages(f, pm, a, b, perms).0.leaves == WriteLeaves(f, pm.leaves, a, StopPage(f, pm, a, b, perms), perms)
    decreases b - a
  {
    if a < b {
      var next, ok := PagesStep(f, pm, a, b, perms);
      assert Wrap(f.levels, a) == a;
      if ok {
        StopPageIsEnd(f, next, a + 1, b, perms);
        WriteLeavesCons(f, pm.leaves, a, StopPage(f, pm, a, b, perms), perms);
        StopPageLeaves(f, next, a + 1, b, perms);
      }
    }
  }

  /** Pages up to the stop page get mapped to themselves and nothing else changes;
      the stop page is the end exactly when the call succeeds. */
  lemma MapPagesLeaves(f: Format, pm: PageMap, a: nat, b: nat, perms: MapPermissions)
    requires a <= b <= PageSpan(f.levels)
    ensures a <= StopPage(f, pm, a, b, perms) <= b
    ensures MapPages(f, pm, a, b, perms).1 <==> StopPage(f, pm, a, b, perms) == b
    ensures MapPages(f, pm, a, b, perms).0.leaves == pm.leaves + IdentityMap(f, a, StopPage(f, pm, a, b, perms), perms)
  {
    StopPageIsEnd(f, pm, a, b, perms);
    StopPageLeaves(f, pm, a, b, perms);
    WriteLeavesMerges(f, pm.leaves, a, StopPage(f, pm, a, b, perms), perms);
  }

  lemma MapPagesSound(f: Format, pm: PageMap, a: nat, b: nat, perms: MapPermissions)
    requires 3 <= f.levels <= 4 && a <= b && Sound(f.levels, pm)
    ensures var (pm', ok) := MapPages(f, pm, a, b, perms);
      Sound(f.levels, pm') && pm.dirs <= pm'.dirs && (!ok ==> |pm'.dirs| == 16)
  {
    MapPagesIsMapAll(f, pm, a, b, perms);
    MapAllDirs(f.levels, pm, IdentityOps(f, a, b, perms));
  }

  lemma LookupInRange(f: Format, leaves: map<nat, nat>, a: nat, m: nat, perms: MapPermissions)
    ensures var after := leaves + IdentityMap(f, a, m, perms);
      && (forall v: nat :: a <= v < m ==> Lookup(after, v) == Some(IdentityLeaf(f, v, perms)))
      && (forall v: nat :: !(a <= v < m) ==> Lookup(after, v) == Lookup(leaves, v))
  {
  }

  /** On success every page of the region translates to itself with the requested
      permissions and every other page is unchanged. On failure that holds of a
      proper prefix of the region, and the pool is used up. An empty region is an
      error and changes nothing. */
  lemma RegionEffect(f: Format, pm: PageMap, r: Region) returns (m: nat)
    requires 3 <= f.levels <= 4 && Sound(f.levels, pm) && Fits(f.levels, r)
    ensures FirstPage(r.base) <= m && (r.length > 0 ==> m <= EndPage(r.base, r.length))
    ensures var (pm', res) := MapRegion(f, pm, r.base, r.length, r.perms);
      && Sound(f.levels, pm')
      && (res.Ok? <==> r.length > 0 && m == EndPage(r.base, r.length))
      && (res.Ok? ==> res.value == FirstPage(r.base) * 4096)
      && (res.Err? ==> res.error == InvalidMemoryRegion)
      && (res.Err? ==> if r.length == 0 then pm' == pm else |pm'.dirs| == 16)
      && (forall v: nat :: FirstPage(r.base) <= v < m ==> Lookup(pm'.leaves, v) == Some(IdentityLeaf(f, v, r.perms)))
      && (forall v: nat :: !(FirstPage(r.base) <= v < m) ==> Lookup(pm'.leaves, v) == Lookup(pm.leaves, v))
  {
    m := FirstPage(r.base);
    if r.length > 0 {
      RegionNotEmpty(f.levels, r);
      LookupInRange(f, pm.leaves, FirstPage(r.base),
        StopPage(f, pm, FirstPage(r.base), EndPage(r.base, r.length), r.perms), r.perms);
      m := StopPage(f, pm, FirstPage(r.base), EndPage(r.base, r.length), r.perms);
      MapPagesLeaves(f, pm, FirstPage(r.base), EndPage(r.base, r.length), r.perms);
      MapPagesSound(f, pm, FirstPage(r.base), EndPage(r.base, r.length), r.perms);
    }
  }

  // ---------------------------------------------------------------------
  // Regions past the index span
  // ---------------------------------------------------------------------

  /** The last page from `a` up to `m` that the indices take for page `v`. */
  ghost function LastAlias(levels: nat, a: nat, m: nat, v: nat): (p: Option<nat>)
    ensures p.Some? ==> a <= p.value < m && Wrap(levels, p.value) == v
    ensures p.None? ==> forall q :: a <= q < m ==> Wrap(levels, q) != v
    decreases m - a
  {
    if a >= m then None
    else if Wrap(levels, m - 1) == v then Some(m - 1)
    else LastAlias(levels, a, m - 1, v)
  }

  lemma {:induction false} LastAliasFrom(levels: nat, a: nat, m: nat, v: nat)
    requires a < m
    ensures LastAlias(levels, a, m, v) ==
      if LastAlias(levels, a + 1, m, v).Some? then LastAlias(levels, a + 1, m, v)
      else if Wrap(levels, a) == v then Some(a) else None
    decreases m - a
  {
    if a + 1 < m && Wrap(levels, m - 1) != v {
      LastAliasFrom(levels, a, m - 1, v);
    }
  }

  /** One turn of the loop that succeeds. */
  lemma PagesStep(f: Format, pm: PageMap, a: nat, b: nat, perms: MapPermissions) returns (next: PageMap, ok: bool)
    requires a < b
    ensures next.leaves == if ok then pm.leaves[Wrap(f.levels, a) := IdentityLeaf(f, a, perms)] else pm.leaves
    ensures MapPages(f, pm, a, b, perms) == if ok then MapPages(f, next, a + 1, b, perms) else (next, false)
    ensures StopPage(f, pm, a, b, perms) == if ok then StopPage(f, next, a + 1, b, perms) else a
  {
    var op := IdentityOp(f, a, perms);
    next, ok := MapOne(f.levels, pm, op).0, MapOne(f.levels, pm, op).1;
  }

  /** On any pages whatever: each page up to the stop page is mapped as the last page
      that the indices take for it, and nothing else changes. */
  lemma {:induction false} MapPagesAnywhere(f: Format, pm: PageMap, a: nat, b: nat, perms: MapPermissions, v: nat)
    requires a <= b
    ensures var p := LastAlias(f.levels, a, StopPage(f, pm, a, b, perms), v);
      Lookup(MapPages(f, pm, a, b, perms).0.leaves, v)
      == if p.Some? then Some(IdentityLeaf(f, p.value, perms)) else Lookup(pm.leaves, v)
    decreases b - a
  {
    if a < b {
      var next, ok := PagesStep(f, pm, a, b, perms);
      if ok {
        StopPageIsEnd(f, next, a + 1, b, perms);
        MapPagesAnywhere(f, next, a + 1, b, perms, v);
        LastAliasFrom(f.levels, a, StopPage(f, pm, a, b, perms), v);
      }
    }
  }

  /** The page up to which a call maps. */
  ghost function MappedUpTo(f: Format, pm: PageMap, r: Region): nat {
    var a, b := FirstPage(r.base), EndPage(r.base, r.length);
    if r.length == 0 || b <= a then a else StopPage(f, pm, a, b, r.perms)
  }

  /** What any call does, wherever its region lies: each page up to the page `m` is
      mapped as the last one that the indices take for it, and nothing else changes. */
  lemma RegionAnywhere(f: Format, pm: PageMap, r: Region)
    requires 3 <= f.levels <= 4 && Sound(f.levels, pm)
    ensures var m := MappedUpTo(f, pm, r); var a := FirstPage(r.base);
      var (pm', res) := MapRegion(f, pm, r.base, r.length, r.perms);
      && a <= m && (m == a || m <= EndPage(r.base, r.length))
      && Sound(f.levels, pm')
      && (res.Ok? <==> r.length > 0 && m >= EndPage(r.base, r.length))
      && (res.Ok? ==> res.value == a * 4096)
      && (res.Err? && r.length > 0 ==> |pm'.dirs| == 16)
      && (forall v: nat :: var p := LastAlias(f.levels, a, m, v);
            Lookup(pm'.leaves, v) == if p.Some? then Some(IdentityLeaf(f, p.value, r.perms)) else Lookup(pm.leaves, v))
  {
    var a, b := FirstPage(r.base), EndPage(r.base, r.length);
    if r.length > 0 && a < b {
      StopPageIsEnd(f, pm, a, b, r.perms);
      MapPagesSound(f, pm, a, b, r.perms);
      forall v: nat
        ensures var p := LastAlias(f.levels, a, MappedUpTo(f, pm, r), v);
          Lookup(MapPages(f, pm, a, b, r.perms).0.leaves, v)
          == if p.Some? then Some(IdentityLeaf(f, p.value, r.perms)) else Lookup(pm.leaves, v)
      {
        MapPagesAnywhere(f, pm, a, b, r.perms, v);
      }
    }
  }

  ghost predicate LeavesInSpan(levels: nat, pm: PageMap) {
    forall v :: v in pm.leaves ==> v < PageSpan(levels)
  }

  ghost predicate MapsToItself(f: Format, pm: PageMap, a: nat, b: nat, perms: MapPermissions) {
    forall p: nat :: a <= p < b ==> Lookup(pm.leaves, p) == Some(IdentityLeaf(f, p, perms))
  }

  /** A call that succeeds maps every page of its region to itself exactly when the
      region ends where the table indices do, or before. */
  lemma IdentityExactly(f: Format, pm: PageMap, base: nat, length: nat, perms: MapPermissions)
    requires 3 <= f.levels <= 4 && LeavesInSpan(f.levels, pm) && base < U64_SIZE && 0 < length < U64_SIZE
    requires MapRegion(f, pm, base, length, perms).1.Ok?
    ensures MapsToItself(f, MapRegion(f, pm, base, length, perms).0, base / 4096, (base + length + 4095) / 4096, perms)
      <==> base + length <= PageSpan(f.levels) * 4096
  {
    var a, b, end := FirstPage(base), EndPage(base, length), (base + length + 4095) / 4096;
    var after := MapRegion(f, pm, base, length, perms).0;
    if end <= PageSpan(f.levels) {
      EndPageExactly(base, length);
      StopPageIsEnd(f, pm, a, b, perms);
      MapPagesLeaves(f, pm, a, b, perms);
      LookupInRange(f, pm.leaves, a, b, perms);
    } else {
      NothingPastSpan(f, pm, a, b, perms, end - 1);
      assert Lookup(after.leaves, end - 1) == None && a <= end - 1;
    }
  }

  lemma NothingPastSpan(f: Format, pm: PageMap, a: nat, b: nat, perms: MapPermissions, v: nat)
    requires LeavesInSpan(f.levels, pm) && v >= PageSpan(f.levels)
    ensures Lookup(MapPages(f, pm, a, b, perms).0.leaves, v) == None
  {
    if a < b {
      MapPagesAnywhere(f, pm, a, b, perms, v);
      WrapsBelow(f.levels, a, StopPage(f, pm, a, b, perms), v);
    }
  }

  /** Every call keeps the leaves within the span, so this holds in every run. */
  lemma SpanIsKept(f: Format, pm: PageMap, r: Region)
    requires 3 <= f.levels <= 4 && Sound(f.levels, pm) && LeavesInSpan(f.levels, pm)
    ensures LeavesInSpan(f.levels, MapRegion(f, pm, r.base, r.length, r.perms).0)
  {
    var after := MapRegion(f, pm, r.base, r.length, r.perms).0;
    RegionAnywhere(f, pm, r);
    forall v: nat | v >= PageSpan(f.levels)
      ensures Lookup(after.leaves, v) == None
    {
      WrapsBelow(f.levels, FirstPage(r.base), MappedUpTo(f, pm, r), v);
    }
    assert forall v :: v in after.leaves ==> Lookup(after.leaves, v).Some?;
  }

  lemma WrapsBelow(levels: nat, a: nat, m: nat, v: nat)
    requires v >= PageSpan(levels)
    ensures LastAlias(levels, a, m, v).None?
  {
  }

  /** For instance the first page past the span is mapped with success, as page 0. */
  lemma PageZeroIsTaken(f: Format, perms: MapPermissions)
    requires 3 <= f.levels <= 4
    ensures var base := PageSpan(f.levels) * 4096;
      var (pm, res) := MapRegion(f, EMPTY, base, 4096, perms);
      res == Ok(base) && Lookup(pm.leaves, 0) == Some(IdentityLeaf(f, PageSpan(f.levels), perms))
  {
    var span := PageSpan(f.levels);
    assert FirstPage(span * 4096) == span && EndPage(span * 4096, 4096) == span + 1;
    assert Wrap(f.levels, span) == 0;
    var next := MapOne(f.levels, EMPTY, IdentityOp(f, span, perms)).0;
    FirstPathFits(f.levels, 0);
    assert MapPages(f, next, span + 1, span + 1, perms) == (next, true);
  }

  lemma FirstPathFits(levels: nat, v: nat)
    requires 3 <= levels <= 4
    ensures Grow([], v, levels).1
  {
    var path := PathDirs(v, levels);
    SubsetCardinal(path, {Dir(1, Up(v, 1)), Dir(2, Up(v, 2)), Dir(3, Up(v, 3))});
    assert Elems<Dir>([]) + path == path;
    GrowMeaning([], v, levels);
  }

  // ---------------------------------------------------------------------
  // When a call succeeds
  // ---------------------------------------------------------------------

  /** The pages from `a` up to `b`. */
  ghost function PageSet(a: nat, b: nat): (s: set<nat>)
    ensures forall v :: v in s <==> a <= v < b
    ensures |s| == if a < b then b - a else 0
    decreases b
  {
    if a >= b then {} else PageSet(a, b - 1) + {b - 1}
  }

  /** The identity-map calls of a region. */
  ghost function RegionOps(f: Format, r: Region): seq<Op> {
    if FirstPage(r.base) <= EndPage(r.base, r.length)
    then IdentityOps(f, FirstPage(r.base), EndPage(r.base, r.length), r.perms) else []
  }

  lemma RegionIsMapAll(f: Format, pm: PageMap, r: Region)
    requires r.length > 0
    ensures var (pm', res) := MapRegion(f, pm, r.base, r.length, r.perms);
      MapAll(f.levels, pm, RegionOps(f, r)) == (pm', res.Ok?)
  {
    if FirstPage(r.base) <= EndPage(r.base, r.length) {
      MapPagesIsMapAll(f, pm, FirstPage(r.base), EndPage(r.base, r.length), r.perms);
    }
  }

  /** What the table indices take the pages of a region for. */
  ghost function PagesOf(levels: nat, r: Region): set<nat> {
    set p | p in PageSet(FirstPage(r.base), EndPage(r.base, r.length)) :: Wrap(levels, p)
  }

  lemma PagesInSpan(levels: nat, r: Region)
    requires EndPage(r.base, r.length) <= PageSpan(levels)
    ensures PagesOf(levels, r) == PageSet(FirstPage(r.base), EndPage(r.base, r.length))
  {
    var s := PageSet(FirstPage(r.base), EndPage(r.base, r.length));
    assert forall p :: p in s ==> Wrap(levels, p) == p;
  }

  lemma OpOfPage(f: Format, r: Region, p: nat)
    requires FirstPage(r.base) <= p < EndPage(r.base, r.length)
    ensures Wrap(f.levels, p) in Pages(RegionOps(f, r))
  {
    var ops := RegionOps(f, r);
    assert ops[p - FirstPage(r.base)] == IdentityOp(f, p, r.perms);
    assert IdentityOp(f, p, r.perms) in ops;
  }

  lemma PageOfOp(f: Format, r: Region, v: nat) returns (p: nat)
    requires v in Pages(RegionOps(f, r))
    ensures FirstPage(r.base) <= p < EndPage(r.base, r.length) && Wrap(f.levels, p) == v
  {
    var ops := RegionOps(f, r);
    var op :| op in ops && op.page == v;
    var k :| 0 <= k < |ops| && ops[k] == op;
    p := FirstPage(r.base) + k;
    assert op == IdentityOp(f, p, r.perms);
  }

  lemma PagesAt(levels: nat, r: Region, v: nat)
    ensures v in PagesOf(levels, r) <==>
      exists p :: FirstPage(r.base) <= p < EndPage(r.base, r.length) && Wrap(levels, p) == v
  {
    if p :| FirstPage(r.base) <= p < EndPage(r.base, r.length) && Wrap(levels, p) == v {
      assert p in PageSet(FirstPage(r.base), EndPage(r.base, r.length));
    }
  }

  lemma PagesOfOps(f: Format, r: Region)
    ensures Pages(RegionOps(f, r)) == PagesOf(f.levels, r)
  {
    forall v: nat
      ensures v in Pages(RegionOps(f, r)) <==> v in PagesOf(f.levels, r)
    {
      PagesAt(f.levels, r, v);
      if v in Pages(RegionOps(f, r)) {
        var p := PageOfOp(f, r, v);
      }
      if p :| FirstPage(r.base) <= p < EndPage(r.base, r.length) && Wrap(f.levels, p) == v {
        OpOfPage(f, r, p);
      }
    }
  }

  /** From any state: a call succeeds exactly when the tables there are, and the
      tables its pages need, fit in the pool. */
  lemma RegionSucceeds(f: Format, pm: PageMap, r: Region)
    requires 3 <= f.levels <= 4 && Sound(f.levels, pm)
    ensures MapRegion(f, pm, r.base, r.length, r.perms).1.Ok? <==>
      r.length > 0 && |Elems(pm.dirs) + DirsOf(f.levels, PagesOf(f.levels, r))| <= 16
  {
    if r.length > 0 {
      RegionIsMapAll(f, pm, r);
      MapAllDirs(f.levels, pm, RegionOps(f, r));
      PagesOfOps(f, r);
    }
  }

  lemma {:induction false} UpMonotone(v: nat, w: nat, h: nat)
    requires v <= w
    ensures Up(v, h) <= Up(w, h)
  {
    if h > 0 {
      UpMonotone(v, w, h - 1);
    }
  }

  /** Every prefix between those of two pages is the prefix of a page between. */
  lemma {:induction false} UpOnto(a: nat, b: nat, h: nat, n: nat) returns (v: nat)
    requires a < b && Up(a, h) <= n <= Up(b - 1, h)
    ensures a <= v < b && Up(v, h) == n
  {
    if h == 0 {
      v := n;
    } else {
      var lo, hi := Up(a, h - 1), Up(b - 1, h - 1);
      assert Up(a, h) == lo / 512 && Up(b - 1, h) == hi / 512;
      UpMonotone(a, b - 1, h - 1);
      v := UpOnto(a, b, h - 1, if n * 512 < lo then lo else n * 512);
    }
  }

  lemma PrefixInRange(a: nat, b: nat, h: nat, n: nat)
    requires a < b
    ensures n in Prefixes(PageSet(a, b), h) <==> Up(a, h) <= n <= Up(b - 1, h)
  {
    if n in Prefixes(PageSet(a, b), h) {
      var v :| v in PageSet(a, b) && Up(v, h) == n;
      UpMonotone(a, v, h);
      UpMonotone(v, b - 1, h);
    }
    if Up(a, h) <= n <= Up(b - 1, h) {
      var v := UpOnto(a, b, h, n);
      assert v in PageSet(a, b);
    }
  }

  /** A range of pages has as many prefixes as there are between its ends. */
  lemma RangePrefixes(a: nat, b: nat, h: nat)
    requires a < b
    ensures Up(a, h) <= Up(b - 1, h) && |Prefixes(PageSet(a, b), h)| == Up(b - 1, h) - Up(a, h) + 1
  {
    UpMonotone(a, b - 1, h);
    var s := PageSet(Up(a, h), Up(b - 1, h) + 1);
    forall n
      ensures n in Prefixes(PageSet(a, b), h) <==> n in s
    {
      if n >= 0 {
        PrefixInRange(a, b, h, n);
      }
    }
    assert Prefixes(PageSet(a, b), h) == s;
  }

  /** The tables that a region of addresses [start, end) needs below the root: one
      for each 2 MiB block, each 1 GiB block and, with four levels, each 512 GiB
      block that it touches. */
  function TableBill(levels: nat, start: nat, end: nat): int {
    ((end - 1) / 0x20_0000 - start / 0x20_0000 + 1)
    + ((end - 1) / 0x4000_0000 - start / 0x4000_0000 + 1)
    + (if levels == 3 then 0 else (end - 1) / 0x80_0000_0000 - start / 0x80_0000_0000 + 1)
  }

  lemma TablesForRange(levels: nat, a: nat, b: nat)
    requires 3 <= levels <= 4 && a < b
    ensures TablesFor(levels, PageSet(a, b)) == TableBill(levels, a * 4096, b * 4096)
  {
    RangePrefixes(a, b, 1);
    RangePrefixes(a, b, 2);
    RangePrefixes(a, b, 3);
    TablesForUnfolds(PageSet(a, b));
    BillOfRange(levels, a, b);
  }

  lemma TablesForUnfolds(ps: set<nat>)
    ensures TablesFor(3, ps) == |Prefixes(ps, 2)| + |Prefixes(ps, 1)|
    ensures TablesFor(4, ps) == |Prefixes(ps, 3)| + |Prefixes(ps, 2)| + |Prefixes(ps, 1)|
  {
    assert TablesFor(1, ps) == 0;
    assert TablesFor(2, ps) == |Prefixes(ps, 1)| + TablesFor(1, ps);
    assert TablesFor(3, ps) == |Prefixes(ps, 2)| + TablesFor(2, ps);
    assert TablesFor(4, ps) == |Prefixes(ps, 3)| + TablesFor(3, ps);
  }

  lemma BillOfRange(levels: nat, a: nat, b: nat)
    requires 3 <= levels <= 4 && a < b
    ensures TableBill(levels, a * 4096, b * 4096) ==
      (Up(b - 1, 1) - Up(a, 1) + 1) + (Up(b - 1, 2) - Up(a, 2) + 1)
      + (if levels == 3 then 0 else Up(b - 1, 3) - Up(a, 3) + 1)
  {
    FirstBlock(a);
    LastBlock(b);
  }

  lemma FirstBlock(a: nat)
    ensures a * 4096 / 0x20_0000 == Up(a, 1) && a * 4096 / 0x4000_0000 == Up(a, 2)
    ensures a * 4096 / 0x80_0000_0000 == Up(a, 3)
  {
    BlockOf(a, 0);
  }

  lemma LastBlock(b: nat)
    requires b > 0
    ensures (b * 4096 - 1) / 0x20_0000 == Up(b - 1, 1) && (b * 4096 - 1) / 0x4000_0000 == Up(b - 1, 2)
    ensures (b * 4096 - 1) / 0x80_0000_0000 == Up(b - 1, 3)
  {
    assert b * 4096 - 1 == (b - 1) * 4096 + 4095;
    BlockOf(b - 1, 4095);
  }

  /** The prefix of a page is the block number of the addresses in it. */
  lemma BlockOf(v: nat, offset: nat)
    requires offset < 4096
    ensures (v * 4096 + offset) / 0x20_0000 == Up(v, 1)
    ensures (v * 4096 + offset) / 0x4000_0000 == Up(v, 2)
    ensures (v * 4096 + offset) / 0x80_0000_0000 == Up(v, 3)
  {
    var x := v * 4096 + offset;
    UpValues(v);
    QuotientIs(x, 0x20_0000, v / 0x200, v % 0x200 * 4096 + offset);
    QuotientIs(x, 0x4000_0000, v / 0x4_0000, v % 0x4_0000 * 4096 + offset);
    QuotientIs(x, 0x80_0000_0000, v / 0x800_0000, v % 0x800_0000 * 4096 + offset);
  }

  lemma NewTables(levels: nat, a: nat, b: nat)
    requires 3 <= levels <= 4 && a < b
    ensures |Elems(EMPTY.dirs) + DirsOf(levels, PageSet(a, b))| == TableBill(levels, a * 4096, b * 4096)
  {
    TablesAreCounted(levels, PageSet(a, b));
    TablesForRange(levels, a, b);
    assert Elems(EMPTY.dirs) + DirsOf(levels, PageSet(a, b)) == DirsOf(levels, PageSet(a, b));
  }

  /** On a fresh pool, a call succeeds exactly when its bill is at most 16. */
  lemma FreshRegionSucceeds(f: Format, r: Region)
    requires 3 <= f.levels <= 4 && Fits(f.levels, r)
    ensures MapRegion(f, EMPTY, r.base, r.length, r.perms).1.Ok? <==>
      r.length > 0 && TableBill(f.levels, FirstPage(r.base) * 4096, EndPage(r.base, r.length) * 4096) <= 16
  {
    if r.length > 0 {
      RegionNotEmpty(f.levels, r);
      RegionSucceeds(f, EMPTY, r);
      PagesInSpan(f.levels, r);
      NewTables(f.levels, FirstPage(r.base), EndPage(r.base, r.length));
    }
  }

  // ---------------------------------------------------------------------
  // How far a call gets past the index span
  // ---------------------------------------------------------------------

  /** A call gets to a page exactly when all pages before it can be mapped. */
  lemma {:induction false} GetsTo(f: Format, pm: PageMap, a: nat, k: nat, b: nat, perms: MapPermissions)
    requires a <= k <= b
    ensures MapPages(f, pm, a, k, perms).1 <==> StopPage(f, pm, a, b, perms) >= k
    decreases b - a
  {
    StopPageIsEnd(f, pm, a, b, perms);
    if a < k {
      var (next, ok) := MapOne(f.levels, pm, IdentityOp(f, a, perms));
      MapPagesCons(f, pm, a, k, perms);
      if ok {
        GetsTo(f, next, a + 1, k, b, perms);
      }
    }
  }

  /** On fresh tables every call maps its first page. */
  lemma MapsFirstPage(f: Format, a: nat, b: nat, perms: MapPermissions)
    requires 3 <= f.levels <= 4 && a < b
    ensures StopPage(f, EMPTY, a, b, perms) > a
  {
    FirstPathFits(f.levels, Wrap(f.levels, a));
    var (next, ok) := MapOne(f.levels, EMPTY, IdentityOp(f, a, perms));
    StopPageIsEnd(f, next, a + 1, b, perms);
  }

  /** From page `a` to the end of the span, and page 0. */
  ghost function UpToSpanAndZero(levels: nat, a: nat): set<nat> {
    PageSet(a, PageSpan(levels)) + {0}
  }

  lemma PagePastSpan(levels: nat, a: nat, v: nat)
    requires 3 <= levels <= 4 && a < PageSpan(levels)
    ensures (exists p :: a <= p < PageSpan(levels) + 1 && Wrap(levels, p) == v) <==> v in UpToSpanAndZero(levels, a)
  {
    var span := PageSpan(levels);
    assert Wrap(levels, span) == 0;
    if v in UpToSpanAndZero(levels, a) {
      var p := if v in PageSet(a, span) then v else span;
      assert a <= p < span + 1 && Wrap(levels, p) == v;
    }
  }

  lemma PagesPastSpan(levels: nat, a: nat, r: Region)
    requires 3 <= levels <= 4 && a < PageSpan(levels)
    requires FirstPage(r.base) == a && EndPage(r.base, r.length) == PageSpan(levels) + 1
    ensures PagesOf(levels, r) == UpToSpanAndZero(levels, a)
  {
    forall v: nat
      ensures v in PagesOf(levels, r) <==> v in UpToSpanAndZero(levels, a)
    {
      PagesAt(levels, r, v);
      PagePastSpan(levels, a, v);
    }
  }

  /** A call passes the end of the span exactly when the tables there are, those of
      its pages below the end and those of page 0 fit in the pool. */
  lemma PassesSpan(f: Format, pm: PageMap, a: nat, b: nat, perms: MapPermissions)
    requires 3 <= f.levels <= 4 && Sound(f.levels, pm) && a < PageSpan(f.levels) < b
    ensures StopPage(f, pm, a, b, perms) > PageSpan(f.levels)
      <==> |Elems(pm.dirs) + DirsOf(f.levels, UpToSpanAndZero(f.levels, a))| <= 16
  {
    var span := PageSpan(f.levels);
    var r := Region(a * 4096, (span + 1 - a) * 4096, perms);
    assert FirstPage(r.base) == a && EndPage(r.base, r.length) == span + 1;
    GetsTo(f, pm, a, span + 1, b, perms);
    RegionSucceeds(f, pm, r);
    PagesPastSpan(f.levels, a, r);
  }

  lemma TablesOfZero(levels: nat)
    requires 3 <= levels <= 4
    ensures |DirsOf(levels, {0})| == levels - 1
  {
    assert PageSet(0, 1) == {0};
    TablesAreCounted(levels, {0});
    TablesForRange(levels, 0, 1);
    assert TableBill(levels, 0, 4096) == levels - 1;
  }

  lemma {:induction false} UpPositive(a: nat, k: nat, h: nat)
    requires k <= h && Up(a, h) > 0
    ensures Up(a, k) > 0
    decreases h
  {
    if k < h {
      UpPositive(a, k, h - 1);
    }
  }

  lemma {:induction false} UpOfZero(k: nat)
    ensures Up(0, k) == 0
  {
    if k > 0 {
      UpOfZero(k - 1);
    }
  }

  /** The tables of page 0 and those of the end of the span are different ones. */
  lemma TablesApart(levels: nat, a: nat)
    requires levels > 1 && Up(a, levels - 1) > 0
    ensures DirsOf(levels, PageSet(a, PageSpan(levels))) !! DirsOf(levels, {0})
  {
    forall d | d in DirsOf(levels, PageSet(a, PageSpan(levels)))
      ensures d !in DirsOf(levels, {0})
    {
      var k, v :| 1 <= k < levels && v in PageSet(a, PageSpan(levels)) && d == Dir(k, Up(v, k));
      UpPositive(a, k, levels - 1);
      UpMonotone(a, v, k);
      UpOfZero(k);
    }
  }

  /** So many blocks are too many. */
  lemma BillOfSpan(levels: nat, a: nat)
    requires 3 <= levels <= 4 && a < PageSpan(levels) && Up(a, levels - 1) == 0
    ensures TableBill(levels, a * 4096, PageSpan(levels) * 4096) > 16
  {
    var last := PageSpan(levels) - 1;
    BillOfRange(levels, a, PageSpan(levels));
    UpMonotone(a, last, 1);
    UpMonotone(a, last, 2);
    UpMonotone(a, last, 3);
    UpValues(last);
    assert Up(last, levels - 1) == 511;
  }

  /** The tables needed to pass the end of the span, counted. */
  lemma TablesPastSpan(levels: nat, a: nat)
    requires 3 <= levels <= 4 && a < PageSpan(levels)
    ensures |DirsOf(levels, UpToSpanAndZero(levels, a))| <= 16
      <==> TableBill(levels, a * 4096, PageSpan(levels) * 4096) + levels - 1 <= 16
  {
    var below, zero := DirsOf(levels, PageSet(a, PageSpan(levels))), DirsOf(levels, {0});
    assert DirsOf(levels, UpToSpanAndZero(levels, a)) == below + zero;
    TablesAreCounted(levels, PageSet(a, PageSpan(levels)));
    TablesForRange(levels, a, PageSpan(levels));
    TablesOfZero(levels);
    if Up(a, levels - 1) > 0 {
      TablesApart(levels, a);
    } else {
      BillOfSpan(levels, a);
      SubsetCardinal(below, below + zero);
    }
  }

  /** A call that passes the end of the span has room for these tables, and on fresh
      tables that is enough. */
  lemma PassesSpanByBill(f: Format, pm: PageMap, a: nat, b: nat, perms: MapPermissions)
    requires 3 <= f.levels <= 4 && Sound(f.levels, pm) && a < PageSpan(f.levels) < b
    ensures var bill := TableBill(f.levels, a * 4096, PageSpan(f.levels) * 4096) + f.levels - 1;
      && (StopPage(f, pm, a, b, perms) > PageSpan(f.levels) ==> bill <= 16)
      && (pm == EMPTY && bill <= 16 ==> StopPage(f, pm, a, b, perms) > PageSpan(f.levels))
  {
    var need := DirsOf(f.levels, UpToSpanAndZero(f.levels, a));
    PassesSpan(f, pm, a, b, perms);
    TablesPastSpan(f.levels, a);
    SubsetCardinal(need, Elems(pm.dirs) + need);
    assert pm == EMPTY ==> Elems(pm.dirs) + need == need;
  }

  // ---------------------------------------------------------------------
  // Repetition and order
  // ---------------------------------------------------------------------

  /** Mapping a region again allocates nothing and changes nothing. */
  lemma RegionIdempotent(f: Format, pm: PageMap, r: Region)
    requires 3 <= f.levels <= 4 && Sound(f.levels, pm)
    requires MapRegion(f, pm, r.base, r.length, r.perms).1.Ok?
    ensures var once := MapRegion(f, pm, r.base, r.length, r.perms);
      MapRegion(f, once.0, r.base, r.length, r.perms) == once
  {
    RegionIsMapAll(f, pm, r);
    RegionIsMapAll(f, MapRegion(f, pm, r.base, r.length, r.perms).0, r);
    RepeatIsIdle(f.levels, pm, RegionOps(f, r));
  }

  /** Calls in sequence, stopping at the first failure. */
  ghost function MapRegions(f: Format, pm: PageMap, rs: seq<Region>): (PageMap, bool)
    decreases |rs|
  {
    if rs == [] then (pm, true)
    else
      var (pm', res) := MapRegion(f, pm, rs[0].base, rs[0].length, rs[0].perms);
      if res.Ok? then MapRegions(f, pm', rs[1..]) else (pm', false)
  }

  lemma TwoRegions(f: Format, pm: PageMap, r: Region, q: Region)
    requires r.length > 0 && q.length > 0
    ensures MapRegions(f, pm, [r, q]) == MapAll(f.levels, pm, RegionOps(f, r) + RegionOps(f, q))
  {
    RegionIsMapAll(f, pm, r);
    var mid := MapAll(f.levels, pm, RegionOps(f, r)).0;
    RegionIsMapAll(f, mid, q);
    MapAllConcat(f.levels, pm, RegionOps(f, r), RegionOps(f, q));
    assert [r, q][1..] == [q];
    assert [q][1..] == [];
    var (last, res) := MapRegion(f, mid, q.base, q.length, q.perms);
    assert MapRegions(f, last, []) == (last, true);
    assert MapRegions(f, mid, [q]) == (last, res.Ok?);
  }

  lemma EmptyRegionFails(f: Format, pm: PageMap, r: Region, q: Region)
    requires r.length == 0 || q.length == 0
    ensures !MapRegions(f, pm, [r, q]).1
  {
    assert [r, q][1..] == [q];
  }

  /** Two regions whose pages the indices tell apart can be mapped in either order:
      both orders succeed or both fail, and on success the translation, the set of tables and
      the pool counter are the same, whichever slots the tables got. */
  lemma RegionsCommute(f: Format, pm: PageMap, r: Region, q: Region)
    requires 3 <= f.levels <= 4 && Sound(f.levels, pm) && PagesOf(f.levels, r) !! PagesOf(f.levels, q)
    ensures var (rq, ok) := MapRegions(f, pm, [r, q]); var (qr, ok') := MapRegions(f, pm, [q, r]);
      && ok == ok'
      && (ok ==> rq.leaves == qr.leaves && Elems(rq.dirs) == Elems(qr.dirs) && |rq.dirs| == |qr.dirs|)
  {
    if r.length == 0 || q.length == 0 {
      EmptyRegionFails(f, pm, r, q);
      EmptyRegionFails(f, pm, q, r);
      return;
    }
    TwoRegions(f, pm, r, q);
    TwoRegions(f, pm, q, r);
    PagesOfOps(f, r);
    PagesOfOps(f, q);
    OrderIsIrrelevant(f.levels, pm, RegionOps(f, r), RegionOps(f, q));
  }

  // ---------------------------------------------------------------------
  // Sequences of regions
  // ---------------------------------------------------------------------

  ghost function RegionPages(r: Region): map<nat, MapPermissions> {
    map v | v in PageSet(FirstPage(r.base), EndPage(r.base, r.length)) :: r.perms
  }

  /** The pages that a sequence of calls covers, with the permissions of the last
      call that covers each. */
  ghost function Covered(rs: seq<Region>): map<nat, MapPermissions> {
    if rs == [] then map[] else RegionPages(rs[0]) + Covered(rs[1..])
  }
}
