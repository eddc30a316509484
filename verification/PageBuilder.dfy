/** The boot-time page-table builder: a root table, a fixed pool of lower-level
    tables and the pool counter, updated in place. One class stands for the three
    copies of the code, which differ only in the format of their entries. */
module PageBuilder {
  import opened Words
  import opened Hal
  import opened PageMap
  import opened PageTables
  import opened PageAddresses
  import opened PageRegions

  lemma DistinctRow(dirs: seq<Dir>, d: Dir, t: nat)
    requires Distinct(dirs) && 1 <= t <= |dirs| && dirs[t - 1] == d
    ensures d in dirs && RowOf(dirs, d) == t
  {
    assert dirs[t - 1] in dirs;
  }

  class PageTableBuilder {
    const format: Format
    const addr: seq<nat>
    const root: array<nat>
    const pool: array2<nat>
    var next: nat
    ghost var pm: PageMap
    ghost var s: Tables

    /** `s` is the contents of the tables. */
    ghost predicate Coupled()
      reads this, root, pool
    {
      && |addr| == ROWS && Shape(s) && s.next == next
      && root.Length == ENTRIES_PER_TABLE && s.words[0] == root[..]
      && pool.Length0 == POOL_SIZE && pool.Length1 == ENTRIES_PER_TABLE
      && (forall t, i :: 1 <= t < ROWS && 0 <= i < ENTRIES_PER_TABLE ==> s.words[t][i] == pool[t - 1, i])
    }

    ghost predicate Valid()
      reads this, root, pool
    {
      Coupled() && Represents(Layout(format, addr), s, pm)
    }

    constructor (format: Format, addr: seq<nat>)
      requires ValidLayout(Layout(format, addr))
      ensures Valid() && this.format == format && this.addr == addr && pm == EMPTY && fresh(root) && fresh(pool)
    {
      this.format := format;
      this.addr := addr;
      root := new nat[ENTRIES_PER_TABLE](_ => 0);
      pool := new nat[POOL_SIZE, ENTRIES_PER_TABLE]((_, _) => 0);
      next := 0;
      pm := EMPTY;
      s := Tables(seq(ROWS, t => seq(ENTRIES_PER_TABLE, i => 0)), 0);
      new;
      assert DirAt(format.levels, pm, 0).h > 1;
    }

    /** Hands out the next unused table of the pool. */
    method AllocTable() returns (r: Result<nat>)
      requires Coupled()
      modifies this`next, this`s
      ensures Coupled()
      ensures old(next) >= 16 ==> r == Err(InvalidMemoryRegion) && s == old(s)
      ensures old(next) < 16 ==> s == old(s).(next := old(next) + 1) && r == Ok(addr[old(next) + 1])
    {
      if next >= POOL_SIZE {
        return Err(InvalidMemoryRegion);
      }
      next := next + 1;
      s := s.(next := next);
      return Ok(addr[next]);
    }

    /** The table a pointer points at: row 0 is the root, row t the pool slot t - 1. */
    method Deref(ptr: nat) returns (row: nat)
      requires |addr| == ROWS && ptr in addr
      ensures row < ROWS && addr[row] == ptr
    {
      row :| 0 <= row < ROWS && addr[row] == ptr;
    }

    method Load(row: nat, i: nat) returns (e: nat)
      requires Coupled() && row < ROWS && i < ENTRIES_PER_TABLE
      ensures e == s.words[row][i]
    {
      if row == 0 {
        e := root[i];
      } else {
        e := pool[row - 1, i];
      }
    }

    method Store(row: nat, i: nat, e: nat)
      requires Coupled() && row < ROWS && i < ENTRIES_PER_TABLE
      modifies root, pool, this`s
      ensures Coupled() && s == Write(old(s), row, i, e)
    {
      if row == 0 {
        root[i] := e;
      } else {
        pool[row - 1, i] := e;
      }
      s := Write(s, row, i, e);
    }

    /** Takes a fresh table from the pool and links it into entry `index` of `row`. */
    method LinkFresh(row: nat, index: nat) returns (r: Result<nat>)
      requires Valid() && row <= next && index < ENTRIES_PER_TABLE
      requires DirAt(format.levels, pm, row).h > 1 && ChildDir(format.levels, pm, row, index) !in pm.dirs
      modifies this`next, this`s, this`pm, root, pool
      ensures Valid()
      ensures old(next) >= 16 ==> r == Err(InvalidMemoryRegion) && pm == old(pm)
      ensures old(next) < 16 ==>
        && pm == LinkedMap(format.levels, old(pm), row, index)
        && r.Ok? && format.next(r.value) == addr[RowOf(pm.dirs, ChildDir(format.levels, old(pm), row, index))]
    {
      ghost var lay, was := Layout(format, addr), s;
      var table := AllocTable();
      if table.Err? {
        return Err(InvalidMemoryRegion);
      }
      var entry := format.entry(table.value);
      Store(row, index, entry);
      LinkStep(lay, was, pm, row, index);
      ghost var d := ChildDir(format.levels, pm, row, index);
      pm := LinkedMap(format.levels, pm, row, index);
      DistinctRow(pm.dirs, d, next);
      assert Points(lay.format, addr[next]);
      return Ok(entry);
    }

    /** One level of the walk: from the table at `ptr` to the table below it that
        serves page `v`, created if it is missing. */
    method Descend(ptr: nat, index: nat, ghost row: nat, ghost v: nat, ghost h: nat) returns (r: Result<nat>)
      requires Valid() && row <= next && ptr == addr[row] && h > 1 && index == Up(v, h - 1) % 512
      requires DirAt(format.levels, pm, row) == Dir(h, Up(v, h))
      modifies this`next, this`s, this`pm, root, pool
      ensures Valid() && pm.leaves == old(pm).leaves
      ensures Grow(old(pm).dirs, v, h) == if r.Ok? then Grow(pm.dirs, v, h - 1) else (pm.dirs, false)
      ensures r.Ok? ==> var d := Dir(h - 1, Up(v, h - 1));
        d in pm.dirs && r.value == addr[RowOf(pm.dirs, d)]
    {
      ghost var d := Dir(h - 1, Up(v, h - 1));
      ghost var e, u := EntryOnPath(Layout(format, addr), s, pm, row, v, h);
      GrowUnfolds(pm.dirs, v, h);
      var t := Deref(ptr);
      var entry := Load(t, index);
      var inUse := InUse(entry);
      if !inUse {
        var linked := LinkFresh(t, index);
        if linked.Err? {
          return Err(InvalidMemoryRegion);
        }
        entry := linked.value;
      }
      return Ok(format.next(entry));
    }

    method WriteLeaf(ptr: nat, index: nat, leaf: nat, ghost row: nat, ghost v: nat)
      requires Valid() && 0 < row <= next && ptr == addr[row] && index == v % 512 && Present(leaf)
      requires DirAt(format.levels, pm, row) == Dir(1, Up(v, 1)) && Up(v, format.levels) == 0
      modifies root, pool, this`pm, this`s
      ensures Valid() && pm == old(pm).(leaves := old(pm).leaves[v := leaf])
    {
      var t := Deref(ptr);
      LeafStep(Layout(format, addr), s, pm, row, v, leaf);
      Store(t, index, leaf);
      pm := pm.(leaves := pm.leaves[v := leaf]);
    }

    /** Walks from the root to the leaf table of page `v`, creating the tables
        that are missing. */
    method LeafTable(indices: seq<nat>, ghost v: nat) returns (r: Result<nat>, ghost row: nat)
      requires Valid() && |indices| == format.levels && Up(v, format.levels) == 0
      requires forall k :: 0 <= k < format.levels ==> indices[k] == Up(v, format.levels - 1 - k) % 512
      modifies this`next, this`s, this`pm, root, pool
      ensures Valid() && pm.leaves == old(pm).leaves
      ensures Grow(old(pm).dirs, v, format.levels) == (pm.dirs, r.Ok?)
      ensures r.Ok? ==>
        && 0 < row <= next && r.value == addr[row]
        && DirAt(format.levels, pm, row) == Dir(1, Up(v, 1))
    {
      var levels := format.levels;
      var ptr := addr[0];
      row := 0;
      var level := 0;
      ghost var h := levels;
      while level < levels - 1
        invariant 0 <= level <= levels - 1 && h == levels - level
        invariant Valid() && pm.leaves == old(pm).leaves
        invariant row <= next && ptr == addr[row] && (level > 0 ==> row > 0)
        invariant DirAt(levels, pm, row) == Dir(h, Up(v, h))
        invariant Grow(old(pm).dirs, v, levels) == Grow(pm.dirs, v, h)
      {
        var below := Descend(ptr, indices[level], row, v, h);
        if below.Err? {
          return Err(InvalidMemoryRegion), row;
        }
        ptr := below.value;
        level, h := level + 1, h - 1;
        row := RowOf(pm.dirs, Dir(h, Up(v, h)));
      }
      r := Ok(ptr);
    }

    /** Maps one page: finds its leaf table and writes the leaf entry. */
    method MapPage(virt: nat, phys: nat, flags: nat) returns (r: Result<()>)
      requires Valid() && virt < U64_SIZE
      modifies this`next, this`s, this`pm, root, pool
      ensures Valid()
      ensures var (pm', ok) := MapOne(format.levels, old(pm),
        Op(PageOf(format.levels, virt), format.leaf(phys, flags)));
        pm == pm' && r == if ok then Ok(()) else Err(InvalidMemoryRegion)
    {
      var indices := Indices(format.levels, virt);
      ghost var v := PageOf(format.levels, virt);
      WrapInSpan(format.levels, virt / 4096);
      var table, row := LeafTable(indices, v);
      if table.Err? {
        return Err(InvalidMemoryRegion);
      }
      WriteLeaf(table.value, indices[format.levels - 1], format.leaf(phys, flags), row, v);
      return Ok(());
    }

    method MapIdentityPage(at: nat, flags: nat, ghost page: nat, ghost perms: MapPermissions) returns (r: Result<()>)
      requires Valid() && at == page * 4096 < U64_SIZE && flags == format.flags(perms)
      modifies this`next, this`s, this`pm, root, pool
      ensures Valid()
      ensures var (pm', ok) := MapOne(format.levels, old(pm), IdentityOp(format, page, perms));
        pm == pm' && r == if ok then Ok(()) else Err(InvalidMemoryRegion)
    {
      r := MapPage(at, at, flags);
    }

    /** The mapping loop: page by page from `start` to `end`, stopping at the
        first page for which the pool has no table left. */
    method MapUpTo(start: nat, end: nat, flags: nat, ghost a: nat, ghost b: nat, ghost perms: MapPermissions)
        returns (r: Result<()>)
      requires Valid() && flags == format.flags(perms)
      requires start == a * 4096 && end == b * 4096 < U64_SIZE
      modifies this`next, this`s, this`pm, root, pool
      ensures Valid()
      ensures var (pm', ok) := MapPages(format, old(pm), a, b, perms);
        pm == pm' && r == if ok then Ok(()) else Err(InvalidMemoryRegion)
    {
      ghost var page := a;
      var at := start;
      while at < end
        invariant Valid()
        invariant a <= page && (page <= b || page == a) && at == page * 4096
        invariant MapPages(format, old(pm), a, b, perms) == MapPages(format, pm, page, b, perms)
      {
        MapPagesCons(format, pm, page, b, perms);
        var mapped := MapIdentityPage(at, flags, page, perms);
        if mapped.Err? {
          return Err(InvalidMemoryRegion);
        }
        at, page := at + 4096, page + 1;
      }
      return Ok(());
    }

    /** Identity-maps the pages that a region touches. */
    method SetupIdentityMapping(base: nat, length: nat, perms: MapPermissions) returns (r: Result<nat>)
      requires Valid() && base < U64_SIZE && length < U64_SIZE
      modifies this`next, this`s, this`pm, root, pool
      ensures Valid()
      ensures (pm, r) == MapRegion(format, old(pm), base, length, perms)
    {
      if length == 0 {
        return Err(InvalidMemoryRegion);
      }
      var flags := format.flags(perms);
      var start := AlignDown(base);
      var end := AlignUp((base + length) % U64_SIZE);
      var mapped := MapUpTo(start, end, flags, FirstPage(base), EndPage(base, length), perms);
      if mapped.Err? {
        return Err(InvalidMemoryRegion);
      }
      return Ok(start);
    }
  }
}
