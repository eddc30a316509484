/** Identity-mapping whole regions: what `setup_identity_mapping` does to the
    page map. */
module PageRegions {
  import opened Words
  import opened Hal
  import opened PageMap
  import opened PageTables
  import opened PageAddresses

  /** The entry that maps `page` to itself. */
  function IdentityLeaf(f: Format, page: nat, perms: MapPermissions): nat {
    f.leaf(page * 4096, f.flags(perms))
  }

  function IdentityOp(f: Format, page: nat, perms: MapPermissions): Op {
    Op(Wrap(f.levels, page), IdentityLeaf(f, page, perms))
  }

  /** The first page of a region, and the page after its last. Both sums wrap at
      64 bits. */
  function FirstPage(base: nat): nat { base / 4096 }

  function EndPage(base: nat, length: nat): nat { RoundingSum((base + length) % U64_SIZE) / 4096 }

  /** The end of the region, rounded up, is a 64-bit number. */
  predicate EndsInRange(base: nat, length: nat) {
    base + length + 4095 < U64_SIZE
  }

  /** The end is right exactly when no sum wraps. */
  lemma EndPageExactly(base: nat, length: nat)
    requires base < U64_SIZE && length < U64_SIZE
    ensures EndPage(base, length) == (base + length + 4095) / 4096 <==> EndsInRange(base, length)
  {
  }

  /** When a sum wraps, at most the first page is mapped, and none at all when the
      region itself still ends within 64 bits. */
  lemma WrappedRegion(base: nat, length: nat)
    requires base < U64_SIZE && length < U64_SIZE && !EndsInRange(base, length)
    ensures EndPage(base, length) <= FirstPage(base) + 1
    ensures base + length <= U64_SIZE ==> EndPage(base, length) == 0
  {
  }

  /** The call then succeeds and has mapped nothing: for instance for the last page
      of the address space. */
  lemma LastPageIsNotMapped(f: Format, pm: PageMap, perms: MapPermissions)
    ensures MapRegion(f, pm, 0xFFFF_FFFF_FFFF_F000, 4096, perms) == (pm, Ok(0xFFFF_FFFF_FFFF_F000))
  {
    assert EndPage(0xFFFF_FFFF_FFFF_F000, 4096) == 0;
  }

  /** Identity-mapping the pages from `a` up to `b`, until one fails. */
  ghost function MapPages(f: Format, pm: PageMap, a: nat, b: nat, perms: MapPermissions): (PageMap, bool)
    decreases b - a
  {
    if a >= b then (pm, true)
    else
      var (pm', ok) := MapOne(f.levels, pm, IdentityOp(f, a, perms));
      if ok then MapPages(f, pm', a + 1, b, perms) else (pm', false)
  }

  lemma MapPagesCons(f: Format, pm: PageMap, a: nat, b: nat, perms: MapPermissions)
    requires a < b
    ensures var (pm', ok) := MapOne(f.levels, pm, IdentityOp(f, a, perms));
      MapPages(f, pm, a, b, perms) == if ok then MapPages(f, pm', a + 1, b, perms) else (pm', false)
  {
  }

  /** What `setup_identity_mapping` does to the page map, and what it returns. */
  ghost function MapRegion(f: Format, pm: PageMap, base: nat, length: nat, perms: MapPermissions):
      (PageMap, Result<nat>) {
    if length == 0 then (pm, Err(InvalidMemoryRegion))
    else
      var (pm', ok) := MapPages(f, pm, FirstPage(base), EndPage(base, length), perms);
      (pm', if ok then Ok(FirstPage(base) * 4096) else Err(InvalidMemoryRegion))
  }

  /** The calls that identity-map the pages from `a` up to `b`. */
  ghost function IdentityOps(f: Format, a: nat, b: nat, perms: MapPermissions): (ops: seq<Op>)
    requires a <= b
    ensures |ops| == b - a
    ensures forall k :: 0 <= k < b - a ==> ops[k] == IdentityOp(f, a + k, perms)
  {
    seq(b - a, k requires 0 <= k < b - a => IdentityOp(f, a + k, perms))
  }

  lemma IdentityOpsTail(f: Format, a: nat, b: nat, perms: MapPermissions)
    requires a < b
    ensures IdentityOps(f, a, b, perms)[1..] == IdentityOps(f, a + 1, b, perms)
  {
  }

  lemma {:induction false} MapPagesIsMapAll(f: Format, pm: PageMap, a: nat, b: nat, perms: MapPermissions)
    requires a <= b
    ensures MapPages(f, pm, a, b, perms) == MapAll(f.levels, pm, IdentityOps(f, a, b, perms))
    decreases b - a
  {
    if a < b {
      IdentityOpsTail(f, a, b, perms);
      MapPagesIsMapAll(f, MapOne(f.levels, pm, IdentityOp(f, a, perms)).0, a + 1, b, perms);
    }
  }
}
