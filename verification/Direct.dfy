/** Capability-gated MMIO mapping: verify a token, then map. */
module Direct {
  import opened Words
  import opened Hal
  import opened PageMap
  import opened PageTables
  import opened PageAddresses
  import opened PageRegions
  import opened PageBuilder
  import opened PageTheorems
  import Timer

  datatype CapabilityScope =
    | MmioRegion(physBase: nat, size: nat)
    | PerformanceCounter(counterId: nat)
    | ThreadAffinity(coreId: nat)
    | NumaPolicy

  datatype CapabilityToken = CapabilityToken(
    subjectId: nat,
    scope: CapabilityScope,
    expiresAtNs: nat,
    signature: seq<nat>)
  {
    predicate Covers(requested: CapabilityScope) {
      scope == requested
    }

    predicate IsExpired(nowNs: nat) {
      nowNs >= expiresAtNs
    }
  }

  /** The signature scheme is supplied from outside: any predicate on tokens. */
  type Verifier = CapabilityToken -> bool

  function VerifyToken(verifier: Verifier, token: CapabilityToken, required: CapabilityScope,
      nowNs: nat): (r: Result<()>)
    ensures r.Ok? <==> token.scope == required && nowNs < token.expiresAtNs && verifier(token)
    ensures r.Err? ==> r.error == InvalidCapabilityToken
  {
    if !token.Covers(required) then Err(InvalidCapabilityToken)
    else if token.IsExpired(nowNs) then Err(InvalidCapabilityToken)
    else if verifier(token) then Ok(())
    else Err(InvalidCapabilityToken)
  }

  /** One call of `map_mmio_region`, at a reading of the clock. */
  datatype Call = Call(token: CapabilityToken, phys: nat, size: nat, nowNs: nat)

  predicate Accepted(verifier: Verifier, c: Call) {
    VerifyToken(verifier, c.token, MmioRegion(c.phys, c.size), c.nowNs).Ok?
  }

  /** What a call does to the page map, and what it returns. */
  ghost function MapMmio(f: Format, verifier: Verifier, pm: PageMap, c: Call): (PageMap, Result<nat>) {
    if Accepted(verifier, c) then MapRegion(f, pm, c.phys, c.size, DEVICE_MMIO)
    else (pm, Err(InvalidCapabilityToken))
  }

  class DirectAccess {
    const verifier: Verifier
    const memory: PageTableBuilder

    constructor (verifier: Verifier, memory: PageTableBuilder)
      ensures this.verifier == verifier && this.memory == memory
    {
      this.verifier := verifier;
      this.memory := memory;
    }

    /** Checks scope, expiry and signature, and only then touches the tables. */
    method MapMmioRegion(token: CapabilityToken, phys: nat, size: nat, nowNs: nat) returns (r: Result<nat>)
      requires memory.Valid() && phys < U64_SIZE && size < U64_SIZE
      modifies memory, memory.root, memory.pool
      ensures memory.Valid()
      ensures (memory.pm, r) == MapMmio(memory.format, verifier, old(memory.pm), Call(token, phys, size, nowNs))
      ensures !Accepted(verifier, Call(token, phys, size, nowNs)) ==>
        memory.s == old(memory.s) && memory.next == old(memory.next)
    {
      var verified := VerifyToken(verifier, token, MmioRegion(phys, size), nowNs);
      if verified.Err? {
        return Err(verified.error);
      }
      r := memory.SetupIdentityMapping(phys, size, DEVICE_MMIO);
    }
  }

  // ---------------------------------------------------------------------
  // Runs of calls
  // ---------------------------------------------------------------------

  ghost function MapMmioRun(f: Format, verifier: Verifier, pm: PageMap, calls: seq<Call>): PageMap
    decreases |calls|
  {
    if calls == [] then pm
    else MapMmioRun(f, verifier, MapMmio(f, verifier, pm, calls[0]).0, calls[1..])
  }

  /** Runs the calls, whether or not each succeeds. */
  method MapMmioRegions(d: DirectAccess, calls: seq<Call>)
    requires d.memory.Valid() && forall i :: 0 <= i < |calls| ==> calls[i].phys < U64_SIZE && calls[i].size < U64_SIZE
    modifies d.memory, d.memory.root, d.memory.pool
    ensures d.memory.Valid()
    ensures d.memory.pm == MapMmioRun(d.memory.format, d.verifier, old(d.memory.pm), calls)
    decreases |calls|
  {
    if calls != [] {
      var r := d.MapMmioRegion(calls[0].token, calls[0].phys, calls[0].size, calls[0].nowNs);
      MapMmioRegions(d, calls[1..]);
    }
  }

  /** Page `v` lies in the page-rounded range of the call. */
  predicate InRange(c: Call, v: nat) {
    FirstPage(c.phys) <= v < EndPage(c.phys, c.size)
  }

  /** The table indices take some page of the range for page `v`. */
  ghost predicate Touches(levels: nat, c: Call, v: nat) {
    exists p :: InRange(c, p) && Wrap(levels, p) == v
  }

  /** The token of `c` names exactly the range of `c`, was not expired when it was
      presented and passed the verifier. */
  predicate Authorised(verifier: Verifier, c: Call) {
    && c.token.scope == MmioRegion(c.phys, c.size)
    && c.nowNs < c.token.expiresAtNs
    && verifier(c.token)
    && c.size > 0
  }

  lemma {:induction false} MapPagesGains(f: Format, pm: PageMap, a: nat, b: nat, perms: MapPermissions, v: nat)
    requires Lookup(MapPages(f, pm, a, b, perms).0.leaves, v) != Lookup(pm.leaves, v)
    ensures exists p :: a <= p < b && Wrap(f.levels, p) == v
    decreases b - a
  {
    var (next, ok) := MapOne(f.levels, pm, IdentityOp(f, a, perms));
    if Wrap(f.levels, a) != v {
      assert Lookup(next.leaves, v) == Lookup(pm.leaves, v);
      MapPagesGains(f, next, a + 1, b, perms, v);
    }
  }

  /** Over any run of calls, a page gains or changes its translation only if some
      authorised call has a page that the table indices take for it. */
  lemma {:induction false} OnlyTouchedPages(f: Format, verifier: Verifier, pm: PageMap, calls: seq<Call>, v: nat)
    requires Lookup(MapMmioRun(f, verifier, pm, calls).leaves, v) != Lookup(pm.leaves, v)
    ensures exists c :: c in calls && Authorised(verifier, c) && Touches(f.levels, c, v)
    decreases |calls|
  {
    var c := calls[0];
    var next := MapMmio(f, verifier, pm, c).0;
    if Lookup(next.leaves, v) != Lookup(pm.leaves, v) {
      assert Accepted(verifier, c) && c.size > 0;
      MapPagesGains(f, pm, FirstPage(c.phys), EndPage(c.phys, c.size), DEVICE_MMIO, v);
      var p :| FirstPage(c.phys) <= p < EndPage(c.phys, c.size) && Wrap(f.levels, p) == v;
      assert InRange(c, p);
      assert c in calls;
    } else {
      OnlyTouchedPages(f, verifier, next, calls[1..], v);
      var d :| d in calls[1..] && Authorised(verifier, d) && Touches(f.levels, d, v);
      assert d in calls;
    }
  }

  /** The range has pages, begins past page 0 and reaches past the index span, and
      the pool is large enough to get there: it begins past the span, or the tables
      up to the end of the span and those of page 0 fit. */
  predicate Escapes(levels: nat, c: Call) {
    var a, b, span := FirstPage(c.phys), EndPage(c.phys, c.size), PageSpan(levels);
    && c.size > 0 && 0 < a < b && span < b
    && (a >= span || TableBill(levels, a * 4096, span * 4096) + levels - 1 <= 16)
  }

  /** The call changes the translation of page `v`. */
  ghost predicate Changes(f: Format, verifier: Verifier, pm: PageMap, c: Call, v: nat) {
    Lookup(MapMmio(f, verifier, pm, c).0.leaves, v) != Lookup(pm.leaves, v)
  }

  lemma StaysInRange(f: Format, verifier: Verifier, pm: PageMap, c: Call, v: nat)
    requires 3 <= f.levels <= 4 && Sound(f.levels, pm) && Changes(f, verifier, pm, c, v) && !Escapes(f.levels, c)
    ensures Authorised(verifier, c) && InRange(c, v)
  {
    var r := Region(c.phys, c.size, DEVICE_MMIO);
    var a, b, m := FirstPage(c.phys), EndPage(c.phys, c.size), MappedUpTo(f, pm, r);
    RegionAnywhere(f, pm, r);
    var p := LastAlias(f.levels, a, m, v);
    assert p.Some? && a <= p.value < m <= b;
    if 0 < a < PageSpan(f.levels) < b {
      PassesSpanByBill(f, pm, a, b, DEVICE_MMIO);
    }
  }

  /** On fresh tables an accepted call changes what the indices take its pages for,
      as far as it gets. */
  lemma ChangesAlias(f: Format, verifier: Verifier, c: Call, p: nat)
    requires 3 <= f.levels <= 4 && Accepted(verifier, c)
    requires FirstPage(c.phys) <= p < MappedUpTo(f, EMPTY, Region(c.phys, c.size, DEVICE_MMIO))
    ensures Changes(f, verifier, EMPTY, c, Wrap(f.levels, p))
  {
    var r := Region(c.phys, c.size, DEVICE_MMIO);
    RegionAnywhere(f, EMPTY, r);
    assert LastAlias(f.levels, FirstPage(c.phys), MappedUpTo(f, EMPTY, r), Wrap(f.levels, p)).Some?;
  }

  lemma WrapPastSpan(levels: nat, p: nat)
    requires 3 <= levels <= 4
    ensures Wrap(levels, p) < PageSpan(levels) && (p == PageSpan(levels) ==> Wrap(levels, p) == 0)
  {
  }

  /** The first page past the span that an escaping call maps on fresh tables. */
  lemma PageBeyond(f: Format, c: Call) returns (p: nat)
    requires 3 <= f.levels <= 4 && Escapes(f.levels, c)
    ensures FirstPage(c.phys) <= p < MappedUpTo(f, EMPTY, Region(c.phys, c.size, DEVICE_MMIO))
    ensures Wrap(f.levels, p) < FirstPage(c.phys)
  {
    var a, b, span := FirstPage(c.phys), EndPage(c.phys, c.size), PageSpan(f.levels);
    if a >= span {
      p := a;
      WrapPastSpan(f.levels, a);
      MapsFirstPage(f, a, b, DEVICE_MMIO);
    } else {
      p := span;
      WrapPastSpan(f.levels, span);
      PassesSpanByBill(f, EMPTY, a, b, DEVICE_MMIO);
    }
  }

  /** From no page map does the call change a page outside its range. */
  ghost predicate Confined(f: Format, verifier: Verifier, c: Call) {
    forall pm, v | Sound(f.levels, pm) && Changes(f, verifier, pm, c, v) :: InRange(c, v)
  }

  /** Which calls are confined. */
  lemma ConfinedExactly(f: Format, verifier: Verifier, c: Call)
    requires 3 <= f.levels <= 4
    ensures Confined(f, verifier, c) <==> !(Accepted(verifier, c) && Escapes(f.levels, c))
  {
    if Accepted(verifier, c) && Escapes(f.levels, c) {
      var p := PageBeyond(f, c);
      ChangesAlias(f, verifier, c, p);
      assert Sound(f.levels, EMPTY) && !InRange(c, Wrap(f.levels, p));
    } else {
      forall pm, v | Sound(f.levels, pm) && Changes(f, verifier, pm, c, v)
        ensures InRange(c, v)
      {
        StaysInRange(f, verifier, pm, c, v);
      }
    }
  }

  /** When no accepted call escapes, a page gains or changes its translation only
      inside the range of an authorised call. */
  lemma {:induction false} OnlyAuthorisedPages(f: Format, verifier: Verifier, pm: PageMap, calls: seq<Call>, v: nat)
    requires 3 <= f.levels <= 4 && Sound(f.levels, pm)
    requires forall c :: c in calls && Accepted(verifier, c) ==> !Escapes(f.levels, c)
    requires Lookup(MapMmioRun(f, verifier, pm, calls).leaves, v) != Lookup(pm.leaves, v)
    ensures exists c :: c in calls && Authorised(verifier, c) && InRange(c, v)
    decreases |calls|
  {
    var c := calls[0];
    assert c in calls;
    if Changes(f, verifier, pm, c, v) {
      StaysInRange(f, verifier, pm, c, v);
    } else {
      RegionAnywhere(f, pm, Region(c.phys, c.size, DEVICE_MMIO));
      OnlyAuthorisedPages(f, verifier, MapMmio(f, verifier, pm, c).0, calls[1..], v);
      var d :| d in calls[1..] && Authorised(verifier, d) && InRange(d, v);
      assert d in calls;
    }
  }

  /** For instance a token for the first page past the span is accepted, and the call
      maps page 0. */
  lemma TokenReachesPageZero(f: Format, verifier: Verifier, c: Call)
    requires 3 <= f.levels <= 4 && Accepted(verifier, c)
    requires c.phys == PageSpan(f.levels) * 4096 && c.size == 4096
    ensures var (pm, res) := MapMmio(f, verifier, EMPTY, c);
      res.Ok? && Lookup(pm.leaves, 0) == Some(IdentityLeaf(f, PageSpan(f.levels), DEVICE_MMIO)) && !InRange(c, 0)
  {
    PageZeroIsTaken(f, DEVICE_MMIO);
  }

  /** Rejected calls can be dropped from a run without changing its outcome. */
  ghost function AcceptedOnly(verifier: Verifier, calls: seq<Call>): seq<Call> {
    if calls == [] then []
    else if Accepted(verifier, calls[0]) then [calls[0]] + AcceptedOnly(verifier, calls[1..])
    else AcceptedOnly(verifier, calls[1..])
  }

  lemma {:induction false} RejectedCallsAreIdle(f: Format, verifier: Verifier, pm: PageMap, calls: seq<Call>)
    ensures MapMmioRun(f, verifier, pm, calls) == MapMmioRun(f, verifier, pm, AcceptedOnly(verifier, calls))
    decreases |calls|
  {
    if calls != [] {
      RejectedCallsAreIdle(f, verifier, MapMmio(f, verifier, pm, calls[0]).0, calls[1..]);
      if Accepted(verifier, calls[0]) {
        assert AcceptedOnly(verifier, calls)[1..] == AcceptedOnly(verifier, calls[1..]);
      }
    }
  }

  ghost predicate ClockRuns(calls: seq<Call>) {
    forall i, j :: 0 <= i < j < |calls| ==> calls[i].nowNs <= calls[j].nowNs
  }

  /** While time does not run backwards, a token that has expired once is rejected
      by every later call, whatever it asks for. */
  lemma ExpiryIsFinal(verifier: Verifier, calls: seq<Call>, i: nat, j: nat)
    requires ClockRuns(calls) && i <= j < |calls|
    requires calls[i].token == calls[j].token && calls[i].token.IsExpired(calls[i].nowNs)
    ensures !Accepted(verifier, calls[j])
  {
    if i < j {
      assert calls[i].nowNs <= calls[j].nowNs;
    }
  }

  // ---------------------------------------------------------------------
  // The clock that the calls read
  // ---------------------------------------------------------------------

  /** Each call reads the timer's clock at its own tick, and ticks do not go back. */
  ghost predicate ReadsClock(calls: seq<Call>, ticks: seq<nat>, last: nat, f: nat)
    requires f > 0
  {
    && |ticks| == |calls|
    && (forall i :: 0 <= i < |calls| ==> ticks[i] <= last && calls[i].nowNs == Timer.NowAt(ticks[i], f))
    && (forall i, j :: 0 <= i < j < |ticks| ==> ticks[i] <= ticks[j])
  }

  /** The clock runs as `ClockRuns` says for all calls up to a tick exactly when the
      reported time has not wrapped by then. */
  lemma ClockRunsUntilItWraps(last: nat, f: nat)
    requires f > 0
    ensures (forall calls: seq<Call>, ticks: seq<nat> | ReadsClock(calls, ticks, last, f) :: ClockRuns(calls))
      <==> Timer.Nanos(last, f) < U64_SIZE
  {
    Timer.ClockRunsForwards(last, f);
    if Timer.Nanos(last, f) < U64_SIZE {
      forall calls: seq<Call>, ticks: seq<nat> | ReadsClock(calls, ticks, last, f)
        ensures ClockRuns(calls)
      {
        forall i, j | 0 <= i < j < |calls|
          ensures calls[i].nowNs <= calls[j].nowNs
        {
          assert ticks[i] <= ticks[j];
        }
      }
    } else {
      var s, t := Timer.WrapsDown(last, f);
      var token := CapabilityToken(0, NumaPolicy, 0, []);
      var calls := [Call(token, 0, 0, Timer.NowAt(s, f)), Call(token, 0, 0, Timer.NowAt(t, f))];
      assert ReadsClock(calls, [s, t], last, f);
      assert calls[0].nowNs > calls[1].nowNs;
    }
  }

  /** After the wrap an expired token is good again: with the 10 MHz clock a token
      that expires at 50 ns is rejected at tick 1 and accepted at tick 2^63. */
  lemma ExpiredTokenReturns(verifier: Verifier, token: CapabilityToken)
    requires token.expiresAtNs == 50 && token.scope == MmioRegion(0, 4096) && verifier(token)
    ensures !Accepted(verifier, Call(token, 0, 4096, Timer.NowAt(1, 10_000_000)))
    ensures Accepted(verifier, Call(token, 0, 4096, Timer.NowAt(0x8000_0000_0000_0000, 10_000_000)))
  {
    Timer.ClockRunsBackwards();
  }
}
