/** The GICv3 distributor and CPU interface, and the driver that keeps a handler
    table beside them. */
module Gic {
  import opened Words
  import opened Bits
  import opened EnableWords
  import opened Hal
  import opened IrqContract
  import opened IrqHistory

  // Where the driver finds the distributor's registers.
  const ISENABLER: nat := 0x100
  const ICENABLER: nat := 0x180
  const IPRIORITYR: nat := 0x400
  const IROUTER: nat := 0x6100

  const TIMER_PPI_INTID: nat := 30
  const FIRST_USABLE_INTID: nat := 32
  const MAX_TRACKED_INTIDS: nat := 480
  const FIRST_SPECIAL_INTID: nat := 1020
  const LAST_INTID: nat := 512

  const FOUR_PRIORITIES: nat := 0x8080_8080

  // ---------------------------------------------------------------------
  // The device
  // ---------------------------------------------------------------------

  type EnableMap = map<nat, nat>

  function WordIn(words: EnableMap, i: nat): nat {
    if i in words then words[i] else 0
  }

  predicate EnabledIn(words: EnableMap, intid: nat) {
    Bit(WordIn(words, intid / 32), intid % 32)
  }

  function MasksOf(words: EnableMap): (m: seq<bool>)
    ensures |m| == MAX_TRACKED_INTIDS
    ensures forall i :: 0 <= i < |m| ==> m[i] == !EnabledIn(words, i + FIRST_USABLE_INTID)
  {
    seq(MAX_TRACKED_INTIDS, i requires 0 <= i => !EnabledIn(words, i + FIRST_USABLE_INTID))
  }

  lemma MasksAfter(before: EnableMap, after: EnableMap, intid: nat, enabled: bool)
    requires FIRST_USABLE_INTID <= intid < LAST_INTID && EnabledIn(after, intid) == enabled
    requires forall s | 0 <= s < LAST_INTID && s != intid :: EnabledIn(after, s) == EnabledIn(before, s)
    ensures MasksOf(after) == MasksOf(before)[intid - FIRST_USABLE_INTID := !enabled]
  {
    var a, b := MasksOf(after), MasksOf(before)[intid - FIRST_USABLE_INTID := !enabled];
    forall i | 0 <= i < |a| ensures a[i] == b[i] {
      var s := i + FIRST_USABLE_INTID;
      assert EnabledIn(after, s) == if s == intid then enabled else EnabledIn(before, s);
    }
  }

  /** Setting or clearing one bit of one word enables or disables one interrupt. */
  lemma OneLineChanges(before: EnableMap, after: EnableMap, intid: nat, enable: bool, s: nat)
    requires var w, one := WordIn(before, intid / 32), Pow2(intid % 32);
      && w < U32_SIZE && one < U32_SIZE
      && after == before[intid / 32 := if enable then Or(w, one) else And(w, Not32(one))]
    ensures EnabledIn(after, s) == if s == intid then enable else EnabledIn(before, s)
  {
    var w, bit := WordIn(before, intid / 32), intid % 32;
    if s / 32 == intid / 32 {
      SetBit(w, bit, s % 32);
      ClearBit(w, bit, s % 32);
      assert s % 32 == bit <==> s == intid;
    }
  }

  /** The four bytes of a word, lowest first. */
  function Byte(value: nat, k: nat): nat
    requires k < 4
  {
    match k
    case 0 => value % 0x100
    case 1 => value / 0x100 % 0x100
    case 2 => value / 0x1_0000 % 0x100
    case _ => value / 0x100_0000 % 0x100
  }

  lemma BytesOfWord(v: nat)
    requires v < 0x1_0000_0000
    ensures v == Byte(v, 0) + Byte(v, 1) * 0x100 + Byte(v, 2) * 0x1_0000 + Byte(v, 3) * 0x100_0000
    ensures forall k :: 0 <= k < 4 ==> Byte(v, k) < 0x100
  {
    var a, b, c := v / 0x100, v / 0x1_0000, v / 0x100_0000;
    assert b == a / 0x100 && c == b / 0x100 && c < 0x100;
    assert v == a * 0x100 + v % 0x100 && a == b * 0x100 + a % 0x100 && b == c * 0x100 + b % 0x100;
  }

  /** A distributor that nobody has written to masks every interrupt. */
  lemma NothingEnabled()
    ensures forall i :: 0 <= i < |MasksOf(map[])| ==> MasksOf(map[])[i]
  {
    forall intid: nat
      ensures !EnabledIn(map[], intid)
    {
      BitZero(intid % 32);
    }
  }

  /** The distributor's enable bits, priority bytes and routes by interrupt number
      (chapter 12 of the GICv3 Architecture Specification), and the pending and
      active interrupts of the one core. */
  class GicDevice {
    var enabled: EnableMap
    var priority: map<nat, nat>
    var router: map<nat, nat>
    var pending: set<nat>
    var active: set<nat>
    ghost var log: seq<Event>

    ghost predicate Valid()
      reads `enabled
    {
      forall i :: i in enabled ==> enabled[i] < U32_SIZE
    }

    predicate Deliverable(intid: nat)
      reads `enabled, `pending, `active
    {
      intid < 1020 && intid in pending && intid !in active && EnabledIn(enabled, intid)
    }

    /** ISENABLER sets the bits that are written, ICENABLER clears them, a word of
        IPRIORITYR holds four priorities. */
    method Write32(offset: nat, value: nat)
      requires Valid() && offset % 4 == 0 && value < U32_SIZE
      requires 0x100 <= offset < 0x200 || 0x400 <= offset < 0x800
      modifies this`enabled, this`priority
      ensures Valid()
      ensures 0x100 <= offset < 0x180 ==>
        var i := (offset - 0x100) / 4;
        enabled == old(enabled)[i := Or(WordIn(old(enabled), i), value)] && priority == old(priority)
      ensures 0x180 <= offset < 0x200 ==>
        var i := (offset - 0x180) / 4;
        enabled == old(enabled)[i := And(WordIn(old(enabled), i), Not32(value))] && priority == old(priority)
      ensures 0x400 <= offset ==>
        var i := offset - 0x400;
        && enabled == old(enabled)
        && priority == old(priority)[i := Byte(value, 0)][i + 1 := Byte(value, 1)]
          [i + 2 := Byte(value, 2)][i + 3 := Byte(value, 3)]
    {
      if offset < 0x180 {
        var i := (offset - 0x100) / 4;
        WidePowers();
        OrBelow(WordIn(enabled, i), value, 32);
        enabled := enabled[i := Or(WordIn(enabled, i), value)];
      } else if offset < 0x200 {
        var i := (offset - 0x180) / 4;
        enabled := enabled[i := And(WordIn(enabled, i), Not32(value))];
      } else {
        var i := offset - 0x400;
        priority := priority[i := Byte(value, 0)][i + 1 := Byte(value, 1)]
          [i + 2 := Byte(value, 2)][i + 3 := Byte(value, 3)];
      }
    }

    /** The route of interrupt n is at 0x6000 + 8 * n, for n from 32. */
    method Write64(offset: nat, value: nat)
      requires offset >= 0x6100 && offset % 8 == 0
      modifies this`router
      ensures router == old(router)[(offset - 0x6000) / 8 := value]
    {
      router := router[(offset - 0x6000) / 8 := value];
    }

    method Raise(intid: nat)
      modifies this`pending, this`log
      ensures pending == old(pending) + {intid} && log == old(log) + [Raised(intid)]
    {
      pending := pending + {intid};
      log := log + [Raised(intid)];
    }

    /** ICC_IAR1_EL1: acknowledges a deliverable interrupt, or returns one of the
        special numbers when there is none. */
    method Acknowledge() returns (v: nat)
      modifies this`pending, this`active, this`log
      ensures v < 1024
      ensures v >= 1020 ==>
        && log == old(log) + [Spurious] && pending == old(pending) && active == old(active)
        && forall s :: s in pending ==> !Deliverable(s)
      ensures v < 1020 ==>
        && log == old(log) + [Claimed(v)] && old(Deliverable(v))
        && pending == old(pending) - {v} && active == old(active) + {v}
    {
      if exists s :: s in pending && Deliverable(s) {
        v :| v in pending && Deliverable(v);
        pending := pending - {v};
        active := active + {v};
        log := log + [Claimed(v)];
      } else {
        v := 1023;
        log := log + [Spurious];
      }
    }

    /** ICC_EOIR1_EL1: drops the priority and deactivates. */
    method Eoi(intid: nat, ghost who: Ender)
      modifies this`active, this`log
      ensures active == old(active) - {intid} && log == old(log) + [Ending(who, intid)]
    {
      active := active - {intid};
      log := log + [Ending(who, intid)];
    }

    ghost method Note(e: Event)
      modifies this`log
      ensures log == old(log) + [e]
    {
      log := log + [e];
    }
  }

  // ---------------------------------------------------------------------
  // The driver
  // ---------------------------------------------------------------------

  predicate IsSpi(intid: nat) {
    FIRST_USABLE_INTID <= intid < FIRST_USABLE_INTID + MAX_TRACKED_INTIDS
  }

  class GicDriver {
    const dev: GicDevice
    const handlers: array<Option<Handler>>
    const timerCallback: Option<Handler>
    ghost const start: Lines

    /** Every registered SPI has the usual priority and goes to core 0. */
    ghost predicate Valid()
      reads this, dev`enabled, dev`priority, dev`router, handlers
    {
      && dev.Valid() && handlers.Length == MAX_TRACKED_INTIDS
      && forall i :: 0 <= i < MAX_TRACKED_INTIDS && handlers[i].Some? ==> Configured(i + FIRST_USABLE_INTID)
    }

    predicate Configured(intid: nat)
      requires intid >= FIRST_USABLE_INTID
      reads dev`priority, dev`router
    {
      && intid in dev.priority && dev.priority[intid] == 0x80
      && intid in dev.router && dev.router[intid] == 0
    }

    ghost function Abs(): (c: Lines)
      requires Valid()
      reads this, dev`enabled, dev`priority, dev`router, handlers
      ensures c.Ok() && c.first == FIRST_USABLE_INTID && |c.handlers| == MAX_TRACKED_INTIDS
    {
      Lines(FIRST_USABLE_INTID, handlers[..], MasksOf(dev.enabled))
    }

    ghost predicate InOrder()
      requires Valid()
      reads this, dev, handlers
    {
      Leads(start, dev.log, Monitor(Abs(), Idle), Some(30))
    }

    constructor (dev: GicDevice, timerCallback: Option<Handler>)
      requires dev.Valid() && dev.log == []
      ensures Valid() && InOrder() && this.dev == dev && fresh(handlers)
      ensures forall i :: 0 <= i < |Abs().handlers| ==> Abs().handlers[i] == None
    {
      this.dev := dev;
      this.timerCallback := timerCallback;
      handlers := new Option<Handler>[MAX_TRACKED_INTIDS](_ => None);
      start := Lines(FIRST_USABLE_INTID, seq(MAX_TRACKED_INTIDS, _ => None), MasksOf(dev.enabled));
      new;
      assert Abs() == start;
    }

    /** The line count that is reported. Accepted and not below it are exactly the
        numbers from 480 to 511, below it and not accepted those below 32. */
    function IrqLineCount(): (n: nat)
      ensures n == 480
      ensures forall c: Lines, irq: nat | c.first == FIRST_USABLE_INTID && |c.handlers| == MAX_TRACKED_INTIDS ::
        c.HasLine(irq) && irq >= n <==> 480 <= irq < 512
      ensures forall c: Lines, irq: nat | c.first == FIRST_USABLE_INTID && |c.handlers| == MAX_TRACKED_INTIDS ::
        (c.HasLine(irq) <==> irq < n) <==> !(irq < 32 || 480 <= irq < 512)
    {
      MAX_TRACKED_INTIDS
    }

    /** One write to a set or a clear register changes one line. */
    method SetLine(intid: nat, enable: bool)
      requires Valid() && IsSpi(intid)
      modifies dev`enabled, dev`priority
      ensures Valid() && dev.priority == old(dev.priority)
      ensures MasksOf(dev.enabled) == old(MasksOf(dev.enabled))[intid - FIRST_USABLE_INTID := !enable]
      ensures EnabledIn(dev.enabled, intid) == enable
      ensures forall s | 0 <= s < LAST_INTID && s != intid
        :: EnabledIn(dev.enabled, s) == EnabledIn(old(dev.enabled), s)
    {
      var index, bit := intid / 32, intid % 32;
      ghost var before := dev.enabled;
      OneBit(bit);
      dev.Write32((if enable then ISENABLER else ICENABLER) + index * 4, Pow2(bit));
      forall s: nat
        ensures EnabledIn(dev.enabled, s) == if s == intid then enable else EnabledIn(before, s)
      {
        OneLineChanges(before, dev.enabled, intid, enable, s);
      }
      MasksAfter(before, dev.enabled, intid, enable);
    }

    /** Priority, route and enable. The priority write also covers the three
        neighbours in the same word. */
    method ConfigureSpi(intid: nat)
      requires Valid() && IsSpi(intid)
      modifies dev`enabled, dev`priority, dev`router
      ensures Valid() && Configured(intid) && EnabledIn(dev.enabled, intid)
      ensures MasksOf(dev.enabled) == old(MasksOf(dev.enabled))[intid - FIRST_USABLE_INTID := false]
      ensures forall s :: FIRST_USABLE_INTID <= s && old(Configured(s)) ==> Configured(s)
    {
      var byteOffset := IPRIORITYR + intid;
      dev.Write32(byteOffset / 4 * 4, FOUR_PRIORITIES);
      dev.Write64(IROUTER + (intid - 32) * 8, 0);
      SetLine(intid, true);
    }

    method RegisterIrq(irq: nat, handler: Handler) returns (r: Result<()>)
      requires Valid()
      modifies dev`enabled, dev`priority, dev`router, dev`log, handlers
      ensures Valid() && (Abs(), r) == Perform(old(Abs()), Register(irq, handler))
      ensures dev.log == old(dev.log) + [Called(Register(irq, handler))]
      ensures r.Ok? ==> Configured(irq) && Bit(WordIn(dev.enabled, irq / 32), irq % 32)
    {
      dev.Note(Called(Register(irq, handler)));
      if irq < FIRST_USABLE_INTID || irq >= FIRST_USABLE_INTID + MAX_TRACKED_INTIDS {
        return Err(InvalidIrqId);
      }
      var idx := irq - FIRST_USABLE_INTID;
      if handlers[idx].Some? {
        return Err(IrqAlreadyRegistered);
      }
      ConfigureSpi(irq);
      handlers[idx] := Some(handler);
      return Ok(());
    }

    method UnregisterIrq(irq: nat)
      requires Valid()
      modifies dev`enabled, dev`priority, dev`log, handlers
      ensures Valid() && Abs() == Perform(old(Abs()), Unregister(irq)).0
      ensures dev.log == old(dev.log) + [Called(Unregister(irq))]
    {
      dev.Note(Called(Unregister(irq)));
      if FIRST_USABLE_INTID <= irq < FIRST_USABLE_INTID + MAX_TRACKED_INTIDS {
        handlers[irq - FIRST_USABLE_INTID] := None;
        SetLine(irq, false);
      }
    }

    method MaskIrq(irq: nat) returns (r: Result<()>)
      requires Valid()
      modifies dev`enabled, dev`priority, dev`log
      ensures Valid() && (Abs(), r) == Perform(old(Abs()), Mask(irq))
      ensures dev.log == old(dev.log) + [Called(Mask(irq))]
    {
      dev.Note(Called(Mask(irq)));
      if irq < FIRST_USABLE_INTID || irq >= FIRST_USABLE_INTID + MAX_TRACKED_INTIDS {
        return Err(InvalidIrqId);
      }
      SetLine(irq, false);
      return Ok(());
    }

    method UnmaskIrq(irq: nat) returns (r: Result<()>)
      requires Valid()
      modifies dev`enabled, dev`priority, dev`log
      ensures Valid() && (Abs(), r) == Perform(old(Abs()), Unmask(irq))
      ensures dev.log == old(dev.log) + [Called(Unmask(irq))]
    {
      dev.Note(Called(Unmask(irq)));
      if irq < FIRST_USABLE_INTID || irq >= FIRST_USABLE_INTID + MAX_TRACKED_INTIDS {
        return Err(InvalidIrqId);
      }
      SetLine(irq, true);
      return Ok(());
    }

    method EndOfInterrupt(irq: nat, ghost who: Ender)
      requires Valid()
      modifies dev`active, dev`log
      ensures Valid() && Abs() == old(Abs())
      ensures dev.active == old(dev.active) - {irq} && dev.log == old(dev.log) + [Ending(who, irq)]
    {
      dev.Eoi(irq, who);
    }

    /** Any sequence of calls: the driver refines the contract, step for step. */
    method Serve(ops: seq<IrqOp>) returns (results: seq<Result<()>>)
      requires Valid()
      modifies dev`enabled, dev`priority, dev`router, dev`active, dev`log, handlers
      ensures Valid() && Abs() == PerformAll(old(Abs()), ops) && results == Results(old(Abs()), ops)
      ensures dev.log == old(dev.log) + Calls(ops) && dev.active <= old(dev.active)
      decreases |ops|
    {
      results := [];
      if ops != [] {
        ghost var log := dev.log;
        var r: Result<()> := Ok(());
        match ops[0] {
          case Register(irq, h) => r := RegisterIrq(irq, h);
          case Unregister(irq) => UnregisterIrq(irq);
          case Mask(irq) => r := MaskIrq(irq);
          case Unmask(irq) => r := UnmaskIrq(irq);
          case End(irq) => EndOfInterrupt(irq, ByCall);
        }
        assert (Abs(), r) == Perform(old(Abs()), ops[0]);
        var rest := Serve(ops[1..]);
        results := [r] + rest;
        CallsCons(log, ops);
      }
    }

    /** A handler or the timer callback runs: it may make any calls. */
    method RunCode(code: Event) returns (calls: seq<IrqOp>)
      requires Valid()
      modifies dev`enabled, dev`priority, dev`router, dev`active, dev`log, handlers
      ensures Valid() && Abs() == PerformAll(old(Abs()), calls)
      ensures dev.log == old(dev.log) + [code] + Calls(calls) && dev.active <= old(dev.active)
    {
      dev.Note(code);
      calls := *;
      var results := Serve(calls);
    }

    /** The code for an interrupt: the timer's own goes to its callback, an SPI to its
        handler. */
    method Service(intid: nat) returns (ghost code: Option<Event>, calls: seq<IrqOp>)
      requires Valid()
      modifies dev`enabled, dev`priority, dev`router, dev`active, dev`log, handlers
      ensures Valid() && dev.active <= old(dev.active)
      ensures var h := HandlerIn(old(Abs()), intid);
        code == if intid == 30 then Some(TimerRan) else if h.Some? then Some(Ran(h.value, intid)) else None
      ensures Abs() == if code.Some? then PerformAll(old(Abs()), calls) else old(Abs())
      ensures dev.log == old(dev.log) + if code.Some? then [code.value] + Calls(calls) else []
    {
      code, calls := None, [];
      if intid == TIMER_PPI_INTID {
        code := Some(TimerRan);
        if timerCallback.Some? {
          calls := RunCode(TimerRan);
        } else {
          dev.Note(TimerRan);
        }
      } else if intid >= FIRST_USABLE_INTID && intid - FIRST_USABLE_INTID < MAX_TRACKED_INTIDS {
        var handler := handlers[intid - FIRST_USABLE_INTID];
        if handler.Some? {
          code := Some(Ran(handler.value, intid));
          calls := RunCode(Ran(handler.value, intid));
        }
      }
    }

    /** Acknowledge, run the code for it, end what was acknowledged. */
    method DispatchCurrentIrq() returns (intid: nat, ghost code: Option<Event>, calls: seq<IrqOp>)
      requires Valid()
      modifies dev, handlers
      ensures Valid() && dev.active <= old(dev.active)
      ensures intid >= 1020 ==>
        && Abs() == old(Abs()) && dev.pending == old(dev.pending) && dev.log == old(dev.log) + [Spurious]
        && forall s :: s in dev.pending ==> !dev.Deliverable(s)
      ensures intid < 1020 ==>
        && old(dev.Deliverable(intid)) && dev.pending == old(dev.pending) - {intid}
        && var h := HandlerIn(old(Abs()), intid);
        && code == (if intid == 30 then Some(TimerRan) else if h.Some? then Some(Ran(h.value, intid))
          else None)
        && Abs() == (if code.Some? then PerformAll(old(Abs()), calls) else old(Abs()))
        && dev.log == old(dev.log) + Serviced(intid, code, calls)
    {
      code, calls := None, [];
      intid := dev.Acknowledge();
      if intid >= FIRST_SPECIAL_INTID {
        return;
      }
      ghost var log := dev.log;
      code, calls := Service(intid);
      EndOfInterrupt(intid, ByDispatch);
      assert dev.log == log + (if code.Some? then [code.value] + Calls(calls) else []) + [Completed(intid)];
    }

    method DispatchInOrder() returns (ghost piece: seq<Event>)
      requires Valid() && InOrder()
      modifies dev, handlers
      ensures Valid() && InOrder() && dev.active <= old(dev.active)
      ensures dev.log == old(dev.log) + piece && IsDispatch(piece)
    {
      ghost var log, before := dev.log, Abs();
      ghost var timer := Some(TIMER_PPI_INTID);
      var intid, code, calls := DispatchCurrentIrq();
      if intid >= FIRST_SPECIAL_INTID {
        piece := [Spurious];
        WatchAppend(start, log, Spurious, Monitor(before, Idle), Monitor(before, Idle), timer);
      } else {
        piece := Serviced(intid, code, calls);
        ServicedIsOrderly(start, log, intid, code, calls, before, timer);
      }
    }

    method CallInOrder(op: IrqOp)
      requires Valid() && InOrder()
      modifies dev`enabled, dev`priority, dev`router, dev`active, dev`log, handlers
      ensures Valid() && InOrder() && dev.log == old(dev.log) + [Called(op)] && dev.active <= old(dev.active)
    {
      WatchCalls(start, dev.log, [op], Monitor(Abs(), Idle), Some(TIMER_PPI_INTID));
      assert Calls([op]) == [Called(op)];
      var results := Serve([op]);
    }

    method RaiseInOrder(intid: nat)
      requires Valid() && InOrder()
      modifies dev`pending, dev`log
      ensures Valid() && InOrder() && dev.log == old(dev.log) + [Raised(intid)]
    {
      WatchAppend(start, dev.log, Raised(intid), Monitor(Abs(), Idle), Monitor(Abs(), Idle), Some(TIMER_PPI_INTID));
      dev.Raise(intid);
    }

    /** Any run: the history grows by what each step does and stays in order, nothing
        is left active, and registered SPIs keep their priority and route (`Valid`). */
    method Run(steps: seq<Step>) returns (ghost pieces: seq<seq<Event>>)
      requires Valid() && InOrder()
      modifies dev, handlers
      ensures Valid() && InOrder() && dev.active <= old(dev.active)
      ensures Grew(old(dev.log), dev.log, steps, pieces)
    {
      pieces := [];
      for i := 0 to |steps|
        invariant Valid() && InOrder() && dev.active <= old(dev.active)
        invariant Grew(old(dev.log), dev.log, steps[..i], pieces)
      {
        ghost var log, piece := dev.log, [];
        match steps[i] {
          case Raise(intid) =>
            RaiseInOrder(intid);
            piece := [Raised(intid)];
          case Dispatch =>
            piece := DispatchInOrder();
          case Call(op) =>
            CallInOrder(op);
            piece := [Called(op)];
        }
        GrewMore(old(dev.log), log, steps[..i], pieces, steps[i], piece);
        pieces := pieces + [piece];
        assert steps[..i + 1] == steps[..i] + [steps[i]];
      }
      assert steps[..|steps|] == steps;
    }
  }
}
