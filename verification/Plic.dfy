/** The RISC-V PLIC: the device's registers, and the driver that keeps a handler
    table beside them. */
module Plic {
  import opened Words
  import opened Bits
  import opened EnableWords
  import opened Hal
  import opened IrqContract
  import opened IrqHistory
  import opened PlicHistory

  // Where the driver finds the registers.
  const PRIORITY_BASE: nat := 0x0
  const ENABLE_BASE: nat := 0x2000
  const ENABLE_CONTEXT_STRIDE: nat := 0x80
  const CONTEXT_BASE: nat := 0x20_0000
  const CONTEXT_STRIDE: nat := 0x1000
  const THRESHOLD_OFFSET: nat := 0x0
  const CLAIM_COMPLETE_OFFSET: nat := 0x4

  const PLIC_CONTEXT: nat := 1
  const FIRST_USABLE_SOURCE: nat := 1
  const MAX_TRACKED_SOURCES: nat := 512

  const THRESHOLD: nat := CONTEXT_BASE + PLIC_CONTEXT * CONTEXT_STRIDE + THRESHOLD_OFFSET
  const CLAIM_COMPLETE: nat := CONTEXT_BASE + PLIC_CONTEXT * CONTEXT_STRIDE + CLAIM_COMPLETE_OFFSET

  function PriorityOffset(source: nat): nat {
    PRIORITY_BASE + source * 4
  }

  function EnableOffset(source: nat): nat {
    ENABLE_BASE + PLIC_CONTEXT * ENABLE_CONTEXT_STRIDE + source / 32 * 4
  }

  // ---------------------------------------------------------------------
  // The device
  // ---------------------------------------------------------------------

  // Its own register map (chapter 3 of the RISC-V PLIC Specification). Context 1
  // is the supervisor mode of the one hart.

  function PriorityRegister(source: nat): nat {
    4 * source
  }

  function EnableRegister(source: nat): nat {
    0x2080 + 4 * (source / 32)
  }

  const THRESHOLD_REGISTER: nat := 0x20_1000
  const CLAIM_REGISTER: nat := 0x20_1004

  /** The driver finds the registers where they are. */
  lemma DriverFindsRegisters(source: nat)
    ensures PriorityOffset(source) == 4 * source && EnableOffset(source) == 0x2080 + 4 * (source / 32)
    ensures THRESHOLD == 0x20_1000 && CLAIM_COMPLETE == 0x20_1004
  {
  }

  /** The registers in use do not overlap: a priority word, an enable word and the
      claim register are different words, and two sources share an enable word only
      if they are in the same group of 32. */
  lemma RegistersApart(s: nat, t: nat)
    requires s < 1024 && t < 1024
    ensures PriorityRegister(s) != EnableRegister(t)
    ensures PriorityRegister(s) == PriorityRegister(t) <==> s == t
    ensures EnableRegister(s) == EnableRegister(t) <==> s / 32 == t / 32
    ensures PriorityRegister(s) != CLAIM_REGISTER && PriorityRegister(s) != THRESHOLD_REGISTER
    ensures EnableRegister(s) != CLAIM_REGISTER && EnableRegister(s) != THRESHOLD_REGISTER
  {
  }

  function WordIn(words: map<nat, nat>, offset: nat): nat {
    if offset in words then words[offset] else 0
  }

  predicate EnabledIn(words: map<nat, nat>, source: nat) {
    Bit(WordIn(words, EnableRegister(source)), source % 32)
  }

  /** The mask of each line: a source is masked when its enable bit is clear. */
  function MasksOf(words: map<nat, nat>): (m: seq<bool>)
    ensures |m| == MAX_TRACKED_SOURCES - 1
    ensures forall i :: 0 <= i < |m| ==> m[i] == !EnabledIn(words, i + 1)
  {
    seq(MAX_TRACKED_SOURCES - 1, i requires 0 <= i => !EnabledIn(words, i + 1))
  }

  /** A device that nobody has written to masks every source. */
  lemma NothingEnabled()
    ensures forall i :: 0 <= i < |MasksOf(map[])| ==> MasksOf(map[])[i]
  {
    forall s: nat
      ensures !EnabledIn(map[], s)
    {
      BitZero(s % 32);
    }
  }

  /** Changing one enable bit changes one mask. */
  lemma MasksAfter(before: map<nat, nat>, after: map<nat, nat>, source: nat, enabled: bool)
    requires 1 <= source < MAX_TRACKED_SOURCES && EnabledIn(after, source) == enabled
    requires forall s | 0 <= s < MAX_TRACKED_SOURCES && s != source :: EnabledIn(after, s) == EnabledIn(before, s)
    ensures MasksOf(after) == MasksOf(before)[source - 1 := !enabled]
  {
    var a, b := MasksOf(after), MasksOf(before)[source - 1 := !enabled];
    forall i | 0 <= i < |a| ensures a[i] == b[i] {
      assert EnabledIn(after, i + 1) == if i + 1 == source then enabled else EnabledIn(before, i + 1);
    }
  }

  /** The register file of the PLIC as context 1 sees it, the pending sources and
      the claimed ones. A completion of a source that is not enabled is ignored. */
  class PlicDevice {
    var words: map<nat, nat>
    var pending: set<nat>
    var inService: set<nat>
    ghost var log: seq<Event>

    ghost predicate WordsOk()
      reads `words
    {
      forall o :: o in words ==> words[o] < U32_SIZE
    }

    ghost predicate Valid()
      reads `words, `pending, `inService
    {
      && WordsOk() && pending !! inService
      && (forall s :: s in pending ==> 0 < s < 1024)
      && (forall s :: s in inService ==> s < 1024)
    }

    function WordAt(offset: nat): nat
      reads `words
    {
      WordIn(words, offset)
    }

    predicate Enabled(source: nat)
      reads `words
    {
      EnabledIn(words, source)
    }

    function Threshold(): nat
      reads `words
    {
      WordAt(THRESHOLD_REGISTER)
    }

    /** A source can be claimed when it is pending, enabled and above the threshold. */
    predicate Claimable(source: nat)
      reads `words, `pending
    {
      source != 0 && source in pending && Enabled(source) && WordAt(PriorityRegister(source)) > Threshold()
    }

    /** Reading the claim register takes a claimable source out of the pending set,
        or returns 0 when there is none; other reads only return the word. */
    method Read32(offset: nat) returns (v: nat)
      requires Valid()
      modifies this
      ensures Valid() && words == old(words) && v < U32_SIZE
      ensures offset != CLAIM_REGISTER ==>
        v == WordAt(offset) && pending == old(pending) && inService == old(inService) && log == old(log)
      ensures offset == CLAIM_REGISTER ==>
        && log == old(log) + [if v == 0 then Spurious else Claimed(v)]
        && (v == 0 ==> pending == old(pending) && inService == old(inService))
        && (v == 0 ==> forall s :: s in pending ==> !Claimable(s))
        && (v != 0 ==> old(Claimable(v)) && pending == old(pending) - {v} && inService == old(inService) + {v})
    {
      if offset != CLAIM_REGISTER {
        v := WordAt(offset);
      } else if exists s :: s in pending && Claimable(s) {
        v :| v in pending && Claimable(v);
        pending := pending - {v};
        inService := inService + {v};
        log := log + [Claimed(v)];
      } else {
        v := 0;
        log := log + [Spurious];
      }
    }

    /** The wire of a source goes up. The gateway forwards nothing while the source
        is being serviced. */
    method Raise(source: nat)
      requires Valid() && 0 < source < 1024
      modifies this`pending, this`log
      ensures Valid() && log == old(log) + [Raised(source)]
      ensures pending == if source in inService then old(pending) else old(pending) + {source}
    {
      if source !in inService {
        pending := pending + {source};
      }
      log := log + [Raised(source)];
    }

    ghost method Note(e: Event)
      modifies this`log
      ensures log == old(log) + [e]
    {
      log := log + [e];
    }

    /** Writing the claim register completes a source. */
    method Write32(offset: nat, value: nat, ghost who: Ender := ByDispatch)
      requires Valid() && (offset != CLAIM_REGISTER ==> value < U32_SIZE)
      modifies this`words, this`inService, this`log
      ensures Valid() && pending == old(pending)
      ensures offset != CLAIM_REGISTER ==>
        words == old(words)[offset := value] && inService == old(inService) && log == old(log)
      ensures offset == CLAIM_REGISTER ==>
        && words == old(words) && log == old(log) + [Ending(who, value)]
        && inService == if old(Enabled(value)) then old(inService) - {value} else old(inService)
    {
      if offset != CLAIM_REGISTER {
        words := words[offset := value];
      } else {
        if Enabled(value) {
          inService := inService - {value};
        }
        log := log + [Ending(who, value)];
      }
    }
  }

  // ---------------------------------------------------------------------
  // The driver
  // ---------------------------------------------------------------------

  class PlicDriver {
    const dev: PlicDevice
    const handlers: array<Option<Handler>>
    ghost const start: Lines

    /** Every source with a handler has the one priority the driver uses. A source in
        service that is none of the driver's is enabled. */
    ghost predicate Valid()
      reads this, dev`words, dev`pending, dev`inService, handlers
    {
      && dev.Valid() && handlers.Length == MAX_TRACKED_SOURCES
      && (forall s :: 1 <= s < MAX_TRACKED_SOURCES && handlers[s - 1].Some? ==> dev.WordAt(PriorityRegister(s)) == 1)
      && (forall s :: s in dev.inService ==> 1 <= s < MAX_TRACKED_SOURCES || (s > 0 && dev.Enabled(s)))
    }

    /** The lines that the handler table and the enable bits stand for. */
    ghost function Abs(): (c: Lines)
      requires Valid()
      reads this, dev`words, dev`pending, dev`inService, handlers
      ensures c.Ok() && c.first == FIRST_USABLE_SOURCE && |c.handlers| == MAX_TRACKED_SOURCES - 1
    {
      Lines(FIRST_USABLE_SOURCE, handlers[..MAX_TRACKED_SOURCES - 1], MasksOf(dev.words))
    }

    constructor (dev: PlicDevice)
      requires dev.Valid() && dev.log == [] && dev.inService == {}
      ensures Valid() && InOrder() && this.dev == dev && fresh(handlers)
      ensures forall i :: 0 <= i < |Abs().handlers| ==> Abs().handlers[i] == None
    {
      this.dev := dev;
      handlers := new Option<Handler>[MAX_TRACKED_SOURCES](_ => None);
      start := Lines(FIRST_USABLE_SOURCE, seq(MAX_TRACKED_SOURCES - 1, _ => None), MasksOf(dev.words));
      new;
      assert Abs() == start;
    }

    /** Between dispatches: the history so far is orderly, it accounts for the
        handler table and the enable bits, and for what the hardware waits for. */
    ghost predicate InOrder()
      requires Valid()
      reads this, dev, handlers
    {
      Reaches(start, dev.log, Monitor(Abs(), Idle), dev.inService)
    }

    /** The line count that is reported. No number outside it is accepted; of those
        below it, all but 0 are. */
    function IrqLineCount(): (n: nat)
      ensures n == 512
      ensures forall c: Lines, irq: nat | c.first == FIRST_USABLE_SOURCE && |c.handlers| == MAX_TRACKED_SOURCES - 1 ::
        c.HasLine(irq) ==> irq < n
      ensures forall c: Lines, irq: nat | c.first == FIRST_USABLE_SOURCE && |c.handlers| == MAX_TRACKED_SOURCES - 1 ::
        (c.HasLine(irq) <==> irq < n) <==> irq != 0
    {
      MAX_TRACKED_SOURCES
    }

    /** Lets every source with a priority through. */
    method BootstrapCurrentCore()
      requires Valid() && InOrder()
      modifies dev
      ensures Valid() && InOrder() && Abs() == old(Abs()) && dev.Threshold() == 0
      ensures dev.pending == old(dev.pending) && dev.inService == old(dev.inService) && dev.log == old(dev.log)
    {
      ghost var words := dev.words;
      DriverFindsRegisters(0);
      dev.Write32(THRESHOLD, 0);
      forall s | 0 <= s < 1024
        ensures EnabledIn(dev.words, s) == EnabledIn(words, s)
        ensures dev.WordAt(PriorityRegister(s)) == WordIn(words, PriorityRegister(s))
      {
        RegistersApart(s, s);
      }
      assert MasksOf(dev.words) == MasksOf(words);
    }

    /** With the threshold at zero, a line with a handler can be claimed exactly when
        its source is pending and it is not masked. */
    lemma Deliverable(source: nat)
      requires Valid() && dev.Threshold() == 0 && 1 <= source < 512 && Abs().HandlerOf(source).Some?
      ensures dev.Claimable(source) <==> source in dev.pending && !Abs().IsMasked(source)
    {
      assert handlers[source - 1].Some?;
    }

    /** One priority word; no other word changes. */
    method SetPriority(source: nat, priority: nat)
      requires dev.Valid() && source < MAX_TRACKED_SOURCES && priority < U32_SIZE
      modifies dev
      ensures dev.Valid() && dev.words == old(dev.words)[PriorityRegister(source) := priority]
      ensures dev.pending == old(dev.pending) && dev.inService == old(dev.inService) && dev.log == old(dev.log)
        && dev.Threshold() == old(dev.Threshold())
    {
      DriverFindsRegisters(source);
      RegistersApart(source, source);
      dev.Write32(PriorityOffset(source), priority);
    }

    /** Read, change one bit, write back: the other 31 sources of the word and all
        other words are as before. */
    method SetEnabled(source: nat, enabled: bool)
      requires dev.Valid() && source < MAX_TRACKED_SOURCES
      modifies dev
      ensures dev.Valid() && dev.pending == old(dev.pending) && dev.inService == old(dev.inService)
        && dev.log == old(dev.log) && dev.Threshold() == old(dev.Threshold())
      ensures forall o: nat :: o != EnableRegister(source) ==> WordIn(dev.words, o) == WordIn(old(dev.words), o)
      ensures EnabledIn(dev.words, source) == enabled
      ensures forall s | 0 <= s < MAX_TRACKED_SOURCES && s != source
        :: EnabledIn(dev.words, s) == EnabledIn(old(dev.words), s)
    {
      var offset, bit := EnableOffset(source), source % 32;
      DriverFindsRegisters(source);
      RegistersApart(source, source);
      OneBit(bit);
      var current := dev.Read32(offset);
      var updated := if enabled then Or(current, Pow2(bit)) else And(current, Not32(Pow2(bit)));
      forall s | 0 <= s < MAX_TRACKED_SOURCES && s / 32 == source / 32
        ensures updated < U32_SIZE && Bit(updated, s % 32) == if s == source then enabled else Bit(current, s % 32)
      {
        SetBit(current, bit, s % 32);
        ClearBit(current, bit, s % 32);
        assert s % 32 == bit <==> s == source;
      }
      dev.Write32(offset, updated);
      forall s | 0 <= s < MAX_TRACKED_SOURCES
        ensures EnabledIn(dev.words, s) == if s == source then enabled else EnabledIn(old(dev.words), s)
      {
        RegistersApart(s, source);
      }
    }

    /** Changes one enable bit. */
    method SetLine(source: nat, enabled: bool)
      requires Valid() && 1 <= source < MAX_TRACKED_SOURCES
      modifies dev
      ensures Valid() && MasksOf(dev.words) == old(MasksOf(dev.words))[source - 1 := !enabled]
      ensures dev.Enabled(source) == enabled
      ensures dev.pending == old(dev.pending) && dev.inService == old(dev.inService) && dev.log == old(dev.log)
        && dev.Threshold() == old(dev.Threshold())
    {
      ghost var words := dev.words;
      SetEnabled(source, enabled);
      MasksAfter(words, dev.words, source, enabled);
      forall s | s in dev.inService && s >= MAX_TRACKED_SOURCES
        ensures dev.Enabled(s)
      {
        assert EnableRegister(s) != EnableRegister(source);
        assert WordIn(dev.words, EnableRegister(s)) == WordIn(words, EnableRegister(s)) && EnabledIn(words, s);
      }
      forall s | 1 <= s < MAX_TRACKED_SOURCES && handlers[s - 1].Some?
        ensures dev.WordAt(PriorityRegister(s)) == 1
      {
        RegistersApart(s, source);
      }
    }

    /** The priority word that every registered source gets. */
    method SetUsualPriority(source: nat)
      requires Valid() && 1 <= source < MAX_TRACKED_SOURCES
      modifies dev
      ensures Valid() && MasksOf(dev.words) == old(MasksOf(dev.words)) && dev.WordAt(PriorityRegister(source)) == 1
      ensures dev.pending == old(dev.pending) && dev.inService == old(dev.inService) && dev.log == old(dev.log)
        && dev.Threshold() == old(dev.Threshold())
    {
      ghost var words := dev.words;
      SetPriority(source, 1);
      forall s | 0 <= s < MAX_TRACKED_SOURCES
        ensures EnabledIn(dev.words, s) == EnabledIn(words, s)
      {
        RegistersApart(source, s);
      }
      MasksAfter(words, dev.words, source, EnabledIn(words, source));
      assert MasksOf(dev.words) == MasksOf(words);
      forall s | 1 <= s < MAX_TRACKED_SOURCES && handlers[s - 1].Some?
        ensures dev.WordAt(PriorityRegister(s)) == 1
      {
        RegistersApart(source, s);
      }
    }

    /** Gives the line a handler, sets its priority and enables it. */
    method RegisterIrq(irq: nat, handler: Handler) returns (r: Result<()>)
      requires Valid()
      modifies dev, handlers
      ensures Valid() && (Abs(), r) == Perform(old(Abs()), Register(irq, handler))
      ensures dev.pending == old(dev.pending) && dev.inService == old(dev.inService)
        && dev.Threshold() == old(dev.Threshold())
        && dev.log == old(dev.log) + [Called(Register(irq, handler))]
      ensures r.Ok? ==> Bit(dev.WordAt(0x2080 + 4 * (irq / 32)), irq % 32) && dev.WordAt(4 * irq) == 1
    {
      dev.Note(Called(Register(irq, handler)));
      if irq < FIRST_USABLE_SOURCE || irq >= MAX_TRACKED_SOURCES {
        return Err(InvalidIrqId);
      }
      var idx := irq - FIRST_USABLE_SOURCE;
      if handlers[idx].Some? {
        return Err(IrqAlreadyRegistered);
      }
      SetUsualPriority(irq);
      handlers[idx] := Some(handler);
      SetLine(irq, true);
      assert dev.WordAt(PriorityRegister(irq)) == 1 && dev.Enabled(irq);
      return Ok(());
    }

    method UnregisterIrq(irq: nat)
      requires Valid()
      modifies dev, handlers
      ensures Valid() && Abs() == Perform(old(Abs()), Unregister(irq)).0
      ensures dev.pending == old(dev.pending) && dev.inService == old(dev.inService)
        && dev.Threshold() == old(dev.Threshold())
        && dev.log == old(dev.log) + [Called(Unregister(irq))]
    {
      dev.Note(Called(Unregister(irq)));
      if FIRST_USABLE_SOURCE <= irq < MAX_TRACKED_SOURCES {
        handlers[irq - FIRST_USABLE_SOURCE] := None;
        SetLine(irq, false);
      }
    }

    method MaskIrq(irq: nat) returns (r: Result<()>)
      requires Valid()
      modifies dev
      ensures Valid() && (Abs(), r) == Perform(old(Abs()), Mask(irq))
      ensures dev.pending == old(dev.pending) && dev.inService == old(dev.inService)
        && dev.Threshold() == old(dev.Threshold())
        && dev.log == old(dev.log) + [Called(Mask(irq))]
    {
      dev.Note(Called(Mask(irq)));
      if irq < FIRST_USABLE_SOURCE || irq >= MAX_TRACKED_SOURCES {
        return Err(InvalidIrqId);
      }
      SetLine(irq, false);
      return Ok(());
    }

    method UnmaskIrq(irq: nat) returns (r: Result<()>)
      requires Valid()
      modifies dev
      ensures Valid() && (Abs(), r) == Perform(old(Abs()), Unmask(irq))
      ensures dev.pending == old(dev.pending) && dev.inService == old(dev.inService)
        && dev.Threshold() == old(dev.Threshold())
        && dev.log == old(dev.log) + [Called(Unmask(irq))]
    {
      dev.Note(Called(Unmask(irq)));
      if irq < FIRST_USABLE_SOURCE || irq >= MAX_TRACKED_SOURCES {
        return Err(InvalidIrqId);
      }
      SetLine(irq, true);
      return Ok(());
    }

    /** Any sequence of calls: the driver refines the contract, step for step. */
    method Serve(ops: seq<IrqOp>) returns (results: seq<Result<()>>)
      requires Valid()
      modifies dev, handlers
      ensures Valid() && Abs() == PerformAll(old(Abs()), ops) && results == Results(old(Abs()), ops)
      ensures dev.pending == old(dev.pending) && dev.Threshold() == old(dev.Threshold())
      ensures dev.inService == RetireCalls(old(dev.inService), old(Abs()), ops)
      ensures dev.log == old(dev.log) + Calls(ops)
      decreases |ops|
    {
      results := [];
      if ops != [] {
        ghost var log := dev.log;
        var r: Result<()> := Ok(());
        match ops[0] {
          case Register(irq, h) => r := RegisterIrq(irq, h);
          case Unregister(irq) => UnregisterIrq(irq);
          case Mask(irq) => r := MaskIrq(irq);
          case Unmask(irq) => r := UnmaskIrq(irq);
          case End(irq) => EndOfInterrupt(irq, ByCall);
        }
        assert (Abs(), r) == Perform(old(Abs()), ops[0]);
        var rest := Serve(ops[1..]);
        results := [r] + rest;
        CallsCons(log, ops);
      }
    }

    /** Writes the number back: the hardware retires the source unless its line is
        masked. */
    method EndOfInterrupt(source: nat, ghost who: Ender)
      requires Valid()
      modifies dev
      ensures Valid() && Abs() == old(Abs()) && dev.words == old(dev.words) && dev.pending == old(dev.pending)
      ensures dev.log == old(dev.log) + [Ending(who, source)]
      ensures dev.inService == EndOf(old(dev.inService), old(Abs()), source)
    {
      dev.Write32(CLAIM_COMPLETE, source, who);
      assert MaskedIn(old(Abs()), source) <==> 1 <= source < MAX_TRACKED_SOURCES && !old(dev.Enabled(source));
      assert dev.inService == EndOf(old(dev.inService), old(Abs()), source);
    }

    /** A handler runs: it may make any calls through the trait. */
    method RunHandler(h: Handler, source: nat) returns (calls: seq<IrqOp>)
      requires Valid()
      modifies dev, handlers
      ensures Valid() && Abs() == PerformAll(old(Abs()), calls)
      ensures dev.pending == old(dev.pending) && dev.Threshold() == old(dev.Threshold())
      ensures dev.inService == RetireCalls(old(dev.inService), old(Abs()), calls)
      ensures dev.log == old(dev.log) + [Ran(h, source)] + Calls(calls)
    {
      dev.Note(Ran(h, source));
      calls := *;
      var results := Serve(calls);
    }

    /** The handler of a source runs, if there is one. */
    method Service(source: nat) returns (calls: seq<IrqOp>)
      requires Valid()
      modifies dev, handlers
      ensures Valid() && dev.pending == old(dev.pending) && dev.Threshold() == old(dev.Threshold())
      ensures var h := HandlerIn(old(Abs()), source);
        && (h.None? ==> calls == [])
        && dev.log == old(dev.log) + if h.Some? then [Ran(h.value, source)] + Calls(calls) else []
      ensures Abs() == PerformAll(old(Abs()), calls)
      ensures dev.inService == RetireCalls(old(dev.inService), old(Abs()), calls)
    {
      calls := [];
      if FIRST_USABLE_SOURCE <= source < MAX_TRACKED_SOURCES {
        var handler := handlers[source - FIRST_USABLE_SOURCE];
        if handler.Some? {
          calls := RunHandler(handler.value, source);
        }
      }
    }

    /** The external-interrupt arm of dispatch: claim, run the handler if there is
        one, complete what was claimed. */
    method DispatchExternal() returns (source: nat, calls: seq<IrqOp>)
      requires Valid()
      modifies dev, handlers
      ensures Valid() && dev.Threshold() == old(dev.Threshold())
      ensures source == 0 ==>
        && Abs() == old(Abs()) && dev.pending == old(dev.pending) && dev.inService == old(dev.inService)
        && dev.log == old(dev.log) + [Spurious]
        && forall s :: s in dev.pending ==> !dev.Claimable(s)
      ensures source != 0 ==>
        && old(dev.Claimable(source)) && dev.pending == old(dev.pending) - {source}
        && var h := HandlerIn(old(Abs()), source);
        && (h.None? ==> calls == [])
        && Abs() == PerformAll(old(Abs()), calls)
        && dev.log == old(dev.log) + Serviced(source, if h.Some? then Some(Ran(h.value, source)) else None, calls)
        && dev.inService == EndOf(RetireCalls(old(dev.inService) + {source}, old(Abs()), calls), Abs(), source)
    {
      source := dev.Read32(CLAIM_COMPLETE);
      calls := [];
      if source == 0 {
        return;
      }
      ghost var log := dev.log;
      calls := Service(source);
      EndOfInterrupt(source, ByDispatch);
      ghost var h := HandlerIn(old(Abs()), source);
      assert dev.log == log + (if h.Some? then [Ran(h.value, source)] + Calls(calls) else []) + [Completed(source)];
    }

    /** Dispatch keeps the history in order, whatever the handler does. */
    method DispatchInOrder() returns (ghost piece: seq<Event>)
      requires Valid() && InOrder()
      modifies dev, handlers
      ensures Valid() && InOrder() && dev.Threshold() == old(dev.Threshold())
      ensures dev.log == old(dev.log) + piece && IsDispatch(piece)
      ensures piece == [Spurious] && dev.Threshold() == 0 ==>
        forall s | 1 <= s < 512 && Abs().HandlerOf(s).Some? && !Abs().IsMasked(s) :: s !in dev.pending
    {
      ghost var log, before, waiting := dev.log, Abs(), dev.inService;
      var source, calls := DispatchExternal();
      if source == 0 {
        piece := [Spurious];
        forall s | dev.Threshold() == 0 && 1 <= s < 512 && Abs().HandlerOf(s).Some? && !Abs().IsMasked(s)
          ensures s !in dev.pending
        {
          Deliverable(s);
        }
        ReachesAppend(start, log, Spurious, Monitor(before, Idle), waiting, Monitor(before, Idle));
      } else {
        var h := HandlerIn(before, source);
        piece := Serviced(source, if h.Some? then Some(Ran(h.value, source)) else None, calls);
        assert source !in waiting;
        if h.Some? {
          ServicedWaits(start, log, source, calls, before, Abs(), waiting);
        } else {
          UnhandledWaits(start, log, source, before, waiting);
        }
      }
    }

    method CallInOrder(op: IrqOp)
      requires Valid() && InOrder()
      modifies dev, handlers
      ensures Valid() && InOrder() && dev.log == old(dev.log) + [Called(op)]
      ensures dev.Threshold() == old(dev.Threshold())
    {
      ReachesCalls(start, dev.log, [op], Monitor(Abs(), Idle), dev.inService);
      assert Calls([op]) == [Called(op)];
      var results := Serve([op]);
    }

    method RaiseInOrder(source: nat)
      requires Valid() && InOrder() && 0 < source < 1024
      modifies dev
      ensures Valid() && InOrder() && dev.inService == old(dev.inService) && dev.Threshold() == old(dev.Threshold())
      ensures dev.log == old(dev.log) + [Raised(source)]
    {
      ReachesAppend(start, dev.log, Raised(source), Monitor(Abs(), Idle), dev.inService, Monitor(Abs(), Idle));
      dev.Raise(source);
    }

    /** Any run: the history grows by what each step does, and stays in order. */
    method Run(steps: seq<Step>) returns (ghost pieces: seq<seq<Event>>)
      requires Valid() && InOrder()
      requires forall i :: 0 <= i < |steps| && steps[i].Raise? ==> 0 < steps[i].source < 1024
      modifies dev, handlers
      ensures Valid() && InOrder() && dev.Threshold() == old(dev.Threshold())
      ensures Grew(old(dev.log), dev.log, steps, pieces)
    {
      pieces := [];
      for i := 0 to |steps|
        invariant Valid() && InOrder() && dev.Threshold() == old(dev.Threshold())
        invariant Grew(old(dev.log), dev.log, steps[..i], pieces)
      {
        ghost var log, piece := dev.log, [];
        match steps[i] {
          case Raise(source) =>
            RaiseInOrder(source);
            piece := [Raised(source)];
          case Dispatch =>
            piece := DispatchInOrder();
          case Call(op) =>
            CallInOrder(op);
            piece := [Called(op)];
        }
        GrewMore(old(dev.log), log, steps[..i], pieces, steps[i], piece);
        pieces := pieces + [piece];
        assert steps[..i + 1] == steps[..i] + [steps[i]];
      }
      assert steps[..|steps|] == steps;
    }
  }
}
