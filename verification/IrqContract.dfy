/** The interrupt-controller contract: lines with at most one handler each and a
    mask, and the mock controller that states it. */
module IrqContract {
  import opened Hal

  /** A handler function, by name. */
  type Handler = nat

  /** A call through the trait. */
  datatype IrqOp =
    | Register(irq: nat, handler: Handler)
    | Unregister(irq: nat)
    | Mask(irq: nat)
    | Unmask(irq: nat)
    | End(irq: nat)

  /** The lines of a controller, numbered from `first`. */
  datatype Lines = Lines(first: nat, handlers: seq<Option<Handler>>, masked: seq<bool>)
  {
    ghost predicate Ok() {
      |handlers| == |masked|
    }

    predicate HasLine(irq: nat) {
      first <= irq < first + |handlers|
    }

    function HandlerOf(irq: nat): Option<Handler>
      requires HasLine(irq)
    {
      handlers[irq - first]
    }

    function IsMasked(irq: nat): bool
      requires Ok() && HasLine(irq)
    {
      masked[irq - first]
    }
  }

  /** All lines masked and without a handler. */
  function NewLines(first: nat, n: nat): Lines {
    Lines(first, seq(n, _ => None), seq(n, _ => true))
  }

  /** What each call does to the lines, and what it returns. */
  function Perform(c: Lines, op: IrqOp): (r: (Lines, Result<()>))
    requires c.Ok()
    ensures r.0.Ok() && r.0.first == c.first && |r.0.handlers| == |c.handlers|
  {
    var i := op.irq - c.first;
    match op
    case Register(irq, h) =>
      if !c.HasLine(irq) then (c, Err(InvalidIrqId))
      else if c.handlers[i].Some? then (c, Err(IrqAlreadyRegistered))
      else (c.(handlers := c.handlers[i := Some(h)], masked := c.masked[i := false]), Ok(()))
    case Unregister(irq) =>
      if !c.HasLine(irq) then (c, Ok(()))
      else (c.(handlers := c.handlers[i := None], masked := c.masked[i := true]), Ok(()))
    case Mask(irq) =>
      if !c.HasLine(irq) then (c, Err(InvalidIrqId)) else (c.(masked := c.masked[i := true]), Ok(()))
    case Unmask(irq) =>
      if !c.HasLine(irq) then (c, Err(InvalidIrqId)) else (c.(masked := c.masked[i := false]), Ok(()))
    case End(irq) => (c, Ok(()))
  }

  /** The promises of the trait, call by call. Registering needs a valid line without
      a handler, and makes it deliver to that handler; unregistering frees and masks
      the line; masking keeps the handler; ending an interrupt changes neither. No call
      touches another line, and a call that fails touches none. */
  lemma PerformKeepsPromises(c: Lines, op: IrqOp, irq: nat)
    requires c.Ok() && c.HasLine(irq)
    ensures var (c', r) := Perform(c, op);
      && (r.Ok? <==> op.Unregister? || op.End? || (c.HasLine(op.irq) && (op.Register? ==> c.HandlerOf(op.irq).None?)))
      && (r.Err? ==> c' == c && r.error == if c.HasLine(op.irq) then IrqAlreadyRegistered else InvalidIrqId)
      && (irq != op.irq ==> c'.HandlerOf(irq) == c.HandlerOf(irq) && c'.IsMasked(irq) == c.IsMasked(irq))
      && (irq == op.irq && r.Ok? ==>
            && c'.HandlerOf(irq) == (if op.Register? then Some(op.handler) else if op.Unregister? then None
              else c.HandlerOf(irq))
            && (c'.IsMasked(irq) <==> op.Unregister? || op.Mask? || (op.End? && c.IsMasked(irq))))
  {
  }

  /** A controller accepts exactly the numbers below the line count it reports if and
      only if its lines start at 0 and are that many. */
  lemma AcceptsReportedNumbers(c: Lines, reported: nat)
    requires |c.handlers| > 0
    ensures (forall irq: nat :: c.HasLine(irq) <==> irq < reported) <==> c.first == 0 && |c.handlers| == reported
  {
    if forall irq: nat :: c.HasLine(irq) <==> irq < reported {
      assert c.HasLine(c.first) && !c.HasLine(c.first + |c.handlers|);
      assert c.HasLine(0) <==> 0 < reported;
      assert c.HasLine(reported) <==> reported < reported;
      assert c.HasLine(|c.handlers|) <==> |c.handlers| < reported;
    }
  }

  function PerformAll(c: Lines, ops: seq<IrqOp>): (r: Lines)
    requires c.Ok()
    ensures r.Ok() && r.first == c.first && |r.handlers| == |c.handlers|
    decreases |ops|
  {
    if ops == [] then c else PerformAll(Perform(c, ops[0]).0, ops[1..])
  }

  /** The results of a sequence of calls, one by one. */
  function Results(c: Lines, ops: seq<IrqOp>): (r: seq<Result<()>>)
    requires c.Ok()
    ensures |r| == |ops|
    decreases |ops|
  {
    if ops == [] then [] else [Perform(c, ops[0]).1] + Results(Perform(c, ops[0]).0, ops[1..])
  }

  // ---------------------------------------------------------------------
  // Lines do not interfere
  // ---------------------------------------------------------------------

  function OpsOn(irq: nat, ops: seq<IrqOp>): seq<IrqOp> {
    if ops == [] then []
    else if ops[0].irq == irq then [ops[0]] + OpsOn(irq, ops[1..])
    else OpsOn(irq, ops[1..])
  }

  ghost predicate SameLine(a: Lines, b: Lines, irq: nat)
    requires a.Ok() && b.Ok()
  {
    && a.first == b.first && a.HasLine(irq) && b.HasLine(irq)
    && a.HandlerOf(irq) == b.HandlerOf(irq) && a.IsMasked(irq) == b.IsMasked(irq)
  }

  /** After any sequence of calls, a line's handler and mask are what the calls on
      that line alone would have made them. */
  lemma {:induction false} LinesAreIndependent(a: Lines, b: Lines, ops: seq<IrqOp>, irq: nat)
    requires a.Ok() && b.Ok() && SameLine(a, b, irq)
    ensures SameLine(PerformAll(a, ops), PerformAll(b, OpsOn(irq, ops)), irq)
    decreases |ops|
  {
    if ops != [] {
      var a' := Perform(a, ops[0]).0;
      if ops[0].irq == irq {
        var b' := Perform(b, ops[0]).0;
        assert OpsOn(irq, ops)[1..] == OpsOn(irq, ops[1..]);
        LinesAreIndependent(a', b', ops[1..], irq);
      } else {
        LinesAreIndependent(a', b, ops[1..], irq);
      }
    }
  }

  /** The handler a line ends up with: the first one registered since the line was
      last free, until it is unregistered. */
  ghost function HandlerAfter(h: Option<Handler>, ops: seq<IrqOp>, irq: nat): Option<Handler>
    decreases |ops|
  {
    if ops == [] then h
    else
      var next := match ops[0]
        case Register(i, g) => if i == irq && h.None? then Some(g) else h
        case Unregister(i) => if i == irq then None else h
        case _ => h;
      HandlerAfter(next, ops[1..], irq)
  }

  lemma {:induction false} OneHandlerPerLine(c: Lines, ops: seq<IrqOp>, irq: nat)
    requires c.Ok() && c.HasLine(irq)
    ensures PerformAll(c, ops).HandlerOf(irq) == HandlerAfter(c.HandlerOf(irq), ops, irq)
    decreases |ops|
  {
    if ops != [] {
      OneHandlerPerLine(Perform(c, ops[0]).0, ops[1..], irq);
    }
  }

  // ---------------------------------------------------------------------
  // Controllers that number their lines differently
  // ---------------------------------------------------------------------

  function OnLine(op: IrqOp, irq: nat): IrqOp {
    op.(irq := irq)
  }

  function Renumber(ops: seq<IrqOp>, from: nat, to: nat): (r: seq<IrqOp>)
    requires forall op :: op in ops ==> op.irq >= from
    ensures |r| == |ops|
    decreases |ops|
  {
    if ops == [] then [] else [OnLine(ops[0], ops[0].irq - from + to)] + Renumber(ops[1..], from, to)
  }

  /** The first `n` lines of two controllers agree. */
  ghost predicate Alike(a: Lines, b: Lines, n: nat) {
    && a.Ok() && b.Ok() && n <= |a.handlers| && n <= |b.handlers|
    && a.handlers[..n] == b.handlers[..n] && a.masked[..n] == b.masked[..n]
  }

  lemma UpdateInPrefix<T>(s: seq<T>, i: nat, v: T, n: nat)
    requires i < n <= |s|
    ensures s[i := v][..n] == s[..n][i := v]
  {
  }

  lemma AlikeStep(a: Lines, b: Lines, n: nat, op: IrqOp)
    requires Alike(a, b, n) && a.first <= op.irq < a.first + n
    ensures var op' := OnLine(op, op.irq - a.first + b.first);
      Alike(Perform(a, op).0, Perform(b, op').0, n) && Perform(a, op).1 == Perform(b, op').1
  {
    var i := op.irq - a.first;
    assert a.handlers[..n][i] == b.handlers[..n][i];
    match op {
      case Register(_, h) =>
        UpdateInPrefix(a.handlers, i, Some(h), n);
        UpdateInPrefix(b.handlers, i, Some(h), n);
      case Unregister(_) =>
        UpdateInPrefix(a.handlers, i, None, n);
        UpdateInPrefix(b.handlers, i, None, n);
      case _ =>
    }
    var m := op.Mask? || op.Unregister?;
    UpdateInPrefix(a.masked, i, m, n);
    UpdateInPrefix(b.masked, i, m, n);
  }

  /** The same calls, in each controller's own numbers, get the same answers and
      leave the same lines, as long as they name lines that both have. */
  lemma {:induction false} ControllersAnswerAlike(a: Lines, b: Lines, n: nat, ops: seq<IrqOp>)
    requires Alike(a, b, n)
    requires forall op :: op in ops ==> a.first <= op.irq < a.first + n
    ensures var ops' := Renumber(ops, a.first, b.first);
      Results(a, ops) == Results(b, ops') && Alike(PerformAll(a, ops), PerformAll(b, ops'), n)
    decreases |ops|
  {
    if ops != [] {
      AlikeStep(a, b, n, ops[0]);
      var op' := OnLine(ops[0], ops[0].irq - a.first + b.first);
      ControllersAnswerAlike(Perform(a, ops[0]).0, Perform(b, op').0, n, ops[1..]);
      assert Renumber(ops, a.first, b.first)[1..] == Renumber(ops[1..], a.first, b.first);
    }
  }

  // ---------------------------------------------------------------------
  // The mock
  // ---------------------------------------------------------------------

  const MOCK_IRQ_LINES: nat := 8

  class MockInterruptController {
    const handlers: array<Option<Handler>>
    const masked: array<bool>

    ghost predicate Valid()
      reads this
    {
      handlers.Length == MOCK_IRQ_LINES && masked.Length == MOCK_IRQ_LINES
    }

    ghost function Abs(): (c: Lines)
      requires Valid()
      reads this, handlers, masked
      ensures c.Ok() && |c.handlers| == 8
    {
      Lines(0, handlers[..], masked[..])
    }

    constructor ()
      ensures Valid() && Abs() == NewLines(0, 8) && fresh(handlers) && fresh(masked)
    {
      handlers := new Option<Handler>[MOCK_IRQ_LINES](_ => None);
      masked := new bool[MOCK_IRQ_LINES](_ => true);
      new;
      assert handlers[..] == NewLines(0, MOCK_IRQ_LINES).handlers;
      assert masked[..] == NewLines(0, MOCK_IRQ_LINES).masked;
    }

    method RegisterIrq(irq: nat, handler: Handler) returns (r: Result<()>)
      requires Valid()
      modifies handlers, masked
      ensures Valid() && (Abs(), r) == Perform(old(Abs()), Register(irq, handler))
    {
      if irq >= MOCK_IRQ_LINES {
        return Err(InvalidIrqId);
      }
      if handlers[irq].Some? {
        return Err(IrqAlreadyRegistered);
      }
      handlers[irq] := Some(handler);
      masked[irq] := false;
      return Ok(());
    }

    method UnregisterIrq(irq: nat)
      requires Valid()
      modifies handlers, masked
      ensures Valid() && Abs() == Perform(old(Abs()), Unregister(irq)).0
    {
      if irq < MOCK_IRQ_LINES {
        handlers[irq] := None;
        masked[irq] := true;
      }
    }

    method MaskIrq(irq: nat) returns (r: Result<()>)
      requires Valid()
      modifies masked
      ensures Valid() && (Abs(), r) == Perform(old(Abs()), Mask(irq))
    {
      if irq >= MOCK_IRQ_LINES {
        return Err(InvalidIrqId);
      }
      masked[irq] := true;
      return Ok(());
    }

    method UnmaskIrq(irq: nat) returns (r: Result<()>)
      requires Valid()
      modifies masked
      ensures Valid() && (Abs(), r) == Perform(old(Abs()), Unmask(irq))
    {
      if irq >= MOCK_IRQ_LINES {
        return Err(InvalidIrqId);
      }
      masked[irq] := false;
      return Ok(());
    }

    /** Nothing to do. */
    method EndOfInterrupt(irq: nat)
      requires Valid()
      ensures Valid() && Abs() == Perform(old(Abs()), End(irq)).0
    {
    }
  }
}
