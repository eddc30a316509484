/** Histories of an interrupt controller: the calls made through the trait and
    what dispatch did, in order, and the discipline that every run keeps. */
module IrqHistory {
  import opened Hal
  import opened IrqContract

  datatype Event =
    | Raised(source: nat)
    | Called(op: IrqOp)
    | Spurious
    | Claimed(source: nat)
    | Ran(handler: Handler, source: nat)
    | TimerRan
    | Completed(source: nat)

  /** Who writes the number of an interrupt back: dispatch, or a call through the
      trait. */
  datatype Ender = ByDispatch | ByCall

  function Ending(who: Ender, source: nat): Event {
    if who.ByCall? then Called(End(source)) else Completed(source)
  }

  /** The interrupt being serviced, if any, and whether its code has run. */
  datatype Service = Idle | Open(source: nat, ran: bool)

  datatype Monitor = Monitor(lines: Lines, service: Service)

  predicate MayCall(v: Service) {
    v.Idle? || v.ran
  }

  function HandlerIn(c: Lines, source: nat): Option<Handler> {
    if c.HasLine(source) then c.HandlerOf(source) else None
  }

  /** One event: None when it breaks the discipline. A claim comes when nothing is
      open; at most one handler runs for it, the one the line has; the completion
      names what was claimed, and leaves no registered handler out. */
  function Next(m: Monitor, e: Event, timer: Option<nat>): Option<Monitor>
    requires m.lines.Ok()
  {
    match e
    case Raised(_) =>
      if m.service.Idle? then Some(m) else None
    case Called(op) =>
      if MayCall(m.service) then Some(m.(lines := Perform(m.lines, op).0)) else None
    case Spurious =>
      if m.service.Idle? then Some(m) else None
    case Claimed(s) =>
      if m.service.Idle? then Some(m.(service := Open(s, false))) else None
    case Ran(h, s) =>
      if m.service == Open(s, false) && HandlerIn(m.lines, s) == Some(h)
        then Some(m.(service := Open(s, true))) else None
    case TimerRan =>
      if m.service.Open? && !m.service.ran && timer == Some(m.service.source)
        then Some(m.(service := m.service.(ran := true))) else None
    case Completed(s) =>
      if m.service.Open? && m.service.source == s && (m.service.ran || HandlerIn(m.lines, s).None?)
        then Some(m.(service := Idle)) else None
  }

  /** Where a history leads from `start`, or None if it breaks the discipline. */
  function Watch(start: Lines, log: seq<Event>, timer: Option<nat>): (r: Option<Monitor>)
    requires start.Ok()
    ensures r.Some? ==> r.value.lines.Ok()
    decreases |log|
  {
    if log == [] then Some(Monitor(start, Idle))
    else
      var m := Watch(start, log[..|log| - 1], timer);
      if m.None? then None else Next(m.value, log[|log| - 1], timer)
  }

  /** The history is orderly and leads to `m`. */
  ghost predicate Leads(start: Lines, log: seq<Event>, m: Monitor, timer: Option<nat>) {
    start.Ok() && Watch(start, log, timer) == Some(m)
  }

  lemma WatchAppend(start: Lines, log: seq<Event>, e: Event, m: Monitor, m': Monitor, timer: Option<nat>)
    requires Leads(start, log, m, timer) && m.lines.Ok() && Next(m, e, timer) == Some(m')
    ensures Leads(start, log + [e], m', timer)
  {
    assert (log + [e])[..|log|] == log;
  }

  lemma {:induction false} WatchPrefix(start: Lines, log: seq<Event>, i: nat, timer: Option<nat>)
    requires start.Ok() && i <= |log| && Watch(start, log, timer).Some?
    ensures Watch(start, log[..i], timer).Some?
    decreases |log|
  {
    if i == |log| {
      assert log[..i] == log;
    } else {
      WatchPrefix(start, log[..|log| - 1], i, timer);
      assert log[..|log| - 1][..i] == log[..i];
    }
  }

  // ---------------------------------------------------------------------
  // What dispatch adds to a history
  // ---------------------------------------------------------------------

  function Calls(ops: seq<IrqOp>): (log: seq<Event>)
    decreases |ops|
  {
    if ops == [] then [] else [Called(ops[0])] + Calls(ops[1..])
  }

  lemma WatchCall(start: Lines, log: seq<Event>, op: IrqOp, m: Monitor, timer: Option<nat>)
    requires Leads(start, log, m, timer) && m.lines.Ok() && MayCall(m.service)
    ensures Leads(start, log + [Called(op)], Monitor(Perform(m.lines, op).0, m.service), timer)
  {
    WatchAppend(start, log, Called(op), m, Monitor(Perform(m.lines, op).0, m.service), timer);
  }

  lemma CallsCons(log: seq<Event>, ops: seq<IrqOp>)
    requires ops != []
    ensures log + Calls(ops) == log + [Called(ops[0])] + Calls(ops[1..])
  {
  }

  lemma {:induction false} WatchCalls(start: Lines, log: seq<Event>, ops: seq<IrqOp>, m: Monitor, timer: Option<nat>)
    requires Leads(start, log, m, timer) && m.lines.Ok() && MayCall(m.service)
    ensures Leads(start, log + Calls(ops), Monitor(PerformAll(m.lines, ops), m.service), timer)
    decreases |ops|
  {
    if ops == [] {
      assert log + Calls(ops) == log;
    } else {
      WatchCall(start, log, ops[0], m, timer);
      WatchCalls(start, log + [Called(ops[0])], ops[1..], Monitor(Perform(m.lines, ops[0]).0, m.service), timer);
      CallsCons(log, ops);
    }
  }

  /** The events of one serviced interrupt: `code` is what ran for it, if anything. */
  function Serviced(source: nat, code: Option<Event>, calls: seq<IrqOp>): seq<Event> {
    [Claimed(source)] + (if code.Some? then [code.value] + Calls(calls) else []) + [Completed(source)]
  }

  // ---------------------------------------------------------------------
  // Runs
  // ---------------------------------------------------------------------

  /** What can happen to a controller: a device raises its line, the kernel makes a
      call, or an interrupt is dispatched. */
  datatype Step = Raise(source: nat) | Call(op: IrqOp) | Dispatch

  /** What a step adds to the history. */
  ghost predicate Adds(step: Step, piece: seq<Event>) {
    match step
    case Raise(source) => piece == [Raised(source)]
    case Call(op) => piece == [Called(op)]
    case Dispatch => IsDispatch(piece)
  }

  ghost predicate IsDispatch(piece: seq<Event>) {
    piece == [Spurious] || exists source, code, calls :: piece == Serviced(source, code, calls)
  }

  ghost function Joined(pieces: seq<seq<Event>>): seq<Event>
    decreases |pieces|
  {
    if pieces == [] then [] else Joined(pieces[..|pieces| - 1]) + pieces[|pieces| - 1]
  }

  /** The history grew by one piece for each step, in order. */
  ghost predicate Grew(before: seq<Event>, after: seq<Event>, steps: seq<Step>, pieces: seq<seq<Event>>) {
    && |pieces| == |steps|
    && (forall i :: 0 <= i < |steps| ==> Adds(steps[i], pieces[i]))
    && after == before + Joined(pieces)
  }

  lemma GrewMore(before: seq<Event>, after: seq<Event>, steps: seq<Step>, pieces: seq<seq<Event>>, step: Step,
      piece: seq<Event>)
    requires Grew(before, after, steps, pieces) && Adds(step, piece)
    ensures Grew(before, after + piece, steps + [step], pieces + [piece])
  {
    assert (pieces + [piece])[..|pieces|] == pieces;
    assert before + Joined(pieces) + piece == before + (Joined(pieces) + piece);
  }

  /** Servicing keeps the discipline, whatever calls the handler makes, when what
      ran is the handler of the line or the timer callback. */
  lemma ServicedIsOrderly(start: Lines, log: seq<Event>, source: nat, code: Option<Event>, calls: seq<IrqOp>,
      c: Lines, timer: Option<nat>)
    requires Leads(start, log, Monitor(c, Idle), timer) && c.Ok()
    requires var h := HandlerIn(c, source);
      || (timer == Some(source) && code == Some(TimerRan))
      || code == if h.Some? then Some(Ran(h.value, source)) else None
    ensures Leads(start, log + Serviced(source, code, calls),
      Monitor(if code.Some? then PerformAll(c, calls) else c, Idle), timer)
  {
    var m1 := Monitor(c, Open(source, false));
    var log1 := log + [Claimed(source)];
    WatchAppend(start, log, Claimed(source), Monitor(c, Idle), m1, timer);
    if code.Some? {
      var m2 := Monitor(c, Open(source, true));
      var m3 := Monitor(PerformAll(c, calls), Open(source, true));
      var log2 := log1 + [code.value];
      WatchAppend(start, log1, code.value, m1, m2, timer);
      WatchCalls(start, log2, calls, m2, timer);
      WatchAppend(start, log2 + Calls(calls), Completed(source), m3, m3.(service := Idle), timer);
      assert log + Serviced(source, code, calls) == log2 + Calls(calls) + [Completed(source)];
    } else {
      WatchAppend(start, log1, Completed(source), m1, m1.(service := Idle), timer);
      assert log + Serviced(source, code, calls) == log1 + [Completed(source)];
    }
  }

  // ---------------------------------------------------------------------
  // What an orderly history means
  // ---------------------------------------------------------------------

  predicate Quiet(log: seq<Event>, i: nat, j: nat)
    requires i <= j <= |log|
  {
    forall k :: i <= k < j ==> !log[k].Claimed? && !log[k].Completed? && !log[k].Spurious?
  }

  /** At any point of a history, what is open is the last claim, and nothing was
      claimed or completed since. */
  lemma {:induction false} OpenSince(start: Lines, log: seq<Event>, timer: Option<nat>) returns (i: nat)
    requires start.Ok() && Watch(start, log, timer).Some? && Watch(start, log, timer).value.service.Open?
    ensures i < |log| && log[i] == Claimed(Watch(start, log, timer).value.service.source) && Quiet(log, i + 1, |log|)
    decreases |log|
  {
    var n := |log| - 1;
    if log[n].Claimed? {
      i := n;
    } else {
      i := OpenSince(start, log[..n], timer);
      assert forall k :: 0 <= k < n ==> log[..n][k] == log[k];
    }
  }

  /** Every completion names the last claim, and between the two nothing else was
      claimed or completed. */
  lemma CompletionHasClaim(start: Lines, log: seq<Event>, j: nat, timer: Option<nat>) returns (i: nat)
    requires start.Ok() && Watch(start, log, timer).Some? && j < |log| && log[j].Completed?
    ensures i < j && log[i] == Claimed(log[j].source) && Quiet(log, i + 1, j)
  {
    WatchPrefix(start, log, j + 1, timer);
    WatchPrefix(start, log, j, timer);
    assert log[..j + 1][..j] == log[..j] && log[..j + 1][j] == log[j];
    assert Next(Watch(start, log[..j], timer).value, log[j], timer).Some?;
    i := OpenSince(start, log[..j], timer);
    assert forall k :: 0 <= k < j ==> log[..j][k] == log[k];
  }

  /** Every claim is completed, with the same number, before anything else is
      claimed or completed, unless it is the one still open at the end. */
  lemma {:induction false} ClaimIsCompleted(start: Lines, log: seq<Event>, i: nat, timer: Option<nat>) returns (j: nat)
    requires start.Ok() && Watch(start, log, timer).Some? && i < |log| && log[i].Claimed?
    ensures i < j <= |log| && Quiet(log, i + 1, j)
    ensures j < |log| ==> log[j] == Completed(log[i].source)
    ensures j == |log| ==>
      var v := Watch(start, log, timer).value.service;
      v.Open? && v.source == log[i].source
    decreases |log|
  {
    var n := |log| - 1;
    if i == n {
      j := |log|;
    } else {
      j := ClaimIsCompleted(start, log[..n], i, timer);
      assert forall k :: 0 <= k < n ==> log[..n][k] == log[k];
      if j == n && !log[n].Completed? {
        j := n + 1;
      }
    }
  }

  function Count(log: seq<Event>, e: Event): nat
    decreases |log|
  {
    if log == [] then 0 else Count(log[..|log| - 1], e) + if log[|log| - 1] == e then 1 else 0
  }

  /** Claims and completions are equally many, number by number, but for the claim
      still open. */
  lemma {:induction false} ClaimsAndCompletions(start: Lines, log: seq<Event>, source: nat, timer: Option<nat>)
    requires start.Ok() && Watch(start, log, timer).Some?
    ensures Count(log, Claimed(source)) == Count(log, Completed(source))
      + var v := Watch(start, log, timer).value.service; if v.Open? && v.source == source then 1 else 0
    decreases |log|
  {
    if log != [] {
      ClaimsAndCompletions(start, log[..|log| - 1], source, timer);
    }
  }

  function CallsIn(log: seq<Event>): seq<IrqOp>
    decreases |log|
  {
    if log == [] then []
    else CallsIn(log[..|log| - 1]) + if log[|log| - 1].Called? then [log[|log| - 1].op] else []
  }

  lemma {:induction false} PerformAllAppend(c: Lines, ops: seq<IrqOp>, op: IrqOp)
    requires c.Ok()
    ensures PerformAll(c, ops + [op]) == Perform(PerformAll(c, ops), op).0
    decreases |ops|
  {
    if ops == [] {
      assert ops + [op] == [op];
    } else {
      PerformAllAppend(Perform(c, ops[0]).0, ops[1..], op);
      assert (ops + [op])[1..] == ops[1..] + [op];
    }
  }

  /** The lines after a history are what its calls alone make them: dispatching
      changes no handler and no mask. */
  lemma {:induction false} LinesFollowCalls(start: Lines, log: seq<Event>, timer: Option<nat>)
    requires start.Ok() && Watch(start, log, timer).Some?
    ensures Watch(start, log, timer).value.lines == PerformAll(start, CallsIn(log))
    decreases |log|
  {
    if log != [] {
      var n := |log| - 1;
      LinesFollowCalls(start, log[..n], timer);
      if log[n].Called? {
        PerformAllAppend(start, CallsIn(log[..n]), log[n].op);
      } else {
        assert CallsIn(log) == CallsIn(log[..n]);
      }
    }
  }

  /** The handler that runs is the one the calls made so far gave the line, and it
      runs right after the claim of that line. */
  lemma RightHandlerRuns(start: Lines, log: seq<Event>, j: nat, timer: Option<nat>)
    requires start.Ok() && Watch(start, log, timer).Some? && j < |log| && log[j].Ran?
    ensures start.HasLine(log[j].source)
    ensures HandlerAfter(start.HandlerOf(log[j].source), CallsIn(log[..j]), log[j].source) == Some(log[j].handler)
    ensures j > 0 && log[j - 1] == Claimed(log[j].source)
  {
    WatchPrefix(start, log, j + 1, timer);
    WatchPrefix(start, log, j, timer);
    assert log[..j + 1][..j] == log[..j];
    LinesFollowCalls(start, log[..j], timer);
    OneHandlerPerLine(start, CallsIn(log[..j]), log[j].source);
    NotRunYet(start, log[..j], timer);
  }

  lemma NotRunYet(start: Lines, log: seq<Event>, timer: Option<nat>)
    requires start.Ok() && Watch(start, log, timer).Some?
    requires var v := Watch(start, log, timer).value.service; v.Open? && !v.ran
    ensures |log| > 0 && log[|log| - 1] == Claimed(Watch(start, log, timer).value.service.source)
  {
  }

  lemma ClaimedNext(c: Lines, source: nat, e: Event, timer: Option<nat>)
    requires c.Ok() && HandlerIn(c, source).Some? && timer != Some(source)
    requires Next(Monitor(c, Open(source, false)), e, timer).Some?
    ensures e == Ran(HandlerIn(c, source).value, source)
  {
  }

  /** A claim of a line with a handler is followed at once by that handler. */
  lemma HandlerIsNotSkipped(start: Lines, log: seq<Event>, i: nat, timer: Option<nat>)
    requires start.Ok() && Watch(start, log, timer).Some? && i + 1 < |log| && log[i].Claimed?
    requires timer != Some(log[i].source) && start.HasLine(log[i].source)
    requires HandlerAfter(start.HandlerOf(log[i].source), CallsIn(log[..i]), log[i].source).Some?
    ensures log[i + 1] == Ran(HandlerAfter(start.HandlerOf(log[i].source), CallsIn(log[..i]), log[i].source).value,
      log[i].source)
  {
    WatchPrefix(start, log, i + 2, timer);
    assert log[..i + 2][..i + 1] == log[..i + 1];
    assert log[..i + 1][..i] == log[..i];
    var m := Watch(start, log[..i], timer).value;
    LinesFollowCalls(start, log[..i], timer);
    OneHandlerPerLine(start, CallsIn(log[..i]), log[i].source);
    assert Watch(start, log[..i + 1], timer) == Some(Monitor(m.lines, Open(log[i].source, false)));
    ClaimedNext(m.lines, log[i].source, log[i + 1], timer);
  }
}
