/** Which sources a PLIC still counts as being serviced, told from the history
    alone: it ignores the completion of a source that is disabled at that moment. */
module PlicHistory {
  import opened Hal
  import opened IrqContract
  import opened IrqHistory

  predicate MaskedIn(c: Lines, source: nat)
    requires |c.handlers| == |c.masked|
  {
    c.HasLine(source) && c.IsMasked(source)
  }

  function Retire(waiting: set<nat>, c: Lines, e: Event): set<nat>
    requires |c.handlers| == |c.masked|
  {
    match e
    case Claimed(s) => waiting + {s}
    case Completed(s) => EndOf(waiting, c, s)
    case Called(op) => if op.End? then EndOf(waiting, c, op.irq) else waiting
    case _ => waiting
  }

  function EndOf(waiting: set<nat>, c: Lines, source: nat): set<nat>
    requires |c.handlers| == |c.masked|
  {
    if MaskedIn(c, source) then waiting else waiting - {source}
  }

  function RetireCalls(waiting: set<nat>, c: Lines, ops: seq<IrqOp>): set<nat>
    requires c.Ok()
    decreases |ops|
  {
    if ops == [] then waiting
    else RetireCalls(Retire(waiting, c, Called(ops[0])), Perform(c, ops[0]).0, ops[1..])
  }

  /** Claimed and not yet retired by the hardware. */
  function Waiting(start: Lines, log: seq<Event>): set<nat>
    requires start.Ok() && Watch(start, log, None).Some?
    decreases |log|
  {
    if log == [] then {}
    else Retire(Waiting(start, log[..|log| - 1]), Watch(start, log[..|log| - 1], None).value.lines, log[|log| - 1])
  }

  /** No source is claimed while it is still being serviced. */
  ghost predicate Gated(start: Lines, log: seq<Event>)
    requires start.Ok() && Watch(start, log, None).Some?
    decreases |log|
  {
    log == [] ||
    var before := log[..|log| - 1];
    && Gated(start, before)
    && (log[|log| - 1].Claimed? ==> log[|log| - 1].source !in Waiting(start, before))
  }

  /** The history leads to `m`, the hardware waits for `waiting`, and no source was
      claimed twice without being retired. */
  ghost predicate Reaches(start: Lines, log: seq<Event>, m: Monitor, waiting: set<nat>) {
    Leads(start, log, m, None) && Waiting(start, log) == waiting && Gated(start, log)
  }

  lemma ReachesAppend(start: Lines, log: seq<Event>, e: Event, m: Monitor, waiting: set<nat>, m': Monitor)
    requires Reaches(start, log, m, waiting) && m.lines.Ok() && Next(m, e, None) == Some(m')
    requires e.Claimed? ==> e.source !in waiting
    ensures Reaches(start, log + [e], m', Retire(waiting, m.lines, e))
  {
    WatchAppend(start, log, e, m, m', None);
    assert (log + [e])[..|log|] == log;
  }

  lemma ReachesCall(start: Lines, log: seq<Event>, op: IrqOp, m: Monitor, waiting: set<nat>)
    requires Reaches(start, log, m, waiting) && m.lines.Ok() && MayCall(m.service)
    ensures Reaches(start, log + [Called(op)], Monitor(Perform(m.lines, op).0, m.service),
      Retire(waiting, m.lines, Called(op)))
  {
    ReachesAppend(start, log, Called(op), m, waiting, Monitor(Perform(m.lines, op).0, m.service));
  }

  lemma {:induction false} ReachesCalls(start: Lines, log: seq<Event>, ops: seq<IrqOp>, m: Monitor, waiting: set<nat>)
    requires Reaches(start, log, m, waiting) && m.lines.Ok() && MayCall(m.service)
    ensures Reaches(start, log + Calls(ops), Monitor(PerformAll(m.lines, ops), m.service),
      RetireCalls(waiting, m.lines, ops))
    decreases |ops|
  {
    if ops == [] {
      assert log + Calls(ops) == log;
    } else {
      ReachesCall(start, log, ops[0], m, waiting);
      ReachesCalls(start, log + [Called(ops[0])], ops[1..], Monitor(Perform(m.lines, ops[0]).0, m.service),
        Retire(waiting, m.lines, Called(ops[0])));
      CallsCons(log, ops);
    }
  }

  /** What one serviced interrupt leaves waiting. */
  lemma ServicedWaits(start: Lines, log: seq<Event>, source: nat, calls: seq<IrqOp>, c: Lines, c': Lines,
      waiting: set<nat>)
    requires Reaches(start, log, Monitor(c, Idle), waiting) && c.Ok() && source !in waiting
    requires HandlerIn(c, source).Some? && c' == PerformAll(c, calls)
    ensures Reaches(start, log + Serviced(source, Some(Ran(HandlerIn(c, source).value, source)), calls),
              Monitor(c', Idle), EndOf(RetireCalls(waiting + {source}, c, calls), c', source))
  {
    var ran := Ran(HandlerIn(c, source).value, source);
    var m1, m2, m3 := Monitor(c, Open(source, false)), Monitor(c, Open(source, true)), Monitor(c', Open(source, true));
    var log2 := log + [Claimed(source)] + [ran];
    ReachesAppend(start, log, Claimed(source), Monitor(c, Idle), waiting, m1);
    ReachesAppend(start, log + [Claimed(source)], ran, m1, waiting + {source}, m2);
    ReachesCalls(start, log2, calls, m2, waiting + {source});
    var last := RetireCalls(waiting + {source}, c, calls);
    ReachesAppend(start, log2 + Calls(calls), Completed(source), m3, last, Monitor(c', Idle));
    assert log + Serviced(source, Some(ran), calls) == log2 + Calls(calls) + [Completed(source)];
  }

  lemma UnhandledWaits(start: Lines, log: seq<Event>, source: nat, c: Lines, waiting: set<nat>)
    requires Reaches(start, log, Monitor(c, Idle), waiting) && c.Ok() && source !in waiting
    requires HandlerIn(c, source).None?
    ensures Reaches(start, log + Serviced(source, None, []), Monitor(c, Idle), EndOf(waiting + {source}, c, source))
  {
    var m1 := Monitor(c, Open(source, false));
    ReachesAppend(start, log, Claimed(source), Monitor(c, Idle), waiting, m1);
    ReachesAppend(start, log + [Claimed(source)], Completed(source), m1, waiting + {source}, Monitor(c, Idle));
    assert log + Serviced(source, None, []) == log + [Claimed(source)] + [Completed(source)];
  }

  // ---------------------------------------------------------------------
  // A source completed while masked is lost
  // ---------------------------------------------------------------------

  ghost predicate Orderly(start: Lines, log: seq<Event>) {
    start.Ok() && Watch(start, log, None).Some? && Gated(start, log)
  }

  lemma {:induction false} OrderlyPrefix(start: Lines, log: seq<Event>, i: nat)
    requires Orderly(start, log) && i <= |log|
    ensures Orderly(start, log[..i])
    decreases |log|
  {
    if i == |log| {
      assert log[..i] == log;
    } else {
      WatchPrefix(start, log, |log| - 1, None);
      OrderlyPrefix(start, log[..|log| - 1], i);
      assert log[..|log| - 1][..i] == log[..i];
    }
  }

  /** The line of `source` is masked just before position `k`. */
  predicate MaskedAt(start: Lines, log: seq<Event>, k: nat, source: nat)
    requires start.Ok() && k <= |log|
  {
    var m := Watch(start, log[..k], None);
    m.Some? && |m.value.lines.handlers| == |m.value.lines.masked| && MaskedIn(m.value.lines, source)
  }

  predicate CompletedWhileMasked(start: Lines, log: seq<Event>, j: nat)
    requires start.Ok() && j < |log|
  {
    log[j].Completed? && MaskedAt(start, log, j, log[j].source)
  }

  /** At `k` someone ends the interrupt of `source` through the trait, and the line
      is not masked then. */
  predicate EndedAt(start: Lines, log: seq<Event>, k: nat, source: nat)
    requires start.Ok() && k < |log|
  {
    log[k] == Called(End(source)) && !MaskedAt(start, log, k, source)
  }

  predicate NotEnded(start: Lines, log: seq<Event>, i: nat, j: nat, source: nat)
    requires start.Ok() && i <= j <= |log|
  {
    forall k :: i <= k < j ==> !EndedAt(start, log, k, source)
  }

  lemma NotEndedPrefix(start: Lines, log: seq<Event>, n: nat, i: nat, source: nat)
    requires start.Ok() && i <= n <= |log|
    ensures NotEnded(start, log[..n], i, n, source) <==> NotEnded(start, log, i, n, source)
  {
    forall k | i <= k < n
      ensures EndedAt(start, log[..n], k, source) == EndedAt(start, log, k, source)
    {
      assert log[..n][..k] == log[..k];
    }
  }

  lemma NotEndedMore(start: Lines, log: seq<Event>, i: nat, source: nat)
    requires start.Ok() && i < |log|
    ensures NotEnded(start, log, i, |log|, source)
      <==> NotEnded(start, log[..|log| - 1], i, |log| - 1, source) && !EndedAt(start, log, |log| - 1, source)
  {
    NotEndedPrefix(start, log, |log| - 1, i, source);
  }

  /** What is being serviced is waiting, unless its own handler has ended it. */
  lemma {:induction false} WaitsWhileOpen(start: Lines, log: seq<Event>) returns (i: nat)
    requires Orderly(start, log) && Watch(start, log, None).value.service.Open?
    ensures var s := Watch(start, log, None).value.service.source;
      && i < |log| && log[i] == Claimed(s) && Quiet(log, i + 1, |log|)
      && (s in Waiting(start, log) <==> NotEnded(start, log, i + 1, |log|, s))
    decreases |log|
  {
    var n := |log| - 1;
    OrderlyPrefix(start, log, n);
    if log[n].Claimed? {
      i := n;
    } else {
      i := WaitsWhileOpen(start, log[..n]);
      assert forall k :: 0 <= k < n ==> log[..n][k] == log[k];
      var s := Watch(start, log, None).value.service.source;
      NotEndedMore(start, log, i + 1, s);
    }
  }

  lemma OneStep(start: Lines, log: seq<Event>, j: nat)
    requires Orderly(start, log) && j < |log|
    ensures Orderly(start, log[..j]) && Orderly(start, log[..j + 1])
    ensures Next(Watch(start, log[..j], None).value, log[j], None) == Watch(start, log[..j + 1], None)
    ensures Waiting(start, log[..j + 1])
      == Retire(Waiting(start, log[..j]), Watch(start, log[..j], None).value.lines, log[j])
  {
    OrderlyPrefix(start, log, j + 1);
    OrderlyPrefix(start, log, j);
    assert log[..j + 1][..j] == log[..j];
  }

  lemma CompletedIsOpen(m: Monitor, source: nat)
    requires m.lines.Ok() && Next(m, Completed(source), None).Some?
    ensures m.service.Open? && m.service.source == source
  {
  }

  /** The hardware keeps waiting after a completion exactly when the line was masked
      then and the handler had not ended the interrupt itself while it was not. */
  lemma RetiredUnlessMasked(start: Lines, log: seq<Event>, j: nat) returns (i: nat)
    requires Orderly(start, log) && j < |log| && log[j].Completed?
    ensures i < j && log[i] == Claimed(log[j].source) && Quiet(log, i + 1, j)
    ensures Watch(start, log[..j + 1], None).Some?
    ensures log[j].source in Waiting(start, log[..j + 1])
      <==> CompletedWhileMasked(start, log, j) && NotEnded(start, log, i + 1, j, log[j].source)
  {
    OneStep(start, log, j);
    CompletedIsOpen(Watch(start, log[..j], None).value, log[j].source);
    i := WaitsWhileOpen(start, log[..j]);
    assert forall k :: 0 <= k < j ==> log[..j][k] == log[k];
    NotEndedPrefix(start, log, j, i + 1, log[j].source);
  }

  ghost predicate Idles(start: Lines, log: seq<Event>, source: nat)
    requires Orderly(start, log)
  {
    var v := Watch(start, log, None).value.service;
    v.Open? ==> v.source != source
  }

  lemma StaysOneMore(start: Lines, log: seq<Event>, source: nat)
    requires log != [] && Orderly(start, log) && Orderly(start, log[..|log| - 1])
    requires Idles(start, log[..|log| - 1], source) && !EndedAt(start, log, |log| - 1, source)
    requires source in Waiting(start, log[..|log| - 1])
    ensures source in Waiting(start, log) && Idles(start, log, source) && log[|log| - 1] != Claimed(source)
  {
  }

  /** A source that is waiting and not being serviced is never claimed again, even if
      it is unmasked or registered again, until someone ends its interrupt through
      the trait while its line is not masked. */
  lemma {:induction false} StaysWaiting(start: Lines, log: seq<Event>, i: nat, source: nat)
    requires Orderly(start, log) && i <= |log| && Orderly(start, log[..i])
    requires source in Waiting(start, log[..i]) && Idles(start, log[..i], source)
    requires NotEnded(start, log, i, |log|, source)
    ensures source in Waiting(start, log) && Idles(start, log, source)
    ensures forall k :: i <= k < |log| ==> log[k] != Claimed(source)
    decreases |log|
  {
    if i == |log| {
      assert log[..i] == log;
    } else {
      var n := |log| - 1;
      OrderlyPrefix(start, log, n);
      assert log[..n][..i] == log[..i];
      NotEndedPrefix(start, log, n, i, source);
      StaysWaiting(start, log[..n], i, source);
      assert forall k :: 0 <= k < n ==> log[..n][k] == log[k];
      StaysOneMore(start, log, source);
    }
  }

  /** And that does release it. */
  lemma EndReleases(start: Lines, log: seq<Event>, k: nat, source: nat)
    requires Orderly(start, log) && k < |log| && EndedAt(start, log, k, source)
    ensures Watch(start, log[..k + 1], None).Some? && source !in Waiting(start, log[..k + 1])
  {
    OneStep(start, log, k);
  }

  /** For instance when the handler of source 5 masks its own line: the source is
      left in service. */
  lemma HandlerMasksItself(h: Handler)
    ensures var start := NewLines(1, 511);
      var log := [Called(Register(5, h))] + Serviced(5, Some(Ran(h, 5)), [Mask(5)]);
      Orderly(start, log) && 5 in Waiting(start, log)
  {
    var start := NewLines(1, 511);
    var c := Perform(start, Register(5, h)).0;
    var masked := Perform(c, Mask(5)).0;
    ReachesCall(start, [], Register(5, h), Monitor(start, Idle), {});
    assert [] + [Called(Register(5, h))] == [Called(Register(5, h))];
    assert PerformAll(c, [Mask(5)]) == PerformAll(masked, []);
    ServicedWaits(start, [Called(Register(5, h))], 5, [Mask(5)], c, masked, {});
    assert RetireCalls({5}, c, [Mask(5)]) == RetireCalls({5}, masked, []);
    assert {} + {5} == {5};
  }
}
