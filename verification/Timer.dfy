/** Ticks and nanoseconds, and the one-shot deadline of the three timers. */
module Timer {
  import opened Words
  import opened Hal

  const GIGA: nat := 1_000_000_000
  const U64_MAX: nat := U64_SIZE - 1

  // ---------------------------------------------------------------------
  // Division
  // ---------------------------------------------------------------------

  /** A floor is at least q exactly when the numerator is at least q times the
      divisor. */
  lemma QuotientAtLeast(a: nat, b: nat, q: nat)
    requires b > 0
    ensures q <= a / b <==> q * b <= a
  {
    var r := a % b;
    assert a == (a / b) * b + r;
    assert (a / b + 1) * b == (a / b) * b + b;
    if q <= a / b {
      TimesMonotone(q, a / b, b);
    } else {
      TimesMonotone(a / b + 1, q, b);
    }
  }

  // ---------------------------------------------------------------------
  // Conversions
  // ---------------------------------------------------------------------

  /** Nanoseconds at a tick, and ticks at a deadline, before they are cut to 64 bits. */
  function Nanos(ticks: nat, f: nat): nat
    requires f > 0
  {
    ticks * GIGA / f
  }

  function Ticks(deadline: nat, f: nat): nat {
    deadline * f / GIGA
  }

  /** The time that is reported at a tick, and the tick that is armed for a deadline. */
  function NowAt(ticks: nat, f: nat): nat
    requires f > 0
  {
    Nanos(ticks, f) % U64_SIZE
  }

  function Armed(deadline: nat, f: nat): nat {
    Ticks(deadline, f) % U64_SIZE
  }

  lemma NanosAscend(s: nat, t: nat, f: nat)
    requires f > 0 && s <= t
    ensures Nanos(s, f) <= Nanos(t, f)
  {
    QuotientAtLeast(s * GIGA, f, Nanos(s, f));
    QuotientAtLeast(t * GIGA, f, Nanos(s, f));
  }

  lemma DeadlineIsAhead(d: nat, t: nat, f: nat)
    requires f > 0 && d > Nanos(t, f)
    ensures Ticks(d, f) >= t
  {
    QuotientAtLeast(t * GIGA, f, d);
    QuotientAtLeast(d * f, GIGA, t);
  }

  /** The deadline's tick is the last one at which the time is at most the deadline,
      and the time there is short of it by less than one tick and one nanosecond. */
  lemma WithinATick(d: nat, f: nat)
    requires f > 0
    ensures var k := Ticks(d, f);
      Nanos(k, f) <= d <= Nanos(k + 1, f) && (d - Nanos(k, f) - 1) * f < GIGA
  {
    var k := Ticks(d, f);
    QuotientAtLeast(d * f, GIGA, k);
    QuotientAtLeast(d * f, GIGA, k + 1);
    QuotientAtLeast(k * GIGA, f, d + 1);
    QuotientAtLeast((k + 1) * GIGA, f, d);
    assert (d + 1) * f == d * f + f;
    assert (k + 1) * GIGA == k * GIGA + GIGA;
    var n := Nanos(k, f);
    QuotientAtLeast(k * GIGA, f, n + 1);
    assert (d - n - 1) * f == d * f - (n + 1) * f;
  }

  /** Before the deadline's tick the time is short of the deadline. */
  lemma ShortBefore(d: nat, f: nat, t: nat)
    requires f > 0 && t < Ticks(d, f)
    ensures Nanos(t, f) < d
  {
    QuotientAtLeast(d * f, GIGA, t + 1);
    QuotientAtLeast(t * GIGA, f, d);
  }

  lemma OnTick(d: nat, f: nat)
    requires f > 0
    ensures Nanos(Ticks(d, f), f) >= d <==> d * f % GIGA == 0
  {
    var k := Ticks(d, f);
    assert d * f == k * GIGA + d * f % GIGA;
    QuotientAtLeast(k * GIGA, f, d);
  }

  /** The tick fits the register exactly when the deadline is short of this bound. */
  lemma TicksFit(d: nat, f: nat)
    ensures Ticks(d, f) < U64_SIZE <==> d * f < U64_SIZE * GIGA
    ensures d * f < U64_SIZE * GIGA <==> Armed(d, f) == Ticks(d, f)
  {
    QuotientAtLeast(d * f, GIGA, U64_SIZE);
  }

  /** The register holds zero exactly when the deadline is less than a tick past a
      multiple of the register's span. */
  lemma ArmedIsZero(d: nat, f: nat)
    ensures Armed(d, f) == 0 <==> d * f % (U64_SIZE * GIGA) < GIGA
  {
  }

  // ---------------------------------------------------------------------
  // The clock
  // ---------------------------------------------------------------------

  ghost predicate RunsForwards(last: nat, f: nat)
    requires f > 0
  {
    forall s, t :: 0 <= s <= t <= last ==> NowAt(s, f) <= NowAt(t, f)
  }

  /** The reported time does not run backwards up to a tick exactly when it has not
      wrapped by then. */
  lemma ClockRunsForwards(last: nat, f: nat)
    requires f > 0
    ensures RunsForwards(last, f) <==> Nanos(last, f) < U64_SIZE
  {
    if Nanos(last, f) < U64_SIZE {
      forall s, t | 0 <= s <= t <= last
        ensures NowAt(s, f) <= NowAt(t, f)
      {
        NanosAscend(s, t, f);
        NanosAscend(t, last, f);
      }
    } else {
      var s, t := WrapsDown(last, f);
      assert !(NowAt(s, f) <= NowAt(t, f));
    }
  }

  lemma NanosStep(t: nat, f: nat)
    requires f > 0
    ensures Nanos(t + 1, f) <= Nanos(t, f) + GIGA
  {
    var n := Nanos(t, f);
    QuotientAtLeast(t * GIGA, f, n + 1);
    QuotientAtLeast((t + 1) * GIGA, f, n + GIGA + 1);
    assert (n + GIGA + 1) * f == (n + 1) * f + GIGA * f;
    TimesMonotone(1, f, GIGA);
    assert (t + 1) * GIGA == t * GIGA + GIGA;
  }

  lemma WrapsLower(a: nat, b: nat)
    requires a < U64_SIZE <= b <= a + GIGA
    ensures a % U64_SIZE > b % U64_SIZE
  {
    assert a % U64_SIZE == a;
    assert b % U64_SIZE == b - U64_SIZE;
  }

  /** A clock that has wrapped has stepped back somewhere. */
  lemma {:induction false} WrapsDown(last: nat, f: nat) returns (s: nat, t: nat)
    requires f > 0 && Nanos(last, f) >= U64_SIZE
    ensures s <= t <= last && NowAt(s, f) > NowAt(t, f)
    decreases last
  {
    if last == 0 {
      assert false;
    } else if Nanos(last - 1, f) >= U64_SIZE {
      s, t := WrapsDown(last - 1, f);
    } else {
      NanosStep(last - 1, f);
      s, t := last - 1, last;
      WrapsLower(Nanos(s, f), Nanos(t, f));
    }
  }

  /** For instance the 10 MHz clock of the RISC-V board reports 100 ns at tick 1 and
      0 ns at tick 2^63. */
  lemma ClockRunsBackwards()
    ensures NowAt(1, 10_000_000) == 100 && NowAt(0x8000_0000_0000_0000, 10_000_000) == 0
    ensures !RunsForwards(0x8000_0000_0000_0000, 10_000_000)
  {
    assert Nanos(1, 10_000_000) == 100;
    assert Nanos(0x8000_0000_0000_0000, 10_000_000) == 50 * U64_SIZE;
    ClockRunsForwards(0x8000_0000_0000_0000, 10_000_000);
  }

  // ---------------------------------------------------------------------
  // The timers
  // ---------------------------------------------------------------------

  /** The hardware behind a timer: the time-stamp counter, the SBI call or the Arm
      generic timer. */
  datatype Source = Tsc(deadlineCapable: bool) | Sbi(timeAvailable: bool) | Generic

  datatype TimerMode = Interactive | HighResolutionTickless

  class Clock {
    var ticks: nat
    var compare: nat

    constructor (ticks: nat, compare: nat)
      ensures this.ticks == ticks && this.compare == compare
    {
      this.ticks, this.compare := ticks, compare;
    }
  }

  /** Whether the interrupt is up at a tick. The time-stamp deadline is off when it
      is zero; the others compare. */
  predicate Fires(source: Source, compare: nat, ticks: nat) {
    if source.Tsc? then compare != 0 && ticks >= compare else ticks >= compare
  }

  predicate CanArm(source: Source) {
    match source
    case Tsc(capable) => capable
    case Sbi(available) => available
    case Generic => true
  }

  /** Which deadlines are accepted at a tick. */
  predicate Accepts(source: Source, d: nat, f: nat, ticks: nat)
    requires f > 0
  {
    CanArm(source) && d > NowAt(ticks, f)
  }

  class Timer {
    const clock: Clock
    const source: Source
    const frequencyHz: nat
    var ticklessEnabled: bool

    ghost predicate Valid()
      reads this, clock
    {
      frequencyHz > 0 && clock.ticks < U64_SIZE && clock.compare < U64_SIZE
    }

    constructor (clock: Clock, source: Source, frequencyHz: nat)
      requires frequencyHz > 0 && clock.ticks < U64_SIZE && clock.compare < U64_SIZE
      modifies clock
      ensures Valid() && this.clock == clock && this.source == source && this.frequencyHz == frequencyHz
      ensures !ticklessEnabled && clock.ticks == old(clock.ticks)
      ensures clock.compare == if source.Generic? then 0xFFFF_FFFF_FFFF_FFFF else old(clock.compare)
    {
      this.clock, this.source, this.frequencyHz, ticklessEnabled := clock, source, frequencyHz, false;
      new;
      if source.Generic? {
        clock.compare := U64_MAX;
      }
    }

    method NowNs() returns (now: nat)
      requires Valid()
      ensures now == NowAt(clock.ticks, frequencyHz)
      ensures Nanos(clock.ticks, frequencyHz) < U64_SIZE ==> now == Nanos(clock.ticks, frequencyHz)
    {
      now := clock.ticks * GIGA / frequencyHz % U64_SIZE;
    }

    method DeadlineNsToTicks(deadline: nat) returns (ticks: nat)
      requires Valid()
      ensures ticks < U64_SIZE && ticks == Armed(deadline, frequencyHz)
    {
      ticks := deadline * frequencyHz / GIGA % U64_SIZE;
    }

    /** Arms the deadline, or changes nothing. */
    method SetOneshot(deadline: nat, mode: TimerMode) returns (r: Result<()>)
      requires Valid() && deadline < U64_SIZE
      modifies clock`compare
      ensures Valid()
      ensures r.Ok? <==> Accepts(source, deadline, frequencyHz, clock.ticks)
      ensures source == Tsc(false) || source == Sbi(false) ==> r == Err(TicklessModeUnsupported)
      ensures source in {Tsc(true), Sbi(true), Generic} ==>
        r == if deadline <= NowAt(clock.ticks, frequencyHz) then Err(InvalidTimerDeadline) else Ok(())
      ensures clock.compare == if r.Ok? then Armed(deadline, frequencyHz) else old(clock.compare)
    {
      if source.Tsc? && mode == HighResolutionTickless && !source.deadlineCapable {
        return Err(TicklessModeUnsupported);
      }
      if (source.Tsc? && !source.deadlineCapable) || (source.Sbi? && !source.timeAvailable) {
        return Err(TicklessModeUnsupported);
      }
      var now := NowNs();
      if deadline <= now {
        return Err(InvalidTimerDeadline);
      }
      var ticks := DeadlineNsToTicks(deadline);
      clock.compare := ticks;
      return Ok(());
    }

    /** After this nothing fires before the counter's last value. */
    method CancelOneshot()
      requires Valid()
      modifies clock`compare
      ensures Valid()
      ensures source != Sbi(false) ==>
        forall t :: 0 <= t < 0xFFFF_FFFF_FFFF_FFFF ==> !Fires(source, clock.compare, t)
      ensures source.Sbi? && !source.timeAvailable ==> clock.compare == old(clock.compare)
    {
      match source {
        case Tsc(_) => clock.compare := 0;
        case Sbi(available) =>
          if available {
            clock.compare := U64_MAX;
          }
        case Generic => clock.compare := U64_MAX;
      }
    }

    method SetTickless(enabled: bool) returns (r: Result<()>)
      requires Valid()
      modifies this`ticklessEnabled
      ensures Valid()
      ensures r == if enabled && source in {Tsc(false), Sbi(false)} then Err(TicklessModeUnsupported) else Ok(())
      ensures ticklessEnabled == if r.Ok? then enabled else old(ticklessEnabled)
    {
      if enabled && !CanArm(source) {
        return Err(TicklessModeUnsupported);
      }
      ticklessEnabled := enabled;
      return Ok(());
    }
  }

  // ---------------------------------------------------------------------
  // What an armed deadline does
  // ---------------------------------------------------------------------

  ghost predicate Disarmed(source: Source, d: nat, f: nat) {
    forall t :: !Fires(source, Armed(d, f), t)
  }

  /** The interrupt is up at every tick where the time is past the deadline, and at
      no tick more than one before the time reaches it. */
  ghost predicate FiresRight(source: Source, d: nat, f: nat)
    requires f > 0
  {
    && (forall t: nat :: Nanos(t, f) > d ==> Fires(source, Armed(d, f), t))
    && (forall t: nat :: Fires(source, Armed(d, f), t) ==> Nanos(t + 1, f) >= d)
  }

  /** The interrupt comes, and at no tick where the time is short of the deadline. */
  ghost predicate FiresOnTime(source: Source, d: nat, f: nat)
    requires f > 0
  {
    && (exists t :: Fires(source, Armed(d, f), t))
    && (forall t: nat :: Fires(source, Armed(d, f), t) ==> Nanos(t, f) >= d)
  }

  /** The tick of the deadline fits the register, and does not stand for `off`. */
  predicate Representable(source: Source, d: nat, f: nat) {
    d * f < U64_SIZE * GIGA && (source.Tsc? ==> d * f >= GIGA)
  }

  /** A deadline leaves the timer disarmed exactly on the time-stamp counter, and
      when it falls less than a tick past a multiple of the register's span. */
  lemma DisarmedExactly(source: Source, d: nat, f: nat)
    requires f > 0
    ensures Disarmed(source, d, f) <==> source.Tsc? && d * f % (U64_SIZE * GIGA) < GIGA
  {
    ArmedIsZero(d, f);
    if !(source.Tsc? && Armed(d, f) == 0) {
      assert Fires(source, Armed(d, f), Armed(d, f));
    }
  }

  lemma RepresentableIs(source: Source, d: nat, f: nat)
    ensures Representable(source, d, f) <==> Armed(d, f) == Ticks(d, f) && (source.Tsc? ==> Armed(d, f) != 0)
  {
    TicksFit(d, f);
    ArmedIsZero(d, f);
  }

  /** A tick that was cut comes at least two ticks early. */
  lemma CutIsEarly(d: nat, f: nat)
    requires f > 0 && Armed(d, f) != Ticks(d, f)
    ensures Nanos(Armed(d, f), f) < d && Nanos(Armed(d, f) + 1, f) < d
  {
    ShortBefore(d, f, Armed(d, f));
    ShortBefore(d, f, Armed(d, f) + 1);
  }

  /** Past every deadline there is a tick. */
  lemma PastDeadline(d: nat, f: nat)
    requires f > 0
    ensures Nanos((d + 1) * f, f) > d
  {
    assert (d + 1) * f * GIGA == ((d + 1) * GIGA) * f;
    QuotientAtLeast((d + 1) * f * GIGA, f, (d + 1) * GIGA);
  }

  /** A deadline fires when it should exactly when its tick can be represented. */
  lemma FiresRightExactly(source: Source, d: nat, f: nat)
    requires f > 0
    ensures FiresRight(source, d, f) <==> Representable(source, d, f)
  {
    RepresentableIs(source, d, f);
    var k := Armed(d, f);
    if Representable(source, d, f) {
      forall t: nat
        ensures Nanos(t, f) > d ==> Fires(source, k, t)
        ensures Fires(source, k, t) ==> Nanos(t + 1, f) >= d
      {
        WithinATick(d, f);
        if t < k { NanosAscend(t, k, f); } else { NanosAscend(k + 1, t + 1, f); }
      }
    } else if source.Tsc? && k == 0 {
      PastDeadline(d, f);
      assert !Fires(source, k, (d + 1) * f);
    } else {
      CutIsEarly(d, f);
      assert Fires(source, k, k);
    }
  }

  /** It comes and is not early exactly when, besides, it falls on a tick. */
  lemma FiresOnTimeExactly(source: Source, d: nat, f: nat)
    requires f > 0
    ensures FiresOnTime(source, d, f) <==> Representable(source, d, f) && d * f % GIGA == 0
  {
    RepresentableIs(source, d, f);
    OnTick(d, f);
    var k := Armed(d, f);
    if Representable(source, d, f) {
      assert Fires(source, k, k);
      if d * f % GIGA == 0 {
        forall t: nat | Fires(source, k, t)
          ensures Nanos(t, f) >= d
        {
          NanosAscend(k, t, f);
        }
      }
    } else if !(source.Tsc? && k == 0) {
      CutIsEarly(d, f);
      assert Fires(source, k, k);
    }
  }

  // ---------------------------------------------------------------------
  // The past
  // ---------------------------------------------------------------------

  /** Whenever the deadline is accepted while the clock has not wrapped, the armed
      tick is not a past one. */
  ghost predicate NeverInThePast(source: Source, d: nat, f: nat)
    requires f > 0
  {
    forall t | 0 <= t < U64_SIZE && Nanos(t, f) < U64_SIZE && Accepts(source, d, f, t) :: Armed(d, f) >= t
  }

  lemma LastTickAccepts(source: Source, d: nat, f: nat)
    requires f > 0 && d < U64_SIZE && CanArm(source) && Ticks(d, f) >= U64_SIZE
    ensures Nanos(U64_MAX, f) < U64_SIZE && Accepts(source, d, f, U64_MAX)
  {
    ShortBefore(d, f, U64_MAX);
  }

  /** This holds exactly when the deadline fits the register, or is cut to the last
      tick of all. */
  lemma NeverInThePastExactly(source: Source, d: nat, f: nat)
    requires f > 0 && d < U64_SIZE && CanArm(source)
    ensures NeverInThePast(source, d, f) <==> d * f < U64_SIZE * GIGA || Armed(d, f) == U64_MAX
  {
    TicksFit(d, f);
    if d * f < U64_SIZE * GIGA {
      forall t | 0 <= t < U64_SIZE && Nanos(t, f) < U64_SIZE && Accepts(source, d, f, t)
        ensures Armed(d, f) >= t
      {
        DeadlineIsAhead(d, t, f);
      }
    } else {
      LastTickAccepts(source, d, f);
      assert NeverInThePast(source, d, f) ==> Armed(d, f) >= U64_MAX;
    }
  }

  /** Once the clock has wrapped, every deadline it accepts lies in the past. */
  lemma PastAfterTheWrap(source: Source, d: nat, f: nat, t: nat)
    requires f > 0 && d < U64_SIZE && t < U64_SIZE && Nanos(t, f) >= U64_SIZE && Accepts(source, d, f, t)
    ensures Armed(d, f) < t
  {
    QuotientAtLeast(t * GIGA, f, d + 1);
    QuotientAtLeast(d * f, GIGA, t);
    assert (d + 1) * f == d * f + f;
    if d * f < t * GIGA {
      TicksFit(d, f);
      assert t * GIGA < U64_SIZE * GIGA;
    }
  }

  // ---------------------------------------------------------------------
  // Deadlines that are accepted and go wrong
  // ---------------------------------------------------------------------

  /** A deadline of 150 ns is accepted at tick 0 by the 10 MHz clock of the RISC-V
      board, and comes at 100 ns. */
  lemma EarlyDeadline()
    ensures var source, d, f := Sbi(true), 150, 10_000_000;
      && Accepts(source, d, f, 0) && !FiresOnTime(source, d, f)
      && Fires(source, Armed(d, f), 1) && NowAt(1, f) == 100
  {
    assert Ticks(150, 10_000_000) == 1;
    assert Nanos(1, 10_000_000) == 100;
    FiresOnTimeExactly(Sbi(true), 150, 10_000_000);
  }

  /** At 4 GHz a deadline of 2^63 ns is accepted at tick 1, and cut to tick 0: the
      generic timer's interrupt is up at once, the time-stamp timer is disarmed. */
  lemma FarDeadlineIsCut(source: Source)
    requires CanArm(source)
    ensures var d, f := 0x8000_0000_0000_0000, 4_000_000_000;
      && Accepts(source, d, f, 1) && Armed(d, f) == 0
      && (if source.Tsc? then Disarmed(source, d, f) else Fires(source, Armed(d, f), 1))
      && !FiresRight(source, d, f)
  {
    var d, f := 0x8000_0000_0000_0000, 4_000_000_000;
    assert Ticks(d, f) == 2 * U64_SIZE;
    assert Nanos(1, f) == 0;
    FiresRightExactly(source, d, f);
  }

  /** At 500 MHz a deadline of 1 ns is accepted by the time-stamp timer at tick 0,
      and disarms it. */
  lemma ShortDeadlineDisarms()
    ensures Accepts(Tsc(true), 1, 500_000_000, 0) && Disarmed(Tsc(true), 1, 500_000_000)
  {
    assert Nanos(0, 500_000_000) == 0;
    DisarmedExactly(Tsc(true), 1, 500_000_000);
  }

  /** While the clock has not wrapped, a deadline before the first tick is accepted
      only at tick 0 and below 1 GHz. */
  lemma ShortDeadlineNeedsTickZero(source: Source, d: nat, f: nat, t: nat)
    requires f > 0 && Nanos(t, f) < U64_SIZE && Accepts(source, d, f, t) && d * f < GIGA
    ensures t == 0 && f < GIGA
  {
    DeadlineIsAhead(d, t, f);
    assert Ticks(d, f) == 0;
    TimesMonotone(1, d, f);
  }
}
