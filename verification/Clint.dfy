/** The tickless timer of sifive/clint.cpp: mtime is brought up to date only when somebody looks, and a
    one-shot event is scheduled for the moment the compare value will be reached. */
module Clint {

  const TWO64 := 0x1_0000_0000_0000_0000

  /** The value of `x` in uint64_t arithmetic. */
  function Wrap(x: nat): (w: nat)
    ensures w < TWO64
  {
    if x < TWO64 then x else Wrap(x - TWO64)
  }

  lemma {:induction false} WrapIsModulo(x: nat)
    ensures Wrap(x) == x % TWO64 < TWO64
  {
    if x >= TWO64 {
      WrapIsModulo(x - TWO64);
    }
  }

  lemma {:induction false} WrapAdds(m: nat, a: nat)
    ensures Wrap(Wrap(m) + a) == Wrap(m + a)
  {
    if m >= TWO64 {
      WrapAdds(m - TWO64, a);
    }
  }

  datatype Alarm = Idle | At(time: nat)

  // ---------------------------------------------------------------- whole periods

  /** `n` clock periods of length `c`. */
  function Times(n: nat, c: nat): nat {
    if n == 0 then 0 else Times(n - 1, c) + c
  }

  /** How many whole periods of length `c` fit into `x`. */
  function Periods(x: nat, c: nat): nat
    requires c > 0
  {
    if x < c then 0 else 1 + Periods(x - c, c)
  }

  lemma {:induction false} TimesIsProduct(n: nat, c: nat)
    ensures Times(n, c) == n * c
  {
    if n > 0 {
      TimesIsProduct(n - 1, c);
      assert n * c == (n - 1) * c + c;
    }
  }

  lemma {:induction false} TimesAdds(a: nat, b: nat, c: nat)
    ensures Times(a + b, c) == Times(a, c) + Times(b, c)
  {
    if b > 0 {
      TimesAdds(a, b - 1, c);
    }
  }

  lemma TimesOrdered(a: nat, b: nat, c: nat)
    ensures a <= b ==> Times(a, c) <= Times(b, c)
    ensures a < b ==> Times(a, c) + c <= Times(b, c)
  {
    if a < b {
      TimesAdds(a + 1, b - a - 1, c);
    } else if a == b {
    }
  }

  lemma {:induction false} PeriodsBounds(x: nat, c: nat)
    requires c > 0
    ensures Times(Periods(x, c), c) <= x < Times(Periods(x, c), c) + c
  {
    if x >= c {
      PeriodsBounds(x - c, c);
    }
  }

  lemma PeriodsUnique(x: nat, c: nat, q: nat)
    requires c > 0 && Times(q, c) <= x < Times(q, c) + c
    ensures Periods(x, c) == q
  {
    PeriodsBounds(x, c);
    TimesOrdered(Periods(x, c), q, c);
    TimesOrdered(q, Periods(x, c), c);
  }

  lemma PeriodsShift(x: nat, c: nat, q: nat)
    requires c > 0
    ensures Periods(x + Times(q, c), c) == Periods(x, c) + q
  {
    PeriodsBounds(x, c);
    TimesAdds(Periods(x, c), q, c);
    PeriodsUnique(x + Times(q, c), c, Periods(x, c) + q);
  }

  lemma QuotientBounds(x: nat, c: nat)
    requires c > 0
    ensures x / c * c <= x < x / c * c + c
  {
  }

  /** Whole periods are the floor quotient the code computes. */
  lemma PeriodsIsQuotient(x: nat, c: nat)
    requires c > 0
    ensures Periods(x, c) == x / c
  {
    QuotientBounds(x, c);
    TimesIsProduct(x / c, c);
    PeriodsUnique(x, c, x / c);
  }

  /** `clk` is the clock period, zero while no clock is connected; times are multiples of the
      simulator's resolution. */
  datatype State = State(clk: nat, lastUpdt: nat, mtime: nat, mtimecmp: nat, line: bool, alarm: Alarm) {
    predicate Valid() {
      mtime < TWO64 && mtimecmp < TWO64
    }

    /** What a counter that never stops would show at `now`. */
    function FreeRunning(now: nat): nat
      requires clk > 0 && lastUpdt <= now
    {
      Wrap(mtime + Periods(now - lastUpdt, clk))
    }

    /** The instant at which the counter reaches the compare value. */
    function Crossing(): nat
      requires mtime <= mtimecmp
    {
      lastUpdt + Times(mtimecmp - mtime, clk)
    }
  }

  /** update_mtime. */
  function Update(s: State, now: nat): (s': State)
    requires s.Valid() && s.lastUpdt <= now
    ensures s'.Valid() && s'.clk == s.clk && s'.mtimecmp == s.mtimecmp
  {
    if s.clk > 0 then
      var elapsed := Periods(now - s.lastUpdt, s.clk);
      var mtime := Wrap(s.mtime + elapsed);
      s.(lastUpdt := s.lastUpdt + Times(elapsed, s.clk), mtime := mtime, line := s.mtimecmp <= mtime,
         alarm := if s.mtimecmp > mtime then At(now + Times(s.mtimecmp - mtime, s.clk)) else Idle)
    else s.(lastUpdt := now)
  }

  // ---------------------------------------------------------------- one update

  /** After an update the remainder is below one period, and zero without a clock. */
  lemma UpdateRemainder(s: State, now: nat)
    requires s.Valid() && s.lastUpdt <= now
    ensures Update(s, now).lastUpdt <= now
    ensures if s.clk > 0 then now < Update(s, now).lastUpdt + s.clk else Update(s, now).lastUpdt == now
  {
    if s.clk > 0 {
      PeriodsBounds(now - s.lastUpdt, s.clk);
    }
  }

  /** The whole periods until `later` split at an update. */
  lemma PeriodsSplit(last: nat, c: nat, now: nat, later: nat)
    requires c > 0 && last <= now <= later
    ensures last + Times(Periods(now - last, c), c) <= now
    ensures Periods(later - last, c) ==
            Periods(later - (last + Times(Periods(now - last, c), c)), c) + Periods(now - last, c)
  {
    var q := Periods(now - last, c);
    PeriodsBounds(now - last, c);
    PeriodsShift(later - (last + Times(q, c)), c, q);
  }

  /** An update is invisible: at every later instant the free-running value is the same with or without
      it, and at its own instant the register shows that value. */
  lemma UpdateInvisible(s: State, now: nat, later: nat)
    requires s.Valid() && s.clk > 0 && s.lastUpdt <= now <= later
    ensures Update(s, now).mtime == s.FreeRunning(now)
    ensures Update(s, now).lastUpdt <= later
    ensures Update(s, now).FreeRunning(later) == s.FreeRunning(later)
  {
    var q := Periods(now - s.lastUpdt, s.clk);
    PeriodsSplit(s.lastUpdt, s.clk, now, later);
    WrapAdds(s.mtime + q, Periods(later - Update(s, now).lastUpdt, s.clk));
  }

  // ---------------------------------------------------------------- runs

  /** A read of mtime or the scheduled event, a write of mtimecmp, a change of the clock input. */
  datatype Event =
    | Look(now: nat)
    | WriteCompare(now: nat, value: nat)
    | Clock(now: nat, period: nat)

  function Next(s: State, e: Event): (s': State)
    requires s.Valid() && s.lastUpdt <= e.now && (e.WriteCompare? ==> e.value < TWO64)
    ensures s'.Valid()
  {
    match e
    case Look(now) => Update(s, now)
    case WriteCompare(now, value) => Update(s.(mtimecmp := value), now)
    case Clock(now, period) =>
      var s1 := Update(s, now);
      UpdateRemainder(s, now);
      Update(s1.(clk := period), now)
  }

  lemma NextRemainder(s: State, e: Event)
    requires s.Valid() && s.lastUpdt <= e.now && (e.WriteCompare? ==> e.value < TWO64)
    ensures Next(s, e).lastUpdt <= e.now
    ensures Next(s, e).clk > 0 ==> e.now < Next(s, e).lastUpdt + Next(s, e).clk
    ensures Next(s, e).clk == 0 ==> Next(s, e).lastUpdt == e.now
  {
    match e
    case Look(now) => UpdateRemainder(s, now);
    case WriteCompare(now, value) => UpdateRemainder(s.(mtimecmp := value), now);
    case Clock(now, period) =>
      UpdateRemainder(s, now);
      UpdateRemainder(Update(s, now).(clk := period), now);
  }

  /** Events come in the order of simulated time, none before the state's own last update. */
  predicate InOrder(s: State, es: seq<Event>) {
    es == [] || (
      var front, e := es[..|es| - 1], es[|es| - 1];
      && InOrder(s, front)
      && (if front == [] then s.lastUpdt else front[|front| - 1].now) <= e.now
      && (e.WriteCompare? ==> e.value < TWO64))
  }

  function Run(s: State, es: seq<Event>): (s': State)
    requires s.Valid() && InOrder(s, es)
    ensures s'.Valid()
    ensures es == [] ==> s' == s
    ensures es != [] ==> s'.lastUpdt <= es[|es| - 1].now && s.lastUpdt <= es[|es| - 1].now
  {
    if es == [] then s
    else
      var s1 := Run(s, es[..|es| - 1]);
      NextRemainder(s1, es[|es| - 1]);
      Next(s1, es[|es| - 1])
  }

  lemma StepInvisible(s: State, e: Event, later: nat)
    requires s.Valid() && s.clk > 0 && s.lastUpdt <= e.now <= later
    requires !e.Clock? && (e.WriteCompare? ==> e.value < TWO64)
    ensures Next(s, e).clk == s.clk && Next(s, e).lastUpdt <= later
    ensures Next(s, e).mtime == s.FreeRunning(e.now)
    ensures Next(s, e).FreeRunning(later) == s.FreeRunning(later)
  {
    UpdateInvisible(if e.WriteCompare? then s.(mtimecmp := e.value) else s, e.now, later);
  }

  /** Drift freedom: with a constant clock, however many looks and compare writes came before, mtime is
      the start value plus the elapsed whole periods. */
  lemma {:induction false} DriftFree(s: State, es: seq<Event>, now: nat)
    requires s.Valid() && s.clk > 0 && InOrder(s, es) && es != [] && es[|es| - 1].now <= now
    requires forall e | e in es :: !e.Clock?
    ensures Run(s, es).clk > 0 && Run(s, es).FreeRunning(now) == s.FreeRunning(now)
    ensures Run(s, es).mtime == s.FreeRunning(es[|es| - 1].now)
  {
    var front, e := es[..|es| - 1], es[|es| - 1];
    assert e in es;
    if front != [] {
      DriftFree(s, front, now);
      DriftFree(s, front, e.now);
    }
    StepInvisible(Run(s, front), e, now);
  }

  // ---------------------------------------------------------------- reset

  /** reset_cb at its start: the registers return to zero and the line falls; the time stamp stays. */
  function AfterReset(s: State): (s': State)
    ensures s'.Valid()
  {
    s.(mtime := 0, mtimecmp := 0, line := false)
  }

  lemma FreeRunningAfterReset(s: State, now: nat)
    requires s.clk > 0 && s.lastUpdt <= now
    ensures AfterReset(s).FreeRunning(now) == Wrap(Periods(now - s.lastUpdt, s.clk))
  {
  }

  /** Reset does not restart the count: every later look shows the periods since the time stamp from before
      the reset. */
  lemma ResetCountsOn(s: State, es: seq<Event>)
    requires s.Valid() && s.clk > 0 && InOrder(AfterReset(s), es) && es != [] && forall e | e in es :: !e.Clock?
    ensures Run(AfterReset(s), es).mtime == Wrap(Periods(es[|es| - 1].now - s.lastUpdt, s.clk))
  {
    var now := es[|es| - 1].now;
    DriftFree(AfterReset(s), es, now);
    FreeRunningAfterReset(s, now);
  }

  /** From the reset on the counter shows what one started at the reset would show. */
  ghost predicate Restarts(s: State, reset: nat)
    requires s.clk > 0 && s.lastUpdt <= reset
  {
    forall now: nat | reset <= now :: AfterReset(s).FreeRunning(now) == Wrap(Periods(now - reset, s.clk))
  }

  /** In the middle of a period it does not: the period is counted in full. */
  lemma PartialPeriodCounts(x: nat, c: nat)
    requires c > 0 && Times(Periods(x, c), c) < x
    ensures var rest := c - (x - Times(Periods(x, c), c));
            rest >= 0 && Periods(x + rest, c) == Periods(x, c) + 1 && Periods(rest, c) == 0
  {
    PeriodsBounds(x, c);
    PeriodsUnique(x + c - (x - Times(Periods(x, c), c)), c, Periods(x, c) + 1);
  }

  lemma FullTurnsRestart(s: State, reset: nat, q: nat)
    requires s.clk > 0 && reset == s.lastUpdt + Times(q, s.clk) && Wrap(q) == 0
    ensures Restarts(s, reset)
  {
    forall now: nat | reset <= now ensures AfterReset(s).FreeRunning(now) == Wrap(Periods(now - reset, s.clk)) {
      FreeRunningAfterReset(s, now);
      PeriodsShift(now - reset, s.clk, q);
      WrapAdds(q, Periods(now - reset, s.clk));
    }
  }

  /** That is so if and only if a whole number of full turns of the counter has passed since the time stamp;
      in particular if the counter was brought up to date at the very instant of the reset. */
  lemma RestartsIff(s: State, reset: nat)
    requires s.Valid() && s.clk > 0 && s.lastUpdt <= reset
    ensures var elapsed := reset - s.lastUpdt;
            Restarts(s, reset) <==>
              elapsed == Times(Periods(elapsed, s.clk), s.clk) && Wrap(Periods(elapsed, s.clk)) == 0
  {
    var elapsed := reset - s.lastUpdt;
    var q := Periods(elapsed, s.clk);
    FreeRunningAfterReset(s, reset);
    if Wrap(q) != 0 {
      assert AfterReset(s).FreeRunning(reset) != Wrap(Periods(0, s.clk));
    } else if elapsed == Times(q, s.clk) {
      FullTurnsRestart(s, reset, q);
    } else {
      PeriodsBounds(elapsed, s.clk);
      PartialPeriodCounts(elapsed, s.clk);
      var rest := s.clk - (elapsed - Times(q, s.clk));
      FreeRunningAfterReset(s, reset + rest);
      WrapAdds(q, 1);
      assert AfterReset(s).FreeRunning(reset + rest) == 1 != Wrap(Periods(rest, s.clk));
    }
  }

  // ---------------------------------------------------------------- accounting across clock changes

  /** A stretch of time: whole periods that were counted, or time without a clock. */
  datatype Span = Counted(ticks: nat, period: nat) | Unclocked(time: nat) {
    function Duration(): nat {
      match this
      case Counted(ticks, period) => Times(ticks, period)
      case Unclocked(time) => time
    }

    function Ticks(): nat {
      if Counted? then ticks else 0
    }
  }

  function SpanOf(s: State, now: nat): Span
    requires s.lastUpdt <= now
  {
    if s.clk > 0 then Counted(Periods(now - s.lastUpdt, s.clk), s.clk) else Unclocked(now - s.lastUpdt)
  }

  /** The spans of one event; a clock change closes one with the old period and opens one with the new. */
  function SpansOf(s: State, e: Event): seq<Span>
    requires s.Valid() && s.lastUpdt <= e.now
  {
    if e.Clock? then
      UpdateRemainder(s, e.now);
      [SpanOf(s, e.now), SpanOf(Update(s, e.now).(clk := e.period), e.now)]
    else [SpanOf(s, e.now)]
  }

  function TotalDuration(log: seq<Span>): nat {
    if log == [] then 0 else TotalDuration(log[..|log| - 1]) + log[|log| - 1].Duration()
  }

  function TotalTicks(log: seq<Span>): nat {
    if log == [] then 0 else TotalTicks(log[..|log| - 1]) + log[|log| - 1].Ticks()
  }

  lemma TotalsOfSnoc(log: seq<Span>, x: Span)
    ensures TotalDuration(log + [x]) == TotalDuration(log) + x.Duration()
    ensures TotalTicks(log + [x]) == TotalTicks(log) + x.Ticks()
  {
    assert (log + [x])[..|log|] == log;
  }

  lemma SpanAccounts(s: State, now: nat)
    requires s.Valid() && s.lastUpdt <= now
    ensures Update(s, now).lastUpdt == s.lastUpdt + SpanOf(s, now).Duration()
    ensures Update(s, now).mtime == Wrap(s.mtime + SpanOf(s, now).Ticks())
  {
  }

  /** The spans of one event account for the change of the time stamp and of mtime. */
  lemma EventAccounts(s: State, e: Event)
    requires s.Valid() && s.lastUpdt <= e.now && (e.WriteCompare? ==> e.value < TWO64)
    ensures Next(s, e).lastUpdt == s.lastUpdt + TotalDuration(SpansOf(s, e))
    ensures Next(s, e).mtime == Wrap(s.mtime + TotalTicks(SpansOf(s, e)))
  {
    var x := SpanOf(s, e.now);
    SpanAccounts(s, e.now);
    TotalsOfSnoc([], x);
    assert [] + [x] == [x];
    if e.WriteCompare? {
      SpanAccounts(s.(mtimecmp := e.value), e.now);
    } else if e.Clock? {
      UpdateRemainder(s, e.now);
      var s2 := Update(s, e.now).(clk := e.period);
      var y := SpanOf(s2, e.now);
      SpanAccounts(s2, e.now);
      TotalsOfSnoc([x], y);
      assert [x] + [y] == [x, y];
      WrapAdds(s.mtime + x.Ticks(), y.Ticks());
    }
  }

  lemma {:induction false} TotalsOfAppend(a: seq<Span>, b: seq<Span>)
    ensures TotalDuration(a + b) == TotalDuration(a) + TotalDuration(b)
    ensures TotalTicks(a + b) == TotalTicks(a) + TotalTicks(b)
  {
    if b == [] {
      assert a + b == a;
    } else {
      assert (a + b)[..|a + b| - 1] == a + b[..|b| - 1];
      TotalsOfAppend(a, b[..|b| - 1]);
    }
  }

  /** A state together with the spans that led to it. */
  datatype Account = Account(s: State, log: seq<Span>)

  function Enter(a: Account, e: Event): Account
    requires a.s.Valid() && a.s.lastUpdt <= e.now && (e.WriteCompare? ==> e.value < TWO64)
  {
    Account(Next(a.s, e), a.log + SpansOf(a.s, e))
  }

  function Recorded(s: State, es: seq<Event>): (a: Account)
    requires s.Valid() && InOrder(s, es)
    ensures a.s == Run(s, es)
  {
    if es == [] then Account(s, [])
    else Enter(Recorded(s, es[..|es| - 1]), es[|es| - 1])
  }

  /** The log accounts for the time stamp and for mtime. */
  predicate Conserved(s: State, a: Account) {
    && a.s.lastUpdt == s.lastUpdt + TotalDuration(a.log)
    && a.s.mtime == Wrap(s.mtime + TotalTicks(a.log))
  }

  lemma WrapChains(m0: nat, m1: nat, m2: nat, a: nat, b: nat, total: nat)
    requires m1 == Wrap(m0 + a) && m2 == Wrap(m1 + b) && total == a + b
    ensures m2 == Wrap(m0 + total)
  {
    WrapAdds(m0 + a, b);
  }

  lemma EnterConserves(s: State, a: Account, e: Event)
    requires a.s.Valid() && a.s.lastUpdt <= e.now && (e.WriteCompare? ==> e.value < TWO64) && Conserved(s, a)
    ensures Conserved(s, Enter(a, e))
  {
    var spans := SpansOf(a.s, e);
    EventAccounts(a.s, e);
    TotalsOfAppend(a.log, spans);
    WrapChains(s.mtime, a.s.mtime, Next(a.s, e).mtime, TotalTicks(a.log), TotalTicks(spans), TotalTicks(a.log + spans));
  }

  /** Across any clock changes: counted ticks times their periods, plus time without a clock, plus a
      remainder below one period, make up the elapsed time; and mtime has advanced by the counted ticks. */
  lemma {:induction false} TimeIsConserved(s: State, es: seq<Event>)
    requires s.Valid() && InOrder(s, es)
    ensures Conserved(s, Recorded(s, es))
    ensures es != [] && Run(s, es).clk > 0 ==> es[|es| - 1].now - Run(s, es).lastUpdt < Run(s, es).clk
    ensures es != [] && Run(s, es).clk == 0 ==> es[|es| - 1].now == Run(s, es).lastUpdt
  {
    if es != [] {
      var front, e := es[..|es| - 1], es[|es| - 1];
      TimeIsConserved(s, front);
      EnterConserves(s, Recorded(s, front), e);
      NextRemainder(Run(s, front), e);
    }
  }

  // ---------------------------------------------------------------- the wake-up

  /** Waiting for the compare value: line low, event scheduled at the crossing or less than one period
      after it. */
  predicate Armed(s: State) {
    && s.Valid() && s.clk > 0 && s.mtime < s.mtimecmp && !s.line
    && s.alarm.At? && s.Crossing() <= s.alarm.time < s.Crossing() + s.clk
  }

  /** An update before the crossing leaves the crossing where it is and re-arms the event. */
  lemma UpdateBeforeCrossing(s: State, now: nat)
    requires s.Valid() && s.clk > 0 && s.mtime < s.mtimecmp && s.lastUpdt <= now < s.Crossing()
    ensures Armed(Update(s, now)) && Update(s, now).Crossing() == s.Crossing()
  {
    var q, missing := Periods(now - s.lastUpdt, s.clk), s.mtimecmp - s.mtime;
    PeriodsBounds(now - s.lastUpdt, s.clk);
    TimesOrdered(missing, q, s.clk);
    TimesAdds(missing - q, q, s.clk);
  }

  /** An update in the period after the crossing raises the line. */
  lemma UpdateAtCrossing(s: State, now: nat)
    requires s.Valid() && s.clk > 0 && s.mtime < s.mtimecmp
    requires s.lastUpdt <= now && s.Crossing() <= now < s.Crossing() + s.clk
    ensures Update(s, now).line && Update(s, now).mtime == s.mtimecmp && Update(s, now).alarm == Idle
  {
    PeriodsUnique(now - s.lastUpdt, s.clk, s.mtimecmp - s.mtime);
  }

  /** The simulation kernel never lets time pass a scheduled event. */
  predicate Scheduled(s: State, times: seq<nat>)
    requires s.Valid()
  {
    times == [] || (
      var front, now := times[..|times| - 1], times[|times| - 1];
      && Scheduled(s, front)
      && Looks(s, front).lastUpdt <= now
      && (front != [] ==> front[|front| - 1] <= now)
      && (Looks(s, front).alarm.At? ==> now <= Looks(s, front).alarm.time))
  }

  /** The state after updates at the given times, whatever caused them. */
  function Looks(s: State, times: seq<nat>): (s': State)
    requires s.Valid()
    ensures s'.Valid() && s'.clk == s.clk && s'.mtimecmp == s.mtimecmp
  {
    if times == [] then s
    else
      var s1 := Looks(s, times[..|times| - 1]);
      var now := times[|times| - 1];
      if s1.lastUpdt <= now then Update(s1, now) else s1
  }

  predicate LowThroughout(s: State, times: seq<nat>)
    requires s.Valid()
  {
    times == [] || (!Looks(s, times).line && LowThroughout(s, times[..|times| - 1]))
  }

  /** While the line has not risen, re-scheduling moves neither the crossing nor the deadline. */
  lemma {:induction false} StaysArmed(s: State, times: seq<nat>)
    requires Armed(s) && Scheduled(s, times) && LowThroughout(s, times)
    ensures Armed(Looks(s, times)) && Looks(s, times).Crossing() == s.Crossing()
    ensures times != [] ==> times[|times| - 1] < s.Crossing()
  {
    if times != [] {
      var front, now := times[..|times| - 1], times[|times| - 1];
      StaysArmed(s, front);
      var s1 := Looks(s, front);
      if now < s.Crossing() {
        UpdateBeforeCrossing(s1, now);
      } else {
        UpdateAtCrossing(s1, now);
      }
    }
  }

  /** Wake-up bound: whatever updates intervene, the first update that finds the line risen comes at the
      crossing or less than one period after it, and the line is low exactly before the crossing. */
  lemma WakeUp(s: State, times: seq<nat>)
    requires Armed(s) && times != [] && Scheduled(s, times) && LowThroughout(s, times[..|times| - 1])
    ensures times[|times| - 1] < s.Crossing() + s.clk
    ensures Looks(s, times).line <==> times[|times| - 1] >= s.Crossing()
  {
    var front, now := times[..|times| - 1], times[|times| - 1];
    StaysArmed(s, front);
    var s1 := Looks(s, front);
    if now < s.Crossing() {
      UpdateBeforeCrossing(s1, now);
    } else {
      UpdateAtCrossing(s1, now);
    }
  }

  // ---------------------------------------------------------------- the line at every moment

  /** The line shows the comparison, and the wake-up event is pending exactly while it is low. */
  predicate Settled(s: State) {
    && (s.line <==> s.mtimecmp <= s.mtime)
    && (if s.line then s.alarm == Idle else Armed(s))
  }

  lemma UpdateSettles(s: State, now: nat)
    requires s.Valid() && s.clk > 0 && s.lastUpdt <= now
    ensures Settled(Update(s, now))
  {
    var t := Update(s, now);
    UpdateRemainder(s, now);
    if t.mtime < t.mtimecmp {
      assert t.alarm == At(now + Times(t.mtimecmp - t.mtime, t.clk));
    }
  }

  /** After every event of every run, whatever looks, compare writes and clock changes came before, and whether
      the compare value lies ahead or in the past: unless the clock is off, the line is high if and only if
      mtimecmp is at most mtime; while it is high no event is pending, and while it is low the event is
      scheduled at the crossing or less than one period after it. */
  lemma LineShowsComparison(s: State, es: seq<Event>)
    requires s.Valid() && InOrder(s, es) && es != [] && Run(s, es).clk > 0
    ensures Settled(Run(s, es))
  {
    var s1, e := Run(s, es[..|es| - 1]), es[|es| - 1];
    match e
    case Look(now) => UpdateSettles(s1, now);
    case WriteCompare(now, value) => UpdateSettles(s1.(mtimecmp := value), now);
    case Clock(now, period) =>
      UpdateRemainder(s1, now);
      UpdateSettles(Update(s1, now).(clk := period), now);
  }

  /** The compare value written last. */
  function LastCompare(mtimecmp: nat, es: seq<Event>): nat {
    if es == [] then mtimecmp
    else if es[|es| - 1].WriteCompare? then es[|es| - 1].value
    else LastCompare(mtimecmp, es[..|es| - 1])
  }

  lemma {:induction false} CompareHolds(s: State, es: seq<Event>)
    requires s.Valid() && InOrder(s, es)
    ensures Run(s, es).mtimecmp == LastCompare(s.mtimecmp, es)
  {
    if es != [] {
      CompareHolds(s, es[..|es| - 1]);
    }
  }

  /** With a constant clock the line is high after an event if and only if the compare value written last is at
      most what a counter that never stops shows at that instant. */
  lemma LineIsFreeRunning(s: State, es: seq<Event>)
    requires s.Valid() && s.clk > 0 && InOrder(s, es) && es != [] && forall e | e in es :: !e.Clock?
    ensures Run(s, es).line <==> LastCompare(s.mtimecmp, es) <= s.FreeRunning(es[|es| - 1].now)
  {
    DriftFree(s, es, es[|es| - 1].now);
    LineShowsComparison(s, es);
    CompareHolds(s, es);
  }

  lemma {:induction false} LooksKeepCompare(mtimecmp: nat, es: seq<Event>)
    requires forall e | e in es :: e.Look?
    ensures LastCompare(mtimecmp, es) == mtimecmp
  {
    if es != [] {
      assert es[|es| - 1] in es;
      LooksKeepCompare(mtimecmp, es[..|es| - 1]);
    }
  }

  /** So once the comparison holds the line stays high through any looks, until the counter wraps. */
  lemma LineStaysHigh(s: State, es: seq<Event>)
    requires s.Valid() && s.clk > 0 && s.mtimecmp <= s.mtime && InOrder(s, es) && es != []
    requires (forall e | e in es :: e.Look?) && s.lastUpdt <= es[|es| - 1].now
    requires s.mtime + Periods(es[|es| - 1].now - s.lastUpdt, s.clk) < TWO64
    ensures Run(s, es).line
  {
    LooksKeepCompare(s.mtimecmp, es);
    LineIsFreeRunning(s, es);
  }

  // ---------------------------------------------------------------- the module

  /** The division of two times. */
  method ElapsedPeriods(time: nat, clk: nat) returns (n: nat)
    requires clk > 0
    ensures n == Periods(time, clk)
  {
    PeriodsIsQuotient(time, clk);
    n := time / clk;
  }

  /** The product of a count and a time. */
  method PeriodLength(n: nat, clk: nat) returns (time: nat)
    ensures time == Times(n, clk)
  {
    TimesIsProduct(n, clk);
    time := n * clk;
  }

  /** uint64_t addition. */
  method Add64(a: nat, b: nat) returns (sum: nat)
    ensures sum == Wrap(a + b)
  {
    WrapIsModulo(a + b);
    sum := (a + b) % TWO64;
  }

  class Clint {
    var clk: nat
    var lastUpdt: nat
    var mtime: nat
    var mtimecmp: nat
    var inReset: bool
    /** The timer interrupt output. */
    var line: bool
    /** The pending notification of the wake-up event. */
    var alarm: Alarm

    ghost predicate Valid()
      reads this
    {
      mtime < TWO64 && mtimecmp < TWO64
    }

    ghost function Abstract(): (s: State)
      reads this
      ensures Valid() ==> s.Valid()
    {
      State(clk, lastUpdt, mtime, mtimecmp, line, alarm)
    }

    constructor ()
      ensures Valid() && Abstract() == State(0, 0, 0, 0, false, Idle) && !inReset
    {
      clk, lastUpdt, mtime, mtimecmp, inReset, line, alarm := 0, 0, 0, 0, false, false, Idle;
    }

    method UpdateMtime(now: nat)
      requires Valid() && lastUpdt <= now
      modifies this
      ensures Valid() && Abstract() == Update(old(Abstract()), now) && inReset == old(inReset)
    {
      if clk > 0 {
        var elapsedClks := ElapsedPeriods(now - lastUpdt, clk);
        var counted := PeriodLength(elapsedClks, clk);
        lastUpdt := lastUpdt + counted;
        var sum := Add64(mtime, elapsedClks);
        mtime := sum;
        line := mtimecmp <= mtime;
        alarm := Idle;
        if mtimecmp > mtime {
          var nextTrigger := PeriodLength(mtimecmp - mtime, clk);
          alarm := At(now + nextTrigger);
        }
      } else {
        lastUpdt := now;
      }
    }

    /** clock_cb, with the period read from the low-frequency clock input. */
    method ClockChange(now: nat, period: nat)
      requires Valid() && lastUpdt <= now
      modifies this
      ensures Valid() && Abstract() == Next(old(Abstract()), Clock(now, period)) && inReset == old(inReset)
    {
      UpdateRemainder(Abstract(), now);
      UpdateMtime(now);
      clk := period;
      UpdateMtime(now);
    }

    method WriteMtimecmp(now: nat, data: nat)
      requires Valid() && lastUpdt <= now && data < TWO64
      modifies this
      ensures Valid() && inReset == old(inReset)
      ensures Abstract() == if inReset then old(Abstract()) else Next(old(Abstract()), WriteCompare(now, data))
    {
      if !inReset {
        mtimecmp := data;
        UpdateMtime(now);
      }
    }

    /** The mtime read: what the register shows is what a free-running counter would. */
    method ReadMtime(now: nat) returns (data: nat)
      requires Valid() && lastUpdt <= now
      modifies this
      ensures Valid() && Abstract() == Next(old(Abstract()), Look(now)) && inReset == old(inReset)
      ensures data == mtime
      ensures old(clk) > 0 ==> data == old(Abstract()).FreeRunning(now)
    {
      if clk > 0 {
        UpdateInvisible(Abstract(), now, now);
      }
      UpdateMtime(now);
      data := mtime;
    }

    /** reset_cb: the registers return to zero and the line falls; clock, time stamp and event stay. */
    method Reset(start: bool)
      requires Valid()
      modifies this
      ensures Valid() && inReset == start
      ensures Abstract() == if start then AfterReset(old(Abstract())) else old(Abstract())
      ensures start ==> mtime == mtimecmp == 0 && !line && alarm == old(alarm) && lastUpdt == old(lastUpdt)
    {
      if start {
        mtime, mtimecmp := 0, 0;
        line := false;
      }
      inReset := start;
    }
  }
}
