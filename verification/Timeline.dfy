/** The machine timer over whole runs. Ticks of mtime, timer traps and the instructions of the
    handler that matter (the load of mtime, the store to mtimecmp, mret) interleave freely; a due
    trap may be delayed as long as it likes. mtime is taken not to wrap. */
module Timeline {
  import HartModel
  import TimervecModel

  /** One timer trap: mtime at trap entry, at the handler's load of mtime and at mret. */
  datatype Visit = Visit(entry: nat, read: nat, exit: nat)

  datatype Phase = Outside | Entered(entry: nat) | Loaded(entry: nat, read: nat) | Armed(entry: nat, read: nat)

  datatype Timer = Timer(mtime: nat, mtimecmp: nat, phase: Phase, log: seq<Visit>)

  datatype Step = Tick | Trap | LoadMtime | StoreCompare | Return

  /** How the handler rearms: the port adds the interval to the mtime it loaded, upstream adds it to
      the old compare value. */
  datatype Rearm = FromNow | FromCompare

  predicate Enabled(t: Timer, step: Step) {
    match step
    case Tick => true
    case Trap => t.phase.Outside? && t.mtime >= t.mtimecmp
    case LoadMtime => t.phase.Entered?
    case StoreCompare => t.phase.Loaded?
    case Return => t.phase.Armed?
  }

  function Next(t: Timer, step: Step, rearm: Rearm, interval: nat): Timer
    requires Enabled(t, step)
  {
    match step
    case Tick => t.(mtime := t.mtime + 1)
    case Trap => t.(phase := Entered(t.mtime))
    case LoadMtime => t.(phase := Loaded(t.phase.entry, t.mtime))
    case StoreCompare =>
      t.(phase := Armed(t.phase.entry, t.phase.read),
         mtimecmp := if rearm.FromNow? then t.phase.read + interval else t.mtimecmp + interval)
    case Return => t.(phase := Outside, log := t.log + [Visit(t.phase.entry, t.phase.read, t.mtime)])
  }

  /** What the instructions of timervec store to mtimecmp on a timer trap is what StoreCompare stores here,
      with mtime as loaded and `value` reading register values as numbers, as long as the addition does
      not wrap. */
  lemma HandlerRearmsFromNow(h: HartModel.Hart, clearsMprv: bool, value: HartModel.Word -> nat, t: Timer)
    requires TimervecModel.IsTimer(h.mtrap.cause)
    requires t.phase.Loaded? && t.phase.read == value(h.kept.mtime)
    requires value(HartModel.Sum(h.kept.mtime, h.scratch.interval)) == value(h.kept.mtime) + value(h.scratch.interval)
    ensures value(TimervecModel.Handled(h, clearsMprv).mtimecmp)
         == Next(t, StoreCompare, FromNow, value(h.scratch.interval)).mtimecmp
  {
  }

  /** A step that is not enabled does not happen. */
  function Run(t: Timer, steps: seq<Step>, rearm: Rearm, interval: nat): Timer
    decreases |steps|
  {
    if steps == [] then t
    else Run(if Enabled(t, steps[0]) then Next(t, steps[0], rearm, interval) else t, steps[1..], rearm, interval)
  }

  /** timerinit arms the first compare value; the handler has not run yet. */
  predicate Initial(t: Timer) {
    t.phase.Outside? && t.log == []
  }

  function Ticks(n: nat): seq<Step> {
    seq(n, _ => Tick)
  }

  lemma {:induction false} RunAppend(t: Timer, a: seq<Step>, b: seq<Step>, rearm: Rearm, interval: nat)
    ensures Run(t, a + b, rearm, interval) == Run(Run(t, a, rearm, interval), b, rearm, interval)
    decreases |a|
  {
    if a == [] {
      assert a + b == b;
    } else {
      assert (a + b)[1..] == a[1..] + b;
      RunAppend(if Enabled(t, a[0]) then Next(t, a[0], rearm, interval) else t, a[1..], b, rearm, interval);
    }
  }

  lemma {:induction false} TicksPass(t: Timer, n: nat, rearm: Rearm, interval: nat)
    ensures Run(t, Ticks(n), rearm, interval) == t.(mtime := t.mtime + n)
    decreases n
  {
    if n > 0 {
      assert Ticks(n)[1..] == Ticks(n - 1);
      TicksPass(t.(mtime := t.mtime + 1), n - 1, rearm, interval);
    }
  }

  lemma RunOne(t: Timer, step: Step, rearm: Rearm, interval: nat)
    ensures Run(t, [step], rearm, interval) == if Enabled(t, step) then Next(t, step, rearm, interval) else t
  {
    assert [step][1..] == [];
  }

  /** Armed by timerinit at m, the first trap is due when the interval is over and not before. */
  lemma FirstTrapIsDue(m: nat, interval: nat, n: nat)
    ensures var t := Timer(m, m + interval, Outside, []);
            Initial(t) && (Enabled(Run(t, Ticks(n), FromNow, interval), Trap) <==> n >= interval)
  {
    TicksPass(Timer(m, m + interval, Outside, []), n, FromNow, interval);
  }

  /** One step and then n cycles. */
  lemma StepAndTicks(t: Timer, step: Step, n: nat, rearm: Rearm, interval: nat)
    requires Enabled(t, step)
    ensures var u := Next(t, step, rearm, interval);
            Run(t, [step] + Ticks(n), rearm, interval) == u.(mtime := u.mtime + n)
  {
    RunAppend(t, [step], Ticks(n), rearm, interval);
    RunOne(t, step, rearm, interval);
    TicksPass(Next(t, step, rearm, interval), n, rearm, interval);
  }

  /** A whole visit, with a, b and c cycles between its steps: it is logged with mtime at entry, at the load
      and at mret, and arms the compare value an interval after the load. */
  lemma VisitIsLogged(m: nat, a: nat, b: nat, c: nat, interval: nat)
    ensures var t := Timer(m, m, Outside, []);
            var steps := [Trap] + Ticks(a) + ([LoadMtime] + Ticks(b)) + ([StoreCompare] + Ticks(c)) + [Return];
            && Initial(t)
            && Run(t, steps, FromNow, interval)
               == Timer(m + a + b + c, m + a + interval, Outside, [Visit(m, m + a, m + a + b + c)])
  {
    var t := Timer(m, m, Outside, []);
    var s1, s2, s3 := [Trap] + Ticks(a), [LoadMtime] + Ticks(b), [StoreCompare] + Ticks(c);
    var t1 := Timer(m + a, m, Entered(m), []);
    var t2 := Timer(m + a + b, m, Loaded(m, m + a), []);
    var t3 := Timer(m + a + b + c, m + a + interval, Armed(m, m + a), []);
    StepAndTicks(t, Trap, a, FromNow, interval);
    StepAndTicks(t1, LoadMtime, b, FromNow, interval);
    StepAndTicks(t2, StoreCompare, c, FromNow, interval);
    RunAppend(t, s1, s2, FromNow, interval);
    RunAppend(t, s1 + s2, s3, FromNow, interval);
    RunAppend(t, s1 + s2 + s3, [Return], FromNow, interval);
    RunOne(t3, Return, FromNow, interval);
  }

  // ----- what every run keeps --------------------------------------------------------------------

  /** A visit reads mtime between entry and exit, and the next trap is not taken before the compare
      value that this read armed. */
  predicate Spaced(log: seq<Visit>, interval: nat) {
    && (forall i | 0 <= i < |log| :: log[i].entry <= log[i].read <= log[i].exit)
    && (forall i | 0 < i < |log| :: log[i - 1].read + interval <= log[i].entry && log[i - 1].exit <= log[i].entry)
  }

  predicate Orderly(t: Timer, interval: nat) {
    && Spaced(t.log, interval)
    && (t.phase.Outside? && t.log != [] ==> t.log[|t.log| - 1].exit <= t.mtime)
    && (t.phase.Outside? && t.log != [] ==> t.mtimecmp == t.log[|t.log| - 1].read + interval)
    && (!t.phase.Outside? ==> t.phase.entry <= t.mtime)
    && (!t.phase.Outside? && t.log != [] ==>
          var last := t.log[|t.log| - 1]; last.read + interval <= t.phase.entry && last.exit <= t.phase.entry)
    && (t.phase.Loaded? || t.phase.Armed? ==> t.phase.entry <= t.phase.read <= t.mtime)
    && (t.phase.Armed? ==> t.mtimecmp == t.phase.read + interval)
  }

  lemma VisitKeepsSpacing(log: seq<Visit>, v: Visit, interval: nat)
    requires Spaced(log, interval) && v.entry <= v.read <= v.exit
    requires log != [] ==> log[|log| - 1].read + interval <= v.entry && log[|log| - 1].exit <= v.entry
    ensures Spaced(log + [v], interval)
  {
    var all := log + [v];
    forall i | 0 < i < |all|
      ensures all[i - 1].read + interval <= all[i].entry && all[i - 1].exit <= all[i].entry
    {
      if i < |log| {
        assert all[i - 1] == log[i - 1] && all[i] == log[i];
      }
    }
  }

  lemma StepKeepsOrder(t: Timer, step: Step, interval: nat)
    requires Orderly(t, interval) && Enabled(t, step)
    ensures Orderly(Next(t, step, FromNow, interval), interval)
  {
    if step.Return? {
      VisitKeepsSpacing(t.log, Visit(t.phase.entry, t.phase.read, t.mtime), interval);
    }
  }

  lemma {:induction false} RunKeepsOrder(t: Timer, steps: seq<Step>, interval: nat)
    requires Orderly(t, interval)
    ensures Orderly(Run(t, steps, FromNow, interval), interval)
    decreases |steps|
  {
    if steps != [] {
      if Enabled(t, steps[0]) {
        StepKeepsOrder(t, steps[0], interval);
        RunKeepsOrder(Next(t, steps[0], FromNow, interval), steps[1..], interval);
      } else {
        RunKeepsOrder(t, steps[1..], interval);
      }
    }
  }

  // ----- the promises of the absolute rearm ---------------------------------------------------------

  lemma {:induction false} ReadsFarApart(log: seq<Visit>, interval: nat, i: nat, j: nat)
    requires Spaced(log, interval)
    requires i <= j < |log|
    ensures log[i].read + (j - i) * interval <= log[j].read
    decreases j - i
  {
    if i < j {
      ReadsFarApart(log, interval, i, j - 1);
      assert log[j - 1].read + interval <= log[j].entry <= log[j].read;
      assert (j - i) * interval == (j - 1 - i) * interval + interval;
    }
  }

  /** In every run, any two timer traps load mtime values at least `interval` apart for each trap
      from one to the other. */
  lemma TrapsKeepTheirDistance(t: Timer, steps: seq<Step>, interval: nat, i: nat, j: nat)
    requires Initial(t)
    requires i <= j < |Run(t, steps, FromNow, interval).log|
    ensures var log := Run(t, steps, FromNow, interval).log;
            log[i].read + (j - i) * interval <= log[j].read
  {
    RunKeepsOrder(t, steps, interval);
    ReadsFarApart(Run(t, steps, FromNow, interval).log, interval, i, j);
  }

  /** In every run, the traps number i..j whose loads fall within a span of T cycles are at most
      T / interval + 1. */
  lemma TrapsPerSpan(t: Timer, steps: seq<Step>, interval: nat, i: nat, j: nat, span: nat)
    requires Initial(t) && interval > 0
    requires i <= j < |Run(t, steps, FromNow, interval).log|
    requires var log := Run(t, steps, FromNow, interval).log; log[j].read - log[i].read <= span
    ensures j - i + 1 <= span / interval + 1
  {
    TrapsKeepTheirDistance(t, steps, interval, i, j);
    QuotientBound(j - i, interval, span);
  }

  lemma QuotientBound(n: nat, d: nat, x: nat)
    requires d > 0 && n * d <= x
    ensures n <= x / d
  {
    assert x < (x / d + 1) * d;
    if n > x / d {
      Times(x / d + 1, n, d);
    }
  }

  lemma Times(a: nat, b: nat, d: nat)
    requires a <= b
    ensures a * d <= b * d
  {
    assert b * d == a * d + (b - a) * d;
  }

  /** mtime cycles spent outside the handler between the end of visit i and the start of visit j. */
  function OutsideTime(log: seq<Visit>, i: nat, j: nat): int
    requires i <= j < |log|
    decreases j - i
  {
    if i == j then 0 else OutsideTime(log, i, j - 1) + (log[j].entry - log[j - 1].exit)
  }

  /** mtime cycles spent inside it, in visits i to j - 1; the two together are the time from one entry to the
      other. */
  function InsideTime(log: seq<Visit>, i: nat, j: nat): int
    requires i <= j < |log|
    decreases j - i
  {
    if i == j then 0 else InsideTime(log, i, j - 1) + (log[j - 1].exit - log[j - 1].entry)
  }

  lemma {:induction false} InsideAndOutside(log: seq<Visit>, i: nat, j: nat)
    requires i <= j < |log|
    ensures InsideTime(log, i, j) + OutsideTime(log, i, j) == log[j].entry - log[i].entry
    decreases j - i
  {
    if i < j {
      InsideAndOutside(log, i, j - 1);
    }
  }

  lemma {:induction false} OutsideTimeAddsUp(log: seq<Visit>, interval: nat, cost: nat, i: nat, j: nat)
    requires Spaced(log, interval)
    requires forall k | 0 <= k < |log| :: log[k].exit - log[k].entry <= cost
    requires i <= j < |log|
    ensures (j - i) * (interval - cost) <= OutsideTime(log, i, j)
    decreases j - i
  {
    if i < j {
      OutsideTimeAddsUp(log, interval, cost, i, j - 1);
      assert log[j - 1].read + interval <= log[j].entry;
      assert interval - cost <= log[j].entry - log[j - 1].exit;
      assert (j - i) * (interval - cost) == (j - 1 - i) * (interval - cost) + (interval - cost);
    }
  }

  /** No livelock: when each visit costs at most `cost` cycles, every trap is followed by at least
      interval - cost cycles of other code before the next, however late the traps were taken. */
  lemma NoLivelock(t: Timer, steps: seq<Step>, interval: nat, cost: nat, i: nat, j: nat)
    requires Initial(t)
    requires var log := Run(t, steps, FromNow, interval).log;
             i <= j < |log| && forall k | 0 <= k < |log| :: log[k].exit - log[k].entry <= cost
    ensures (j - i) * (interval - cost) <= OutsideTime(Run(t, steps, FromNow, interval).log, i, j)
  {
    RunKeepsOrder(t, steps, interval);
    OutsideTimeAddsUp(Run(t, steps, FromNow, interval).log, interval, cost, i, j);
  }

  // ----- what upstream's relative rearm does --------------------------------------------------------

  const VISIT: seq<Step> := [Trap, LoadMtime, StoreCompare, Return]

  function Storm(n: nat): seq<Step> {
    if n == 0 then [] else VISIT + Storm(n - 1)
  }

  /** n traps, all of them entered and left in the very cycle `now`. */
  function Visits(now: nat, n: nat): seq<Visit> {
    if n == 0 then [] else [Visit(now, now, now)] + Visits(now, n - 1)
  }

  lemma OneVisit(t: Timer, rest: seq<Step>, interval: nat)
    requires t.phase.Outside? && t.mtimecmp <= t.mtime
    ensures Run(t, VISIT + rest, FromCompare, interval)
         == Run(t.(mtimecmp := t.mtimecmp + interval, log := t.log + [Visit(t.mtime, t.mtime, t.mtime)]),
                rest, FromCompare, interval)
  {
    var steps := VISIT + rest;
    var t1 := Next(t, Trap, FromCompare, interval);
    var t2 := Next(t1, LoadMtime, FromCompare, interval);
    var t3 := Next(t2, StoreCompare, FromCompare, interval);
    assert steps[1..][1..][1..][1..] == rest;
    assert Run(t, steps, FromCompare, interval) == Run(t1, steps[1..], FromCompare, interval);
    assert Run(t1, steps[1..], FromCompare, interval) == Run(t2, steps[1..][1..], FromCompare, interval);
    assert Run(t2, steps[1..][1..], FromCompare, interval) == Run(t3, steps[1..][1..][1..], FromCompare, interval);
  }

  /** The livelock that the port removed: after traps were held off for n intervals, upstream's
      handler is entered n times in a row with not one cycle of other code in between. */
  lemma {:induction false} UpstreamStorms(t: Timer, n: nat, interval: nat)
    requires t.phase.Outside? && t.mtimecmp + n * interval <= t.mtime
    ensures var end := Run(t, Storm(n), FromCompare, interval);
            end.mtime == t.mtime && end.log == t.log + Visits(t.mtime, n)
    decreases n
  {
    if n > 0 {
      assert n * interval == (n - 1) * interval + interval;
      OneVisit(t, Storm(n - 1), interval);
      var u := t.(mtimecmp := t.mtimecmp + interval, log := t.log + [Visit(t.mtime, t.mtime, t.mtime)]);
      UpstreamStorms(u, n - 1, interval);
      assert u.log + Visits(t.mtime, n - 1) == t.log + Visits(t.mtime, n);
    }
  }
}
