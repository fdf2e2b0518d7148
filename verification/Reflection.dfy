/** Software reflection does what hardware delegation would have done. A hart whose medeleg keeps an
    exception in M, with timervec behind mtvec, cannot be told apart by user and supervisor code
    from a hart that delegates it, over whole runs with timer traps in between. */
module Reflection {
  import opened HartModel
  import opened TimervecModel

  /** mret of v1.12 clears MPRV, which a delegated trap never does; older cores leave it alone. */
  predicate MprvSafe(h: Hart, clearsMprv: bool) {
    clearsMprv ==> !h.mstatus.mprv
  }

  // ----- one trap -------------------------------------------------------------------------------

  /** Trapping into M and running the handler shows user and supervisor code exactly what a
      delegated exception would have shown them, for every value of mstatus and stvec, if and only
      if mret leaves MPRV as it was. */
  lemma ReflectionIsDelegation(h: Hart, cause: Word, tval: Word, clearsMprv: bool)
    requires h.mode == User || h.mode == Supervisor
    requires !IsInterrupt(cause)
    ensures Observe(Handled(TrapIntoM(h, cause, tval), clearsMprv)) == Observe(TrapIntoS(h, cause, tval))
            <==> MprvSafe(h, clearsMprv)
    ensures ScratchReady(h) ==> ScratchReady(Handled(TrapIntoM(h, cause, tval), clearsMprv))
  {
    var m := TrapIntoM(h, cause, tval);
    assert Origin(m.mstatus) == h.mode;
    assert Served(m) == Reflect(m);
  }

  /** The timer path is transparent: it shows the interrupted code nothing but the pending software
      interrupt and the new compare value, interval cycles after the mtime it read. */
  lemma TimerIsTransparent(h: Hart, clearsMprv: bool)
    requires h.mode == User || h.mode == Supervisor
    requires MprvSafe(h, clearsMprv)
    ensures Observe(Handled(TrapIntoM(h, TIMER_CAUSE, W(0)), clearsMprv))
         == Observe(h).(ssip := true, mtimecmp := Sum(h.kept.mtime, h.scratch.interval))
    ensures ScratchReady(h) ==> ScratchReady(Handled(TrapIntoM(h, TIMER_CAUSE, W(0)), clearsMprv))
  {
    var m := TrapIntoM(h, TIMER_CAUSE, W(0));
    assert IsTimer(TIMER_CAUSE);
    assert Served(m) == ServeTimer(m);
  }

  // ----- runs -----------------------------------------------------------------------------------

  /** What user or supervisor code does next, as far as it can tell where it is: go on in a new
      view (this includes taking an S-mode interrupt, which needs no M-mode trap) or raise an
      exception. */
  datatype Outcome = Continue(next: View) | Raise(cause: Word, tval: Word)

  /** At each point of a run code makes its move or the machine timer goes off at `now`. Every move has
      code of its own, so that what the host or a device does to memory in between is a move as well. */
  datatype Event = Move(code: View -> Outcome) | TimerTrap(now: Word)

  /** The part of a view that code can really change: not the machine-only bits of mstatus, mtime, the
      vectors of M-mode or the place of the scratch area. The kernel maps the CLINT writable, so mtimecmp
      is among what it can change. */
  function Adopt(h: Hart, v: View): Hart {
    var mode := if v.mode == User then User else Supervisor;
    h.(a0 := v.a0, a1 := v.a1, a2 := v.a2, a3 := v.a3, pc := v.pc, mode := mode, strap := v.strap, ssip := v.ssip,
       mtimecmp := v.mtimecmp,
       mstatus := h.mstatus.(sie := v.status.sie, spie := v.status.spie, spp := v.status.spp, shown := v.status.shown),
       kept := v.kept.(mtie := h.kept.mtie, mtvec := h.kept.mtvec, scratchBase := h.kept.scratchBase,
                       mtime := h.kept.mtime))
  }

  /** Bit `cause` of medeleg. */
  predicate Delegates(medeleg: bv64, cause: Word) {
    cause.v < 64 && (medeleg >> cause.v) & 1 == 1
  }

  /** An exception raised below M: by hardware into S when delegated, else through timervec. */
  function Except(h: Hart, medeleg: bv64, cause: Word, tval: Word, clearsMprv: bool): Hart {
    if Delegates(medeleg, cause) then TrapIntoS(h, cause, tval)
    else Handled(TrapIntoM(h, cause, tval), clearsMprv)
  }

  /** A machine timer trap whose handler reads `now` from mtime. */
  function Tick(h: Hart, now: Word, clearsMprv: bool): Hart {
    Handled(TrapIntoM(h.(kept := h.kept.(mtime := now)), TIMER_CAUSE, W(0)), clearsMprv)
  }

  function Step(h: Hart, medeleg: bv64, event: Event, clearsMprv: bool): Hart {
    match event
    case TimerTrap(now) => Tick(h, now, clearsMprv)
    case Move(code) => Obey(h, medeleg, code(Observe(h)), clearsMprv)
  }

  /** Carrying out what the code wants; an exception code has the interrupt bit clear. */
  function Obey(h: Hart, medeleg: bv64, outcome: Outcome, clearsMprv: bool): Hart {
    match outcome
    case Continue(v) => Adopt(h, v)
    case Raise(cause, tval) => Except(h, medeleg, W(cause.v & !INTERRUPT), tval, clearsMprv)
  }

  function Run(h: Hart, medeleg: bv64, events: seq<Event>, clearsMprv: bool): Hart
    decreases |events|
  {
    if |events| == 0 then h
    else Run(Step(h, medeleg, events[0], clearsMprv), medeleg, events[1..], clearsMprv)
  }

  /** The states that runs of user and supervisor code go through between M-mode traps. */
  predicate Between(h: Hart, clearsMprv: bool) {
    (h.mode == User || h.mode == Supervisor) && ScratchReady(h) && MprvSafe(h, clearsMprv)
  }

  /** Two harts that user and supervisor code cannot tell apart, with the same timer interval. */
  predicate Paired(h: Hart, k: Hart, clearsMprv: bool) {
    && Between(h, clearsMprv) && Between(k, clearsMprv)
    && Observe(h) == Observe(k) && h.scratch.interval == k.scratch.interval
  }

  lemma ExceptAlike(h: Hart, k: Hart, hDeleg: bv64, kDeleg: bv64, cause: Word, tval: Word, clearsMprv: bool)
    requires Paired(h, k, clearsMprv)
    requires !IsInterrupt(cause)
    ensures var h', k' := Except(h, hDeleg, cause, tval, clearsMprv), Except(k, kDeleg, cause, tval, clearsMprv);
            Paired(h', k', clearsMprv)
  {
    ReflectionIsDelegation(h, cause, tval, clearsMprv);
    ReflectionIsDelegation(k, cause, tval, clearsMprv);
    assert Observe(TrapIntoS(h, cause, tval)) == Observe(TrapIntoS(k, cause, tval));
  }

  lemma TimerAlike(h: Hart, k: Hart, now: Word, clearsMprv: bool)
    requires Paired(h, k, clearsMprv)
    ensures var h', k' := Tick(h, now, clearsMprv), Tick(k, now, clearsMprv);
            Paired(h', k', clearsMprv)
  {
    TimerIsTransparent(h.(kept := h.kept.(mtime := now)), clearsMprv);
    TimerIsTransparent(k.(kept := k.kept.(mtime := now)), clearsMprv);
  }

  lemma AdoptAlike(h: Hart, k: Hart, v: View, clearsMprv: bool)
    requires Paired(h, k, clearsMprv)
    ensures var h', k' := Adopt(h, v), Adopt(k, v);
            Paired(h', k', clearsMprv)
  {
  }

  lemma ObeyAlike(h: Hart, k: Hart, hDeleg: bv64, kDeleg: bv64, outcome: Outcome, clearsMprv: bool)
    requires Paired(h, k, clearsMprv)
    ensures Paired(Obey(h, hDeleg, outcome, clearsMprv), Obey(k, kDeleg, outcome, clearsMprv), clearsMprv)
  {
    match outcome
    case Continue(v) => AdoptAlike(h, k, v, clearsMprv);
    case Raise(cause, tval) => ExceptAlike(h, k, hDeleg, kDeleg, W(cause.v & !INTERRUPT), tval, clearsMprv);
  }

  lemma StepAlike(h: Hart, k: Hart, hDeleg: bv64, kDeleg: bv64, event: Event, clearsMprv: bool)
    requires Paired(h, k, clearsMprv)
    ensures Paired(Step(h, hDeleg, event, clearsMprv), Step(k, kDeleg, event, clearsMprv), clearsMprv)
  {
    match event
    case TimerTrap(now) => TimerAlike(h, k, now, clearsMprv);
    case Move(code) => ObeyAlike(h, k, hDeleg, kDeleg, code(Observe(h)), clearsMprv);
  }

  /** The simulation theorem: whatever the two medeleg masks are, whatever the code does at each move and
      whenever the timer goes off, the two harts look the same after every run. */
  lemma {:induction false} RunsAlike(h: Hart, k: Hart, hDeleg: bv64, kDeleg: bv64, events: seq<Event>,
                                     clearsMprv: bool)
    requires Paired(h, k, clearsMprv)
    ensures Paired(Run(h, hDeleg, events, clearsMprv), Run(k, kDeleg, events, clearsMprv), clearsMprv)
    decreases |events|
  {
    if |events| != 0 {
      StepAlike(h, k, hDeleg, kDeleg, events[0], clearsMprv);
      RunsAlike(Step(h, hDeleg, events[0], clearsMprv), Step(k, kDeleg, events[0], clearsMprv),
                hDeleg, kDeleg, events[1..], clearsMprv);
    }
  }

  // ----- what each event of a run does -------------------------------------------------------------

  lemma {:induction false} RunMore(h: Hart, medeleg: bv64, events: seq<Event>, event: Event, clearsMprv: bool)
    ensures Run(h, medeleg, events + [event], clearsMprv)
         == Step(Run(h, medeleg, events, clearsMprv), medeleg, event, clearsMprv)
    decreases |events|
  {
    var all := events + [event];
    if |events| == 0 {
      assert all == [event];
      assert Run(Step(h, medeleg, event, clearsMprv), medeleg, all[1..], clearsMprv)
          == Step(h, medeleg, event, clearsMprv);
    } else {
      assert all[1..] == events[1..] + [event];
      RunMore(Step(h, medeleg, events[0], clearsMprv), medeleg, events[1..], event, clearsMprv);
    }
  }

  lemma RunStaysBetween(h: Hart, medeleg: bv64, events: seq<Event>, clearsMprv: bool)
    requires Between(h, clearsMprv)
    ensures Between(Run(h, medeleg, events, clearsMprv), clearsMprv)
    ensures Run(h, medeleg, events, clearsMprv).scratch.interval == h.scratch.interval
  {
    RunsAlike(h, h, medeleg, medeleg, events, clearsMprv);
    IntervalStays(h, medeleg, events, clearsMprv);
  }

  lemma {:induction false} IntervalStays(h: Hart, medeleg: bv64, events: seq<Event>, clearsMprv: bool)
    ensures Run(h, medeleg, events, clearsMprv).scratch.interval == h.scratch.interval
    decreases |events|
  {
    if |events| != 0 {
      IntervalStays(Step(h, medeleg, events[0], clearsMprv), medeleg, events[1..], clearsMprv);
    }
  }

  /** A timer trap at any point of any run, with any mask, pends the software interrupt and arms the next
      compare value one interval after the mtime it reads; code sees nothing else change. */
  lemma TimerTrapInRun(h: Hart, medeleg: bv64, events: seq<Event>, now: Word, clearsMprv: bool)
    requires Between(h, clearsMprv)
    ensures var g := Run(h, medeleg, events, clearsMprv);
            Observe(Run(h, medeleg, events + [TimerTrap(now)], clearsMprv))
            == Observe(g).(ssip := true, mtimecmp := W(now.v + h.scratch.interval.v),
                           kept := g.kept.(mtime := now))
    ensures Run(h, medeleg, events + [TimerTrap(now)], clearsMprv).mtrap.cause == W(0x8000_0000_0000_0007)
  {
    RunMore(h, medeleg, events, TimerTrap(now), clearsMprv);
    RunStaysBetween(h, medeleg, events, clearsMprv);
    var g := Run(h, medeleg, events, clearsMprv);
    TimerIsTransparent(g.(kept := g.kept.(mtime := now)), clearsMprv);
  }

  /** What code must see after an exception: it is in S-mode at the base of stvec, with cause, address and
      value in the S-mode trap registers, the mode it came from in SPP and SIE moved to SPIE. */
  function Trapped(v: View, cause: Word, tval: Word): View {
    v.(pc := VectorBase(v.kept.stvec), mode := Supervisor, strap := Trap(cause, v.pc, tval),
       status := v.status.(spp := v.mode == Supervisor, spie := v.status.sie, sie := false))
  }

  lemma StatusShows(m: Status, mode: Mode)
    ensures Shown(StatusIntoS(m, mode)) == Shown(m).(spp := mode == Supervisor, spie := m.sie, sie := false)
  {
  }

  /** The base of stvec is the register without its two mode bits: a multiple of 4 at most 3 below. */
  lemma BaseOf(stvec: Word)
    ensures VectorBase(stvec).v & 3 == 0 && VectorBase(stvec).v | (stvec.v & 3) == stvec.v
  {
  }

  lemma DelegatedShows(h: Hart, cause: Word, tval: Word)
    ensures Observe(TrapIntoS(h, cause, tval)) == Trapped(Observe(h), cause, tval)
    ensures TrapIntoS(h, cause, tval).mtrap == h.mtrap
  {
    StatusShows(h.mstatus, h.mode);
  }

  lemma ReflectedKeepsCause(h: Hart, cause: Word, tval: Word, clearsMprv: bool)
    requires !IsInterrupt(cause)
    ensures Handled(TrapIntoM(h, cause, tval), clearsMprv).mtrap.cause == cause
  {
  }

  /** An exception at any point of any run shows code exactly that, with any mask. It goes through M-mode,
      where mcause keeps the cause, exactly if its bit of medeleg is clear; a delegated one leaves the
      machine trap registers alone. */
  lemma ExceptionInRun(h: Hart, medeleg: bv64, events: seq<Event>, code: View -> Outcome, cause: Word, tval: Word,
                       clearsMprv: bool)
    requires Between(h, clearsMprv) && cause.v < 64
    requires code(Observe(Run(h, medeleg, events, clearsMprv))) == Raise(cause, tval)
    ensures var g := Run(h, medeleg, events, clearsMprv);
            var after := Run(h, medeleg, events + [Move(code)], clearsMprv);
            && Observe(after) == Trapped(Observe(g), cause, tval)
            && if (medeleg >> cause.v) & 1 == 1 then after.mtrap == g.mtrap else after.mtrap.cause == cause
  {
    RunMore(h, medeleg, events, Move(code), clearsMprv);
    RunStaysBetween(h, medeleg, events, clearsMprv);
    CodeStays(cause);
    OneException(Run(h, medeleg, events, clearsMprv), medeleg, cause, tval, clearsMprv);
  }

  lemma CodeStays(cause: Word)
    requires cause.v < 64
    ensures cause.v & !INTERRUPT == cause.v && !IsInterrupt(cause)
  {
  }

  lemma OneException(g: Hart, medeleg: bv64, cause: Word, tval: Word, clearsMprv: bool)
    requires Between(g, clearsMprv) && cause.v < 64 && !IsInterrupt(cause)
    ensures var after := Except(g, medeleg, cause, tval, clearsMprv);
            && Observe(after) == Trapped(Observe(g), cause, tval)
            && if (medeleg >> cause.v) & 1 == 1 then after.mtrap == g.mtrap else after.mtrap.cause == cause
  {
    DelegatedShows(g, cause, tval);
    ReflectionIsDelegation(g, cause, tval, clearsMprv);
    ReflectedKeepsCause(g, cause, tval, clearsMprv);
  }

  /** What code may write: not what only M-mode can. */
  predicate Writable(now: View, next: View) {
    && (next.mode == User || next.mode == Supervisor)
    && next.status.mie == now.status.mie && next.status.mprv == now.status.mprv
    && next.status.hidden == now.status.hidden && next.status == Shown(next.status)
    && next.kept.mtie == now.kept.mtie && next.kept.mtvec == now.kept.mtvec
    && next.kept.scratchBase == now.kept.scratchBase && next.kept.mtime == now.kept.mtime
  }

  /** Registers, mode, SSIP, the trap registers of S-mode and mtimecmp are free to write. */
  lemma FreeToWrite(h: Hart, a0: Word, a1: Word, pc: Word, mode: Mode, strap: Trap, ssip: bool, mtimecmp: Word)
    requires mode == User || mode == Supervisor
    ensures var v := Observe(h);
            Writable(v, v.(a0 := a0, a1 := a1, pc := pc, mode := mode, strap := strap, ssip := ssip,
                           mtimecmp := mtimecmp))
  {
  }

  /** A move that writes no more than that has exactly the effect it wants, at any point of any run. */
  lemma MoveInRun(h: Hart, medeleg: bv64, events: seq<Event>, code: View -> Outcome, v: View, clearsMprv: bool)
    requires code(Observe(Run(h, medeleg, events, clearsMprv))) == Continue(v)
    requires Writable(Observe(Run(h, medeleg, events, clearsMprv)), v)
    ensures Observe(Run(h, medeleg, events + [Move(code)], clearsMprv)) == v
  {
    RunMore(h, medeleg, events, Move(code), clearsMprv);
  }

  // ----- the masks of this port -------------------------------------------------------------------

  /** start.c asks for every exception; the core stores only the delegable ones. */
  const ASKED: bv64 := 0xffff
  const DELEGABLE: bv64 := (1 << 0) | (1 << 3) | (1 << 8) | (1 << 12) | (1 << 13) | (1 << 15)
  const STORED: bv64 := ASKED & DELEGABLE

  lemma StoredMask()
    ensures STORED == 0xB109
    ensures !Delegates(STORED, W(2)) && Delegates(ASKED, W(2))
  {
  }

  /** Machine mode with the scratch area ready and about to leave for a lower mode, as start.c is. */
  predicate AboutToBoot(h: Hart) {
    ScratchReady(h) && (h.mstatus.mpp == User || h.mstatus.mpp == Supervisor)
  }

  /** Every return to a lower mode makes MPRV safe, whatever it was in machine mode. */
  lemma MretMakesMprvSafe(h: Hart, clearsMprv: bool)
    requires AboutToBoot(h)
    ensures Between(Mret(h, clearsMprv), clearsMprv)
  {
  }

  /** The port's hart against one that delegates everything start.c asked for, from the mret that ends
      start.c on. No such run reaches a state in which mret would change MPRV. */
  lemma PortLooksDelegated(boot: Hart, events: seq<Event>, clearsMprv: bool)
    requires AboutToBoot(boot)
    ensures var h := Mret(boot, clearsMprv);
            && Observe(Run(h, STORED, events, clearsMprv)) == Observe(Run(h, ASKED, events, clearsMprv))
            && MprvSafe(Run(h, STORED, events, clearsMprv), clearsMprv)
            && MprvSafe(Run(h, ASKED, events, clearsMprv), clearsMprv)
  {
    var h := Mret(boot, clearsMprv);
    MretMakesMprvSafe(boot, clearsMprv);
    RunsAlike(h, h, STORED, ASKED, events, clearsMprv);
  }

  /** The end of start.c: the mode and the address to leave for, timerinit, and mret. What it leaves is a
      state from which the simulation starts. */
  method Boot(core: Core, main: Word, timervec: Word)
    modifies core
    ensures Between(core.State(), core.clearsMprv)
    ensures core.mode == Supervisor && core.pc == main && core.kept.mtvec == timervec && core.kept.mtie
    ensures core.mtimecmp == W(core.kept.mtime.v + 25000) && core.scratch.interval == W(25000)
    ensures core.scratch.cmp == W(0x0200_4000) && core.scratch.time == W(0x0200_BFF8)
  {
    core.mstatus := core.mstatus.(mpp := Supervisor);
    core.mtrap := core.mtrap.(epc := main);
    core.TimerInit(timervec);
    ghost var h := core.State();
    MretMakesMprvSafe(h, core.clearsMprv);
    core.MretHere();
    assert core.State() == Mret(h, core.clearsMprv);
  }
}
