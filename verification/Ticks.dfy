/** Ticks from the machine timer to `clockintr`. A timer trap may come between any two supervisor
    instructions and pends a software interrupt; `devintr` of trap.c reads sip, writes it back
    without SSIP and then calls clockintr. */
module Ticks {
  import opened Basics

  /** Where the supervisor is in serving a software interrupt: not at all, before `r_sip`, between
      `r_sip` and `w_sip` with the value read, or between `w_sip` and the call of clockintr. */
  datatype Devintr = Idle | AtRead | AtWrite(sip: bv64) | AtClock

  /** `traps` and `calls` count the timer traps and the clockintr calls so far; `unserved` says
      whether a trap came after the last call. */
  datatype Pending = Pending(sip: bv64, at: Devintr, traps: nat, calls: nat, unserved: bool)

  datatype Step = TimerTrap | TakeInterrupt | Proceed

  const SSIP: bv64 := 2

  predicate Enabled(p: Pending, step: Step) {
    match step
    case TimerTrap => true
    case TakeInterrupt => p.at.Idle? && p.sip & SSIP != 0
    case Proceed => !p.at.Idle?
  }

  /** Writes to sip from S-mode change SSIP alone. */
  function WriteSip(sip: bv64, value: bv64): bv64 {
    (sip & !SSIP) | (value & SSIP)
  }

  function Next(p: Pending, step: Step): Pending
    requires Enabled(p, step)
  {
    match step
    case TimerTrap => p.(sip := WriteSip(p.sip, 2), traps := p.traps + 1, unserved := true)
    case TakeInterrupt => p.(at := AtRead)
    case Proceed =>
      match p.at
      case AtRead => p.(at := AtWrite(p.sip))
      case AtWrite(read) => p.(sip := WriteSip(p.sip, read & !SSIP), at := AtClock)
      case AtClock => p.(at := Idle, calls := p.calls + 1, unserved := false)
  }

  /** A step that is not enabled does not happen. */
  function Run(p: Pending, steps: seq<Step>): Pending
    decreases |steps|
  {
    if steps == [] then p
    else Run(if Enabled(p, steps[0]) then Next(p, steps[0]) else p, steps[1..])
  }

  predicate Initial(p: Pending) {
    p.at.Idle? && p.sip & SSIP == 0 && p.traps == 0 && p.calls == 0 && !p.unserved
  }

  lemma {:induction false} RunMore(p: Pending, steps: seq<Step>, step: Step)
    ensures var q := Run(p, steps); Run(p, steps + [step]) == if Enabled(q, step) then Next(q, step) else q
    decreases |steps|
  {
    var all := steps + [step];
    if steps == [] {
      assert all == [step] && all[1..] == [];
    } else {
      assert all[1..] == steps[1..] + [step];
      RunMore(if Enabled(p, steps[0]) then Next(p, steps[0]) else p, steps[1..], step);
    }
  }

  /** A timer trap of this run came after the last call of clockintr in it. */
  ghost predicate TrapSinceCall(p: Pending, steps: seq<Step>) {
    exists k | 0 <= k < |steps| :: steps[k].TimerTrap? && Run(p, steps[..k]).calls == Run(p, steps).calls
  }

  lemma CallsOfPrefix(p: Pending, steps: seq<Step>, k: nat)
    requires k <= |steps|
    ensures Run(p, steps[..k]).calls <= Run(p, steps).calls
    decreases |steps|
  {
    if k == |steps| {
      assert steps[..k] == steps;
    } else {
      var most, last := steps[..|steps| - 1], steps[|steps| - 1];
      assert steps == most + [last] && most[..k] == steps[..k];
      CallsOfPrefix(p, most, k);
      RunMore(p, most, last);
    }
  }

  /** That is what `unserved` stands for. */
  lemma {:induction false} UnservedMeans(p: Pending, steps: seq<Step>)
    requires Initial(p)
    ensures Run(p, steps).unserved <==> TrapSinceCall(p, steps)
    decreases |steps|
  {
    if steps != [] {
      var most, last := steps[..|steps| - 1], steps[|steps| - 1];
      assert steps == most + [last];
      UnservedMeans(p, most);
      RunMore(p, most, last);
      var before, after := Run(p, most), Run(p, steps);
      if last.TimerTrap? {
        assert steps[|steps| - 1].TimerTrap? && steps[..|steps| - 1] == most;
      } else if after.calls == before.calls {
        if TrapSinceCall(p, most) {
          var k :| 0 <= k < |most| && most[k].TimerTrap? && Run(p, most[..k]).calls == before.calls;
          assert steps[k] == most[k] && steps[..k] == most[..k];
        }
        if TrapSinceCall(p, steps) {
          var k :| 0 <= k < |steps| && steps[k].TimerTrap? && Run(p, steps[..k]).calls == after.calls;
          assert steps[k] == most[k] && steps[..k] == most[..k];
        }
      } else {
        forall k | 0 <= k < |steps| && steps[k].TimerTrap? ensures Run(p, steps[..k]).calls != after.calls {
          assert steps[..k] == most[..k];
          CallsOfPrefix(p, most, k);
        }
      }
    }
  }

  /** How many steps of the supervisor a run has: steps other than timer traps that are enabled. */
  function Steps(p: Pending, steps: seq<Step>): nat
    decreases |steps|
  {
    if steps == [] then 0
    else if Enabled(p, steps[0]) then
      One(!steps[0].TimerTrap?) + Steps(Next(p, steps[0]), steps[1..])
    else Steps(p, steps[1..])
  }

  /** One tick from beginning to end: the trap sets SSIP, the supervisor takes the interrupt, clears SSIP and
      calls clockintr. */
  lemma OneTick()
    ensures var p := Pending(0, Idle, 0, 0, false);
            Initial(p) && Run(p, [TimerTrap, TakeInterrupt, Proceed, Proceed, Proceed]) == Pending(0, Idle, 1, 1, false)
  {
    var p := Pending(0, Idle, 0, 0, false);
    RunMore(p, [], TimerTrap);
    RunMore(p, [TimerTrap], TakeInterrupt);
    RunMore(p, [TimerTrap, TakeInterrupt], Proceed);
    RunMore(p, [TimerTrap, TakeInterrupt, Proceed], Proceed);
    RunMore(p, [TimerTrap, TakeInterrupt, Proceed, Proceed], Proceed);
    assert [] + [TimerTrap] == [TimerTrap];
    assert [TimerTrap] + [TakeInterrupt] == [TimerTrap, TakeInterrupt];
    assert [TimerTrap, TakeInterrupt] + [Proceed] == [TimerTrap, TakeInterrupt, Proceed];
    assert [TimerTrap, TakeInterrupt, Proceed] + [Proceed] == [TimerTrap, TakeInterrupt, Proceed, Proceed];
    assert [TimerTrap, TakeInterrupt, Proceed, Proceed] + [Proceed]
        == [TimerTrap, TakeInterrupt, Proceed, Proceed, Proceed];
  }

  /** Its four steps after the trap are the supervisor's. */
  lemma OneTickSteps()
    ensures Steps(Pending(0, Idle, 0, 0, false), [TimerTrap, TakeInterrupt, Proceed, Proceed, Proceed]) == 4
  {
    var p0 := Pending(0, Idle, 0, 0, false);
    var p1 := Next(p0, TimerTrap);
    var p2 := Next(p1, TakeInterrupt);
    var p3 := Next(p2, Proceed);
    var p4 := Next(p3, Proceed);
    assert [Proceed][1..] == [] && Steps(p4, [Proceed]) == 1;
    assert [Proceed, Proceed][1..] == [Proceed] && Steps(p3, [Proceed, Proceed]) == 2;
    assert [Proceed, Proceed, Proceed][1..] == [Proceed, Proceed] && Steps(p2, [Proceed, Proceed, Proceed]) == 3;
    var four := [TakeInterrupt, Proceed, Proceed, Proceed];
    assert four[1..] == [Proceed, Proceed, Proceed] && Steps(p1, four) == 4;
    assert [TimerTrap, TakeInterrupt, Proceed, Proceed, Proceed][1..] == four;
  }

  predicate Set(p: Pending) {
    p.sip & SSIP != 0
  }

  /** What every reachable state satisfies: an unserved trap is still pending or about to be served,
      and clockintr has not been called more often than there were traps to serve. */
  predicate Accounted(p: Pending) {
    && (p.unserved ==> Set(p) || p.at.AtClock?)
    && (p.at.AtRead? || p.at.AtWrite? ==> Set(p))
    && p.calls + One(Set(p)) + One(p.at.AtClock?) <= p.traps
  }

  lemma SipBit(sip: bv64, value: bv64)
    ensures WriteSip(sip, value) & SSIP == value & SSIP
    ensures (value & !SSIP) & SSIP == 0
  {
  }

  lemma StepAccounts(p: Pending, step: Step)
    requires Accounted(p) && Enabled(p, step)
    ensures Accounted(Next(p, step))
  {
    match step
    case TimerTrap => SipBit(p.sip, 2);
    case TakeInterrupt =>
    case Proceed =>
      if p.at.AtWrite? {
        SipBit(p.sip, p.at.sip & !SSIP);
        SipBit(p.sip, p.at.sip);
      }
  }

  lemma {:induction false} RunAccounts(p: Pending, steps: seq<Step>)
    requires Accounted(p)
    ensures Accounted(Run(p, steps))
    decreases |steps|
  {
    if steps != [] {
      if Enabled(p, steps[0]) {
        StepAccounts(p, steps[0]);
        RunAccounts(Next(p, steps[0]), steps[1..]);
      } else {
        RunAccounts(p, steps[1..]);
      }
    }
  }

  /** Ticks may be merged but are never lost: in every interleaving, a trap after the last clockintr
      leaves SSIP set or devintr between its write of sip and its call of clockintr, and clockintr
      never runs more often than the timer trapped. */
  lemma TicksAreNeverLost(p: Pending, steps: seq<Step>)
    requires Initial(p)
    ensures var q := Run(p, steps); q.unserved ==> Set(q) || q.at.AtClock?
    ensures Run(p, steps).calls <= Run(p, steps).traps
  {
    RunAccounts(p, steps);
  }

  /** How many steps the supervisor is from having called clockintr. */
  function Rank(at: Devintr): nat {
    match at case Idle => 4 case AtRead => 3 case AtWrite(_) => 2 case AtClock => 1
  }

  /** With a trap unserved, every step of the supervisor brings the call nearer, and one is possible. */
  lemma StepServes(q: Pending, step: Step)
    requires Accounted(q) && q.unserved && Enabled(q, step)
    ensures var n := Next(q, step);
            if step.TimerTrap? then n.unserved && n.calls == q.calls && Rank(n.at) == Rank(q.at)
            else if q.at.AtClock? then n.calls == q.calls + 1
            else n.unserved && n.calls == q.calls && Rank(n.at) + 1 == Rank(q.at)
    ensures Enabled(q, TakeInterrupt) || Enabled(q, Proceed)
  {
  }

  lemma {:induction false} CallsGrow(p: Pending, steps: seq<Step>)
    ensures Run(p, steps).calls >= p.calls
    decreases |steps|
  {
    if steps != [] {
      CallsGrow(if Enabled(p, steps[0]) then Next(p, steps[0]) else p, steps[1..]);
    }
  }

  lemma {:induction false} Serve(q: Pending, steps: seq<Step>)
    requires Accounted(q) && q.unserved && Steps(q, steps) >= Rank(q.at)
    ensures Run(q, steps).calls > q.calls
    decreases |steps|
  {
    if Enabled(q, steps[0]) {
      StepServes(q, steps[0]);
      StepAccounts(q, steps[0]);
      if q.at.AtClock? && !steps[0].TimerTrap? {
        CallsGrow(Next(q, steps[0]), steps[1..]);
      } else {
        Serve(Next(q, steps[0]), steps[1..]);
      }
    } else {
      Serve(q, steps[1..]);
    }
  }

  /** From every reachable state, an unserved trap reaches clockintr within four steps of the supervisor,
      however many timer traps come between them, and until then the supervisor always has a step to
      take. */
  lemma UnservedIsServed(p: Pending, steps: seq<Step>, more: seq<Step>)
    requires Initial(p) && Run(p, steps).unserved
    ensures var q := Run(p, steps);
            && (Steps(q, more) >= 4 ==> Run(q, more).calls > q.calls)
            && (Enabled(q, TakeInterrupt) || Enabled(q, Proceed))
  {
    RunAccounts(p, steps);
    var q := Run(p, steps);
    StepServes(q, TimerTrap);
    if Steps(q, more) >= 4 {
      Serve(q, more);
    }
  }
}
