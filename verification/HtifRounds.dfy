/** The console at work: host and target can carry any typed text to the end. */
module HtifRounds {
  import opened HtifProtocol
  import opened HtifReads

  lemma {:induction false} TraceAppend(s: Sys, a: seq<Step>, b: seq<Step>, replies: seq<Word>)
    ensures Trace(s, a + b, replies) == Trace(Trace(s, a, replies), b, replies)
    decreases |a|
  {
    if a == [] {
      assert a + b == b;
    } else {
      assert (a + b)[1..] == a[1..] + b;
      TraceAppend(if Enabled(s, a[0], replies) then Next(s, a[0], replies) else s, a[1..], b, replies);
    }
  }

  lemma TraceOne(s: Sys, step: Step, replies: seq<Word>)
    requires Enabled(s, step, replies)
    ensures Trace(s, [step], replies) == Next(s, step, replies)
  {
    assert [step][1..] == [];
  }

  /** One more step at the end of a trace. */
  lemma Then(s: Sys, steps: seq<Step>, t: Sys, step: Step, replies: seq<Word>) returns (more: seq<Step>, u: Sys)
    requires Trace(s, steps, replies) == t && Enabled(t, step, replies)
    ensures u == Next(t, step, replies) && Trace(s, more, replies) == u
  {
    more, u := steps + [step], Next(t, step, replies);
    TraceAppend(s, steps, [step], replies);
    TraceOne(t, step, replies);
  }

  /** One more step of the activity on top. */
  lemma ThenRun(s: Sys, steps: seq<Step>, t: Sys, replies: seq<Word>) returns (more: seq<Step>, u: Sys)
    requires Trace(s, steps, replies) == t && t.stack != []
    ensures u == RunNext(t) && Trace(s, more, replies) == u
  {
    more, u := Then(s, steps, t, Run, replies);
  }

  // ----- one round ----------------------------------------------------------------------------------

  /** Nothing is under way at the host but this many reads, and it has answered so many. */
  predicate HostAt(h: Host, asked: nat, used: nat) {
    h.hands == Idle && h.asked == asked && h.answer == [] && !h.armed && h.used == used
  }

  /** Between two uartintrs, with a read outstanding and the first n characters delivered. */
  predicate Waiting(s: Sys, chars: seq<bv64>, n: nat)
    requires n <= |chars|
  {
    && s.stack == [] && s.link == Link(ZERO, ZERO, true) && HostAt(s.host, 1, n) && s.log.delivered == chars[..n]
  }

  /** A uartintr is about to poll, with nothing outstanding. */
  predicate Polling(s: Sys, used: nat, delivered: seq<bv64>) {
    && |s.stack| == 1 && s.stack[0].intr && s.stack[0].pc == Poll
    && s.link == Link(ZERO, ZERO, false) && HostAt(s.host, 0, used) && s.log.delivered == delivered
  }

  lemma PollFindsNothing(s: Sys, steps: seq<Step>, t: Sys, replies: seq<Word>, used: nat, delivered: seq<bv64>)
    returns (more: seq<Step>, u: Sys)
    requires Trace(s, steps, replies) == t && Polling(t, used, delivered)
    ensures Trace(s, more, replies) == u
    ensures |u.stack| == 1 && u.stack[0].intr && u.stack[0].pc == Wait(READ)
    ensures u.link == t.link && u.host == t.host && u.log == t.log
  {
    RunsPoll(t);
    more, u := ThenRun(s, steps, t, replies);
    assert u.stack[0].pc == CheckPending;
    RunsCheckPending(u);
    more, u := ThenRun(s, more, u, replies);
  }

  lemma ReadIsReady(s: Sys, steps: seq<Step>, t: Sys, replies: seq<Word>) returns (more: seq<Step>, u: Sys)
    requires Trace(s, steps, replies) == t && t.link == Link(ZERO, ZERO, false)
    requires |t.stack| == 1 && t.stack[0].intr && t.stack[0].pc == Wait(READ)
    ensures Trace(s, more, replies) == u
    ensures |u.stack| == 1 && u.stack[0].intr && u.stack[0].pc == Store(READ)
    ensures u.link == t.link && u.host == t.host && u.log == t.log
  {
    RunsWait(t);
    more, u := ThenRun(s, steps, t, replies);
  }

  lemma ReadIsStored(s: Sys, steps: seq<Step>, t: Sys, replies: seq<Word>) returns (more: seq<Step>, u: Sys)
    requires Trace(s, steps, replies) == t && t.link == Link(ZERO, ZERO, false)
    requires |t.stack| == 1 && t.stack[0].intr && t.stack[0].pc == Store(READ)
    ensures Trace(s, more, replies) == u
    ensures |u.stack| == 1 && u.stack[0].intr && u.stack[0].pc.Drain?
    ensures u.link == Link(READ, ZERO, false) && u.host == t.host && u.log.delivered == t.log.delivered
  {
    RunsStore(t);
    more, u := ThenRun(s, steps, t, replies);
  }

  lemma ReadIsTaken(s: Sys, steps: seq<Step>, t: Sys, replies: seq<Word>, used: nat)
    returns (more: seq<Step>, u: Sys)
    requires Trace(s, steps, replies) == t && t.link == Link(READ, ZERO, false) && HostAt(t.host, 0, used)
    ensures Trace(s, more, replies) == u
    ensures u.link == Link(ZERO, ZERO, false) && HostAt(u.host, 1, used) && u.stack == t.stack && u.log == t.log
  {
    WriteWords(0);
    more, u := Then(s, steps, t, HostLatch, replies);
    more, u := Then(s, more, u, HostZero, replies);
    more, u := Then(s, more, u, HostAct, replies);
  }

  lemma SendReturns(s: Sys, steps: seq<Step>, t: Sys, replies: seq<Word>) returns (more: seq<Step>, u: Sys)
    requires Trace(s, steps, replies) == t && t.link == Link(ZERO, ZERO, false)
    requires |t.stack| == 1 && t.stack[0].intr && t.stack[0].pc.Drain?
    ensures Trace(s, more, replies) == u
    ensures u.link == Link(ZERO, ZERO, true) && u.stack == [] && u.host == t.host && u.log.delivered == t.log.delivered
  {
    RunsDrain(t);
    more, u := ThenRun(s, steps, t, replies);
    assert |u.stack| == 1 && u.stack[0].pc == SetPending;
    RunsReturn(u);
    more, u := ThenRun(s, more, u, replies);
  }

  /** The rest of a uartintr that finds nothing: a read is sent and taken, and it returns. */
  lemma AsksForMore(s: Sys, steps: seq<Step>, t: Sys, replies: seq<Word>, chars: seq<bv64>, n: nat)
    returns (more: seq<Step>, u: Sys)
    requires n <= |chars| && Trace(s, steps, replies) == t && Polling(t, n, chars[..n])
    ensures Trace(s, more, replies) == u && Waiting(u, chars, n)
  {
    more, u := PollFindsNothing(s, steps, t, replies, n, chars[..n]);
    more, u := ReadIsReady(s, more, u, replies);
    more, u := ReadIsStored(s, more, u, replies);
    more, u := ReadIsTaken(s, more, u, replies, n);
    more, u := SendReturns(s, more, u, replies);
  }

  lemma HostAnswers(s: Sys, steps: seq<Step>, t: Sys, chars: seq<bv64>, n: nat) returns (more: seq<Step>, u: Sys)
    requires n < |chars| && Trace(s, steps, Typed(chars)) == t && Waiting(t, chars, n)
    ensures Trace(s, more, Typed(chars)) == u
    ensures u.stack == [] && u.link == Link(ZERO, ReplyOf(chars[n]), true) && HostAt(u.host, 0, n + 1) && u.log == t.log
  {
    more, u := Then(s, steps, t, HostAnswer, Typed(chars));
    more, u := Then(s, more, u, HostArm, Typed(chars));
    more, u := Then(s, more, u, HostReply, Typed(chars));
  }

  lemma ReplyIsTaken(s: Sys, steps: seq<Step>, t: Sys, replies: seq<Word>, ch: bv64)
    returns (more: seq<Step>, u: Sys)
    requires Trace(s, steps, replies) == t && ch < 0x100
    requires t.stack == [] && t.link == Link(ZERO, ReplyOf(ch), true)
    ensures Trace(s, more, replies) == u && |u.stack| == 1 && u.stack[0].intr
    ensures u.stack[0].pc == ClearPending(ReplyOf(ch))
    ensures u.link == Link(ZERO, ZERO, true) && u.host == t.host && u.log == t.log
  {
    ReplyCarriesChar(ch);
    more, u := Then(s, steps, t, StartIntr, replies);
    assert |u.stack| == 1 && u.stack[0].pc == Poll;
    RunsPoll(u);
    more, u := ThenRun(s, more, u, replies);
    assert u.stack[0].pc == ZeroReply(ReplyOf(ch));
    RunsZeroReply(u);
    more, u := ThenRun(s, more, u, replies);
  }

  lemma CharIsDelivered(s: Sys, steps: seq<Step>, t: Sys, replies: seq<Word>, ch: bv64, used: nat)
    returns (more: seq<Step>, u: Sys)
    requires Trace(s, steps, replies) == t && ch < 0x100 && HostAt(t.host, 0, used)
    requires |t.stack| == 1 && t.stack[0].intr && t.stack[0].pc == ClearPending(ReplyOf(ch))
    requires t.link == Link(ZERO, ZERO, true)
    ensures Trace(s, more, replies) == u && Polling(u, used, t.log.delivered + [ch])
  {
    ReplyCarriesChar(ch);
    RunsClearPending(t);
    more, u := ThenRun(s, steps, t, replies);
    assert |u.stack| == 1 && u.stack[0].pc == Deliver(ReplyOf(ch));
    RunsDeliver(u);
    more, u := ThenRun(s, more, u, replies);
  }

  /** From one character to the next. */
  lemma OneMoreChar(s: Sys, steps: seq<Step>, t: Sys, chars: seq<bv64>, n: nat) returns (more: seq<Step>, u: Sys)
    requires n < |chars| && chars[n] < 0x100 && Trace(s, steps, Typed(chars)) == t && Waiting(t, chars, n)
    ensures Trace(s, more, Typed(chars)) == u && Waiting(u, chars, n + 1)
  {
    more, u := HostAnswers(s, steps, t, chars, n);
    more, u := ReplyIsTaken(s, more, u, Typed(chars), chars[n]);
    more, u := CharIsDelivered(s, more, u, Typed(chars), chars[n], n + 1);
    assert chars[..n + 1] == chars[..n] + [chars[n]];
    more, u := AsksForMore(s, more, u, Typed(chars), chars, n + 1);
  }

  lemma FirstRead(chars: seq<bv64>) returns (steps: seq<Step>, t: Sys)
    ensures Trace(START, steps, Typed(chars)) == t && Waiting(t, chars, 0)
  {
    steps, t := Then(START, [], START, StartIntr, Typed(chars));
    assert chars[..0] == [];
    steps, t := AsksForMore(START, steps, t, Typed(chars), chars, 0);
  }

  lemma {:induction false} ArrivesUpTo(chars: seq<bv64>, n: nat) returns (steps: seq<Step>, t: Sys)
    requires n <= |chars| && forall i | 0 <= i < |chars| :: chars[i] < 0x100
    ensures Trace(START, steps, Typed(chars)) == t && Waiting(t, chars, n)
  {
    if n == 0 {
      steps, t := FirstRead(chars);
    } else {
      steps, t := ArrivesUpTo(chars, n - 1);
      steps, t := OneMoreChar(START, steps, t, chars, n - 1);
    }
  }

  /** Whatever is typed can arrive in full: some interleaving of host and target delivers all of it, and
      leaves a read outstanding for more. */
  lemma AllTypedCanArrive(chars: seq<bv64>) returns (steps: seq<Step>)
    requires forall i | 0 <= i < |chars| :: chars[i] < 0x100
    ensures var s := Trace(START, steps, Typed(chars));
            s.log.delivered == chars && s.stack == [] && Outstanding(s.link, s.host) == 1
  {
    var t;
    steps, t := ArrivesUpTo(chars, |chars|);
    assert chars[..|chars|] == chars;
    WriteWords(0);
  }
}
