/** Console input: every character of the host's reply stream reaches consoleintr once and in order,
    with never more than one read outstanding, and every uartintr ends after at most two polls. */
module HtifReads {
  import opened Basics
  import opened HtifProtocol
  import opened HtifSends

  // ----- where a reply can be ---------------------------------------------------------------------

  function InFromhost(l: Link): seq<Word> {
    if l.fromhost == ZERO then [] else [l.fromhost]
  }

  /** The reply that an activity has taken out of fromhost and not yet passed on. */
  function InHand(f: Frame): seq<Word> {
    if f.pc.ClearPending? || f.pc.Deliver? then [f.pc.reply] else []
  }

  function InHandOf(stack: seq<Frame>): seq<Word> {
    if stack == [] then [] else InHandOf(stack[..|stack| - 1]) + InHand(stack[|stack| - 1])
  }

  /** Replies that the host has produced and the target has not consumed. */
  function Held(s: Sys): seq<Word> {
    InHandOf(s.stack) + InFromhost(s.link) + s.host.answer
  }

  // ----- the discipline of uartintr ---------------------------------------------------------------

  /** Where read_pending and the outstanding reads stand at each point of uartintr. */
  predicate Disciplined(f: Frame, pending: bool, outstanding: nat, fromhost: Word) {
    match f.pc
    case Poll => outstanding == One(pending) && f.polls == f.got <= 1 && (f.got == 1 ==> !pending)
    case ZeroReply(r) => fromhost == r && r != ZERO && pending && outstanding == 1 && f.polls == 1 && f.got == 0
    case ClearPending(r) => pending && outstanding == 0 && f.polls == 1 && f.got == 0
    case Deliver(r) => !pending && outstanding == 0 && f.polls == 1 && f.got == 0 && HasChar(r)
    case CheckPending =>
      outstanding == One(pending) && f.polls == f.got + 1 && f.got <= 1 && (f.got == 1 ==> !pending)
    case Wait(w) => !pending && outstanding == 0 && f.polls == f.got + 1 && f.got <= 1
    case Store(w) => !pending && outstanding == 0 && f.polls == f.got + 1 && f.got <= 1
    case Drain(w, _) => !pending && outstanding == 1 && f.polls == f.got + 1 && f.got <= 1
    case SetPending => !pending && outstanding == 1 && f.polls == f.got + 1 && f.got <= 1
  }

  /** What a uartintr that returned did. */
  predicate Ended(e: Return) {
    e.polls <= 2 && e.got <= 1 && e.outstanding == One(!e.rejected)
  }

  /** At most one uartintr is active and it keeps to its discipline; without one, read_pending says
      whether a read is outstanding. */
  predicate Interrupts(stack: seq<Frame>, pending: bool, outstanding: nat, fromhost: Word) {
    && (forall i, j | 0 <= i < j < |stack| :: !(stack[i].intr && stack[j].intr))
    && (forall i | 0 <= i < |stack| && stack[i].intr :: Disciplined(stack[i], pending, outstanding, fromhost))
    && (!HasIntr(stack) ==> outstanding == One(pending))
  }

  predicate Discipline(s: Sys) {
    && Interrupts(s.stack, s.link.pending, Outstanding(s.link, s.host), s.link.fromhost)
    && (s.host.armed ==> s.host.answer != [])
  }

  predicate Replies(replies: seq<Word>) {
    forall i | 0 <= i < |replies| :: replies[i] != ZERO
  }

  predicate Order(s: Sys, replies: seq<Word>) {
    && s.host.used <= |replies|
    && replies[..s.host.used] == s.log.consumed + Held(s)
    && s.log.delivered == Chars(s.log.consumed)
  }

  predicate AllValid(replies: seq<Word>) {
    forall i | 0 <= i < |replies| :: HasChar(replies[i])
  }

  /** A uartintr ends without a read outstanding only after a reply without a character. */
  predicate Ends(s: Sys) {
    forall i | 0 <= i < |s.log.ends| ::
      Ended(s.log.ends[i]) && (s.log.ends[i].rejected ==> !AllValid(s.log.consumed))
  }

  ghost predicate ReadInv(s: Sys, replies: seq<Word>) {
    SendInv(s) && Discipline(s) && Order(s, replies) && Ends(s)
  }

  /** Never more than one read is outstanding. */
  lemma AtMostOneRead(s: Sys)
    requires Discipline(s)
    ensures Outstanding(s.link, s.host) <= 1
  {
    if HasIntr(s.stack) {
      var i :| 0 <= i < |s.stack| && s.stack[i].intr;
      assert Disciplined(s.stack[i], s.link.pending, Outstanding(s.link, s.host), s.link.fromhost);
    }
  }

  // ----- host steps -------------------------------------------------------------------------------

  /** A reply that is ready is the last one produced. */
  lemma AnswerIsReply(s: Sys, replies: seq<Word>)
    requires ReadInv(s, replies) && Replies(replies) && s.host.answer != []
    ensures s.host.used > 0 && s.host.answer == [replies[s.host.used - 1]] && s.host.answer[0] != ZERO
    ensures s.link.fromhost == ZERO
  {
    AtMostOneRead(s);
    var all := s.log.consumed + Held(s);
    assert all[|all| - 1] == s.host.answer[0];
    assert replies[..s.host.used][s.host.used - 1] == replies[s.host.used - 1];
  }

  lemma HostKeepsCount(s: Sys, step: Step, replies: seq<Word>)
    requires ReadInv(s, replies) && Replies(replies) && OfHost(step) && Enabled(s, step, replies)
    ensures var n := HostNext(s, step, replies);
            && Outstanding(n.link, n.host) == Outstanding(s.link, s.host)
            && n.link.pending == s.link.pending
            && (s.link.fromhost != ZERO ==> n.link.fromhost == s.link.fromhost)
            && (n.host.armed ==> n.host.answer != [])
  {
    AtMostOneRead(s);
    WriteWords(0);
    if step.HostReply? {
      AnswerIsReply(s, replies);
    }
  }

  lemma AnswerKeepsHeld(s: Sys, replies: seq<Word>)
    requires ReadInv(s, replies) && Replies(replies) && Enabled(s, HostAnswer, replies)
    ensures Order(HostNext(s, HostAnswer, replies), replies)
  {
    AtMostOneRead(s);
    var n := HostNext(s, HostAnswer, replies);
    assert replies[..n.host.used] == replies[..s.host.used] + [replies[s.host.used]];
    assert Held(n) == Held(s) + [replies[s.host.used]];
  }

  lemma ReplyKeepsHeld(s: Sys, replies: seq<Word>)
    requires ReadInv(s, replies) && Replies(replies) && Enabled(s, HostReply, replies)
    ensures Order(HostNext(s, HostReply, replies), replies)
  {
    AnswerIsReply(s, replies);
    assert Held(HostNext(s, HostReply, replies)) == Held(s);
  }

  lemma HostKeepsHeld(s: Sys, step: Step, replies: seq<Word>)
    requires ReadInv(s, replies) && Replies(replies) && OfHost(step) && Enabled(s, step, replies)
    ensures Order(HostNext(s, step, replies), replies)
  {
    if step.HostAnswer? {
      AnswerKeepsHeld(s, replies);
    } else if step.HostReply? {
      ReplyKeepsHeld(s, replies);
    } else {
      assert Held(HostNext(s, step, replies)) == Held(s);
    }
  }

  lemma HostKeepsReads(s: Sys, step: Step, replies: seq<Word>)
    requires ReadInv(s, replies) && Replies(replies) && OfHost(step) && Enabled(s, step, replies)
    ensures ReadInv(HostNext(s, step, replies), replies)
  {
    HostKeepsSends(s, step, replies);
    HostKeepsCount(s, step, replies);
    HostKeepsHeld(s, step, replies);
  }

  // ----- new activities ---------------------------------------------------------------------------

  lemma HandPush(stack: seq<Frame>, f: Frame)
    ensures InHandOf(stack + [f]) == InHandOf(stack) + InHand(f)
  {
    assert (stack + [f])[..|stack|] == stack;
  }

  lemma StartKeepsReads(s: Sys, step: Step, replies: seq<Word>)
    requires ReadInv(s, replies) && (step.StartSend? || step.StartIntr?) && Enabled(s, step, replies)
    ensures ReadInv(Next(s, step, replies), replies)
  {
    StartKeepsSends(s, step, replies);
    if step.StartSend? {
      HandPush(s.stack, Frame(false, Wait(WriteOf(step.c)), 0, 0));
      PushKeepsDiscipline(s, Frame(false, Wait(WriteOf(step.c)), 0, 0));
    } else {
      HandPush(s.stack, Frame(true, Poll, 0, 0));
      PushKeepsDiscipline(s, Frame(true, Poll, 0, 0));
    }
    PushKeepsOrder(s, Next(s, step, replies).stack, replies);
  }

  lemma PushKeepsOrder(s: Sys, stack: seq<Frame>, replies: seq<Word>)
    requires Order(s, replies) && Ends(s) && InHandOf(stack) == InHandOf(s.stack)
    ensures Order(s.(stack := stack), replies) && Ends(s.(stack := stack))
  {
  }

  lemma PushKeepsDiscipline(s: Sys, f: Frame)
    requires Discipline(s) && (f.intr ==> !HasIntr(s.stack) && f == Frame(true, Poll, 0, 0))
    ensures Discipline(s.(stack := s.stack + [f]))
  {
    var l, o := s.link, Outstanding(s.link, s.host);
    if f.intr {
      IntrOnTop(s.stack, f, l.pending, o, l.fromhost);
    } else {
      SendOnTop(s.stack, f, l.pending, o, l.fromhost);
    }
  }

  // ----- target steps -----------------------------------------------------------------------------

  /** A send of a write command leaves the reads alone. */
  lemma SendKeepsCount(s: Sys)
    requires SendInv(s) && s.stack != [] && !Top(s).intr
    ensures var n := RunNext(s);
            && Outstanding(n.link, n.host) == Outstanding(s.link, s.host)
            && n.link.pending == s.link.pending && n.link.fromhost == s.link.fromhost
  {
    assert FrameOk(Top(s));
    if Top(s).pc.Store? {
      StoreFindsZero(s);
      WriteWords(0);
    }
  }

  /** A step of uartintr keeps to its discipline, and it returns with one read outstanding unless the
      last reply carried no character. */
  lemma IntrKeepsDiscipline(s: Sys)
    requires SendInv(s) && s.stack != [] && Top(s).intr
    requires Disciplined(Top(s), s.link.pending, Outstanding(s.link, s.host), s.link.fromhost)
    ensures var n := RunNext(s);
            var o := Outstanding(n.link, n.host);
            && (forall g | g in RunFrame(Top(s), s.link, |s.log.stored|) ::
                  g.intr && Disciplined(g, n.link.pending, o, n.link.fromhost))
            && (RunFrame(Top(s), s.link, |s.log.stored|) == [] ==> o == One(n.link.pending))
  {
    assert FrameOk(Top(s));
    WriteWords(0);
    if Top(s).pc.Store? {
      StoreFindsZero(s);
    }
  }

  lemma IntrEnds(s: Sys)
    requires SendInv(s) && Ends(s) && s.stack != [] && FrameOk(Top(s))
    requires Top(s).intr ==> Disciplined(Top(s), s.link.pending, Outstanding(s.link, s.host), s.link.fromhost)
    ensures Ends(RunNext(s))
  {
    var n := RunNext(s);
    assert n.log.consumed == s.log.consumed + Consumed(Top(s));
    if AllValid(n.log.consumed) {
      assert AllValid(s.log.consumed) by {
        assert forall i | 0 <= i < |s.log.consumed| :: n.log.consumed[i] == s.log.consumed[i];
      }
      if Consumed(Top(s)) != [] {
        assert n.log.consumed[|s.log.consumed|] == Top(s).pc.reply;
      }
    }
  }

  /** A send on top of the stack makes no difference to the discipline. */
  lemma SendOnTop(below: seq<Frame>, f: Frame, pending: bool, outstanding: nat, fromhost: Word)
    requires !f.intr
    ensures Interrupts(below + [f], pending, outstanding, fromhost)
       <==> Interrupts(below, pending, outstanding, fromhost)
  {
    var stack := below + [f];
    assert forall i | 0 <= i < |below| :: stack[i] == below[i];
    if HasIntr(below) {
      var i :| 0 <= i < |below| && below[i].intr;
      assert stack[i].intr;
    }
  }

  /** Below the uartintr on top there is no other. */
  lemma NoneBelow(below: seq<Frame>, f: Frame, pending: bool, outstanding: nat, fromhost: Word)
    requires f.intr && Interrupts(below + [f], pending, outstanding, fromhost)
    ensures !HasIntr(below) && Disciplined(f, pending, outstanding, fromhost)
  {
    var stack := below + [f];
    assert stack[|below|] == f;
    assert forall i | 0 <= i < |below| :: stack[i] == below[i];
  }

  lemma IntrOnTop(below: seq<Frame>, f: Frame, pending: bool, outstanding: nat, fromhost: Word)
    requires !HasIntr(below) && f.intr && Disciplined(f, pending, outstanding, fromhost)
    ensures Interrupts(below + [f], pending, outstanding, fromhost)
  {
    var stack := below + [f];
    assert stack[|below|] == f;
    assert forall i | 0 <= i < |below| :: stack[i] == below[i];
  }

  lemma SendKeepsDiscipline(s: Sys)
    requires SendInv(s) && Discipline(s) && s.stack != [] && !Top(s).intr
    ensures Discipline(RunNext(s))
  {
    SendKeepsCount(s);
    var next := RunFrame(Top(s), s.link, |s.log.stored|);
    var l, o := s.link, Outstanding(s.link, s.host);
    assert s.stack == Pop(s) + [Top(s)];
    SendOnTop(Pop(s), Top(s), l.pending, o, l.fromhost);
    if next == [] {
      assert Pop(s) + next == Pop(s);
    } else {
      assert next == [next[0]];
      SendOnTop(Pop(s), next[0], l.pending, o, l.fromhost);
    }
  }

  lemma UartintrKeepsDiscipline(s: Sys)
    requires SendInv(s) && Discipline(s) && s.stack != [] && Top(s).intr
    ensures Discipline(RunNext(s))
  {
    var next := RunFrame(Top(s), s.link, |s.log.stored|);
    var n := RunNext(s);
    assert s.stack == Pop(s) + [Top(s)];
    NoneBelow(Pop(s), Top(s), s.link.pending, Outstanding(s.link, s.host), s.link.fromhost);
    IntrKeepsDiscipline(s);
    if next == [] {
      assert Pop(s) + next == Pop(s);
    } else {
      assert next == [next[0]];
      IntrOnTop(Pop(s), next[0], n.link.pending, Outstanding(n.link, n.host), n.link.fromhost);
    }
  }

  lemma RunKeepsDiscipline(s: Sys)
    requires SendInv(s) && Discipline(s) && s.stack != []
    ensures Discipline(RunNext(s))
  {
    if Top(s).intr {
      UartintrKeepsDiscipline(s);
    } else {
      SendKeepsDiscipline(s);
    }
  }

  // ----- the order of replies ---------------------------------------------------------------------

  /** Only a uartintr holds a reply, and only while no read is outstanding. */
  lemma {:induction false} OneHand(stack: seq<Frame>, pending: bool, outstanding: nat, fromhost: Word)
    requires forall i | 0 <= i < |stack| :: FrameOk(stack[i])
    requires Interrupts(stack, pending, outstanding, fromhost)
    ensures !HasIntr(stack) ==> InHandOf(stack) == []
    ensures |InHandOf(stack)| <= 1 && (InHandOf(stack) != [] ==> outstanding == 0)
  {
    if stack != [] {
      var below, f := stack[..|stack| - 1], stack[|stack| - 1];
      assert stack == below + [f];
      if f.intr {
        NoneBelow(below, f, pending, outstanding, fromhost);
        NoHand(below);
      } else {
        SendOnTop(below, f, pending, outstanding, fromhost);
        OneHand(below, pending, outstanding, fromhost);
      }
    }
  }

  lemma {:induction false} NoHand(stack: seq<Frame>)
    requires forall i | 0 <= i < |stack| :: FrameOk(stack[i])
    requires !HasIntr(stack)
    ensures InHandOf(stack) == []
  {
    if stack != [] {
      NoHand(stack[..|stack| - 1]);
    }
  }

  lemma OnlyTopHolds(s: Sys)
    requires SendInv(s) && Discipline(s) && s.stack != [] && Top(s).intr
    ensures InHandOf(Pop(s)) == []
  {
    assert s.stack == Pop(s) + [Top(s)];
    NoneBelow(Pop(s), Top(s), s.link.pending, Outstanding(s.link, s.host), s.link.fromhost);
    NoHand(Pop(s));
  }

  lemma HandsPushed(below: seq<Frame>, next: seq<Frame>)
    requires |next| <= 1
    ensures InHandOf(below + next) == InHandOf(below) + if next == [] then [] else InHand(next[0])
  {
    if next == [] {
      assert below + next == below;
    } else {
      assert next == [next[0]];
      HandPush(below, next[0]);
    }
  }

  lemma RunHands(s: Sys)
    requires s.stack != []
    ensures var next := RunFrame(Top(s), s.link, |s.log.stored|);
            && InHandOf(s.stack) == InHandOf(Pop(s)) + InHand(Top(s))
            && InHandOf(RunNext(s).stack) == InHandOf(Pop(s)) + if next == [] then [] else InHand(next[0])
  {
    assert s.stack == Pop(s) + [Top(s)];
    HandsPushed(Pop(s), [Top(s)]);
    HandsPushed(Pop(s), RunFrame(Top(s), s.link, |s.log.stored|));
  }

  lemma CharsPush(replies: seq<Word>, r: Word)
    ensures Chars(replies + [r]) == Chars(replies) + if HasChar(r) then [CharOf(r)] else []
  {
    assert (replies + [r])[..|replies|] == replies;
  }

  /** The reply that the next step consumes, if any. */
  function Consumed(f: Frame): seq<Word> {
    match f.pc
    case ClearPending(r) => if HasChar(r) then [] else [r]
    case Deliver(r) => [r]
    case _ => []
  }

  lemma RunConsumes(s: Sys)
    requires s.stack != []
    requires Top(s).pc.Deliver? ==> HasChar(Top(s).pc.reply)
    ensures RunNext(s).log.consumed == s.log.consumed + Consumed(Top(s))
    ensures s.log.delivered == Chars(s.log.consumed) ==> RunNext(s).log.delivered == Chars(RunNext(s).log.consumed)
  {
    if Consumed(Top(s)) != [] {
      CharsPush(s.log.consumed, Top(s).pc.reply);
    }
  }

  /** A reply moves from fromhost into the hands of htif_getc and from there to the caller. */
  lemma FrameMovesReply(s: Sys)
    requires s.stack != [] && FrameOk(Top(s))
    requires Top(s).intr ==> Disciplined(Top(s), s.link.pending, Outstanding(s.link, s.host), s.link.fromhost)
    ensures var next := RunFrame(Top(s), s.link, |s.log.stored|);
            (InHand(Top(s)) + InFromhost(s.link)
             == Consumed(Top(s)) + (if next == [] then [] else InHand(next[0])) + InFromhost(RunNext(s).link))
  {
  }

  lemma Reassociate(consumed: seq<Word>, now: seq<Word>, below: seq<Word>, hand: seq<Word>, from: seq<Word>,
                    hand': seq<Word>, from': seq<Word>, answer: seq<Word>)
    requires hand + from == now + hand' + from'
    requires below == [] || (now == [] && hand == hand' && from == from')
    ensures consumed + (below + hand + from + answer) == (consumed + now) + (below + hand' + from' + answer)
  {
    if below == [] {
      assert below + hand + from + answer == (hand + from) + answer;
      assert below + hand' + from' + answer == hand' + from' + answer;
    }
  }

  lemma SendHoldsNothing(s: Sys)
    requires s.stack != [] && FrameOk(Top(s)) && !Top(s).intr
    ensures var next := RunFrame(Top(s), s.link, |s.log.stored|);
            Consumed(Top(s)) == [] && InHand(Top(s)) == [] && (next != [] ==> InHand(next[0]) == [])
            && RunNext(s).link.fromhost == s.link.fromhost
  {
  }

  lemma RunKeepsOrder(s: Sys, replies: seq<Word>)
    requires ReadInv(s, replies) && s.stack != []
    ensures Order(RunNext(s), replies)
  {
    var n := RunNext(s);
    var next := RunFrame(Top(s), s.link, |s.log.stored|);
    var hand := if next == [] then [] else InHand(next[0]);
    RunConsumes(s);
    RunHands(s);
    FrameMovesReply(s);
    if Top(s).intr {
      OnlyTopHolds(s);
    } else {
      SendHoldsNothing(s);
    }
    Reassociate(s.log.consumed, Consumed(Top(s)), InHandOf(Pop(s)), InHand(Top(s)), InFromhost(s.link),
                hand, InFromhost(n.link), s.host.answer);
  }

  lemma RunKeepsReads(s: Sys, replies: seq<Word>)
    requires ReadInv(s, replies) && s.stack != []
    ensures ReadInv(RunNext(s), replies)
  {
    RunKeepsSends(s);
    RunKeepsDiscipline(s);
    RunKeepsOrder(s, replies);
    IntrEnds(s);
  }

  // ----- whole runs -------------------------------------------------------------------------------

  lemma StepKeepsReads(s: Sys, step: Step, replies: seq<Word>)
    requires ReadInv(s, replies) && Replies(replies) && Enabled(s, step, replies)
    ensures ReadInv(Next(s, step, replies), replies)
  {
    if OfHost(step) {
      HostKeepsReads(s, step, replies);
    } else if step.Run? {
      RunKeepsReads(s, replies);
    } else {
      StartKeepsReads(s, step, replies);
    }
  }

  lemma {:induction false} TraceKeepsReads(s: Sys, steps: seq<Step>, replies: seq<Word>)
    requires ReadInv(s, replies) && Replies(replies)
    ensures ReadInv(Trace(s, steps, replies), replies)
    decreases |steps|
  {
    if steps != [] {
      if Enabled(s, steps[0], replies) {
        StepKeepsReads(s, steps[0], replies);
        TraceKeepsReads(Next(s, steps[0], replies), steps[1..], replies);
      } else {
        TraceKeepsReads(s, steps[1..], replies);
      }
    }
  }

  lemma {:induction false} CharsPrefix(replies: seq<Word>, n: nat)
    requires n <= |replies|
    ensures Chars(replies[..n]) <= Chars(replies)
    decreases |replies|
  {
    if n < |replies| {
      CharsPrefix(replies[..|replies| - 1], n);
      assert replies[..|replies| - 1][..n] == replies[..n];
    } else {
      assert replies[..n] == replies;
    }
  }

  lemma AtMostOneHeld(s: Sys)
    requires SendInv(s) && Discipline(s)
    ensures |Held(s)| <= 1
  {
    AtMostOneRead(s);
    OneHand(s.stack, s.link.pending, Outstanding(s.link, s.host), s.link.fromhost);
  }

  /** In every interleaving: consoleintr gets a prefix of the characters of the host's stream, in
      order, none lost and none twice; at most one reply is produced but not consumed; and never more
      than one read is outstanding across tohost, the host and fromhost. */
  lemma InputIsInOrder(steps: seq<Step>, replies: seq<Word>)
    requires Replies(replies)
    ensures var s := Trace(START, steps, replies);
            && s.log.delivered <= Chars(replies)
            && s.log.delivered == Chars(s.log.consumed)
            && s.host.used <= |replies| && s.log.consumed + Held(s) == replies[..s.host.used]
            && |Held(s)| <= 1
            && Outstanding(s.link, s.host) <= 1
  {
    TraceKeepsReads(START, steps, replies);
    var s := Trace(START, steps, replies);
    AtMostOneRead(s);
    AtMostOneHeld(s);
    assert s.log.consumed == replies[..|s.log.consumed|];
    CharsPrefix(replies, |s.log.consumed|);
  }

  /** The replies of a host on which these characters are typed. */
  function Typed(chars: seq<bv64>): (r: seq<Word>)
    ensures |r| == |chars| && forall i | 0 <= i < |r| :: r[i] == ReplyOf(chars[i])
  {
    seq(|chars|, i requires 0 <= i < |chars| => ReplyOf(chars[i]))
  }

  lemma {:induction false} TypedAreChars(chars: seq<bv64>)
    requires forall i | 0 <= i < |chars| :: chars[i] < 0x100
    ensures Chars(Typed(chars)) == chars && Replies(Typed(chars)) && AllValid(Typed(chars))
  {
    forall i | 0 <= i < |chars| ensures HasChar(Typed(chars)[i]) && Typed(chars)[i] != ZERO {
      ReplyCarriesChar(chars[i]);
    }
    if chars != [] {
      var most, last := chars[..|chars| - 1], chars[|chars| - 1];
      TypedAreChars(most);
      assert Typed(chars)[..|chars| - 1] == Typed(most);
      ReplyCarriesChar(last);
    }
  }

  lemma PrefixOfTyped(chars: seq<bv64>, n: nat)
    requires n <= |chars|
    ensures Typed(chars)[..n] == Typed(chars[..n])
  {
  }

  lemma ConsumedOfTyped(s: Sys, chars: seq<bv64>)
    requires forall i | 0 <= i < |chars| :: chars[i] < 0x100
    requires Order(s, Typed(chars))
    ensures s.log.delivered <= chars && |s.log.delivered| + |Held(s)| == s.host.used
  {
    var n := |s.log.consumed|;
    assert s.log.consumed == Typed(chars)[..n];
    PrefixOfTyped(chars, n);
    TypedAreChars(chars[..n]);
  }

  /** Whatever is typed, in every interleaving consoleintr has received a prefix of it, all but what is
      still held of what the host has answered. */
  lemma TypingArrives(steps: seq<Step>, chars: seq<bv64>)
    requires forall i | 0 <= i < |chars| :: chars[i] < 0x100
    ensures var s := Trace(START, steps, Typed(chars));
            s.log.delivered <= chars && |s.log.delivered| + |Held(s)| == s.host.used && |Held(s)| <= 1
  {
    TypedAreChars(chars);
    InputIsInOrder(steps, Typed(chars));
    TraceKeepsReads(START, steps, Typed(chars));
    ConsumedOfTyped(Trace(START, steps, Typed(chars)), chars);
  }

  /** The host keeps its promise in every interleaving: when it writes a reply, fromhost reads as 0, so no
      reply is ever overwritten. */
  lemma RepliesNeverOverwrite(steps: seq<Step>, replies: seq<Word>)
    requires Replies(replies)
    ensures var s := Trace(START, steps, replies);
            HostEnabled(s.link, s.host, HostReply, replies) ==> s.link.fromhost == ZERO
  {
    TraceKeepsReads(START, steps, replies);
    var s := Trace(START, steps, replies);
    if s.host.answer != [] {
      AnswerIsReply(s, replies);
    }
  }

  /** In every interleaving, every uartintr that returned had polled at most twice and delivered at
      most one character, and left exactly one read outstanding unless the reply it saw last carried
      no character. */
  lemma UartintrEnds(steps: seq<Step>, replies: seq<Word>, i: nat)
    requires Replies(replies) && i < |Trace(START, steps, replies).log.ends|
    ensures var e := Trace(START, steps, replies).log.ends[i];
            e.polls <= 2 && e.got <= 1 && e.outstanding == One(!e.rejected)
  {
    TraceKeepsReads(START, steps, replies);
    assert Ended(Trace(START, steps, replies).log.ends[i]);
  }

  /** With a host that keeps the protocol, exactly one read is outstanding whenever uartintr returns. */
  lemma ExactlyOneReadOutstanding(steps: seq<Step>, replies: seq<Word>, i: nat)
    requires Replies(replies) && AllValid(replies) && i < |Trace(START, steps, replies).log.ends|
    ensures Trace(START, steps, replies).log.ends[i].outstanding == 1
  {
    TraceKeepsReads(START, steps, replies);
    ValidRepliesValidConsumed(Trace(START, steps, replies), replies);
    assert Ended(Trace(START, steps, replies).log.ends[i]);
  }

  lemma ValidRepliesValidConsumed(s: Sys, replies: seq<Word>)
    requires Order(s, replies) && AllValid(replies)
    ensures AllValid(s.log.consumed)
  {
    forall k | 0 <= k < |s.log.consumed| ensures HasChar(s.log.consumed[k]) {
      assert s.log.consumed[k] == (s.log.consumed + Held(s))[k] == replies[k];
    }
  }

  /** How far a uartintr is from returning. */
  function Distance(f: Frame): nat {
    match f.pc
    case Poll => if f.got == 0 then 9 else 5
    case ZeroReply(_) => 8
    case ClearPending(_) => 7
    case Deliver(_) => 6
    case CheckPending => 4
    case Wait(_) => 3
    case Store(_) => 2
    case Drain(_, _) => 1
    case SetPending => 0
  }

  lemma FrameProgresses(f: Frame, s: Sys)
    requires Disciplined(f, s.link.pending, Outstanding(s.link, s.host), s.link.fromhost)
    ensures var next := RunFrame(f, s.link, |s.log.stored|);
            || (next != [] ==> Distance(next[0]) < Distance(f))
            || (s.link.tohost != ZERO && (f.pc.Wait? || f.pc.Drain?))
  {
  }

  /** A step of the uartintr on top brings it nearer to its return or finds htif_send waiting. */
  predicate Progresses(s: Sys)
    requires s.stack != []
  {
    var next := RunFrame(Top(s), s.link, |s.log.stored|);
    || (next != [] ==> Distance(next[0]) < Distance(Top(s)))
    || (s.link.tohost != ZERO && (Top(s).pc.Wait? || Top(s).pc.Drain?))
  }

  lemma TopProgresses(s: Sys)
    requires Discipline(s) && s.stack != [] && Top(s).intr
    ensures Progresses(s)
  {
    FrameProgresses(Top(s), s);
  }

  /** In every interleaving, each step of a uartintr brings it nearer to its return, except while
      htif_send waits for the host to zero tohost. */
  lemma UartintrProgresses(steps: seq<Step>, replies: seq<Word>)
    requires Replies(replies)
    requires var s := Trace(START, steps, replies); s.stack != [] && Top(s).intr
    ensures var s := Trace(START, steps, replies);
            var next := RunFrame(Top(s), s.link, |s.log.stored|);
            || (next != [] ==> Distance(next[0]) < Distance(Top(s)))
            || (s.link.tohost != ZERO && (Top(s).pc.Wait? || Top(s).pc.Drain?))
  {
    TraceKeepsReads(START, steps, replies);
    TopProgresses(Trace(START, steps, replies));
  }
}
