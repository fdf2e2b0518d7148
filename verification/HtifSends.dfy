/** htif_send delivers every command exactly once and in store order, however sends nest. */
module HtifSends {
  import opened HtifProtocol

  function InTohost(l: Link): seq<Word> {
    if l.tohost == ZERO then [] else [l.tohost]
  }

  function InHands(h: Host): seq<Word> {
    if h.hands.Zeroed? then [h.hands.word] else []
  }

  /** What is stored is taken or still in tohost, what is taken is acted on or in the host's hands. */
  predicate Flow(s: Sys) {
    && s.log.stored == s.host.taken + InTohost(s.link)
    && s.host.taken == s.host.acted + InHands(s.host)
    && (s.host.hands.Latched? ==> s.host.hands.word == s.link.tohost && s.link.tohost != ZERO)
  }

  predicate Sending(pc: Pc) {
    pc.Wait? || pc.Store? || pc.Drain?
  }

  /** A send carries a nonzero word, the read command exactly inside uartintr. */
  predicate FrameOk(f: Frame) {
    && (!f.intr ==> Sending(f.pc))
    && (Sending(f.pc) ==> if f.intr then f.pc.word == READ else IsWrite(f.pc.word))
  }

  /** Activity i put the word that tohost holds; nothing above it is about to store or waits for a
      word of its own. */
  predicate Owns(stack: seq<Frame>, i: nat, word: Word, stored: nat) {
    && i < |stack| && stack[i].pc.Drain? && stack[i].pc.word == word && stack[i].pc.at + 1 == stored
    && forall j | i < j < |stack| :: !stack[j].pc.Store? && !stack[j].pc.Drain?
  }

  ghost predicate Owned(stack: seq<Frame>, word: Word, stored: nat) {
    exists i: nat :: Owns(stack, i, word, stored)
  }

  ghost predicate SendInv(s: Sys) {
    && Flow(s)
    && (forall i | 0 <= i < |s.stack| :: FrameOk(s.stack[i]))
    && (s.link.tohost != ZERO ==> Owned(s.stack, s.link.tohost, |s.log.stored|))
  }

  lemma HostKeepsSends(s: Sys, step: Step, replies: seq<Word>)
    requires SendInv(s) && OfHost(step) && Enabled(s, step, replies)
    ensures SendInv(HostNext(s, step, replies))
  {
  }

  lemma PushKeepsOwner(stack: seq<Frame>, f: Frame, word: Word, stored: nat)
    requires Owned(stack, word, stored) && !f.pc.Store? && !f.pc.Drain?
    ensures Owned(stack + [f], word, stored)
  {
    var i: nat :| Owns(stack, i, word, stored);
    assert Owns(stack + [f], i, word, stored);
  }

  lemma StartKeepsSends(s: Sys, step: Step, replies: seq<Word>)
    requires SendInv(s) && (step.StartSend? || step.StartIntr?) && Enabled(s, step, replies)
    ensures SendInv(Next(s, step, replies))
  {
    var f := if step.StartSend? then Frame(false, Wait(WriteOf(step.c)), 0, 0) else Frame(true, Poll, 0, 0);
    if step.StartSend? {
      WriteWords(step.c);
    }
    if s.link.tohost != ZERO {
      PushKeepsOwner(s.stack, f, s.link.tohost, |s.log.stored|);
    }
  }

  /** The topmost activity never stores over a word that the host has not taken. */
  lemma StoreFindsZero(s: Sys)
    requires SendInv(s) && s.stack != [] && Top(s).pc.Store?
    ensures s.link.tohost == ZERO
  {
    assert forall i: nat :: i < |s.stack| ==> !Owns(s.stack, i, s.link.tohost, |s.log.stored|);
  }

  lemma RunFrameOk(f: Frame, l: Link, stored: nat)
    requires FrameOk(f)
    ensures forall g | g in RunFrame(f, l, stored) :: FrameOk(g)
  {
    WriteWords(0);
  }

  lemma RunKeepsOwner(s: Sys)
    requires SendInv(s) && s.stack != [] && !Top(s).pc.Store? && s.link.tohost != ZERO
    ensures Owned(RunNext(s).stack, s.link.tohost, |s.log.stored|)
  {
    var i: nat :| Owns(s.stack, i, s.link.tohost, |s.log.stored|);
    var next := RunFrame(Top(s), s.link, |s.log.stored|);
    if Top(s).pc.Drain? {
      assert next == [Top(s)];
      assert RunNext(s).stack == s.stack;
    } else {
      assert i < |s.stack| - 1;
      assert forall g | g in next :: !g.pc.Store? && !g.pc.Drain?;
      assert Owns(RunNext(s).stack, i, s.link.tohost, |s.log.stored|);
    }
  }

  lemma RunKeepsSends(s: Sys)
    requires SendInv(s) && s.stack != []
    ensures SendInv(RunNext(s))
  {
    var n := RunNext(s);
    RunFrameOk(Top(s), s.link, |s.log.stored|);
    assert FrameOk(Top(s));
    assert n.log.stored == s.log.stored + if Top(s).pc.Store? then [Top(s).pc.word] else [];
    if Top(s).pc.Store? {
      StoreFindsZero(s);
      assert Owns(n.stack, |s.stack| - 1, n.link.tohost, |n.log.stored|);
    } else if s.link.tohost != ZERO {
      RunKeepsOwner(s);
    }
  }

  // ----- each call has its own word -----------------------------------------------------------------

  /** The claim of an activity that waits for its own word. */
  function Waits(f: Frame): seq<Pc> {
    if f.pc.Drain? then [f.pc] else []
  }

  /** Positions of the words that activities still wait for, bottom to top. */
  function Waiting(stack: seq<Frame>): seq<Pc> {
    if stack == [] then []
    else Waiting(stack[..|stack| - 1])
         + Waits(stack[|stack| - 1])
  }

  /** Every store so far, by the call that made it: finished calls and calls still waiting. */
  function Claims(s: Sys): multiset<Pc> {
    multiset(s.log.sent) + multiset(Waiting(s.stack))
  }

  /** A call claims the word it stored at the position it stored it. */
  predicate Claim(pc: Pc, stored: seq<Word>) {
    pc.Drain? && pc.at < |stored| && stored[pc.at] == pc.word
  }

  /** Each claim holds and each stored word has exactly one. */
  predicate Matched(claims: multiset<Pc>, stored: seq<Word>) {
    && (forall pc | pc in claims :: Claim(pc, stored))
    && (forall k | 0 <= k < |stored| :: claims[Drain(stored[k], k)] == 1)
  }

  /** Calls and stored words correspond one to one, and the word of a finished call was taken. */
  predicate OneToOne(s: Sys) {
    && Matched(Claims(s), s.log.stored)
    && (forall i | 0 <= i < |s.log.sent| :: s.log.sent[i].Drain? && s.log.sent[i].at < |s.host.taken|)
  }

  lemma MatchedGrows(claims: multiset<Pc>, stored: seq<Word>, w: Word)
    requires Matched(claims, stored)
    ensures Matched(claims + multiset{Drain(w, |stored|)}, stored + [w])
  {
    assert !Claim(Drain(w, |stored|), stored);
    forall pc | pc in claims + multiset{Drain(w, |stored|)}
      ensures Claim(pc, stored + [w])
    {
      assert pc in claims || pc == Drain(w, |stored|);
    }
  }

  lemma WaitingPush(stack: seq<Frame>, f: Frame)
    ensures Waiting(stack + [f]) == Waiting(stack) + Waits(f)
  {
    assert (stack + [f])[..|stack|] == stack;
  }

  /** The claim that the next step makes, if any. */
  function Stored(s: Sys): seq<Pc>
    requires s.stack != []
  {
    if Top(s).pc.Store? then [Drain(Top(s).pc.word, |s.log.stored|)] else []
  }

  /** The send that returns in the next step, if any. */
  function Finished(s: Sys): seq<Pc>
    requires s.stack != []
  {
    if Top(s).pc.Drain? && s.link.tohost == ZERO then [Top(s).pc] else []
  }

  lemma RunSent(s: Sys)
    requires s.stack != []
    ensures RunNext(s).log.sent == s.log.sent + Finished(s)
  {
  }

  lemma RunStored(s: Sys)
    requires s.stack != []
    ensures RunNext(s).log.stored == s.log.stored + if Top(s).pc.Store? then [Top(s).pc.word] else []
  {
  }

  /** The claim that the topmost activity keeps waiting with after the step, if any. */
  function Kept(s: Sys): seq<Pc>
    requires s.stack != []
  {
    var next := RunFrame(Top(s), s.link, |s.log.stored|);
    if next == [] then [] else Waits(next[0])
  }

  lemma FrameWaits(s: Sys)
    requires s.stack != []
    ensures Kept(s) + Finished(s) == Waits(Top(s)) + Stored(s)
  {
  }

  lemma WaitingPushed(below: seq<Frame>, next: seq<Frame>)
    requires |next| <= 1
    ensures Waiting(below + next) == Waiting(below) + if next == [] then [] else Waits(next[0])
  {
    if next == [] {
      assert below + next == below;
    } else {
      assert next == [next[0]];
      WaitingPush(below, next[0]);
    }
  }

  lemma RunWaiting(s: Sys)
    requires s.stack != []
    ensures Waiting(s.stack) == Waiting(Pop(s)) + Waits(Top(s))
    ensures Waiting(RunNext(s).stack) == Waiting(Pop(s)) + Kept(s)
  {
    assert s.stack == Pop(s) + [Top(s)];
    WaitingPushed(Pop(s), [Top(s)]);
    WaitingPushed(Pop(s), RunFrame(Top(s), s.link, |s.log.stored|));
  }

  lemma RegroupCounts<T>(sent: multiset<T>, below: multiset<T>, kept: multiset<T>, finished: multiset<T>,
                         top: multiset<T>, stored: multiset<T>)
    requires kept + finished == top + stored
    ensures (sent + finished) + (below + kept) == (sent + (below + top)) + stored
  {
    assert forall x :: ((sent + finished) + (below + kept))[x] == sent[x] + below[x] + (kept + finished)[x];
    assert forall x :: ((sent + (below + top)) + stored)[x] == sent[x] + below[x] + (top + stored)[x];
  }

  lemma Regroup<T>(sent: seq<T>, below: seq<T>, kept: seq<T>, finished: seq<T>, top: seq<T>, stored: seq<T>)
    requires kept + finished == top + stored
    ensures multiset(sent + finished) + multiset(below + kept)
         == multiset(sent) + multiset(below + top) + multiset(stored)
  {
    assert multiset(kept) + multiset(finished) == multiset(kept + finished) == multiset(top + stored)
        == multiset(top) + multiset(stored);
    RegroupCounts(multiset(sent), multiset(below), multiset(kept), multiset(finished), multiset(top), multiset(stored));
    assert multiset(below + kept) == multiset(below) + multiset(kept);
    assert multiset(below + top) == multiset(below) + multiset(top);
    assert multiset(sent + finished) == multiset(sent) + multiset(finished);
  }

  /** A step adds a claim for a store, moves the last claim from waiting to finished when a send
      returns, and otherwise leaves the claims alone. */
  lemma RunClaims(s: Sys)
    requires s.stack != []
    ensures Claims(RunNext(s)) == Claims(s) + multiset(Stored(s))
  {
    RunSent(s);
    RunWaiting(s);
    FrameWaits(s);
    Regroup(s.log.sent, Waiting(Pop(s)), Kept(s), Finished(s), Waits(Top(s)), Stored(s));
  }

  lemma RunKeepsMatched(s: Sys)
    requires OneToOne(s) && s.stack != []
    ensures Matched(Claims(RunNext(s)), RunNext(s).log.stored)
  {
    RunClaims(s);
    RunStored(s);
    if Top(s).pc.Store? {
      MatchedGrows(Claims(s), s.log.stored, Top(s).pc.word);
    } else {
      assert Claims(RunNext(s)) == Claims(s);
    }
  }

  lemma RunKeepsOneToOne(s: Sys)
    requires SendInv(s) && OneToOne(s) && s.stack != []
    ensures OneToOne(RunNext(s))
  {
    RunKeepsMatched(s);
    RunSent(s);
    if Finished(s) != [] {
      TopClaims(s);
    }
  }

  lemma TopClaims(s: Sys)
    requires OneToOne(s) && s.stack != [] && Top(s).pc.Drain?
    ensures Claim(Top(s).pc, s.log.stored)
  {
    TopWaits(s.stack);
    assert Top(s).pc in Claims(s);
  }

  lemma TopWaits(stack: seq<Frame>)
    requires stack != [] && stack[|stack| - 1].pc.Drain?
    ensures stack[|stack| - 1].pc in Waiting(stack)
  {
    var w := Waiting(stack);
    assert w[|w| - 1] == stack[|stack| - 1].pc;
  }

  lemma StartKeepsOneToOne(s: Sys, step: Step, replies: seq<Word>)
    requires OneToOne(s) && (step.StartSend? || step.StartIntr?) && Enabled(s, step, replies)
    ensures OneToOne(Next(s, step, replies))
  {
    if step.StartSend? {
      WaitingPush(s.stack, Frame(false, Wait(WriteOf(step.c)), 0, 0));
    } else {
      WaitingPush(s.stack, Frame(true, Poll, 0, 0));
    }
    assert Waiting(Next(s, step, replies).stack) == Waiting(s.stack);
  }

  lemma HostKeepsOneToOne(s: Sys, step: Step, replies: seq<Word>)
    requires OneToOne(s) && OfHost(step) && Enabled(s, step, replies)
    ensures OneToOne(HostNext(s, step, replies))
  {
    assert Claims(HostNext(s, step, replies)) == Claims(s);
  }

  // ----- whole runs ---------------------------------------------------------------------------------

  lemma StepKeepsSends(s: Sys, step: Step, replies: seq<Word>)
    requires SendInv(s) && OneToOne(s) && Enabled(s, step, replies)
    ensures SendInv(Next(s, step, replies)) && OneToOne(Next(s, step, replies))
  {
    if OfHost(step) {
      HostKeepsSends(s, step, replies);
      HostKeepsOneToOne(s, step, replies);
    } else if step.Run? {
      RunKeepsSends(s);
      RunKeepsOneToOne(s);
    } else {
      StartKeepsSends(s, step, replies);
      StartKeepsOneToOne(s, step, replies);
    }
  }

  lemma {:induction false} TraceKeepsSends(s: Sys, steps: seq<Step>, replies: seq<Word>)
    requires SendInv(s) && OneToOne(s)
    ensures SendInv(Trace(s, steps, replies)) && OneToOne(Trace(s, steps, replies))
    decreases |steps|
  {
    if steps != [] {
      if Enabled(s, steps[0], replies) {
        StepKeepsSends(s, steps[0], replies);
        TraceKeepsSends(Next(s, steps[0], replies), steps[1..], replies);
      } else {
        TraceKeepsSends(s, steps[1..], replies);
      }
    }
  }

  /** In every interleaving with every nesting: the host takes and acts on the stored words in store
      order, no store overwrites an untaken word, every htif_send call stores exactly one word of its
      own, and when it returns that word has been taken. */
  lemma SendsDeliverExactlyOnce(steps: seq<Step>, replies: seq<Word>)
    ensures var s := Trace(START, steps, replies);
            && s.host.acted <= s.host.taken <= s.log.stored
            && |s.log.stored| <= |s.host.taken| + 1 <= |s.host.acted| + 2
            && (s.stack != [] && Top(s).pc.Store? ==> s.link.tohost == ZERO)
            && OneToOne(s)
            && forall k | 0 <= k < |s.log.stored| ::
                 (multiset(s.log.sent) + multiset(Waiting(s.stack)))[Drain(s.log.stored[k], k)] == 1
  {
    TraceKeepsSends(START, steps, replies);
    var s := Trace(START, steps, replies);
    if s.stack != [] && Top(s).pc.Store? {
      StoreFindsZero(s);
    }
  }

  /** A finished send: its word is in the sequence that the host took, at its own position. */
  lemma FinishedSendWasTaken(steps: seq<Step>, replies: seq<Word>, i: nat)
    requires i < |Trace(START, steps, replies).log.sent|
    ensures var s := Trace(START, steps, replies);
            && s.log.sent[i].Drain? && s.log.sent[i].at < |s.host.taken|
            && s.host.taken[s.log.sent[i].at] == s.log.sent[i].word
  {
    TraceKeepsSends(START, steps, replies);
    var s := Trace(START, steps, replies);
    assert s.log.sent[i] in Claims(s);
    assert Claim(s.log.sent[i], s.log.stored);
  }
}
