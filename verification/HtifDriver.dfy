/** htif.c itself: the driver's functions with their spin loops, the host moving between any two
    accesses. Every statement that touches a shared word is a step of HtifProtocol, so Valid(), the
    protocol's invariant, holds at every point of every call. The one assumption about the host is
    that it gets round to a nonzero tohost after finitely many looks at it. */
module HtifDriver {
  import opened HtifProtocol
  import opened HtifSends
  import opened HtifReads

  /** htif_getc returns a character or -1. */
  datatype Getc = NoChar | Char(c: bv64)

  function Bytes(c: seq<bv64>): seq<Word> {
    if c == [] then [] else Bytes(c[..|c| - 1]) + [WriteOf(c[|c| - 1])]
  }

  /** How many host actions tohost still needs to become zero. */
  function ToGo(tohost: Word, h: Host): nat {
    if tohost == ZERO then 0 else match h.hands case Latched(_) => 1 case Idle => 2 case Zeroed(_) => 3
  }

  /** What the host does next about tohost. */
  function Urgent(h: Host): Step {
    match h.hands case Idle => HostLatch case Latched(_) => HostZero case Zeroed(_) => HostAct
  }

  lemma HostNearsZero(l: Link, h: Host, step: Step, replies: seq<Word>)
    requires HostEnabled(l, h, step, replies)
    ensures var n, g := HostLink(l, h, step, replies), HostSelf(l, h, step, replies);
            && n.pending == l.pending
            && (n.tohost == l.tohost || n.tohost == ZERO)
            && ToGo(n.tohost, g) <= ToGo(l.tohost, h)
            && (step == Urgent(h) && l.tohost != ZERO ==> ToGo(n.tohost, g) < ToGo(l.tohost, h))
  {
  }

  function Polled(f: Frame): Frame {
    f.(polls := f.polls + 1)
  }

  /** The words at these positions, in this order and none before `from`, write the characters. */
  predicate InOrder(at: seq<nat>, chars: seq<bv64>, words: seq<Word>, from: nat) {
    && |at| == |chars|
    && (forall i | 0 <= i < |at| :: from <= at[i] < |words| && words[at[i]] == WriteOf(chars[i]))
    && (forall i, j | 0 <= i < j < |at| :: at[i] < at[j])
  }

  lemma InOrderMore(at: seq<nat>, buf: seq<bv64>, i: nat, words: seq<Word>, more: seq<Word>, from: nat, k: nat)
    requires i < |buf| && InOrder(at, buf[..i], words, from) && words <= more && from <= |words|
    requires |words| <= k < |more| && more[k] == WriteOf(buf[i])
    ensures InOrder(at + [k], buf[..i + 1], more, from)
  {
    assert forall j | 0 <= j < i :: buf[..i][j] == buf[..i + 1][j];
  }

  /** What htif_getc makes of a reply. */
  function CharIn(reply: Word): Getc {
    if HasChar(reply) then Char(CharOf(reply)) else NoChar
  }

  lemma CharsInReply(reply: Word)
    ensures CharsIn(CharIn(reply)) == if reply.v & 0x100 != 0 then [reply.v & 0xff] else []
    ensures CharIn(reply) == if reply.v & 0x100 != 0 then Char(reply.v & 0xff) else NoChar
  {
  }

  /** The characters in one reply. */
  function CharsIn(c: Getc): seq<bv64> {
    match c case NoChar => [] case Char(ch) => [ch]
  }

  /** Where htif_getc goes on after its load of fromhost. */
  function AfterPoll(fromhost: Word): Pc {
    if fromhost != ZERO then ZeroReply(fromhost) else CheckPending
  }

  lemma BytesPush(c: seq<bv64>, i: nat)
    requires i < |c|
    ensures Bytes(c[..i + 1]) == Bytes(c[..i]) + [WriteOf(c[i])]
  {
    assert c[..i + 1][..i] == c[..i];
  }

  class Console {
    var tohost: Word
    var fromhost: Word
    var readPending: bool
    var host: Host
    /** Looks at tohost until the host must deal with it. */
    var patience: nat
    ghost var stack: seq<Frame>
    ghost var log: Log
    const replies: seq<Word>

    function LinkNow(): Link
      reads this
    {
      Link(tohost, fromhost, readPending)
    }

    ghost function State(): Sys
      reads this
    {
      Sys(LinkNow(), host, log, stack)
    }

    ghost predicate Valid()
      reads this
    {
      Replies(replies) && ReadInv(State(), replies)
    }

    /** uartinit, with the shared words zero and the host idle. */
    constructor (replies: seq<Word>)
      requires Replies(replies)
      ensures Valid() && State() == START && this.replies == replies
    {
      tohost, fromhost, readPending := ZERO, ZERO, false;
      host := START.host;
      stack, log := START.stack, START.log;
      this.replies := replies;
    }

    /** One action of the host. */
    method HostDoes(step: Step)
      requires Valid() && HostEnabled(LinkNow(), host, step, replies)
      modifies `tohost, `fromhost, `host
      ensures Valid()
      ensures LinkNow() == HostLink(old(LinkNow()), old(host), step, replies)
      ensures host == HostSelf(old(LinkNow()), old(host), step, replies)
      ensures old(fromhost) != ZERO ==> fromhost == old(fromhost)
    {
      ghost var s := State();
      HostKeepsReads(s, step, replies);
      HostKeepsCount(s, step, replies);
      var l := HostLink(LinkNow(), host, step, replies);
      host := HostSelf(LinkNow(), host, step, replies);
      tohost, fromhost := l.tohost, l.fromhost;
      assert State() == HostNext(s, step, replies);
    }

    /** The host does one thing or nothing; when its patience is used up it attends to tohost. */
    method HostTurn()
      requires Valid()
      modifies `tohost, `fromhost, `host, `patience
      ensures Valid()
      ensures tohost == old(tohost) || tohost == ZERO
      ensures old(fromhost) != ZERO ==> fromhost == old(fromhost)
      ensures tohost != ZERO ==>
                ToGo(tohost, host) < old(ToGo(tohost, host))
                || (ToGo(tohost, host) == old(ToGo(tohost, host)) && patience < old(patience))
    {
      var step: Step := *;
      var urgent := patience == 0;
      if urgent {
        step := Urgent(host);
        patience := *;
      } else {
        patience := patience - 1;
      }
      if HostEnabled(LinkNow(), host, step, replies) {
        HostNearsZero(LinkNow(), host, step, replies);
        HostDoes(step);
      }
    }

    /** Whatever the host does between two statements of the target. */
    method HostTurns()
      requires Valid()
      modifies `tohost, `fromhost, `host, `patience
      ensures Valid()
      ensures tohost == old(tohost) || tohost == ZERO
      ensures old(fromhost) != ZERO ==> fromhost == old(fromhost)
    {
      var turns: nat := *;
      while turns > 0
        invariant Valid()
        invariant tohost == old(tohost) || tohost == ZERO
        invariant old(fromhost) != ZERO ==> fromhost == old(fromhost)
      {
        HostTurn();
        turns := turns - 1;
      }
    }

    /** The topmost activity has made the access of its step, coming from state s. */
    ghost method Record(s: Sys)
      requires ReadInv(s, replies) && Replies(replies) && s.stack != []
      requires s.host == host && s.log == log && s.stack == stack && LinkNow() == RunLink(s.link, Top(s).pc)
      modifies `stack, `log
      ensures State() == RunNext(s) && Valid()
    {
      RunKeepsReads(s, replies);
      stack, log := RunNext(s).stack, RunNext(s).log;
      assert State() == RunNext(s);
    }

    /** The access made from state s by the topmost activity has been made. */
    ghost predicate Accessed(s: Sys, l: Link)
      reads this
    {
      && s.host == host && s.log == log && s.stack == stack && LinkNow() == l
      && s.stack != [] && ReadInv(s, replies) && Replies(replies)
    }

    ghost method RecordWait(s: Sys)
      requires Accessed(s, s.link) && Top(s).pc.Wait? && s.link.tohost == ZERO
      modifies `stack, `log
      ensures Valid() && log == s.log && stack == Pop(s) + [Top(s).(pc := Store(Top(s).pc.word))]
    {
      RunsWait(s);
      Record(s);
    }

    ghost method RecordStore(s: Sys, word: Word)
      requires s.stack != [] && Top(s).pc == Store(word) && Accessed(s, s.link.(tohost := word))
      modifies `stack, `log
      ensures Valid() && log == s.log.(stored := s.log.stored + [word])
      ensures stack == Pop(s) + [Top(s).(pc := Drain(word, |s.log.stored|))]
    {
      RunsStore(s);
      Record(s);
    }

    ghost method RecordDrain(s: Sys)
      requires Accessed(s, s.link) && Top(s).pc.Drain? && s.link.tohost == ZERO
      modifies `stack, `log
      ensures Valid() && log == s.log.(sent := s.log.sent + [Top(s).pc])
      ensures stack == Pop(s) + if Top(s).intr then [Top(s).(pc := SetPending)] else []
    {
      RunsDrain(s);
      Record(s);
    }

    ghost method RecordPoll(s: Sys)
      requires Accessed(s, s.link) && Top(s).pc.Poll?
      modifies `stack, `log
      ensures Valid() && log == s.log
      ensures stack == Pop(s) + [Polled(Top(s)).(pc := AfterPoll(s.link.fromhost))]
    {
      RunsPoll(s);
      Record(s);
    }

    ghost method RecordZeroReply(s: Sys)
      requires s.stack != [] && Top(s).pc.ZeroReply? && Accessed(s, s.link.(fromhost := ZERO))
      modifies `stack, `log
      ensures Valid() && log == s.log && stack == Pop(s) + [Top(s).(pc := ClearPending(Top(s).pc.reply))]
    {
      RunsZeroReply(s);
      Record(s);
    }

    ghost method RecordClearPending(s: Sys)
      requires s.stack != [] && Top(s).pc.ClearPending? && Accessed(s, s.link.(pending := false))
      modifies `stack, `log
      ensures Valid() && log.delivered == s.log.delivered
      ensures HasChar(Top(s).pc.reply) ==> log == s.log && stack == Pop(s) + [Top(s).(pc := Deliver(Top(s).pc.reply))]
      ensures !HasChar(Top(s).pc.reply) ==> stack == Pop(s) && ReturnedAt(Top(s), s.log.ends)
    {
      if HasChar(Top(s).pc.reply) {
        RunsClearPending(s);
      } else {
        RunsReject(s);
      }
      Record(s);
    }

    ghost method RecordCheckPending(s: Sys)
      requires Accessed(s, s.link) && Top(s).pc.CheckPending? && !s.link.pending
      modifies `stack, `log
      ensures Valid() && log == s.log && stack == Pop(s) + [Top(s).(pc := Wait(READ))]
    {
      RunsCheckPending(s);
      Record(s);
    }

    ghost method RecordReturn(s: Sys)
      requires s.stack != [] && (Top(s).pc.SetPending? || (Top(s).pc.CheckPending? && s.link.pending))
      requires Accessed(s, s.link.(pending := true))
      modifies `stack, `log
      ensures Valid() && log.delivered == s.log.delivered && stack == Pop(s) && ReturnedAt(Top(s), s.log.ends)
    {
      RunsReturn(s);
      Record(s);
    }

    ghost method RecordDeliver(s: Sys)
      requires Accessed(s, s.link) && Top(s).pc.Deliver?
      modifies `stack, `log
      ensures Valid() && log.ends == s.log.ends
      ensures log.delivered == s.log.delivered + [CharOf(Top(s).pc.reply)]
      ensures stack == Pop(s) + [Top(s).(pc := Poll, got := Top(s).got + 1)]
    {
      RunsDeliver(s);
      Record(s);
    }

    /** The uartintr that was at f returned. */
    ghost predicate ReturnedAt(f: Frame, ends: seq<Return>)
      reads this
    {
      && |log.ends| == |ends| + 1 && log.ends[..|ends|] == ends
      && log.ends[|ends|].polls == f.polls && log.ends[|ends|].got == f.got
    }

    // ----- activities that interrupt a send ---------------------------------------------------------

    ghost predicate SameInput(l: Log)
      reads this
    {
      log.consumed == l.consumed && log.delivered == l.delivered && log.ends == l.ends
    }

    /** Whatever happens between two statements of a send while other sends may nest up to this depth;
        0 stands for interrupts being off. */
    method Interlude(nesting: nat)
      requires Valid()
      modifies this
      ensures Valid() && stack == old(stack) && readPending == old(readPending) && SameInput(old(log))
      ensures old(fromhost) != ZERO ==> fromhost == old(fromhost)
      ensures old(log.stored) <= log.stored && (nesting == 0 ==> log == old(log))
      decreases nesting, 0
    {
      var turns: nat := *;
      while turns > 0
        invariant Valid() && stack == old(stack) && readPending == old(readPending) && SameInput(old(log))
        invariant old(fromhost) != ZERO ==> fromhost == old(fromhost)
        invariant old(log.stored) <= log.stored && (nesting == 0 ==> log == old(log))
      {
        HostTurn();
        if nesting > 0 {
          Interrupt(nesting - 1);
        }
        turns := turns - 1;
      }
    }

    /** Another activity sends a character, or not. */
    method Interrupt(nesting: nat)
      requires Valid()
      modifies this
      ensures Valid() && stack == old(stack) && readPending == old(readPending) && SameInput(old(log))
      ensures old(fromhost) != ZERO ==> fromhost == old(fromhost)
      ensures old(log.stored) <= log.stored
      decreases nesting, 5
    {
      var happens: bool := *;
      if happens {
        var c: bv64 := *;
        ghost var at := UartputcSync(c, nesting);
      }
    }

    // ----- htif_send ------------------------------------------------------------------------------

    /** htif_send, called by the topmost activity: the word is stored exactly once, after every word
        stored before the call, and the host has taken all of them when the call returns. With no
        other sends nested in it, nothing else is stored. */
    method HtifSend(word: Word, nesting: nat) returns (ghost at: nat)
      requires Valid() && stack != [] && stack[|stack| - 1].pc == Wait(word)
      modifies this
      ensures Valid() && readPending == old(readPending) && SameInput(old(log))
      ensures old(fromhost) != ZERO ==> fromhost == old(fromhost)
      ensures stack == old(stack[..|stack| - 1]) + [old(stack[|stack| - 1]).(pc := Drain(word, at))]
      ensures StoredAt(old(log.stored), at, word) && tohost == ZERO && host.taken == log.stored
      ensures nesting == 0 ==> at == |old(log.stored)| && log == old(log).(stored := old(log.stored) + [word])
      decreases nesting, 3
    {
      AwaitZero(nesting);
      at := StoreWord(word, nesting);
      AwaitZero(nesting);
      Emptied();
    }

    /** After the words that were stored before, the target stored this one at that position. */
    ghost predicate StoredAt(before: seq<Word>, at: nat, word: Word)
      reads this
    {
      before <= log.stored && |before| <= at < |log.stored| && log.stored[at] == word
    }

    /** The wait for the host to take what is in tohost, with finitely many interrupts. */
    method AwaitZero(nesting: nat)
      requires Valid()
      modifies this
      ensures Valid() && tohost == ZERO
      ensures stack == old(stack) && readPending == old(readPending) && SameInput(old(log))
      ensures old(fromhost) != ZERO ==> fromhost == old(fromhost)
      ensures old(log.stored) <= log.stored && (nesting == 0 ==> log == old(log))
      decreases nesting, 1
    {
      var interrupts: nat := *;
      while tohost != ZERO
        invariant Valid() && stack == old(stack) && readPending == old(readPending) && SameInput(old(log))
        invariant old(fromhost) != ZERO ==> fromhost == old(fromhost)
        invariant old(log.stored) <= log.stored && (nesting == 0 ==> log == old(log))
        decreases interrupts, ToGo(tohost, host), patience
      {
        if nesting > 0 && interrupts > 0 {
          Interrupt(nesting - 1);
          interrupts := interrupts - 1;
        } else {
          HostTurn();
        }
      }
    }

    /** The store to tohost after it was read as zero. */
    method StoreWord(word: Word, nesting: nat) returns (ghost at: nat)
      requires Valid() && stack != [] && stack[|stack| - 1].pc == Wait(word) && tohost == ZERO
      modifies this
      ensures Valid() && readPending == old(readPending) && SameInput(old(log))
      ensures old(fromhost) != ZERO ==> fromhost == old(fromhost)
      ensures stack == old(stack[..|stack| - 1]) + [old(stack[|stack| - 1]).(pc := Drain(word, at))]
      ensures StoredAt(old(log.stored), at, word)
      ensures nesting == 0 ==> at == |old(log.stored)| && log == old(log).(stored := old(log.stored) + [word])
      decreases nesting, 2
    {
      SeeZero(word, nesting);
      at := |log.stored|;
      PutWordAndGo(word, nesting);
    }

    /** htif_send has seen tohost at zero and is about to store. */
    method SeeZero(word: Word, nesting: nat)
      requires Valid() && stack != [] && stack[|stack| - 1].pc == Wait(word) && tohost == ZERO
      modifies this
      ensures Valid() && readPending == old(readPending) && SameInput(old(log))
      ensures old(fromhost) != ZERO ==> fromhost == old(fromhost)
      ensures stack == old(stack[..|stack| - 1]) + [old(stack[|stack| - 1]).(pc := Store(word))]
      ensures old(log.stored) <= log.stored && (nesting == 0 ==> log == old(log))
      decreases nesting, 1
    {
      RecordWait(State());
      Interlude(nesting);
    }

    method PutWordAndGo(word: Word, nesting: nat)
      requires Valid() && stack != [] && stack[|stack| - 1].pc == Store(word)
      modifies this
      ensures Valid() && readPending == old(readPending) && SameInput(old(log))
      ensures old(fromhost) != ZERO ==> fromhost == old(fromhost)
      ensures stack == old(stack[..|stack| - 1]) + [old(stack[|stack| - 1]).(pc := Drain(word, |old(log.stored)|))]
      ensures StoredAt(old(log.stored), |old(log.stored)|, word)
      ensures nesting == 0 ==> log == old(log).(stored := old(log.stored) + [word])
      decreases nesting, 1
    {
      PutWord(word);
      Interlude(nesting);
    }

    /** The store to tohost. */
    method PutWord(word: Word)
      requires Valid() && stack != [] && stack[|stack| - 1].pc == Store(word)
      modifies `tohost, `stack, `log
      ensures Valid() && log == old(log).(stored := old(log.stored) + [word])
      ensures stack == old(stack[..|stack| - 1]) + [old(stack[|stack| - 1]).(pc := Drain(word, |old(log.stored)|))]
    {
      ghost var s := State();
      tohost := word;
      RecordStore(s, word);
    }

    lemma Emptied()
      requires Valid() && tohost == ZERO
      ensures host.taken == log.stored
    {
      assert InTohost(LinkNow()) == [];
    }

    // ----- uartputc_sync and uartwrite ------------------------------------------------------------

    /** A new activity starts on top of the others. */
    ghost method Start(step: Step)
      requires Valid() && (step.StartSend? || step.StartIntr?) && Enabled(State(), step, replies)
      modifies `stack
      ensures Valid()
      ensures step.StartSend? ==> stack == old(stack) + [Frame(false, Wait(WriteOf(step.c)), 0, 0)]
      ensures step.StartIntr? ==> stack == old(stack) + [Frame(true, Poll, 0, 0)]
    {
      StartKeepsReads(State(), step, replies);
      stack := Next(State(), step, replies).stack;
      assert State() == Next(old(State()), step, replies);
    }

    /** One character out: when the call returns the host has taken it, after everything stored before
        the call, and the activities below and the input side are as they were. */
    method UartputcSync(c: bv64, nesting: nat) returns (ghost at: nat)
      requires Valid()
      modifies this
      ensures Valid() && stack == old(stack) && readPending == old(readPending) && SameInput(old(log))
      ensures old(fromhost) != ZERO ==> fromhost == old(fromhost)
      ensures StoredAt(old(log.stored), at, WriteOf(c)) && tohost == ZERO && host.taken == log.stored
      ensures nesting == 0 ==> log.stored == old(log.stored) + [WriteOf(c)]
      decreases nesting, 4
    {
      Start(StartSend(c));
      at := HtifSend(WriteOf(c), nesting);
      ghost var s := State();
      RecordDrain(s);
      assert stack == old(stack);
    }

    /** uartwrite: when it returns, the host has taken all bytes of the buffer in order, whatever other
        sends came between; under htif_tx_lock, which keeps interrupts off, nothing did. */
    method UartWrite(buf: seq<bv64>, nesting: nat) returns (ghost at: seq<nat>)
      requires Valid()
      modifies this
      ensures Valid() && stack == old(stack) && readPending == old(readPending) && SameInput(old(log))
      ensures InOrder(at, buf, log.stored, |old(log.stored)|) && forall i, j | 0 <= i < j < |at| :: at[i] < at[j]
      ensures buf != [] ==> host.taken == log.stored
      ensures nesting == 0 ==> log.stored == old(log.stored) + Bytes(buf)
    {
      var i := 0;
      at := [];
      while i < |buf|
        invariant 0 <= i <= |buf|
        invariant Valid() && stack == old(stack) && readPending == old(readPending) && SameInput(old(log))
        invariant InOrder(at, buf[..i], log.stored, |old(log.stored)|) && |old(log.stored)| <= |log.stored|
        invariant nesting == 0 ==> log.stored == old(log.stored) + Bytes(buf[..i])
        invariant i > 0 ==> host.taken == log.stored
      {
        ghost var words := log.stored;
        ghost var k := PutByte(buf, i, nesting, old(log.stored));
        InOrderMore(at, buf, i, words, log.stored, |old(log.stored)|, k);
        at := at + [k];
        i := i + 1;
      }
      assert buf[..|buf|] == buf;
    }

    method PutByte(buf: seq<bv64>, i: nat, nesting: nat, ghost before: seq<Word>) returns (ghost at: nat)
      requires Valid() && i < |buf|
      requires nesting == 0 ==> log.stored == before + Bytes(buf[..i])
      modifies this
      ensures Valid() && stack == old(stack) && readPending == old(readPending) && SameInput(old(log))
      ensures StoredAt(old(log.stored), at, WriteOf(buf[i])) && host.taken == log.stored
      ensures nesting == 0 ==> log.stored == before + Bytes(buf[..i + 1])
    {
      at := UartputcSync(buf[i], nesting);
      BytesPush(buf, i);
    }

    // ----- htif_getc and uartintr -----------------------------------------------------------------

    ghost function TopFrame(): Frame
      requires stack != []
      reads this
    {
      stack[|stack| - 1]
    }

    /** htif_getc, called by the uartintr on top of the stack. A reply that is waiting is taken out of
        fromhost; a character in it is handed to uartintr. Otherwise uartintr is over, after a new
        read has been sent if none was outstanding. */
    method HtifGetc() returns (c: Getc)
      requires Valid() && stack != [] && TopFrame().intr && TopFrame().pc == Poll
      modifies this
      ensures Valid() && log.delivered == old(log.delivered)
      ensures c.Char? ==> Handing(old(stack), c.c) && log.ends == old(log.ends) && old(TopFrame().polls) == 0
      ensures c.NoChar? ==> stack == old(stack[..|stack| - 1]) && ReturnedAt(Polled(old(TopFrame())), old(log.ends))
      ensures old(fromhost) != ZERO ==> c == CharIn(old(fromhost))
      ensures old(fromhost.v) & 0x100 != 0 ==> c == Char(old(fromhost.v) & 0xff)
    {
      CharsInReply(fromhost);
      var fh := Look();
      if fh != ZERO {
        c := TakeReply(fh);
      } else {
        AskForReply();
        c := NoChar;
      }
    }

    /** The load of fromhost. */
    method Look() returns (fh: Word)
      requires Valid() && stack != [] && TopFrame().intr && TopFrame().pc == Poll
      modifies `tohost, `fromhost, `host, `patience, `stack, `log
      ensures Valid() && log == old(log)
      ensures stack == old(stack[..|stack| - 1])
                       + [Polled(old(TopFrame())).(pc := AfterPoll(fh))]
      ensures old(fromhost) != ZERO ==> fh == old(fromhost)
    {
      HostTurns();
      fh := fromhost;
      RecordPoll(State());
    }

    /** uartintr is about to pass character c to consoleintr, with one more poll than before. */
    ghost predicate Handing(before: seq<Frame>, c: bv64)
      requires before != []
      reads this
    {
      var top := |before| - 1;
      && |stack| == |before| && stack[..top] == before[..top]
      && stack[top].pc.Deliver? && CharOf(stack[top].pc.reply) == c && HasChar(stack[top].pc.reply)
      && stack[top].intr && stack[top].polls == before[top].polls + 1 && stack[top].got == before[top].got
    }

    /** The branch of htif_getc for a reply. */
    method TakeReply(fh: Word) returns (c: Getc)
      requires Valid() && stack != [] && TopFrame().intr && TopFrame().pc == ZeroReply(fh)
      modifies this
      ensures Valid() && log.delivered == old(log.delivered) && old(TopFrame().polls) == 1
      ensures HasChar(fh) ==>
                && c == CharIn(fh) && log == old(log)
                && stack == old(stack[..|stack| - 1] + [TopFrame().(pc := Deliver(fh))])
      ensures !HasChar(fh) ==>
                c == CharIn(fh) && stack == old(stack[..|stack| - 1]) && ReturnedAt(old(TopFrame()), old(log.ends))
    {
      ZeroFromhost(fh);
      HostTurns();
      ghost var s := State();
      readPending := false;
      RecordClearPending(s);
      c := CharIn(fh);
    }

    /** The store that lets the host send its next reply. */
    method ZeroFromhost(ghost fh: Word)
      requires Valid() && stack != [] && TopFrame().intr && TopFrame().pc == ZeroReply(fh)
      modifies this
      ensures Valid() && log == old(log) && old(TopFrame().polls) == 1
      ensures stack == old(stack[..|stack| - 1] + [TopFrame().(pc := ClearPending(fh))])
    {
      assert Disciplined(stack[|stack| - 1], readPending, Outstanding(LinkNow(), host), fromhost);
      HostTurns();
      ghost var s := State();
      fromhost := ZERO;
      RecordZeroReply(s);
    }

    /** The branch of htif_getc for an empty fromhost. */
    method AskForReply()
      requires Valid() && stack != [] && TopFrame().intr && TopFrame().pc == CheckPending
      modifies this
      ensures Valid() && log.delivered == old(log.delivered) && stack == old(stack[..|stack| - 1])
      ensures ReturnedAt(old(TopFrame()), old(log.ends))
    {
      HostTurns();
      if readPending {
        RecordReturn(State());
      } else {
        RecordCheckPending(State());
        SendRead();
      }
    }

    method SendRead()
      requires Valid() && stack != [] && TopFrame().intr && TopFrame().pc == Wait(READ)
      modifies this
      ensures Valid() && log.delivered == old(log.delivered) && stack == old(stack[..|stack| - 1])
      ensures ReturnedAt(old(TopFrame()), old(log.ends))
    {
      SendReadWord();
      SetReadPending();
    }

    /** Sending the read command. */
    method SendReadWord()
      requires Valid() && stack != [] && TopFrame().intr && TopFrame().pc == Wait(READ)
      modifies this
      ensures Valid() && SameInput(old(log))
      ensures stack == old(stack[..|stack| - 1] + [TopFrame().(pc := SetPending)])
    {
      ghost var at := HtifSend(READ, 0);
      RecordDrain(State());
    }

    /** Setting read_pending, with which htif_getc and uartintr return. */
    method SetReadPending()
      requires Valid() && stack != [] && TopFrame().intr && TopFrame().pc.SetPending?
      modifies this
      ensures Valid() && log.delivered == old(log.delivered) && stack == old(stack[..|stack| - 1])
      ensures ReturnedAt(old(TopFrame()), old(log.ends))
    {
      HostTurns();
      ghost var s := State();
      readPending := true;
      RecordReturn(s);
    }

    /** consoleintr: it may echo any characters; the one it was given is then delivered. */
    method ConsoleIntr()
      requires Valid() && stack != [] && TopFrame().intr && TopFrame().pc.Deliver?
      modifies this
      ensures Valid() && log.ends == old(log.ends)
      ensures log.delivered == old(log.delivered) + [old(CharOf(TopFrame().pc.reply))]
      ensures stack == old(stack[..|stack| - 1] + [TopFrame().(pc := Poll, got := TopFrame().got + 1)])
    {
      Echo();
      RecordDeliver(State());
    }

    /** Any characters sent while a character is handled. */
    method Echo()
      requires Valid()
      modifies this
      ensures Valid() && stack == old(stack) && SameInput(old(log))
    {
      var echoes: nat := *;
      while echoes > 0
        invariant Valid() && stack == old(stack) && SameInput(old(log))
      {
        var c: bv64 := *;
        ghost var at := UartputcSync(c, 0);
        echoes := echoes - 1;
      }
    }

    /** One more uartintr has returned, and consoleintr got as many characters as it counts. */
    ghost predicate Finished(l: Log)
      reads this
    {
      && |log.ends| == |l.ends| + 1 && l.delivered <= log.delivered
      && |log.delivered| == |l.delivered| + log.ends[|l.ends|].got
    }

    /** A uartintr that started over these activities, with this log and this word in fromhost, has just
        polled: it has a character in hand or is finished. Of a reply that was waiting at the start,
        every character has been delivered or is in hand. */
    ghost predicate Going(below: seq<Frame>, l: Log, waiting: Word, c: Getc)
      reads this
    {
      && (c.Char? ==> Handing(below + [Frame(true, Poll, 0, 0)], c.c))
      && (c.Char? ==> log.ends == l.ends && log.delivered == l.delivered)
      && (c.NoChar? ==> stack == below && Finished(l))
      && (waiting != ZERO ==> log.delivered + CharsIn(c) == l.delivered + CharsIn(CharIn(waiting)))
    }

    /** uartintr: it terminates, after at most two polls and at most one character, and gives
        consoleintr exactly the characters it counts; that is the character of the reply that was waiting,
        if there was one. */
    method UartIntr()
      requires Valid() && !HasIntr(stack)
      modifies this
      ensures Valid() && stack == old(stack)
      ensures Finished(old(log)) && Ended(log.ends[|old(log.ends)|])
      ensures |log.delivered| == |old(log.delivered)| + log.ends[|old(log.ends)|].got
      ensures old(fromhost) != ZERO ==> log.delivered == old(log.delivered) + CharsIn(CharIn(old(fromhost)))
      ensures old(fromhost.v) & 0x100 != 0 ==> log.delivered == old(log.delivered) + [old(fromhost.v) & 0xff]
    {
      CharsInReply(fromhost);
      var c := FirstPoll();
      while c != NoChar
        invariant Valid() && Going(old(stack), old(log), old(fromhost), c)
        decreases if c.Char? then 1 else 0
      {
        c := DeliverAndPoll(old(stack), old(log), old(fromhost), c);
      }
    }

    method FirstPoll() returns (c: Getc)
      requires Valid() && !HasIntr(stack)
      modifies this
      ensures Valid() && Going(old(stack), old(log), old(fromhost), c)
    {
      Start(StartIntr);
      c := HtifGetc();
    }

    /** The body of the loop: the character goes to consoleintr, and the poll after it finds nothing,
        because no read is outstanding then. */
    method DeliverAndPoll(ghost below: seq<Frame>, ghost l: Log, ghost waiting: Word, c: Getc) returns (next: Getc)
      requires Valid() && c.Char? && Going(below, l, waiting, c)
      modifies this
      ensures Valid() && next == NoChar && Going(below, l, waiting, next)
    {
      ConsoleIntr();
      assert stack == below + [Frame(true, Poll, 1, 1)];
      next := HtifGetc();
      assert log.delivered == l.delivered + [c.c];
    }
  }
}
