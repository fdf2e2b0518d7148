/** The HTIF console as a two-party protocol over the shared words tohost and fromhost. The target
    runs a stack of kernel activities: `htif_send` calls and at most one `uartintr`, each entered
    between any two steps of the one below it and finished before that one goes on. The host reads
    tohost, zeroes it and then acts, in separate steps; it writes fromhost only after it read it as
    0. Every step below is one access to a shared word. */
module HtifProtocol {
  import opened Basics

  /** A 64-bit shared word. */
  datatype Word = W(v: bv64)

  const ZERO := W(0)

  // ----- command words --------------------------------------------------------------------------

  const DEV_BCD: bv64 := 1
  const CMD_READ: bv64 := 0
  const CMD_WRITE: bv64 := 1

  /** The word that htif_send stores. */
  function Pack(dev: bv64, cmd: bv64, payload: bv64): Word {
    W((dev << 56) | (cmd << 48) | (payload & 0xffff_ffff_ffff))
  }

  const READ: Word := Pack(DEV_BCD, CMD_READ, 0)

  /** What uartputc_sync and uartwrite send for a character. */
  function WriteOf(c: bv64): Word {
    Pack(DEV_BCD, CMD_WRITE, c & 0xff)
  }

  function Dev(w: Word): bv64 { w.v >> 56 }
  function Cmd(w: Word): bv64 { (w.v >> 48) & 0xff }
  function Payload(w: Word): bv64 { w.v & 0xffff_ffff_ffff }

  /** Packed words decode to their three parts and, from a device other than 0, are never 0. */
  lemma PackDecodes(dev: bv64, cmd: bv64, payload: bv64)
    requires dev < 0x100 && cmd < 0x100
    ensures Dev(Pack(dev, cmd, payload)) == dev && Cmd(Pack(dev, cmd, payload)) == cmd
    ensures Payload(Pack(dev, cmd, payload)) == payload & 0xffff_ffff_ffff
    ensures dev != 0 ==> Pack(dev, cmd, payload) != ZERO
  {
  }

  predicate IsWrite(w: Word) {
    w != ZERO && w != READ
  }

  /** The words on the wire: device 1, command 1 and the character for a write; device 1, command 0 and
      nothing else for a read. */
  lemma WriteWords(c: bv64)
    ensures WriteOf(c).v == 0x0101_0000_0000_0000 | (c & 0xff) && READ.v == 0x0100_0000_0000_0000
    ensures Dev(WriteOf(c)) == 1 && Cmd(WriteOf(c)) == 1 && Payload(WriteOf(c)) == c & 0xff
    ensures Dev(READ) == 1 && Cmd(READ) == 0 && Payload(READ) == 0
    ensures IsWrite(WriteOf(c)) && READ != ZERO
  {
  }

  /** A reply carries a character exactly if bit 8 is set. */
  predicate HasChar(reply: Word) {
    reply.v & 0x100 != 0
  }

  function CharOf(reply: Word): bv64 {
    reply.v & 0xff
  }

  /** The host's reply for a character. */
  function ReplyOf(ch: bv64): Word {
    W(0x100 | ch)
  }

  /** It is read back as that character; a word without bit 8 is none. */
  lemma ReplyCarriesChar(ch: bv64)
    requires ch < 0x100
    ensures ReplyOf(ch) == W(0x100 | ch)
    ensures HasChar(ReplyOf(ch)) && CharOf(ReplyOf(ch)) == ch && !HasChar(W(ch)) && ReplyOf(ch) != ZERO
  {
  }

  /** The characters in a sequence of replies. */
  function Chars(replies: seq<Word>): seq<bv64> {
    if replies == [] then []
    else Chars(replies[..|replies| - 1])
         + (if HasChar(replies[|replies| - 1]) then [CharOf(replies[|replies| - 1])] else [])
  }

  // ----- state ----------------------------------------------------------------------------------

  /** The next step of an activity. Wait, Store and Drain are the three statements of htif_send,
      Drain with the position of the word among all words stored; the others belong to uartintr and
      htif_getc. */
  datatype Pc =
    | Wait(word: Word)
    | Store(word: Word)
    | Drain(word: Word, at: nat)
    | Poll
    | ZeroReply(reply: Word)
    | ClearPending(reply: Word)
    | Deliver(reply: Word)
    | CheckPending
    | SetPending

  /** An activity; `polls` and `got` count the htif_getc calls and characters of a uartintr. */
  datatype Frame = Frame(intr: bool, pc: Pc, polls: nat, got: nat)

  /** What the host is doing with tohost: nothing, holding a word it read, or about to act on a word
      it read and then zeroed. */
  datatype Hands = Idle | Latched(word: Word) | Zeroed(word: Word)

  /** The shared words and the driver's read_pending. */
  datatype Link = Link(tohost: Word, fromhost: Word, pending: bool)

  /** The host: its hands, the words it has taken (zeroed) and acted on so far, the reads it has been
      asked for, a reply it has ready, whether it has seen fromhost read as 0 for it, and how many
      replies it has produced. */
  datatype Host = Host(hands: Hands, taken: seq<Word>, acted: seq<Word>,
                       asked: nat, answer: seq<Word>, armed: bool, used: nat)

  /** How a uartintr returned: its htif_getc calls, its characters, whether the last reply it saw
      carried no character, and the reads outstanding at that moment. */
  datatype Return = Return(polls: nat, got: nat, rejected: bool, outstanding: nat)

  /** The history of the target: words stored, sends finished, replies consumed, characters given to
      consoleintr, and the uartintr calls that returned. */
  datatype Log = Log(stored: seq<Word>, sent: seq<Pc>, consumed: seq<Word>, delivered: seq<bv64>,
                     ends: seq<Return>)

  datatype Sys = Sys(link: Link, host: Host, log: Log, stack: seq<Frame>)

  function Top(s: Sys): Frame
    requires s.stack != []
  {
    s.stack[|s.stack| - 1]
  }

  function Pop(s: Sys): seq<Frame>
    requires s.stack != []
  {
    s.stack[..|s.stack| - 1]
  }

  // ----- steps ----------------------------------------------------------------------------------

  datatype Step = HostLatch | HostZero | HostAct | HostAnswer | HostArm | HostReply
                | StartSend(c: bv64) | StartIntr | Run

  predicate HasIntr(stack: seq<Frame>) {
    exists i :: 0 <= i < |stack| && stack[i].intr
  }

  /** Read commands between the target's store and its load of the reply. */
  function Outstanding(l: Link, h: Host): nat {
    One(l.tohost == READ) + One(h.hands == Zeroed(READ)) + h.asked + |h.answer| + One(l.fromhost != ZERO)
  }

  predicate OfHost(step: Step) {
    !step.Run? && !step.StartSend? && !step.StartIntr?
  }

  predicate HostEnabled(l: Link, h: Host, step: Step, replies: seq<Word>) {
    match step
    case HostLatch => h.hands.Idle? && l.tohost != ZERO
    case HostZero => h.hands.Latched?
    case HostAct => h.hands.Zeroed?
    case HostAnswer => h.asked > 0 && h.answer == [] && h.used < |replies|
    case HostArm => h.answer != [] && l.fromhost == ZERO
    case HostReply => h.answer != [] && h.armed
    case _ => false
  }

  /** One step of the host: to itself, */
  function HostSelf(l: Link, h: Host, step: Step, replies: seq<Word>): Host
    requires HostEnabled(l, h, step, replies)
  {
    match step
    case HostLatch => h.(hands := Latched(l.tohost))
    case HostZero => h.(hands := Zeroed(h.hands.word), taken := h.taken + [h.hands.word])
    case HostAct =>
      h.(hands := Idle, acted := h.acted + [h.hands.word],
         asked := if h.hands.word == READ then h.asked + 1 else h.asked)
    case HostAnswer => h.(asked := h.asked - 1, answer := [replies[h.used]], used := h.used + 1)
    case HostArm => h.(armed := true)
    case HostReply => h.(answer := [], armed := false)
  }

  /** and to the shared words. */
  function HostLink(l: Link, h: Host, step: Step, replies: seq<Word>): Link
    requires HostEnabled(l, h, step, replies)
  {
    match step
    case HostZero => l.(tohost := ZERO)
    case HostReply => l.(fromhost := h.answer[0])
    case _ => l
  }

  predicate Enabled(s: Sys, step: Step, replies: seq<Word>) {
    match step
    case StartSend(_) => true
    case StartIntr => !HasIntr(s.stack)
    case Run => s.stack != []
    case _ => HostEnabled(s.link, s.host, step, replies)
  }

  function HostNext(s: Sys, step: Step, replies: seq<Word>): Sys
    requires Enabled(s, step, replies) && OfHost(step)
  {
    s.(link := HostLink(s.link, s.host, step, replies), host := HostSelf(s.link, s.host, step, replies))
  }

  /** The accesses of one step to the shared words and to read_pending. */
  function RunLink(l: Link, pc: Pc): Link {
    match pc
    case Store(w) => l.(tohost := w)
    case ZeroReply(_) => l.(fromhost := ZERO)
    case ClearPending(_) => l.(pending := false)
    case SetPending => l.(pending := true)
    case _ => l
  }

  /** Where the activity goes on after the step; nothing when it returns. */
  function RunFrame(f: Frame, l: Link, stored: nat): seq<Frame> {
    match f.pc
    // htif_send
    case Wait(w) => [if l.tohost != ZERO then f else f.(pc := Store(w))]
    case Store(w) => [f.(pc := Drain(w, stored))]
    case Drain(w, _) => if l.tohost != ZERO then [f] else if f.intr then [f.(pc := SetPending)] else []
    // htif_getc
    case Poll => [f.(polls := f.polls + 1, pc := if l.fromhost != ZERO then ZeroReply(l.fromhost) else CheckPending)]
    case ZeroReply(r) => [f.(pc := ClearPending(r))]
    case ClearPending(r) => if HasChar(r) then [f.(pc := Deliver(r))] else []
    case CheckPending => if l.pending then [] else [f.(pc := Wait(READ))]
    case SetPending => []
    // consoleintr, and round the loop of uartintr
    case Deliver(r) => [f.(pc := Poll, got := f.got + 1)]
  }

  function RunLog(f: Frame, l: Link, h: Host, log: Log): Log {
    match f.pc
    case Store(w) => log.(stored := log.stored + [w])
    case Drain(_, _) => if l.tohost != ZERO then log else log.(sent := log.sent + [f.pc])
    case ClearPending(r) =>
      if HasChar(r) then log
      else log.(consumed := log.consumed + [r], ends := log.ends + [Return(f.polls, f.got, true, Outstanding(l, h))])
    case CheckPending =>
      if l.pending then log.(ends := log.ends + [Return(f.polls, f.got, false, Outstanding(l, h))]) else log
    case SetPending => log.(ends := log.ends + [Return(f.polls, f.got, false, Outstanding(l, h))])
    case Deliver(r) => log.(consumed := log.consumed + [r], delivered := log.delivered + [CharOf(r)])
    case _ => log
  }

  /** One step of the topmost activity. */
  function RunNext(s: Sys): Sys
    requires s.stack != []
  {
    Sys(RunLink(s.link, Top(s).pc), s.host, RunLog(Top(s), s.link, s.host, s.log),
        Pop(s) + RunFrame(Top(s), s.link, |s.log.stored|))
  }

  /** What the step of the topmost activity is, statement by statement of htif_send: */
  lemma RunsWait(s: Sys)
    requires s.stack != [] && Top(s).pc.Wait? && s.link.tohost == ZERO
    ensures RunNext(s) == s.(stack := Pop(s) + [Top(s).(pc := Store(Top(s).pc.word))])
  {
  }

  lemma RunsStore(s: Sys)
    requires s.stack != [] && Top(s).pc.Store?
    ensures var w := Top(s).pc.word;
            RunNext(s) == s.(link := s.link.(tohost := w), log := s.log.(stored := s.log.stored + [w]),
                             stack := Pop(s) + [Top(s).(pc := Drain(w, |s.log.stored|))])
  {
  }

  /** the end of a send, whether of uartputc_sync or of the read command; */
  lemma RunsDrain(s: Sys)
    requires s.stack != [] && Top(s).pc.Drain? && s.link.tohost == ZERO
    ensures RunNext(s) == s.(log := s.log.(sent := s.log.sent + [Top(s).pc]),
                             stack := Pop(s) + if Top(s).intr then [Top(s).(pc := SetPending)] else [])
  {
  }

  /** and of htif_getc: */
  lemma RunsPoll(s: Sys)
    requires s.stack != [] && Top(s).pc.Poll?
    ensures var pc := if s.link.fromhost != ZERO then ZeroReply(s.link.fromhost) else CheckPending;
            RunNext(s) == s.(stack := Pop(s) + [Top(s).(polls := Top(s).polls + 1, pc := pc)])
  {
  }

  lemma RunsZeroReply(s: Sys)
    requires s.stack != [] && Top(s).pc.ZeroReply?
    ensures RunNext(s) == s.(link := s.link.(fromhost := ZERO),
                             stack := Pop(s) + [Top(s).(pc := ClearPending(Top(s).pc.reply))])
  {
  }

  lemma RunsClearPending(s: Sys)
    requires s.stack != [] && Top(s).pc.ClearPending? && HasChar(Top(s).pc.reply)
    ensures RunNext(s) == s.(link := s.link.(pending := false),
                             stack := Pop(s) + [Top(s).(pc := Deliver(Top(s).pc.reply))])
  {
  }

  lemma RunsReject(s: Sys)
    requires s.stack != [] && Top(s).pc.ClearPending? && !HasChar(Top(s).pc.reply)
    ensures var f := Top(s);
            RunNext(s) == Sys(s.link.(pending := false), s.host,
                              s.log.(consumed := s.log.consumed + [f.pc.reply],
                                     ends := s.log.ends + [Return(f.polls, f.got, true, Outstanding(s.link, s.host))]),
                              Pop(s))
  {
  }

  lemma RunsCheckPending(s: Sys)
    requires s.stack != [] && Top(s).pc.CheckPending? && !s.link.pending
    ensures RunNext(s) == s.(stack := Pop(s) + [Top(s).(pc := Wait(READ))])
  {
  }

  lemma RunsReturn(s: Sys)
    requires s.stack != [] && (Top(s).pc.SetPending? || (Top(s).pc.CheckPending? && s.link.pending))
    ensures var f := Top(s);
            RunNext(s) == Sys(s.link.(pending := true), s.host,
                              s.log.(ends := s.log.ends + [Return(f.polls, f.got, false, Outstanding(s.link, s.host))]),
                              Pop(s))
  {
  }

  lemma RunsDeliver(s: Sys)
    requires s.stack != [] && Top(s).pc.Deliver?
    ensures var r := Top(s).pc.reply;
            RunNext(s) == s.(log := s.log.(consumed := s.log.consumed + [r],
                                           delivered := s.log.delivered + [CharOf(r)]),
                             stack := Pop(s) + [Top(s).(pc := Poll, got := Top(s).got + 1)])
  {
  }

  function Next(s: Sys, step: Step, replies: seq<Word>): Sys
    requires Enabled(s, step, replies)
  {
    match step
    case StartSend(c) => s.(stack := s.stack + [Frame(false, Wait(WriteOf(c)), 0, 0)])
    case StartIntr => s.(stack := s.stack + [Frame(true, Poll, 0, 0)])
    case Run => RunNext(s)
    case _ => HostNext(s, step, replies)
  }

  /** A step that is not enabled does not happen. */
  function Trace(s: Sys, steps: seq<Step>, replies: seq<Word>): Sys
    decreases |steps|
  {
    if steps == [] then s
    else Trace(if Enabled(s, steps[0], replies) then Next(s, steps[0], replies) else s, steps[1..], replies)
  }

  /** After uartinit, with both words zero and no activity. */
  const START := Sys(Link(ZERO, ZERO, false), Host(Idle, [], [], 0, [], false, 0), Log([], [], [], [], []), [])
}
