/** One RISC-V hart as the trap layer of the port sees it: the registers and CSRs that a trap, the
    machine-mode handler or `mret` can touch, the trap rules of the RISC-V Privileged Architecture
    v1.12, and the part of the state that user and supervisor code can observe.

    The handler reaches memory through three pointers only: to the six words of its scratch area, to
    mtimecmp and to mtime. Those are fields of the hart; `mem` is all other memory. */
module HartModel {
  // ----- mstatus ------------------------------------------------------------------------------

  const SIE: bv64 := 0x2
  const MIE: bv64 := 0x8
  const SPIE: bv64 := 0x20
  const MPIE: bv64 := 0x80
  const SPP: bv64 := 0x100
  const MPP: bv64 := 0x1800
  const MPRV: bv64 := 0x20000
  const NAMED: bv64 := SIE | MIE | SPIE | MPIE | SPP | MPP | MPRV

  /** The bits of mstatus that sstatus exposes: SIE, SPIE, UBE, SPP, VS, FS, XS, SUM, MXR, UXL, SD. */
  const SSTATUS: bv64 := 0x8000_0003_000D_E762

  type ShownBits = b: bv64 | b & (NAMED | !SSTATUS) == 0 witness 0
  type HiddenBits = b: bv64 | b & (NAMED | SSTATUS) == 0 witness 0

  /** mstatus by field (section 3.1.6 of the Privileged Architecture). `shown` holds the other bits
      that S-mode can read through sstatus, `hidden` the ones it cannot. */
  datatype Status = Status(sie: bool, mie: bool, spie: bool, mpie: bool, spp: bool, mpp: Mode, mprv: bool,
                           shown: ShownBits, hidden: HiddenBits)

  function Decode(m: bv64): Status {
    Status(m & SIE != 0, m & MIE != 0, m & SPIE != 0, m & MPIE != 0, m & SPP != 0,
           if m & MPP == 0 then User else if m & MPP == 0x800 then Supervisor
           else if m & MPP == 0x1000 then Reserved else Machine,
           m & MPRV != 0, m & SSTATUS & !NAMED, m & !SSTATUS & !NAMED)
  }

  function Flag(on: bool, mask: bv64): bv64 {
    if on then mask else 0
  }

  function EncodeMode(mode: Mode): bv64 {
    match mode case User => 0 case Supervisor => 0x800 case Reserved => 0x1000 case Machine => 0x1800
  }

  function Encode(s: Status): bv64 {
    s.shown | s.hidden | EncodeMode(s.mpp) | Flag(s.sie, SIE) | Flag(s.mie, MIE) | Flag(s.spie, SPIE)
    | Flag(s.mpie, MPIE) | Flag(s.spp, SPP) | Flag(s.mprv, MPRV)
  }

  lemma FieldsReadBack(s: Status)
    ensures var d := Decode(Encode(s)); d.sie == s.sie && d.mie == s.mie && d.spie == s.spie
  {
  }

  lemma MoreFieldsReadBack(s: Status)
    ensures var d := Decode(Encode(s)); d.mpie == s.mpie && d.spp == s.spp && d.mprv == s.mprv
  {
  }

  lemma ModeReadsBack(s: Status)
    ensures Decode(Encode(s)).mpp == s.mpp
  {
  }

  lemma ShownReadsBack(s: Status)
    ensures Decode(Encode(s)).shown == s.shown
  {
  }

  lemma HiddenReadsBack(s: Status)
    ensures Decode(Encode(s)).hidden == s.hidden
  {
  }

  /** The fields are the whole register: no two values of mstatus share them ... */
  lemma FieldsRoundTrip(s: Status)
    ensures Decode(Encode(s)) == s
  {
    FieldsReadBack(s);
    MoreFieldsReadBack(s);
    ModeReadsBack(s);
    ShownReadsBack(s);
    HiddenReadsBack(s);
  }

  lemma FlagIsMasked(m: bv64)
    ensures Flag(m & SIE != 0, SIE) == m & SIE && Flag(m & MIE != 0, MIE) == m & MIE
    ensures Flag(m & SPIE != 0, SPIE) == m & SPIE && Flag(m & MPIE != 0, MPIE) == m & MPIE
    ensures Flag(m & SPP != 0, SPP) == m & SPP && Flag(m & MPRV != 0, MPRV) == m & MPRV
  {
  }

  lemma ModeIsMasked(m: bv64)
    ensures EncodeMode(Decode(m).mpp) == m & MPP
  {
  }

  lemma MaskedFieldsReassemble(s: Status, m: bv64)
    requires s.shown == m & SSTATUS & !NAMED && s.hidden == m & !SSTATUS & !NAMED
    requires EncodeMode(s.mpp) == m & MPP
    requires Flag(s.sie, SIE) == m & SIE && Flag(s.mie, MIE) == m & MIE
    requires Flag(s.spie, SPIE) == m & SPIE && Flag(s.mpie, MPIE) == m & MPIE
    requires Flag(s.spp, SPP) == m & SPP && Flag(s.mprv, MPRV) == m & MPRV
    ensures Encode(s) == m
  {
  }

  /** ... and every one of the 2^64 values has them. */
  lemma RegisterRoundTrip(m: bv64)
    ensures Encode(Decode(m)) == m
  {
    FlagIsMasked(m);
    ModeIsMasked(m);
    MaskedFieldsReassemble(Decode(m), m);
  }

  /** Trap into M from `mode`: MPIE gets MIE, MIE is cleared, MPP gets the mode (section 3.1.6.1). */
  function StatusIntoM(s: Status, mode: Mode): Status {
    s.(mpie := s.mie, mie := false, mpp := mode)
  }

  /** Trap into S from `mode`: SPIE gets SIE, SIE is cleared, SPP gets the mode (section 3.1.6.1). */
  function StatusIntoS(s: Status, mode: Mode): Status {
    s.(spie := s.sie, sie := false, spp := mode == Supervisor)
  }

  /** mret: MIE gets MPIE, MPIE is set, MPP becomes U; from v1.12 on MPRV is cleared as well when
      the mode returned to is not M (sections 3.1.6.1 and 3.1.6.3). */
  function StatusAfterMret(s: Status, clearsMprv: bool): Status {
    s.(mie := s.mpie, mpie := true, mpp := User,
       mprv := s.mprv && !(clearsMprv && s.mpp != Machine))
  }

  /** mstatus without the two fields that only the M-mode trap stack uses. */
  function Shown(s: Status): Status {
    s.(mpie := false, mpp := User)
  }

  /** A 64-bit register value. */
  datatype Word = W(v: bv64)

  function Sum(x: Word, y: Word): Word {
    W(x.v + y.v)
  }

  /** The four encodings of the two-bit MPP field, in order. */
  datatype Mode = User | Supervisor | Reserved | Machine

  const CLINT_MTIMECMP := W(0x0200_4000)
  const CLINT_MTIME := W(0x0200_BFF8)

  /** Bit 63 of mcause marks an interrupt; code 7 is the machine timer. */
  const INTERRUPT: bv64 := 0x8000_0000_0000_0000
  const TIMER_CAUSE := W(0x8000_0000_0000_0007)

  /** The six double words of timer_scratch: three to save registers in, then the address of
      mtimecmp, the interval and the address of mtime. */
  datatype Scratch = Scratch(w0: Word, w1: Word, w2: Word, cmp: Word, interval: Word, time: Word)

  /** The three trap registers of one privilege level: xcause, xepc and xtval. */
  datatype Trap = Trap(cause: Word, epc: Word, tval: Word)

  /** What neither a trap into M nor the handler writes: the registers it never names, the machine timer
      enable bit of mie, the vectors, satp and sscratch, the place of the scratch area, mtime and all
      other memory. */
  datatype Kept = Kept(rest: seq<Word>, mtie: bool, mtvec: Word, stvec: Word, sscratch: Word, satp: Word,
                       scratchBase: Word, mtime: Word, mem: map<Word, Word>)

  datatype Hart = Hart(
    a0: Word, a1: Word, a2: Word, a3: Word, pc: Word, mode: Mode,
    mstatus: Status, mscratch: Word, mtrap: Trap, strap: Trap,
    ssip: bool, mtimecmp: Word, scratch: Scratch, kept: Kept)

  // ----- traps --------------------------------------------------------------------------------

  function TrapIntoM(h: Hart, cause: Word, tval: Word): Hart {
    h.(mtrap := Trap(cause, h.pc, tval),
       mstatus := StatusIntoM(h.mstatus, h.mode), mode := Machine, pc := h.kept.mtvec)
  }

  /** Hardware delegation of an exception: it enters at the base of stvec whatever the vector mode. */
  function TrapIntoS(h: Hart, cause: Word, tval: Word): Hart {
    h.(strap := Trap(cause, h.pc, tval),
       mstatus := StatusIntoS(h.mstatus, h.mode), mode := Supervisor, pc := VectorBase(h.kept.stvec))
  }

  function VectorBase(stvec: Word): Word {
    W(stvec.v & !0x3)
  }

  function Mret(h: Hart, clearsMprv: bool): Hart {
    h.(mstatus := StatusAfterMret(h.mstatus, clearsMprv), mode := h.mstatus.mpp, pc := h.mtrap.epc)
  }

  predicate IsInterrupt(cause: Word) {
    cause.v & INTERRUPT != 0
  }

  // ----- memory and the scratch area ----------------------------------------------------------

  /** What timerinit leaves behind for the handler: mscratch points to the area and the two
      addresses in it are those of the CLINT registers. */
  predicate ScratchReady(h: Hart) {
    && h.mscratch == h.kept.scratchBase
    && h.scratch.cmp == CLINT_MTIMECMP && h.scratch.time == CLINT_MTIME
  }

  // ----- what user and supervisor code can observe ---------------------------------------------

  datatype View = View(
    a0: Word, a1: Word, a2: Word, a3: Word, pc: Word, mode: Mode, status: Status,
    strap: Trap, ssip: bool, mtimecmp: Word, kept: Kept)

  /** Everything but the machine trap registers, MPIE, MPP and the scratch area. */
  function Observe(h: Hart): View {
    View(h.a0, h.a1, h.a2, h.a3, h.pc, h.mode, Shown(h.mstatus),
         h.strap, h.ssip, h.mtimecmp, h.kept)
  }
}
