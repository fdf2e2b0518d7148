/** The machine-mode trap handler `timervec`/`reflect` of kernelvec.S, one statement for each
    instruction, and `timerinit` of start.c that prepares its scratch area. */
module TimervecModel {
  import opened HartModel

  /** The number of CLINT cycles between ticks that start.c asks for. */
  const INTERVAL := W(25000)

  /** The mode a trap came from, read off the low bit of MPP alone. */
  function Origin(s: Status): Mode {
    if s.mpp == Supervisor || s.mpp == Machine then Supervisor else User
  }

  /** mstatus as the reflected trap must leave it just before mret: the S-mode trap stack pushed
      from the mode saved in MPP, and MPP = S so that mret lands in S-mode. */
  function StatusForReflection(s: Status): Status {
    StatusIntoS(s, Origin(s)).(mpp := Supervisor)
  }

  function Save(h: Hart): Scratch {
    h.scratch.(w0 := h.a1, w1 := h.a2, w2 := h.a3)
  }

  /** Serving the timer: rearm from the current mtime and pend a supervisor software interrupt. */
  function ServeTimer(h: Hart): Hart
  {
    h.(scratch := Save(h), mtimecmp := Sum(h.kept.mtime, h.scratch.interval), ssip := true)
  }

  /** Handing the trap to S-mode: the machine trap registers go to their S-mode counterparts. */
  function Handed(h: Hart): Hart {
    h.(strap := h.mtrap, mtrap := h.mtrap.(epc := VectorBase(h.kept.stvec)),
       mstatus := StatusForReflection(h.mstatus))
  }

  function Reflect(h: Hart): Hart
  {
    Handed(h).(scratch := Save(h))
  }

  /** The dispatch looks at the interrupt bit and at the low eight bits of mcause only. */
  predicate IsTimer(cause: Word) {
    IsInterrupt(cause) && cause.v & 0xff == 7
  }

  /** The hart just before mret. */
  function Served(h: Hart): Hart
  {
    if IsTimer(h.mtrap.cause) then ServeTimer(h) else Reflect(h)
  }

  /** From the first instruction at mtvec to the hart that mret leaves. */
  function Handled(h: Hart, clearsMprv: bool): Hart
  {
    Mret(Served(h), clearsMprv)
  }

  /** The bit arithmetic of `reflect` on the register value: the low MPP bit lands in SPP, old SIE
      in SPIE, SIE is cleared and MPP becomes S. */
  function RebuiltBits(m: bv64): bv64 {
    ((((m & !0x122) | (((m >> 11) & 1) << 8)) | ((m & 2) << 4)) & !(3 << 11)) | (1 << 11)
  }

  lemma RebuiltFields(m: bv64)
    ensures Decode(RebuiltBits(m)) == StatusForReflection(Decode(m))
  {
    var r := RebuiltBits(m);
    assert r & MPP == 0x800;
    assert r & SIE == 0;
  }

  /** The hart that executes the handler; each instruction updates its registers in place. */
  class Core {
    var a0: Word
    var a1: Word
    var a2: Word
    var a3: Word
    var pc: Word
    var mode: Mode
    var mstatus: Status
    var mscratch: Word
    var mtrap: Trap
    var strap: Trap
    var ssip: bool
    var mtimecmp: Word
    var scratch: Scratch
    var kept: Kept
    const clearsMprv: bool

    function State(): Hart
      reads this
    {
      Hart(a0, a1, a2, a3, pc, mode, mstatus, mscratch, mtrap, strap,
           ssip, mtimecmp, scratch, kept)
    }

    /** a1..a3 are back from the save area, a0 from mscratch, and mscratch points to the area. */
    predicate Swapped(savedA0: Word)
      reads this
    {
      a0 == savedA0 && a1 == scratch.w0 && a2 == scratch.w1 && a3 == scratch.w2 && mscratch == kept.scratchBase
    }

    constructor (h: Hart, clearsMprv: bool)
      ensures State() == h && this.clearsMprv == clearsMprv
    {
      a0, a1, a2, a3, pc, mode := h.a0, h.a1, h.a2, h.a3, h.pc, h.mode;
      mstatus, mscratch, mtrap, strap := h.mstatus, h.mscratch, h.mtrap, h.strap;
      ssip, mtimecmp, scratch, kept := h.ssip, h.mtimecmp, h.scratch, h.kept;
      this.clearsMprv := clearsMprv;
    }

    /** timerinit of start.c for this hart: the first compare value, the scratch area, mscratch,
        mtvec, the global machine interrupt enable and the machine timer enable. */
    method TimerInit(timervec: Word)
      modifies this
      ensures ScratchReady(State())
      ensures State() == old(State()).(
        mtimecmp := Sum(old(kept.mtime), INTERVAL), mscratch := old(kept.scratchBase),
        scratch := old(scratch).(cmp := CLINT_MTIMECMP, interval := INTERVAL, time := CLINT_MTIME),
        kept := old(kept).(mtvec := timervec, mtie := true), mstatus := old(mstatus).(mie := true))
    {
      mtimecmp := Sum(kept.mtime, INTERVAL);
      scratch := scratch.(cmp := CLINT_MTIMECMP);
      scratch := scratch.(interval := INTERVAL);
      scratch := scratch.(time := CLINT_MTIME);
      mscratch := kept.scratchBase;
      kept := kept.(mtvec := timervec);
      mstatus := mstatus.(mie := true);
      kept := kept.(mtie := true);
    }

    /** The whole handler, from trap entry to the instruction after mret. */
    method Timervec()
      requires ScratchReady(State())
      modifies this
      ensures State() == Handled(old(State()), clearsMprv)
    {
      Serve();
      ghost var served := State();
      assert served == Served(old(State()));
      MretHere();                                 // mret
      assert State() == served.(mode := mode, pc := pc, mstatus := mstatus);
    }

    method Serve()
      requires mscratch == kept.scratchBase
      requires scratch.cmp == CLINT_MTIMECMP && scratch.time == CLINT_MTIME
      modifies `a0, `a1, `a2, `a3, `mscratch, `scratch, `mtimecmp, `ssip, `strap, `mstatus, `mtrap
      ensures a0 == old(a0) && a1 == old(a1) && a2 == old(a2) && a3 == old(a3) && mscratch == old(mscratch)
      ensures scratch == old(scratch.(w0 := a1, w1 := a2, w2 := a3))
      ensures IsTimer(old(mtrap.cause)) ==>
                && ssip && mtimecmp == Sum(kept.mtime, scratch.interval)
                && mstatus == old(mstatus) && strap == old(strap) && mtrap == old(mtrap)
      ensures !IsTimer(old(mtrap.cause)) ==>
                && ssip == old(ssip) && mtimecmp == old(mtimecmp)
                && strap == old(mtrap) && mtrap == old(mtrap).(epc := VectorBase(kept.stvec))
                && mstatus == StatusForReflection(old(mstatus))
    {
      var timer := Enter();
      if timer {
        TimerPath();
      } else {
        ReflectPath();
      }
    }

    /** Saving the registers and the dispatch on mcause. */
    method Enter() returns (timer: bool)
      requires mscratch == kept.scratchBase
      modifies `a0, `a1, `a2, `a3, `mscratch, `scratch
      ensures a0 == kept.scratchBase && mscratch == old(a0) && a1 == mtrap.cause
      ensures scratch == old(scratch.(w0 := a1, w1 := a2, w2 := a3))
      ensures timer <==> IsTimer(mtrap.cause)
    {
      a0, mscratch := mscratch, a0;               // csrrw
      scratch := scratch.(w0 := a1);              // sd
      scratch := scratch.(w1 := a2);              // sd
      scratch := scratch.(w2 := a3);              // sd
      a1 := mtrap.cause;                          // csrr
      timer := false;
      if a1.v & INTERRUPT != 0 {                  // bgez
        a2 := W(a1.v & 0xff);                     // andi
        a3 := W(7);                               // li
        timer := a2 == a3;                        // bne
      }
    }

    /** The tail that both paths end in, up to mret. */
    method Leave()
      requires a0 == kept.scratchBase
      modifies `a0, `a1, `a2, `a3, `mscratch
      ensures Swapped(old(mscratch))
    {
      a3 := scratch.w2;                           // ld
      a2 := scratch.w1;                           // ld
      a1 := scratch.w0;                           // ld
      a0, mscratch := mscratch, a0;               // csrrw
    }

    method TimerPath()
      requires a0 == kept.scratchBase
      requires scratch.cmp == CLINT_MTIMECMP && scratch.time == CLINT_MTIME
      modifies `a0, `a1, `a2, `a3, `mscratch, `mtimecmp, `ssip
      ensures Swapped(old(mscratch))
      ensures ssip && mtimecmp == Sum(kept.mtime, scratch.interval)
    {
      a1 := scratch.cmp;                          // ld
      a2 := scratch.interval;                     // ld
      a3 := scratch.time;                         // ld
      assert a3 == CLINT_MTIME;
      a3 := kept.mtime;                           // ld
      a3 := Sum(a3, a2);                          // add
      assert a1 == CLINT_MTIMECMP;
      mtimecmp := a3;                             // sd
      a1 := W(2);                                 // li
      ssip := a1.v & 2 != 0;                      // csrw
      Leave();
    }

    method ReflectPath()
      requires a0 == kept.scratchBase && a1 == mtrap.cause
      modifies `a0, `a1, `a2, `a3, `mscratch, `strap, `mstatus, `mtrap
      ensures Swapped(old(mscratch))
      ensures strap == old(mtrap) && mtrap == old(mtrap).(epc := VectorBase(kept.stvec))
      ensures mstatus == StatusForReflection(old(mstatus))
    {
      strap := strap.(cause := a1);               // csrw
      a1 := mtrap.epc;                            // csrr
      strap := strap.(epc := a1);                 // csrw
      a1 := mtrap.tval;                           // csrr
      strap := strap.(tval := a1);                // csrw
      RebuildStatus();
      a1 := kept.stvec;                           // csrr
      a1 := W(a1.v & !0x3);                       // andi
      mtrap := mtrap.(epc := a1);                 // csrw
      Leave();
    }

    /** The instructions that turn mstatus from "trapped into M" to "return to S". */
    method RebuildStatus()
      modifies `a1, `a2, `a3, `mstatus
      ensures mstatus == StatusForReflection(old(mstatus))
    {
      FieldsRoundTrip(mstatus);
      RebuiltFields(Encode(mstatus));
      a1 := W(Encode(mstatus));                   // csrr
      RebuildBits();
      mstatus := Decode(a1.v);                    // csrw
    }

    method RebuildBits()
      modifies `a1, `a2, `a3
      ensures a1 == W(RebuiltBits(old(a1.v)))
    {
      a2 := W(a1.v >> 11);                        // srli
      a2 := W(a2.v & 1);                          // andi
      a2 := W(a2.v << 8);                         // slli
      a3 := W(a1.v & 2);                          // andi
      a3 := W(a3.v << 4);                         // slli
      a1 := W(a1.v & !0x122);                     // andi
      a1 := W(a1.v | a2.v);                       // or
      a1 := W(a1.v | a3.v);                       // or
      a2 := W(3);                                 // li
      a2 := W(a2.v << 11);                        // slli
      a2 := W(!a2.v);                             // not
      a1 := W(a1.v & a2.v);                       // and
      a2 := W(1);                                 // li
      a2 := W(a2.v << 11);                        // slli
      a1 := W(a1.v | a2.v);                       // or
    }

    method MretHere()
      modifies `mstatus, `mode, `pc
      ensures mode == old(mstatus.mpp) && pc == mtrap.epc
      ensures mstatus == StatusAfterMret(old(mstatus), clearsMprv)
    {
      mode, pc := mstatus.mpp, mtrap.epc;
      mstatus := StatusAfterMret(mstatus, clearsMprv);
    }
  }
}
