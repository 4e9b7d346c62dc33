/** Where exceptions go and what they record (src/sim/hart.cpp:29-53, 608-643, 739-765), said of the
    state after the handler. */
module Traps {
  import opened Bits
  import opened Isa
  import opened Handlers
  import opened Effects
  import BitMagic
  import Csr

  /** Four bytes an exception id past the base in vectored mode, and the base otherwise. */
  function Entry(mtvec: U64, id: nat): U64 {
    var base := 4 * Csr.Get(Csr.BASE, mtvec);
    (if Csr.Get(Csr.MODE, mtvec) == 1 then base + 4 * id else base) % TWO64
  }

  /** What the CSR file records of exception `id` raised at `pc`. */
  predicate Recorded(c: Csr.Csrs, t: Csr.Csrs, id: nat, pc: U64) {
    && t.privilege == 3
    && Csr.Status(t.mstatus)
       == Csr.Status(c.mstatus)[1 := 0][3 := Csr.Get(Csr.MIE, c.mstatus)][5 := c.privilege]
    && t.mepc == (if pc % 4 == 0 then pc else c.mepc)
    && t.mtvec == c.mtvec && t.mhartid == c.mhartid
    && Csr.Get(Csr.INTERRUPT, t.mcause) == 0 && (id < 16 ==> Csr.Get(Csr.CODE, t.mcause) == id)
  }

  /** Exception `id` has been raised, with the PC then at `pc`, and nothing else has changed. */
  predicate Raised(s: Arch, t: Arch, id: nat, pc: U64) {
    && Recorded(s.csr, t.csr, id, Pc(s)) && Pc(t) == pc
    && (forall r :: 0 <= r < 32 ==> ReadReg(t.regs, r) == ReadReg(s.regs, r))
    && t.mem == s.mem && t.retired == s.retired
  }

  lemma RecordedIs(c: Csr.Csrs, id: nat, pc: U64)
    requires Csr.Legal(c)
    ensures Recorded(c, Csr.EnterTrap(c, id, pc), id, pc)
  {
    Csr.TrapEntry(c, id, pc);
    CodeFits(id);
  }

  lemma CodeFits(id: nat)
    ensures id < 16 ==> Low(id, PopCount(Csr.L.code)) == id
  {
    var w := PopCount(Csr.L.code);
    assert Csr.CauseOk(Csr.L);
    BitMagic.Pow2Mono(4, w);
    assert Pow2(4) == 16;
    if id < 16 {
      LowId(id, w);
    }
  }

  lemma RaiseEnters(s: Arch, id: nat)
    ensures Pc(Raise(s, id)) == Entry(s.csr.mtvec, id)
  {
    Csr.TrapTargetIs(s.csr, id);
  }

  /** An exception goes to its entry, and records the privilege, MIE, the cause and an aligned PC. */
  lemma RaiseLaw(s: Arch, id: nat)
    requires Csr.Legal(s.csr)
    ensures Raised(s, Raise(s, id), id, Entry(s.csr.mtvec, id))
  {
    RecordedIs(s.csr, id, Pc(s));
    RaiseEnters(s, id);
  }

  /** On the raw word, with two mode bits: mtvec with those bits cleared, and four bytes an exception id
      past it in mode 1. */
  lemma RaiseRaw(s: Arch, id: nat)
    requires Csr.Legal(s.csr) && Csr.L.mode == 3 && Csr.L.base == TWO64 - 4
    ensures var v := s.csr.mtvec;
            Pc(Raise(s, id)) == (v - v % 4 + (if v % 4 == 1 then 4 * id else 0)) % TWO64
  {
    RaiseLaw(s, id);
    Csr.VectorFields(s.csr.mtvec);
  }

  // ---------------------------------------------------------------- the instructions that raise

  /** The exception is raised and the run goes on from its entry. */
  predicate Trapped(s: Arch, o: Outcome, id: nat) {
    match o
    case Trap(t, target) => Raised(s, t, id, Entry(s.csr.mtvec, id)) && target == Entry(s.csr.mtvec, id)
    case _ => false
  }

  lemma TrappedIs(s: Arch, id: nat)
    requires Csr.Legal(s.csr)
    ensures Trapped(s, RaiseThenNext(s, id), id)
  {
    RaiseLaw(s, id);
  }

  lemma EcallIs(i: Instr, s: Arch)
    requires Decoded(i) && KindOf(i.op) == System
    ensures Handler(i, s) == ExecEcall(s)
  {
  }

  lemma EcallRaises(s: Arch, id: nat)
    requires Csr.Legal(s.csr) && s.csr.privilege != 2
    requires id == if s.csr.privilege == 0 then 8 else if s.csr.privilege == 1 then 9 else 11
    ensures ExecEcall(s) == RaiseThenNext(s, id)
  {
    assert s.csr.privilege <= 3;
  }

  /** ECALL raises 8 in user mode, 9 in supervisor mode and 11 in machine mode, and ends the run at
      privilege 2. */
  lemma EcallLaw(i: Instr, s: Arch)
    requires Decoded(i) && i.op == ECALL && Csr.Legal(s.csr)
    ensures var p := s.csr.privilege;
            if p == 2 then Handler(i, s) == Abort(Terminated)
            else Trapped(s, Handler(i, s), if p == 0 then 8 else if p == 1 then 9 else 11)
  {
    var p := s.csr.privilege;
    EcallIs(i, s);
    if p != 2 {
      var id := if p == 0 then 8 else if p == 1 then 9 else 11;
      EcallRaises(s, id);
      TrappedIs(s, id);
    }
  }

  /** The exception is raised and the run is over. */
  predicate Stopped(s: Arch, o: Outcome, id: nat) {
    match o
    case TrapStop(t, target) => Raised(s, t, id, Entry(s.csr.mtvec, id)) && target == Entry(s.csr.mtvec, id)
    case _ => false
  }

  lemma IllegalIs(i: Instr, s: Arch)
    requires Decoded(i) && i.op == INV_OP
    ensures Handler(i, s) == ExecIllegal(s)
  {
  }

  /** An illegal instruction raises 2 and stops the run. */
  lemma IllegalLaw(i: Instr, s: Arch)
    requires Decoded(i) && i.op == INV_OP && Csr.Legal(s.csr)
    ensures Stopped(s, Handler(i, s), 2)
  {
    IllegalIs(i, s);
    RaiseLaw(s, 2);
  }

  lemma PauseIs(i: Instr, s: Arch)
    requires Decoded(i) && i.op == PAUSE
    ensures Handler(i, s) == RaiseThenNext(s, 2)
  {
  }

  /** PAUSE raises 2 and goes on. */
  lemma PauseLaw(i: Instr, s: Arch)
    requires Decoded(i) && i.op == PAUSE && Csr.Legal(s.csr)
    ensures Trapped(s, Handler(i, s), 2)
  {
    PauseIs(i, s);
    TrappedIs(s, 2);
  }

  lemma FenceIs(i: Instr, s: Arch)
    requires Decoded(i) && KindOf(i.op) == Fence
    ensures Handler(i, s) == Next(NextPc(s))
  {
  }

  /** The fences only move on. */
  lemma FenceLaw(i: Instr, s: Arch)
    requires Decoded(i) && (i.op == FENCE || i.op == FENCE_TSO)
    ensures Moved(s, Handler(i, s), (Pc(s) + 4) % TWO64)
  {
    FenceIs(i, s);
    MoveIs(s, Wrap(Pc(s) + 4));
  }

  lemma EndIs(i: Instr, s: Arch)
    requires Decoded(i) && (KindOf(i.op) == Break || KindOf(i.op) == Dead)
    ensures Handler(i, s) == if KindOf(i.op) == Break then Stop(s) else Abort(Terminated)
  {
  }

  /** EBREAK stops where it is, with nothing changed, and SRET ends the run. */
  lemma EndLaw(i: Instr, s: Arch)
    requires Decoded(i) && (i.op == EBREAK || i.op == SRET)
    ensures Handler(i, s) == if i.op == EBREAK then Stop(s) else Abort(Terminated)
  {
    EndIs(i, s);
  }

  // ---------------------------------------------------------------- MRET

  /** Back to what the CSR file recorded. */
  predicate Returned(s: Arch, o: Outcome) {
    match o
    case Next(t) =>
      && t.csr.privilege == Csr.Get(Csr.MPP, s.csr.mstatus)
      && Csr.Status(t.csr.mstatus)
         == Csr.Status(s.csr.mstatus)[1 := Csr.Get(Csr.MPIE, s.csr.mstatus)][3 := 1][5 := 0]
      && t.csr == s.csr.(mstatus := t.csr.mstatus, privilege := t.csr.privilege)
      && Pc(t) == s.csr.mepc && t.mem == s.mem && t.retired == s.retired
      && forall r :: 0 <= r < 32 ==> ReadReg(t.regs, r) == ReadReg(s.regs, r)
    case _ => false
  }

  /** Exception 2 is raised, its entry's block fetched, and the PC then moved to mepc all the same. */
  predicate Overwritten(s: Arch, o: Outcome) {
    match o
    case Trap(t, target) =>
      target == Entry(s.csr.mtvec, 2) && Raised(s, t, 2, if Pc(s) % 4 == 0 then Pc(s) else s.csr.mepc)
    case _ => false
  }

  lemma MretIs(i: Instr, s: Arch)
    requires Decoded(i) && KindOf(i.op) == Return
    ensures Handler(i, s) == ExecMret(s)
  {
  }

  /** MRET in machine mode goes back to mepc with the privilege and MIE stacked; below it, it raises
      exception 2, and the PC ends where that left mepc. */
  lemma MretLaw(i: Instr, s: Arch)
    requires Decoded(i) && i.op == MRET && Csr.Legal(s.csr)
    ensures if s.csr.privilege == 3 then Returned(s, Handler(i, s)) else Overwritten(s, Handler(i, s))
  {
    MretIs(i, s);
    if s.csr.privilege == 3 {
      Csr.TrapReturn(s.csr);
    } else {
      RaiseLaw(s, 2);
    }
  }
}
