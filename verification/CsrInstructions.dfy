/** What the six CSR instructions do (src/sim/hart.cpp:766-844 over src/exec/csrf.cpp), by address and
    field, said of the state after the handler. */
module CsrInstructions {
  import opened Bits
  import opened Isa
  import opened Handlers
  import opened Effects
  import BitMagic
  import Csr
  import Traps

  predicate IsCsr(op: Op) {
    match op
    case CSRRW | CSRRS | CSRRC | CSRRWI | CSRRSI | CSRRCI => true
    case _ => false
  }

  // ---------------------------------------------------------------- addresses

  predicate Known(id: nat) {
    id == 0x300 || id == 0x305 || id == 0x341 || id == 0x342 || id == 0xF14
  }

  /** The register at an address: mstatus, mtvec, mepc, mcause or mhartid. */
  function Addressed(c: Csr.Csrs, id: nat): U64 {
    match id
    case 0x300 => c.mstatus
    case 0x305 => c.mtvec
    case 0x341 => c.mepc
    case 0x342 => c.mcause
    case _ => c.mhartid
  }

  /** Its fields. */
  function Parts(id: nat): seq<Csr.Field> {
    match id
    case 0x300 => [Csr.SIE, Csr.MIE, Csr.SPIE, Csr.MPIE, Csr.SPP, Csr.MPP]
    case 0x305 => [Csr.MODE, Csr.BASE]
    case 0x341 => [Csr.VALUE]
    case 0x342 => [Csr.INTERRUPT, Csr.CODE]
    case _ => [Csr.HART]
  }

  /** The values a field does not take: modes above 1, and a base or an exception PC that is no
      multiple of 4. */
  predicate Refuses(id: nat, k: nat, v: nat) {
    match id
    case 0x305 => if k == 0 then v > 1 else v % 4 != 0
    case 0x341 => v % 4 != 0
    case _ => false
  }

  /** Everything is for machine mode only; mhartid can only be read, by CSRRS with x0. */
  predicate Granted(i: Instr, s: Arch) {
    && s.csr.privilege == 3
    && Known(i.imm)
    && (i.imm == 0xF14 ==> Reading(i))
  }

  predicate Reading(i: Instr) {
    i.op == CSRRS && i.rs1 == 0
  }

  lemma KnownRegister(c: Csr.Csrs, id: nat)
    ensures Csr.Lookup(id).Some? <==> Known(id)
    ensures Known(id) ==> Csr.Read(c, Csr.Lookup(id).reg) == Addressed(c, id)
    ensures Known(id) ==> Csr.Fields(Csr.Lookup(id).reg) == Parts(id)
  {
  }

  lemma KnownGuards(c: Csr.Csrs, id: nat)
    requires Known(id)
    ensures (Csr.FitPrivilege(c, id) <==> c.privilege == 3) && (Csr.ReadOnly(id) <==> id == 0xF14)
  {
  }

  // ---------------------------------------------------------------- operands

  /** A register for the first three, and the number in its place for the I forms. */
  function Operand(i: Instr, s: Arch): U64
    requires Decoded(i)
  {
    if i.op == CSRRW || i.op == CSRRS || i.op == CSRRC then ReadReg(s.regs, i.rs1) else i.rs1
  }

  /** What a field is asked to hold: the operand's bits, the union of the old ones with them, or
      the old ones without them. */
  function Wanted(op: Op, was: nat, bits: nat): int {
    match op
    case CSRRW | CSRRWI => bits
    case CSRRS | CSRRSI => BitOr(was, bits)
    case _ => was - BitAnd(was, bits)
  }

  lemma ActionIs(i: Instr, s: Arch)
    requires Decoded(i) && IsCsr(i.op)
    ensures var v := Operand(i, s);
            CsrAction(i, s)
            == match i.op
               case CSRRW | CSRRWI => Csr.CsrWrite(s.csr, i.imm, v)
               case CSRRS | CSRRSI =>
                 if Reading(i) then Csr.CsrRead(s.csr, i.imm) else Csr.CsrSetBits(s.csr, i.imm, v)
               case _ => Csr.CsrClearBits(s.csr, i.imm, v)
  {
  }

  // ---------------------------------------------------------------- access

  /** A granted access: the old value, and no other register changed. */
  ghost predicate Accessed(c: Csr.Csrs, id: nat, a: Csr.Access) {
    match a
    case Access(ok, before, csrs) =>
      && ok && before == Addressed(c, id) && csrs.privilege == c.privilege
      && (forall other: nat :: Known(other) && other != id ==> Addressed(csrs, other) == Addressed(c, other))
  }

  lemma PutElsewhere(c: Csr.Csrs, id: nat, v: U64)
    requires Known(id)
    ensures var d := Csr.Put(c, Csr.Lookup(id).reg, v);
            && d.privilege == c.privilege
            && forall other: nat :: Known(other) && other != id ==> Addressed(d, other) == Addressed(c, other)
  {
  }

  lemma Guarded(c: Csr.Csrs, id: nat)
    ensures Csr.Writable(c, id) <==> Known(id) && c.privilege == 3 && id != 0xF14
    ensures Csr.FitPrivilege(c, id) && Csr.Lookup(id).Some? <==> Known(id) && c.privilege == 3
    ensures Known(id) ==> Csr.Lookup(id).Some? && Csr.Read(c, Csr.Lookup(id).reg) == Addressed(c, id)
  {
    KnownRegister(c, id);
    if Known(id) {
      KnownGuards(c, id);
    }
  }

  lemma ActionAccesses(i: Instr, s: Arch)
    requires Decoded(i) && IsCsr(i.op) && Csr.Legal(s.csr)
    ensures if Granted(i, s) then Accessed(s.csr, i.imm, CsrAction(i, s))
            else !CsrAction(i, s).ok && CsrAction(i, s).csrs == s.csr
  {
    ActionIs(i, s);
    Guarded(s.csr, i.imm);
    Csr.CsrAccess(s.csr, i.imm, Operand(i, s));
    if Granted(i, s) {
      PutElsewhere(s.csr, i.imm, Csr.Read(CsrAction(i, s).csrs, Csr.Lookup(i.imm).reg));
    }
  }

  /** The old register in `rd`, on to the next word, and nothing else changed but the register. */
  ghost predicate Delivers(i: Instr, s: Arch, o: Outcome)
    requires Decoded(i)
  {
    match o
    case Next(t) =>
      && OnlyRd(i, s.regs, t.regs) && t.regs[i.rd] == Addressed(s.csr, i.imm)
      && Pc(t) == (Pc(s) + 4) % TWO64 && t.mem == s.mem && t.retired == s.retired
      && t.csr.privilege == s.csr.privilege
      && (forall other: nat :: Known(other) && other != i.imm ==> Addressed(t.csr, other) == Addressed(s.csr, other))
    case _ => false
  }

  lemma Delivered(i: Instr, s: Arch, a: Csr.Access)
    requires Decoded(i) && Accessed(s.csr, i.imm, a)
    ensures Delivers(i, s, Next(NextPc(SetRd(s.(csr := a.csrs), i, a.before))))
  {
  }

  lemma ExecCsrIs(i: Instr, s: Arch)
    requires Decoded(i) && IsCsr(i.op)
    ensures Handler(i, s) == ExecCsr(i, s)
  {
  }

  /** A CSR instruction completes if and only if it is granted, and then `rd` has the old register and
      no other CSR has changed; otherwise exception 2 is raised, with no CSR written. */
  lemma AccessLaw(i: Instr, s: Arch)
    requires Decoded(i) && IsCsr(i.op) && Csr.Legal(s.csr)
    ensures if Granted(i, s) then Delivers(i, s, Handler(i, s)) else Traps.Trapped(s, Handler(i, s), 2)
  {
    ExecCsrIs(i, s);
    ActionAccesses(i, s);
    if Granted(i, s) {
      Delivered(i, s, CsrAction(i, s));
    } else {
      Traps.TrappedIs(s, 2);
    }
  }

  /** CSRRS with x0 writes nothing, mhartid included. */
  lemma ReadLaw(i: Instr, s: Arch)
    requires Decoded(i) && Reading(i) && Granted(i, s)
    ensures Straight(i, s, Handler(i, s)) && Rd(i, Handler(i, s)) == Addressed(s.csr, i.imm)
  {
    ExecCsrIs(i, s);
    Guarded(s.csr, i.imm);
    DeliverIs(i, s, Addressed(s.csr, i.imm));
  }

  // ---------------------------------------------------------------- fields

  /** The field holds what it was asked to, or what it held if it refuses that. */
  predicate Settles(id: nat, k: nat, was: nat, wanted: int, now: nat) {
    wanted >= 0 && now == if Refuses(id, k, wanted) then was else wanted
  }

  lemma SettledIs(id: nat, k: nat, wanted: nat, was: nat)
    requires Known(id) && k < |Parts(id)|
    ensures Settles(id, k, was, wanted, Csr.Settled(Parts(id)[k], wanted, was))
  {
  }

  lemma FieldAfter(i: Instr, s: Arch, k: nat)
    requires Decoded(i) && IsCsr(i.op) && Csr.Legal(s.csr) && Granted(i, s) && !Reading(i) && k < |Parts(i.imm)|
    ensures var f := Parts(i.imm)[k];
            var was, bits := Csr.Get(f, Addressed(s.csr, i.imm)), BitMagic.Pext(f.mask, Operand(i, s));
            && Wanted(i.op, was, bits) >= 0
            && Csr.Get(f, Addressed(CsrAction(i, s).csrs, i.imm)) == Csr.Settled(f, Wanted(i.op, was, bits), was)
  {
    ActionIs(i, s);
    Guarded(s.csr, i.imm);
    KnownRegister(s.csr, i.imm);
    KnownRegister(CsrAction(i, s).csrs, i.imm);
    var f := Parts(i.imm)[k];
    Csr.CsrOperationsAreFieldwise(s.csr, i.imm, Operand(i, s), k);
    var was, bits := Csr.Get(f, Addressed(s.csr, i.imm)), BitMagic.Pext(f.mask, Operand(i, s));
    Without(f, Addressed(s.csr, i.imm), bits);
  }

  lemma Without(f: Csr.Field, raw: nat, bits: nat)
    requires bits < Pow2(PopCount(f.mask))
    ensures var was := Csr.Get(f, raw);
            was >= BitAnd(was, bits) && BitAnd(was, BitNot(PopCount(f.mask), bits)) == was - BitAnd(was, bits)
  {
    BitMagic.PextBound(f.mask, raw);
    AndBound(Csr.Get(f, raw), bits);
    AndNot(Csr.Get(f, raw), bits, PopCount(f.mask));
  }

  /** Field `k` of the addressed register, after a completed instruction. */
  predicate Holds(i: Instr, s: Arch, o: Outcome, k: nat)
    requires Decoded(i) && k < |Parts(i.imm)|
  {
    match o
    case Next(t) =>
      var f := Parts(i.imm)[k];
      var was, bits := Csr.Get(f, Addressed(s.csr, i.imm)), BitMagic.Pext(f.mask, Operand(i, s));
      Settles(i.imm, k, was, Wanted(i.op, was, bits), Csr.Get(f, Addressed(t.csr, i.imm)))
    case _ => false
  }

  /** Whatever a granted instruction writes, each field of the register takes the operand's bits
      (CSRRW, CSRRWI), the union with them (CSRRS, CSRRSI) or the difference (CSRRC, CSRRCI), or
      keeps its own where it refuses the result. */
  lemma FieldLaw(i: Instr, s: Arch, k: nat)
    requires Decoded(i) && IsCsr(i.op) && Csr.Legal(s.csr) && Granted(i, s) && !Reading(i) && k < |Parts(i.imm)|
    ensures Holds(i, s, Handler(i, s), k)
  {
    ExecCsrIs(i, s);
    ActionAccesses(i, s);
    FieldAfter(i, s, k);
    var f := Parts(i.imm)[k];
    var was, bits := Csr.Get(f, Addressed(s.csr, i.imm)), BitMagic.Pext(f.mask, Operand(i, s));
    SettledIs(i.imm, k, Wanted(i.op, was, bits), was);
  }

  /** The mask meets none of the register's fields. */
  predicate Beside(mask: nat, id: nat) {
    forall k :: 0 <= k < |Parts(id)| ==> BitAnd(mask, Parts(id)[k].mask) == 0
  }

  /** The bits under the mask, after a completed instruction, are what they were. */
  predicate Untouched(i: Instr, s: Arch, o: Outcome, mask: nat) {
    match o
    case Next(t) => BitMagic.Pext(mask, Addressed(t.csr, i.imm)) == BitMagic.Pext(mask, Addressed(s.csr, i.imm))
    case _ => false
  }

  lemma WriteRegBeside(c: Csr.Csrs, id: nat, value: nat, mask: nat)
    requires Known(id) && Beside(mask, id)
    ensures var after := Csr.WriteReg(c, Csr.Lookup(id).reg, value).csrs;
            BitMagic.Pext(mask, Addressed(after, id)) == BitMagic.Pext(mask, Addressed(c, id))
  {
    var r := Csr.Lookup(id).reg;
    KnownRegister(c, id);
    KnownRegister(Csr.WriteReg(c, r, value).csrs, id);
    Csr.RegBound(r, value, Csr.Read(c, r));
    Csr.WriteKeepsOutside(Csr.Fields(r), value, Csr.Read(c, r), mask);
  }

  lemma ActionBeside(i: Instr, s: Arch, mask: nat)
    requires Decoded(i) && IsCsr(i.op) && Csr.Legal(s.csr) && Granted(i, s) && Beside(mask, i.imm)
    ensures BitMagic.Pext(mask, Addressed(CsrAction(i, s).csrs, i.imm)) == BitMagic.Pext(mask, Addressed(s.csr, i.imm))
  {
    var v, r := Operand(i, s), Csr.Lookup(i.imm).reg;
    ActionIs(i, s);
    Guarded(s.csr, i.imm);
    WriteRegBeside(s.csr, i.imm, v, mask);
    WriteRegBeside(s.csr, i.imm, BitOr(Csr.Read(s.csr, r), v), mask);
    WriteRegBeside(s.csr, i.imm, BitAnd(Csr.Read(s.csr, r), TWO64 - 1 - v), mask);
  }

  /** And no bit outside the fields of the register moves. */
  lemma OutsideLaw(i: Instr, s: Arch, mask: nat)
    requires Decoded(i) && IsCsr(i.op) && Csr.Legal(s.csr) && Granted(i, s) && Beside(mask, i.imm)
    ensures Untouched(i, s, Handler(i, s), mask)
  {
    ExecCsrIs(i, s);
    ActionAccesses(i, s);
    ActionBeside(i, s, mask);
  }
}
