/** Where branches and jumps go (src/sim/hart.cpp:334-456), said of the state after the handler. */
module Branches {
  import opened Bits
  import opened Isa
  import opened Handlers
  import opened Effects
  import Arithmetic
  import Displacement

  /** The address `displacement` from `from`, in 64 bits. */
  function Beyond(from: U64, displacement: U64): U64 {
    (from + displacement) % TWO64
  }

  /** To the encoded displacement (sign-extended as `Displacement.SextIsCode` says) if taken, and to
      the next word if not; nothing else moves. */
  predicate Goes(i: Instr, s: Arch, o: Outcome, taken: bool) {
    Moved(s, o, if taken then Beyond(Pc(s), Sext12(i.imm)) else Beyond(Pc(s), 4))
  }

  lemma BranchMoves(i: Instr, s: Arch, taken: bool)
    requires Decoded(i) && taken == Taken(i.op, ReadReg(s.regs, i.rs1), ReadReg(s.regs, i.rs2))
    ensures Moved(s, ExecBranch(i, s), if taken then BaseAddress(i, Pc(s)) else Wrap(Pc(s) + 4))
  {
    MoveIs(s, BaseAddress(i, Pc(s)));
    MoveIs(s, Wrap(Pc(s) + 4));
  }

  lemma BaseIsBeyond(i: Instr, from: U64)
    ensures BaseAddress(i, from) == Beyond(from, Sext12(i.imm))
  {
  }

  lemma Went(i: Instr, s: Arch, taken: bool)
    requires Decoded(i) && KindOf(i.op) == Branch
    requires taken == Taken(i.op, ReadReg(s.regs, i.rs1), ReadReg(s.regs, i.rs2))
    ensures Goes(i, s, Handler(i, s), taken)
  {
    Displacement.BranchIs(i, s);
    BranchMoves(i, s, taken);
    BaseIsBeyond(i, Pc(s));
  }

  ghost predicate Agree(a: U64, b: U64) {
    forall k: nat :: Bit(a, k) <==> Bit(b, k)
  }

  lemma AgreeIff(a: U64, b: U64)
    ensures Agree(a, b) <==> a == b
  {
    if Agree(a, b) {
      SameBits(a, b);
    }
  }

  /** BEQ is taken if and only if the operands agree in every bit, and BNE if and only if not. */
  lemma EqualityBranch(i: Instr, s: Arch)
    requires Decoded(i) && (i.op == BEQ || i.op == BNE)
    ensures var agree := Agree(ReadReg(s.regs, i.rs1), ReadReg(s.regs, i.rs2));
            Goes(i, s, Handler(i, s), if i.op == BEQ then agree else !agree)
  {
    var a, b := ReadReg(s.regs, i.rs1), ReadReg(s.regs, i.rs2);
    AgreeIff(a, b);
    Went(i, s, if i.op == BEQ then Agree(a, b) else !Agree(a, b));
  }

  /** BLTU is taken if and only if the first operand is the smaller, and BGEU if and only if not. */
  lemma UnsignedBranch(i: Instr, s: Arch)
    requires Decoded(i) && (i.op == BLTU || i.op == BGEU)
    ensures var less := ReadReg(s.regs, i.rs1) < ReadReg(s.regs, i.rs2);
            Goes(i, s, Handler(i, s), if i.op == BLTU then less else !less)
  {
    var a, b := ReadReg(s.regs, i.rs1), ReadReg(s.regs, i.rs2);
    Went(i, s, if i.op == BLTU then a < b else !(a < b));
  }

  lemma SignedTaken(op: Op, a: U64, b: U64)
    requires op == BLT || op == BGE
    ensures Taken(op, a, b) <==> if op == BLT then Arithmetic.SignedLess(a, b) else !Arithmetic.SignedLess(a, b)
  {
    Arithmetic.SignedOrder(a, b);
  }

  /** BLT is taken if and only if the first operand is the smaller in two's complement, and BGE if and
      only if not. */
  lemma SignedBranch(i: Instr, s: Arch)
    requires Decoded(i) && (i.op == BLT || i.op == BGE)
    ensures var less := Arithmetic.SignedLess(ReadReg(s.regs, i.rs1), ReadReg(s.regs, i.rs2));
            Goes(i, s, Handler(i, s), if i.op == BLT then less else !less)
  {
    var a, b := ReadReg(s.regs, i.rs1), ReadReg(s.regs, i.rs2);
    SignedTaken(i.op, a, b);
    Went(i, s, Taken(i.op, a, b));
  }

  /** JAL: the next word's address into `rd`, and off to the displaced PC. */
  lemma JalLaw(i: Instr, s: Arch)
    requires Decoded(i) && i.op == JAL
    ensures Linked(i, s, Handler(i, s), Beyond(Pc(s), Sext20(i.imm)))
  {
    Displacement.JalIs(i, s);
    LinkIs(i, s, LinkTarget(i, Pc(s)));
  }

  /** The word with its lowest bit cleared. */
  ghost predicate Cleared(t: U64, from: U64) {
    forall k: nat :: Bit(t, k) <==> k > 0 && Bit(from, k)
  }

  lemma LowBitCleared(t: U64)
    ensures Cleared(ClearLowBit(t), t)
  {
    assert t / 2 * 2 / 2 == t / 2;
  }

  lemma JalrIs(i: Instr, s: Arch)
    requires Decoded(i) && KindOf(i.op) == LinkRegister
    ensures Handler(i, s) == ExecJalr(i, s)
  {
  }

  lemma JalrLinks(i: Instr, s: Arch)
    requires Decoded(i)
    ensures Linked(i, s, ExecJalr(i, s), ClearLowBit(Address(i, s)))
  {
    LinkIs(i, s, ClearLowBit(Address(i, s)));
  }

  /** JALR: the next word's address into `rd`, and off to what `rs1` held before that, displaced and
      with its lowest bit cleared. */
  lemma JalrLaw(i: Instr, s: Arch) returns (target: U64)
    requires Decoded(i) && i.op == JALR
    ensures Linked(i, s, Handler(i, s), target)
    ensures Cleared(target, Beyond(ReadReg(s.regs, i.rs1), Sext12(i.imm)))
  {
    var from := Beyond(ReadReg(s.regs, i.rs1), Sext12(i.imm));
    target := ClearLowBit(from);
    LowBitCleared(from);
    BaseIsBeyond(i, ReadReg(s.regs, i.rs1));
    JalrIs(i, s);
    JalrLinks(i, s);
  }
}
