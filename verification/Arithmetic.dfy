/** What the arithmetic instructions of src/sim/hart.cpp compute, instruction by instruction, said
    of the state after the handler: sums by congruence, logic and shifts bit by bit. */
module Arithmetic {
  import opened Bits
  import opened Isa
  import opened Handlers
  import opened Effects
  import BitMagic

  predicate Arithmetical(op: Op) {
    match KindOf(op)
    case Register | Immediate => true
    case _ => false
  }

  /** The computed value in `rd` and nothing else changed but the PC, or the run over. */
  predicate Leaves(i: Instr, s: Arch, o: Outcome, c: Computed)
    requires Decoded(i)
  {
    match c
    case Result(v) => Straight(i, s, o) && Rd(i, o) == v
    case Undefined => o == Abort(UndefinedShift)
  }

  lemma Left(i: Instr, s: Arch, c: Computed)
    requires Decoded(i) && Arithmetical(i.op)
    requires c == Compute(i.op, ReadReg(s.regs, i.rs1), SecondOperand(i, s.regs))
    ensures Leaves(i, s, Handler(i, s), c)
  {
    assert Handler(i, s) == ExecAlu(i, s);
    match c
    case Result(v) => DeliverIs(i, s, v);
    case Undefined =>
  }

  // ---------------------------------------------------------------- sums and differences

  lemma Sum(a: U64, b: U64) returns (v: U64)
    ensures Compute(ADD, a, b) == Result(v) && (v == a + b || v == a + b - TWO64)
  {
    v := Wrap(a + b);
    WrapSum(a, b);
  }

  lemma Difference(a: U64, b: U64) returns (v: U64)
    ensures Compute(SUB, a, b) == Result(v) && (v == a - b || v == a - b + TWO64)
  {
    v := Wrap(a - b);
    WrapDifference(a, b);
  }

  /** The sum of the operands, less 2^64 if it does not fit. */
  lemma AddLaw(i: Instr, s: Arch) returns (v: U64)
    requires Decoded(i) && i.op == ADD
    ensures Leaves(i, s, Handler(i, s), Result(v))
    ensures var sum := ReadReg(s.regs, i.rs1) + ReadReg(s.regs, i.rs2);
            v == sum || v == sum - TWO64
  {
    v := Sum(ReadReg(s.regs, i.rs1), ReadReg(s.regs, i.rs2));
    Left(i, s, Result(v));
  }

  /** The difference of the operands, and 2^64 if it is negative. */
  lemma SubLaw(i: Instr, s: Arch) returns (v: U64)
    requires Decoded(i) && i.op == SUB
    ensures Leaves(i, s, Handler(i, s), Result(v))
    ensures var difference := ReadReg(s.regs, i.rs1) - ReadReg(s.regs, i.rs2);
            v == difference || v == difference + TWO64
  {
    v := Difference(ReadReg(s.regs, i.rs1), ReadReg(s.regs, i.rs2));
    Left(i, s, Result(v));
  }

  lemma WrapDifference(a: U64, b: U64)
    ensures Wrap(a - b) == if a >= b then a - b else a - b + TWO64
  {
    if a >= b {
      DivUnique(a - b, TWO64, 0, a - b);
    } else {
      DivUnique(a - b, TWO64, -1, a - b + TWO64);
    }
  }

  /** `j` takes what `i` left in `rd` and the same second operand. */
  predicate Follows(i: Instr, j: Instr) {
    Decoded(i) && Decoded(j) && i.rd != 0 && i.rd != i.rs2 && j.rs1 == i.rd && j.rs2 == i.rs2
  }

  /** Both ran, and the second left `v`. */
  predicate Ends(i: Instr, j: Instr, s: Arch, v: U64)
    requires Decoded(i) && Decoded(j)
  {
    match Handler(i, s)
    case Next(t) => Leaves(j, t, Handler(j, t), Result(v))
    case _ => false
  }

  /** Subtracting what was just added gives the first operand back. */
  lemma SubUndoesAdd(i: Instr, j: Instr, s: Arch)
    requires Follows(i, j) && i.op == ADD && j.op == SUB
    ensures Ends(i, j, s, ReadReg(s.regs, i.rs1))
  {
    var v := AddLaw(i, s);
    var o := Handler(i, s);
    Carried(i, j, s, o, v);
    var w := SubLaw(j, o.s);
    assert w == ReadReg(s.regs, i.rs1);
  }

  /** Adding what was just subtracted gives the first operand back. */
  lemma AddUndoesSub(i: Instr, j: Instr, s: Arch)
    requires Follows(i, j) && i.op == SUB && j.op == ADD
    ensures Ends(i, j, s, ReadReg(s.regs, i.rs1))
  {
    var v := SubLaw(i, s);
    var o := Handler(i, s);
    Carried(i, j, s, o, v);
    var w := AddLaw(j, o.s);
    assert w == ReadReg(s.regs, i.rs1);
  }

  lemma Carried(i: Instr, j: Instr, s: Arch, o: Outcome, v: U64)
    requires Follows(i, j) && Leaves(i, s, o, Result(v))
    ensures o.Next? && ReadReg(o.s.regs, j.rs1) == v && ReadReg(o.s.regs, j.rs2) == ReadReg(s.regs, i.rs2)
  {
  }

  // ---------------------------------------------------------------- logic

  /** XOR, OR and AND, bit by bit. */
  lemma LogicLaw(i: Instr, s: Arch) returns (v: U64)
    requires Decoded(i) && (i.op == XOR || i.op == OR || i.op == AND)
    ensures Leaves(i, s, Handler(i, s), Result(v))
    ensures forall k: nat :: Bit(v, k) <==>
              (var p, q := Bit(ReadReg(s.regs, i.rs1), k), Bit(ReadReg(s.regs, i.rs2), k);
               if i.op == XOR then p != q else if i.op == OR then p || q else p && q)
  {
    var a, b := ReadReg(s.regs, i.rs1), ReadReg(s.regs, i.rs2);
    v := Logic(i.op, a, b);
    Left(i, s, Result(v));
  }

  lemma Logic(op: Op, a: U64, b: U64) returns (v: U64)
    requires op == XOR || op == OR || op == AND
    ensures Compute(op, a, b) == Result(v)
    ensures forall k: nat :: Bit(v, k) <==>
              (var p, q := Bit(a, k), Bit(b, k); if op == XOR then p != q else if op == OR then p || q else p && q)
  {
    v := Compute(op, a, b).v;
    forall k: nat
      ensures Bit(v, k) <==>
              (var p, q := Bit(a, k), Bit(b, k); if op == XOR then p != q else if op == OR then p || q else p && q)
    {
      OrBits(a, b, k);
      XorBits(a, b, k);
      AndBits(a, b, k);
    }
  }

  // ---------------------------------------------------------------- comparisons

  /** The words, with their top bits turned, in order. */
  predicate SignedLess(a: U64, b: U64) {
    (a + TWO63) % TWO64 < (b + TWO63) % TWO64
  }

  /** That is two's-complement order. */
  lemma SignedOrder(a: U64, b: U64)
    ensures Signed(a) < Signed(b) <==> SignedLess(a, b)
  {
    Turned(a);
    Turned(b);
  }

  lemma Turned(x: U64)
    ensures (x + TWO63) % TWO64 == Signed(x) + TWO63
  {
    DivUnique(x + TWO63, TWO64, if x < TWO63 then 0 else 1, Signed(x) + TWO63);
  }

  /** The order of SLT, and of SLTU. */
  predicate Less(op: Op, a: U64, b: U64) {
    match op
    case SLT => SignedLess(a, b)
    case _ => a < b
  }

  lemma Compare(op: Op, a: U64, b: U64) returns (v: U64)
    requires op == SLT || op == SLTU
    ensures Compute(op, a, b) == Result(v) && v <= 1 && (v == 1 <==> Less(op, a, b))
  {
    SignedOrder(a, b);
    v := Compute(op, a, b).v;
  }

  /** SLT and SLTU: 1 where the first operand is the smaller, signed or unsigned, and 0 elsewhere. */
  lemma CompareLaw(i: Instr, s: Arch) returns (v: U64)
    requires Decoded(i) && (i.op == SLT || i.op == SLTU)
    ensures Leaves(i, s, Handler(i, s), Result(v)) && v <= 1
    ensures v == 1 <==> Less(i.op, ReadReg(s.regs, i.rs1), ReadReg(s.regs, i.rs2))
  {
    v := Compare(i.op, ReadReg(s.regs, i.rs1), ReadReg(s.regs, i.rs2));
    Left(i, s, Result(v));
  }

  // ---------------------------------------------------------------- shifts

  lemma WrapIsLow(x: nat)
    ensures Wrap(x) == Low(x, WIDTH) && Pow2(WIDTH) == TWO64
  {
    Pow64();
    LowIsMod(x, WIDTH);
  }

  lemma LeftShifted(a: U64, n: nat, k: nat)
    ensures Bit(Wrap(a * Pow2(n)), k) <==> n <= k < 64 && Bit(a, k - n)
  {
    ShlIsMul(a, n);
    WrapIsLow(Shl(a, n));
    LowBits(Shl(a, n), WIDTH, k);
    ShlBits(a, n, k);
  }

  lemma RightShifted(a: U64, n: nat, k: nat)
    ensures Bit(Wrap(a / Pow2(n)), k) <==> Bit(a, k + n)
  {
    ShrIsDiv(a, n);
    ShrSmaller(a, n);
    DivUnique(Shr(a, n), TWO64, 0, Shr(a, n));
    ShrBits(a, n, k);
  }

  lemma ShrSmaller(x: nat, n: nat)
    ensures Shr(x, n) <= x
    decreases n
  {
  }

  /** No bit at or above the width. */
  lemma NoHighBits(x: nat, w: nat, k: nat)
    requires x < Pow2(w) && k >= w
    ensures !Bit(x, k)
  {
    LowId(x, w);
    LowBits(x, w, k);
  }

  /** The quotient, rounded down, of a negative number: ones come in from above. */
  lemma NegativeShifted(a: U64, n: nat)
    requires a >= TWO63 && n < 64
    ensures Wrap((a - TWO64) / Pow2(n)) == Splice(WIDTH - n, Shr(a, n), Pow2(n) - 1)
  {
    var m := WIDTH - n;
    var q, p, r := Shr(a, n), Pow2(n), Pow2(m);
    Powers(n, m);
    BitMagic.ShrBound(a, WIDTH, n);
    Quotiented(a, n, r);
    WrapNegative(q, r);
    Spliced(m, q, p);
  }

  lemma Quotiented(a: nat, n: nat, r: nat)
    ensures (a - Pow2(n) * r) / Pow2(n) == Shr(a, n) - r
  {
    ShrLow(a, n);
    DivMod(a, Pow2(n));
    Floored(a, Shr(a, n), Pow2(n), a % Pow2(n), r);
  }

  lemma Powers(n: nat, m: nat)
    requires n + m == 64
    ensures Pow2(n) * Pow2(m) == Pow2(WIDTH) == TWO64
  {
    Pow64();
    Pow2Add(n, m);
  }

  lemma Spliced(m: nat, lo: nat, p: nat)
    requires lo < Pow2(m) && p > 0
    ensures Splice(m, lo, p - 1) == lo + p * Pow2(m) - Pow2(m)
  {
    LowId(lo, m);
    SpliceIsSum(m, lo, p - 1);
    ShlIsMul(p - 1, m);
    OneLess(p, Pow2(m));
  }

  lemma OneLess(p: nat, r: nat)
    requires p > 0
    ensures (p - 1) * r == p * r - r
  {
  }

  lemma WrapNegative(q: nat, r: nat)
    requires q < r <= TWO64
    ensures Wrap(q - r) == q + TWO64 - r
  {
    DivUnique(q - r, TWO64, -1, q + TWO64 - r);
  }

  lemma Floored(a: nat, q: nat, p: nat, m: nat, r: nat)
    requires a == p * q + m && m < p
    ensures (a - p * r) / p == q - r
  {
    TakenOut(p, q, r);
    DivUnique(a - p * r, p, q - r, m);
  }

  lemma TakenOut(p: nat, q: nat, r: nat)
    ensures p * (q - r) == p * q - p * r
  {
  }

  lemma SignedShifted(a: U64, n: nat, k: nat)
    requires n < 64 && k < 64
    ensures Bit(Wrap(Signed(a) / Pow2(n)), k) <==> Bit(a, if k + n < 64 then k + n else WIDTH - 1)
  {
    SignBit(a);
    RightShifted(a, n, k);
    if a < TWO63 {
      NoneAbove(a, k + n);
    } else {
      NegativeShifted(a, n);
      SpliceBits(WIDTH - n, Shr(a, n), Pow2(n) - 1, k);
      ShrBits(a, n, k);
      if k >= WIDTH - n {
        OnesBits(n, k - (WIDTH - n));
      }
    }
  }

  lemma NoneAbove(a: U64, k: nat)
    ensures Bit(a, k) ==> k < 64
  {
    Pow64();
    if k >= 64 {
      NoHighBits(a, WIDTH, k);
    }
  }

  lemma SignBit(a: U64)
    ensures Bit(a, WIDTH - 1) <==> a >= TWO63
  {
    Pow64();
    TopBit(a, WIDTH - 1);
  }

  predicate Shifts(op: Op) {
    op == SLL || op == SRL || op == SRA
  }

  /** Where bit `k` of a shifted word comes from. */
  predicate ShiftedBit(op: Op, a: U64, n: nat, k: nat)
    requires n < 64 && k < 64
  {
    if op == SLL then k >= n && Bit(a, k - n)
    else if op == SRL then k + n < 64 && Bit(a, k + n)
    else Bit(a, if k + n < 64 then k + n else WIDTH - 1)
  }

  lemma ShiftMoves(op: Op, a: U64, n: U64, k: nat)
    requires Shifts(op) && n < 64 && k < 64
    ensures Compute(op, a, n).Result? && (Bit(Compute(op, a, n).v, k) <==> ShiftedBit(op, a, n, k))
  {
    if op == SLL {
      LeftShifted(a, n, k);
    } else if op == SRL {
      RightShifted(a, n, k);
      NoneAbove(a, k + n);
    } else {
      SignedShifted(a, n, k);
    }
  }

  /** SLL, SRL and SRA move every bit by the second operand, SRA copying bit 63 in from above;
      amounts of 64 and more, undefined in C++, end the run. */
  lemma ShiftLaw(i: Instr, s: Arch) returns (c: Computed)
    requires Decoded(i) && Shifts(i.op)
    ensures Leaves(i, s, Handler(i, s), c)
    ensures var a, n := ReadReg(s.regs, i.rs1), ReadReg(s.regs, i.rs2);
            match c
            case Undefined => n >= 64
            case Result(v) => n < 64 && forall k :: 0 <= k < 64 ==> (Bit(v, k) <==> ShiftedBit(i.op, a, n, k))
  {
    var a, n := ReadReg(s.regs, i.rs1), ReadReg(s.regs, i.rs2);
    c := Compute(i.op, a, n);
    Left(i, s, c);
    ShiftComputes(i.op, a, n);
  }

  lemma ShiftComputes(op: Op, a: U64, n: U64)
    requires Shifts(op)
    ensures match Compute(op, a, n)
            case Undefined => n >= 64
            case Result(v) => n < 64 && forall k :: 0 <= k < 64 ==> (Bit(v, k) <==> ShiftedBit(op, a, n, k))
  {
    if n < 64 {
      forall k | 0 <= k < 64
        ensures Compute(op, a, n).Result? && (Bit(Compute(op, a, n).v, k) <==> ShiftedBit(op, a, n, k))
      {
        ShiftMoves(op, a, n, k);
      }
    }
  }

  // ---------------------------------------------------------------- W forms and immediates

  /** The operation on whole registers that a W form cuts down. */
  function Whole(op: Op): Op {
    match op
    case ADDW => ADD
    case SUBW => SUB
    case SLLW => SLL
    case SRLW => SRL
    case _ => SRA
  }

  predicate WordForm(op: Op) {
    match op
    case ADDW | SUBW | SLLW | SRLW | SRAW => true
    case _ => false
  }

  /** The result cut down to what lies below `modulus`. */
  function Cut(c: Computed, modulus: nat): Computed
    requires 0 < modulus <= TWO64
  {
    match c
    case Result(v) => Result(v % modulus)
    case Undefined => Undefined
  }

  lemma WordComputes(op: Op, a: U64, b: U64)
    requires WordForm(op)
    ensures KindOf(op) == KindOf(Whole(op)) == Register
    ensures Compute(op, a, b) == Cut(Compute(Whole(op), a, b), 0x1_0000_0000)
  {
  }

  lemma WholeLeft(i: Instr, s: Arch, c: Computed)
    requires Decoded(i) && KindOf(i.op) == Register
    requires c == Compute(i.op, ReadReg(s.regs, i.rs1), ReadReg(s.regs, i.rs2))
    ensures Leaves(i, s, Handler(i, s), c)
  {
    Left(i, s, c);
  }

  /** A W form leaves the low 32 bits of what the operation on whole registers leaves, extended with
      zeros as the code has it, and is undefined with it. */
  lemma WordLaw(i: Instr, s: Arch) returns (c: Computed)
    requires Decoded(i) && WordForm(i.op)
    ensures var whole := i.(op := Whole(i.op)); Leaves(whole, s, Handler(whole, s), c)
    ensures Leaves(i, s, Handler(i, s), Cut(c, 0x1_0000_0000))
  {
    var a, b := ReadReg(s.regs, i.rs1), ReadReg(s.regs, i.rs2);
    c := Compute(Whole(i.op), a, b);
    WordComputes(i.op, a, b);
    WholeLeft(i, s, Cut(c, 0x1_0000_0000));
    WholeLeft(i.(op := Whole(i.op)), s, c);
  }

  /** The operation on two registers that an immediate form stands for. */
  function RegisterForm(op: Op): Op {
    match op
    case ADDI => ADD
    case SLTI => SLT
    case SLTIU => SLTU
    case XORI => XOR
    case ORI => OR
    case ANDI => AND
    case SLLI => SLL
    case SRLI => SRL
    case SRAI => SRA
    case ADDIW => ADDW
    case SLLIW => SLLW
    case SRLIW => SRLW
    case _ => SRAW
  }

  predicate ImmediateForm(op: Op) {
    match op
    case ADDI | SLTI | SLTIU | XORI | ORI | ANDI | SLLI | SRLI | SRAI | ADDIW | SLLIW | SRLIW | SRAIW => true
    case _ => false
  }

  /** Five bits of the immediate for the 64-bit shifts, and its sign extension
      (`Displacement.SextIsCode`) for the others, the 32-bit shifts included. */
  function Operand(i: Instr): U64 {
    if i.op == SLLI || i.op == SRLI || i.op == SRAI then i.imm % 32 else Sext12(i.imm)
  }

  /** The state with `v` in a register. */
  function Loaded(s: Arch, q: nat, v: U64): Arch
    requires q < 32
  {
    s.(regs := WriteReg(s.regs, q, v))
  }

  lemma ImmediateComputes(op: Op, a: U64, b: U64)
    requires ImmediateForm(op)
    ensures KindOf(op) == Immediate && KindOf(RegisterForm(op)) == Register
    ensures Compute(op, a, b) == Compute(RegisterForm(op), a, b)
  {
  }

  lemma OperandIs(i: Instr, regs: Regs)
    requires Decoded(i) && KindOf(i.op) == Immediate
    ensures Operand(i) == SecondOperand(i, regs)
  {
  }

  /** The register form, with its second operand in `q`. */
  function InRegisters(i: Instr, q: nat): (j: Instr)
    requires Decoded(i) && ImmediateForm(i.op) && q < 32
    ensures Decoded(j) && KindOf(j.op) == Register
  {
    Instr(RegisterForm(i.op), i.rd, i.rs1, q, 0)
  }

  /** An immediate form leaves what its register form would, had the second operand been put into
      some other register `q` first, and is undefined with it. */
  lemma ImmediateLaw(i: Instr, q: nat, s: Arch) returns (c: Computed)
    requires Decoded(i) && ImmediateForm(i.op) && 0 < q < 32 && q != i.rs1
    ensures Leaves(i, s, Handler(i, s), c)
    ensures var j, s' := InRegisters(i, q), Loaded(s, q, Operand(i));
            Leaves(j, s', Handler(j, s'), c)
  {
    var op := RegisterForm(i.op);
    c := Compute(i.op, ReadReg(s.regs, i.rs1), Operand(i));
    ImmediateComputes(i.op, ReadReg(s.regs, i.rs1), Operand(i));
    OperandIs(i, s.regs);
    Left(i, s, c);
    LoadedLeft(op, i, q, s, c);
  }

  lemma LoadedLeft(op: Op, i: Instr, q: nat, s: Arch, c: Computed)
    requires Decoded(i) && KindOf(op) == Register && 0 < q < 32 && q != i.rs1
    requires c == Compute(op, ReadReg(s.regs, i.rs1), Operand(i))
    ensures var j := Instr(op, i.rd, i.rs1, q, 0);
            var s' := Loaded(s, q, Operand(i));
            Decoded(j) && Leaves(j, s', Handler(j, s'), c)
  {
    RegisterDecodes(op);
    Left(Instr(op, i.rd, i.rs1, q, 0), Loaded(s, q, Operand(i)), c);
  }

  lemma RegisterDecodes(op: Op)
    requires KindOf(op) == Register
    ensures op != BB_END && !IsBranch(op) && op != JAL
  {
  }

  lemma UpperIs(i: Instr, s: Arch)
    requires Decoded(i) && KindOf(i.op) == Upper
    ensures Handler(i, s) == ExecUpper(i, s)
  {
  }

  lemma UpperLeft(i: Instr, s: Arch)
    requires Decoded(i)
    ensures Leaves(i, s, ExecUpper(i, s), Result(UpperResult(i, Pc(s))))
  {
    DeliverIs(i, s, UpperResult(i, Pc(s)));
  }

  lemma UpperSum(i: Instr, pc: U64) returns (v: U64)
    ensures v == UpperResult(i, pc)
    ensures v == if i.op == LUI then i.imm % 0x10_0000 else (pc + i.imm % 0x10_0000) % TWO64
  {
    v := UpperResult(i, pc);
  }

  lemma UpperKinds(op: Op)
    ensures op == LUI || op == AUIPC ==> KindOf(op) == Upper
  {
  }

  /** LUI and AUIPC, which take 20 bits of the immediate unshifted, as the code has them. */
  lemma UpperLaw(i: Instr, s: Arch) returns (v: U64)
    requires Decoded(i) && (i.op == LUI || i.op == AUIPC)
    ensures Leaves(i, s, Handler(i, s), Result(v))
    ensures v == if i.op == LUI then i.imm % 0x10_0000 else (Pc(s) + i.imm % 0x10_0000) % TWO64
  {
    v := UpperSum(i, Pc(s));
    UpperKinds(i.op);
    UpperIs(i, s);
    UpperLeft(i, s);
  }
}
