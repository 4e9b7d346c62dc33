/** src/decoder/decoder.cpp and the opcode matrix: 32-bit words to instructions, with
    the encoder of section 2.2 and 2.3 of the RISC-V Unprivileged ISA as its inverse. */
module Decoder {
  import opened Bits
  import opened Isa

  type Word = x: nat | x < 0x1_0000_0000

  datatype Format = ILLEGAL | R | I | S | B | U | J

  datatype Cell = Cell(format: Format, op: Op)

  // ---------------------------------------------------------------- the code

  // Fields are written as quotients and remainders, and immediates as sums of shifted fields;
  // `DecoderBits.DecodeIsCode` proves them equal to the masks, shifts and `|` of the code.

  function Opcode(word: Word): nat { word % 128 }
  function Rd(word: Word): nat { word / 0x80 % 32 }
  function Func3(word: Word): nat { word / 0x1000 % 8 }
  function Rs1(word: Word): nat { word / 0x8000 % 32 }
  function Rs2(word: Word): nat { word / 0x10_0000 % 32 }
  function Func7(word: Word): nat { word / 0x200_0000 }
  function ImmI(word: Word): nat { word / 0x10_0000 }

  /** The non-illegal rows of `INSTR_WHO`. */
  function Matrix(opcode: nat, func3: nat): Cell {
    match opcode
    case 0x03 => Cell(I, match func3
                         case 0 => LB case 1 => LH case 2 => LW case 3 => LD
                         case 4 => LBU case 5 => LHU case 6 => LWU case _ => INV_OP)
    case 0x0F => Cell(I, if func3 == 0 then PAUSE else INV_OP)
    case 0x13 => Cell(I, match func3
                         case 0 => ADDI case 1 => SLLI case 2 => SLTI case 3 => SLTIU
                         case 4 => XORI case 5 => SRAI case 6 => ORI case _ => ANDI)
    case 0x17 => Cell(U, AUIPC)
    case 0x1B => Cell(I, match func3 case 0 => ADDIW case 1 => SLLIW case _ => INV_OP)
    case 0x23 => Cell(S, match func3 case 0 => SB case 1 => SH case 2 => SW case 3 => SD case _ => INV_OP)
    case 0x33 => Cell(R, INV_OP)
    case 0x37 => Cell(U, LUI)
    case 0x3B => Cell(R, INV_OP)
    case 0x63 => Cell(B, match func3
                         case 0 => BEQ case 1 => BNE case 4 => BLT case 5 => BGE
                         case 6 => BLTU case 7 => BGEU case _ => INV_OP)
    case 0x67 => Cell(I, if func3 == 0 then JALR else INV_OP)
    case 0x6F => Cell(J, JAL)
    case 0x73 => Cell(I, match func3
                         case 1 => CSRRW case 2 => CSRRS case 3 => CSRRC
                         case 5 => CSRRWI case 6 => CSRRSI case 7 => CSRRCI case _ => INV_OP)
    case _ => Cell(ILLEGAL, INV_OP)
  }

  function OpR(opcode: nat, func7: nat, func3: nat): Op {
    match (opcode, func7, func3)
    case (0x33, 0, 0) => ADD
    case (0x33, 0x20, 0) => SUB
    case (0x33, 0, 1) => SLL
    case (0x33, 0, 2) => SLT
    case (0x33, 0, 3) => SLTU
    case (0x33, 0, 4) => XOR
    case (0x33, 0, 5) => SRL
    case (0x33, 0x20, 5) => SRA
    case (0x33, 0, 6) => OR
    case (0x33, 0, 7) => AND
    case (0x3B, 0, 0) => ADDW
    case (0x3B, 0x20, 0) => SUBW
    case (0x3B, 0, 1) => SLLW
    case (0x3B, 0, 5) => SRLW
    case (0x3B, 0x20, 5) => SRAW
    case _ => INV_OP
  }

  function ParseR(word: Word, opcode: nat, func3: nat): Instr {
    Instr(OpR(opcode, Func7(word), func3),
          Rd(word), Rs1(word), Rs2(word), IMM_POISON)
  }

  /** The operation of an I-format word whose matrix cell does not name one. */
  function OpI(opcode: nat, func3: nat, rd: nat, rs1: nat, imm: nat, top7: nat): Op {
    match opcode
    case 0x0F => FENCE
    case 0x73 =>
      if rd == 0 && rs1 == 0 && func3 == 0 then (
        match imm
        case 0 => ECALL
        case 1 => EBREAK
        case 0x102 => SRET
        case 0x302 => MRET
        case _ => INV_OP
      ) else INV_OP
    case 0x1B => if top7 == 0 then SRLIW else if top7 == 0x20 then SRAIW else INV_OP
    case _ => INV_OP
  }

  function ParseI(word: Word, op: Op, opcode: nat): Instr {
    var imm := ImmI(word);
    var rd, rs1 := Rd(word), Rs1(word);
    Instr(if op != INV_OP then op else OpI(opcode, Func3(word), rd, rs1, imm, Func7(word)), rd, rs1, 0, imm)
  }

  // The decoder joins immediate fields with `|`; the shifted fields never overlap, so
  // the result is their sum (`DecoderBits.ImmSIsCode`, `ImmBIsCode`, `ImmJIsCode`).

  function ImmS(word: Word): nat {
    Rd(word) + Func7(word) * 32
  }

  function ImmB(word: Word): nat {
    (word / 0x100 % 16) * 2 + (word / 0x200_0000 % 64) * 32 + (word / 0x80 % 2) * 2048 + (word / 0x8000_0000) * 4096
  }

  function ImmJ(word: Word): nat {
    (word / 0x20_0000 % 1024) * 2 + (word / 0x10_0000 % 2) * 2048
    + (word / 0x1000 % 256) * 4096 + (word / 0x8000_0000) * 0x10_0000
  }

  function ParseS(word: Word, op: Op): Instr {
    Instr(op, 0, Rs1(word), Rs2(word), ImmS(word))
  }

  function ParseB(word: Word, op: Op): Instr {
    Instr(op, 0, Rs1(word), Rs2(word), ImmB(word))
  }

  function ParseU(word: Word, op: Op): Instr {
    Instr(op, Rd(word), 0, 0, word / 4096 * 4096)
  }

  function ParseJ(word: Word, op: Op): Instr {
    Instr(op, Rd(word), 0, 0, ImmJ(word))
  }

  function Decode(word: Word): Instr {
    var opcode, func3 := Opcode(word), Func3(word);
    var cell := Matrix(opcode, func3);
    match cell.format
    case R => ParseR(word, opcode, func3)
    case I => ParseI(word, cell.op, opcode)
    case S => ParseS(word, cell.op)
    case B => ParseB(word, cell.op)
    case U => ParseU(word, cell.op)
    case J => ParseJ(word, cell.op)
    case ILLEGAL => Instr(INV_OP, 0, 0, 0, 0)
  }

  // ---------------------------------------------------------------- fields are slices

  lemma Powers()
    ensures Pow2(1) == 2 && Pow2(3) == 8 && Pow2(4) == 16 && Pow2(5) == 32 && Pow2(6) == 64
    ensures Pow2(7) == 128 && Pow2(8) == 256 && Pow2(10) == 1024 && Pow2(11) == 2048 && Pow2(12) == 4096
    ensures Pow2(15) == 0x8000 && Pow2(20) == 0x10_0000 && Pow2(21) == 0x20_0000
    ensures Pow2(25) == 0x200_0000 && Pow2(31) == 0x8000_0000 && Pow2(32) == 0x1_0000_0000
  {
    Pow2Add(12, 3);
    Pow2Add(15, 5);
    Pow2Add(20, 5);
    Pow2Add(25, 6);
  }

  // ---------------------------------------------------------------- every word

  lemma MatrixRows(opcode: nat, func3: nat)
    ensures var c := Matrix(opcode, func3);
            && c.op != BB_END
            && (IsBranch(c.op) ==> c.format == B) && (c.op.JAL? ==> c.format == J)
  {
  }

  lemma ImmEven(word: Word)
    ensures ImmB(word) % 2 == 0 && ImmJ(word) % 2 == 0
  {
    FourEven(word / 0x100 % 16, word / 0x200_0000 % 64, word / 0x80 % 2, word / 0x8000_0000);
    FourEven(word / 0x20_0000 % 1024, 64 * (word / 0x10_0000 % 2),
             2 * (word / 0x1000 % 256), 256 * (word / 0x8000_0000));
  }

  lemma FourEven(a: nat, b: nat, c: nat, d: nat)
    ensures (a * 2 + b * 32 + c * 2048 + d * 4096) % 2 == 0
  {
    assert a * 2 + b * 32 + c * 2048 + d * 4096 == 2 * (a + b * 16 + c * 1024 + d * 2048);
  }

  lemma ParsedR(word: Word, opcode: nat, func3: nat)
    ensures Decoded(ParseR(word, opcode, func3))
  {
    SmallFields(word);
  }

  lemma ParsedI(word: Word, op: Op, opcode: nat)
    requires op != BB_END && !IsBranch(op) && !op.JAL?
    ensures Decoded(ParseI(word, op, opcode))
  {
    SmallFields(word);
  }

  lemma ParsedB(word: Word, op: Op)
    requires op != BB_END
    ensures Decoded(ParseB(word, op))
  {
    SmallFields(word);
    ImmEven(word);
    EvenIsMod(ImmB(word));
  }

  lemma ParsedJ(word: Word, op: Op)
    requires op != BB_END
    ensures Decoded(ParseJ(word, op))
  {
    SmallFields(word);
    ImmEven(word);
    EvenIsMod(ImmJ(word));
  }

  /** Every word decodes to registers below 32, never to the block sentinel, and with
      an even immediate when the operation is a branch or JAL. */
  lemma EveryWordDecodes(word: Word)
    ensures Decoded(Decode(word))
  {
    var opcode, func3 := Opcode(word), Func3(word);
    var cell := Matrix(opcode, func3);
    MatrixRows(opcode, func3);
    match cell.format
    case R => ParsedR(word, opcode, func3);
    case I => ParsedI(word, cell.op, opcode);
    case B => ParsedB(word, cell.op);
    case J => ParsedJ(word, cell.op);
    case _ => SmallFields(word);
  }

  lemma SmallFields(word: Word)
    ensures Rd(word) < 32 && Rs1(word) < 32 && Rs2(word) < 32
  {
  }

  // ---------------------------------------------------------------- the encoder

  function FormatOf(op: Op): Format {
    match op
    case ADD | SUB | SLL | SLT | SLTU | XOR | SRL | SRA | OR | AND => R
    case ADDW | SUBW | SLLW | SRLW | SRAW => R
    case SB | SH | SW | SD => S
    case BEQ | BNE | BLT | BGE | BLTU | BGEU => B
    case LUI | AUIPC => U
    case JAL => J
    case INV_OP | BB_END | FENCE | FENCE_TSO | PAUSE | SRLI => ILLEGAL
    case _ => I
  }

  /** Major opcode and funct3 of each operation, from the ISA's opcode tables. */
  function Major(op: Op): (nat, nat) {
    match op
    case LUI => (0x37, 0) case AUIPC => (0x17, 0) case JAL => (0x6F, 0) case JALR => (0x67, 0)
    case BEQ => (0x63, 0) case BNE => (0x63, 1) case BLT => (0x63, 4)
    case BGE => (0x63, 5) case BLTU => (0x63, 6) case BGEU => (0x63, 7)
    case LB => (0x03, 0) case LH => (0x03, 1) case LW => (0x03, 2) case LD => (0x03, 3)
    case LBU => (0x03, 4) case LHU => (0x03, 5) case LWU => (0x03, 6)
    case SB => (0x23, 0) case SH => (0x23, 1) case SW => (0x23, 2) case SD => (0x23, 3)
    case ADDI => (0x13, 0) case SLLI => (0x13, 1) case SLTI => (0x13, 2) case SLTIU => (0x13, 3)
    case XORI => (0x13, 4) case SRLI => (0x13, 5) case SRAI => (0x13, 5) case ORI => (0x13, 6) case ANDI => (0x13, 7)
    case ADD => (0x33, 0) case SUB => (0x33, 0) case SLL => (0x33, 1) case SLT => (0x33, 2)
    case SLTU => (0x33, 3) case XOR => (0x33, 4) case SRL => (0x33, 5) case SRA => (0x33, 5)
    case OR => (0x33, 6) case AND => (0x33, 7)
    case ADDW => (0x3B, 0) case SUBW => (0x3B, 0) case SLLW => (0x3B, 1) case SRLW => (0x3B, 5) case SRAW => (0x3B, 5)
    case ADDIW => (0x1B, 0) case SLLIW => (0x1B, 1) case SRLIW => (0x1B, 5) case SRAIW => (0x1B, 5)
    case CSRRW => (0x73, 1) case CSRRS => (0x73, 2) case CSRRC => (0x73, 3)
    case CSRRWI => (0x73, 5) case CSRRSI => (0x73, 6) case CSRRCI => (0x73, 7)
    case ECALL => (0x73, 0) case EBREAK => (0x73, 0) case SRET => (0x73, 0) case MRET => (0x73, 0)
    case FENCE => (0x0F, 0) case FENCE_TSO => (0x0F, 0) case PAUSE => (0x0F, 0)
    case INV_OP => (0, 0) case BB_END => (0, 0)
  }

  function Funct7(op: Op): nat {
    if op.SUB? || op.SRA? || op.SUBW? || op.SRAW? then 0x20 else 0
  }

  /** The operands each format can carry. */
  predicate Encodable(i: Instr) {
    && i.rd < 32 && i.rs1 < 32 && i.rs2 < 32
    && match FormatOf(i.op)
       case R => i.imm == IMM_POISON
       case I =>
         && i.rs2 == 0 && i.imm < 4096
         && (i.op.SRLIW? ==> i.imm / 32 == 0)
         && (i.op.SRAIW? ==> i.imm / 32 == 0x20)
         && (i.op.ECALL? || i.op.EBREAK? || i.op.SRET? || i.op.MRET? ==>
               i.rd == 0 && i.rs1 == 0
               && i.imm == if i.op.ECALL? then 0 else if i.op.EBREAK? then 1 else if i.op.SRET? then 0x102 else 0x302)
       case S => i.rd == 0 && i.imm < 4096
       case B => i.rd == 0 && i.imm < 0x2000 && i.imm % 2 == 0
       case U => i.rs1 == 0 && i.rs2 == 0 && i.imm < 0x1_0000_0000 && i.imm % 4096 == 0
       case J => i.rs1 == 0 && i.rs2 == 0 && i.imm < 0x20_0000 && i.imm % 2 == 0
       case ILLEGAL => false
  }

  /** The six slots of a 32-bit instruction word. */
  function Pack(opcode: nat, rd: nat, func3: nat, rs1: nat, rs2: nat, func7: nat): (w: nat)
    ensures opcode < 128 && rd < 32 && func3 < 8 && rs1 < 32 && rs2 < 32 && func7 < 128 ==> w < 0x1_0000_0000
  {
    opcode + rd * 0x80 + func3 * 0x1000 + rs1 * 0x8000 + rs2 * 0x10_0000 + func7 * 0x200_0000
  }

  // Immediate bits [4:1|11], [12|10:5], [4:1|11] and [20|10:5] as the slots they fill.

  function LowSlot(imm: nat): (r: nat)
    ensures r < 32
  {
    imm / 2048 % 2 + imm / 2 % 16 * 2
  }

  function TopSlot(imm: nat, sign: nat): (r: nat)
    ensures sign < 2 ==> r < 128
  {
    imm / 32 % 64 + sign * 64
  }

  function Encode(i: Instr): Word
    requires Encodable(i)
  {
    var (opcode, func3) := Major(i.op);
    match FormatOf(i.op)
    case R => Pack(opcode, i.rd, func3, i.rs1, i.rs2, Funct7(i.op))
    case I => Pack(opcode, i.rd, func3, i.rs1, i.imm % 32, i.imm / 32)
    case S => Pack(opcode, i.imm % 32, func3, i.rs1, i.rs2, i.imm / 32)
    case B => Pack(opcode, LowSlot(i.imm), func3, i.rs1, i.rs2, TopSlot(i.imm, i.imm / 4096))
    case U => Pack(opcode, i.rd, i.imm / 4096 % 8, i.imm / 0x8000 % 32, i.imm / 0x10_0000 % 32, i.imm / 0x200_0000)
    case J =>
      Pack(opcode, i.rd, i.imm / 4096 % 8, i.imm / 0x8000 % 32, LowSlot(i.imm), TopSlot(i.imm, i.imm / 0x10_0000))
  }

  predicate Slots(opcode: nat, rd: nat, func3: nat, rs1: nat, rs2: nat, func7: nat) {
    opcode < 128 && rd < 32 && func3 < 8 && rs1 < 32 && rs2 < 32 && func7 < 128
  }

  lemma Unpack(opcode: nat, rd: nat, func3: nat, rs1: nat, rs2: nat, func7: nat)
    requires Slots(opcode, rd, func3, rs1, rs2, func7)
    ensures var w := Pack(opcode, rd, func3, rs1, rs2, func7);
            && Opcode(w) == opcode && Rd(w) == rd && Func3(w) == func3
            && Rs1(w) == rs1 && Rs2(w) == rs2 && Func7(w) == func7
            && ImmI(w) == rs2 + 32 * func7
  {
    var w := Pack(opcode, rd, func3, rs1, rs2, func7);
    var x2 := rs2 + 32 * func7;
    var x1 := rs1 + 32 * x2;
    var x3 := func3 + 8 * x1;
    DivDiv(w, 0x80, 32, 0x1000);
    DivDiv(w, 0x1000, 8, 0x8000);
    DivDiv(w, 0x8000, 32, 0x10_0000);
    DivDiv(w, 0x10_0000, 32, 0x200_0000);
    assert w == opcode + 0x80 * (rd + 32 * x3);
    assert w / 0x80 == rd + 32 * x3;
    assert w / 0x1000 == x3;
    assert w / 0x8000 == x1;
    assert w / 0x10_0000 == x2;
  }

  /** Decoding inverts the ISA encoding of every operation the table knows. */
  lemma RoundTrip(i: Instr)
    requires Encodable(i)
    ensures Decode(Encode(i)) == i
  {
    match FormatOf(i.op)
    case R => RoundTripR(i);
    case I => RoundTripI(i);
    case S => RoundTripS(i);
    case B => RoundTripB(i);
    case U => RoundTripU(i);
    case J => RoundTripJ(i);
  }

  lemma RoundTripR(i: Instr)
    requires Encodable(i) && FormatOf(i.op) == R
    ensures Decode(Encode(i)) == i
  {
    var (opcode, func3) := Major(i.op);
    Unpack(opcode, i.rd, func3, i.rs1, i.rs2, Funct7(i.op));
  }

  /** The ISA's I-format opcodes find their row in the matrix. */
  lemma MajorI(i: Instr)
    requires Encodable(i) && FormatOf(i.op) == I
    ensures var (opcode, func3) := Major(i.op);
            && Slots(opcode, i.rd, func3, i.rs1, i.imm % 32, i.imm / 32)
            && Matrix(opcode, func3).format == I
            && var op := Matrix(opcode, func3).op;
               i.op == if op != INV_OP then op else OpI(opcode, func3, i.rd, i.rs1, i.imm, i.imm / 32)
  {
  }

  lemma RoundTripI(i: Instr)
    requires Encodable(i) && FormatOf(i.op) == I
    ensures Decode(Encode(i)) == i
  {
    MajorI(i);
    var (opcode, func3) := Major(i.op);
    Unpack(opcode, i.rd, func3, i.rs1, i.imm % 32, i.imm / 32);
    var w := Encode(i);
    assert Decode(w) == ParseI(w, Matrix(opcode, func3).op, opcode);
  }

  lemma RoundTripS(i: Instr)
    requires Encodable(i) && FormatOf(i.op) == S
    ensures Decode(Encode(i)) == i
  {
    var (opcode, func3) := Major(i.op);
    Unpack(opcode, i.imm % 32, func3, i.rs1, i.rs2, i.imm / 32);
  }

  /** The B immediate, read off the instruction slots it overlays. */
  lemma ImmBFromSlots(w: Word)
    ensures ImmB(w) == Rd(w) / 2 * 2 + Func7(w) % 64 * 32 + Rd(w) % 2 * 2048 + Func7(w) / 64 * 4096
  {
    DivDiv(w, 0x80, 2, 0x100);
    DivDiv(w, 0x200_0000, 64, 0x8000_0000);
    HalfOf(w / 0x80, 16, 32);
  }

  /** Halving commutes with keeping the low end. */
  lemma HalfOf(n: nat, m: nat, m2: nat)
    requires m > 0 && m2 == 2 * m
    ensures n / 2 % m == n % m2 / 2 && n % 2 == n % m2 % 2
  {
    var q, r := n / m2, n % m2;
    assert n == m2 * q + r == 2 * (m * q) + r;
    assert n / 2 == m * q + r / 2;
    DivUnique(n / 2, m, q, r / 2);
  }

  /** The J immediate, read off the instruction slots it overlays. */
  lemma ImmJFromSlots(w: Word)
    ensures ImmJ(w) == Rs2(w) / 2 * 2 + Func7(w) % 64 * 32 + Rs2(w) % 2 * 2048
                       + Func3(w) * 4096 + Rs1(w) * 0x8000 + Func7(w) / 64 * 0x10_0000
  {
    var n, m := w / 0x10_0000, w / 0x1000;
    DivDiv(w, 0x10_0000, 2, 0x20_0000);
    DivDiv(w, 0x10_0000, 32, 0x200_0000);
    DivDiv(w, 0x200_0000, 64, 0x8000_0000);
    DivDiv(w, 0x1000, 8, 0x8000);
    HalfOf(n, 1024, 2048);
    ModSplit(n, 32, 64, 2048);
    HalfOf(n, 16, 32);
    ModSplit(m, 8, 32, 256);
    assert n % 2048 / 2 == n % 32 / 2 + n / 32 % 64 * 16;
  }

  lemma ModSplit(x: nat, a: nat, b: nat, c: nat)
    requires a > 0 && b > 0 && c == a * b
    ensures x % c == x % a + x / a % b * a
  {
    DivDiv(x, a, b, c);
    var q := x / a;
    assert x == a * q + x % a;
    assert q == b * (q / b) + q % b;
    assert a * q == c * (q / b) + a * (q % b) by {
      assert a * q == a * (b * (q / b)) + a * (q % b);
      assert a * (b * (q / b)) == (a * b) * (q / b);
    }
    assert x == c * (x / c) + x % c;
  }

  lemma SplitB(imm: nat)
    requires imm < 0x2000 && imm % 2 == 0
    ensures imm == imm / 2 % 16 * 2 + imm / 32 % 64 * 32 + imm / 2048 % 2 * 2048 + imm / 4096 * 4096
  {
    DivDiv(imm, 2, 16, 32);
    DivDiv(imm, 32, 64, 2048);
    DivDiv(imm, 2048, 2, 4096);
  }

  lemma SplitJ(imm: nat)
    requires imm < 0x20_0000 && imm % 2 == 0
    ensures imm == imm / 2 % 16 * 2 + imm / 32 % 64 * 32 + imm / 2048 % 2 * 2048
                   + imm / 4096 % 8 * 4096 + imm / 0x8000 % 32 * 0x8000 + imm / 0x10_0000 * 0x10_0000
  {
    DivDiv(imm, 2, 16, 32);
    DivDiv(imm, 32, 64, 2048);
    DivDiv(imm, 2048, 2, 4096);
    DivDiv(imm, 4096, 8, 0x8000);
    DivDiv(imm, 0x8000, 32, 0x10_0000);
  }

  lemma JoinSlots(imm: nat, sign: nat)
    ensures LowSlot(imm) / 2 == imm / 2 % 16 && LowSlot(imm) % 2 == imm / 2048 % 2
    ensures TopSlot(imm, sign) % 64 == imm / 32 % 64 && TopSlot(imm, sign) / 64 == sign
  {
    TwoDigits(imm / 2048 % 2, imm / 2 % 16, 2);
    TwoDigits(imm / 32 % 64, sign, 64);
  }

  lemma TwoDigits(lo: nat, hi: nat, d: nat)
    requires lo < d
    ensures (lo + hi * d) / d == hi && (lo + hi * d) % d == lo
  {
    assert hi * d == d * hi;
    DivUnique(lo + hi * d, d, hi, lo);
  }

  lemma RoundTripB(i: Instr)
    requires Encodable(i) && FormatOf(i.op) == B
    ensures Decode(Encode(i)) == i
  {
    MajorB(i.op);
    ImmOfSlotsB(i.imm);
    RoundTripSlotsB(i, Major(i.op).0, Major(i.op).1, LowSlot(i.imm), TopSlot(i.imm, i.imm / 4096));
  }

  lemma ImmOfSlotsB(imm: nat)
    requires imm < 0x2000 && imm % 2 == 0
    ensures imm / 4096 < 2
    ensures var rd, f7 := LowSlot(imm), TopSlot(imm, imm / 4096);
            imm == rd / 2 * 2 + f7 % 64 * 32 + rd % 2 * 2048 + f7 / 64 * 4096
  {
    SplitB(imm);
    JoinSlots(imm, imm / 4096);
  }

  lemma MajorB(op: Op)
    requires FormatOf(op) == B
    ensures var (opcode, func3) := Major(op); opcode == 0x63 && func3 < 8 && Matrix(opcode, func3) == Cell(B, op)
  {
  }

  lemma RoundTripSlotsB(i: Instr, opcode: nat, func3: nat, rd: nat, f7: nat)
    requires Matrix(opcode, func3) == Cell(B, i.op) && Slots(opcode, rd, func3, i.rs1, i.rs2, f7) && i.rd == 0
    requires i.imm == rd / 2 * 2 + f7 % 64 * 32 + rd % 2 * 2048 + f7 / 64 * 4096
    ensures Decode(Pack(opcode, rd, func3, i.rs1, i.rs2, f7)) == i
  {
    Unpack(opcode, rd, func3, i.rs1, i.rs2, f7);
    ImmBFromSlots(Pack(opcode, rd, func3, i.rs1, i.rs2, f7));
  }

  lemma RoundTripU(i: Instr)
    requires Encodable(i) && FormatOf(i.op) == U
    ensures Decode(Encode(i)) == i
  {
    var (opcode, func3) := Major(i.op);
    var n := i.imm / 4096;
    DivDiv(i.imm, 4096, 8, 0x8000);
    DivDiv(i.imm, 4096, 256, 0x10_0000);
    DivDiv(i.imm, 4096, 0x2000, 0x200_0000);
    PackU(opcode, i.rd, n);
  }

  lemma PackU(opcode: nat, rd: nat, n: nat)
    requires opcode < 128 && rd < 32 && n < 0x10_0000
    ensures var w := Pack(opcode, rd, n % 8, n / 8 % 32, n / 256 % 32, n / 0x2000);
            w == opcode + rd * 0x80 + n * 0x1000 && Opcode(w) == opcode && Rd(w) == rd && w / 4096 == n
  {
    DivDiv(n, 8, 32, 256);
    DivDiv(n, 256, 32, 0x2000);
    var w := opcode + rd * 0x80 + n * 0x1000;
    assert w / 0x80 == rd + 32 * n;
    DivDiv(w, 0x80, 32, 0x1000);
  }

  lemma RoundTripJ(i: Instr)
    requires Encodable(i) && FormatOf(i.op) == J
    ensures Decode(Encode(i)) == i
  {
    ImmOfSlotsJ(i.imm);
    RoundTripSlotsJ(i, i.imm / 4096 % 8, i.imm / 0x8000 % 32, LowSlot(i.imm), TopSlot(i.imm, i.imm / 0x10_0000));
  }

  lemma ImmOfSlotsJ(imm: nat)
    requires imm < 0x20_0000 && imm % 2 == 0
    ensures imm / 0x10_0000 < 2
    ensures var rs2, f7 := LowSlot(imm), TopSlot(imm, imm / 0x10_0000);
            imm == rs2 / 2 * 2 + f7 % 64 * 32 + rs2 % 2 * 2048
                   + imm / 4096 % 8 * 4096 + imm / 0x8000 % 32 * 0x8000 + f7 / 64 * 0x10_0000
  {
    SplitJ(imm);
    JoinSlots(imm, imm / 0x10_0000);
  }

  lemma RoundTripSlotsJ(i: Instr, func3: nat, rs1: nat, rs2: nat, f7: nat)
    requires i.op == JAL && Slots(0x6F, i.rd, func3, rs1, rs2, f7) && i.rs1 == i.rs2 == 0
    requires i.imm == rs2 / 2 * 2 + f7 % 64 * 32 + rs2 % 2 * 2048 + func3 * 4096 + rs1 * 0x8000 + f7 / 64 * 0x10_0000
    ensures Decode(Pack(0x6F, i.rd, func3, rs1, rs2, f7)) == i
  {
    Unpack(0x6F, i.rd, func3, rs1, rs2, f7);
    ImmJFromSlots(Pack(0x6F, i.rd, func3, rs1, rs2, f7));
  }
}
