/** Which words the decoder takes for instructions: the encodings of the RISC-V Unprivileged ISA, each as
    what it encodes, and exactly two kinds of words besides (src/decoder/decoder.cpp:148-180). */
module Encoding {
  import opened Bits
  import opened Isa
  import opened Decoder

  const MISC_MEM := 0x0F
  const OP_IMM_32 := 0x1B

  /** Words decoded without looking at all of them: anything under MISC-MEM, and 32-bit shifts right by
      an immediate, whose funct3 is not compared with 5. */
  predicate Lax(w: Word) {
    || Opcode(w) == MISC_MEM
    || (&& Opcode(w) == OP_IMM_32 && Func3(w) != 0 && Func3(w) != 1 && Func3(w) != 5
        && (Func7(w) == 0 || Func7(w) == 0x20))
  }

  /** An instruction word is its six slots. */
  lemma Repack(w: Word)
    ensures Slots(Opcode(w), Rd(w), Func3(w), Rs1(w), Rs2(w), Func7(w))
    ensures w == Pack(Opcode(w), Rd(w), Func3(w), Rs1(w), Rs2(w), Func7(w))
  {
    DivModMod(w, 0x80, 32, 0x1000);
    DivModMod(w, 0x1000, 8, 0x8000);
    DivModMod(w, 0x8000, 32, 0x10_0000);
    DivModMod(w, 0x10_0000, 32, 0x200_0000);
  }

  /** The whole upper part of a word, as the slots in it. */
  lemma Upper(w: Word)
    ensures ImmI(w) == Rs2(w) + 32 * Func7(w)
    ensures w / 4096 == Func3(w) + 8 * Rs1(w) + 256 * Rs2(w) + 0x2000 * Func7(w)
  {
    DivModMod(w, 0x1000, 8, 0x8000);
    DivModMod(w, 0x8000, 32, 0x10_0000);
    DivModMod(w, 0x10_0000, 32, 0x200_0000);
  }

  /** Decoding is undone by encoding. */
  predicate Undone(w: Word, i: Instr) {
    Encodable(i) && Encode(i) == w
  }

  // ---------------------------------------------------------------- the rows of the tables

  /** This row is the ISA's, if it is a row at all. */
  predicate OwnRow(op: Op, opcode: nat, func7: nat, func3: nat) {
    match op
    case INV_OP => true
    case _ => FormatOf(op) == R && Major(op) == (opcode, func3) && Funct7(op) == func7
  }

  lemma RowOp(func7: nat, func3: nat)
    ensures OwnRow(OpR(0x33, func7, func3), 0x33, func7, func3)
  {
  }

  lemma RowOp32(func7: nat, func3: nat)
    ensures OwnRow(OpR(0x3B, func7, func3), 0x3B, func7, func3)
  {
  }

  lemma RowR(opcode: nat, func7: nat, func3: nat)
    requires opcode == 0x33 || opcode == 0x3B
    ensures OwnRow(OpR(opcode, func7, func3), opcode, func7, func3)
  {
    RowOp(func7, func3);
    RowOp32(func7, func3);
  }

  /** The operation an I-format word decodes to. */
  function OpOf(opcode: nat, func3: nat, rd: nat, rs1: nat, imm: nat): Op {
    var row := Matrix(opcode, func3).op;
    if row != INV_OP then row else OpI(opcode, func3, rd, rs1, imm, imm / 32)
  }

  /** This I-format row is the ISA's. */
  predicate OwnRowI(op: Op, opcode: nat, func3: nat, rd: nat, rs1: nat, imm: U64) {
    FormatOf(op) == I && Major(op) == (opcode, func3) && Encodable(Instr(op, rd, rs1, 0, imm))
  }

  lemma RowSystem(func3: nat, rd: nat, rs1: nat, imm: nat)
    requires func3 < 8 && imm < 4096 && rd < 32 && rs1 < 32 && OpOf(0x73, func3, rd, rs1, imm) != INV_OP
    ensures OwnRowI(OpOf(0x73, func3, rd, rs1, imm), 0x73, func3, rd, rs1, imm)
  {
  }

  lemma RowOpImm32(func3: nat, rd: nat, rs1: nat, imm: nat)
    requires (func3 == 0 || func3 == 1 || func3 == 5) && imm < 4096 && rd < 32 && rs1 < 32
    requires OpOf(OP_IMM_32, func3, rd, rs1, imm) != INV_OP
    ensures OwnRowI(OpOf(OP_IMM_32, func3, rd, rs1, imm), OP_IMM_32, func3, rd, rs1, imm)
  {
  }

  lemma RowLoad(func3: nat, rd: nat, rs1: nat, imm: nat)
    requires func3 < 8 && imm < 4096 && rd < 32 && rs1 < 32 && OpOf(0x03, func3, rd, rs1, imm) != INV_OP
    ensures OwnRowI(OpOf(0x03, func3, rd, rs1, imm), 0x03, func3, rd, rs1, imm)
  {
  }

  lemma RowOpImm(func3: nat, rd: nat, rs1: nat, imm: nat)
    requires func3 < 8 && imm < 4096 && rd < 32 && rs1 < 32
    ensures OwnRowI(OpOf(0x13, func3, rd, rs1, imm), 0x13, func3, rd, rs1, imm)
  {
  }

  lemma RowJalr(func3: nat, rd: nat, rs1: nat, imm: nat)
    requires func3 < 8 && imm < 4096 && rd < 32 && rs1 < 32 && OpOf(0x67, func3, rd, rs1, imm) != INV_OP
    ensures OwnRowI(OpOf(0x67, func3, rd, rs1, imm), 0x67, func3, rd, rs1, imm)
  {
  }

  lemma OpcodesI(opcode: nat, func3: nat)
    requires Matrix(opcode, func3).format == I && opcode != MISC_MEM
    ensures opcode == 0x03 || opcode == 0x13 || opcode == 0x67 || opcode == 0x73 || opcode == OP_IMM_32
  {
  }

  lemma RowI(opcode: nat, func3: nat, rd: nat, rs1: nat, imm: nat)
    requires func3 < 8 && Matrix(opcode, func3).format == I && opcode != MISC_MEM && imm < 4096
    requires opcode == OP_IMM_32 ==> func3 == 0 || func3 == 1 || func3 == 5
    requires rd < 32 && rs1 < 32 && OpOf(opcode, func3, rd, rs1, imm) != INV_OP
    ensures OwnRowI(OpOf(opcode, func3, rd, rs1, imm), opcode, func3, rd, rs1, imm)
  {
    OpcodesI(opcode, func3);
    if opcode == 0x73 {
      RowSystem(func3, rd, rs1, imm);
    } else if opcode == OP_IMM_32 {
      RowOpImm32(func3, rd, rs1, imm);
    } else if opcode == 0x03 {
      RowLoad(func3, rd, rs1, imm);
    } else if opcode == 0x13 {
      RowOpImm(func3, rd, rs1, imm);
    } else {
      RowJalr(func3, rd, rs1, imm);
    }
  }

  lemma RowOther(opcode: nat, func3: nat)
    requires func3 < 8
    ensures var c := Matrix(opcode, func3);
            && (c.op != INV_OP && c.format != I ==> FormatOf(c.op) == c.format)
            && (c.op != INV_OP && (c.format == S || c.format == B) ==> Major(c.op) == (opcode, func3))
            && (c.format == U || c.format == J ==> c.op != INV_OP && Major(c.op) == (opcode, 0))
            && (c.format == R ==> opcode == 0x33 || opcode == 0x3B)
  {
  }

  // ---------------------------------------------------------------- format by format

  lemma UndoneR(w: Word)
    requires Matrix(Opcode(w), Func3(w)).format == R && Decode(w).op != INV_OP
    ensures Undone(w, Decode(w))
  {
    Repack(w);
    RowOther(Opcode(w), Func3(w));
    RowR(Opcode(w), Func7(w), Func3(w));
  }

  lemma DecodesI(w: Word)
    requires Matrix(Opcode(w), Func3(w)).format == I && ImmI(w) / 32 == Func7(w)
    ensures Decode(w) == Instr(OpOf(Opcode(w), Func3(w), Rd(w), Rs1(w), ImmI(w)), Rd(w), Rs1(w), 0, ImmI(w))
  {
  }

  lemma UndoneI(w: Word)
    requires Matrix(Opcode(w), Func3(w)).format == I && !Lax(w) && Decode(w).op != INV_OP
    ensures Undone(w, Decode(w))
  {
    Repack(w);
    Upper(w);
    TwoDigits(Rs2(w), Func7(w), 32);
    DecodesI(w);
    RowI(Opcode(w), Func3(w), Rd(w), Rs1(w), ImmI(w));
  }

  lemma UndoneS(w: Word)
    requires Matrix(Opcode(w), Func3(w)).format == S && Decode(w).op != INV_OP
    ensures Undone(w, Decode(w))
  {
    Repack(w);
    RowOther(Opcode(w), Func3(w));
    TwoDigits(Rd(w), Func7(w), 32);
  }

  /** Four digits of an immediate, lowest first. */
  lemma FourDigits(imm: nat, a: nat, b: nat, c: nat, d: nat)
    requires a < 16 && b < 64 && c < 2 && imm == 2 * a + 32 * b + 2048 * c + 4096 * d
    ensures imm / 2 % 16 == a && imm / 32 % 64 == b && imm / 2048 % 2 == c && imm / 4096 == d && imm % 2 == 0
  {
    DivUnique(imm, 2, a + 16 * b + 1024 * c + 2048 * d, 0);
    DivUnique(imm / 2, 16, b + 64 * c + 128 * d, a);
    DivUnique(imm, 32, b + 64 * c + 128 * d, 2 * a);
    DivUnique(imm / 32, 64, c + 2 * d, b);
    DivUnique(imm, 2048, c + 2 * d, 2 * a + 32 * b);
    DivUnique(imm / 2048, 2, d, c);
    DivUnique(imm, 4096, d, 2 * a + 32 * b + 2048 * c);
  }

  /** The slots that a B or J immediate overlays, read back from it. */
  lemma SlotsBack(imm: nat, low: nat, top: nat, rest: nat, sign: nat)
    requires low < 32 && top < 128
    requires imm == low / 2 * 2 + top % 64 * 32 + low % 2 * 2048 + 4096 * rest && sign == top / 64
    ensures LowSlot(imm) == low && TopSlot(imm, sign) == top && imm % 2 == 0 && imm / 4096 == rest
  {
    FourDigits(imm, low / 2, top % 64, low % 2, rest);
  }

  lemma UndoneB(w: Word)
    requires Matrix(Opcode(w), Func3(w)).format == B && Decode(w).op != INV_OP
    ensures Undone(w, Decode(w))
  {
    DecodesB(w);
    ImmBFromSlots(w);
    SlotsBack(ImmB(w), Rd(w), Func7(w), Func7(w) / 64, Func7(w) / 64);
    EncodesB(w, Decode(w));
  }

  lemma DecodesB(w: Word)
    requires Matrix(Opcode(w), Func3(w)).format == B
    ensures Decode(w) == Instr(Matrix(Opcode(w), Func3(w)).op, 0, Rs1(w), Rs2(w), ImmB(w))
    ensures Func7(w) < 128 && Rd(w) < 32
  {
  }

  lemma EncodesB(w: Word, i: Instr)
    requires Matrix(Opcode(w), Func3(w)).format == B && i.op == Matrix(Opcode(w), Func3(w)).op && i.op != INV_OP
    requires i.rd == 0 && i.rs1 == Rs1(w) && i.rs2 == Rs2(w) && i.imm < 0x2000 && i.imm % 2 == 0
    requires LowSlot(i.imm) == Rd(w) && TopSlot(i.imm, i.imm / 4096) == Func7(w)
    ensures Undone(w, i)
  {
    Repack(w);
    RowOther(Opcode(w), Func3(w));
  }

  lemma UndoneU(w: Word)
    requires Matrix(Opcode(w), Func3(w)).format == U
    ensures Undone(w, Decode(w))
  {
    var imm := w / 4096 * 4096;
    UpperSlots(w, imm);
    DecodesU(w, imm);
    EncodesU(w, Decode(w));
  }

  lemma DecodesU(w: Word, imm: nat)
    requires Matrix(Opcode(w), Func3(w)).format == U && imm == w / 4096 * 4096
    ensures Decode(w) == Instr(Matrix(Opcode(w), Func3(w)).op, Rd(w), 0, 0, imm)
  {
  }

  lemma EncodesU(w: Word, i: Instr)
    requires Matrix(Opcode(w), Func3(w)).format == U && i.op == Matrix(Opcode(w), Func3(w)).op
    requires i.rd == Rd(w) && i.rs1 == i.rs2 == 0 && i.imm % 4096 == 0 && i.imm < 0x1_0000_0000
    requires i.imm / 4096 % 8 == Func3(w) && i.imm / 0x8000 % 32 == Rs1(w)
    requires i.imm / 0x10_0000 % 32 == Rs2(w) && i.imm / 0x200_0000 == Func7(w)
    ensures Undone(w, i)
  {
    Repack(w);
    RowOther(Opcode(w), Func3(w));
  }

  lemma UpperSlots(w: Word, imm: nat)
    requires imm == w / 4096 * 4096
    ensures imm % 4096 == 0 && imm < 0x1_0000_0000
    ensures imm / 4096 % 8 == Func3(w) && imm / 0x8000 % 32 == Rs1(w)
    ensures imm / 0x10_0000 % 32 == Rs2(w) && imm / 0x200_0000 == Func7(w)
  {
    var n := w / 4096;
    DivUnique(imm, 4096, n, 0);
    DivDiv(imm, 4096, 8, 0x8000);
    DivDiv(imm, 4096, 256, 0x10_0000);
    DivDiv(imm, 4096, 0x2000, 0x200_0000);
    DivDiv(w, 4096, 8, 0x8000);
    DivDiv(w, 4096, 256, 0x10_0000);
    DivDiv(w, 4096, 0x2000, 0x200_0000);
  }

  lemma UndoneJ(w: Word)
    requires Matrix(Opcode(w), Func3(w)).format == J
    ensures Undone(w, Decode(w))
  {
    Repack(w);
    RowOther(Opcode(w), Func3(w));
    JSlots(w, ImmJ(w));
  }

  lemma JSlots(w: Word, imm: nat)
    requires imm == ImmJ(w)
    ensures imm % 2 == 0 && imm < 0x20_0000
    ensures imm / 4096 % 8 == Func3(w) && imm / 0x8000 % 32 == Rs1(w)
    ensures LowSlot(imm) == Rs2(w) && TopSlot(imm, imm / 0x10_0000) == Func7(w)
  {
    ImmJFromSlots(w);
    var n := Func3(w) + 8 * Rs1(w) + 256 * (Func7(w) / 64);
    SlotsBack(imm, Rs2(w), Func7(w), n, Func7(w) / 64);
    DivDiv(imm, 4096, 8, 0x8000);
    DivDiv(imm, 4096, 256, 0x10_0000);
    DivUnique(n, 8, Rs1(w) + 32 * (Func7(w) / 64), Func3(w));
    DivUnique(n / 8, 32, Func7(w) / 64, Rs1(w));
    DivUnique(n, 256, Func7(w) / 64, Func3(w) + 8 * Rs1(w));
  }

  // ---------------------------------------------------------------- every word

  /** Whatever else decodes to an instruction encodes back to the word. */
  lemma EncodesBack(w: Word)
    requires Decode(w).op != INV_OP && !Lax(w)
    ensures Undone(w, Decode(w))
  {
    match Matrix(Opcode(w), Func3(w)).format
    case R => UndoneR(w);
    case I => UndoneI(w);
    case S => UndoneS(w);
    case B => UndoneB(w);
    case U => UndoneU(w);
    case J => UndoneJ(w);
    case ILLEGAL =>
  }

  /** The lax words are instructions, by funct3 or funct7 alone. */
  lemma LaxDecodes(w: Word)
    requires Lax(w)
    ensures Decode(w).op == if Opcode(w) == MISC_MEM then (if Func3(w) == 0 then PAUSE else FENCE)
                            else if Func7(w) == 0 then SRLIW else SRAIW
  {
  }

  /** And none of them is an encoding. */
  lemma LaxIsNoEncoding(w: Word, i: Instr)
    requires Lax(w) && Encodable(i)
    ensures Encode(i) != w
  {
    if Encode(i) == w {
      RoundTrip(i);
      LaxDecodes(w);
      ShiftEncodes(i);
    }
  }

  lemma ShiftEncodes(i: Instr)
    requires Encodable(i) && (i.op == SRLIW || i.op == SRAIW)
    ensures Func3(Encode(i)) == 5
  {
    EncodesShift(i);
    Unpack(OP_IMM_32, i.rd, 5, i.rs1, i.imm % 32, i.imm / 32);
  }

  lemma EncodesShift(i: Instr)
    requires Encodable(i) && (i.op == SRLIW || i.op == SRAIW)
    ensures Encode(i) == Pack(OP_IMM_32, i.rd, 5, i.rs1, i.imm % 32, i.imm / 32)
    ensures Slots(OP_IMM_32, i.rd, 5, i.rs1, i.imm % 32, i.imm / 32)
  {
  }

  ghost predicate IsEncoding(w: Word) {
    exists i :: Undone(w, i)
  }

  /** A word decodes to an instruction if and only if it is an encoding or one of the lax words, which
      are not. */
  lemma DecodesIff(w: Word)
    ensures Decode(w).op != INV_OP <==> IsEncoding(w) || Lax(w)
    ensures !(IsEncoding(w) && Lax(w))
  {
    if Lax(w) {
      LaxDecodes(w);
      forall i | Encodable(i)
        ensures Encode(i) != w
      {
        LaxIsNoEncoding(w, i);
      }
    } else if Decode(w).op != INV_OP {
      EncodesBack(w);
    }
    if i :| Undone(w, i) {
      RoundTrip(i);
    }
  }
}
