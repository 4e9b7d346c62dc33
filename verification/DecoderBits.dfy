/** The decoder with its fields cut and joined as src/decoder/decoder.cpp does it, with
    `ExtractBits`, shifts and `|` in a type of any width from 32 bits on. */
module DecoderBits {
  import opened Bits
  import opened BitMagic
  import opened Isa
  import opened Decoder

  // ---------------------------------------------------------------- the code

  /** `ExtractBits<Type, n, from>(word) << to`. */
  function Field(w: nat, word: Word, n: nat, from: nat, to: nat): nat
    requires n < w
  {
    Low(Shl(ExtractBits(w, word, n, from), to), w)
  }

  function CodeImmS(w: nat, word: Word): nat
    requires w >= 32
  {
    BitOr(Field(w, word, 5, 7, 0), Field(w, word, 7, 25, 5))
  }

  function CodeImmB(w: nat, word: Word): nat
    requires w >= 32
  {
    BitOr(BitOr(BitOr(Field(w, word, 4, 8, 1), Field(w, word, 6, 25, 5)), Field(w, word, 1, 7, 11)),
          Field(w, word, 1, 31, 12))
  }

  function CodeImmJ(w: nat, word: Word): nat
    requires w >= 32
  {
    BitOr(BitOr(BitOr(Field(w, word, 1, 31, 20), Field(w, word, 10, 21, 1)), Field(w, word, 1, 20, 11)),
          Field(w, word, 8, 12, 12))
  }

  /** `((bytecode & FUNC7_MASK) >> 22) | func3`. */
  function CodeFunc10(w: nat, word: Word): nat
    requires w >= 32
  {
    BitOr(Shr(BitAnd(word, 0xFE00_0000), 22), Field(w, word, 3, 12, 0))
  }

  /** The two switches of `parse_R`. */
  function CodeOpR(opcode: nat, func10: nat): Op {
    match (opcode, func10)
    case (0x33, 0x000) => ADD
    case (0x33, 0x100) => SUB
    case (0x33, 0x001) => SLL
    case (0x33, 0x002) => SLT
    case (0x33, 0x003) => SLTU
    case (0x33, 0x004) => XOR
    case (0x33, 0x005) => SRL
    case (0x33, 0x105) => SRA
    case (0x33, 0x006) => OR
    case (0x33, 0x007) => AND
    case (0x3B, 0x000) => ADDW
    case (0x3B, 0x100) => SUBW
    case (0x3B, 0x001) => SLLW
    case (0x3B, 0x005) => SRLW
    case (0x3B, 0x105) => SRAW
    case _ => INV_OP
  }

  /** The fields and immediates `Decoder::parse` and the parsers it calls extract. */
  datatype Parts = Parts(opcode: nat, func3: nat, rd: nat, rs1: nat, rs2: nat, func10: nat, top7: nat,
                         immI: nat, immS: nat, immB: nat, immU: nat, immJ: nat)

  function CodeParts(w: nat, word: Word): Parts
    requires w >= 32
  {
    Parts(Field(w, word, 7, 0, 0), Field(w, word, 3, 12, 0),
          Field(w, word, 5, 7, 0), Field(w, word, 5, 15, 0), Field(w, word, 5, 20, 0),
          CodeFunc10(w, word), Shr(word, 25),
          Field(w, word, 12, 20, 0), CodeImmS(w, word), CodeImmB(w, word), BitAnd(word, 0xFFFF_F000), CodeImmJ(w, word))
  }

  /** `Decoder::parse`, on what it extracted. */
  function Parse(p: Parts): Instr {
    var cell := Matrix(p.opcode, p.func3);
    match cell.format
    case R => Instr(CodeOpR(p.opcode, p.func10), p.rd, p.rs1, p.rs2, IMM_POISON)
    case I =>
      var op := if cell.op != INV_OP then cell.op else OpI(p.opcode, p.func3, p.rd, p.rs1, p.immI, p.top7);
      Instr(op, p.rd, p.rs1, 0, Trim(p.immI))
    case S => Instr(cell.op, 0, p.rs1, p.rs2, Trim(p.immS))
    case B => Instr(cell.op, 0, p.rs1, p.rs2, Trim(p.immB))
    case U => Instr(cell.op, p.rd, 0, 0, Trim(p.immU))
    case J => Instr(cell.op, p.rd, 0, 0, Trim(p.immJ))
    case ILLEGAL => Instr(INV_OP, 0, 0, 0, 0)
  }

  /** Conversion to the 64-bit immediate of an instruction. */
  function Trim(x: nat): U64 {
    if x < TWO64 then x else x % TWO64
  }

  // ---------------------------------------------------------------- joining fields

  lemma OrAssoc(a: nat, b: nat, c: nat)
    ensures BitOr(BitOr(a, b), c) == BitOr(a, BitOr(b, c))
  {
  }

  lemma OrOfThree(a: nat, b: nat, k: nat, c: nat, l: nat)
    requires a < Pow2(k) && a + Shl(b, k) < Pow2(l)
    ensures BitOr(BitOr(a, Shl(b, k)), Shl(c, l)) == a + Shl(b, k) + Shl(c, l)
  {
    OrAbove(a, b, k);
    OrAbove(a + Shl(b, k), c, l);
  }

  /** Fields placed one above the other: `|` adds them up. */
  lemma OrOfFields(a: nat, b: nat, k: nat, c: nat, l: nat, d: nat, m: nat)
    requires a < Pow2(k) && a + Shl(b, k) < Pow2(l) && a + Shl(b, k) + Shl(c, l) < Pow2(m)
    ensures BitOr(BitOr(BitOr(a, Shl(b, k)), Shl(c, l)), Shl(d, m)) == a + Shl(b, k) + Shl(c, l) + Shl(d, m)
  {
    OrOfThree(a, b, k, c, l);
    OrAbove(a + Shl(b, k) + Shl(c, l), d, m);
  }

  /** The J format names its topmost field first. */
  lemma OrRotate(d: nat, a: nat, b: nat, c: nat)
    ensures BitOr(BitOr(BitOr(d, a), b), c) == BitOr(BitOr(BitOr(a, b), c), d)
  {
    OrAssoc(d, a, b);
    OrAssoc(d, BitOr(a, b), c);
    OrComm(d, BitOr(BitOr(a, b), c));
  }

  lemma {:induction false} ImmUIs(word: Word)
    ensures BitAnd(word, 0xFFFF_F000) == word / 4096 * 4096
  {
    Powers();
    ShlIsMul(0xF_FFFF, 12);
    AndShl(word, 0xF_FFFF, 12);
    ShrIsDiv(word, 12);
    AndOnes(word / 4096, 20);
    LowId(word / 4096, 20);
    ShlIsMul(word / 4096, 12);
  }

  // ---------------------------------------------------------------- immediates

  /** A placed field, with the powers of two it involves: nothing is lost to the width. */
  lemma FieldIs(w: nat, word: Word, n: nat, from: nat, to: nat, low: nat, size: nat, place: nat)
    requires n < w && n + from <= w && n + to <= w && low == Pow2(from) && size == Pow2(n) && place == Pow2(to)
    ensures var e := word / low % size;
            e < size && Field(w, word, n, from, to) == e * place
  {
    var e := word / low % size;
    ExtractBitsIsField(w, word, n, from);
    ShlBound(e, n, to);
    Pow2Mono(n + to, w);
    LowId(Shl(e, to), w);
    ShlIsMul(e, to);
  }

  /** Two fields one above the other. */
  lemma JoinTwo(a: nat, b: nat, k: nat, place: nat)
    requires place == Pow2(k) && a < place
    ensures BitOr(a, b * place) == a + b * place
  {
    ShlIsMul(b, k);
    OrAbove(a, b, k);
  }

  /** Four fields one above the other, given their places `2^k`, `2^l` and `2^m`. */
  lemma JoinFour(a: nat, b: nat, c: nat, d: nat, k: nat, l: nat, m: nat, pk: nat, pl: nat, pm: nat)
    requires pk == Pow2(k) && pl == Pow2(l) && pm == Pow2(m)
    requires a < pk && a + b * pk < pl && a + b * pk + c * pl < pm
    ensures BitOr(BitOr(BitOr(a, b * pk), c * pl), d * pm) == a + b * pk + c * pl + d * pm
  {
    ShlIsMul(b, k);
    ShlIsMul(c, l);
    ShlIsMul(d, m);
    OrOfFields(a, b, k, c, l, d, m);
  }

  lemma JoinB(a: nat, b: nat, c: nat, d: nat)
    requires a < 16 && b < 64 && c < 2
    ensures BitOr(BitOr(BitOr(a * 2, b * 32), c * 2048), d * 4096) == a * 2 + b * 32 + c * 2048 + d * 4096
  {
    Powers();
    JoinFour(a * 2, b, c, d, 5, 11, 12, 32, 2048, 4096);
  }

  lemma JoinJ(a: nat, b: nat, c: nat, d: nat)
    requires a < 1024 && b < 2 && c < 256
    ensures BitOr(BitOr(BitOr(d * 0x10_0000, a * 2), b * 2048), c * 4096) == a * 2 + b * 2048 + c * 4096 + d * 0x10_0000
  {
    Powers();
    OrRotate(d * 0x10_0000, a * 2, b * 2048, c * 4096);
    JoinFour(a * 2, b, c, d, 11, 12, 20, 2048, 4096, 0x10_0000);
  }

  lemma JoinS(a: nat, b: nat)
    requires a < 32
    ensures BitOr(a, b * 32) == a + b * 32
  {
    Powers();
    JoinTwo(a, b, 5, 32);
  }

  lemma TopBit(word: Word)
    ensures word / 0x8000_0000 % 2 == word / 0x8000_0000 && word / 0x200_0000 % 128 == word / 0x200_0000
  {
  }

  lemma FieldsS(w: nat, word: Word)
    requires w >= 32
    ensures Field(w, word, 5, 7, 0) == word / 0x80 % 32 && Field(w, word, 7, 25, 5) == word / 0x200_0000 * 32
  {
    Powers();
    TopBit(word);
    FieldIs(w, word, 5, 7, 0, 0x80, 32, 1);
    FieldIs(w, word, 7, 25, 5, 0x200_0000, 128, 32);
  }

  lemma FieldsB(w: nat, word: Word)
    requires w >= 32
    ensures Field(w, word, 4, 8, 1) == word / 0x100 % 16 * 2 && Field(w, word, 6, 25, 5) == word / 0x200_0000 % 64 * 32
    ensures Field(w, word, 1, 7, 11) == word / 0x80 % 2 * 2048 && Field(w, word, 1, 31, 12) == word / 0x8000_0000 * 4096
  {
    Powers();
    TopBit(word);
    FieldIs(w, word, 4, 8, 1, 0x100, 16, 2);
    FieldIs(w, word, 6, 25, 5, 0x200_0000, 64, 32);
    FieldIs(w, word, 1, 7, 11, 0x80, 2, 2048);
    FieldIs(w, word, 1, 31, 12, 0x8000_0000, 2, 4096);
  }

  lemma FieldsJ(w: nat, word: Word)
    requires w >= 32
    ensures Field(w, word, 10, 21, 1) == word / 0x20_0000 % 1024 * 2
    ensures Field(w, word, 1, 20, 11) == word / 0x10_0000 % 2 * 2048
    ensures Field(w, word, 8, 12, 12) == word / 0x1000 % 256 * 4096
    ensures Field(w, word, 1, 31, 20) == word / 0x8000_0000 * 0x10_0000
  {
    Powers();
    TopBit(word);
    FieldIs(w, word, 10, 21, 1, 0x20_0000, 1024, 2);
    FieldIs(w, word, 1, 20, 11, 0x10_0000, 2, 2048);
    FieldIs(w, word, 8, 12, 12, 0x1000, 256, 4096);
    FieldIs(w, word, 1, 31, 20, 0x8000_0000, 2, 0x10_0000);
  }

  lemma ImmSIsCode(w: nat, word: Word)
    requires w >= 32
    ensures CodeImmS(w, word) == ImmS(word)
  {
    FieldsS(w, word);
    JoinS(word / 0x80 % 32, word / 0x200_0000);
  }

  lemma ImmBIsCode(w: nat, word: Word)
    requires w >= 32
    ensures CodeImmB(w, word) == ImmB(word)
  {
    FieldsB(w, word);
    JoinB(word / 0x100 % 16, word / 0x200_0000 % 64, word / 0x80 % 2, word / 0x8000_0000);
  }

  lemma ImmJIsCode(w: nat, word: Word)
    requires w >= 32
    ensures CodeImmJ(w, word) == ImmJ(word)
  {
    FieldsJ(w, word);
    JoinJ(word / 0x20_0000 % 1024, word / 0x10_0000 % 2, word / 0x1000 % 256, word / 0x8000_0000);
  }

  lemma RegistersAreSlices(w: nat, word: Word)
    requires w >= 32
    ensures Field(w, word, 5, 7, 0) == Rd(word)
    ensures Field(w, word, 5, 15, 0) == Rs1(word) && Field(w, word, 5, 20, 0) == Rs2(word)
  {
    Powers();
    FieldIs(w, word, 5, 7, 0, 0x80, 32, 1);
    FieldIs(w, word, 5, 15, 0, 0x8000, 32, 1);
    FieldIs(w, word, 5, 20, 0, 0x10_0000, 32, 1);
  }

  lemma Func3IsSlice(w: nat, word: Word)
    requires w >= 32
    ensures Field(w, word, 7, 0, 0) == Opcode(word) && Field(w, word, 3, 12, 0) == Func3(word)
  {
    Powers();
    FieldIs(w, word, 7, 0, 0, 1, 128, 1);
    FieldIs(w, word, 3, 12, 0, 0x1000, 8, 1);
  }

  lemma ImmIIsSlice(w: nat, word: Word)
    requires w >= 32
    ensures Field(w, word, 12, 20, 0) == ImmI(word) && Shr(word, 25) == Func7(word)
  {
    Powers();
    FieldIs(w, word, 12, 20, 0, 0x10_0000, 4096, 1);
    ShrIsDiv(word, 25);
  }

  lemma Func10Is(w: nat, word: Word)
    requires w >= 32
    ensures CodeFunc10(w, word) == Func7(word) * 8 + Func3(word)
  {
    Powers();
    Func7Kept(word, 25, 22, 7);
    Func3IsSlice(w, word);
    OrComm(Func7(word) * 8, Func3(word));
    JoinTwo(Func3(word), Func7(word), 3, 8);
  }

  /** Masking the top bits and shifting them down `k` of their `n` places. */
  lemma Func7Kept(word: Word, n: nat, k: nat, bits: nat)
    requires n == 25 && k == 22 && bits == 7
    ensures Shr(BitAnd(word, 0xFE00_0000), k) == Func7(word) * 8
  {
    Powers();
    var top := Func7(word);
    ShlIsMul(127, n);
    AndShl(word, 127, n);
    ShrIsDiv(word, n);
    AndOnes(top, bits);
    LowId(top, bits);
    ShlIsMul(top, n);
    Func7Down(top, k);
  }

  lemma Func7Down(top: nat, k: nat)
    requires k == 22
    ensures Shr(top * 0x200_0000, k) == top * 8
  {
    Powers();
    ShrIsDiv(top * 0x200_0000, k);
    Pow2Add(k, 3);
    DivUnique(top * 0x200_0000, Pow2(k), top * 8, 0);
  }

  /** The two parts of `func10`, told apart. */
  lemma Func10Parts(func7: nat, func3: nat, func10: nat)
    requires func3 < 8 && func10 == func7 * 8 + func3
    ensures func7 == 0 <==> func10 < 8
    ensures func7 == 0x20 <==> 0x100 <= func10 < 0x108
  {
  }

  lemma Op33IsCode(func7: nat, func3: nat, func10: nat)
    requires func3 < 8 && func10 == func7 * 8 + func3
    ensures CodeOpR(0x33, func10) == OpR(0x33, func7, func3)
  {
    Func10Parts(func7, func3, func10);
  }

  lemma Op3BIsCode(func7: nat, func3: nat, func10: nat)
    requires func3 < 8 && func10 == func7 * 8 + func3
    ensures CodeOpR(0x3B, func10) == OpR(0x3B, func7, func3)
  {
    Func10Parts(func7, func3, func10);
  }

  lemma OpRIsCode(opcode: nat, func7: nat, func3: nat, func10: nat)
    requires func3 < 8 && func10 == func7 * 8 + func3
    ensures CodeOpR(opcode, func10) == OpR(opcode, func7, func3)
  {
    if opcode == 0x33 {
      Op33IsCode(func7, func3, func10);
    } else if opcode == 0x3B {
      Op3BIsCode(func7, func3, func10);
    }
  }

  function ArithmeticParts(word: Word): Parts {
    Parts(Opcode(word), Func3(word), Rd(word), Rs1(word), Rs2(word), Func7(word) * 8 + Func3(word), Func7(word),
          ImmI(word), ImmS(word), ImmB(word), word / 4096 * 4096, ImmJ(word))
  }

  lemma PartsAreCode(w: nat, word: Word, p: Parts)
    requires w >= 32 && p == CodeParts(w, word)
    ensures p == ArithmeticParts(word)
  {
    FieldPartsAreCode(w, word, p);
    ImmPartsAreCode(w, word, p);
  }

  lemma FieldPartsAreCode(w: nat, word: Word, p: Parts)
    requires w >= 32 && p == CodeParts(w, word)
    ensures p.opcode == Opcode(word) && p.func3 == Func3(word) && p.rd == Rd(word)
    ensures p.rs1 == Rs1(word) && p.rs2 == Rs2(word) && p.immI == ImmI(word) && p.top7 == Func7(word)
  {
    RegistersAreSlices(w, word);
    Func3IsSlice(w, word);
    ImmIIsSlice(w, word);
  }

  lemma ImmPartsAreCode(w: nat, word: Word, p: Parts)
    requires w >= 32 && p == CodeParts(w, word)
    ensures p.func10 == Func7(word) * 8 + Func3(word) && p.immU == word / 4096 * 4096
    ensures p.immS == ImmS(word) && p.immB == ImmB(word) && p.immJ == ImmJ(word)
  {
    ImmSIsCode(w, word);
    ImmBIsCode(w, word);
    ImmJIsCode(w, word);
    ImmUIs(word);
    Func10Is(w, word);
  }

  lemma ImmediatesFit(word: Word)
    ensures Trim(ImmI(word)) == ImmI(word) && Trim(ImmS(word)) == ImmS(word)
    ensures Trim(word / 4096 * 4096) == word / 4096 * 4096
    ensures Trim(ImmB(word)) == ImmB(word) && Trim(ImmJ(word)) == ImmJ(word)
  {
  }

  lemma ParseIsDecode(word: Word, p: Parts)
    requires p == ArithmeticParts(word)
    ensures Parse(p) == Decode(word)
  {
    OpRIsCode(Opcode(word), Func7(word), Func3(word), p.func10);
    ImmediatesFit(word);
  }

  /** The decoder of `Decoder` is the code's, whatever the width of the type it works in. */
  lemma DecodeIsCode(w: nat, word: Word)
    requires w >= 32
    ensures Parse(CodeParts(w, word)) == Decode(word)
  {
    PartsAreCode(w, word, CodeParts(w, word));
    ParseIsDecode(word, ArithmeticParts(word));
  }

  /** And so the code's decoder inverts the standard's encoding. */
  lemma RoundTripAsCoded(w: nat, i: Instr)
    requires w >= 32 && Encodable(i)
    ensures Parse(CodeParts(w, Encode(i))) == i
  {
    RoundTrip(i);
    DecodeIsCode(w, Encode(i));
  }
}
