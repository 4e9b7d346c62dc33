/** How far an encoded branch or JAL really goes: the handlers sign-extend one bit too few
    (src/sim/hart.cpp), so the far half of each encodable range lands elsewhere. */
module Displacement {
  import opened Bits
  import opened Isa
  import opened Handlers
  import BitMagic
  import Decoder

  /** `Sext12` and `Sext20` are `util::SignExtend` at 64 bits. */
  lemma SextIsCode(x: U64, w: nat, k: nat, half: nat)
    requires w == 64 && 1 <= k < 64 && half == Pow2(k - 1)
    requires half == 0x800 || half == 0x8_0000
    ensures BitMagic.SignExtend(w, k, x) == if half == 0x800 then Sext12(x) else Sext20(x)
  {
    Pow64();
    BitMagic.SignExtendIsTwosComplement(w, k, x);
    assert Pow2(k) == 2 * half;
  }

  lemma AddSame(p: U64, x: U64, offset: int)
    requires -TWO63 <= offset < TWO63
    ensures Wrap(p + x) == Wrap(p + offset) <==> x == (if offset < 0 then offset + TWO64 else offset)
  {
    var y := if offset < 0 then offset + TWO64 else offset;
    WrapSum(p, x);
    WrapSum(p, y);
    if offset < 0 {
      var z := p + offset;
      assert z + TWO64 == p + y;
      WrapTurn(z);
    }
  }

  lemma WrapTurn(z: int)
    ensures Wrap(z + TWO64) == Wrap(z)
  {
    var q, r := z / TWO64, z % TWO64;
    DivUnique(z + TWO64, TWO64, q + 1, r);
  }

  lemma Near12(offset: int, imm: U64)
    requires -4096 <= offset < 4096 && imm == (if offset < 0 then offset + 0x2000 else offset)
    ensures Sext12(imm) == (if offset < 0 then offset + TWO64 else offset) <==> -2048 <= offset < 2048
  {
    DivUnique(imm, 0x1000, if offset < 0 then 1 else 0, if offset < 0 then offset + 0x1000 else offset);
  }

  lemma Near20(offset: int, imm: U64)
    requires -0x10_0000 <= offset < 0x10_0000 && imm == (if offset < 0 then offset + 0x20_0000 else offset)
    ensures Sext20(imm) == (if offset < 0 then offset + TWO64 else offset) <==> -0x8_0000 <= offset < 0x8_0000
  {
    DivUnique(imm, 0x10_0000, if offset < 0 then 1 else 0, if offset < 0 then offset + 0x10_0000 else offset);
  }

  lemma Reach12(p: U64, offset: int, imm: U64)
    requires -4096 <= offset <= 4094 && offset % 2 == 0 && imm == (if offset < 0 then offset + 0x2000 else offset)
    ensures Wrap(p + Sext12(imm)) == Wrap(p + offset) <==> -2048 <= offset <= 2046
  {
    Near12(offset, imm);
    AddSame(p, Sext12(imm), offset);
  }

  lemma Reach20(p: U64, offset: int, imm: U64)
    requires -0x10_0000 <= offset <= 0xF_FFFE && offset % 2 == 0
    requires imm == (if offset < 0 then offset + 0x20_0000 else offset)
    ensures Wrap(p + Sext20(imm)) == Wrap(p + offset) <==> -0x8_0000 <= offset <= 0x7_FFFE
  {
    Near20(offset, imm);
    AddSame(p, Sext20(imm), offset);
  }

  /** A taken branch goes where it was encoded to go exactly for offsets in [-2048, 2046]. */
  lemma BranchReach(i: Instr, offset: int, s: Arch)
    requires IsBranch(i.op) && i.rd == 0 && i.rs1 < 32 && i.rs2 < 32
    requires -4096 <= offset <= 4094 && offset % 2 == 0
    requires i.imm == (if offset < 0 then offset + 0x2000 else offset)
    requires Taken(i.op, ReadReg(s.regs, i.rs1), ReadReg(s.regs, i.rs2))
    ensures Decoder.Encodable(i) && Decoded(Decoder.Decode(Decoder.Encode(i)))
    ensures var o := Handler(Decoder.Decode(Decoder.Encode(i)), s);
            o.Next? && (Pc(o.s) == Wrap(Pc(s) + offset) <==> -2048 <= offset <= 2046)
  {
    BranchEncodes(i, offset);
    BranchKinds(i.op);
    BranchGoes(i, offset, s);
  }

  /** The handler ends at `target` or not. */
  predicate Lands(o: Outcome, target: U64, there: bool) {
    match o
    case Next(s) => Pc(s) == target <==> there
    case _ => false
  }

  lemma BranchGoes(i: Instr, offset: int, s: Arch)
    requires KindOf(i.op) == Branch && Decoded(i) && Taken(i.op, ReadReg(s.regs, i.rs1), ReadReg(s.regs, i.rs2))
    requires -4096 <= offset <= 4094 && offset % 2 == 0
    requires i.imm == (if offset < 0 then offset + 0x2000 else offset)
    ensures Lands(Handler(i, s), Wrap(Pc(s) + offset), -2048 <= offset <= 2046)
  {
    Reach12(Pc(s), offset, i.imm);
    BranchLands(i, s, Wrap(Pc(s) + offset), -2048 <= offset <= 2046);
  }

  lemma BranchEncodes(i: Instr, offset: int)
    requires IsBranch(i.op) && i.rd == 0 && i.rs1 < 32 && i.rs2 < 32
    requires -4096 <= offset <= 4094 && offset % 2 == 0
    requires i.imm == (if offset < 0 then offset + 0x2000 else offset)
    ensures Decoder.Encodable(i) && Decoded(i) && Decoder.Decode(Decoder.Encode(i)) == i
  {
    EvenImm(offset, i.imm, 0x2000);
    EvenIsMod(i.imm);
    Decoder.RoundTrip(i);
  }

  lemma BranchLands(i: Instr, s: Arch, target: U64, near: bool)
    requires KindOf(i.op) == Branch && Decoded(i) && Taken(i.op, ReadReg(s.regs, i.rs1), ReadReg(s.regs, i.rs2))
    requires Wrap(Pc(s) + Sext12(i.imm)) == target <==> near
    ensures Lands(Handler(i, s), target, near)
  {
    BranchIs(i, s);
  }

  lemma BranchIs(i: Instr, s: Arch)
    requires KindOf(i.op) == Branch && Decoded(i)
    ensures Handler(i, s) == ExecBranch(i, s)
  {
  }

  lemma EvenImm(offset: int, imm: nat, span: nat)
    requires offset % 2 == 0 && span % 2 == 0 && imm == (if offset < 0 then offset + span else offset)
    ensures imm % 2 == 0
  {
  }

  /** JAL goes where it was encoded to go exactly for offsets in [-2^19, 2^19 - 2], and links
      the next instruction. */
  lemma JalReach(i: Instr, offset: int, s: Arch)
    requires i.op == JAL && i.rd < 32 && i.rs1 == i.rs2 == 0
    requires -0x10_0000 <= offset <= 0xF_FFFE && offset % 2 == 0
    requires i.imm == (if offset < 0 then offset + 0x20_0000 else offset)
    ensures Decoder.Encodable(i) && Decoded(Decoder.Decode(Decoder.Encode(i)))
    ensures var o := Handler(Decoder.Decode(Decoder.Encode(i)), s);
            && o.Next? && o.s.regs[i.rd] == Wrap(Pc(s) + 4)
            && (Pc(o.s) == Wrap(Pc(s) + offset) <==> -0x8_0000 <= offset <= 0x7_FFFE)
  {
    JalEncodes(i, offset);
    JalGoes(i, offset, s);
  }

  lemma JalEncodes(i: Instr, offset: int)
    requires i.op == JAL && i.rd < 32 && i.rs1 == i.rs2 == 0
    requires -0x10_0000 <= offset <= 0xF_FFFE && offset % 2 == 0
    requires i.imm == (if offset < 0 then offset + 0x20_0000 else offset)
    ensures Decoder.Encodable(i) && Decoded(i) && Decoder.Decode(Decoder.Encode(i)) == i
  {
    EvenImm(offset, i.imm, 0x20_0000);
    EvenIsMod(i.imm);
    Decoder.RoundTrip(i);
  }

  lemma JalGoes(i: Instr, offset: int, s: Arch)
    requires i.op == JAL && Decoded(i)
    requires -0x10_0000 <= offset <= 0xF_FFFE && offset % 2 == 0
    requires i.imm == (if offset < 0 then offset + 0x20_0000 else offset)
    ensures Lands(Handler(i, s), Wrap(Pc(s) + offset), -0x8_0000 <= offset <= 0x7_FFFE)
    ensures Handler(i, s).s.regs[i.rd] == Wrap(Pc(s) + 4)
  {
    Reach20(Pc(s), offset, i.imm);
    JalLands(i, s, Wrap(Pc(s) + offset), -0x8_0000 <= offset <= 0x7_FFFE);
  }

  lemma JalLands(i: Instr, s: Arch, target: U64, near: bool)
    requires i.op == JAL && Decoded(i) && (Wrap(Pc(s) + Sext20(i.imm)) == target <==> near)
    ensures Lands(Handler(i, s), target, near) && Handler(i, s).s.regs[i.rd] == Wrap(Pc(s) + 4)
  {
    JalIs(i, s);
  }

  lemma JalIs(i: Instr, s: Arch)
    requires i.op == JAL && Decoded(i)
    ensures Handler(i, s) == ExecJal(i, s)
  {
  }
}
