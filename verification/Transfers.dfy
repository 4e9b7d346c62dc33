/** What loads and stores move, byte by byte (src/sim/hart.cpp:458-596), said of the state after the
    handler. */
module Transfers {
  import opened Bits
  import opened Isa
  import opened FlatMemory
  import opened Handlers
  import opened Effects
  import BitMagic

  /** How many bytes each operation moves. */
  predicate Moves(op: Op, n: nat) {
    match op
    case LB | LBU | SB => n == 1
    case LH | LHU | SH => n == 2
    case LW | LWU | SW => n == 4
    case LD | SD => n == 8
    case _ => false
  }

  predicate Loads(op: Op) {
    match op
    case LB | LH | LW | LD | LBU | LHU | LWU => true
    case _ => false
  }

  /** The address an instruction works at: `rs1` and the immediate, sign-extended
      (`Displacement.SextIsCode`), in 64 bits. */
  function Place(i: Instr, s: Arch): U64
    requires Decoded(i)
  {
    (ReadReg(s.regs, i.rs1) + Sext12(i.imm)) % TWO64
  }

  lemma MovedWidth(op: Op, n: nat)
    requires Moves(op, n)
    ensures Width(op) == n && (Loads(op) <==> KindOf(op) == Loading) && (IsStore(op) <==> KindOf(op) == Storing)
  {
  }

  /** What an access of `n` bytes finds: them, or a fault where no device is or the offset in it is no
      multiple of `n`. */
  function FoundAt(m: Mem, a: nat, n: nat): Loaded
    requires n > 0
  {
    var d := Scan(m.devices, a);
    if d == |m.devices| then LoadFault(Unmapped)
    else if (a - m.devices[d].left) % n != 0 then LoadFault(Unaligned)
    else Value(LoadLE(m.bytes, a, n))
  }

  lemma LoadIs(m: Mem, a: nat, n: nat)
    requires n > 0
    ensures Load(m, a, n) == FoundAt(m, a, n)
  {
    if Mapped(m, a) {
      MultipleIsMod(a - m.devices[Scan(m.devices, a)].left, n);
    }
  }

  // ---------------------------------------------------------------- stores

  /** The byte at `k` in the little-endian form of `v`. */
  function ByteOf(v: nat, k: nat): Byte {
    v / Pow256(k) % 256
  }

  lemma {:induction false} StoredByte(bytes: Bytes, a: nat, n: nat, v: nat, k: nat)
    requires k < n
    ensures At(StoreLE(bytes, a, n, v), a + k) == ByteOf(v, k)
    decreases n
  {
    if k == 0 {
      StoreAt(bytes[a := v % 256], a + 1, n - 1, v / 256, a);
    } else {
      StoredByte(bytes[a := v % 256], a + 1, n - 1, v / 256, k - 1);
      DivDiv(v, 256, Pow256(k - 1), Pow256(k));
    }
  }

  /** Exactly the bytes of `[a, a + n)` have changed, to those of `v`. */
  ghost predicate Wrote(before: Mem, after: Mem, a: nat, n: nat, v: nat) {
    && after.devices == before.devices
    && forall x: nat :: At(after.bytes, x) == if a <= x < a + n then ByteOf(v, x - a) else At(before.bytes, x)
  }

  lemma WroteBytes(m: Mem, a: nat, n: nat, v: nat)
    ensures Wrote(m, m.(bytes := StoreLE(m.bytes, a, n, v)), a, n, v)
  {
    forall x: nat
      ensures At(StoreLE(m.bytes, a, n, v), x) == if a <= x < a + n then ByteOf(v, x - a) else At(m.bytes, x)
    {
      if a <= x < a + n {
        StoredByte(m.bytes, a, n, v, x - a);
      } else {
        StoreAt(m.bytes, a, n, v, x);
      }
    }
  }

  /** Nothing but memory and the PC, moved to the next word, has changed. */
  predicate Stayed(s: Arch, t: Arch) {
    && (forall r :: 0 <= r < 32 ==> ReadReg(t.regs, r) == ReadReg(s.regs, r))
    && Pc(t) == (Pc(s) + 4) % TWO64 && t.csr == s.csr && t.retired == s.retired
  }

  /** What a store came to. */
  ghost predicate StoreDone(s: Arch, o: Outcome, a: nat, n: nat, v: nat)
    requires n > 0
  {
    match FoundAt(s.mem, a, n)
    case Value(_) => o.Next? && Stayed(s, o.s) && Wrote(s.mem, o.s.mem, a, n, v)
    case LoadFault(f) => o == Abort(Memory(f))
  }

  lemma StoreIs(m: Mem, a: nat, n: nat, v: nat)
    requires n > 0
    ensures match FoundAt(m, a, n)
            case Value(_) => Store(m, a, n, v) == Done(m.(bytes := StoreLE(m.bytes, a, n, v)))
            case LoadFault(f) => Store(m, a, n, v) == StoreFault(f)
  {
    if Mapped(m, a) {
      MultipleIsMod(a - m.devices[Scan(m.devices, a)].left, n);
    }
  }

  lemma StoreGoes(i: Instr, n: nat, s: Arch)
    requires Decoded(i) && KindOf(i.op) == Storing && Width(i.op) == n > 0
    ensures var a, v := Place(i, s), ReadReg(s.regs, i.rs2);
            match FoundAt(s.mem, a, n)
            case Value(_) => Handler(i, s) == Next(NextPc(s.(mem := s.mem.(bytes := StoreLE(s.mem.bytes, a, n, v)))))
            case LoadFault(f) => Handler(i, s) == Abort(Memory(f))
  {
    StoreHandled(i, s);
    StoreIs(s.mem, Place(i, s), n, ReadReg(s.regs, i.rs2));
  }

  /** SB, SH, SW and SD change exactly 1, 2, 4 and 8 bytes, to those of `rs2` from the lowest on, or end
      the run where no device is or where the offset in it is no multiple of that. */
  lemma StoreLaw(i: Instr, n: nat, s: Arch)
    requires Decoded(i) && IsStore(i.op) && Moves(i.op, n)
    ensures StoreDone(s, Handler(i, s), Place(i, s), n, ReadReg(s.regs, i.rs2))
  {
    var a, v := Place(i, s), ReadReg(s.regs, i.rs2);
    MovedWidth(i.op, n);
    StoreGoes(i, n, s);
    WroteBytes(s.mem, a, n, v);
    StayedIs(s, s.mem.(bytes := StoreLE(s.mem.bytes, a, n, v)));
  }

  lemma StayedIs(s: Arch, m: Mem)
    ensures Stayed(s, NextPc(s.(mem := m))) && NextPc(s.(mem := m)).mem == m
  {
  }

  // ---------------------------------------------------------------- loads

  /** What a load came to: `v` in `rd`, or its fault. */
  predicate LoadDone(i: Instr, s: Arch, o: Outcome, n: nat, v: nat)
    requires Decoded(i) && n > 0
  {
    match FoundAt(s.mem, Place(i, s), n)
    case Value(_) => Straight(i, s, o) && Rd(i, o) == v
    case LoadFault(f) => o == Abort(Memory(f))
  }

  lemma LoadGoes(i: Instr, n: nat, s: Arch, raw: nat)
    requires Decoded(i) && Loads(i.op) && Moves(i.op, n) && raw == LoadLE(s.mem.bytes, Place(i, s), n)
    ensures LoadDone(i, s, Handler(i, s), n, Extend(i.op, raw))
  {
    MovedWidth(i.op, n);
    LoadIs(s.mem, Place(i, s), n);
    LoadHandled(i, s, FoundAt(s.mem, Place(i, s), n));
    DeliverIs(i, s, Extend(i.op, raw));
  }

  /** `n` bytes as bits, and the sign bit among them. */
  lemma Spans(n: nat)
    requires n == 1 || n == 2 || n == 4
    ensures Pow2(8 * n) == Pow256(n) == (if n == 1 then 0x100 else if n == 2 then 0x1_0000 else 0x1_0000_0000)
    ensures 2 * Pow2(8 * n - 1) == Pow2(8 * n)
  {
    Pow2Of8(n);
    assert Pow256(1) == 0x100 && Pow256(2) == 0x1_0000 && Pow256(4) == 0x1_0000_0000;
  }

  lemma {:induction false} Pow2Of8(n: nat)
    ensures Pow2(8 * n) == Pow256(n)
  {
    if n > 0 {
      Pow2Of8(n - 1);
      Pow2Add(8, 8 * (n - 1));
      assert Pow2(8) == 256;
    }
  }

  /** Sign extension of a number that fits, by subtraction. */
  lemma ExtendedBySign(k: nat, half: nat, raw: nat)
    requires 1 <= k < 64 && half == Pow2(k - 1) && raw < 2 * half <= TWO63
    ensures BitMagic.SignExtend(WIDTH, k, raw) == if raw < half then raw else Wrap(raw - 2 * half)
  {
    Pow64();
    BitMagic.SignExtendIsTwosComplement(WIDTH, k, raw);
    DivUnique(raw, 2 * half, 0, raw);
    if raw >= half {
      DivUnique(raw - 2 * half, TWO64, -1, raw - 2 * half + TWO64);
    }
  }

  predicate SignExtends(op: Op) {
    op == LB || op == LH || op == LW
  }

  lemma ExtendIs(op: Op, n: nat, raw: nat)
    requires SignExtends(op) && Moves(op, n) && raw < Pow256(n)
    ensures Extend(op, raw) == BitMagic.SignExtend(WIDTH, 8 * n, raw)
  {
    Spans(n);
    ExtendedBySign(8 * n, Pow2(8 * n - 1), raw);
    if raw < Pow2(8 * n - 1) {
      DivUnique(raw, TWO64, 0, raw);
    }
  }

  /** LB, LH and LW: the 1, 2 or 4 bytes at the address, low byte first, sign-extended. */
  lemma SignedLoad(i: Instr, n: nat, s: Arch)
    requires Decoded(i) && SignExtends(i.op) && Moves(i.op, n)
    ensures LoadDone(i, s, Handler(i, s), n,
                     BitMagic.SignExtend(WIDTH, 8 * n, LoadLE(s.mem.bytes, Place(i, s), n)))
  {
    var raw := LoadLE(s.mem.bytes, Place(i, s), n);
    LoadBound(s.mem.bytes, Place(i, s), n);
    ExtendIs(i.op, n, raw);
    LoadGoes(i, n, s, raw);
  }

  lemma Unextended(op: Op, n: nat, raw: nat)
    requires Loads(op) && !SignExtends(op) && Moves(op, n) && raw < Pow256(n)
    ensures Extend(op, raw) == raw
  {
    assert Pow256(1) == 0x100 && Pow256(2) == 0x1_0000 && Pow256(4) == 0x1_0000_0000 && Pow256(8) == TWO64;
    DivUnique(raw, TWO64, 0, raw);
  }

  /** LBU, LHU, LWU and LD: the 1, 2, 4 or 8 bytes at the address, low byte first, and zeros above. */
  lemma UnsignedLoad(i: Instr, n: nat, s: Arch)
    requires Decoded(i) && Loads(i.op) && !SignExtends(i.op) && Moves(i.op, n)
    ensures LoadDone(i, s, Handler(i, s), n, LoadLE(s.mem.bytes, Place(i, s), n))
  {
    var raw := LoadLE(s.mem.bytes, Place(i, s), n);
    LoadBound(s.mem.bytes, Place(i, s), n);
    Unextended(i.op, n, raw);
    LoadGoes(i, n, s, raw);
  }

  // ---------------------------------------------------------------- a store and then a load

  /** `j` loads from where `i` has just stored, as many bytes. */
  ghost predicate Reloads(i: Instr, j: Instr, n: nat, s: Arch, t: Arch) {
    && Decoded(i) && Decoded(j) && IsStore(i.op) && Loads(j.op) && Moves(i.op, n) && Moves(j.op, n)
    && Handler(i, s) == Next(t) && Place(j, t) == Place(i, s)
  }

  /** What a load of the same width finds is the stored register, cut to the width. */
  lemma Reloaded(i: Instr, j: Instr, n: nat, s: Arch, t: Arch)
    requires Reloads(i, j, n, s, t)
    ensures FoundAt(t.mem, Place(j, t), n) == Value(ReadReg(s.regs, i.rs2) % Pow256(n))
    ensures LoadLE(t.mem.bytes, Place(j, t), n) == ReadReg(s.regs, i.rs2) % Pow256(n)
  {
    var a, v := Place(i, s), ReadReg(s.regs, i.rs2);
    MovedWidth(i.op, n);
    StoreGoes(i, n, s);
    LoadAfterStore(s.mem.bytes, a, n, v);
  }

  /** The run goes straight on, with `v` in `rd`. */
  predicate Brings(i: Instr, s: Arch, o: Outcome, v: nat)
    requires Decoded(i)
  {
    match o
    case Next(_) => Straight(i, s, o) && Rd(i, o) == v
    case _ => false
  }

  lemma Brought(i: Instr, s: Arch, o: Outcome, n: nat, v: nat)
    requires Decoded(i) && n > 0 && LoadDone(i, s, o, n, v) && FoundAt(s.mem, Place(i, s), n).Value?
    ensures Brings(i, s, o, v)
  {
  }

  /** A store and then a load of the same width at the same address: LB, LH and LW leave the low 8, 16
      or 32 bits of the stored register in `rd`, sign-extended. */
  lemma SignedReload(i: Instr, j: Instr, n: nat, s: Arch, t: Arch)
    requires Reloads(i, j, n, s, t) && SignExtends(j.op)
    ensures Brings(j, t, Handler(j, t), BitMagic.SignExtend(WIDTH, 8 * n, ReadReg(s.regs, i.rs2)))
  {
    var v := ReadReg(s.regs, i.rs2);
    Reloaded(i, j, n, s, t);
    Pow2Of8(n);
    SignedLoad(j, n, t);
    ExtendCut(8 * n, v);
    Brought(j, t, Handler(j, t), n, BitMagic.SignExtend(WIDTH, 8 * n, v));
  }

  /** LBU, LHU and LWU leave the low 8, 16 or 32 bits with zeros above. */
  lemma UnsignedReload(i: Instr, j: Instr, n: nat, s: Arch, t: Arch)
    requires Reloads(i, j, n, s, t) && !SignExtends(j.op)
    ensures Brings(j, t, Handler(j, t), ReadReg(s.regs, i.rs2) % Pow2(8 * n))
  {
    var v := ReadReg(s.regs, i.rs2);
    Reloaded(i, j, n, s, t);
    Pow2Of8(n);
    UnsignedLoad(j, n, t);
    Brought(j, t, Handler(j, t), n, v % Pow2(8 * n));
  }

  /** And LD leaves the whole register. */
  lemma WholeReload(i: Instr, j: Instr, n: nat, s: Arch, t: Arch)
    requires Reloads(i, j, n, s, t) && j.op == LD
    ensures Brings(j, t, Handler(j, t), ReadReg(s.regs, i.rs2))
  {
    UnsignedReload(i, j, n, s, t);
    WholeWord(ReadReg(s.regs, i.rs2), n);
  }

  lemma WholeWord(v: U64, n: nat)
    requires n == 8
    ensures v % Pow2(8 * n) == v
  {
    Pow64();
  }

  /** Sign extension looks at the low bits only. */
  lemma ExtendCut(k: nat, v: nat)
    requires 1 <= k < 64
    ensures BitMagic.SignExtend(WIDTH, k, v % Pow2(k)) == BitMagic.SignExtend(WIDTH, k, v)
  {
    BitMagic.SignExtendIsTwosComplement(WIDTH, k, v);
    BitMagic.SignExtendIsTwosComplement(WIDTH, k, v % Pow2(k));
    DivUnique(v % Pow2(k), Pow2(k), 0, v % Pow2(k));
  }
}
