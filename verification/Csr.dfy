/** Control and status registers as values: csr.hpp's masked fields, csrs.hpp's five
    registers, csrf.cpp's access rules, and the CSR side of trap entry and MRET. */
module Csr {
  import opened Bits
  import opened BitMagic

  // ---------------------------------------------------------------- fields

  datatype Spec = Wpri | Wlrl | Warl | Unchecked

  datatype Check = Any | MultipleOf4 | AtMostOne

  predicate Accepts(c: Check, v: nat) {
    match c
    case Any => true
    case MultipleOf4 => v % 4 == 0
    case AtMostOne => v <= 1
  }

  datatype Field = Field(mask: nat, spec: Spec, check: Check)

  datatype Written = Written(ok: bool, raw: nat)

  // `Pext` and `Pdep` are `util::ExtractMasked` and `util::InsertMasked` at 64 bits
  // (`BitMagic.MaskedIsBitwise`).

  function Get(f: Field, raw: nat): nat {
    if f.spec.Wpri? then 0 else Pext(f.mask, raw)
  }

  function Set(f: Field, value: nat, raw: nat): Written {
    match f.spec
    case Wpri => Written(true, raw)
    case Wlrl => if Accepts(f.check, value) then Written(true, Pdep(f.mask, value, raw)) else Written(false, raw)
    case Warl => if Accepts(f.check, value) then Written(true, Pdep(f.mask, value, raw)) else Written(true, raw)
    case Unchecked => Written(true, Pdep(f.mask, value, raw))
  }

  /** `CSRStructureUnroller::extract`: every field in turn, stopping at a refusal. */
  function WriteFields(fs: seq<Field>, value: nat, raw: nat): Written {
    if fs == [] then Written(true, raw)
    else
      var w := Set(fs[0], Pext(fs[0].mask, value), raw);
      if w.ok then WriteFields(fs[1..], value, w.raw) else w
  }

  predicate Disjoint(fs: seq<Field>) {
    forall i, j :: 0 <= i < j < |fs| ==> BitAnd(fs[i].mask, fs[j].mask) == 0
  }

  lemma SetKeepsDisjoint(f: Field, value: nat, raw: nat, m: nat)
    requires BitAnd(m, f.mask) == 0
    ensures Pext(m, Set(f, value, raw).raw) == Pext(m, raw)
  {
    PextDisjoint(m, f.mask, value, raw);
  }

  lemma SetThenGet(f: Field, value: nat, raw: nat)
    requires !f.spec.Wpri?
    ensures Get(f, Set(f, value, raw).raw)
         == if f.spec.Unchecked? || Accepts(f.check, value) then Low(value, PopCount(f.mask)) else Get(f, raw)
  {
    PextOfPdep(f.mask, value, raw);
  }

  lemma SetBound(f: Field, value: nat, raw: nat)
    requires f.mask < TWO64 && raw < TWO64
    ensures Set(f, value, raw).raw < TWO64
  {
    Pow64();
    PdepBound(f.mask, value, raw, 64);
  }

  /** A register write succeeds exactly when every WLRL field accepts its part. */
  lemma {:induction false} WriteSucceeds(fs: seq<Field>, value: nat, raw: nat)
    ensures WriteFields(fs, value, raw).ok <==>
            forall i :: 0 <= i < |fs| && fs[i].spec.Wlrl? ==> Accepts(fs[i].check, Pext(fs[i].mask, value))
  {
    if fs != [] {
      var w := Set(fs[0], Pext(fs[0].mask, value), raw);
      WriteSucceeds(fs[1..], value, w.raw);
      assert forall i :: 0 < i < |fs| ==> fs[i] == fs[1..][i - 1];
    }
  }

  lemma {:induction false} WriteKeepsOutside(fs: seq<Field>, value: nat, raw: nat, m: nat)
    requires forall i :: 0 <= i < |fs| ==> BitAnd(m, fs[i].mask) == 0
    ensures Pext(m, WriteFields(fs, value, raw).raw) == Pext(m, raw)
  {
    if fs != [] {
      SetKeepsDisjoint(fs[0], Pext(fs[0].mask, value), raw, m);
      WriteKeepsOutside(fs[1..], value, Set(fs[0], Pext(fs[0].mask, value), raw).raw, m);
    }
  }

  /** A register write acts field by field: each field takes its own bits of the value,
      and a field that does not accept them keeps its old contents. */
  lemma {:induction false} WriteIsFieldwise(fs: seq<Field>, value: nat, raw: nat, k: nat)
    requires Disjoint(fs) && k < |fs| && WriteFields(fs, value, raw).ok && !fs[k].spec.Wpri?
    ensures var f := fs[k];
            var wanted := Pext(f.mask, value);
            Get(f, WriteFields(fs, value, raw).raw)
            == if f.spec.Warl? && !Accepts(f.check, wanted) then Get(f, raw) else wanted
  {
    var w := Set(fs[0], Pext(fs[0].mask, value), raw);
    if k == 0 {
      SetThenGet(fs[0], Pext(fs[0].mask, value), raw);
      PextBound(fs[0].mask, value);
      LowId(Pext(fs[0].mask, value), PopCount(fs[0].mask));
      forall i | 0 <= i < |fs[1..]|
        ensures BitAnd(fs[0].mask, fs[1..][i].mask) == 0
      {
      }
      WriteKeepsOutside(fs[1..], value, w.raw, fs[0].mask);
    } else {
      assert fs[k] == fs[1..][k - 1];
      assert Disjoint(fs[1..]) by {
        forall i, j | 0 <= i < j < |fs[1..]|
          ensures BitAnd(fs[1..][i].mask, fs[1..][j].mask) == 0
        {
          assert fs[1..][i] == fs[i + 1] && fs[1..][j] == fs[j + 1];
        }
      }
      WriteIsFieldwise(fs[1..], value, w.raw, k - 1);
      AndComm(fs[0].mask, fs[k].mask);
      SetKeepsDisjoint(fs[0], Pext(fs[0].mask, value), raw, fs[k].mask);
    }
  }

  // ---------------------------------------------------------------- the five registers

  /** Field masks.  The mstatus masks come from a generated header; nothing below depends
      on more than `Sound`, and section 3.1.6 of the RISC-V Privileged ISA is the witness. */
  datatype Layout = Layout(sie: nat, mie: nat, spie: nat, mpie: nat, spp: nat, mpp: nat,
                           interrupt: nat, code: nat, mode: nat, base: nat, hart: nat)

  predicate Sound(l: Layout) {
    StatusOk(l) && CauseOk(l) && VectorOk(l)
  }

  predicate StatusOk(l: Layout) {
    && (forall i, j :: 0 <= i < j < 6 ==> BitAnd(StatusMasks(l)[i], StatusMasks(l)[j]) == 0)
    && (forall i :: 0 <= i < 6 ==> StatusMasks(l)[i] < TWO64)
    && PopCount(l.mie) == PopCount(l.mpie) == 1 && PopCount(l.mpp) == 2
  }

  predicate CauseOk(l: Layout) {
    BitAnd(l.interrupt, l.code) == 0 && l.interrupt < TWO64 && l.code < TWO64 && PopCount(l.code) >= 4
  }

  predicate VectorOk(l: Layout) {
    BitAnd(l.mode, l.base) == 0 && l.mode < TWO64 && l.base < TWO64 && l.hart < TWO64
  }

  function StatusMasks(l: Layout): seq<nat> {
    [l.sie, l.mie, l.spie, l.mpie, l.spp, l.mpp]
  }

  type CsrLayout = l: Layout | Sound(l) witness At([1, 3, 5, 7, 8, 11], 63, 2, 62)

  predicate Increasing(p: seq<nat>) {
    forall i, j :: 0 <= i < j < |p| ==> p[i] < p[j]
  }

  /** The layout with SIE, MIE, SPIE, MPIE, SPP at the given bits and MPP at two bits from
      the last; the standard's positions are 1, 3, 5, 7, 8 and 11. */
  function At(p: seq<nat>, top: nat, low: nat, high: nat): (l: Layout)
    requires |p| == 6 && Increasing(p) && p[5] < 63
    requires 4 <= top < 64 && low + high <= 64
    ensures Sound(l)
  {
    AtSound(p, top, low, high);
    Placed(p, top, low, high)
  }

  function Placed(p: seq<nat>, top: nat, low: nat, high: nat): Layout
    requires |p| == 6
  {
    Layout(MaskAt(p, 0), MaskAt(p, 1), MaskAt(p, 2), MaskAt(p, 3), MaskAt(p, 4), MaskAt(p, 5),
           Shl(1, top), Pow2(top) - 1, Pow2(low) - 1, Shl(Pow2(high) - 1, low), Pow2(low) - 1)
  }

  lemma AtSound(p: seq<nat>, top: nat, low: nat, high: nat)
    requires |p| == 6 && Increasing(p) && p[5] < 63
    requires 4 <= top < 64 && low + high <= 64
    ensures Sound(Placed(p, top, low, high))
  {
    var l := Placed(p, top, low, high);
    StatusPlaced(p, l);
    CausePlaced(top, l);
    VectorPlaced(low, high, l);
  }

  lemma StatusPlaced(p: seq<nat>, l: Layout)
    requires |p| == 6 && Increasing(p) && p[5] < 63
    requires StatusMasks(l) == seq(6, i requires 0 <= i < 6 => MaskAt(p, i))
    ensures StatusOk(l)
  {
    StatusSound(p);
    assert StatusMasks(l)[1] == l.mie && StatusMasks(l)[3] == l.mpie && StatusMasks(l)[5] == l.mpp;
  }

  lemma CausePlaced(top: nat, l: Layout)
    requires 4 <= top < 64 && l.interrupt == Shl(1, top) && l.code == Pow2(top) - 1
    ensures CauseOk(l)
  {
    Pow64();
    TopSound(top, 64);
  }

  lemma VectorPlaced(low: nat, high: nat, l: Layout)
    requires low + high <= 64 && l.mode == l.hart == Pow2(low) - 1 && l.base == Shl(Pow2(high) - 1, low)
    ensures VectorOk(l)
  {
    Pow64();
    LowSound(low, high, 64);
  }

  lemma {:induction false} ShlDisjoint(a: nat, k: nat, b: nat, l: nat)
    requires k <= l && a < Pow2(l - k)
    ensures BitAnd(Shl(a, k), Shl(b, l)) == 0
    decreases k
  {
    if k > 0 {
      ShlDisjoint(a, k - 1, b, l - 1);
      AndUnfold(Shl(a, k), Shl(b, l));
    } else {
      AndShl(a, b, l);
      LowId(a, l);
      ShlZero(l);
    }
  }

  lemma ShlPop(a: nat, k: nat)
    ensures PopCount(Shl(a, k)) == PopCount(a)
    decreases k
  {
  }

  lemma {:induction false} OnesPop(k: nat)
    ensures PopCount(Pow2(k) - 1) == k
  {
    if k > 0 {
      OnesPop(k - 1);
      assert (Pow2(k) - 1) / 2 == Pow2(k - 1) - 1 && (Pow2(k) - 1) % 2 == 1;
    }
  }

  lemma ShlFits(a: nat, s: nat, k: nat, w: nat)
    requires a < Pow2(s) && s + k <= w
    ensures Shl(a, k) < Pow2(w)
  {
    ShlBound(a, s, k);
    Pow2Mono(s + k, w);
  }

  function MaskAt(p: seq<nat>, i: nat): nat
    requires i < |p|
  {
    Shl(if i == 5 then 3 else 1, p[i])
  }

  lemma StatusSound(p: seq<nat>)
    requires |p| == 6 && Increasing(p) && p[5] < 63
    ensures forall i, j :: 0 <= i < j < 6 ==> BitAnd(MaskAt(p, i), MaskAt(p, j)) == 0
    ensures forall i :: 0 <= i < 6 ==> MaskAt(p, i) < TWO64
    ensures forall i :: 0 <= i < 5 ==> PopCount(MaskAt(p, i)) == 1
    ensures PopCount(MaskAt(p, 5)) == 2
  {
    Pow64();
    assert Pow2(2) == 4 && PopCount(3) == 2;
    forall i, j | 0 <= i < j < 6
      ensures BitAnd(MaskAt(p, i), MaskAt(p, j)) == 0
    {
      ShlDisjoint(1, p[i], if j == 5 then 3 else 1, p[j]);
    }
    forall i | 0 <= i < 6
      ensures MaskAt(p, i) < TWO64 && PopCount(MaskAt(p, i)) == if i == 5 then 2 else 1
    {
      ShlFits(if i == 5 then 3 else 1, 2, p[i], 64);
      ShlPop(if i == 5 then 3 else 1, p[i]);
    }
  }

  /** One top bit over the rest of the word. */
  lemma TopSound(top: nat, w: nat)
    requires top < w
    ensures BitAnd(Shl(1, top), Pow2(top) - 1) == 0 && PopCount(Pow2(top) - 1) == top
    ensures Shl(1, top) < Pow2(w) && Pow2(top) <= Pow2(w)
  {
    ShlDisjoint(Pow2(top) - 1, 0, 1, top);
    AndComm(Shl(1, top), Pow2(top) - 1);
    OnesPop(top);
    ShlFits(1, 1, top, w);
    Pow2Mono(top, w);
  }

  /** Some low bits under the rest of the word. */
  lemma LowSound(low: nat, high: nat, w: nat)
    requires low + high <= w
    ensures BitAnd(Pow2(low) - 1, Shl(Pow2(high) - 1, low)) == 0
    ensures Shl(Pow2(high) - 1, low) < Pow2(w) && Pow2(low) <= Pow2(w)
  {
    ShlDisjoint(Pow2(low) - 1, 0, Pow2(high) - 1, low);
    ShlFits(Pow2(high) - 1, high, low, w);
    Pow2Mono(low, w);
  }

  const L: CsrLayout

  datatype Reg = MSTATUS | MTVEC | MEPC | MCAUSE | MHARTID

  function Plain(mask: nat): Field { Field(mask, Unchecked, Any) }

  const SIE := Plain(L.sie)
  const MIE := Plain(L.mie)
  const SPIE := Plain(L.spie)
  const MPIE := Plain(L.mpie)
  const SPP := Plain(L.spp)
  const MPP := Plain(L.mpp)
  const MODE := Field(L.mode, Warl, AtMostOne)
  const BASE := Field(L.base, Warl, MultipleOf4)
  const VALUE := Field(TWO64 - 1, Warl, MultipleOf4)
  const INTERRUPT := Plain(L.interrupt)
  const CODE := Plain(L.code)
  const HART := Plain(L.hart)

  function Fields(r: Reg): seq<Field> {
    match r
    case MSTATUS => [SIE, MIE, SPIE, MPIE, SPP, MPP]
    case MTVEC => [MODE, BASE]
    case MEPC => [VALUE]
    case MCAUSE => [INTERRUPT, CODE]
    case MHARTID => [HART]
  }

  datatype Csrs = Csrs(mstatus: U64, mtvec: U64, mepc: U64, mcause: U64, mhartid: U64, privilege: nat)

  function Read(c: Csrs, r: Reg): U64 {
    match r
    case MSTATUS => c.mstatus
    case MTVEC => c.mtvec
    case MEPC => c.mepc
    case MCAUSE => c.mcause
    case MHARTID => c.mhartid
  }

  function Put(c: Csrs, r: Reg, v: U64): Csrs {
    match r
    case MSTATUS => c.(mstatus := v)
    case MTVEC => c.(mtvec := v)
    case MEPC => c.(mepc := v)
    case MCAUSE => c.(mcause := v)
    case MHARTID => c.(mhartid := v)
  }

  const USER := 0
  const SUPERVISOR := 1
  const MACHINE := 3

  /** Bit `i` belongs to one of the six mstatus fields. */
  predicate StatusBit(i: nat) {
    Bit(L.sie, i) || Bit(L.mie, i) || Bit(L.spie, i) || Bit(L.mpie, i) || Bit(L.spp, i) || Bit(L.mpp, i)
  }

  /** Zero outside the mstatus fields. */
  ghost predicate Confined(raw: nat) {
    forall i: nat :: Bit(raw, i) ==> StatusBit(i)
  }

  ghost predicate LegalValue(r: Reg, v: nat) {
    match r
    case MSTATUS => Confined(v)
    case MTVEC => Get(MODE, v) <= 1 && Get(BASE, v) % 4 == 0
    case MEPC => v % 4 == 0
    case _ => true
  }

  /** The CSR states every run stays in. */
  ghost predicate Legal(c: Csrs) {
    match c
    case Csrs(_, _, _, _, _, privilege) => privilege <= 3 && forall r :: LegalValue(r, Read(c, r))
  }

  function Reset(): Csrs { Csrs(0, 0, 0, 0, 0, MACHINE) }

  // ---------------------------------------------------------------- access from instructions

  datatype Found = None | Some(reg: Reg)

  function Lookup(id: nat): Found {
    match id
    case 0x300 => Some(MSTATUS)
    case 0x305 => Some(MTVEC)
    case 0x341 => Some(MEPC)
    case 0x342 => Some(MCAUSE)
    case 0xF14 => Some(MHARTID)
    case _ => None
  }

  /** Bits 9:8 of the address must equal the current privilege, not merely be below it. */
  predicate FitPrivilege(c: Csrs, id: nat) {
    id % 0x1_0000_0000 / 0x100 % 4 == c.privilege
  }

  predicate ReadOnly(id: nat) {
    id % 0x1_0000_0000 / 0x400 % 4 == 3
  }

  /** `ok` is false where the code returns the `bool` alternative. */
  datatype Access = Access(ok: bool, before: U64, csrs: Csrs)

  function WriteReg(c: Csrs, r: Reg, value: nat): Access {
    var w := WriteFields(Fields(r), value, Read(c, r));
    RegBound(r, value, Read(c, r));
    Access(w.ok, Read(c, r), Put(c, r, w.raw))
  }

  predicate Writable(c: Csrs, id: nat) {
    FitPrivilege(c, id) && !ReadOnly(id) && Lookup(id).Some?
  }

  function CsrWrite(c: Csrs, id: nat, value: U64): Access {
    if Writable(c, id) then WriteReg(c, Lookup(id).reg, value) else Access(false, 0, c)
  }

  function CsrSetBits(c: Csrs, id: nat, mask: U64): Access {
    if Writable(c, id) then WriteReg(c, Lookup(id).reg, BitOr(Read(c, Lookup(id).reg), mask)) else Access(false, 0, c)
  }

  function CsrClearBits(c: Csrs, id: nat, mask: U64): Access {
    if Writable(c, id) then WriteReg(c, Lookup(id).reg, BitAnd(Read(c, Lookup(id).reg), TWO64 - 1 - mask))
    else Access(false, 0, c)
  }

  function CsrRead(c: Csrs, id: nat): Access {
    if FitPrivilege(c, id) && Lookup(id).Some? then Access(true, Read(c, Lookup(id).reg), c) else Access(false, 0, c)
  }

  lemma MasksFit(r: Reg)
    ensures forall i :: 0 <= i < |Fields(r)| ==> Fields(r)[i].mask < TWO64
    ensures Disjoint(Fields(r))
    ensures forall i :: 0 <= i < |Fields(r)| ==> !Fields(r)[i].spec.Wlrl? && !Fields(r)[i].spec.Wpri?
  {
    if r == MSTATUS {
      forall i | 0 <= i < 6
        ensures Fields(r)[i].mask == StatusMasks(L)[i]
      {
      }
    }
  }

  lemma {:induction false} WriteFieldsBound(fs: seq<Field>, value: nat, raw: nat)
    requires raw < TWO64 && forall i :: 0 <= i < |fs| ==> fs[i].mask < TWO64
    ensures WriteFields(fs, value, raw).raw < TWO64
  {
    if fs != [] {
      SetBound(fs[0], Pext(fs[0].mask, value), raw);
      WriteFieldsBound(fs[1..], value, Set(fs[0], Pext(fs[0].mask, value), raw).raw);
    }
  }

  lemma RegBound(r: Reg, value: nat, raw: nat)
    requires raw < TWO64
    ensures WriteFields(Fields(r), value, raw).raw < TWO64
  {
    MasksFit(r);
    WriteFieldsBound(Fields(r), value, raw);
  }

  // ---------------------------------------------------------------- reachable states are legal

  lemma ConfinedSet(k: nat, v: nat, raw: nat)
    requires k < 6 && Confined(raw)
    ensures Confined(Set(Fields(MSTATUS)[k], v, raw).raw)
  {
    var m := Fields(MSTATUS)[k].mask;
    forall i: nat | Bit(Pdep(m, v, raw), i)
      ensures StatusBit(i)
    {
      PdepBits(m, v, raw, i);
    }
  }

  lemma {:induction false} ConfinedWrite(k: nat, value: nat, raw: nat)
    requires k <= 6 && Confined(raw)
    ensures Confined(WriteFields(Fields(MSTATUS)[k..], value, raw).raw)
    decreases 6 - k
  {
    var fs := Fields(MSTATUS)[k..];
    if k < 6 {
      ConfinedSet(k, Pext(fs[0].mask, value), raw);
      ConfinedWrite(k + 1, value, Set(fs[0], Pext(fs[0].mask, value), raw).raw);
      assert fs[1..] == Fields(MSTATUS)[k + 1..];
    }
  }

  lemma FullMask(v: nat, p: nat)
    requires v < TWO64 && p < TWO64
    ensures Pext(TWO64 - 1, v) == v && Pdep(TWO64 - 1, v, p) == v
  {
    Pow64();
    PextFull(64, v);
    PdepFull(64, v, p);
  }

  lemma WriteRegValue(r: Reg, value: U64, raw: U64)
    requires LegalValue(r, raw)
    ensures WriteFields(Fields(r), value, raw).ok && LegalValue(r, WriteFields(Fields(r), value, raw).raw)
  {
    MasksFit(r);
    WriteSucceeds(Fields(r), value, raw);
    match r
    case MSTATUS =>
      ConfinedWrite(0, value, raw);
      assert Fields(r)[0..] == Fields(r);
    case MTVEC =>
      WriteIsFieldwise(Fields(r), value, raw, 0);
      WriteIsFieldwise(Fields(r), value, raw, 1);
    case MEPC =>
      FullMask(value, raw);
      assert WriteFields(Fields(r)[1..], value, Set(VALUE, value, raw).raw).raw == Set(VALUE, value, raw).raw;
    case _ =>
  }

  lemma PutLegal(c: Csrs, r: Reg, v: U64)
    requires Legal(c) && LegalValue(r, v)
    ensures Legal(Put(c, r, v)) && Read(Put(c, r, v), r) == v
  {
    forall q
      ensures LegalValue(q, Read(Put(c, r, v), q))
    {
      assert LegalValue(q, Read(c, q));
    }
  }

  /** Writing a register always succeeds, changes only that register, and keeps the state legal. */
  lemma WriteRegLegal(c: Csrs, r: Reg, value: U64)
    requires Legal(c)
    ensures var a := WriteReg(c, r, value);
            a.ok && a.before == Read(c, r) && Legal(a.csrs) && a.csrs == Put(c, r, Read(a.csrs, r))
  {
    assert LegalValue(r, Read(c, r));
    RegBound(r, value, Read(c, r));
    WriteRegValue(r, value, Read(c, r));
    PutLegal(c, r, WriteFields(Fields(r), value, Read(c, r)).raw);
  }

  lemma SetClearFit(a: U64, b: U64)
    ensures BitOr(a, b) < TWO64 && BitAnd(a, TWO64 - 1 - b) < TWO64
  {
    Pow64();
    OrBound(a, b, 64);
    AndBound(a, TWO64 - 1 - b);
  }

  /** The four CSR operations: a refused one changes no CSR, a granted one returns the old
      value and changes one register, and every state they reach is legal. */
  lemma CsrAccess(c: Csrs, id: nat, v: U64)
    requires Legal(c)
    ensures forall a :: a == CsrWrite(c, id, v) || a == CsrSetBits(c, id, v) || a == CsrClearBits(c, id, v) ==>
              && Legal(a.csrs)
              && (a.ok <==> Writable(c, id))
              && (!a.ok ==> a.csrs == c)
              && (a.ok ==> a.before == Read(c, Lookup(id).reg))
              && (a.ok ==> a.csrs == Put(c, Lookup(id).reg, Read(a.csrs, Lookup(id).reg)))
  {
    if Writable(c, id) {
      var r := Lookup(id).reg;
      SetClearFit(Read(c, r), v);
      WriteRegLegal(c, r, v);
      WriteRegLegal(c, r, BitOr(Read(c, r), v));
      WriteRegLegal(c, r, BitAnd(Read(c, r), TWO64 - 1 - v));
    }
  }

  /** Each field of the addressed register takes its bits of the written value if it accepts
      them and keeps its own otherwise. */
  lemma CsrWriteIsFieldwise(c: Csrs, r: Reg, value: U64, k: nat)
    requires Legal(c) && k < |Fields(r)|
    ensures var f := Fields(r)[k];
            var wanted := Pext(f.mask, value);
            Get(f, Read(WriteReg(c, r, value).csrs, r))
            == if f.spec.Warl? && !Accepts(f.check, wanted) then Get(f, Read(c, r)) else wanted
  {
    MasksFit(r);
    WriteSucceeds(Fields(r), value, Read(c, r));
    WriteIsFieldwise(Fields(r), value, Read(c, r), k);
  }

  /** What a field holds after `wanted` was written over `was`: WARL fallback. */
  function Settled(f: Field, wanted: nat, was: nat): nat {
    if f.spec.Warl? && !Accepts(f.check, wanted) then was else wanted
  }

  /** A granted write, setBits or clearBits leaves in each field of the addressed register its
      own bits of the operand, the union with them, or the difference, unless the field
      refuses that and keeps its own. */
  lemma CsrOperationsAreFieldwise(c: Csrs, id: nat, v: U64, k: nat)
    requires Legal(c) && Writable(c, id) && k < |Fields(Lookup(id).reg)|
    ensures var r := Lookup(id).reg;
            var f := Fields(r)[k];
            var was, bits := Get(f, Read(c, r)), Pext(f.mask, v);
            && bits < Pow2(PopCount(f.mask))
            && Get(f, Read(CsrWrite(c, id, v).csrs, r)) == Settled(f, bits, was)
            && Get(f, Read(CsrSetBits(c, id, v).csrs, r)) == Settled(f, BitOr(was, bits), was)
            && Get(f, Read(CsrClearBits(c, id, v).csrs, r))
               == Settled(f, BitAnd(was, BitNot(PopCount(f.mask), bits)), was)
  {
    var r := Lookup(id).reg;
    var f, old_ := Fields(r)[k], Read(c, r);
    MasksFit(r);
    SetClearFit(old_, v);
    OperandFields(f.mask, old_, v);
    CsrWriteIsFieldwise(c, r, v, k);
    CsrWriteIsFieldwise(c, r, BitOr(old_, v), k);
    CsrWriteIsFieldwise(c, r, BitAnd(old_, TWO64 - 1 - v), k);
  }

  lemma OperandFields(mask: U64, a: U64, v: U64)
    ensures Pext(mask, v) < Pow2(PopCount(mask))
    ensures Pext(mask, BitOr(a, v)) == BitOr(Pext(mask, a), Pext(mask, v))
    ensures Pext(mask, BitAnd(a, TWO64 - 1 - v)) == BitAnd(Pext(mask, a), BitNot(PopCount(mask), Pext(mask, v)))
  {
    Pow64();
    PextOr(mask, a, v);
    PextNot(WIDTH, mask, v);
    PextAnd(mask, a, TWO64 - 1 - v);
  }

  lemma KnownIdsNeedMachine(c: Csrs, id: nat)
    requires Lookup(id).Some? && FitPrivilege(c, id)
    ensures c.privilege == MACHINE
  {
    assert id == 0x300 || id == 0x305 || id == 0x341 || id == 0x342 || id == 0xF14;
  }

  /** Below machine mode every CSR operation is refused. */
  lemma OnlyMachineMode(c: Csrs, id: nat, v: U64)
    requires c.privilege != MACHINE
    ensures !CsrWrite(c, id, v).ok && !CsrSetBits(c, id, v).ok && !CsrClearBits(c, id, v).ok && !CsrRead(c, id).ok
    ensures CsrWrite(c, id, v).csrs == CsrSetBits(c, id, v).csrs == c
    ensures CsrClearBits(c, id, v).csrs == CsrRead(c, id).csrs == c
  {
    if Lookup(id).Some? && FitPrivilege(c, id) {
      KnownIdsNeedMachine(c, id);
    }
  }

  // ---------------------------------------------------------------- traps

  function SetU64(f: Field, value: nat, raw: U64): U64
    requires f.mask < TWO64
  {
    SetBound(f, value, raw);
    Set(f, value, raw).raw
  }

  lemma TrapMasksFit()
    ensures L.mie < TWO64 && L.mpie < TWO64 && L.mpp < TWO64 && L.interrupt < TWO64 && L.code < TWO64
    ensures L.mode < TWO64 && L.base < TWO64
  {
    assert StatusMasks(L)[1] < TWO64 && StatusMasks(L)[3] < TWO64 && StatusMasks(L)[5] < TWO64;
  }

  /** The CSR half of `Hart::raiseException`. */
  function EnterTrap(c: Csrs, id: nat, pc: U64): Csrs {
    TrapMasksFit();
    var s1 := SetU64(MPIE, Get(MIE, c.mstatus), c.mstatus);
    var s2 := SetU64(MIE, 0, s1);
    var s3 := SetU64(MPP, c.privilege, s2);
    var cause := SetU64(CODE, id, SetU64(INTERRUPT, 0, c.mcause));
    Csrs(s3, c.mtvec, SetU64(VALUE, pc, c.mepc), cause, c.mhartid, MACHINE)
  }

  /** Where `raiseException` sends the PC. */
  function TrapTarget(c: Csrs, id: nat): U64 {
    Vector(Get(MODE, c.mtvec), Get(BASE, c.mtvec), id)
  }

  /** Direct or vectored. */
  function Vector(mode: nat, base: nat, id: nat): U64 {
    (if mode == 1 then (base + id) * 4 else base * 4) % TWO64
  }

  /** The CSR half of a permitted MRET. */
  function LeaveTrap(c: Csrs): Csrs {
    TrapMasksFit();
    var s1 := SetU64(MIE, Get(MPIE, c.mstatus), c.mstatus);
    var s2 := SetU64(MPIE, 1, s1);
    var s3 := SetU64(MPP, USER, s2);
    c.(mstatus := s3, privilege := Get(MPP, c.mstatus))
  }

  /** Setting one mstatus field: it reads back truncated, the other five do not move. */
  lemma StatusSet(i: nat, v: nat, raw: U64)
    requires i < 6
    ensures Fields(MSTATUS)[i].mask < TWO64
    ensures var raw' := Set(Fields(MSTATUS)[i], v, raw).raw;
            && Get(Fields(MSTATUS)[i], raw') == Low(v, PopCount(Fields(MSTATUS)[i].mask))
            && (forall j :: 0 <= j < 6 && j != i ==> Get(Fields(MSTATUS)[j], raw') == Get(Fields(MSTATUS)[j], raw))
            && (Confined(raw) ==> Confined(raw'))
  {
    MasksFit(MSTATUS);
    var fs := Fields(MSTATUS);
    SetThenGet(fs[i], v, raw);
    forall j | 0 <= j < 6 && j != i
      ensures Get(fs[j], Set(fs[i], v, raw).raw) == Get(fs[j], raw)
    {
      AndComm(fs[i].mask, fs[j].mask);
      SetKeepsDisjoint(fs[i], v, raw, fs[j].mask);
    }
    if Confined(raw) {
      ConfinedSet(i, v, raw);
    }
  }

  /** Reading the six mstatus fields in the order of `Fields`. */
  function Status(raw: nat): seq<nat> {
    [Get(SIE, raw), Get(MIE, raw), Get(SPIE, raw), Get(MPIE, raw), Get(SPP, raw), Get(MPP, raw)]
  }

  lemma StatusAfter(i: nat, v: nat, raw: U64)
    requires i < 6 && v < Pow2(PopCount(Fields(MSTATUS)[i].mask))
    ensures Status(Set(Fields(MSTATUS)[i], v, raw).raw) == Status(raw)[i := v]
    ensures Confined(raw) ==> Confined(Set(Fields(MSTATUS)[i], v, raw).raw)
  {
    StatusSet(i, v, raw);
    LowId(v, PopCount(Fields(MSTATUS)[i].mask));
    var raw' := Set(Fields(MSTATUS)[i], v, raw).raw;
    forall j | 0 <= j < 6
      ensures Status(raw')[j] == Status(raw)[i := v][j]
    {
      assert Status(raw')[j] == Get(Fields(MSTATUS)[j], raw');
      assert Status(raw)[j] == Get(Fields(MSTATUS)[j], raw);
    }
  }

  lemma FieldWidths(raw: nat)
    ensures Pow2(PopCount(L.mie)) == 2 && Pow2(PopCount(L.mpie)) == 2 && Pow2(PopCount(L.mpp)) == 4
    ensures Get(MIE, raw) < 2 && Get(MPIE, raw) < 2 && Get(MPP, raw) < 4
  {
    PextBound(L.mie, raw);
    PextBound(L.mpie, raw);
    PextBound(L.mpp, raw);
    assert Pow2(1) == 2 && Pow2(2) == 4;
  }

  lemma LegalParts(c: Csrs)
    requires Legal(c)
    ensures LegalValue(MSTATUS, c.mstatus) && LegalValue(MTVEC, c.mtvec) && LegalValue(MEPC, c.mepc)
  {
    assert LegalValue(MSTATUS, Read(c, MSTATUS)) && LegalValue(MTVEC, Read(c, MTVEC));
    assert LegalValue(MEPC, Read(c, MEPC));
  }

  lemma LegalFrom(c: Csrs)
    requires LegalValue(MSTATUS, c.mstatus) && LegalValue(MTVEC, c.mtvec) && LegalValue(MEPC, c.mepc)
    requires c.privilege <= 3
    ensures Legal(c)
  {
    forall r
      ensures LegalValue(r, Read(c, r))
    {
      match r
      case _ =>
    }
  }

  lemma PextOfZero(m: nat)
    ensures Pext(m, 0) == 0
  {
  }

  /** The constructor's state, with every field at its reset value. */
  lemma ResetIsLegal()
    ensures Legal(Reset())
  {
    PextOfZero(L.mode);
    PextOfZero(L.base);
    forall i: nat
      ensures !Bit(0, i)
    {
      NoBits(i);
    }
    LegalFrom(Reset());
  }

  /** Trap entry stacks MIE and the privilege, and records the cause. */
  lemma TrapEntry(c: Csrs, id: nat, pc: U64)
    requires Legal(c)
    ensures var t := EnterTrap(c, id, pc);
            && Legal(t) && t.privilege == MACHINE
            && Status(t.mstatus) == Status(c.mstatus)[1 := 0][3 := Get(MIE, c.mstatus)][5 := c.privilege]
            && t.mepc == (if pc % 4 == 0 then pc else c.mepc)
            && t.mtvec == c.mtvec && t.mhartid == c.mhartid
            && Get(INTERRUPT, t.mcause) == 0 && Get(CODE, t.mcause) == Low(id, PopCount(L.code))
  {
    FieldWidths(c.mstatus);
    TrapMasksFit();
    LegalParts(c);
    var s1 := SetU64(MPIE, Get(MIE, c.mstatus), c.mstatus);
    StatusAfter(3, Get(MIE, c.mstatus), c.mstatus);
    var s2 := SetU64(MIE, 0, s1);
    StatusAfter(1, 0, s1);
    StatusAfter(5, c.privilege, s2);
    FullMask(pc, c.mepc);
    var k1 := SetU64(INTERRUPT, 0, c.mcause);
    SetThenGet(INTERRUPT, 0, c.mcause);
    LowZero(PopCount(L.interrupt));
    SetThenGet(CODE, id, k1);
    SetKeepsDisjoint(CODE, id, k1, L.interrupt);
    LegalFrom(EnterTrap(c, id, pc));
  }

  lemma TrapReturn(c: Csrs)
    requires Legal(c)
    ensures var r := LeaveTrap(c);
            && Legal(r) && r.privilege == Get(MPP, c.mstatus)
            && Status(r.mstatus) == Status(c.mstatus)[1 := Get(MPIE, c.mstatus)][3 := 1][5 := USER]
            && r == c.(mstatus := r.mstatus, privilege := r.privilege)
  {
    FieldWidths(c.mstatus);
    TrapMasksFit();
    LegalParts(c);
    var s1 := SetU64(MIE, Get(MPIE, c.mstatus), c.mstatus);
    StatusAfter(1, Get(MPIE, c.mstatus), c.mstatus);
    var s2 := SetU64(MPIE, 1, s1);
    StatusAfter(3, 1, s1);
    StatusAfter(5, USER, s2);
    LegalFrom(LeaveTrap(c));
  }

  /** A trap followed by MRET gives back privilege and MIE, and the PC when it was aligned
      (otherwise the previous mepc); it leaves MPIE set and MPP at user, and never moves
      SIE, SPIE or SPP. */
  lemma TrapThenReturn(c: Csrs, id: nat, pc: U64)
    requires Legal(c)
    ensures var r := LeaveTrap(EnterTrap(c, id, pc));
            && r.privilege == c.privilege
            && Status(r.mstatus) == Status(c.mstatus)[3 := 1][5 := USER]
            && r.mepc == (if pc % 4 == 0 then pc else c.mepc)
            && r.mtvec == c.mtvec && r.mhartid == c.mhartid && Legal(r)
  {
    var t := EnterTrap(c, id, pc);
    TrapEntry(c, id, pc);
    TrapReturn(t);
    assert Get(MPIE, t.mstatus) == Status(t.mstatus)[3] == Status(c.mstatus)[1];
    assert Get(MPP, t.mstatus) == Status(t.mstatus)[5];
  }

  lemma TrapTargetAligned(c: Csrs, id: nat)
    ensures TrapTarget(c, id) % 4 == 0
  {
    var base := Get(BASE, c.mtvec);
    var t := if Get(MODE, c.mtvec) == 1 then base + id else base;
    WrapAligned(t);
  }

  lemma WrapAligned(t: nat)
    ensures (t * 4) % TWO64 % 4 == 0
  {
    var q := (t * 4) / TWO64;
    assert (t * 4) % TWO64 == 4 * (t - q * 0x4000_0000_0000_0000);
  }

  /** A vectored trap goes four bytes an exception id past the base, a direct one to the base. */
  lemma TrapTargetIs(c: Csrs, id: nat)
    ensures var base := 4 * Get(BASE, c.mtvec);
            TrapTarget(c, id) == (if Get(MODE, c.mtvec) == 1 then base + 4 * id else base) % TWO64
  {
  }

  /** With two mode bits below it, the base is the register with those bits cleared. */
  lemma VectorFields(v: U64)
    requires L.mode == 3 && L.base == TWO64 - 4
    ensures Get(MODE, v) == v % 4 && 4 * Get(BASE, v) == v - v % 4
  {
    var k := WIDTH - 2;
    Pow64();
    Pow2Add(2, k);
    assert Pow2(2) == 4;
    TwoBits(v, k);
  }

  lemma TwoBits(v: nat, k: nat)
    requires v < 4 * Pow2(k)
    ensures Pext(3, v) == v % 4 && Pext(4 * Pow2(k) - 4, v) == v / 4
  {
    LowTwo(v);
    PextFull(k, v / 4);
    HighRest(Pow2(k) - 1, v);
  }

  lemma LowTwo(v: nat)
    ensures Pext(3, v) == v % 4
  {
    assert Pext(1, v / 2) == v / 2 % 2 + 2 * Pext(0, v / 2 / 2);
    assert Pext(3, v) == v % 2 + 2 * Pext(1, v / 2);
    PextZero(v / 2 / 2);
  }

  lemma HighRest(m: nat, v: nat)
    ensures Pext(4 * m, v) == Pext(m, v / 4)
  {
    PextEven(2 * m, v);
    PextEven(m, v / 2);
    assert v / 2 / 2 == v / 4;
  }

  lemma PextZero(v: nat)
    ensures Pext(0, v) == 0
  {
  }

  lemma PextEven(m: nat, v: nat)
    ensures Pext(2 * m, v) == Pext(m, v / 2)
  {
  }
}
