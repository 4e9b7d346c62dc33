/** include/besm-666/exec/csr.hpp and src/exec/csrf.cpp as objects: registers whose fields
    write through to one raw word, and the file that guards them. */
module CsrFile {
  import opened Bits
  import BitMagic
  import opened Csr

  lemma Fits64(x: U64)
    ensures x < Pow2(WIDTH) && WIDTH >= 2
  {
    Pow64();
  }

  /** `util::ExtractMasked` at 64 bits. */
  function ExtractField(mask: U64, value: U64): (r: nat)
    ensures r == BitMagic.Pext(mask, value)
  {
    Fits64(mask);
    Fits64(value);
    BitMagic.MaskedIsBitwise(WIDTH, mask, value, value);
    BitMagic.ExtractMasked(WIDTH, mask, value)
  }

  /** `util::InsertMasked` at 64 bits. */
  function InsertField(mask: U64, value: U64, place: U64): (r: U64)
    ensures r == BitMagic.Pdep(mask, value, place)
  {
    Fits64(mask);
    Fits64(value);
    Fits64(place);
    BitMagic.MaskedIsBitwise(WIDTH, mask, value, place);
    Pow64();
    BitMagic.PdepBound(mask, value, place, WIDTH);
    BitMagic.InsertMasked(WIDTH, mask, value, place)
  }

  class Register {
    const reg: Reg
    var value: U64

    constructor (r: Reg)
      ensures reg == r && value == 0
    {
      reg := r;
      value := 0;
    }

    function Get(f: Field): (r: nat)
      requires f.mask < TWO64
      reads this
      ensures r == Csr.Get(f, value)
    {
      if f.spec.Wpri? then 0 else ExtractField(f.mask, value)
    }

    /** `CSRField::set`. */
    method Set(f: Field, v: U64) returns (ok: bool)
      requires f.mask < TWO64
      modifies this
      ensures Written(ok, value) == Csr.Set(f, v, old(value))
    {
      if f.spec.Wlrl? && !Accepts(f.check, v) {
        return false;
      }
      if f.spec.Wpri? || (f.spec.Warl? && !Accepts(f.check, v)) {
        return true;
      }
      value := InsertField(f.mask, v, value);
      return true;
    }

    /** `CSRStructure::write`, the unrolled fields in turn up to the first refusal. */
    method Write(v: U64) returns (ok: bool)
      modifies this
      ensures Written(ok, value) == WriteFields(Fields(reg), v, old(value))
    {
      var fs := Fields(reg);
      MasksFit(reg);
      var i := 0;
      ok := true;
      while i < |fs|
        invariant i <= |fs|
        invariant ok
        invariant WriteFields(fs, v, old(value)) == WriteFields(fs[i..], v, value)
      {
        var part := ExtractField(fs[i].mask, v);
        PartFits(fs[i].mask, v);
        ok := Set(fs[i], part);
        if !ok {
          return;
        }
        assert fs[i..][1..] == fs[i + 1..];
        i := i + 1;
      }
    }
  }

  /** `CSRF`. */
  class CsrFile {
    const mstatus: Register
    const mtvec: Register
    const mepc: Register
    const mcause: Register
    const mhartid: Register
    const registers: map<nat, Register>
    var privilege: U64

    ghost const Repr: set<object>

    ghost predicate Valid() {
      && Repr == {this, mstatus, mtvec, mepc, mcause, mhartid}
      && mstatus.reg == MSTATUS && mtvec.reg == MTVEC && mepc.reg == MEPC
      && mcause.reg == MCAUSE && mhartid.reg == MHARTID
      && (forall id: nat :: id in registers <==> Lookup(id).Some?)
      && (forall id: nat :: id in registers ==> registers[id] in Registers() && registers[id].reg == Lookup(id).reg)
    }

    ghost function Registers(): set<Register> {
      {mstatus, mtvec, mepc, mcause, mhartid}
    }

    ghost function State(): Csrs
      reads this, Registers()
    {
      Csrs(mstatus.value, mtvec.value, mepc.value, mcause.value, mhartid.value, privilege)
    }

    constructor ()
      ensures Valid() && State() == Reset() && fresh(Repr)
      ensures State() == Csrs(0, 0, 0, 0, 0, 3)
    {
      mstatus := new Register(MSTATUS);
      mtvec := new Register(MTVEC);
      mepc := new Register(MEPC);
      mcause := new Register(MCAUSE);
      mhartid := new Register(MHARTID);
      registers := map[0x300 := mstatus, 0x305 := mtvec, 0x341 := mepc, 0x342 := mcause, 0xF14 := mhartid];
      privilege := MACHINE;
      Repr := {this, mstatus, mtvec, mepc, mcause, mhartid};
    }

    /** Bits 9:8 of the address against the current privilege. */
    predicate FitsPrivilege(id: nat)
      reads this
    {
      id % 0x1_0000_0000 / 0x100 % 4 == privilege
    }

    /** The registers are five different objects, each showing one part of the state. */
    lemma Shown(r: Register)
      requires Valid() && r in Registers()
      ensures Csr.Read(State(), r.reg) == r.value
      ensures forall q :: q in Registers() && q != r ==> q.reg != r.reg
    {
    }

    /** Writing one register puts its word into the state. */
    twostate lemma Put1(r: Register)
      requires Valid() && r in Registers()
      requires privilege == old(privilege) && forall q :: q in Registers() && q != r ==> q.value == old(q.value)
      ensures State() == Put(old(State()), r.reg, r.value)
    {
    }

    method Write(id: nat, v: U64) returns (ok: bool, before: U64)
      requires Valid()
      modifies Registers()
      ensures Access(ok, before, State()) == CsrWrite(old(State()), id, v)
    {
      if !FitsPrivilege(id) || ReadOnly(id) {
        return false, 0;
      }
      if id !in registers {
        return false, 0;
      }
      ok, before := Update(registers[id], v);
    }

    method Update(r: Register, v: U64) returns (ok: bool, before: U64)
      requires Valid() && r in Registers()
      modifies r
      ensures Access(ok, before, State()) == WriteReg(old(State()), r.reg, v)
    {
      before := r.value;
      Shown(r);
      ok := r.Write(v);
      Put1(r);
    }

    method SetBits(id: nat, mask: U64) returns (ok: bool, before: U64)
      requires Valid()
      modifies Registers()
      ensures Access(ok, before, State()) == CsrSetBits(old(State()), id, mask)
    {
      if !FitsPrivilege(id) || ReadOnly(id) {
        return false, 0;
      }
      if id !in registers {
        return false, 0;
      }
      var r := registers[id];
      Shown(r);
      SetClearFit(r.value, mask);
      ok, before := Update(r, BitOr(r.value, mask));
    }

    method ClearBits(id: nat, mask: U64) returns (ok: bool, before: U64)
      requires Valid()
      modifies Registers()
      ensures Access(ok, before, State()) == CsrClearBits(old(State()), id, mask)
    {
      if !FitsPrivilege(id) || ReadOnly(id) {
        return false, 0;
      }
      if id !in registers {
        return false, 0;
      }
      var r := registers[id];
      Shown(r);
      SetClearFit(r.value, mask);
      ok, before := Update(r, BitAnd(r.value, TWO64 - 1 - mask));
    }

    method Read(id: nat) returns (ok: bool, before: U64)
      requires Valid()
      ensures Access(ok, before, State()) == CsrRead(State(), id)
    {
      if !FitsPrivilege(id) {
        return false, 0;
      }
      if id !in registers {
        return false, 0;
      }
      Shown(registers[id]);
      return true, registers[id].value;
    }

    /** MIE to MPIE, the privilege to MPP, and into machine mode. */
    method StackStatus()
      requires Valid() && L.mie < TWO64 && L.mpie < TWO64 && L.mpp < TWO64
      modifies this, mstatus
      ensures privilege == MACHINE
      ensures var s1 := SetU64(MPIE, Csr.Get(MIE, old(mstatus.value)), old(mstatus.value));
              mstatus.value == SetU64(MPP, old(privilege), SetU64(MIE, 0, s1))
    {
      FieldFits(MIE, mstatus.value);
      var _ := mstatus.Set(MPIE, mstatus.Get(MIE));
      var _ := mstatus.Set(MIE, 0);
      var _ := mstatus.Set(MPP, privilege);
      privilege := MACHINE;
    }

    method RecordCause(id: U64)
      requires Valid() && L.interrupt < TWO64 && L.code < TWO64
      modifies mcause
      ensures mcause.value == SetU64(CODE, id, SetU64(INTERRUPT, 0, old(mcause.value)))
    {
      var _ := mcause.Set(INTERRUPT, 0);
      var _ := mcause.Set(CODE, id);
    }

    method Target(id: U64) returns (target: U64)
      requires Valid() && L.mode < TWO64 && L.base < TWO64
      ensures target == TrapTarget(State(), id)
    {
      target := Vector(mtvec.Get(MODE), mtvec.Get(BASE), id);
    }

    /** The CSR side of `Hart::raiseException`, and where it sends the PC. */
    method EnterTrap(id: U64, pc: U64) returns (target: U64)
      requires Valid()
      modifies this, Registers()
      ensures State() == Csr.EnterTrap(old(State()), id, pc)
      ensures target == TrapTarget(old(State()), id)
      ensures var base := 4 * Csr.Get(BASE, old(mtvec.value));
              target == (if Csr.Get(MODE, old(mtvec.value)) == 1 then base + 4 * id else base) % TWO64
    {
      TrapMasksFit();
      TrapTargetIs(State(), id);
      StackStatus();
      RecordCause(id);
      target := Target(id);
      var _ := mepc.Set(VALUE, pc);
    }

    /** The CSR side of a permitted MRET. */
    method LeaveTrap()
      requires Valid()
      modifies this, mstatus
      ensures State() == Csr.LeaveTrap(old(State()))
    {
      TrapMasksFit();
      FieldFits(MPP, mstatus.value);
      FieldFits(MPIE, mstatus.value);
      privilege := mstatus.Get(MPP);
      var _ := mstatus.Set(MIE, mstatus.Get(MPIE));
      var _ := mstatus.Set(MPIE, 1);
      var _ := mstatus.Set(MPP, USER);
    }
  }

  lemma FieldFits(f: Field, raw: U64)
    requires f.mask < TWO64
    ensures Get(f, raw) < TWO64
  {
    BitMagic.PextBound(f.mask, raw);
  }

  lemma PartFits(mask: U64, v: U64)
    ensures BitMagic.Pext(mask, v) < TWO64
  {
    BitMagic.PextBound(mask, v);
  }
}
