/** The hart's own state (src/sim/hart.cpp): registers, CSRs, block cache and instruction pointer,
    updated in place.  Its methods say what they do for whatever memory stands beside it. */
module Core {
  import opened Bits
  import opened Isa
  import opened FlatMemory
  import opened Handlers
  import opened Threaded
  import Csr
  import CsrFile
  import C = BlockCache

  /** `GPRF`: x0 can be written but reads as zero, and slot 32 is the PC. */
  class Gprf {
    const registers: array<U64>

    ghost predicate Valid() {
      registers.Length == 33
    }

    ghost function State(): Regs
      requires Valid()
      reads registers
    {
      registers[..]
    }

    constructor ()
      ensures Valid() && fresh(registers) && State()[PC] == 0
    {
      registers := new U64[33](_ => 0);
    }

    function Read(r: nat): (v: U64)
      requires Valid() && r < 33
      reads registers
      ensures v == ReadReg(State(), r)
    {
      if r == 0 then 0 else registers[r]
    }

    /** Every register but x0 reads back what was last written to it. */
    method Write(r: nat, v: U64)
      requires Valid() && r < 33
      modifies registers
      ensures State() == WriteReg(old(State()), r, v)
      ensures forall q :: 0 <= q < 33 ==> Read(q) == if q == 0 then 0 else if q == r then v else old(Read(q))
    {
      registers[r] := v;
    }
  }

  /** Appending this instruction at `count` ends the block. */
  predicate Ends(i: Instr, count: nat) {
    IsJump(i.op) || count + 1 == CAPACITY - 1
  }

  /** The block with the instruction in slot `count`, and the sentinel after it if that ends it. */
  function Appended(b: Block, count: nat, i: Instr): Block
    requires count < CAPACITY - 1
  {
    var c: Block := b[count := i];
    if Ends(i, count) then c[count + 1 := c[count + 1].(op := BB_END)] else c
  }

  /** One slot of the block under construction (`BasicBlockRebuilder::append`); whether more
      are wanted. */
  method Append(bbs: array<C.Entry<Block>>, index: nat, count: nat, i: Instr) returns (more: bool)
    requires index < bbs.Length && count < CAPACITY - 1
    modifies bbs
    ensures more <==> !Ends(i, count)
    ensures more <==> count < 6 && i.op !in {JAL, JALR, BEQ, BNE, BLT, BGE, BLTU, BGEU, MRET, SRET, ECALL}
    ensures bbs[..] == old(bbs[..])[index := old(bbs[index]).(body := Appended(old(bbs[index]).body, count, i))]
  {
    var e := bbs[index];
    bbs[index] := e.(body := e.body[count := i]);
    if IsJump(i.op) || count + 1 == CAPACITY - 1 {
      var b := bbs[index].body;
      bbs[index] := bbs[index].(body := b[count + 1 := b[count + 1].(op := BB_END)]);
      return false;
    }
    return true;
  }

  class Core {
    const gprf: Gprf
    const csrf: CsrFile.CsrFile
    const bbCache: C.BasicBlockCache<Block>
    var way: nat
    var slot: nat
    var retired: nat

    ghost const Repr: set<object>

    ghost predicate Valid()
      reads this, Repr
    {
      && gprf.Valid() && csrf.Valid()
      && Repr == {this, gprf.registers, bbCache, bbCache.bbs, bbCache.lruRowers} + csrf.Repr
      && this !in csrf.Repr && gprf.registers !in csrf.Repr
      && bbCache.bbs !in csrf.Repr && bbCache.lruRowers !in csrf.Repr
      && (var regs: object := gprf.registers; regs != bbCache.bbs && regs != bbCache.lruRowers)
      && bbCache.Valid()
    }

    /** The architectural state, with this memory. */
    ghost function ArchState(mem: Mem): Arch
      requires gprf.Valid()
      reads this, gprf.registers, csrf, csrf.Registers()
    {
      Arch(gprf.State(), csrf.State(), mem, retired)
    }

    ghost function State(mem: Mem): Machine
      requires gprf.Valid()
      reads this, gprf.registers, csrf, csrf.Registers(), bbCache, bbCache.bbs, bbCache.lruRowers
    {
      Machine(ArchState(mem), bbCache.State(), way, slot)
    }

    /** Power-on. */
    constructor ()
      ensures Valid() && fresh(Repr) && retired == 0
      ensures gprf.State()[PC] == 0
      ensures csrf.State() == Csr.Reset() && C.Empty(bbCache.State()) && C.Rewound(bbCache.State())
    {
      var regs := new Gprf();
      var csrs := new CsrFile.CsrFile();
      var blocks := new C.BasicBlockCache<Block>(seq(CAPACITY, _ => Instr(INV_OP, 0, 0, 0, 0)));
      gprf, csrf, bbCache := regs, csrs, blocks;
      way, slot, retired := 0, 0, 0;
      Repr := {this, regs.registers, blocks, blocks.bbs, blocks.lruRowers} + csrs.Repr;
    }

    /** The CSR and PC side of `raiseException`, before it refetches. */
    method EnterTrap(id: U64, ghost mem: Mem)
      requires Valid()
      modifies gprf.registers, csrf, csrf.Registers()
      ensures Valid() && ArchState(mem) == Raise(old(ArchState(mem)), id)
      ensures bbCache.State() == old(bbCache.State())
    {
      var target := csrf.EnterTrap(id, gprf.Read(PC));
      gprf.Write(PC, target);
    }

    /** The CSR and PC side of a permitted MRET. */
    method LeaveTrap(ghost mem: Mem)
      requires Valid() && csrf.privilege == Csr.MACHINE
      modifies gprf.registers, csrf, csrf.Registers()
      ensures Valid() && ExecMret(old(ArchState(mem))) == Next(ArchState(mem))
    {
      csrf.LeaveTrap();
      gprf.Write(PC, csrf.mepc.value);
    }

    method WritePC(target: U64, ghost mem: Mem)
      requires Valid()
      modifies gprf.registers
      ensures Valid() && ArchState(mem) == SetPc(old(ArchState(mem)), target)
    {
      gprf.Write(PC, target);
    }

    /** `nextPC`. */
    method NextPC(ghost mem: Mem)
      requires Valid()
      modifies gprf.registers
      ensures Valid() && ArchState(mem) == NextPc(old(ArchState(mem)))
    {
      gprf.Write(PC, Wrap(gprf.Read(PC) + 4));
    }

    /** A result into `rd`, and on to the next word. */
    method Deliver(i: Instr, v: U64, ghost mem: Mem)
      requires Valid() && Decoded(i)
      modifies gprf.registers
      ensures Valid() && ArchState(mem) == NextPc(SetRd(old(ArchState(mem)), i, v))
    {
      gprf.Write(i.rd, v);
      NextPC(mem);
    }

    /** The return address into `rd`, and off to the target, in that order. */
    method Jump(i: Instr, target: U64, ghost mem: Mem)
      requires Valid() && Decoded(i)
      modifies gprf.registers
      ensures Valid()
      ensures ArchState(mem) == SetPc(SetRd(old(ArchState(mem)), i, Wrap(Pc(old(ArchState(mem))) + 4)), target)
    {
      WriteLink(i, mem);
      WritePC(target, mem);
    }

    method WriteLink(i: Instr, ghost mem: Mem)
      requires Valid() && Decoded(i)
      modifies gprf.registers
      ensures Valid() && ArchState(mem) == SetRd(old(ArchState(mem)), i, Wrap(Pc(old(ArchState(mem))) + 4))
    {
      gprf.Write(i.rd, Wrap(gprf.Read(PC) + 4));
    }

    /** What a handler that raises nothing did, up to `execNextInstr`, with this memory after it. */
    ghost predicate Did(ok: bool, o: Outcome, mem: Mem)
      requires gprf.Valid()
      reads this, gprf.registers, csrf, csrf.Registers()
    {
      match o
      case Next(s) => ok && ArchState(mem) == s
      case Abort(_) => !ok
      case _ => false
    }

    method ExecAlu(i: Instr, ghost mem: Mem) returns (ok: bool)
      requires Valid() && Decoded(i)
      modifies gprf.registers
      ensures Valid() && Did(ok, Handlers.ExecAlu(i, old(ArchState(mem))), mem)
    {
      var a := gprf.Read(i.rs1);
      var b := if KindOf(i.op) == Register then gprf.Read(i.rs2)
               else if i.op.SLLI? || i.op.SRLI? || i.op.SRAI? then i.imm % 32 else Sext12(i.imm);
      match Compute(i.op, a, b) {
        case Undefined => ok := false;
        case Result(v) =>
          Deliver(i, v, mem);
          ok := true;
      }
    }

    method ExecUpper(i: Instr, ghost mem: Mem) returns (ok: bool)
      requires Valid() && Decoded(i)
      modifies gprf.registers
      ensures Valid() && Did(ok, Handlers.ExecUpper(i, old(ArchState(mem))), mem)
    {
      Deliver(i, UpperResult(i, gprf.Read(PC)), mem);
      ok := true;
    }

    function AddressOf(i: Instr): (a: U64)
      requires Valid() && Decoded(i)
      reads this, Repr
      ensures forall mem :: a == Address(i, ArchState(mem))
    {
      BaseAddress(i, gprf.Read(i.rs1))
    }

    method ExecBranch(i: Instr, ghost mem: Mem) returns (ok: bool)
      requires Valid() && Decoded(i)
      modifies gprf.registers
      ensures Valid() && Did(ok, Handlers.ExecBranch(i, old(ArchState(mem))), mem)
    {
      if Taken(i.op, gprf.Read(i.rs1), gprf.Read(i.rs2)) {
        WritePC(BaseAddress(i, gprf.Read(PC)), mem);
      } else {
        NextPC(mem);
      }
      ok := true;
    }

    method ExecJal(i: Instr, ghost mem: Mem) returns (ok: bool)
      requires Valid() && Decoded(i)
      modifies gprf.registers
      ensures Valid() && Did(ok, Handlers.ExecJal(i, old(ArchState(mem))), mem)
    {
      Jump(i, LinkTarget(i, gprf.Read(PC)), mem);
      ok := true;
    }

    method ExecJalr(i: Instr, ghost mem: Mem) returns (ok: bool)
      requires Valid() && Decoded(i)
      modifies gprf.registers
      ensures Valid() && Did(ok, Handlers.ExecJalr(i, old(ArchState(mem))), mem)
    {
      Jump(i, ClearLowBit(AddressOf(i)), mem);
      ok := true;
    }

    /** The handlers that neither raise nor touch memory. */
    method ExecPlain(i: Instr, ghost mem: Mem) returns (ok: bool)
      requires Valid() && Decoded(i) && PlainKind(KindOf(i.op))
      modifies gprf.registers
      ensures Valid() && Did(ok, Handler(i, old(ArchState(mem))), mem)
    {
      var kind := KindOf(i.op);
      if kind == Upper {
        ok := ExecUpper(i, mem);
      } else if kind == Branch {
        ok := ExecBranch(i, mem);
      } else if kind == Link {
        ok := ExecJal(i, mem);
      } else if kind == LinkRegister {
        ok := ExecJalr(i, mem);
      } else if kind == Fence {
        NextPC(mem);
        ok := true;
      } else {
        ok := ExecAlu(i, mem);
      }
    }

    method ExecCsrAction(i: Instr, ghost mem: Mem) returns (ok: bool, before: U64)
      requires Valid() && Decoded(i) && KindOf(i.op) == CsrKind
      modifies csrf.Registers()
      ensures Valid() && Csr.Access(ok, before, csrf.State()) == CsrAction(i, old(ArchState(mem)))
    {
      var x := gprf.Read(i.rs1);
      if i.op.CSRRW? {
        ok, before := csrf.Write(i.imm, x);
      } else if i.op.CSRRS? {
        if i.rs1 == 0 {
          ok, before := csrf.Read(i.imm);
        } else {
          ok, before := csrf.SetBits(i.imm, x);
        }
      } else if i.op.CSRRC? {
        ok, before := csrf.ClearBits(i.imm, x);
      } else if i.op.CSRRWI? {
        ok, before := csrf.Write(i.imm, i.rs1);
      } else if i.op.CSRRSI? {
        ok, before := csrf.SetBits(i.imm, i.rs1);
      } else {
        ok, before := csrf.ClearBits(i.imm, i.rs1);
      }
    }

    /** `execNextInstr`, up to the dispatch: count, and move to the next slot. */
    method ExecNextInstr(ghost mem: Mem)
      requires Valid()
      modifies this`retired, this`slot
      ensures Valid()
      ensures State(mem) == old(State(mem)).(arch := Retire(old(ArchState(mem))), slot := old(slot) + 1)
    {
      retired := retired + 1;
      slot := slot + 1;
    }

    /** The cache asked for a PC. */
    method Find(pc: U64, ghost mem: Mem) returns (hit: bool, index: nat)
      requires Valid()
      modifies bbCache.lruRowers
      ensures Valid()
      ensures var f := C.Lookup(old(bbCache.State()), pc);
              hit == f.hit && index == f.index && State(mem) == old(State(mem)).(cache := f.cache)
    {
      hit, index := bbCache.Find(pc);
    }

    /** The instruction pointer, on the first slot of a block. */
    method Point(index: nat, ghost mem: Mem)
      requires Valid()
      modifies this`way, this`slot
      ensures Valid() && State(mem) == old(State(mem)).(way := index, slot := 0)
    {
      way, slot := index, 0;
    }
  }

  predicate PlainKind(k: Kind) {
    match k
    case Register | Immediate | Upper | Branch | Link | LinkRegister | Fence => true
    case _ => false
  }
}
