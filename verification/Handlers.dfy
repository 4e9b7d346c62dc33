/** The handler bodies of src/sim/hart.cpp, up to the call of `execNextInstr`, as functions
    on the architectural state. */
module Handlers {
  import opened Bits
  import opened Isa
  import opened FlatMemory
  import Csr

  // ---------------------------------------------------------------- state

  const PC := 32

  /** `GPRF`: x0..x31 and the PC in slot 32; x0 is writable but reads as zero. */
  type Regs = s: seq<U64> | |s| == 33 witness seq(33, _ => 0)

  function ReadReg(regs: Regs, r: nat): U64
    requires r < 33
  {
    if r == 0 then 0 else regs[r]
  }

  function WriteReg(regs: Regs, r: nat, v: U64): Regs
    requires r < 33
  {
    regs[r := v]
  }

  datatype Arch = Arch(regs: Regs, csr: Csr.Csrs, mem: Mem, retired: nat)

  function Pc(s: Arch): U64 {
    ReadReg(s.regs, PC)
  }

  datatype Crash = Memory(fault: Fault) | UndefinedShift | Terminated

  /** How a handler ends: it falls into `execNextInstr`, possibly after `raiseException`
      refetched a block at `target`; or the run is over. */
  datatype Outcome =
    | Next(s: Arch)
    | Trap(s: Arch, target: U64)
    | Stop(s: Arch)
    | TrapStop(s: Arch, target: U64)
    | Abort(crash: Crash)

  // ---------------------------------------------------------------- arithmetic

  /** `SignExtend<RV64UDWord, 12>`. */
  function Sext12(x: U64): U64 {
    if x % 0x1000 < 0x800 then x % 0x1000 else TWO64 - 0x1000 + x % 0x1000
  }

  /** `SignExtend<RV64UDWord, 20>`. */
  function Sext20(x: U64): U64 {
    if x % 0x10_0000 < 0x8_0000 then x % 0x10_0000 else TWO64 - 0x10_0000 + x % 0x10_0000
  }

  function Signed(x: U64): int {
    if x < TWO63 then x else x - TWO64
  }

  function Wrap(x: int): U64 {
    x % TWO64
  }

  lemma WrapSum(p: U64, x: U64)
    ensures Wrap(p + x) == if p + x < TWO64 then p + x else p + x - TWO64
  {
    if p + x < TWO64 {
      DivUnique(p + x, TWO64, 0, p + x);
    } else {
      DivUnique(p + x, TWO64, 1, p + x - TWO64);
    }
  }

  function And64(a: U64, b: U64): U64 {
    AndBound(a, b);
    BitAnd(a, b)
  }

  function Or64(a: U64, b: U64): U64 {
    OrFits(a, b);
    BitOr(a, b)
  }

  function Xor64(a: U64, b: U64): U64 {
    OrFits(a, b);
    BitXor(a, b)
  }

  lemma OrFits(a: U64, b: U64)
    ensures BitOr(a, b) < TWO64 && BitXor(a, b) < TWO64
  {
    Pow64();
    OrBound(a, b, 64);
  }

  datatype Computed = Result(v: U64) | Undefined

  /** Shift amounts of 64 and more are undefined in C++. */
  function Shift(op: Op, a: U64, b: U64): Computed {
    if b >= 64 then Undefined
    else if op.SLL? || op.SLLI? then Result(Wrap(a * Pow2(b)))
    else if op.SRL? || op.SRLI? then Result(Wrap(a / Pow2(b)))
    else if op.SRA? || op.SRAI? then Result(Wrap(Signed(a) / Pow2(b)))
    else if op.SLLW? || op.SLLIW? then Result(Wrap(a * Pow2(b)) % 0x1_0000_0000)
    else if op.SRLW? || op.SRLIW? then Result(Wrap(a / Pow2(b)) % 0x1_0000_0000)
    else Result(Wrap(Signed(a) / Pow2(b)) % 0x1_0000_0000)
  }

  function Compute(op: Op, a: U64, b: U64): Computed {
    match op
    case ADD | ADDI => Result(Wrap(a + b))
    case SUB => Result(Wrap(a - b))
    case SLT | SLTI => Result(if Signed(a) < Signed(b) then 1 else 0)
    case SLTU | SLTIU => Result(if a < b then 1 else 0)
    case XOR | XORI => Result(Xor64(a, b))
    case OR | ORI => Result(Or64(a, b))
    case AND | ANDI => Result(And64(a, b))
    case ADDW | ADDIW => Result(Wrap(a + b) % 0x1_0000_0000)
    case SUBW => Result(Wrap(a - b) % 0x1_0000_0000)
    case _ => Shift(op, a, b)
  }

  datatype Kind = Register | Immediate | Upper | Loading | Storing | Branch | Link | LinkRegister
                | System | Return | CsrKind | Fence | Pause | Break | Dead | Illegal

  /** Which handlers share a body. */
  function KindOf(op: Op): Kind {
    match op
    case ADD | SUB | SLL | SLT | SLTU | XOR | SRL | SRA | OR | AND | ADDW | SUBW | SLLW | SRLW | SRAW => Register
    case ADDI | SLTI | SLTIU | XORI | ORI | ANDI | SLLI | SRLI | SRAI | ADDIW | SLLIW | SRLIW | SRAIW => Immediate
    case LUI | AUIPC => Upper
    case LB | LH | LW | LD | LBU | LHU | LWU => Loading
    case SB | SH | SW | SD => Storing
    case BEQ | BNE | BLT | BGE | BLTU | BGEU => Branch
    case JAL => Link
    case JALR => LinkRegister
    case ECALL => System
    case MRET => Return
    case CSRRW | CSRRS | CSRRC | CSRRWI | CSRRSI | CSRRCI => CsrKind
    case FENCE | FENCE_TSO => Fence
    case PAUSE => Pause
    case EBREAK => Break
    case SRET => Dead
    case INV_OP | BB_END => Illegal
  }

  predicate JumpKind(k: Kind) {
    k == Branch || k == Link || k == LinkRegister || k == System || k == Return || k == Dead
  }

  lemma JumpKinds(op: Op)
    ensures IsJump(op) <==> JumpKind(KindOf(op))
  {
  }

  lemma StoreKinds(op: Op)
    ensures IsStore(op) <==> KindOf(op) == Storing
  {
  }

  lemma BranchKinds(op: Op)
    ensures IsBranch(op) <==> KindOf(op) == Branch
  {
  }

  function SecondOperand(i: Instr, regs: Regs): U64
    requires Decoded(i)
  {
    if KindOf(i.op) == Register then ReadReg(regs, i.rs2)
    else if i.op.SLLI? || i.op.SRLI? || i.op.SRAI? then i.imm % 32
    else Sext12(i.imm)
  }

  predicate Taken(op: Op, a: U64, b: U64) {
    match op
    case BEQ => a == b
    case BNE => a != b
    case BLT => Signed(a) < Signed(b)
    case BGE => Signed(a) >= Signed(b)
    case BLTU => a < b
    case BGEU => a >= b
    case _ => false
  }

  function Width(op: Op): (n: nat)
    ensures n == 1 || n == 2 || n == 4 || n == 8
  {
    if op.LB? || op.LBU? || op.SB? then 1
    else if op.LH? || op.LHU? || op.SH? then 2
    else if op.LW? || op.LWU? || op.SW? then 4
    else 8
  }

  function Extend(op: Op, v: nat): U64 {
    if op.LB? && v >= 0x80 then Wrap(v - 0x100)
    else if op.LH? && v >= 0x8000 then Wrap(v - 0x1_0000)
    else if op.LW? && v >= 0x8000_0000 then Wrap(v - 0x1_0000_0000)
    else Wrap(v)
  }

  // ---------------------------------------------------------------- handlers

  function SetPc(s: Arch, pc: U64): Arch {
    s.(regs := WriteReg(s.regs, PC, pc))
  }

  function NextPc(s: Arch): Arch {
    SetPc(s, Wrap(Pc(s) + 4))
  }

  function SetRd(s: Arch, i: Instr, v: U64): Arch
    requires Decoded(i)
  {
    s.(regs := WriteReg(s.regs, i.rd, v))
  }

  const ILLEGAL_INSTR := 2
  const ECALL_UMODE := 8
  const ECALL_SMODE := 9
  const ECALL_MMODE := 11

  /** `Hart::raiseException`, before it refetches. */
  function Raise(s: Arch, id: nat): Arch {
    SetPc(s.(csr := Csr.EnterTrap(s.csr, id, Pc(s))), Csr.TrapTarget(s.csr, id))
  }

  function RaiseThenNext(s: Arch, id: nat): Outcome {
    Trap(Raise(s, id), Csr.TrapTarget(s.csr, id))
  }

  /** `exec_INV_OP`: the exception is raised, and nothing runs after it. */
  function ExecIllegal(s: Arch): Outcome {
    TrapStop(Raise(s, ILLEGAL_INSTR), Csr.TrapTarget(s.csr, ILLEGAL_INSTR))
  }

  function ExecAlu(i: Instr, s: Arch): Outcome
    requires Decoded(i)
  {
    match Compute(i.op, ReadReg(s.regs, i.rs1), SecondOperand(i, s.regs))
    case Result(v) => Next(NextPc(SetRd(s, i, v)))
    case Undefined => Abort(UndefinedShift)
  }

  function UpperResult(i: Instr, pc: U64): U64 {
    var imm := i.imm % 0x10_0000;
    if i.op.LUI? then imm else Wrap(pc + imm)
  }

  function ExecUpper(i: Instr, s: Arch): Outcome
    requires Decoded(i)
  {
    Next(NextPc(SetRd(s, i, UpperResult(i, Pc(s)))))
  }

  function BaseAddress(i: Instr, base: U64): U64 {
    Wrap(base + Sext12(i.imm))
  }

  function Address(i: Instr, s: Arch): U64
    requires Decoded(i)
  {
    BaseAddress(i, ReadReg(s.regs, i.rs1))
  }

  function ExecLoad(i: Instr, s: Arch): Outcome
    requires Decoded(i)
  {
    match Load(s.mem, Address(i, s), Width(i.op))
    case Value(v) => Next(NextPc(SetRd(s, i, Extend(i.op, v))))
    case LoadFault(f) => Abort(Memory(f))
  }

  function ExecStore(i: Instr, s: Arch): Outcome
    requires Decoded(i)
  {
    match Store(s.mem, Address(i, s), Width(i.op), ReadReg(s.regs, i.rs2))
    case Done(m) => Next(NextPc(s.(mem := m)))
    case StoreFault(f) => Abort(Memory(f))
  }

  function ExecBranch(i: Instr, s: Arch): Outcome
    requires Decoded(i)
  {
    if Taken(i.op, ReadReg(s.regs, i.rs1), ReadReg(s.regs, i.rs2))
    then Next(SetPc(s, BaseAddress(i, Pc(s))))
    else Next(NextPc(s))
  }

  function LinkTarget(i: Instr, pc: U64): U64 {
    Wrap(pc + Sext20(i.imm))
  }

  function ExecJal(i: Instr, s: Arch): Outcome
    requires Decoded(i)
  {
    Next(SetPc(SetRd(s, i, Wrap(Pc(s) + 4)), LinkTarget(i, Pc(s))))
  }

  function ClearLowBit(t: U64): U64 {
    t / 2 * 2
  }

  function ExecJalr(i: Instr, s: Arch): Outcome
    requires Decoded(i)
  {
    Next(SetPc(SetRd(s, i, Wrap(Pc(s) + 4)), ClearLowBit(Address(i, s))))
  }

  function ExecEcall(s: Arch): Outcome {
    if s.csr.privilege == Csr.USER then RaiseThenNext(s, ECALL_UMODE)
    else if s.csr.privilege == Csr.SUPERVISOR then RaiseThenNext(s, ECALL_SMODE)
    else if s.csr.privilege == Csr.MACHINE then RaiseThenNext(s, ECALL_MMODE)
    else Abort(Terminated)
  }

  /** Outside machine mode the trap is raised and the PC then overwritten from mepc. */
  function ExecMret(s: Arch): Outcome {
    if s.csr.privilege != Csr.MACHINE then
      var t := Raise(s, ILLEGAL_INSTR);
      Trap(SetPc(t, t.csr.mepc), Csr.TrapTarget(s.csr, ILLEGAL_INSTR))
    else
      var t := s.(csr := Csr.LeaveTrap(s.csr));
      Next(SetPc(t, t.csr.mepc))
  }

  function CsrAction(i: Instr, s: Arch): Csr.Access
    requires Decoded(i)
  {
    var x := ReadReg(s.regs, i.rs1);
    if i.op.CSRRW? then Csr.CsrWrite(s.csr, i.imm, x)
    else if i.op.CSRRS? then
      (if i.rs1 == 0 then Csr.CsrRead(s.csr, i.imm) else Csr.CsrSetBits(s.csr, i.imm, x))
    else if i.op.CSRRC? then Csr.CsrClearBits(s.csr, i.imm, x)
    else if i.op.CSRRWI? then Csr.CsrWrite(s.csr, i.imm, i.rs1)
    else if i.op.CSRRSI? then Csr.CsrSetBits(s.csr, i.imm, i.rs1)
    else Csr.CsrClearBits(s.csr, i.imm, i.rs1)
  }

  function ExecCsr(i: Instr, s: Arch): Outcome
    requires Decoded(i)
  {
    var a := CsrAction(i, s);
    if a.ok then Next(NextPc(SetRd(s.(csr := a.csrs), i, a.before)))
    else RaiseThenNext(s.(csr := a.csrs), ILLEGAL_INSTR)
  }

  /** The handler table, for every operation the decoder emits. */
  function Handler(i: Instr, s: Arch): Outcome
    requires Decoded(i)
  {
    match KindOf(i.op)
    case Register => ExecAlu(i, s)
    case Immediate => ExecAlu(i, s)
    case Upper => ExecUpper(i, s)
    case Loading => ExecLoad(i, s)
    case Storing => ExecStore(i, s)
    case Branch => ExecBranch(i, s)
    case Link => ExecJal(i, s)
    case LinkRegister => ExecJalr(i, s)
    case System => ExecEcall(s)
    case Return => ExecMret(s)
    case CsrKind => ExecCsr(i, s)
    case Fence => Next(NextPc(s))
    case Pause => RaiseThenNext(s, ILLEGAL_INSTR)
    case Break => Stop(s)
    case Dead => Abort(Terminated)
    case Illegal => ExecIllegal(s)
  }

  lemma LoadHandled(i: Instr, s: Arch, loaded: Loaded)
    requires Decoded(i) && KindOf(i.op) == Loading && loaded == Load(s.mem, Address(i, s), Width(i.op))
    ensures Handler(i, s) == match loaded
                             case Value(v) => Next(NextPc(SetRd(s, i, Extend(i.op, v))))
                             case LoadFault(f) => Abort(Memory(f))
  {
  }

  lemma StoreHandled(i: Instr, s: Arch)
    requires Decoded(i) && KindOf(i.op) == Storing
    ensures Handler(i, s) == match Store(s.mem, Address(i, s), Width(i.op), ReadReg(s.regs, i.rs2))
                             case Done(m) => Next(NextPc(s.(mem := m)))
                             case StoreFault(f) => Abort(Memory(f))
  {
  }

  // ---------------------------------------------------------------- what handlers keep

  /** Every reachable state: a legal CSR file and an even PC. */
  ghost predicate Sane(s: Arch) {
    match s
    case Arch(_, csr, _, _) => Csr.Legal(csr) && Even(Pc(s))
  }

  lemma RaiseSane(s: Arch, id: nat)
    requires Sane(s)
    ensures Sane(Raise(s, id)) && Raise(s, id).mem == s.mem && Raise(s, id).retired == s.retired
    ensures Even(Csr.TrapTarget(s.csr, id)) && Pc(Raise(s, id)) == Csr.TrapTarget(s.csr, id)
  {
    var c, target := Csr.EnterTrap(s.csr, id, Pc(s)), Csr.TrapTarget(s.csr, id);
    assert Csr.Legal(c) by {
      Csr.TrapEntry(s.csr, id, Pc(s));
    }
    assert Even(target) by {
      Csr.TrapTargetAligned(s.csr, id);
      EvenOfFour(target);
    }
    assert Raise(s, id) == SetPc(s.(csr := c), target);
  }

  lemma WrapEven(x: nat)
    requires Even(x)
    ensures Even(Wrap(x))
  {
    EvenIsMod(x);
    assert Wrap(x) == 2 * (x / 2 - TWO63 * (x / TWO64));
    EvenIsMod(Wrap(x));
  }

  lemma EvenSum(x: nat, y: nat)
    requires Even(x) && Even(y)
    ensures Even(x + y)
  {
    EvenIsMod(x);
    EvenIsMod(y);
    EvenIsMod(x + y);
  }

  lemma WrapSumEven(x: nat, y: nat)
    requires Even(x) && Even(y)
    ensures Even(Wrap(x + y))
  {
    EvenSum(x, y);
    WrapEven(x + y);
  }

  lemma CsrActionSane(i: Instr, s: Arch)
    requires Decoded(i) && Csr.Legal(s.csr)
    ensures Csr.Legal(CsrAction(i, s).csrs)
    ensures !CsrAction(i, s).ok ==> CsrAction(i, s).csrs == s.csr
    ensures s.csr.privilege != Csr.MACHINE ==> !CsrAction(i, s).ok
  {
    Csr.CsrAccess(s.csr, i.imm, ReadReg(s.regs, i.rs1));
    Csr.CsrAccess(s.csr, i.imm, i.rs1);
    if s.csr.privilege != Csr.MACHINE {
      Csr.OnlyMachineMode(s.csr, i.imm, ReadReg(s.regs, i.rs1));
      Csr.OnlyMachineMode(s.csr, i.imm, i.rs1);
    }
  }

  /** What every handler keeps, whatever instruction it is given: a sane state, the
      retired count, memory unless it is a store, and PC + 4 unless it is a jump. */
  ghost predicate Kept(i: Instr, s: Arch, o: Outcome)
    requires Decoded(i)
  {
    match o
    case Next(t) =>
      && Sane(t) && t.retired == s.retired && t.mem.devices == s.mem.devices
      && (!JumpKind(KindOf(i.op)) ==> Pc(t) == Wrap(Pc(s) + 4))
      && (KindOf(i.op) != Storing ==> t.mem == s.mem)
      && SameOutside(t.mem.bytes, s.mem.bytes, Address(i, s), Width(i.op))
    case Trap(t, target) => Sane(t) && t.retired == s.retired && t.mem == s.mem && Even(target)
    case TrapStop(t, target) => Sane(t) && t.retired == s.retired && t.mem == s.mem && Even(target)
    case Stop(t) => t == s
    case Abort(_) => true
  }

  lemma SetPcSane(s: Arch, pc: U64)
    requires Csr.Legal(s.csr) && Even(pc)
    ensures Sane(SetPc(s, pc))
  {
  }

  lemma NextPcSane(s: Arch)
    requires Sane(s)
    ensures Sane(NextPc(s)) && Pc(NextPc(s)) == Wrap(Pc(s) + 4)
  {
    WrapSumEven(Pc(s), 4);
    SetPcSane(s, Wrap(Pc(s) + 4));
  }

  lemma StraightKept(i: Instr, s: Arch)
    requires Decoded(i) && Sane(s) && !JumpKind(KindOf(i.op)) && KindOf(i.op) != Storing
    ensures Kept(i, s, ExecAlu(i, s)) && Kept(i, s, ExecUpper(i, s)) && Kept(i, s, ExecLoad(i, s))
    ensures Kept(i, s, Next(NextPc(s)))
  {
    NextPcSane(s);
    forall v: U64
      ensures Kept(i, s, Next(NextPc(SetRd(s, i, v))))
    {
      NextPcSane(SetRd(s, i, v));
    }
  }

  lemma NewMemoryKept(i: Instr, s: Arch, m: Mem)
    requires Decoded(i) && Sane(s) && KindOf(i.op) == Storing && m.devices == s.mem.devices
    requires SameOutside(m.bytes, s.mem.bytes, Address(i, s), Width(i.op))
    ensures Kept(i, s, Next(NextPc(s.(mem := m))))
  {
    NextPcSane(s.(mem := m));
  }

  lemma StoreKept(i: Instr, s: Arch)
    requires Decoded(i) && Sane(s) && KindOf(i.op) == Storing
    ensures Kept(i, s, Handler(i, s))
  {
    var a, n, v := Address(i, s), Width(i.op), ReadReg(s.regs, i.rs2);
    var r := Store(s.mem, a, n, v);
    if r.Done? {
      StoreFrame(s.mem, a, n, v);
      NewMemoryKept(i, s, r.mem);
    }
  }

  lemma StoreFrame(m: Mem, a: nat, n: nat, v: nat)
    requires n > 0 && Store(m, a, n, v).Done?
    ensures var m' := Store(m, a, n, v).mem;
            m'.devices == m.devices && SameOutside(m'.bytes, m.bytes, a, n)
  {
    forall x: nat | !(a <= x < a + n)
      ensures At(StoreLE(m.bytes, a, n, v), x) == At(m.bytes, x)
    {
      StoreAt(m.bytes, a, n, v, x);
    }
  }

  lemma TargetEven(i: Instr, pc: U64)
    requires Even(pc) && Even(i.imm)
    ensures Even(BaseAddress(i, pc)) && Even(LinkTarget(i, pc))
  {
    SextEven(i.imm);
    WrapSumEven(pc, Sext12(i.imm));
    WrapSumEven(pc, Sext20(i.imm));
  }

  lemma BranchKept(i: Instr, s: Arch)
    requires Decoded(i) && Sane(s) && KindOf(i.op) == Branch
    ensures Kept(i, s, Handler(i, s))
  {
    BranchKinds(i.op);
    TargetEven(i, Pc(s));
    WrapSumEven(Pc(s), 4);
    JumpedKept(i, s, s, BaseAddress(i, Pc(s)));
    JumpedKept(i, s, s, Wrap(Pc(s) + 4));
  }

  lemma JumpedKept(i: Instr, s: Arch, t: Arch, pc: U64)
    requires Decoded(i) && Sane(s) && JumpKind(KindOf(i.op)) && Even(pc)
    requires t.csr == s.csr && t.mem == s.mem && t.retired == s.retired
    ensures Kept(i, s, Next(SetPc(t, pc)))
  {
    SetPcSane(t, pc);
  }

  lemma JalKept(i: Instr, s: Arch)
    requires Decoded(i) && Sane(s) && KindOf(i.op) == Link
    ensures Kept(i, s, Handler(i, s))
  {
    TargetEven(i, Pc(s));
    JumpedKept(i, s, SetRd(s, i, Wrap(Pc(s) + 4)), LinkTarget(i, Pc(s)));
  }

  lemma ClearLowBitEven(t: U64)
    ensures Even(ClearLowBit(t))
  {
    EvenIsMod(t / 2 * 2);
  }

  lemma JalrKept(i: Instr, s: Arch)
    requires Decoded(i) && Sane(s) && KindOf(i.op) == LinkRegister
    ensures Kept(i, s, Handler(i, s))
  {
    ClearLowBitEven(Address(i, s));
    JumpedKept(i, s, SetRd(s, i, Wrap(Pc(s) + 4)), ClearLowBit(Address(i, s)));
  }

  lemma RaiseKept(i: Instr, s: Arch, id: nat)
    requires Decoded(i) && Sane(s)
    ensures Kept(i, s, RaiseThenNext(s, id))
    ensures Kept(i, s, TrapStop(Raise(s, id), Csr.TrapTarget(s.csr, id)))
  {
    RaiseSane(s, id);
  }

  lemma CsrKept(i: Instr, s: Arch)
    requires Decoded(i) && Sane(s) && KindOf(i.op) == CsrKind
    ensures Kept(i, s, Handler(i, s))
  {
    CsrActionSane(i, s);
    var a := CsrAction(i, s);
    if a.ok {
      NextPcSane(SetRd(s.(csr := a.csrs), i, a.before));
    } else {
      RaiseKept(i, s, ILLEGAL_INSTR);
    }
  }

  lemma MretRefused(i: Instr, s: Arch)
    requires Decoded(i) && Sane(s) && KindOf(i.op) == Return && s.csr.privilege != Csr.MACHINE
    ensures Kept(i, s, Handler(i, s))
  {
    var t := Raise(s, ILLEGAL_INSTR);
    RaiseSane(s, ILLEGAL_INSTR);
    Csr.LegalParts(t.csr);
    EvenOfFour(t.csr.mepc);
    SetPcSane(t, t.csr.mepc);
  }

  lemma MretAllowed(i: Instr, s: Arch)
    requires Decoded(i) && Sane(s) && KindOf(i.op) == Return && s.csr.privilege == Csr.MACHINE
    ensures Kept(i, s, Handler(i, s))
  {
    var t := s.(csr := Csr.LeaveTrap(s.csr));
    assert Csr.Legal(t.csr) by {
      Csr.TrapReturn(s.csr);
    }
    Csr.LegalParts(t.csr);
    EvenOfFour(t.csr.mepc);
    SetPcSane(t, t.csr.mepc);
  }

  lemma MretKept(i: Instr, s: Arch)
    requires Decoded(i) && Sane(s) && KindOf(i.op) == Return
    ensures Kept(i, s, Handler(i, s))
  {
    if s.csr.privilege != Csr.MACHINE {
      MretRefused(i, s);
    } else {
      MretAllowed(i, s);
    }
  }

  lemma EvenOfFour(x: nat)
    requires x % 4 == 0
    ensures Even(x)
  {
    assert x == 2 * (2 * (x / 4));
    EvenIsMod(x);
  }

  lemma EcallKept(i: Instr, s: Arch)
    requires Decoded(i) && Sane(s) && KindOf(i.op) == System
    ensures Kept(i, s, Handler(i, s))
  {
    RaiseKept(i, s, ECALL_UMODE);
    RaiseKept(i, s, ECALL_SMODE);
    RaiseKept(i, s, ECALL_MMODE);
  }

  lemma PlainKept(i: Instr, s: Arch)
    requires Decoded(i) && Sane(s)
    requires var k := KindOf(i.op); k == Register || k == Immediate || k == Upper || k == Loading || k == Fence
    ensures Kept(i, s, Handler(i, s))
  {
    StraightKept(i, s);
  }

  lemma OddKept(i: Instr, s: Arch)
    requires Decoded(i) && Sane(s)
    requires var k := KindOf(i.op); k == Pause || k == Break || k == Dead || k == Illegal
    ensures Kept(i, s, Handler(i, s))
  {
    RaiseKept(i, s, ILLEGAL_INSTR);
  }

  lemma HandlerKeeps(i: Instr, s: Arch)
    requires Decoded(i) && Sane(s)
    ensures Kept(i, s, Handler(i, s))
  {
    match KindOf(i.op)
    case Storing => StoreKept(i, s);
    case CsrKind => CsrKept(i, s);
    case Branch => BranchKept(i, s);
    case Link => JalKept(i, s);
    case LinkRegister => JalrKept(i, s);
    case Return => MretKept(i, s);
    case System => EcallKept(i, s);
    case Pause => OddKept(i, s);
    case Break => OddKept(i, s);
    case Dead => OddKept(i, s);
    case Illegal => OddKept(i, s);
    case _ => PlainKept(i, s);
  }

  lemma SextEven(x: U64)
    requires Even(x)
    ensures Even(Sext12(x)) && Even(Sext20(x))
  {
    EvenIsMod(x);
    DivMod(x, 0x1000);
    RestEven(x, 0x1000, 0x800, x / 0x1000, x % 0x1000);
    DivMod(x, 0x10_0000);
    RestEven(x, 0x10_0000, 0x8_0000, x / 0x10_0000, x % 0x10_0000);
  }

  /** The low bits of an even number, as they are or below 2^64. */
  lemma RestEven(x: nat, d: nat, half: nat, q: nat, r: nat)
    requires x % 2 == 0 && d == 2 * half && 0 < d <= TWO63 && x == d * q + r
    ensures Even(r) && Even(TWO64 - d + r)
  {
    Twice(d, half, q);
    EvenDifference(x / 2, half * q, r);
    EvenIsMod(r);
    EvenIsMod(TWO64 - d + r);
  }

  lemma Twice(d: nat, half: nat, q: nat)
    requires d == 2 * half
    ensures d * q == 2 * (half * q)
  {
  }

  lemma EvenDifference(k: nat, t: nat, r: nat)
    requires 2 * k == 2 * t + r
    ensures r % 2 == 0
  {
    assert r == 2 * (k - t);
  }

  /** Below machine mode no handler that completes touches a CSR or the privilege. */
  lemma HandlerUnprivileged(i: Instr, s: Arch)
    requires Decoded(i) && Csr.Legal(s.csr) && s.csr.privilege != Csr.MACHINE
    ensures Handler(i, s).Next? || Handler(i, s).Stop? ==> Handler(i, s).s.csr == s.csr
  {
    if KindOf(i.op) == CsrKind {
      CsrActionSane(i, s);
    }
  }

  /** An exception followed by MRET: privilege, MIE and the S-mode bits come back, MPIE is set and
      MPP is user, and the PC comes back if and only if it was a multiple of 4 or what mepc held. */
  lemma RaiseThenMret(s: Arch, id: nat)
    requires Csr.Legal(s.csr)
    ensures var o := ExecMret(Raise(s, id));
            && o.Next? && o.s.csr.privilege == s.csr.privilege
            && Csr.Status(o.s.csr.mstatus) == Csr.Status(s.csr.mstatus)[3 := 1][5 := Csr.USER]
            && o.s.mem == s.mem && o.s.retired == s.retired
            && (Pc(o.s) == Pc(s) <==> Pc(s) % 4 == 0 || Pc(s) == s.csr.mepc)
            && forall r :: 0 <= r < 32 ==> ReadReg(o.s.regs, r) == ReadReg(s.regs, r)
  {
    Csr.TrapEntry(s.csr, id, Pc(s));
    Csr.TrapThenReturn(s.csr, id, Pc(s));
  }
}
