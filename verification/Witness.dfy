/** Programs on which the simulator and fetch-decode-execute part: a trap to a non-jump, a store
    into cached code, a block at the end of memory, and a jump off a whole word.  And one on
    which they do not part, though it patches cached code.  What `Runs` asks of runs is needed. */
module Witness {
  import opened Bits
  import opened Isa
  import opened FlatMemory
  import opened Handlers
  import opened Threaded
  import opened Refinement
  import opened Runs
  import opened Readability
  import Csr
  import Decoder
  import C = BlockCache
  import P = Prefetcher
  import PageAllocator
  import PhysMem
  import Ram

  /** `addi x0, x0, 0`. */
  const NOP := Instr(ADDI, 0, 0, 0, 0)

  /** At PC 4, an ECALL; with mtvec at reset its trap target is PC 0, not a jump. */
  const MEMORY := Mem([Range(0, 0x1000)], map[0 := 0x13, 4 := 0x73])

  lemma Words()
    ensures LoadLE(MEMORY.bytes, 0, 4) == 0x13 && LoadLE(MEMORY.bytes, 4, 4) == 0x73
  {
    forall a: nat
      ensures At(MEMORY.bytes, a) == if a == 0 then 0x13 else if a == 4 then 0x73 else 0
    {
    }
    Word(MEMORY.bytes, 0, 0x13);
    Word(MEMORY.bytes, 4, 0x73);
  }

  lemma Word(bytes: Bytes, a: nat, b: Byte)
    requires At(bytes, a) == b && At(bytes, a + 1) == At(bytes, a + 2) == At(bytes, a + 3) == 0
    ensures LoadLE(bytes, a, 4) == b
  {
    assert LoadLE(bytes, a + 3, 1) == 0;
    assert LoadLE(bytes, a + 2, 2) == 0;
    assert LoadLE(bytes, a + 1, 3) == 0;
  }

  lemma HalfWord(bytes: Bytes, a: nat, lo: Byte, hi: Byte)
    requires At(bytes, a) == lo && At(bytes, a + 1) == hi && At(bytes, a + 2) == At(bytes, a + 3) == 0
    ensures LoadLE(bytes, a, 4) == lo + 256 * hi
  {
    assert LoadLE(bytes, a + 3, 1) == 0;
    assert LoadLE(bytes, a + 2, 2) == 0;
    assert LoadLE(bytes, a + 1, 3) == hi;
  }

  lemma Decoded0()
    ensures Decoder.Decode(0x13) == NOP
  {
  }

  lemma Decoded4()
    ensures Decoder.Decode(0x73).op == ECALL
  {
    CallWord(0x73);
  }

  lemma CallWord(word: Decoder.Word)
    requires word == 0x73
    ensures Decoder.Decode(word).op == ECALL
  {
    assert Decoder.Opcode(word) == 0x73 && Decoder.Func3(word) == 0 && Decoder.ImmI(word) == 0;
    assert Decoder.Rd(word) == 0 && Decoder.Rs1(word) == 0;
    assert Decoder.Matrix(0x73, 0) == Decoder.Cell(Decoder.I, INV_OP);
  }

  /** What matters of the two instructions. */
  ghost predicate Program(z: Semantics, mem: Mem, nop: Instr, call: Instr) {
    && z.decode(mem, 0) == Code(nop) && nop.op == ADDI && Decoded(nop)
    && z.decode(mem, 4) == Code(call) && call.op == ECALL && Decoded(call)
    && (forall s :: NopRuns(nop, s, z.handle(nop, s)))
    && (forall s: Arch :: s.csr.privilege == Csr.MACHINE ==> z.handle(call, s) == RaiseThenNext(s, ECALL_MMODE))
  }

  ghost predicate NopRuns(nop: Instr, s: Arch, o: Outcome) {
    match o
    case Next(t) => t.csr == s.csr && t.mem == s.mem && t.retired == s.retired && Pc(t) == Wrap(Pc(s) + 4)
    case _ => false
  }

  /** A word at a whole-word address of the one device, and what it decodes to. */
  lemma DecodesTo(mem: Mem, a: nat, word: Decoder.Word, i: Instr)
    requires |mem.devices| == 1 && mem.devices[0].left == 0 && a < mem.devices[0].right && Multiple(a, 4)
    requires LoadLE(mem.bytes, a, 4) == word && Decoder.Decode(word) == i
    ensures DecodeAt(mem, a) == Code(i)
  {
    assert Scan(mem.devices, a) == 0;
  }

  lemma ProgramDecodes() returns (call: Instr)
    ensures DecodeAt(MEMORY, 0) == Code(NOP) && DecodeAt(MEMORY, 4) == Code(call)
    ensures call.op == ECALL && Decoded(call)
  {
    Words();
    Decoded0();
    Decoded4();
    call := Decoder.Decode(0x73);
    Decoder.EveryWordDecodes(0x73);
    MultipleIsMod(4, 4);
    DecodesTo(MEMORY, 0, 0x13, NOP);
    DecodesTo(MEMORY, 4, 0x73, call);
  }

  lemma ProgramHandles(call: Instr)
    requires call.op == ECALL && Decoded(call)
    ensures forall s :: NopRuns(NOP, s, Handle(NOP, s))
    ensures forall s: Arch :: s.csr.privilege == Csr.MACHINE ==> Handle(call, s) == RaiseThenNext(s, ECALL_MMODE)
  {
    forall s
      ensures NopRuns(NOP, s, Handle(NOP, s))
    {
      NopIs(s);
    }
    forall s: Arch | s.csr.privilege == Csr.MACHINE
      ensures Handle(call, s) == RaiseThenNext(s, ECALL_MMODE)
    {
      CallIs(call, s);
    }
  }

  lemma ProgramWhen(mem: Mem, nop: Instr, call: Instr)
    requires DecodeAt(mem, 0) == Code(nop) && nop.op == ADDI && Decoded(nop)
    requires DecodeAt(mem, 4) == Code(call) && call.op == ECALL && Decoded(call)
    requires forall s :: NopRuns(nop, s, Handle(nop, s))
    requires forall s: Arch :: s.csr.privilege == Csr.MACHINE ==> Handle(call, s) == RaiseThenNext(s, ECALL_MMODE)
    ensures Program(Besm(), mem, nop, call)
  {
  }

  lemma BesmProgram() returns (call: Instr)
    ensures Program(Besm(), MEMORY, NOP, call)
  {
    call := ProgramDecodes();
    ProgramHandles(call);
    ProgramWhen(MEMORY, NOP, call);
  }

  lemma NopIs(s: Arch)
    ensures Decoded(NOP) && NopRuns(NOP, s, Handler(NOP, s))
  {
    assert KindOf(NOP.op) == Immediate;
    assert Handler(NOP, s) == Handlers.ExecAlu(NOP, s);
  }

  lemma CallIs(call: Instr, s: Arch)
    requires Decoded(call) && call.op == ECALL && s.csr.privilege == Csr.MACHINE
    ensures Handler(call, s) == RaiseThenNext(s, ECALL_MMODE)
  {
  }

  /** The block at PC 0. */
  predicate Block0(b: Block, nop: Instr, call: Instr) {
    b[0] == nop && b[1] == call && b[2].op == BB_END
  }

  lemma Assembled(z: Semantics, mem: Mem, nop: Instr, call: Instr, body: Block)
    requires Program(z, mem, nop, call)
    ensures var r := Assemble(z, mem, 0, 0, body); r.Ready? && Block0(r.body, nop, call)
  {
    assert Wrap(0 + 4) == 4;
    var b: Block := body[0 := nop];
    assert Assemble(z, mem, 4, 1, b).Ready?;
  }

  /** Fetching a PC no entry has: the block is built, and the pointer is on its first slot. */
  lemma FetchMissing(z: Semantics, m: Machine, pc: U64, b: Block)
    requires C.Absent(m.cache, pc) && Assemble(z, m.arch.mem, pc, 0, Victim(m, pc)) == Ready(b)
    ensures var f := FetchBB(z, m, pc); f.Arrived? && At0(f.m, pc, b) && f.m.arch == m.arch
  {
    C.NoHit(m.cache, pc);
  }

  /** The contents of the slots a miss overwrites. */
  function Victim(m: Machine, pc: U64): Block
    requires C.Shaped(m.cache)
  {
    var f := C.Lookup(m.cache, pc);
    f.cache.entries[f.index].body
  }

  /** The pointer is on slot 0 of this block. */
  ghost predicate At0(m: Machine, pc: U64, b: Block) {
    Pointing(m) && m.slot == 0 && m.cache.entries[m.way] == C.Entry(pc, b)
  }

  lemma Boots(z: Semantics, m: Machine, nop: Instr, call: Instr) returns (first: Machine)
    requires PowerOn(m) && Program(z, m.arch.mem, nop, call)
    ensures Booted(z, m, first) && first.arch == m.arch
    ensures exists b :: Block0(b, nop, call) && At0(first, 0, b)
  {
    var body := Victim(m, Pc(m.arch));
    Assembled(z, m.arch.mem, nop, call, body);
    var b := Assemble(z, m.arch.mem, 0, 0, body).body;
    FetchMissing(z, m, Pc(m.arch), b);
    first := FetchBB(z, m, Pc(m.arch)).m;
  }

  lemma NoVector(c: Csr.Csrs, id: nat)
    requires c.mtvec == 0 && id < 16
    ensures Csr.TrapTarget(c, id) == 0
  {
    Csr.PextOfZero(Csr.L.mode);
    Csr.PextOfZero(Csr.L.base);
  }

  /** On slot `slot` of the block at PC 0, in machine mode, with no trap vector set. */
  ghost predicate OnBlock(m: Machine, slot: nat, nop: Instr, call: Instr) {
    && C.WellPlaced(m.cache) && Pointing(m) && m.slot == slot
    && m.cache.entries[m.way].pc == 0 && Block0(m.cache.entries[m.way].body, nop, call)
    && m.arch.csr.privilege == Csr.MACHINE && m.arch.csr.mtvec == 0
  }

  /** A trap to a PC the pointer's own entry has: back in that entry, one slot on. */
  lemma StepTrap(z: Semantics, m: Machine, i: Instr, s: Arch, pc: U64)
    requires Pointing(m) && Current(m) == i && Decoded(i) && z.handle(i, m.arch) == Trap(s, pc)
    requires C.WellPlaced(m.cache) && m.cache.entries[m.way].pc == pc != C.POISON
    ensures Runnable(m) && Step(z, m).Go?
    ensures var m' := Step(z, m).m;
            && m'.arch == Retire(s) && m'.slot == 1 && m'.cache == m.cache && m'.way < C.SLOTS
            && m'.cache.entries[m'.way] == m.cache.entries[m.way]
  {
    C.HeldIsFound(m.cache, m.way, m.cache.entries[m.way]);
  }

  lemma NopStep(z: Semantics, m: Machine, nop: Instr, call: Instr, s: Arch)
    requires Program(z, m.arch.mem, nop, call) && OnBlock(m, 0, nop, call) && z.handle(nop, m.arch) == Next(s)
    ensures Runnable(m) && Step(z, m).Go?
    ensures var m' := Step(z, m).m;
            OnBlock(m', 1, nop, call) && m'.arch == Retire(s)
  {
    assert NopRuns(nop, m.arch, Next(s));
    StepNext(z, m, nop, s);
  }

  /** The plain machine at PC 0 executes the first instruction. */
  lemma PlainNop(z: Semantics, s: Arch, nop: Instr, call: Instr)
    requires Program(z, s.mem, nop, call) && Pc(s) == 0
    ensures var o := z.handle(nop, s);
            && o.Next? && PlainStep(z, s) == Ran(Retire(o.s)) && Pc(Retire(o.s)) == 4
            && o.s.mem == s.mem && o.s.csr == s.csr && o.s.retired == s.retired
  {
    assert NopRuns(nop, s, z.handle(nop, s));
    assert Wrap(0 + 4) == 4;
  }

  /** The ECALL in slot 1 traps to PC 0, and the pointer is back on slot 1. */
  lemma CallStep(z: Semantics, m: Machine, nop: Instr, call: Instr)
    requires Program(z, m.arch.mem, nop, call) && OnBlock(m, 1, nop, call)
    ensures Runnable(m) && Step(z, m).Go?
    ensures var m' := Step(z, m).m;
            && OnBlock(m', 1, nop, call) && m'.arch.mem == m.arch.mem && Pc(m'.arch) == 0
            && m'.arch == Retire(Raise(m.arch, ECALL_MMODE))
  {
    NoVector(m.arch.csr, ECALL_MMODE);
    RaiseFacts(m.arch, ECALL_MMODE);
    StepTrap(z, m, call, Raise(m.arch, ECALL_MMODE), 0);
  }

  lemma RaiseFacts(s: Arch, id: nat)
    ensures var t := Raise(s, id);
            && t.csr.privilege == Csr.MACHINE && t.csr.mtvec == s.csr.mtvec && t.mem == s.mem
            && t.retired == s.retired && Pc(t) == Csr.TrapTarget(s.csr, id)
  {
  }

  lemma PlainCall(z: Semantics, s: Arch, nop: Instr, call: Instr)
    requires Program(z, s.mem, nop, call) && Pc(s) == 4 && s.csr.privilege == Csr.MACHINE
    ensures PlainStep(z, s) == Ran(Retire(Raise(s, ECALL_MMODE)))
  {
  }

  /** Three steps of both machines: together for two, apart after the third. */
  lemma ThreeSteps(z: Semantics, m: Machine, nop: Instr, call: Instr)
    returns (m1: Machine, m2: Machine, m3: Machine, s: Arch)
    requires Program(z, m.arch.mem, nop, call) && OnBlock(m, 0, nop, call) && Pc(m.arch) == 0
    ensures Runnable(m) && Step(z, m) == Go(m1) && Runnable(m1) && Step(z, m1) == Go(m2)
    ensures Runnable(m2) && Step(z, m2) == Go(m3)
    ensures PlainStep(z, m.arch) == Ran(m1.arch) && PlainStep(z, m1.arch) == Ran(m2.arch)
    ensures PlainStep(z, m2.arch) == Ran(s)
    ensures Pc(m3.arch) == 0 && Pc(s) == 4 && m3.arch.retired == s.retired == m.arch.retired + 3
  {
    PlainNop(z, m.arch, nop, call);
    NopStep(z, m, nop, call, z.handle(nop, m.arch).s);
    m1 := Step(z, m).m;
    PlainCall(z, m1.arch, nop, call);
    CallStep(z, m1, nop, call);
    RaiseFacts(m1.arch, ECALL_MMODE);
    m2 := Step(z, m1).m;
    CallStep(z, m2, nop, call);
    RaiseFacts(m2.arch, ECALL_MMODE);
    m3 := Step(z, m2).m;
    PlainNop(z, m2.arch, nop, call);
    s := Retire(z.handle(nop, m2.arch).s);
  }

  lemma RunThree(z: Semantics, m: Machine, m1: Machine, m2: Machine, m3: Machine)
    requires Runnable(m) && Step(z, m) == Go(m1) && Runnable(m1) && Step(z, m1) == Go(m2) && Runnable(m2)
    requires Step(z, m2) == Go(m3)
    ensures Run(Threading(z), m, 3) == Go(m3)
  {
    var step := Threading(z);
    assert Run(step, m, 1) == Go(m1);
    assert Run(step, m, 2) == Go(m2);
  }

  lemma PlainThree(z: Semantics, s: Arch, s1: Arch, s2: Arch, s3: Arch)
    requires PlainStep(z, s) == Ran(s1) && PlainStep(z, s1) == Ran(s2) && PlainStep(z, s2) == Ran(s3)
    ensures PlainRun(OneByOne(z), s, 3) == Ran(s3)
  {
    var step := OneByOne(z);
    assert PlainRun(step, s, 1) == Ran(s1);
    assert PlainRun(step, s, 2) == Ran(s2);
  }

  lemma BootsOnBlock(z: Semantics, m: Machine, nop: Instr, call: Instr) returns (first: Machine)
    requires Lawful(z) && PowerOn(m) && Program(z, m.arch.mem, nop, call)
    ensures Booted(z, m, first) && first.arch.mem == m.arch.mem && OnBlock(first, 0, nop, call) && Pc(first.arch) == 0
  {
    first := Boots(z, m, nop, call);
    PowerOnSyncs(z, m, first);
    Placed(z, first);
  }

  lemma Placed(z: Semantics, m: Machine)
    requires Synced(z, m)
    ensures C.WellPlaced(m.cache)
  {
  }

  lemma Part(z: Semantics, first: Machine, nop: Instr, call: Instr)
    requires Program(z, first.arch.mem, nop, call) && OnBlock(first, 0, nop, call) && Pc(first.arch) == 0
    ensures Run(Threading(z), first, 3).Go? && PlainRun(OneByOne(z), first.arch, 3).Ran?
    ensures var r, p := Run(Threading(z), first, 3).m.arch, PlainRun(OneByOne(z), first.arch, 3).s;
            r.retired == p.retired == first.arch.retired + 3 && Pc(r) == 0 && Pc(p) == 4
  {
    var m1, m2, m3, s := ThreeSteps(z, first, nop, call);
    RunThree(z, first, m1, m2, m3);
    PlainThree(z, first.arch, m1.arch, m2.arch, s);
  }

  /** From power-on, three instructions into this program, the simulator's PC is 0 where
      fetch-decode-execute has reached 4: a trap to a non-jump breaks the refinement. */
  lemma TrapsBreakRefinement(m: Machine) returns (first: Machine)
    requires PowerOn(m) && m.arch.mem == MEMORY
    ensures Booted(Besm(), m, first)
    ensures Run(Threading(Besm()), first, 3).Go? && PlainRun(OneByOne(Besm()), first.arch, 3).Ran?
    ensures var r, p := Run(Threading(Besm()), first, 3).m.arch, PlainRun(OneByOne(Besm()), first.arch, 3).s;
            r.retired == p.retired == first.arch.retired + 3 && Pc(r) == 0 && Pc(p) == 4
  {
    BesmLawful();
    var call := BesmProgram();
    first := BootsOnBlock(Besm(), m, NOP, call);
    Part(Besm(), first, NOP, call);
  }

  // ---------------------------------------------------------------- self-modifying code

  /** `sw x0, 4(x0)`. */
  const SW4 := Instr(SW, 0, 0, 0, 4)

  /** The store at PC 0 overwrites the no-op at PC 4; an ECALL ends the block. */
  const PATCHED := Mem([Range(0, 0x1000)], map[0 := 0x23, 1 := 0x22, 4 := 0x13, 8 := 0x73])

  /** What matters of a program that patches its own second word from `mem` to `mem'`. */
  ghost predicate Patches(z: Semantics, mem: Mem, mem': Mem, sw: Instr, nop: Instr, call: Instr, dead: Instr) {
    && z.decode(mem, 0) == Code(sw) && Decoded(sw) && !IsJump(sw.op)
    && z.decode(mem, 4) == Code(nop) && Decoded(nop) && !IsJump(nop.op)
    && z.decode(mem, 8) == Code(call) && IsJump(call.op)
    && z.decode(mem', 4) == Code(dead)
    && (forall s: Arch :: s.mem == mem ==> StoreRuns(mem', s, z.handle(sw, s)))
    && (forall s :: NopRuns(nop, s, z.handle(nop, s)))
    && (forall s :: z.handle(dead, s).TrapStop?)
  }

  ghost predicate StoreRuns(mem': Mem, s: Arch, o: Outcome) {
    match o
    case Next(t) => t.csr == s.csr && t.mem == mem' && t.retired == s.retired && Pc(t) == Wrap(Pc(s) + 4)
    case _ => false
  }

  function PatchedMemory(): Mem {
    PATCHED.(bytes := StoreLE(PATCHED.bytes, 4, 4, 0))
  }

  lemma SwWord(word: Decoder.Word)
    requires word == 0x2223
    ensures Decoder.Decode(word) == SW4
  {
    assert Decoder.Opcode(word) == 0x23 && Decoder.Func3(word) == 2 && Decoder.Rd(word) == 4;
    assert Decoder.Func7(word) == 0;
    assert Decoder.Rs1(word) == 0 && Decoder.Rs2(word) == 0;
    assert Decoder.Matrix(0x23, 2) == Decoder.Cell(Decoder.S, SW);
  }

  lemma DeadWord(word: Decoder.Word)
    requires word == 0
    ensures Decoder.Decode(word) == Instr(INV_OP, 0, 0, 0, 0)
  {
    assert Decoder.Opcode(word) == 0 && Decoder.Func3(word) == 0;
    assert Decoder.Matrix(0, 0) == Decoder.Cell(Decoder.ILLEGAL, INV_OP);
  }

  lemma PatchedWords()
    ensures LoadLE(PATCHED.bytes, 0, 4) == 0x2223 && LoadLE(PATCHED.bytes, 4, 4) == 0x13
    ensures LoadLE(PATCHED.bytes, 8, 4) == 0x73 && LoadLE(PatchedMemory().bytes, 4, 4) == 0
  {
    var bytes := PATCHED.bytes;
    HalfWord(bytes, 0, 0x23, 0x22);
    Word(bytes, 4, 0x13);
    Word(bytes, 8, 0x73);
    LoadAfterStore(bytes, 4, 4, 0);
  }

  /** `sw x0, a(x0)` at a whole word of the one device. */
  lemma ZeroStored(i: Instr, s: Arch, mem: Mem, mem': Mem, a: nat)
    requires i.op == SW && i.rs1 == 0 && i.rs2 == 0 && Decoded(i) && s.mem == mem && Address(i, s) == a
    requires |mem.devices| == 1 && mem.devices[0].left == 0 && a < mem.devices[0].right && Multiple(a, 4)
    requires mem' == mem.(bytes := StoreLE(mem.bytes, a, 4, 0))
    ensures StoreRuns(mem', s, Handler(i, s))
  {
    StoreHandled(i, s);
    assert Scan(mem.devices, a) == 0;
    assert Store(mem, a, 4, 0) == Done(mem');
  }

  lemma StoreIs(s: Arch)
    requires s.mem == PATCHED
    ensures Decoded(SW4) && StoreRuns(PatchedMemory(), s, Handler(SW4, s))
  {
    assert Address(SW4, s) == 4;
    MultipleIsMod(4, 4);
    ZeroStored(SW4, s, PATCHED, PatchedMemory(), 4);
  }

  const DEAD := Instr(INV_OP, 0, 0, 0, 0)

  lemma PatchDecodes() returns (call: Instr)
    ensures DecodeAt(PATCHED, 0) == Code(SW4) && DecodeAt(PATCHED, 4) == Code(NOP)
    ensures DecodeAt(PATCHED, 8) == Code(call) && call.op == ECALL
    ensures DecodeAt(PatchedMemory(), 4) == Code(DEAD)
  {
    PatchedWords();
    SwWord(0x2223);
    Decoded0();
    Decoded4();
    DeadWord(0);
    MultipleIsMod(4, 4);
    MultipleIsMod(8, 4);
    call := Decoder.Decode(0x73);
    DecodesTo(PATCHED, 0, 0x2223, SW4);
    DecodesTo(PATCHED, 4, 0x13, NOP);
    DecodesTo(PATCHED, 8, 0x73, call);
    DecodesTo(PatchedMemory(), 4, 0, DEAD);
  }

  lemma PatchHandles()
    ensures forall s: Arch :: s.mem == PATCHED ==> StoreRuns(PatchedMemory(), s, Handle(SW4, s))
    ensures forall s :: NopRuns(NOP, s, Handle(NOP, s))
    ensures forall s :: Handle(DEAD, s).TrapStop?
  {
    forall s: Arch | s.mem == PATCHED
      ensures StoreRuns(PatchedMemory(), s, Handle(SW4, s))
    {
      StoreIs(s);
    }
    forall s
      ensures NopRuns(NOP, s, Handle(NOP, s)) && Handle(DEAD, s).TrapStop?
    {
      NopIs(s);
      DeadIs(s);
    }
  }

  lemma BesmPatches() returns (call: Instr)
    ensures Patches(Besm(), PATCHED, PatchedMemory(), SW4, NOP, call, DEAD)
  {
    call := PatchDecodes();
    PatchHandles();
    PatchesWhen(PATCHED, PatchedMemory(), SW4, NOP, call, DEAD);
  }

  lemma PatchesWhen(mem: Mem, mem': Mem, sw: Instr, nop: Instr, call: Instr, dead: Instr)
    requires DecodeAt(mem, 0) == Code(sw) && Decoded(sw) && !IsJump(sw.op)
    requires DecodeAt(mem, 4) == Code(nop) && Decoded(nop) && !IsJump(nop.op)
    requires DecodeAt(mem, 8) == Code(call) && IsJump(call.op) && DecodeAt(mem', 4) == Code(dead)
    requires forall s: Arch :: s.mem == mem ==> StoreRuns(mem', s, Handle(sw, s))
    requires forall s :: NopRuns(nop, s, Handle(nop, s))
    requires forall s :: Handle(dead, s).TrapStop?
    ensures Patches(Besm(), mem, mem', sw, nop, call, dead)
  {
  }

  lemma DeadIs(s: Arch)
    ensures Decoded(DEAD) && Handler(DEAD, s).TrapStop?
  {
  }

  lemma PatchAssembled(z: Semantics, mem: Mem, sw: Instr, nop: Instr, call: Instr, body: Block)
    requires z.decode(mem, 0) == Code(sw) && !IsJump(sw.op) && z.decode(mem, 4) == Code(nop) && !IsJump(nop.op)
    requires z.decode(mem, 8) == Code(call) && IsJump(call.op)
    ensures var r := Assemble(z, mem, 0, 0, body); r.Ready? && r.body[0] == sw && r.body[1] == nop
  {
    assert Wrap(0 + 4) == 4 && Wrap(4 + 4) == 8;
    var b: Block := body[0 := sw];
    var c: Block := b[1 := nop];
    assert Assemble(z, mem, 8, 2, c).Ready?;
    assert Assemble(z, mem, 4, 1, b) == Assemble(z, mem, 8, 2, c);
  }

  lemma PatchBoots(z: Semantics, m: Machine, mem': Mem, sw: Instr, nop: Instr, call: Instr, dead: Instr)
    returns (first: Machine)
    requires PowerOn(m) && Patches(z, m.arch.mem, mem', sw, nop, call, dead)
    ensures Booted(z, m, first) && first.arch == m.arch && Pointing(first) && first.slot == 0
    ensures var b := first.cache.entries[first.way].body; b[0] == sw && b[1] == nop
  {
    var body := Victim(m, Pc(m.arch));
    PatchAssembled(z, m.arch.mem, sw, nop, call, body);
    var b := Assemble(z, m.arch.mem, 0, 0, body).body;
    FetchMissing(z, m, Pc(m.arch), b);
    first := FetchBB(z, m, Pc(m.arch)).m;
  }

  lemma PatchSteps(z: Semantics, m: Machine, mem': Mem, sw: Instr, nop: Instr, call: Instr, dead: Instr)
    returns (m1: Machine, m2: Machine)
    requires Patches(z, m.arch.mem, mem', sw, nop, call, dead) && Pointing(m) && m.slot == 0 && Pc(m.arch) == 0
    requires var b := m.cache.entries[m.way].body; b[0] == sw && b[1] == nop
    ensures Runnable(m) && Step(z, m) == Go(m1) && Runnable(m1) && Step(z, m1) == Go(m2)
    ensures PlainStep(z, m.arch) == Ran(m1.arch) && PlainStep(z, m1.arch).Ended?
    ensures m2.arch.retired == m.arch.retired + 2
  {
    var o := z.handle(sw, m.arch);
    assert StoreRuns(mem', m.arch, o);
    StepNext(z, m, sw, o.s);
    m1 := Step(z, m).m;
    assert Pc(m1.arch) == 4;
    var p := z.handle(nop, m1.arch);
    assert NopRuns(nop, m1.arch, p);
    StepNext(z, m1, nop, p.s);
    m2 := Step(z, m1).m;
  }

  /** From power-on, after a store into the next word, the simulator runs the no-op it had
      cached where fetch-decode-execute meets the illegal instruction stored there and ends. */
  lemma StoresBreakRefinement(m: Machine) returns (first: Machine)
    requires PowerOn(m) && m.arch.mem == PATCHED
    ensures Booted(Besm(), m, first)
    ensures Run(Threading(Besm()), first, 2).Go? && PlainRun(OneByOne(Besm()), first.arch, 2).Ended?
  {
    var call := BesmPatches();
    first := PatchBoots(Besm(), m, PatchedMemory(), SW4, NOP, call, DEAD);
    var m1, m2 := PatchSteps(Besm(), first, PatchedMemory(), SW4, NOP, call, DEAD);
    RunTwo(Besm(), first, m1, m2);
  }

  lemma RunTwo(z: Semantics, m: Machine, m1: Machine, m2: Machine)
    requires Runnable(m) && Step(z, m) == Go(m1) && Runnable(m1) && Step(z, m1) == Go(m2)
    requires PlainStep(z, m.arch) == Ran(m1.arch)
    ensures Run(Threading(z), m, 2) == Go(m2) && PlainRun(OneByOne(z), m.arch, 2) == PlainStep(z, m1.arch)
  {
    assert Run(Threading(z), m, 1) == Go(m1);
    assert PlainRun(OneByOne(z), m.arch, 1) == Ran(m1.arch);
  }

  // ---------------------------------------------------------------- patching what never runs

  /** `sw x0, 8(x0)`. */
  const SW8 := Instr(SW, 0, 0, 0, 8)

  /** The store at PC 0 overwrites the no-op at PC 8, behind an EBREAK. */
  const AHEAD := Mem([Range(0, 0x1000)], map[0 := 0x23, 1 := 0x24, 4 := 0x73, 6 := 0x10, 8 := 0x13, 12 := 0x73])

  function AheadPatched(): Mem {
    AHEAD.(bytes := StoreLE(AHEAD.bytes, 8, 4, 0))
  }

  /** The word at `a` is this instruction, a jump or not. */
  ghost predicate Holds(z: Semantics, mem: Mem, a: nat, i: Instr, jumps: bool) {
    match z
    case Semantics(decode, _) => decode(mem, a) == Code(i) && Decoded(i) && IsJump(i.op) == jumps
  }

  ghost predicate Changes(z: Semantics, mem: Mem, mem': Mem, a: nat) {
    match z
    case Semantics(decode, _) => decode(mem', a) != decode(mem, a)
  }

  /** What matters of the words of a program that patches its third and stops at its second. */
  ghost predicate AheadDecoded(
    z: Semantics, mem: Mem, mem': Mem, sw: Instr, brk: Instr, nop: Instr, call: Instr)
  {
    && Holds(z, mem, 0, sw, false) && Holds(z, mem, 4, brk, false) && Holds(z, mem, 8, nop, false)
    && Holds(z, mem, 12, call, true) && Holds(z, mem', 4, brk, false) && Changes(z, mem, mem', 8)
  }

  /** And of its handlers. */
  ghost predicate AheadHandled(z: Semantics, mem: Mem, mem': Mem, sw: Instr, brk: Instr) {
    match z
    case Semantics(_, handle) =>
      && (forall s: Arch :: s.mem == mem ==> StoreRuns(mem', s, handle(sw, s)))
      && (forall s :: handle(brk, s) == Stop(s))
  }

  ghost predicate PatchesAhead(z: Semantics, mem: Mem, mem': Mem, sw: Instr, brk: Instr, nop: Instr, call: Instr) {
    AheadDecoded(z, mem, mem', sw, brk, nop, call) && AheadHandled(z, mem, mem', sw, brk)
  }

  lemma Sw8Word(word: Decoder.Word)
    requires word == 0x2423
    ensures Decoder.Decode(word) == SW8
  {
    assert Decoder.Opcode(word) == 0x23 && Decoder.Func3(word) == 2 && Decoder.Rd(word) == 8;
    assert Decoder.Func7(word) == 0;
    assert Decoder.Rs1(word) == 0 && Decoder.Rs2(word) == 0;
    assert Decoder.Matrix(0x23, 2) == Decoder.Cell(Decoder.S, SW);
  }

  lemma BreakBytes(bytes: Bytes, a: nat)
    requires At(bytes, a) == 0x73 && At(bytes, a + 1) == 0 && At(bytes, a + 2) == 0x10 && At(bytes, a + 3) == 0
    ensures LoadLE(bytes, a, 4) == 0x10_0073
  {
    assert LoadLE(bytes, a + 3, 1) == 0;
    assert LoadLE(bytes, a + 2, 2) == 0x10;
    assert LoadLE(bytes, a + 1, 3) == 0x1000;
  }

  lemma AheadWords()
    ensures LoadLE(AHEAD.bytes, 0, 4) == 0x2423 && LoadLE(AHEAD.bytes, 4, 4) == 0x10_0073
    ensures LoadLE(AHEAD.bytes, 8, 4) == 0x13 && LoadLE(AHEAD.bytes, 12, 4) == 0x73
  {
    HalfWord(AHEAD.bytes, 0, 0x23, 0x24);
    BreakBytes(AHEAD.bytes, 4);
    Word(AHEAD.bytes, 8, 0x13);
    Word(AHEAD.bytes, 12, 0x73);
  }

  lemma AheadPatchedWords()
    ensures LoadLE(AheadPatched().bytes, 4, 4) == LoadLE(AHEAD.bytes, 4, 4) && LoadLE(AheadPatched().bytes, 8, 4) == 0
  {
    LoadAfterStore(AHEAD.bytes, 8, 4, 0);
    LoadBeside(AHEAD.bytes, 8, 4, 0, 4, 4);
  }

  /** The program's words, before and after the store. */
  ghost predicate AheadText(mem: Mem, mem': Mem) {
    && |mem.devices| == 1 && mem.devices[0].left == 0 && mem.devices[0].right > 12
    && mem' == mem.(bytes := StoreLE(mem.bytes, 8, 4, 0))
    && LoadLE(mem.bytes, 0, 4) == 0x2423 && LoadLE(mem.bytes, 4, 4) == 0x10_0073
    && LoadLE(mem.bytes, 8, 4) == 0x13 && LoadLE(mem.bytes, 12, 4) == 0x73
    && LoadLE(mem'.bytes, 4, 4) == 0x10_0073 && LoadLE(mem'.bytes, 8, 4) == 0
  }

  lemma AheadIsText()
    ensures AheadText(AHEAD, AheadPatched())
  {
    AheadWords();
    AheadPatchedWords();
  }

  lemma AheadSlot0(mem: Mem, mem': Mem)
    requires AheadText(mem, mem')
    ensures Holds(Besm(), mem, 0, SW8, false)
  {
    Sw8Word(0x2423);
    DecodesTo(mem, 0, 0x2423, SW8);
  }

  lemma BreakAt(mem: Mem, a: nat, brk: Instr)
    requires |mem.devices| == 1 && mem.devices[0].left == 0 && a < mem.devices[0].right && Multiple(a, 4)
    requires LoadLE(mem.bytes, a, 4) == 0x10_0073 && Decoder.Decode(0x10_0073) == brk
    ensures Holds(Besm(), mem, a, brk, false) && brk.op == EBREAK && Decoded(brk)
  {
    BreakWord(0x10_0073);
    Decoder.EveryWordDecodes(0x10_0073);
    DecodesTo(mem, a, 0x10_0073, brk);
  }

  lemma AheadSlot4(mem: Mem, mem': Mem) returns (brk: Instr)
    requires AheadText(mem, mem')
    ensures Holds(Besm(), mem, 4, brk, false) && Holds(Besm(), mem', 4, brk, false)
    ensures brk.op == EBREAK && Decoded(brk)
  {
    brk := Decoder.Decode(0x10_0073);
    MultipleIsMod(4, 4);
    BreakAt(mem, 4, brk);
    BreakAt(mem', 4, brk);
  }

  /** The slot the store changes. */
  lemma AheadSlot8(mem: Mem, mem': Mem)
    requires AheadText(mem, mem')
    ensures Holds(Besm(), mem, 8, NOP, false) && Changes(Besm(), mem, mem', 8)
  {
    Decoded0();
    DeadWord(0);
    MultipleIsMod(8, 4);
    DecodesTo(mem, 8, 0x13, NOP);
    DecodesTo(mem', 8, 0, DEAD);
  }

  lemma AheadSlot12(mem: Mem, mem': Mem) returns (call: Instr)
    requires AheadText(mem, mem')
    ensures Holds(Besm(), mem, 12, call, true)
  {
    CallWord(0x73);
    call := Decoder.Decode(0x73);
    Decoder.EveryWordDecodes(0x73);
    MultipleIsMod(12, 4);
    DecodesTo(mem, 12, 0x73, call);
  }

  lemma AheadDecodes(mem: Mem, mem': Mem) returns (brk: Instr, call: Instr)
    requires AheadText(mem, mem')
    ensures AheadDecoded(Besm(), mem, mem', SW8, brk, NOP, call) && brk.op == EBREAK && Decoded(brk)
  {
    AheadSlot0(mem, mem');
    brk := AheadSlot4(mem, mem');
    AheadSlot8(mem, mem');
    call := AheadSlot12(mem, mem');
  }

  lemma Store8Is(s: Arch, mem: Mem, mem': Mem)
    requires s.mem == mem && mem' == mem.(bytes := StoreLE(mem.bytes, 8, 4, 0))
    requires |mem.devices| == 1 && mem.devices[0].left == 0 && mem.devices[0].right > 8
    ensures Decoded(SW8) && StoreRuns(mem', s, Handler(SW8, s))
  {
    assert Address(SW8, s) == 8;
    MultipleIsMod(8, 4);
    ZeroStored(SW8, s, mem, mem', 8);
  }

  lemma AheadHandles(mem: Mem, mem': Mem, brk: Instr)
    requires AheadText(mem, mem') && brk.op == EBREAK && Decoded(brk)
    ensures AheadHandled(Besm(), mem, mem', SW8, brk)
  {
    forall s: Arch | s.mem == mem
      ensures StoreRuns(mem', s, Handle(SW8, s))
    {
      Store8Is(s, mem, mem');
    }
    forall s
      ensures Handle(brk, s) == Stop(s)
    {
      BreakIs(brk, s);
    }
  }

  lemma BesmPatchesAhead(mem: Mem, mem': Mem) returns (brk: Instr, call: Instr)
    requires AheadText(mem, mem')
    ensures PatchesAhead(Besm(), mem, mem', SW8, brk, NOP, call)
  {
    brk, call := AheadDecodes(mem, mem');
    AheadHandles(mem, mem', brk);
  }

  predicate AheadBlock(b: Block, sw: Instr, brk: Instr, nop: Instr, call: Instr) {
    b[0] == sw && b[1] == brk && b[2] == nop && b[3] == call && b[4].op == BB_END
  }

  lemma AheadAssembled(z: Semantics, mem: Mem, sw: Instr, brk: Instr, nop: Instr, call: Instr, body: Block)
    requires z.decode(mem, 0) == Code(sw) && !IsJump(sw.op) && z.decode(mem, 4) == Code(brk) && !IsJump(brk.op)
    requires z.decode(mem, 8) == Code(nop) && !IsJump(nop.op) && z.decode(mem, 12) == Code(call) && IsJump(call.op)
    ensures var r := Assemble(z, mem, 0, 0, body); r.Ready? && AheadBlock(r.body, sw, brk, nop, call)
  {
    assert Wrap(0 + 4) == 4 && Wrap(4 + 4) == 8 && Wrap(8 + 4) == 12;
    var b: Block := body[0 := sw];
    var c: Block := b[1 := brk];
    var d: Block := c[2 := nop];
    assert Assemble(z, mem, 12, 3, d).Ready?;
    assert Assemble(z, mem, 8, 2, c) == Assemble(z, mem, 12, 3, d);
    assert Assemble(z, mem, 4, 1, b) == Assemble(z, mem, 8, 2, c);
  }

  lemma AheadBoots(z: Semantics, m: Machine, mem': Mem, sw: Instr, brk: Instr, nop: Instr, call: Instr)
    returns (first: Machine, b: Block)
    requires PowerOn(m) && PatchesAhead(z, m.arch.mem, mem', sw, brk, nop, call)
    ensures Booted(z, m, first) && first.arch == m.arch && At0(first, 0, b) && AheadBlock(b, sw, brk, nop, call)
  {
    var body := Victim(m, Pc(m.arch));
    AheadAssembled(z, m.arch.mem, sw, brk, nop, call, body);
    b := Assemble(z, m.arch.mem, 0, 0, body).body;
    FetchMissing(z, m, Pc(m.arch), b);
    first := FetchBB(z, m, Pc(m.arch)).m;
  }

  /** The store changes what a cached word decodes to. */
  lemma AheadNotExact(z: Semantics, m: Machine, mem': Mem, sw: Instr, brk: Instr, nop: Instr, call: Instr, b: Block)
    requires PatchesAhead(z, m.arch.mem, mem', sw, brk, nop, call) && At0(m, 0, b) && AheadBlock(b, sw, brk, nop, call)
    ensures Runnable(m) && !Exact(z, m)
  {
    assert EndsAt(b, 4);
    assert CodeSlot(b, 2);
    assert Filled(m.cache, m.way);
    assert SlotAddress(0, 2) == 8;
    assert StoreRuns(mem', m.arch, z.handle(sw, m.arch));
  }

  /** Yet both machines run the store and the EBREAK. */
  lemma AheadSteps(z: Semantics, m: Machine, mem': Mem, sw: Instr, brk: Instr, nop: Instr, call: Instr, b: Block)
    returns (m1: Machine)
    requires PatchesAhead(z, m.arch.mem, mem', sw, brk, nop, call) && At0(m, 0, b) && AheadBlock(b, sw, brk, nop, call)
    requires Pc(m.arch) == 0
    ensures Runnable(m) && Honest(z, m) && Step(z, m) == Go(m1)
    ensures Runnable(m1) && Honest(z, m1) && Step(z, m1) == Finished(m1.arch)
  {
    var o := z.handle(sw, m.arch);
    assert StoreRuns(mem', m.arch, o);
    StepNext(z, m, sw, o.s);
    m1 := Step(z, m).m;
    assert Pc(m1.arch) == 4;
  }

  lemma TwoDispatches(z: Semantics, m: Machine, m1: Machine, s: Arch)
    requires Runnable(m) && Step(z, m) == Go(m1) && Runnable(m1) && Step(z, m1) == Finished(s)
    ensures Run(Threading(z), m, 1) == Go(m1) && Run(Threading(z), m, 2) == Finished(s)
  {
    RunNext(Threading(z), m, m, 0, 1);
    RunNext(Threading(z), m, m1, 1, 2);
  }

  lemma HonestTwo(z: Semantics, m: Machine, m1: Machine, s: Arch, n: nat)
    requires HonestNow(z, Go(m)) && HonestNow(z, Go(m1))
    requires Run(Threading(z), m, 1) == Go(m1) && Run(Threading(z), m, 2) == Finished(s)
    ensures HonestRun(z, Threading(z), m, n)
  {
    forall k: nat | k < n
      ensures HonestNow(z, Run(Threading(z), m, k))
    {
      if k >= 2 {
        EndedStays(Threading(z), m, 2, k);
      }
    }
  }

  lemma AheadRuns(z: Semantics, m: Machine, mem': Mem, sw: Instr, brk: Instr, nop: Instr, call: Instr, n: nat)
    returns (first: Machine, s: Arch)
    requires PowerOn(m) && PatchesAhead(z, m.arch.mem, mem', sw, brk, nop, call)
    ensures Booted(z, m, first) && first.arch == m.arch && Runnable(first) && !Exact(z, first)
    ensures HonestRun(z, Threading(z), first, n) && HonestRun(z, Threading(z), first, 2)
    ensures Run(Threading(z), first, 2) == Finished(s)
  {
    var b;
    first, b := AheadBoots(z, m, mem', sw, brk, nop, call);
    AheadNotExact(z, first, mem', sw, brk, nop, call, b);
    var m1 := AheadSteps(z, first, mem', sw, brk, nop, call, b);
    s := m1.arch;
    TwoDispatches(z, first, m1, s);
    HonestTwo(z, first, m1, s, n);
    HonestTwo(z, first, m1, s, 2);
  }

  lemma EndsAlike(z: Semantics, m: Machine, first: Machine, n: nat, s: Arch)
    requires Lawful(z) && Booted(z, m, first) && HonestRun(z, Threading(z), first, n)
    requires Run(Threading(z), first, n) == Finished(s)
    ensures PlainEnds(OneByOne(z), m.arch, Ended(s))
  {
    PowerOnSyncs(z, m, first);
    RunIsShadowed(z, Threading(z), OneByOne(z), first, n);
  }

  /** From power-on a store into cached code that never runs: the step is not exact, but every
      dispatch, however long the run, is of what memory holds, and so both machines end alike. */
  lemma PatchingAheadIsHarmless(m: Machine, n: nat) returns (first: Machine, s: Arch)
    requires PowerOn(m) && m.arch.mem == AHEAD
    ensures Booted(Besm(), m, first) && Runnable(first) && !Exact(Besm(), first)
    ensures HonestRun(Besm(), Threading(Besm()), first, n)
    ensures Run(Threading(Besm()), first, 2) == Finished(s) && PlainEnds(OneByOne(Besm()), m.arch, Ended(s))
  {
    AheadIsText();
    var brk, call := BesmPatchesAhead(AHEAD, AheadPatched());
    BesmLawful();
    first, s := AheadRuns(Besm(), m, AheadPatched(), SW8, brk, NOP, call, n);
    EndsAlike(Besm(), m, first, 2, s);
  }

  // ---------------------------------------------------------------- reading ahead

  /** One mapped word, an EBREAK: not a jump, so assembly reads on. */
  const LAST := Mem([Range(0, 4)], map[0 := 0x73, 2 := 0x10])

  lemma BreakWord(word: Decoder.Word)
    requires word == 0x10_0073
    ensures Decoder.Decode(word).op == EBREAK
  {
    assert Decoder.Opcode(word) == 0x73 && Decoder.Func3(word) == 0 && Decoder.ImmI(word) == 1;
    assert Decoder.Rd(word) == 0 && Decoder.Rs1(word) == 0;
    assert Decoder.Matrix(0x73, 0) == Decoder.Cell(Decoder.I, INV_OP);
  }

  lemma LastDecodes() returns (i: Instr)
    ensures DecodeAt(LAST, 0) == Code(i) && i.op == EBREAK && Decoded(i) && DecodeAt(LAST, 4) == Missing
  {
    BreakBytes(LAST.bytes, 0);
    BreakWord(0x10_0073);
    i := Decoder.Decode(0x10_0073);
    Decoder.EveryWordDecodes(0x10_0073);
    DecodesTo(LAST, 0, 0x10_0073, i);
    assert Scan(LAST.devices, 4) == 1;
  }

  lemma CannotRead(z: Semantics, mem: Mem, pc: U64, next: U64, i: Instr)
    requires z.decode(mem, pc) == Code(i) && !IsJump(i.op) && z.decode(mem, next) == Missing
    requires next == SlotAddress(pc, 1)
    ensures !Readable(z, mem, pc)
  {
    StartSlot(pc);
    UnreadableSecond(z, mem, pc);
  }

  lemma BreakIs(i: Instr, s: Arch)
    requires i.op == EBREAK && Decoded(i)
    ensures Handler(i, s) == Stop(s)
  {
  }

  /** A hart whose first word is no jump and whose second cannot be fetched does not boot. */
  lemma DoesNotBoot(z: Semantics, m: Machine, i: Instr)
    requires PowerOn(m) && z.decode(m.arch.mem, 0) == Code(i) && !IsJump(i.op) && z.decode(m.arch.mem, 4) == Missing
    ensures C.Shaped(m.cache) && FetchBB(z, m, Pc(m.arch)) == FetchFault
  {
    assert SlotAddress(0, 1) == 4;
    CannotRead(z, m.arch.mem, 0, 4, i);
    BootsIff(z, m);
  }

  lemma PlainBreak(z: Semantics, s: Arch, i: Instr)
    requires Pc(s) == 0 && z.decode(s.mem, 0) == Code(i) && z.handle(i, s) == Stop(s)
    ensures PlainStep(z, s) == Ended(s)
  {
  }

  /** From power-on on this memory the simulator faults before its first instruction, where
      fetch-decode-execute runs it and stops: reading ahead breaks the refinement. */
  lemma ReadingAheadBreaksRefinement(m: Machine)
    requires PowerOn(m) && m.arch.mem == LAST
    ensures C.Shaped(m.cache) && FetchBB(Besm(), m, Pc(m.arch)) == FetchFault
    ensures PlainStep(Besm(), m.arch) == Ended(m.arch)
  {
    var i := LastDecodes();
    BreakIs(i, m.arch);
    DoesNotBoot(Besm(), m, i);
    PlainBreak(Besm(), m.arch, i);
  }

  // ---------------------------------------------------------------- off a whole word

  /** `jal x0, 6`. */
  const JAL6 := Instr(JAL, 0, 0, 0, 6)

  /** A jump to PC 6, over a no-op at PC 4. */
  const ASKEW := Mem([Range(0, 0x1000)], Small(StoreLE(map[], 0, 4, 0x60_006F), 4, 0x13))

  /** A small word stored. */
  function Small(bytes: Bytes, a: nat, b: Byte): Bytes {
    bytes[a := b][a + 1 := 0][a + 2 := 0][a + 3 := 0]
  }

  lemma StoreSmall(bytes: Bytes, a: nat, b: Byte)
    ensures StoreLE(bytes, a, 4, b) == Small(bytes, a, b)
  {
    var x: Bytes := bytes[a := b];
    var y: Bytes := x[a + 1 := 0];
    assert StoreLE(y, a + 2, 2, 0) == y[a + 2 := 0][a + 3 := 0];
    assert StoreLE(x, a + 1, 3, 0) == StoreLE(y, a + 2, 2, 0);
  }

  lemma JalWord(word: Decoder.Word)
    requires word == 0x60_006F
    ensures Decoder.Decode(word) == JAL6
  {
    assert Decoder.Opcode(word) == 0x6F && Decoder.Rd(word) == 0;
    assert Decoder.Matrix(0x6F, Decoder.Func3(word)) == Decoder.Cell(Decoder.J, JAL);
    assert Decoder.ImmJ(word) == 6;
  }

  lemma AskewWords()
    ensures LoadLE(ASKEW.bytes, 0, 4) == 0x60_006F && LoadLE(ASKEW.bytes, 4, 4) == 0x13
    ensures LoadLE(ASKEW.bytes, 6, 4) == 0
  {
    var base := StoreLE(map[], 0, 4, 0x60_006F);
    LoadAfterStore(map[], 0, 4, 0x60_006F);
    LoadSame(base, ASKEW.bytes, 0, 4);
    StoreAt(map[], 0, 4, 0x60_006F, 8);
    StoreAt(map[], 0, 4, 0x60_006F, 9);
    Word(ASKEW.bytes, 4, 0x13);
    Word(ASKEW.bytes, 6, 0);
  }

  lemma JalIs(s: Arch)
    requires Pc(s) == 0
    ensures Decoded(JAL6) && Handler(JAL6, s).Next? && Pc(Handler(JAL6, s).s) == 6
  {
    EvenIsMod(6);
    SixOn(0);
    assert Handler(JAL6, s) == ExecJal(JAL6, s);
  }

  lemma SixOn(pc: U64)
    requires pc == 0
    ensures Sext20(6) == 6 && Wrap(pc + 6) == 6
  {
  }

  lemma AskewDecodes()
    ensures DecodeAt(ASKEW, 0) == Code(JAL6)
  {
    AskewWords();
    JalWord(0x60_006F);
    DecodesTo(ASKEW, 0, 0x60_006F, JAL6);
  }

  lemma SixIsOff()
    ensures !P.Fetchable(ASKEW, 6)
  {
    assert Scan(ASKEW.devices, 6) == 0;
    MultipleIsMod(6, 4);
  }

  lemma AskewHit()
    ensures P.HitWord(ASKEW.bytes, 0, 0x1000, 6) == P.Word(0x13) && LoadLE(ASKEW.bytes, 6, 4) == 0
  {
    AskewWords();
    assert P.Skip(0, 6) == 4;
  }

  /** The first instruction takes the PC to 6.  A prefetcher whose window opened at 0 there hits,
      and, its assertion compiled out, returns the no-op at 4 where memory holds the word 0, an
      illegal instruction, at 6: fetches must be at whole words. */
  lemma MisalignedJumpBreaksFetching(s: Arch)
    requires Pc(s) == 0 && s.mem == ASKEW
    ensures PlainStep(Besm(), s).Ran? && Pc(PlainStep(Besm(), s).s) == 6 && !P.Fetchable(ASKEW, 6)
    ensures P.HitWord(ASKEW.bytes, 0, 0x1000, 6) == P.Word(0x13) && LoadLE(ASKEW.bytes, 6, 4) == 0
    ensures Decoder.Decode(0x13) == NOP && Decoder.Decode(0).op == INV_OP
  {
    AskewDecodes();
    SixIsOff();
    AskewHit();
    JalIs(s);
    Decoded0();
    DeadWord(0);
  }

  lemma OnePage()
    ensures PageAllocator.Accepted(0x1000, 0x1000, 0x1000) && PageAllocator.Fits(0x1000, 0x1000, 0x1000)
    ensures Multiple(0x1000, 8) && Multiple(0x1000, 0x1000) && Multiple(0x1000, 4)
  {
    PageAllocator.Powers();
    PageAllocator.Is2PowIff(0x1000);
    assert PageAllocator.Accepted(0x1000, 0x1000, 0x1000);
    PageAllocator.FitsIff(0x1000, 0x1000, 0x1000);
    MultipleIsMod(0x1000, 8);
    MultipleIsMod(0x1000, 4);
  }

  method MappedRam(page: nat) returns (ram: Ram.Ram)
    requires PageAllocator.Accepted(page, page, page) && PageAllocator.Fits(page, page, page)
    ensures ram.Valid() && fresh(ram.Repr) && ram.bytes == map[] && ram.pageSize == page && 0 in ram.pagemap
  {
    ram := new Ram.Ram(page, page, page, page);
    assert ram.Placed() && ram.allocator.Back() <= ram.allocator.Repr;
    var _ := ram.TouchPage(0);
  }

  /** A RAM with its first page mapped, and a word and a small word stored there. */
  method TwoWords(page: nat, word: nat, small: Byte) returns (ram: Ram.Ram)
    requires PageAllocator.Accepted(page, page, page) && PageAllocator.Fits(page, page, page) && Multiple(page, 4)
    ensures ram.Valid() && fresh(ram.Repr) && ram.pageSize == page && 0 in ram.pagemap
    ensures ram.bytes == Small(StoreLE(map[], 0, 4, word), 4, small)
  {
    ram := MappedRam(page);
    var ok := ram.Store(0, 4, word);
    StoreSmall(ram.bytes, 4, small);
    MultipleIsMod(4, 4);
    ok := ram.Store(4, 4, small);
  }

  /** A prefetcher over one device of one mapped page. */
  method OneDevice(ram: Ram.Ram, size: nat) returns (p: P.Prefetcher)
    requires ram.Valid() && ram.pageSize == size && 0 in ram.pagemap && Multiple(size, 8) && Multiple(size, size)
    ensures p.Valid() && p.Words() && p.len == 0 && p.mem.Flat() == Mem([Range(0, size)], ram.bytes)
    ensures p.mem.HostPage(0).Host? && p.mem.HostPage(0).size == size && fresh(p) && fresh(p.mem)
  {
    var device := PhysMem.Device(Range(0, size), ram);
    assert PhysMem.DeviceOk(device, ram.Repr, ram.bytes);
    var pmem := new PhysMem.PhysMem([device], ram.Repr, ram.bytes);
    p := new P.Prefetcher(pmem);
    assert PhysMem.RangesOf(pmem.devices) == [Range(0, size)];
    assert pmem.Answer(0) == PhysMem.Found(device);
    pmem.HostPageIs(0, device, 0);
  }

  /** Fetching at 0 and then off a whole word: the second fetch hits. */
  method FetchTwice(p: P.Prefetcher, a: nat) returns (first: P.Fetched, second: P.Fetched)
    requires p.Valid() && p.Words() && p.len == 0 && P.Fetchable(p.mem.Flat(), 0)
    requires p.mem.HostPage(0).Host? && 0 < a < p.mem.HostPage(0).size
    modifies p, p.mem`lastRange, p.mem`lastDevice
    ensures p.Valid() && p.mem.Flat() == old(p.mem.Flat())
    ensures first == P.FromLoad(Load(p.mem.Flat(), 0, 4))
    ensures second == P.HitWord(p.mem.bytes, 0, old(p.mem.HostPage(0)).size, a)
  {
    first := p.LoadWord(0);
    second := p.LoadWord(a);
  }

  lemma AskewLoads()
    ensures P.Fetchable(ASKEW, 0) && P.FromLoad(Load(ASKEW, 0, 4)) == P.Word(0x60_006F)
  {
    AskewWords();
    assert Scan(ASKEW.devices, 0) == 0;
  }

  /** Driven there: a prefetcher that read the word at 0 answers the fetch at 6 with the word
      at 4. */
  method MisalignedHit() returns (p: P.Prefetcher, first: P.Fetched, second: P.Fetched)
    ensures p.Valid() && p.mem.Flat() == ASKEW
    ensures first == P.Word(0x60_006F) && second == P.Word(0x13)
  {
    OnePage();
    var ram := TwoWords(0x1000, 0x60_006F, 0x13);
    p := OneDevice(ram, 0x1000);
    AskewLoads();
    AskewHit();
    first, second := FetchTwice(p, 6);
  }
}
