/** src/sim/hart.cpp's threaded execution: decoded blocks in a cache, a pointer walking their
    slots, and handlers that call one another; compared with a machine that fetches,
    decodes and executes one word at a time. */
module Threaded {
  import opened Bits
  import opened Isa
  import opened FlatMemory
  import opened Handlers
  import Decoder
  import Csr
  import C = BlockCache

  const CAPACITY := 8

  type Block = b: seq<Instr> | |b| == CAPACITY witness seq(CAPACITY, _ => Instr(INV_OP, 0, 0, 0, 0))

  type Cache = C.Cache<Block>

  // ---------------------------------------------------------------- fetching one word

  datatype Slot = Missing | Code(i: Instr)

  /** The word at an address, unchecked. */
  function WordAt(bytes: Bytes, a: nat): Decoder.Word {
    LoadBound(bytes, a, 4);
    assert Pow256(4) == 0x1_0000_0000;
    LoadLE(bytes, a, 4)
  }

  function DecodeAt(mem: Mem, a: nat): Slot {
    match Fetch(mem, a)
    case Value(_) => Code(Decoder.Decode(WordAt(mem.bytes, a)))
    case LoadFault(_) => Missing
  }

  // ---------------------------------------------------------------- decoder and handlers

  /** The decoder and the handler table; the machines below hold for any that obey `Lawful`. */
  datatype Semantics = Semantics(decode: (Mem, nat) -> Slot, handle: (Instr, Arch) -> Outcome)

  function Handle(i: Instr, s: Arch): Outcome {
    if Decoded(i) then Handler(i, s) else Abort(Terminated)
  }

  function Besm(): Semantics {
    Semantics((mem: Mem, a: nat) => DecodeAt(mem, a), (i, s) => Handle(i, s))
  }

  /** The bytes at any mapped address, whole word or not, as the prefetcher serves them where
      `Prefetcher.ServedInPhase` says. */
  function DecodeAnywhere(mem: Mem, a: nat): Slot {
    if Mapped(mem, a) then Code(Decoder.Decode(WordAt(mem.bytes, a))) else Missing
  }

  function Bytewise(): Semantics {
    Semantics((mem: Mem, a: nat) => DecodeAnywhere(mem, a), (i, s) => Handle(i, s))
  }

  /** The two fetches differ exactly off whole words. */
  lemma AnywhereIff(mem: Mem, a: nat)
    ensures DecodeAnywhere(mem, a) == DecodeAt(mem, a) <==> (Mapped(mem, a) ==> Aligned(mem, a, 4))
  {
  }

  ghost predicate SameWord(m1: Mem, m2: Mem, a: nat) {
    m1.devices == m2.devices && forall x :: a <= x < a + 4 ==> At(m1.bytes, x) == At(m2.bytes, x)
  }

  /** Decoding sees one word and never the sentinel; handlers keep what `Kept` says, and
      below machine mode touch no CSR unless they trap. */
  ghost predicate Lawful(z: Semantics) {
    match z
    case Semantics(decode, handle) =>
      && (forall mem, a: nat :: decode(mem, a).Code? ==> Decoded(decode(mem, a).i))
      && (forall m1, m2, a: nat :: SameWord(m1, m2, a) ==> decode(m1, a) == decode(m2, a))
      && (forall i, s :: Decoded(i) && Sane(s) ==> Kept(i, s, handle(i, s)))
      && (forall i, s :: Decoded(i) && Sane(s) && s.csr.privilege != Csr.MACHINE && handle(i, s).Next? ==>
            handle(i, s).s.csr == s.csr)
  }

  lemma BesmLawful()
    ensures Lawful(Besm())
  {
    var z := Besm();
    forall mem, a: nat | z.decode(mem, a).Code?
      ensures Decoded(z.decode(mem, a).i)
    {
      DecodeAtDecodes(mem, a);
    }
    forall m1, m2, a: nat | SameWord(m1, m2, a)
      ensures z.decode(m1, a) == z.decode(m2, a)
    {
      DecodeAtLocal(m1, m2, a);
    }
    forall i, s | Decoded(i) && Sane(s)
      ensures Kept(i, s, z.handle(i, s))
      ensures s.csr.privilege != Csr.MACHINE && z.handle(i, s).Next? ==> z.handle(i, s).s.csr == s.csr
    {
      HandleLaws(i, s);
    }
  }

  lemma BytewiseLawful()
    ensures Lawful(Bytewise())
  {
    var z := Bytewise();
    forall mem, a: nat | z.decode(mem, a).Code?
      ensures Decoded(z.decode(mem, a).i)
    {
      Decoder.EveryWordDecodes(WordAt(mem.bytes, a));
    }
    forall m1, m2, a: nat | SameWord(m1, m2, a)
      ensures z.decode(m1, a) == z.decode(m2, a)
    {
      LoadSame(m1.bytes, m2.bytes, a, 4);
    }
    forall i, s | Decoded(i) && Sane(s)
      ensures Kept(i, s, z.handle(i, s))
      ensures s.csr.privilege != Csr.MACHINE && z.handle(i, s).Next? ==> z.handle(i, s).s.csr == s.csr
    {
      HandleLaws(i, s);
    }
  }

  lemma DecodeAtDecodes(mem: Mem, a: nat)
    ensures DecodeAt(mem, a).Code? ==> Decoded(DecodeAt(mem, a).i)
  {
    Decoder.EveryWordDecodes(WordAt(mem.bytes, a));
  }

  lemma DecodeAtLocal(m1: Mem, m2: Mem, a: nat)
    requires SameWord(m1, m2, a)
    ensures DecodeAt(m1, a) == DecodeAt(m2, a)
  {
    LoadSame(m1.bytes, m2.bytes, a, 4);
  }

  lemma HandleLaws(i: Instr, s: Arch)
    requires Decoded(i) && Sane(s)
    ensures Kept(i, s, Handle(i, s))
    ensures s.csr.privilege != Csr.MACHINE && Handle(i, s).Next? ==> Handle(i, s).s.csr == s.csr
  {
    HandlerKeeps(i, s);
    if s.csr.privilege != Csr.MACHINE {
      HandlerUnprivileged(i, s);
    }
  }

  // ---------------------------------------------------------------- block assembly

  datatype Built = BuildFault | Ready(body: Block)

  /** `Hart::assembleBB` with `BasicBlockRebuilder::append`: decoded words from slot `count`
      on, then the sentinel; slots past it keep their old contents. */
  function Assemble(z: Semantics, mem: Mem, pc: U64, count: nat, body: Block): Built
    requires count < CAPACITY - 1
    decreases CAPACITY - count
  {
    match z.decode(mem, pc)
    case Missing => BuildFault
    case Code(i) =>
      var b := body[count := i];
      if IsJump(i.op) || count + 1 == CAPACITY - 1 then Ready(b[count + 1 := b[count + 1].(op := BB_END)])
      else Assemble(z, mem, Wrap(pc + 4), count + 1, b)
  }

  // ---------------------------------------------------------------- the threaded machine

  /** `way` and `slot` are the raw instruction pointer: a cache entry and a slot in it. */
  datatype Machine = Machine(arch: Arch, cache: Cache, way: nat, slot: nat)

  datatype Fetched = FetchFault | Arrived(m: Machine)

  /** `Hart::fetchBB` for the given PC. */
  function FetchBB(z: Semantics, m: Machine, pc: U64): Fetched
    requires C.Shaped(m.cache)
  {
    var f := C.Lookup(m.cache, pc);
    if f.hit then Arrived(m.(way := f.index, slot := 0))
    else
      match Assemble(z, m.arch.mem, pc, 0, f.cache.entries[f.index].body)
      case BuildFault => FetchFault
      case Ready(b) => Arrived(m.(cache := C.Install(f.cache, f.index, pc, b), way := f.index, slot := 0))
  }

  /** The pointer is on a slot of some entry. */
  predicate Pointing(m: Machine) {
    C.Shaped(m.cache) && m.way < C.SLOTS && m.slot < CAPACITY
  }

  function Current(m: Machine): Instr
    requires Pointing(m)
  {
    m.cache.entries[m.way].body[m.slot]
  }

  predicate Runnable(m: Machine) {
    Pointing(m) && (Current(m).op == BB_END || Decoded(Current(m)))
  }

  datatype Stepped = Go(m: Machine) | Finished(arch: Arch) | Crashed

  function Retire(s: Arch): Arch {
    s.(retired := s.retired + 1)
  }

  /** `execNextInstr` after a handler that raised nothing. */
  function Advance(m: Machine, s: Arch): Machine {
    m.(arch := Retire(s), slot := m.slot + 1)
  }

  /** `execNextInstr` after a trap refetched a block: it moves off slot 0. */
  function Landed(m: Machine, s: Arch): Machine {
    m.(arch := Retire(s), slot := 1)
  }

  /** What comes of a handler's outcome.  After a trap the pointer is on slot 0 of the target's
      block when `execNextInstr` moves it on. */
  function Follow(z: Semantics, m: Machine, o: Outcome): Stepped
    requires C.Shaped(m.cache)
  {
    match o
    case Next(s) => Go(Advance(m, s))
    case Trap(s, target) =>
      (match FetchBB(z, m.(arch := s), target)
       case FetchFault => Crashed
       case Arrived(m') => Go(Landed(m', s)))
    case TrapStop(s, target) => if FetchBB(z, m.(arch := s), target).FetchFault? then Crashed else Finished(s)
    case Stop(s) => Finished(s)
    case Abort(_) => Crashed
  }

  /** One dispatched handler. */
  function Step(z: Semantics, m: Machine): Stepped
    requires Runnable(m)
  {
    var i := Current(m);
    if i.op == BB_END then
      match FetchBB(z, m, Pc(m.arch))
      case FetchFault => Crashed
      case Arrived(m') => Go(m')
    else Follow(z, m, z.handle(i, m.arch))
  }

  lemma StepNext(z: Semantics, m: Machine, i: Instr, s: Arch)
    requires Pointing(m) && Current(m) == i && Decoded(i) && z.handle(i, m.arch) == Next(s)
    ensures Runnable(m) && Step(z, m) == Go(Advance(m, s))
  {
  }

  // ---------------------------------------------------------------- blocks are closed

  /** Slots below `n` are decoded instructions and slot `n` is the sentinel. */
  ghost predicate EndsAt(b: Block, n: nat) {
    1 <= n < CAPACITY && b[n].op == BB_END && forall k :: 0 <= k < n ==> Decoded(b[k])
  }

  /** The slot lies at or before the sentinel. */
  ghost predicate Inside(b: Block, slot: nat) {
    exists n :: EndsAt(b, n) && slot <= n
  }

  ghost predicate Filled(c: Cache, j: nat)
    requires C.Shaped(c)
  {
    j < C.SLOTS && c.entries[j].pc != C.POISON
  }

  /** A well-placed cache whose filled entries hold closed blocks. */
  ghost predicate Closed(c: Cache) {
    match c
    case Cache(_, _) => C.WellPlaced(c) && forall j: nat :: Filled(c, j) ==> Inside(c.entries[j].body, 0)
  }

  /** In every reachable state: sane architecture, a well-placed cache of closed blocks, and
      a pointer inside a filled block. */
  ghost predicate Inv(m: Machine) {
    match m
    case Machine(arch, cache, way, slot) =>
      Sane(arch) && Closed(cache) && Filled(cache, way) && Inside(cache.entries[way].body, slot)
  }

  lemma InvRunnable(m: Machine)
    requires Inv(m)
    ensures Runnable(m)
  {
    var b := m.cache.entries[m.way].body;
    var n :| EndsAt(b, n) && m.slot <= n;
  }

  lemma {:induction false} AssembleCloses(z: Semantics, mem: Mem, pc: U64, count: nat, body: Block)
    requires Lawful(z) && count < CAPACITY - 1
    requires forall k :: 0 <= k < count ==> Decoded(body[k])
    ensures var r := Assemble(z, mem, pc, count, body); r.Ready? ==> Inside(r.body, 1)
    decreases CAPACITY - count
  {
    var d := z.decode(mem, pc);
    if d.Code? {
      assert Decoded(d.i);
      var b := body[count := d.i];
      if IsJump(d.i.op) || count + 1 == CAPACITY - 1 {
        assert EndsAt(b[count + 1 := b[count + 1].(op := BB_END)], count + 1);
      } else {
        AssembleCloses(z, mem, Wrap(pc + 4), count + 1, b);
      }
    }
  }

  lemma HitKeepsInv(m: Machine, pc: U64)
    requires Sane(m.arch) && Closed(m.cache) && pc != C.POISON && C.Lookup(m.cache, pc).hit
    ensures var m' := m.(way := C.Lookup(m.cache, pc).index, slot := 0);
            Inv(m') && m'.cache.entries[m'.way].pc == pc && Inside(m'.cache.entries[m'.way].body, 1)
  {
    C.LookupFinds(m.cache, pc);
    var index := C.Lookup(m.cache, pc).index;
    assert Filled(m.cache, index);
    var b := m.cache.entries[index].body;
    var n :| EndsAt(b, n) && 0 <= n;
    assert EndsAt(b, n) && 1 <= n;
  }

  lemma InstallKeepsInv(m: Machine, pc: U64, b: Block)
    requires Sane(m.arch) && Closed(m.cache) && pc != C.POISON && !C.Lookup(m.cache, pc).hit && Inside(b, 1)
    ensures var f := C.Lookup(m.cache, pc);
            var m' := m.(cache := C.Install(f.cache, f.index, pc, b), way := f.index, slot := 0);
            Inv(m')
  {
    var q := C.Request(pc, b);
    C.FetchKeepsPlacing(m.cache, q);
    var f := C.Lookup(m.cache, pc);
    var c' := C.Install(f.cache, f.index, pc, b);
    assert c' == C.Fetch(m.cache, q).cache;
    assert Inside(b, 0) by {
      var n :| EndsAt(b, n) && 1 <= n;
    }
    forall j: nat | Filled(c', j)
      ensures Inside(c'.entries[j].body, 0)
    {
      assert j != f.index ==> Filled(m.cache, j);
    }
    assert Closed(c');
    assert Filled(c', f.index);
  }

  lemma FetchKeepsInv(z: Semantics, m: Machine, pc: U64)
    requires Lawful(z) && Sane(m.arch) && Closed(m.cache) && Even(pc)
    ensures var f := FetchBB(z, m, pc);
            f.Arrived? ==> Inv(f.m) && f.m.arch == m.arch && f.m.slot == 0
                           && f.m.cache.entries[f.m.way].pc == pc && Inside(f.m.cache.entries[f.m.way].body, 1)
  {
    assert pc != C.POISON by {
      EvenIsMod(pc);
    }
    var f := C.Lookup(m.cache, pc);
    if f.hit {
      HitKeepsInv(m, pc);
    } else {
      var r := Assemble(z, m.arch.mem, pc, 0, f.cache.entries[f.index].body);
      AssembleCloses(z, m.arch.mem, pc, 0, f.cache.entries[f.index].body);
      if r.Ready? {
        InstallKeepsInv(m, pc, r.body);
      }
    }
  }

  lemma NextKeepsInv(z: Semantics, m: Machine)
    requires Lawful(z) && Inv(m) && Runnable(m) && Current(m).op != BB_END && z.handle(Current(m), m.arch).Next?
    ensures Inv(Advance(m, z.handle(Current(m), m.arch).s))
  {
    var i := Current(m);
    assert Kept(i, m.arch, z.handle(i, m.arch));
    var b := m.cache.entries[m.way].body;
    var n :| EndsAt(b, n) && m.slot <= n;
    assert EndsAt(b, n) && m.slot + 1 <= n;
    RetireSane(z.handle(i, m.arch).s);
  }

  lemma TrapKeepsInv(z: Semantics, m: Machine)
    requires Lawful(z) && Inv(m) && Runnable(m) && Current(m).op != BB_END && z.handle(Current(m), m.arch).Trap?
    ensures var o := z.handle(Current(m), m.arch);
            var f := FetchBB(z, m.(arch := o.s), o.target);
            f.Arrived? ==>
              && Inv(f.m) && Inv(Landed(f.m, o.s)) && f.m.arch == o.s
              && f.m.cache.entries[f.m.way].pc == o.target
  {
    var i := Current(m);
    var o := z.handle(i, m.arch);
    assert Kept(i, m.arch, o);
    FetchKeepsInv(z, m.(arch := o.s), o.target);
    RetireSane(o.s);
  }

  /** Whatever the program does, a step from a good state reaches a good state: the PC stays
      even, the CSRs legal, and the pointer inside its block. */
  lemma StepKeepsInv(z: Semantics, m: Machine)
    requires Lawful(z) && Inv(m)
    ensures Runnable(m) && (Step(z, m).Go? ==> Inv(Step(z, m).m))
  {
    InvRunnable(m);
    var i := Current(m);
    if i.op == BB_END {
      FetchKeepsInv(z, m, Pc(m.arch));
    } else if z.handle(i, m.arch).Next? {
      NextKeepsInv(z, m);
    } else if z.handle(i, m.arch).Trap? {
      TrapKeepsInv(z, m);
    }
  }

  lemma RetireSane(s: Arch)
    requires Sane(s)
    ensures Sane(Retire(s))
  {
  }
}
