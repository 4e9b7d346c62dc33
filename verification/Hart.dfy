/** src/sim/hart.cpp as an object: the core, and the prefetcher and physical memory it reads and
    writes through, proved to step exactly as `Threaded.Step` does on the flat memory they show. */
module Hart {
  import opened Bits
  import opened Isa
  import opened FlatMemory
  import opened Handlers
  import opened Threaded
  import opened Core
  import Csr
  import Traps
  import Decoder
  import Readability
  import Refinement
  import Runs
  import C = BlockCache
  import P = Prefetcher
  import PhysMem

  // ---------------------------------------------------------------- whole words

  /** Devices start on whole words, so that word addresses are at word offsets. */
  predicate WordDevices(rs: seq<Range>) {
    forall i :: 0 <= i < |rs| ==> Multiple(rs[i].left, 4)
  }

  lemma FetchableAt(m: Mem, a: nat)
    requires WordDevices(m.devices) && Multiple(a, 4)
    ensures P.Fetchable(m, a)
  {
    if Mapped(m, a) {
      var r := m.devices[Scan(m.devices, a)];
      MultipleLess(a, r.left, 4);
    }
  }

  lemma NextAligned(pc: U64)
    requires Multiple(pc, 4)
    ensures Multiple(Wrap(pc + 4), 4)
  {
    MultipleIsMod(pc, 4);
    MultipleIsMod(Wrap(pc + 4), 4);
    if pc + 4 < TWO64 {
      DivUnique(pc + 4, TWO64, 0, pc + 4);
    } else {
      DivUnique(pc + 4, TWO64, 1, pc + 4 - TWO64);
    }
  }

  /** `dec` decodes the words that `z` fetches. */
  ghost predicate Fetches(z: Semantics, dec: nat -> Instr) {
    forall mem, a: nat :: z.decode(mem, a) == Sliced(dec, Fetch(mem, a))
  }

  function Sliced(dec: nat -> Instr, r: Loaded): Slot {
    match r
    case Value(v) => Code(dec(v))
    case LoadFault(_) => Missing
  }

  /** A memory unit fit for fetching: sound, its window on whole words, over word devices. */
  ghost predicate Fit(p: P.Prefetcher)
    reads p, p.mem, p.mem.Repr
  {
    p.Valid() && p.Words() && WordDevices(PhysMem.RangesOf(p.mem.devices))
  }

  ghost function Footprint(p: P.Prefetcher): set<object>
    reads p.mem
  {
    {p, p.mem} + p.mem.Repr
  }

  /** `dec_.parse(prefetcher_.loadWord(pc))`. */
  method FetchWord(z: Semantics, dec: nat -> Instr, p: P.Prefetcher, pc: U64) returns (r: Slot)
    requires Fetches(z, dec) && Fit(p) && Multiple(pc, 4)
    modifies p, p.mem`lastRange, p.mem`lastDevice
    ensures Fit(p) && p.mem.bytes == old(p.mem.bytes) && p.mem.Repr == old(p.mem.Repr)
    ensures r == z.decode(p.mem.Flat(), pc)
  {
    FetchableAt(p.mem.Flat(), pc);
    var word := p.LoadWord(pc);
    r := if word.Word? then Code(dec(word.v)) else Missing;
  }

  /** One turn of assembly, as `Append` leaves it. */
  lemma AssembleTurn(z: Semantics, mem: Mem, pc: U64, next: U64, count: nat, n: nat, b: Block, i: Instr)
    requires z.decode(mem, pc) == Code(i) && next == Wrap(pc + 4) && n == count + 1 < CAPACITY
    ensures Assemble(z, mem, pc, count, b)
            == if Ends(i, count) then Ready(Appended(b, count, i)) else Assemble(z, mem, next, n, Appended(b, count, i))
  {
  }

  /** How far a block has been rebuilt: `all` is what assembly will come to, `before` and `now` the
      cache entries before it and now. */
  datatype Build = Build(all: Built, before: seq<C.Entry<Block>>, index: nat, start: U64)

  ghost predicate Building(
    z: Semantics, mem: Mem, k: Build, now: seq<C.Entry<Block>>, pc: U64, count: nat, more: bool)
  {
    match k
    case Build(all, before, index, start) =>
      && index < |before| == |now| && now == before[index := C.Entry(start, now[index].body)]
      && if more then count < CAPACITY - 1 && all == Assemble(z, mem, pc, count, now[index].body)
         else all == Ready(now[index].body)
  }

  lemma BuildingNext(z: Semantics, mem: Mem, k: Build, now: seq<C.Entry<Block>>, now': seq<C.Entry<Block>>,
                     pc: U64, next: U64, count: nat, n: nat, i: Instr)
    requires Building(z, mem, k, now, pc, count, true) && z.decode(mem, pc) == Code(i)
    requires next == Wrap(pc + 4) && n == count + 1
    requires now' == now[k.index := now[k.index].(body := Appended(now[k.index].body, count, i))]
    ensures Building(z, mem, k, now', next, n, !Ends(i, count))
  {
    AssembleTurn(z, mem, pc, next, count, n, now[k.index].body, i);
  }

  /** One turn of the assembling loop: a word fetched and appended, or a fault. */
  method AssembleSlot(z: Semantics, dec: nat -> Instr, p: P.Prefetcher, bbs: array<C.Entry<Block>>,
                      index: nat, pc: U64, ghost next: U64, count: nat, ghost n: nat, ghost k: Build)
    returns (ok: bool, more: bool)
    requires Fetches(z, dec) && Fit(p) && Multiple(pc, 4) && bbs !in Footprint(p)
    requires k.index == index && Building(z, p.mem.Flat(), k, bbs[..], pc, count, true)
    requires next == Wrap(pc + 4) && n == count + 1
    modifies bbs, p, p.mem`lastRange, p.mem`lastDevice
    ensures Fit(p) && p.mem.bytes == old(p.mem.bytes) && p.mem.Repr == old(p.mem.Repr)
    ensures ok ==> Building(z, p.mem.Flat(), k, bbs[..], next, n, more)
    ensures !ok ==> k.all == BuildFault
  {
    var word := FetchWord(z, dec, p, pc);
    if word.Missing? {
      return false, false;
    }
    ghost var now := bbs[..];
    more := Append(bbs, index, count, word.i);
    BuildingNext(z, p.mem.Flat(), k, now, bbs[..], pc, next, count, n, word.i);
    ok := true;
  }

  /** `assembleBB`: the block at `index` rebuilt in place from the words at `start`. */
  method AssembleBB(z: Semantics, dec: nat -> Instr, p: P.Prefetcher, bbs: array<C.Entry<Block>>,
                    index: nat, start: U64) returns (ok: bool)
    requires Fetches(z, dec) && Fit(p) && Multiple(start, 4) && index < bbs.Length && bbs !in Footprint(p)
    modifies bbs, p, p.mem`lastRange, p.mem`lastDevice
    ensures Fit(p) && p.mem.bytes == old(p.mem.bytes) && p.mem.Repr == old(p.mem.Repr)
    ensures match Assemble(z, p.mem.Flat(), start, 0, old(bbs[index].body))
            case BuildFault => !ok
            case Ready(b) => ok && bbs[..] == old(bbs[..])[index := C.Entry(start, b)]
  {
    ghost var mem := p.mem.Flat();
    ghost var k := Build(Assemble(z, mem, start, 0, bbs[index].body), bbs[..], index, start);
    bbs[index] := bbs[index].(pc := start);
    var pc: U64 := start;
    var count, more := 0, true;
    while more
      invariant Fit(p) && p.mem.bytes == old(p.mem.bytes) && p.mem.Repr == old(p.mem.Repr) && Multiple(pc, 4)
      invariant Building(z, mem, k, bbs[..], pc, count, more)
      decreases more, CAPACITY - count
    {
      var next, n := Wrap(pc + 4), count + 1;
      NextAligned(pc);
      ok, more := AssembleSlot(z, dec, p, bbs, index, pc, next, count, n, k);
      if !ok {
        return;
      }
      pc, count := next, n;
    }
    ok := true;
  }

  // ---------------------------------------------------------------- the hart

  datatype Status = Running | Stopped | Died

  class Hart {
    const z: Semantics
    const dec: nat -> Instr
    const core: Core
    const prefetcher: P.Prefetcher

    ghost predicate Valid()
      reads this, core, core.Repr, prefetcher, prefetcher.mem, prefetcher.mem.Repr
    {
      match z
      case Semantics(_, _) =>
        && Fetches(z, dec) && core in core.Repr && core.Valid() && Fit(prefetcher)
        && core.Repr !! Footprint(prefetcher)
    }

    /** The flat memory that the prefetcher, the devices and their pages show. */
    ghost function Memory(): Mem
      reads prefetcher.mem
    {
      prefetcher.mem.Flat()
    }

    ghost function State(): Machine
      requires core.gprf.Valid()
      reads core, core.gprf.registers, core.csrf, core.csrf.Registers()
      reads core.bbCache, core.bbCache.bbs, core.bbCache.lruRowers, prefetcher.mem
    {
      core.State(Memory())
    }

    /** A hart at power-on, over the given physical memory. */
    constructor (semantics: Semantics, decoder: nat -> Instr, pmem: PhysMem.PhysMem)
      requires Fetches(semantics, decoder) && pmem.Valid() && WordDevices(PhysMem.RangesOf(pmem.devices))
      ensures Valid() && z == semantics && prefetcher.mem == pmem && fresh(core.Repr) && fresh(prefetcher)
      ensures Runs.PowerOn(State()) && C.Rewound(State().cache) && State().arch.mem == pmem.Flat()
    {
      z, dec := semantics, decoder;
      var c := new Core();
      var p := new P.Prefetcher(pmem);
      core, prefetcher := c, p;
      new;
      assert Pc(State().arch) == c.gprf.State()[PC];
    }

    /** What a step came to, and the state it left. */
    ghost predicate Agrees(st: Status, r: Stepped)
      requires core.gprf.Valid()
      reads core, core.gprf.registers, core.csrf, core.csrf.Registers()
      reads core.bbCache, core.bbCache.bbs, core.bbCache.lruRowers, prefetcher.mem
    {
      match r
      case Go(m) => st == Running && State() == m
      case Finished(s) => st == Stopped && State().arch == s
      case Crashed => st == Died
    }

    /** A missing block rebuilt in its cache entry. */
    method Rebuild(index: nat, pc: U64) returns (ok: bool)
      requires Valid() && index < C.SLOTS && Multiple(pc, 4)
      modifies core.bbCache.bbs, prefetcher, prefetcher.mem`lastRange, prefetcher.mem`lastDevice
      ensures Valid() && State().arch == old(State().arch) && prefetcher.mem.Repr == old(prefetcher.mem.Repr)
      ensures match Assemble(z, old(State().arch.mem), pc, 0, old(State().cache.entries[index].body))
              case BuildFault => !ok
              case Ready(b) => ok && State() == old(State()).(cache := C.Install(old(State().cache), index, pc, b))
    {
      ok := AssembleBB(z, dec, prefetcher, core.bbCache.bbs, index, pc);
    }

    /** On to the first slot of a block that is there. */
    method PointAt(index: nat)
      requires Valid()
      modifies core`way, core`slot
      ensures Valid() && State() == old(State()).(way := index, slot := 0)
    {
      core.Point(index, Memory());
    }

    /** The cache asked for a PC. */
    method Find(pc: U64) returns (hit: bool, index: nat)
      requires Valid()
      modifies core.bbCache.lruRowers
      ensures Valid()
      ensures var f := C.Lookup(old(State().cache), pc);
              hit == f.hit && index == f.index && State() == old(State()).(cache := f.cache)
    {
      hit, index := core.Find(pc, Memory());
    }

    /** `fetchBB`: find or rebuild the block at the PC, and point at its first slot. */
    method FetchBB() returns (ok: bool)
      requires Valid() && Multiple(Pc(State().arch), 4)
      modifies core`way, core`slot, core.bbCache.bbs, core.bbCache.lruRowers
      modifies prefetcher, prefetcher.mem`lastRange, prefetcher.mem`lastDevice
      ensures Valid() && State().arch == old(State().arch) && prefetcher.mem.Repr == old(prefetcher.mem.Repr)
      ensures match Threaded.FetchBB(z, old(State()), Pc(old(State().arch)))
              case FetchFault => !ok
              case Arrived(m) => ok && State() == m
    {
      var pc := core.gprf.Read(PC);
      var hit, index := Find(pc);
      ok := true;
      if !hit {
        ok := Rebuild(index, pc);
      }
      PointAt(index);
    }

    // One call on the core or the memory each, seen as a change of the whole state.

    method EnterTrap(id: U64)
      requires Valid()
      modifies core.gprf.registers, core.csrf, core.csrf.Registers()
      ensures Valid() && State() == old(State()).(arch := Raise(old(State().arch), id))
    {
      core.EnterTrap(id, Memory());
    }

    method LeaveTrap()
      requires Valid() && core.csrf.privilege == Csr.MACHINE
      modifies core.gprf.registers, core.csrf, core.csrf.Registers()
      ensures Valid() && ExecMret(old(State().arch)) == Next(State().arch)
      ensures State() == old(State()).(arch := State().arch)
      ensures prefetcher.mem.Repr == old(prefetcher.mem.Repr)
    {
      core.LeaveTrap(Memory());
    }

    method WritePC(pc: U64)
      requires Valid()
      modifies core.gprf.registers
      ensures Valid() && State() == old(State()).(arch := SetPc(old(State().arch), pc))
    {
      core.WritePC(pc, Memory());
    }

    method Deliver(i: Instr, v: U64)
      requires Valid() && Decoded(i)
      modifies core.gprf.registers
      ensures Valid() && State() == old(State()).(arch := NextPc(SetRd(old(State().arch), i, v)))
      ensures prefetcher.mem.Repr == old(prefetcher.mem.Repr)
    {
      core.Deliver(i, v, Memory());
    }

    method NextPC()
      requires Valid()
      modifies core.gprf.registers
      ensures Valid() && State() == old(State()).(arch := NextPc(old(State().arch)))
      ensures prefetcher.mem.Repr == old(prefetcher.mem.Repr)
    {
      core.NextPC(Memory());
    }

    method ExecNextInstr()
      requires Valid()
      modifies core`retired, core`slot
      ensures Valid() && State() == Advance(old(State()), old(State().arch))
    {
      core.ExecNextInstr(Memory());
    }

    method CsrAccess(i: Instr) returns (ok: bool, before: U64)
      requires Valid() && Decoded(i) && KindOf(i.op) == CsrKind
      modifies core.csrf.Registers()
      ensures Valid() && State() == old(State()).(arch := State().arch)
      ensures ExecCsr(i, old(State().arch))
              == if ok then Next(NextPc(SetRd(State().arch, i, before))) else RaiseThenNext(State().arch, ILLEGAL_INSTR)
      ensures prefetcher.mem.Repr == old(prefetcher.mem.Repr)
    {
      ok, before := core.ExecCsrAction(i, Memory());
    }

    method LoadFrom(address: nat, n: nat) returns (r: Loaded)
      requires Valid() && PhysMem.Wide(n)
      modifies prefetcher.mem`lastRange, prefetcher.mem`lastDevice
      ensures Valid() && State() == old(State()) && r == Load(State().arch.mem, address, n)
    {
      r := prefetcher.Load(address, n);
    }

    method StoreTo(address: nat, n: nat, v: nat) returns (ok: bool)
      requires Valid() && PhysMem.Wide(n)
      modifies prefetcher.mem, prefetcher.mem.Repr
      ensures Valid() && fresh(prefetcher.mem.Repr - old(prefetcher.mem.Repr))
      ensures match Store(old(State().arch.mem), address, n, v)
              case Done(m) => ok && State() == old(State()).(arch := old(State().arch).(mem := m))
              case StoreFault(_) => !ok
    {
      var r := prefetcher.Store(address, n, v);
      ok := r.Fine?;
    }

    // ---------------------------------------------------------------- dispatch

    /** `raiseException`: stack the state, jump to the vector, and refetch. */
    method RaiseException(id: U64) returns (ok: bool)
      requires Valid()
      modifies core.Repr, prefetcher, prefetcher.mem, prefetcher.mem.Repr
      ensures Valid() && fresh(prefetcher.mem.Repr - old(prefetcher.mem.Repr))
      ensures State().arch == Raise(old(State().arch), id)
      ensures Pc(State().arch) == Traps.Entry(old(State().arch.csr.mtvec), id)
      ensures Refetched(ok, Threaded.FetchBB(z, old(State()).(arch := State().arch),
                                             Csr.TrapTarget(old(State().arch.csr), id)))
    {
      VectorAligned(State().arch, id);
      Traps.RaiseEnters(State().arch, id);
      EnterTrap(id);
      ok := FetchBB();
    }

    /** What a handler that raises nothing did, up to `execNextInstr`. */
    ghost predicate Did(ok: bool, o: Outcome)
      requires core.gprf.Valid()
      reads core, core.gprf.registers, core.csrf, core.csrf.Registers(), prefetcher.mem
    {
      core.Did(ok, o, Memory())
    }

    method ExecPlain(i: Instr) returns (ok: bool)
      requires Valid() && Decoded(i) && PlainKind(KindOf(i.op))
      modifies core.gprf.registers
      ensures Valid() && State() == old(State()).(arch := State().arch) && Did(ok, Handler(i, old(State().arch)))
    {
      ok := core.ExecPlain(i, Memory());
    }

    method ExecLoad(i: Instr) returns (ok: bool)
      requires Valid() && Decoded(i) && KindOf(i.op) == Loading
      modifies core.gprf.registers, prefetcher.mem`lastRange, prefetcher.mem`lastDevice
      ensures Valid() && State() == old(State()).(arch := State().arch) && Did(ok, Handler(i, old(State().arch)))
    {
      WidthIsWide(i.op);
      ghost var s := State().arch;
      var loaded := LoadFrom(core.AddressOf(i), Width(i.op));
      LoadHandled(i, s, loaded);
      match loaded {
        case LoadFault(_) => ok := false;
        case Value(v) =>
          Deliver(i, Extend(i.op, v));
          ok := true;
      }
    }

    method ExecStore(i: Instr) returns (ok: bool)
      requires Valid() && Decoded(i) && KindOf(i.op) == Storing
      modifies core.gprf.registers, prefetcher.mem, prefetcher.mem.Repr
      ensures Valid() && fresh(prefetcher.mem.Repr - old(prefetcher.mem.Repr))
      ensures State() == old(State()).(arch := State().arch) && Did(ok, Handler(i, old(State().arch)))
    {
      WidthIsWide(i.op);
      StoreHandled(i, State().arch);
      ok := StoreTo(core.AddressOf(i), Width(i.op), core.gprf.Read(i.rs2));
      if ok {
        NextPC();
      }
    }

    /** The end of a handler that raised nothing: `execNextInstr`, unless the run died. */
    method Finish(ok: bool, ghost m: Machine, ghost o: Outcome) returns (st: Status)
      requires Valid() && C.Shaped(m.cache) && State() == m.(arch := State().arch) && Did(ok, o)
      modifies core`retired, core`slot
      ensures Valid() && Agrees(st, Follow(z, m, o))
      ensures prefetcher.mem.Repr == old(prefetcher.mem.Repr)
    {
      if !ok {
        return Died;
      }
      ExecNextInstr();
      st := Running;
    }

    method StepPlain(i: Instr) returns (st: Status)
      requires Valid() && Decoded(i) && PlainKind(KindOf(i.op))
      modifies core.Repr, prefetcher, prefetcher.mem, prefetcher.mem.Repr
      ensures Valid() && fresh(prefetcher.mem.Repr - old(prefetcher.mem.Repr))
      ensures Agrees(st, Follow(z, old(State()), Handler(i, old(State().arch))))
    {
      ghost var m := State();
      ghost var o := Handler(i, m.arch);
      var ok := ExecPlain(i);
      st := Finish(ok, m, o);
    }

    method StepLoad(i: Instr) returns (st: Status)
      requires Valid() && Decoded(i) && KindOf(i.op) == Loading
      modifies core.Repr, prefetcher, prefetcher.mem, prefetcher.mem.Repr
      ensures Valid() && fresh(prefetcher.mem.Repr - old(prefetcher.mem.Repr))
      ensures Agrees(st, Follow(z, old(State()), Handler(i, old(State().arch))))
    {
      ghost var m := State();
      ghost var o := Handler(i, m.arch);
      var ok := ExecLoad(i);
      st := Finish(ok, m, o);
    }

    method StepStore(i: Instr) returns (st: Status)
      requires Valid() && Decoded(i) && KindOf(i.op) == Storing
      modifies core.Repr, prefetcher, prefetcher.mem, prefetcher.mem.Repr
      ensures Valid() && fresh(prefetcher.mem.Repr - old(prefetcher.mem.Repr))
      ensures Agrees(st, Follow(z, old(State()), Handler(i, old(State().arch))))
    {
      ghost var m := State();
      ghost var o := Handler(i, m.arch);
      var ok := ExecStore(i);
      st := Finish(ok, m, o);
    }

    /** The handlers that raise nothing. */
    method StepQuiet(i: Instr) returns (st: Status)
      requires Valid() && Decoded(i) && QuietKind(KindOf(i.op))
      modifies core.Repr, prefetcher, prefetcher.mem, prefetcher.mem.Repr
      ensures Valid() && fresh(prefetcher.mem.Repr - old(prefetcher.mem.Repr))
      ensures Agrees(st, Follow(z, old(State()), Handler(i, old(State().arch))))
    {
      if KindOf(i.op) == Loading {
        st := StepLoad(i);
      } else if KindOf(i.op) == Storing {
        st := StepStore(i);
      } else {
        st := StepPlain(i);
      }
    }

    /** What a refetch came to. */
    ghost predicate Refetched(ok: bool, f: Fetched)
      requires core.gprf.Valid()
      reads core, core.gprf.registers, core.csrf, core.csrf.Registers()
      reads core.bbCache, core.bbCache.bbs, core.bbCache.lruRowers, prefetcher.mem
    {
      match f
      case FetchFault => !ok
      case Arrived(m) => ok && State() == m
    }

    /** `execNextInstr` after a refetch: it moves off slot 0. */
    method Land(ok: bool, ghost m: Machine, ghost o: Outcome) returns (st: Status)
      requires Valid() && C.Shaped(m.cache) && o.Trap?
      requires Refetched(ok, Threaded.FetchBB(z, m.(arch := o.s), o.target))
      modifies core`retired, core`slot
      ensures Valid() && Agrees(st, Follow(z, m, o))
      ensures prefetcher.mem.Repr == old(prefetcher.mem.Repr)
    {
      if !ok {
        return Died;
      }
      ArrivesAtStart(z, m.(arch := o.s), o.target);
      ExecNextInstr();
      st := Running;
    }

    /** A handler that raises, and `execNextInstr`. */
    method StepRaise(id: U64) returns (st: Status)
      requires Valid()
      modifies core.Repr, prefetcher, prefetcher.mem, prefetcher.mem.Repr
      ensures Valid() && fresh(prefetcher.mem.Repr - old(prefetcher.mem.Repr))
      ensures Agrees(st, Follow(z, old(State()), RaiseThenNext(old(State().arch), id)))
    {
      ghost var m := State();
      ghost var o := RaiseThenNext(m.arch, id);
      var ok := RaiseException(id);
      st := Land(ok, m, o);
    }

    method StepCsr(i: Instr) returns (st: Status)
      requires Valid() && Decoded(i) && KindOf(i.op) == CsrKind
      modifies core.Repr, prefetcher, prefetcher.mem, prefetcher.mem.Repr
      ensures Valid() && fresh(prefetcher.mem.Repr - old(prefetcher.mem.Repr))
      ensures Agrees(st, Follow(z, old(State()), ExecCsr(i, old(State().arch))))
    {
      ghost var m := State();
      ghost var o := ExecCsr(i, m.arch);
      var ok, before := CsrAccess(i);
      if ok {
        st := Grant(i, before, m, o);
      } else {
        st := Refuse(m, o);
      }
    }

    method Refuse(ghost m: Machine, ghost o: Outcome) returns (st: Status)
      requires Valid() && C.Shaped(m.cache) && State() == m.(arch := State().arch)
      requires o == RaiseThenNext(State().arch, ILLEGAL_INSTR)
      modifies core.Repr, prefetcher, prefetcher.mem, prefetcher.mem.Repr
      ensures Valid() && fresh(prefetcher.mem.Repr - old(prefetcher.mem.Repr))
      ensures Agrees(st, Follow(z, m, o))
    {
      FollowsAlike(z, m, State(), o);
      st := StepRaise(ILLEGAL_INSTR);
    }

    method Grant(i: Instr, before: U64, ghost m: Machine, ghost o: Outcome) returns (st: Status)
      requires Valid() && Decoded(i) && C.Shaped(m.cache) && State() == m.(arch := State().arch)
      requires o == Next(NextPc(SetRd(State().arch, i, before)))
      modifies core.gprf.registers, core`retired, core`slot
      ensures Valid() && Agrees(st, Follow(z, m, o))
      ensures prefetcher.mem.Repr == old(prefetcher.mem.Repr)
    {
      Deliver(i, before);
      st := Finish(true, m, o);
    }

    method StepEcall() returns (st: Status)
      requires Valid()
      modifies core.Repr, prefetcher, prefetcher.mem, prefetcher.mem.Repr
      ensures Valid() && fresh(prefetcher.mem.Repr - old(prefetcher.mem.Repr))
      ensures Agrees(st, Follow(z, old(State()), ExecEcall(old(State().arch))))
    {
      if core.csrf.privilege == Csr.USER {
        st := StepRaise(ECALL_UMODE);
      } else if core.csrf.privilege == Csr.SUPERVISOR {
        st := StepRaise(ECALL_SMODE);
      } else if core.csrf.privilege == Csr.MACHINE {
        st := StepRaise(ECALL_MMODE);
      } else {
        st := Died;
      }
    }

    /** Raised or not, `exec_MRET` ends by loading the PC from mepc. */
    method StepMret() returns (st: Status)
      requires Valid()
      modifies core.Repr, prefetcher, prefetcher.mem, prefetcher.mem.Repr
      ensures Valid() && fresh(prefetcher.mem.Repr - old(prefetcher.mem.Repr))
      ensures Agrees(st, Follow(z, old(State()), ExecMret(old(State().arch))))
    {
      if core.csrf.privilege != Csr.MACHINE {
        st := RefuseMret();
        return;
      }
      ghost var m := State();
      ghost var o := ExecMret(m.arch);
      LeaveTrap();
      st := Finish(true, m, o);
    }

    method RefuseMret() returns (st: Status)
      requires Valid() && core.csrf.privilege != Csr.MACHINE
      modifies core.Repr, prefetcher, prefetcher.mem, prefetcher.mem.Repr
      ensures Valid() && fresh(prefetcher.mem.Repr - old(prefetcher.mem.Repr))
      ensures Agrees(st, Follow(z, old(State()), ExecMret(old(State().arch))))
    {
      ghost var m := State();
      ghost var o := ExecMret(m.arch);
      var ok := RaiseException(ILLEGAL_INSTR);
      Overwrite(ok, m, o.target);
      st := Land(ok, m, o);
    }

    /** The PC loaded from mepc, if the run goes on. */
    method Overwrite(ok: bool, ghost m: Machine, ghost target: U64)
      requires Valid() && C.Shaped(m.cache)
      requires Refetched(ok, Threaded.FetchBB(z, m.(arch := State().arch), target))
      modifies core.gprf.registers
      ensures Valid() && core.csrf.mepc.value == old(core.csrf.mepc.value)
      ensures Refetched(ok, Threaded.FetchBB(z, m.(arch := SetPc(old(State().arch), core.csrf.mepc.value)), target))
      ensures prefetcher.mem.Repr == old(prefetcher.mem.Repr)
    {
      ghost var s := State().arch;
      SameFetch(z, m, s, core.csrf.mepc.value, target);
      if ok {
        WritePC(core.csrf.mepc.value);
      }
    }

    /** `exec_INV_OP`: the exception is raised and the run ends. */
    method StepIllegal() returns (st: Status)
      requires Valid()
      modifies core.Repr, prefetcher, prefetcher.mem, prefetcher.mem.Repr
      ensures Valid() && fresh(prefetcher.mem.Repr - old(prefetcher.mem.Repr))
      ensures Agrees(st, Follow(z, old(State()), ExecIllegal(old(State().arch))))
    {
      ghost var m := State();
      ghost var o := ExecIllegal(m.arch);
      var ok := RaiseException(ILLEGAL_INSTR);
      st := StopRaised(ok, m, o);
    }

    method StopRaised(ok: bool, ghost m: Machine, ghost o: Outcome) returns (st: Status)
      requires Valid() && C.Shaped(m.cache) && o.TrapStop? && State().arch == o.s
      requires ok <==> Threaded.FetchBB(z, m.(arch := o.s), o.target).Arrived?
      ensures Agrees(st, Follow(z, m, o))
    {
      st := if ok then Stopped else Died;
    }

    /** The handlers that can raise, and those that end the run. */
    method StepSystem(i: Instr) returns (st: Status)
      requires Valid() && Decoded(i) && !QuietKind(KindOf(i.op))
      modifies core.Repr, prefetcher, prefetcher.mem, prefetcher.mem.Repr
      ensures Valid() && fresh(prefetcher.mem.Repr - old(prefetcher.mem.Repr))
      ensures Agrees(st, Follow(z, old(State()), Handler(i, old(State().arch))))
    {
      var kind := KindOf(i.op);
      if kind == System {
        st := StepEcall();
      } else if kind == Return {
        st := StepMret();
      } else if kind == CsrKind {
        st := StepCsr(i);
      } else if kind == Pause {
        st := StepRaise(ILLEGAL_INSTR);
      } else if kind == Break {
        st := Stopped;
      } else if kind == Dead {
        st := Died;
      } else {
        st := StepIllegal();
      }
    }

    /** `exec_BB_END`, up to the dispatch. */
    method StepSentinel() returns (st: Status)
      requires Valid() && Multiple(Pc(State().arch), 4)
      modifies core.Repr, prefetcher, prefetcher.mem, prefetcher.mem.Repr
      ensures Valid() && fresh(prefetcher.mem.Repr - old(prefetcher.mem.Repr))
      ensures match Threaded.FetchBB(z, old(State()), Pc(old(State().arch)))
              case FetchFault => st == Died
              case Arrived(m) => st == Running && State() == m
    {
      var ok := FetchBB();
      st := if ok then Running else Died;
    }

    /** One dispatch through the handler table is one step of the threaded machine. */
    method Step() returns (st: Status)
      requires Valid() && Runnable(State()) && HandlesAsCoded(z) && WordPc(State())
      modifies core.Repr, prefetcher, prefetcher.mem, prefetcher.mem.Repr
      ensures Valid() && fresh(prefetcher.mem.Repr - old(prefetcher.mem.Repr))
      ensures Agrees(st, Threaded.Step(z, old(State())))
    {
      var i := core.bbCache.bbs[core.way].body[core.slot];
      StepIs(z, State(), i);
      if i.op == BB_END {
        st := StepSentinel();
      } else if QuietKind(KindOf(i.op)) {
        st := StepQuiet(i);
      } else {
        st := StepSystem(i);
      }
    }

    /** `n` dispatches, handler after handler: the state of the threaded machine after as many
        steps, or how it ended. */
    method Dispatch(n: nat) returns (st: Status)
      requires Valid() && HandlesAsCoded(z) && SafeRun(z, State(), n)
      modifies core.Repr, prefetcher, prefetcher.mem, prefetcher.mem.Repr
      ensures Valid()
      ensures Agrees(st, Runs.Run(Runs.Threading(z), old(State()), n))
    {
      if n == 0 {
        return Running;
      }
      ghost var first, whole := State(), Runs.Run(Runs.Threading(z), State(), n);
      var rest := n - 1;
      SafeFirst(z, first, n, rest);
      st := Step();
      if st == Running {
        SafeRest(z, first, State(), n, rest);
        ghost var second := State();
        st := Dispatch(rest);
        assert whole == Runs.Run(Runs.Threading(z), second, rest);
      }
    }

    /** The first block fetched. */
    method Boot() returns (st: Status)
      requires Valid() && Lawful(z) && Runs.PowerOn(State())
      modifies core.Repr, prefetcher, prefetcher.mem, prefetcher.mem.Repr
      ensures Valid() && fresh(prefetcher.mem.Repr - old(prefetcher.mem.Repr))
      ensures st == Running ==> Runs.Booted(z, old(State()), State())
      ensures st != Running ==> st == Died && Threaded.FetchBB(z, old(State()), Pc(old(State().arch))) == FetchFault
    {
      PowerOnWords(State());
      st := StepSentinel();
    }

    /** `Hart::run` for `n` dispatches from power-on: the first block fetched, then handler after
        handler. */
    method Run(n: nat) returns (st: Status, ghost first: Machine)
      requires Valid() && Lawful(z) && HandlesAsCoded(z) && Runs.PowerOn(State())
      requires forall x :: Runs.Booted(z, State(), x) ==> WordRun(z, x, n)
      modifies core.Repr, prefetcher, prefetcher.mem, prefetcher.mem.Repr
      ensures Valid()
      ensures if Threaded.FetchBB(z, old(State()), Pc(old(State().arch))).FetchFault? then st == Died
              else Runs.Booted(z, old(State()), first) && Agrees(st, Runs.Run(Runs.Threading(z), first, n))
    {
      ghost var m := State();
      st := Boot();
      first := State();
      if st == Running {
        BootedSafe(z, m, first, n);
        st := Dispatch(n);
      }
    }
  }

  /** A fetch the step makes from a sentinel is at a whole word; trap vectors always are. */
  ghost predicate WordPc(m: Machine) {
    match m
    case Machine(arch, _, _, _) => Pointing(m) && Current(m).op == BB_END ==> Multiple(Pc(arch), 4)
  }

  /** And so over the first `n` steps. */
  ghost predicate WordRun(z: Semantics, m: Machine, n: nat) {
    forall k: nat :: k < n ==> WordNow(Runs.Run(Runs.Threading(z), m, k))
  }

  ghost predicate WordNow(r: Stepped) {
    match r
    case Go(m) => WordPc(m)
    case _ => true
  }

  lemma PowerOnWords(m: Machine)
    requires Runs.PowerOn(m)
    ensures Multiple(Pc(m.arch), 4)
  {
  }

  lemma StepIs(z: Semantics, m: Machine, i: Instr)
    requires Runnable(m) && HandlesAsCoded(z) && i == Current(m)
    ensures i.op != BB_END ==> Decoded(i) && Threaded.Step(z, m) == Follow(z, m, Handler(i, m.arch))
  {
  }

  /** Every state the first `n` steps start from has its pointer on an instruction, or on a
      sentinel with the PC on a whole word. */
  ghost predicate SafeRun(z: Semantics, m: Machine, n: nat) {
    forall k: nat :: k < n ==> SafeNow(Runs.Run(Runs.Threading(z), m, k))
  }

  ghost predicate SafeNow(r: Stepped) {
    match r
    case Go(m) => Runnable(m) && WordPc(m)
    case _ => true
  }

  lemma SafeFirst(z: Semantics, m: Machine, n: nat, rest: nat)
    requires SafeRun(z, m, n) && n == rest + 1
    ensures Runnable(m) && WordPc(m) && Runs.Threading(z)(m) == Threaded.Step(z, m)
    ensures Runs.Run(Runs.Threading(z), m, n) == Runs.Continued(Runs.Threading(z), Threaded.Step(z, m), rest)
  {
    assert SafeNow(Runs.Run(Runs.Threading(z), m, 0));
    Runs.RunFirst(Runs.Threading(z), m, n, rest);
  }

  lemma SafeRest(z: Semantics, m: Machine, x: Machine, n: nat, rest: nat)
    requires SafeRun(z, m, n) && rest == n - 1 && Runs.Threading(z)(m) == Go(x)
    ensures SafeRun(z, x, rest)
  {
    forall k: nat | k < rest
      ensures SafeNow(Runs.Run(Runs.Threading(z), x, k))
    {
      Runs.RunFirst(Runs.Threading(z), m, k + 1, k);
      assert SafeNow(Runs.Run(Runs.Threading(z), m, k + 1));
    }
  }

  lemma BootedSafe(z: Semantics, m: Machine, first: Machine, n: nat)
    requires Lawful(z) && Runs.Booted(z, m, first) && WordRun(z, first, n)
    ensures SafeRun(z, first, n)
  {
    Runs.PowerOnSyncs(z, m, first);
    forall k: nat | k < n
      ensures SafeNow(Runs.Run(Runs.Threading(z), first, k))
    {
      assert WordNow(Runs.Run(Runs.Threading(z), first, k));
      Runs.EveryRunIsSafe(z, Runs.Threading(z), first, k);
    }
  }

  /** The handler table holds the handlers of this file. */
  ghost predicate HandlesAsCoded(z: Semantics) {
    forall i, s :: Decoded(i) ==> z.handle(i, s) == Handler(i, s)
  }

  /** `Decoder::parse` on a fetched word. */
  function Parse(v: nat): Instr {
    Decoder.Decode(v % 0x1_0000_0000)
  }

  lemma BesmFetch(mem: Mem, a: nat)
    ensures DecodeAt(mem, a) == Sliced(Parse, Fetch(mem, a))
  {
    assert WordAt(mem.bytes, a) % 0x1_0000_0000 == WordAt(mem.bytes, a);
  }

  /** The simulator's decoder and handlers are the ones of its table. */
  lemma BesmIsCoded()
    ensures HandlesAsCoded(Besm()) && Fetches(Besm(), Parse)
  {
    forall mem, a: nat
      ensures Besm().decode(mem, a) == Sliced(Parse, Fetch(mem, a))
    {
      BesmFetch(mem, a);
    }
  }

  /** What a run of `n` dispatches over a memory must respect, from any state a hart is
      constructed in (registers and block slots may hold anything): fetches at whole words, and
      dispatches of what memory holds at the PC. */
  ghost predicate Respects(z: Semantics, mem: Mem, n: nat) {
    forall m: Machine, first: Machine :: m.arch.mem == mem && C.Rewound(m.cache) && Runs.Booted(z, m, first) ==>
      WordRun(z, first, n) && Runs.HonestRun(z, Runs.Threading(z), first, n)
  }

  /** A state `Hart::run` starts from over a memory. */
  ghost predicate Starts(s: Arch, mem: Mem) {
    match s
    case Arch(_, csr, m, _) => Pc(s) == 0 && csr == Csr.Reset() && m == mem
  }

  /** Every block such a run fetches, the first included, is cached or readable. */
  ghost predicate Legible(z: Semantics, mem: Mem, n: nat) {
    && Readability.Readable(z, mem, 0)
    && forall m: Machine, first: Machine :: m.arch.mem == mem && C.Rewound(m.cache) && Runs.Booted(z, m, first) ==>
         Runs.FineRun(z, Runs.Threading(z), first, n)
  }

  /** A hart's status and state against the plain machine: the same state after as many
      instructions, or the same end. */
  ghost predicate Faithful(z: Semantics, s: Arch, legible: bool, st: Status, t: Arch, n: nat) {
    match st
    case Running => Runs.Reached(Runs.OneByOne(z), s, t) && n <= 2 * (t.retired - s.retired) + 1
    case Stopped => Runs.PlainEnds(Runs.OneByOne(z), s, Refinement.Ended(t))
    case Died => legible ==> Runs.PlainEnds(Runs.OneByOne(z), s, Refinement.Failed)
  }

  /** The whole simulator against fetch-decode-execute: a hart built over physical memory and run
      for `n` dispatches, through block cache, prefetch window, device memo and sparse pages, is
      where the plain machine over the flat memory is after as many instructions, stops where it
      stops, and dies only where it fails, unless a block read ahead was unreadable. */
  method Simulate(z: Semantics, dec: nat -> Instr, pmem: PhysMem.PhysMem, n: nat)
    returns (st: Status, h: Hart, ghost s: Arch)
    requires Lawful(z) && HandlesAsCoded(z) && Fetches(z, dec) && Respects(z, pmem.Flat(), n)
    requires pmem.Valid() && WordDevices(PhysMem.RangesOf(pmem.devices))
    modifies pmem, pmem.Repr
    ensures h.Valid() && h.z == z && h.prefetcher.mem == pmem && Starts(s, old(pmem.Flat()))
    ensures Faithful(z, s, Legible(z, old(pmem.Flat()), n), st, h.State().arch, n)
  {
    h := new Hart(z, dec, pmem);
    ghost var m := h.State();
    s := m.arch;
    ghost var first;
    st, first := h.Run(n);
    Shadows(z, m, first, n);
  }

  /** What `Run` promises, against the plain machine. */
  lemma Shadows(z: Semantics, m: Machine, first: Machine, n: nat)
    requires Lawful(z) && Runs.PowerOn(m) && Respects(z, m.arch.mem, n) && C.Shaped(m.cache) && C.Rewound(m.cache)
    ensures Threaded.FetchBB(z, m, Pc(m.arch)).FetchFault? ==> !Legible(z, m.arch.mem, n)
    ensures Runs.Booted(z, m, first) ==>
              Runs.Shadowed(Runs.OneByOne(z), m.arch, Legible(z, m.arch.mem, n),
                            Runs.Run(Runs.Threading(z), first, n), n)
  {
    Runs.BootsIff(z, m);
    if Runs.Booted(z, m, first) {
      Runs.PowerOnSyncs(z, m, first);
      Runs.RunIsShadowed(z, Runs.Threading(z), Runs.OneByOne(z), first, n);
    }
  }

  predicate QuietKind(k: Kind) {
    match k
    case Loading | Storing => true
    case _ => PlainKind(k)
  }

  lemma VectorAligned(s: Arch, id: U64)
    ensures Multiple(Pc(Raise(s, id)), 4)
  {
    Csr.TrapTargetAligned(s.csr, id);
    MultipleIsMod(Csr.TrapTarget(s.csr, id), 4);
  }

  lemma WidthIsWide(op: Op)
    ensures PhysMem.Wide(Width(op))
  {
    MultipleIsMod(8, Width(op));
  }

  lemma ArrivesAtStart(z: Semantics, m: Machine, pc: U64)
    requires C.Shaped(m.cache)
    ensures var f := Threaded.FetchBB(z, m, pc); f.Arrived? ==> f.m.slot == 0 && f.m.arch == m.arch
  {
  }

  /** After a trap the registers a machine held before do not matter. */
  lemma FollowsAlike(z: Semantics, m: Machine, m': Machine, o: Outcome)
    requires C.Shaped(m.cache) && m' == m.(arch := m'.arch) && o.Trap?
    ensures Follow(z, m', o) == Follow(z, m, o)
  {
  }

  /** Fetching depends on the PC it is given, not on the one in the register file. */
  lemma SameFetch(z: Semantics, m: Machine, s: Arch, pc: U64, target: U64)
    requires C.Shaped(m.cache)
    ensures match Threaded.FetchBB(z, m.(arch := s), target)
            case FetchFault => Threaded.FetchBB(z, m.(arch := SetPc(s, pc)), target) == FetchFault
            case Arrived(x) =>
              Threaded.FetchBB(z, m.(arch := SetPc(s, pc)), target) == Arrived(x.(arch := SetPc(s, pc)))
  {
  }
}
