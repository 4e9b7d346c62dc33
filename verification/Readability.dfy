/** When block assembly faults (src/sim/hart.cpp, `assembleBB`), and with it the threaded
    machine: it reads up to seven words ahead of the PC. */
module Readability {
  import opened Bits
  import opened Isa
  import opened FlatMemory
  import opened Handlers
  import opened Threaded
  import opened Refinement
  import C = BlockCache

  /** Words `count` to `n - 1` after `pc` decode, and the last of them ends the block. */
  ghost predicate Spans(z: Semantics, mem: Mem, pc: nat, count: nat, n: nat) {
    && count < n <= CAPACITY - 1
    && (forall k :: count <= k < n ==> z.decode(mem, SlotAddress(pc, k)).Code?)
    && (n == CAPACITY - 1 || JumpAt(z, mem, SlotAddress(pc, n - 1)))
  }

  ghost predicate ReadableFrom(z: Semantics, mem: Mem, pc: nat, count: nat) {
    exists n: nat :: Spans(z, mem, pc, count, n)
  }

  /** The words from `pc` on decode, up to a jump or seven of them. */
  ghost predicate Readable(z: Semantics, mem: Mem, pc: nat) {
    ReadableFrom(z, mem, pc, 0)
  }

  lemma ReadableStep(z: Semantics, mem: Mem, pc: nat, count: nat, next: nat)
    requires next == count + 1 < CAPACITY
    ensures ReadableFrom(z, mem, pc, count) <==>
            && z.decode(mem, SlotAddress(pc, count)).Code?
            && (JumpAt(z, mem, SlotAddress(pc, count)) || next == CAPACITY - 1 || ReadableFrom(z, mem, pc, next))
  {
    if n: nat :| Spans(z, mem, pc, count, n) {
      if n > next {
        assert Spans(z, mem, pc, next, n);
      }
    }
    if z.decode(mem, SlotAddress(pc, count)).Code? {
      if JumpAt(z, mem, SlotAddress(pc, count)) || next == CAPACITY - 1 {
        assert Spans(z, mem, pc, count, next);
      } else if n: nat :| Spans(z, mem, pc, next, n) {
        assert Spans(z, mem, pc, count, n);
      }
    }
  }

  /** A first word that is no jump before one that cannot be fetched: nothing to build. */
  lemma UnreadableSecond(z: Semantics, mem: Mem, pc: nat)
    requires z.decode(mem, SlotAddress(pc, 1)).Missing? && !JumpAt(z, mem, SlotAddress(pc, 0))
    ensures !Readable(z, mem, pc)
  {
    forall n: nat
      ensures !Spans(z, mem, pc, 0, n)
    {
    }
  }

  lemma {:induction false} AssembleReadyFrom(
    z: Semantics, mem: Mem, pc: U64, start: U64, count: nat, body: Block)
    requires count < CAPACITY - 1 && pc == SlotAddress(start, count)
    ensures Assemble(z, mem, pc, count, body).Ready? <==> ReadableFrom(z, mem, start, count)
    decreases CAPACITY - count
  {
    var next := count + 1;
    ReadableStep(z, mem, start, count, next);
    var d := z.decode(mem, pc);
    if d.Code? && !IsJump(d.i.op) && next != CAPACITY - 1 {
      NextSlot(start, count);
      AssembleReadyFrom(z, mem, Wrap(pc + 4), start, next, body[count := d.i]);
    }
  }

  /** Assembly succeeds if and only if the words it needs can be read. */
  lemma AssembleReadyIff(z: Semantics, mem: Mem, pc: U64, body: Block)
    ensures Assemble(z, mem, pc, 0, body).Ready? <==> Readable(z, mem, pc)
  {
    StartSlot(pc);
    AssembleReadyFrom(z, mem, pc, pc, 0, body);
  }

  /** Some entry was built for this PC. */
  ghost predicate Held(c: Cache, pc: nat)
    requires C.Shaped(c)
  {
    exists j :: 0 <= j < C.SLOTS && c.entries[j].pc == pc
  }

  /** The block at `pc` is cached or can be built. */
  ghost predicate Reachable(z: Semantics, c: Cache, mem: Mem, pc: nat)
    requires C.Shaped(c)
  {
    Held(c, pc) || Readable(z, mem, pc)
  }

  lemma FetchFaultIff(z: Semantics, m: Machine, pc: U64)
    requires C.WellPlaced(m.cache) && pc != C.POISON
    ensures FetchBB(z, m, pc).FetchFault? <==> !Reachable(z, m.cache, m.arch.mem, pc)
  {
    C.LookupFinds(m.cache, pc);
    var f := C.Lookup(m.cache, pc);
    AssembleReadyIff(z, m.arch.mem, pc, f.cache.entries[f.index].body);
  }

  /** The block the next step fetches, if it fetches one, is cached or can be built. */
  ghost predicate Reads(z: Semantics, m: Machine)
    requires Runnable(m)
  {
    var i := Current(m);
    if i.op == BB_END then Reachable(z, m.cache, m.arch.mem, Pc(m.arch))
    else
      match z.handle(i, m.arch)
      case Trap(_, target) => Reachable(z, m.cache, m.arch.mem, target)
      case TrapStop(_, target) => Reachable(z, m.cache, m.arch.mem, target)
      case _ => true
  }

  /** The handler the next step runs aborts. */
  predicate Aborts(z: Semantics, m: Machine)
    requires Runnable(m)
  {
    Current(m).op != BB_END && z.handle(Current(m), m.arch).Abort?
  }

  /** A step crashes if and only if it fetches a block that is neither cached nor readable, or
      its handler aborts. */
  lemma StepCrashesIff(z: Semantics, m: Machine)
    requires Lawful(z) && Inv(m) && Runnable(m)
    ensures Step(z, m).Crashed? <==> !Reads(z, m) || Aborts(z, m)
  {
    var i := Current(m);
    if i.op == BB_END {
      NotPoison(Pc(m.arch));
      FetchFaultIff(z, m, Pc(m.arch));
    } else {
      var o := z.handle(i, m.arch);
      assert Kept(i, m.arch, o);
      if o.Trap? || o.TrapStop? {
        NotPoison(o.target);
        FetchFaultIff(z, m.(arch := o.s), o.target);
      }
    }
  }

  lemma NotPoison(pc: U64)
    requires Even(pc)
    ensures pc != C.POISON
  {
    EvenIsMod(pc);
  }

  /** From an honest instruction, a crash on a readable block is the plain machine's failure too,
      and the plain machine fails only there. */
  lemma FailTogether(z: Semantics, m: Machine)
    requires Lawful(z) && Inv(m) && Runnable(m) && Honest(z, m) && Reads(z, m) && Current(m).op != BB_END
    ensures Step(z, m).Crashed? <==> PlainStep(z, m.arch).Failed?
    ensures Step(z, m).Go? <==> PlainStep(z, m.arch).Ran?
    ensures Step(z, m).Finished? <==> PlainStep(z, m.arch).Ended?
  {
    StepCrashesIff(z, m);
    StepSimulates(z, m);
  }
}
