/** Threaded execution against fetch-decode-execute, over whole runs. */
module Refinement {
  import opened Bits
  import opened Isa
  import opened FlatMemory
  import opened Handlers
  import opened Threaded
  import C = BlockCache

  // ---------------------------------------------------------------- the plain machine

  datatype Plain = Ran(s: Arch) | Ended(s: Arch) | Failed

  /** Fetch the word at the PC, decode it, apply its handler body. */
  function PlainStep(z: Semantics, s: Arch): Plain {
    match z.decode(s.mem, Pc(s))
    case Missing => Failed
    case Code(i) =>
      match z.handle(i, s)
      case Next(t) => Ran(Retire(t))
      case Trap(t, _) => Ran(Retire(t))
      case TrapStop(t, _) => Ended(t)
      case Stop(t) => Ended(t)
      case Abort(_) => Failed
  }

  // ---------------------------------------------------------------- coherence

  /** Address of slot `k` of a block; the PC wraps at 64 bits. */
  function SlotAddress(pc: nat, k: nat): U64 {
    Wrap(pc + 4 * k)
  }

  /** The entry is what assembly at its PC gives now: the words from its PC on, up to the
      first jump or seven of them. */
  ghost predicate Fresh(z: Semantics, mem: Mem, e: C.Entry<Block>, n: nat) {
    && EndsAt(e.body, n)
    && (forall k :: 0 <= k < n ==> z.decode(mem, SlotAddress(e.pc, k)) == Code(e.body[k]))
    && (forall k :: 0 <= k < n - 1 ==> !IsJump(e.body[k].op))
    && (n == CAPACITY - 1 || IsJump(e.body[n - 1].op))
  }

  /** Every cached block agrees with memory. */
  ghost predicate Coherent(z: Semantics, c: Cache, mem: Mem) {
    match c
    case Cache(_, _) => C.Shaped(c) && forall j: nat :: Filled(c, j) ==> exists n :: Fresh(z, mem, c.entries[j], n)
  }

  /** The pointer is where the PC says, or on a sentinel about to refetch. */
  ghost predicate InStep(m: Machine)
    requires Pointing(m)
  {
    Current(m).op == BB_END || Pc(m.arch) == SlotAddress(m.cache.entries[m.way].pc, m.slot)
  }

  ghost predicate Synced(z: Semantics, m: Machine) {
    match m
    case Machine(arch, cache, _, _) => Inv(m) && Pointing(m) && Coherent(z, cache, arch.mem) && InStep(m)
  }

  // ---------------------------------------------------------------- what a run must respect

  /** `[a, a + n)` meets no word of a cached block. */
  ghost predicate MissesCode(c: Cache, a: nat, n: nat)
    requires C.Shaped(c)
  {
    forall j: nat, k: nat :: Filled(c, j) && Inside(c.entries[j].body, k + 1) ==>
      var w := SlotAddress(c.entries[j].pc, k); a + n <= w || w + 4 <= a
  }

  /** The instruction at a trap target ends its block at once. */
  predicate JumpAt(z: Semantics, mem: Mem, a: nat) {
    match z.decode(mem, a)
    case Missing => false
    case Code(i) => IsJump(i.op)
  }

  /** Slot `k` lies before the sentinel. */
  ghost predicate CodeSlot(b: Block, k: nat) {
    Inside(b, k + 1)
  }

  /** Every cached word decodes in `mem'` as in `mem`. */
  ghost predicate SameCode(z: Semantics, c: Cache, mem: Mem, mem': Mem)
    requires C.Shaped(c)
  {
    forall j: nat, k: nat :: Filled(c, j) && CodeSlot(c.entries[j].body, k) ==>
      z.decode(mem', SlotAddress(c.entries[j].pc, k)) == z.decode(mem, SlotAddress(c.entries[j].pc, k))
  }

  /** What the next step must respect to stay synchronised, and no more: it leaves every cached
      word decoding as it does, and traps to a jump unless the handler itself moves the PC on to
      the word after. */
  ghost predicate Exact(z: Semantics, m: Machine)
    requires Runnable(m)
  {
    var i := Current(m);
    i.op != BB_END ==>
      match z.handle(i, m.arch)
      case Next(s) => SameCode(z, m.cache, m.arch.mem, s.mem)
      case Trap(s, target) => JumpAt(z, m.arch.mem, target) || Pc(s) == SlotAddress(target, 1)
      case _ => true
  }

  /** Enough for that: the step stores into no cached code and traps only to a jump. */
  ghost predicate Polite(z: Semantics, m: Machine)
    requires Runnable(m)
  {
    var i := Current(m);
    i.op != BB_END ==>
      && (IsStore(i.op) ==> MissesCode(m.cache, Address(i, m.arch), Width(i.op)))
      && (z.handle(i, m.arch).Trap? ==> JumpAt(z, m.arch.mem, z.handle(i, m.arch).target))
  }

  // ---------------------------------------------------------------- one step

  /** The first `count` slots hold the words from `start` on, none of them a jump. */
  ghost predicate Prefix(z: Semantics, mem: Mem, start: U64, count: nat, b: Block) {
    forall k :: 0 <= k < count && k < CAPACITY ==>
      z.decode(mem, SlotAddress(start, k)) == Code(b[k]) && Decoded(b[k]) && !IsJump(b[k].op)
  }

  lemma PrefixGrows(z: Semantics, mem: Mem, start: U64, count: nat, n: nat, b: Block, i: Instr)
    requires Prefix(z, mem, start, count, b) && n == count + 1 < CAPACITY
    requires z.decode(mem, SlotAddress(start, count)) == Code(i) && Decoded(i) && !IsJump(i.op)
    ensures Prefix(z, mem, start, n, b[count := i])
  {
  }

  lemma {:induction false} AssembleFresh(z: Semantics, mem: Mem, pc: U64, start: U64, count: nat, body: Block)
    requires Lawful(z) && count < CAPACITY - 1 && pc == SlotAddress(start, count)
    requires Prefix(z, mem, start, count, body)
    ensures var r := Assemble(z, mem, pc, count, body);
            r.Ready? ==> exists n :: Fresh(z, mem, C.Entry(start, r.body), n)
    decreases CAPACITY - count
  {
    var d := z.decode(mem, pc);
    if d.Code? {
      assert Decoded(d.i);
      var n := count + 1;
      if IsJump(d.i.op) || n == CAPACITY - 1 {
        EndFresh(z, mem, start, count, n, body, d.i);
      } else {
        var next := Wrap(pc + 4);
        NextSlot(start, count);
        PrefixGrows(z, mem, start, count, n, body, d.i);
        AssembleFresh(z, mem, next, start, n, body[count := d.i]);
      }
    }
  }

  /** The sentinel placed after the last word. */
  lemma EndFresh(z: Semantics, mem: Mem, start: U64, count: nat, n: nat, b: Block, i: Instr)
    requires Prefix(z, mem, start, count, b) && n == count + 1 < CAPACITY && (IsJump(i.op) || n == CAPACITY - 1)
    requires z.decode(mem, SlotAddress(start, count)) == Code(i) && Decoded(i)
    ensures var c: Block := b[count := i]; Fresh(z, mem, C.Entry(start, c[n := c[n].(op := BB_END)]), n)
  {
  }

  lemma NextSlot(start: nat, k: nat)
    ensures Wrap(SlotAddress(start, k) + 4) == SlotAddress(start, k + 1)
  {
    var x := start + 4 * k;
    assert x % TWO64 == x - TWO64 * (x / TWO64);
    WrapAdd(x, 4);
  }

  lemma WrapAdd(x: nat, y: nat)
    ensures Wrap(Wrap(x) + y) == Wrap(x + y)
  {
    var q := x / TWO64;
    assert x + y == TWO64 * q + (Wrap(x) + y);
    var z := Wrap(x) + y;
    DivUnique(x + y, TWO64, q + z / TWO64, z % TWO64);
  }

  lemma InstallCoherent(z: Semantics, c: Cache, mem: Mem, pc: nat, b: Block)
    requires C.WellPlaced(c) && Coherent(z, c, mem) && pc != C.POISON && !C.Lookup(c, pc).hit
    requires exists n :: Fresh(z, mem, C.Entry(pc, b), n)
    ensures var f := C.Lookup(c, pc); Coherent(z, C.Install(f.cache, f.index, pc, b), mem)
  {
    C.LookupFinds(c, pc);
    var f := C.Lookup(c, pc);
    var c' := C.Install(f.cache, f.index, pc, b);
    forall j: nat | Filled(c', j)
      ensures exists n :: Fresh(z, mem, c'.entries[j], n)
    {
      if j != f.index {
        assert Filled(c, j);
        assert c'.entries[j] == c.entries[j];
      }
    }
  }

  lemma MissSyncs(z: Semantics, c: Cache, mem: Mem, pc: U64, body: Block)
    requires Lawful(z) && C.WellPlaced(c) && Coherent(z, c, mem) && pc != C.POISON && !C.Lookup(c, pc).hit
    ensures var r := Assemble(z, mem, pc, 0, body);
            var f := C.Lookup(c, pc);
            r.Ready? ==> Coherent(z, C.Install(f.cache, f.index, pc, r.body), mem)
  {
    StartSlot(pc);
    AssembleFresh(z, mem, pc, pc, 0, body);
    var r := Assemble(z, mem, pc, 0, body);
    if r.Ready? {
      InstallCoherent(z, c, mem, pc, r.body);
    }
  }

  lemma FetchSyncs(z: Semantics, m: Machine, pc: U64)
    requires Lawful(z) && Sane(m.arch) && Closed(m.cache) && Coherent(z, m.cache, m.arch.mem) && Even(pc)
    ensures var f := FetchBB(z, m, pc); f.Arrived? ==> Coherent(z, f.m.cache, m.arch.mem)
  {
    assert pc != C.POISON by {
      EvenIsMod(pc);
    }
    var f := C.Lookup(m.cache, pc);
    if f.hit {
      C.LookupFinds(m.cache, pc);
    } else {
      MissSyncs(z, m.cache, m.arch.mem, pc, f.cache.entries[f.index].body);
    }
  }

  lemma StartSlot(pc: U64)
    ensures SlotAddress(pc, 0) == pc
  {
  }

  /** A slot before a fresh entry's sentinel holds the word of its address, and a jump is last. */
  lemma SlotFetched(z: Semantics, mem: Mem, e: C.Entry<Block>, n: nat, k: nat)
    requires Fresh(z, mem, e, n) && k < n
    ensures z.decode(mem, SlotAddress(e.pc, k)) == Code(e.body[k])
    ensures IsJump(e.body[k].op) ==> k + 1 < CAPACITY && e.body[k + 1].op == BB_END
  {
  }

  lemma BeforeEnd(b: Block, slot: nat, n: nat)
    requires Inside(b, slot) && EndsAt(b, n) && slot < CAPACITY && b[slot].op != BB_END
    ensures slot < n
  {
    var n' :| EndsAt(b, n') && slot <= n';
    SameEnd(b, n, n');
  }

  lemma SyncedEntry(z: Semantics, m: Machine) returns (n: nat)
    requires Synced(z, m)
    ensures Pointing(m) && Fresh(z, m.arch.mem, m.cache.entries[m.way], n)
    ensures Inside(m.cache.entries[m.way].body, m.slot) && InStep(m)
  {
    assert Filled(m.cache, m.way);
    n :| Fresh(z, m.arch.mem, m.cache.entries[m.way], n);
  }

  /** Below its sentinel, a synced pointer is on the instruction the PC names. */
  lemma CurrentIsFetched(z: Semantics, m: Machine)
    requires Synced(z, m) && Current(m).op != BB_END
    ensures z.decode(m.arch.mem, Pc(m.arch)) == Code(Current(m))
    ensures IsJump(Current(m).op) ==> m.slot + 1 < CAPACITY && m.cache.entries[m.way].body[m.slot + 1].op == BB_END
  {
    var n := SyncedEntry(z, m);
    BeforeEnd(m.cache.entries[m.way].body, m.slot, n);
    SlotFetched(z, m.arch.mem, m.cache.entries[m.way], n, m.slot);
  }

  /** The instruction about to be dispatched, if it is one, is the one memory holds at the PC. */
  predicate Honest(z: Semantics, m: Machine)
    requires Runnable(m)
  {
    Current(m).op != BB_END ==> z.decode(m.arch.mem, Pc(m.arch)) == Code(Current(m))
  }

  lemma SyncedIsHonest(z: Semantics, m: Machine)
    requires Synced(z, m) && Runnable(m)
    ensures Honest(z, m)
  {
    if Current(m).op != BB_END {
      CurrentIsFetched(z, m);
    }
  }

  lemma SameEnd(b: Block, n: nat, n': nat)
    requires EndsAt(b, n) && EndsAt(b, n')
    ensures n == n'
  {
  }

  lemma WordSurvives(mem: Mem, mem': Mem, a: nat, n: nat, w: nat)
    requires mem'.devices == mem.devices && SameOutside(mem'.bytes, mem.bytes, a, n)
    requires a + n <= w || w + 4 <= a
    ensures SameWord(mem, mem', w)
  {
  }

  lemma EntrySurvives(z: Semantics, mem: Mem, mem': Mem, e: C.Entry<Block>, a: nat, n: nat, end: nat)
    requires Lawful(z) && Fresh(z, mem, e, end)
    requires mem'.devices == mem.devices && SameOutside(mem'.bytes, mem.bytes, a, n)
    requires forall k :: 0 <= k < end ==> var w := SlotAddress(e.pc, k); a + n <= w || w + 4 <= a
    ensures Fresh(z, mem', e, end)
  {
    forall k | 0 <= k < end
      ensures z.decode(mem', SlotAddress(e.pc, k)) == Code(e.body[k])
    {
      WordSurvives(mem, mem', a, n, SlotAddress(e.pc, k));
    }
  }

  /** A store beside cached code keeps coherence. */
  lemma StoreKeepsCoherent(z: Semantics, c: Cache, mem: Mem, mem': Mem, a: nat, n: nat)
    requires Lawful(z) && Coherent(z, c, mem) && MissesCode(c, a, n)
    requires mem'.devices == mem.devices && SameOutside(mem'.bytes, mem.bytes, a, n)
    ensures Coherent(z, c, mem')
  {
    forall j: nat | Filled(c, j)
      ensures exists e: nat :: Fresh(z, mem', c.entries[j], e)
    {
      var e: nat :| Fresh(z, mem, c.entries[j], e);
      forall k | 0 <= k < e
        ensures var w := SlotAddress(c.entries[j].pc, k); a + n <= w || w + 4 <= a
      {
        assert EndsAt(c.entries[j].body, e) && k + 1 <= e;
        assert Inside(c.entries[j].body, k + 1);
      }
      EntrySurvives(z, mem, mem', c.entries[j], a, n, e);
    }
  }

  /** Exactly: a store keeps coherence if and only if every cached word still decodes as it did. */
  lemma CoherentAfterIff(z: Semantics, c: Cache, mem: Mem, mem': Mem)
    requires Coherent(z, c, mem)
    ensures Coherent(z, c, mem') <==> SameCode(z, c, mem, mem')
  {
    forall j: nat | Filled(c, j)
      ensures (exists n :: Fresh(z, mem', c.entries[j], n)) <==>
              forall k: nat :: CodeSlot(c.entries[j].body, k) ==>
                z.decode(mem', SlotAddress(c.entries[j].pc, k)) == z.decode(mem, SlotAddress(c.entries[j].pc, k))
    {
      FreshAfterIff(z, mem, mem', c.entries[j]);
    }
  }

  lemma FreshAfterIff(z: Semantics, mem: Mem, mem': Mem, e: C.Entry<Block>)
    requires exists n :: Fresh(z, mem, e, n)
    ensures (exists n :: Fresh(z, mem', e, n)) <==>
            forall k: nat :: CodeSlot(e.body, k) ==>
              z.decode(mem', SlotAddress(e.pc, k)) == z.decode(mem, SlotAddress(e.pc, k))
  {
    var n :| Fresh(z, mem, e, n);
    forall k: nat
      ensures CodeSlot(e.body, k) <==> k < n
    {
      if CodeSlot(e.body, k) {
        var n' :| EndsAt(e.body, n') && k + 1 <= n';
        SameEnd(e.body, n, n');
      }
    }
    if n' :| Fresh(z, mem', e, n') {
      SameEnd(e.body, n, n');
    }
    if forall k: nat :: CodeSlot(e.body, k) ==>
         z.decode(mem', SlotAddress(e.pc, k)) == z.decode(mem, SlotAddress(e.pc, k)) {
      assert Fresh(z, mem', e, n);
    }
  }

  /** A polite step respects what it must. */
  lemma PoliteIsExact(z: Semantics, m: Machine)
    requires Lawful(z) && Synced(z, m) && Runnable(m) && Polite(z, m)
    ensures Exact(z, m)
  {
    var i := Current(m);
    if i.op != BB_END && z.handle(i, m.arch).Next? {
      NextCoherent(z, m);
      CoherentAfterIff(z, m.cache, m.arch.mem, z.handle(i, m.arch).s.mem);
    }
  }

  lemma NextCoherent(z: Semantics, m: Machine)
    requires Lawful(z) && Inv(m) && Coherent(z, m.cache, m.arch.mem) && Runnable(m) && Current(m).op != BB_END
    requires IsStore(Current(m).op) ==> MissesCode(m.cache, Address(Current(m), m.arch), Width(Current(m).op))
    requires z.handle(Current(m), m.arch).Next?
    ensures Coherent(z, m.cache, z.handle(Current(m), m.arch).s.mem)
  {
    var i := Current(m);
    var o := z.handle(i, m.arch);
    assert Kept(i, m.arch, o);
    StoreKinds(i.op);
    if IsStore(i.op) {
      StoreKeepsCoherent(z, m.cache, m.arch.mem, o.s.mem, Address(i, m.arch), Width(i.op));
    }
  }

  lemma StraightMovesPc(i: Instr, s: Arch, o: Outcome)
    requires Decoded(i) && Kept(i, s, o) && o.Next? && !IsJump(i.op)
    ensures Pc(o.s) == Wrap(Pc(s) + 4)
  {
    JumpKinds(i.op);
  }

  lemma SlotAdvances(e: C.Entry<Block>, slot: nat, pc: U64, pc': U64)
    requires pc == SlotAddress(e.pc, slot) && pc' == Wrap(pc + 4)
    ensures pc' == SlotAddress(e.pc, slot + 1)
  {
    NextSlot(e.pc, slot);
  }

  lemma InStepAfter(m: Machine, s: Arch)
    requires Pointing(m) && m.slot + 1 < CAPACITY
    requires var e := m.cache.entries[m.way];
             || e.body[m.slot + 1].op == BB_END
             || (Pc(m.arch) == SlotAddress(e.pc, m.slot) && Pc(s) == Wrap(Pc(m.arch) + 4))
    ensures InStep(Advance(m, s))
  {
    var e := m.cache.entries[m.way];
    if e.body[m.slot + 1].op != BB_END {
      SlotAdvances(e, m.slot, Pc(m.arch), Pc(s));
    }
  }

  lemma NextInStep(z: Semantics, m: Machine)
    requires Lawful(z) && Synced(z, m) && Runnable(m) && Current(m).op != BB_END
    requires z.handle(Current(m), m.arch).Next? && m.slot + 1 < CAPACITY
    ensures InStep(Advance(m, z.handle(Current(m), m.arch).s))
  {
    var i := Current(m);
    CurrentIsFetched(z, m);
    if !IsJump(i.op) {
      StraightMovesPc(i, m.arch, z.handle(i, m.arch));
    }
    InStepAfter(m, z.handle(i, m.arch).s);
  }

  lemma NextSyncedIff(z: Semantics, m: Machine)
    requires Lawful(z) && Synced(z, m) && Runnable(m) && Current(m).op != BB_END
    requires z.handle(Current(m), m.arch).Next?
    ensures Synced(z, Advance(m, z.handle(Current(m), m.arch).s)) <==> Exact(z, m)
  {
    var s := z.handle(Current(m), m.arch).s;
    NextKeepsInv(z, m);
    InvRunnable(Advance(m, s));
    NextInStep(z, m);
    CoherentAfterIff(z, m.cache, m.arch.mem, s.mem);
  }

  /** After a trap the pointer is on slot 1 of the target's block.  It agrees with the PC
      exactly when the target instruction is a jump, so that slot 1 is the sentinel, or the
      handler itself moved the PC one word past the target. */
  lemma TrapInStepIff(z: Semantics, m: Machine)
    requires Lawful(z) && Synced(z, m) && Runnable(m) && Current(m).op != BB_END
    requires z.handle(Current(m), m.arch).Trap? && Step(z, m).Go?
    ensures var o := z.handle(Current(m), m.arch);
            && Inv(Step(z, m).m) && Pointing(Step(z, m).m)
            && Coherent(z, Step(z, m).m.cache, Step(z, m).m.arch.mem)
            && (InStep(Step(z, m).m) <==> JumpAt(z, m.arch.mem, o.target) || Pc(o.s) == SlotAddress(o.target, 1))
  {
    var o := z.handle(Current(m), m.arch);
    assert Kept(Current(m), m.arch, o);
    TrapKeepsInv(z, m);
    FetchSyncs(z, m.(arch := o.s), o.target);
    SecondSlot(z, FetchBB(z, m.(arch := o.s), o.target).m, o.target);
    InvRunnable(Step(z, m).m);
  }

  lemma SecondSlot(z: Semantics, m: Machine, pc: U64)
    requires Inv(m) && Coherent(z, m.cache, m.arch.mem) && m.cache.entries[m.way].pc == pc
    ensures var b := m.cache.entries[m.way].body;
            && (b[1].op == BB_END <==> JumpAt(z, m.arch.mem, pc))
            && (b[1].op != BB_END ==> z.decode(m.arch.mem, SlotAddress(pc, 1)) == Code(b[1]))
  {
    var e := m.cache.entries[m.way];
    assert Filled(m.cache, m.way);
    var n :| Fresh(z, m.arch.mem, e, n);
    StartSlot(pc);
    assert z.decode(m.arch.mem, SlotAddress(pc, 0)) == Code(e.body[0]);
    if n > 1 {
      assert z.decode(m.arch.mem, SlotAddress(pc, 1)) == Code(e.body[1]);
    }
  }

  lemma TrapSyncedIff(z: Semantics, m: Machine)
    requires Lawful(z) && Synced(z, m) && Runnable(m) && Current(m).op != BB_END
    requires z.handle(Current(m), m.arch).Trap? && Step(z, m).Go?
    ensures Synced(z, Step(z, m).m) <==> Exact(z, m)
  {
    TrapInStepIff(z, m);
  }

  /** A step leaves cached blocks equal to memory, and pointer and PC together, if and only if it
      respects `Exact`. */
  lemma StepSyncedIff(z: Semantics, m: Machine)
    requires Lawful(z) && Synced(z, m) && Runnable(m) && Step(z, m).Go?
    ensures Synced(z, Step(z, m).m) <==> Exact(z, m)
  {
    var i := Current(m);
    if i.op == BB_END {
      RefetchSyncs(z, m);
    } else if z.handle(i, m.arch).Next? {
      NextSyncedIff(z, m);
    } else {
      TrapSyncedIff(z, m);
    }
  }

  /** An honest step of the threaded machine is one step of the plain machine, or a refetch that
      changes no architectural state; and they end together. */
  lemma StepSimulates(z: Semantics, m: Machine)
    requires Lawful(z) && Inv(m) && Runnable(m) && Honest(z, m)
    ensures var r := Step(z, m);
            && (r.Go? && Current(m).op == BB_END ==> r.m.arch == m.arch)
            && (r.Go? && Current(m).op != BB_END ==> PlainStep(z, m.arch) == Ran(r.m.arch))
            && (r.Finished? ==> PlainStep(z, m.arch) == Ended(r.arch))
  {
    var i := Current(m);
    if i.op == BB_END {
      FetchKeepsInv(z, m, Pc(m.arch));
    } else if z.handle(i, m.arch).Trap? {
      TrapKeepsInv(z, m);
    }
  }

  lemma RefetchSyncs(z: Semantics, m: Machine)
    requires Lawful(z) && Sane(m.arch) && Closed(m.cache) && Coherent(z, m.cache, m.arch.mem)
    ensures var f := FetchBB(z, m, Pc(m.arch)); f.Arrived? ==> Synced(z, f.m) && f.m.arch == m.arch
  {
    FetchKeepsInv(z, m, Pc(m.arch));
    FetchSyncs(z, m, Pc(m.arch));
    var f := FetchBB(z, m, Pc(m.arch));
    if f.Arrived? {
      StartSlot(Pc(m.arch));
      InvRunnable(f.m);
    }
  }

  lemma FirstIsCode(m: Machine)
    requires Inv(m) && m.slot == 0 && Pointing(m)
    ensures Current(m).op != BB_END
  {
    var n :| EndsAt(m.cache.entries[m.way].body, n) && 0 <= n;
  }
}
