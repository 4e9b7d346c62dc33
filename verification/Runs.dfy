/** What holds over every run of the threaded machine. */
module Runs {
  import opened Bits
  import opened Isa
  import opened FlatMemory
  import opened Handlers
  import opened Threaded
  import opened Refinement
  import opened Readability
  import Csr
  import Decoder
  import C = BlockCache

  /** The machine after `n` steps, or how it stopped before. */
  function Run(step: Machine -> Stepped, m: Machine, n: nat): Stepped {
    if n == 0 then Go(m)
    else match Run(step, m, n - 1)
      case Go(x) => step(x)
      case other => other
  }

  /** Once ended, a run stays as it ended. */
  lemma {:induction false} EndedStays(step: Machine -> Stepped, m: Machine, k: nat, n: nat)
    requires k <= n && !Run(step, m, k).Go?
    ensures Run(step, m, n) == Run(step, m, k)
    decreases n
  {
    if k < n {
      EndedStays(step, m, k, n - 1);
    }
  }

  /** A run going on from a result. */
  function Continued(step: Machine -> Stepped, r: Stepped, n: nat): Stepped {
    match r
    case Go(x) => Run(step, x, n)
    case other => other
  }

  /** A run is its first step and the run from there. */
  lemma {:induction false} RunFirst(step: Machine -> Stepped, m: Machine, n: nat, rest: nat)
    requires n == rest + 1
    ensures Run(step, m, n) == Continued(step, step(m), rest)
    decreases n
  {
    if rest > 0 {
      RunFirst(step, m, rest, rest - 1);
    }
  }

  /** `n` instructions of a plain machine, or no state if it stops sooner. */
  function PlainRun(step: Arch -> Plain, s: Arch, n: nat): Plain {
    if n == 0 then Ran(s)
    else match PlainRun(step, s, n - 1)
      case Ran(t) => step(t)
      case _ => Failed
  }

  /** `step` is the threaded machine on the states it reaches. */
  ghost predicate Threads(z: Semantics, step: Machine -> Stepped) {
    forall m {:trigger Inv(m)} :: Inv(m) && Runnable(m) ==> step(m) == Step(z, m)
  }

  /** `step` is the plain machine on the states it reaches. */
  ghost predicate Walks(z: Semantics, step: Arch -> Plain) {
    forall s {:trigger Sane(s)} :: Sane(s) ==> step(s) == PlainStep(z, s)
  }

  function Threading(z: Semantics): (step: Machine -> Stepped)
    ensures Threads(z, step)
  {
    m => if Runnable(m) then Step(z, m) else Crashed
  }

  function OneByOne(z: Semantics): (step: Arch -> Plain)
    ensures Walks(z, step)
  {
    s => PlainStep(z, s)
  }

  /** What every step keeps, every run keeps. */
  lemma {:induction false} RunKeeps(step: Machine -> Stepped, good: Machine -> bool, m: Machine, n: nat)
    requires good(m) && forall x :: good(x) && step(x).Go? ==> good(step(x).m)
    ensures Run(step, m, n).Go? ==> good(Run(step, m, n).m)
    decreases n
  {
    if n > 0 {
      RunKeeps(step, good, m, n - 1);
    }
  }

  lemma {:induction false} RunKeepsWhile(
    step: Machine -> Stepped, good: Machine -> bool, fine: Machine -> bool, m: Machine, n: nat)
    requires good(m) && forall x :: good(x) && fine(x) && step(x).Go? ==> good(step(x).m)
    requires forall k: nat :: k < n && Run(step, m, k).Go? ==> fine(Run(step, m, k).m)
    ensures Run(step, m, n).Go? ==> good(Run(step, m, n).m)
    decreases n
  {
    if n > 0 {
      RunKeepsWhile(step, good, fine, m, n - 1);
    }
  }

  // ---------------------------------------------------------------- safety, for arbitrary programs

  /** Over every run, whatever is in memory: the PC is even and so never the poison tag, the
      CSRs are legal, and the pointer stays between its block's first slot and sentinel. */
  lemma EveryRunIsSafe(z: Semantics, step: Machine -> Stepped, m: Machine, n: nat)
    requires Lawful(z) && Threads(z, step) && Inv(m)
    ensures var r := Run(step, m, n);
            r.Go? ==>
              && Inv(r.m) && Runnable(r.m)
              && Pc(r.m.arch) % 2 == 0 && Pc(r.m.arch) != C.POISON
              && r.m.slot < CAPACITY && Csr.Legal(r.m.arch.csr)
  {
    forall x | Inv(x) && step(x).Go?
      ensures Inv(step(x).m)
    {
      StepKeepsInv(z, x);
    }
    RunKeeps(step, x => Inv(x), m, n);
    var r := Run(step, m, n);
    if r.Go? {
      InvFacts(r.m);
    }
  }

  lemma InvFacts(m: Machine)
    requires Inv(m)
    ensures Runnable(m) && Pc(m.arch) % 2 == 0 && Pc(m.arch) != C.POISON
    ensures m.slot < CAPACITY && Csr.Legal(m.arch.csr)
  {
    InvRunnable(m);
    EvenIsMod(Pc(m.arch));
  }

  /** A step retires one instruction, or refetches and lands on one. */
  lemma StepRetires(z: Semantics, m: Machine)
    requires Lawful(z) && Inv(m) && Runnable(m) && Step(z, m).Go?
    ensures var m' := Step(z, m).m;
            && Runnable(m')
            && m'.arch.retired == m.arch.retired + (if Current(m).op == BB_END then 0 else 1)
            && (Current(m).op == BB_END ==> Current(m').op != BB_END)
  {
    StepKeepsInv(z, m);
    var m' := Step(z, m).m;
    InvRunnable(m');
    if Current(m).op == BB_END {
      FetchKeepsInv(z, m, Pc(m.arch));
      FirstIsCode(m');
    } else {
      assert Kept(Current(m), m.arch, z.handle(Current(m), m.arch));
    }
  }

  /** Steps still to be paid for by the next retirement. */
  function Debt(m: Machine): nat {
    if Pointing(m) && Current(m).op == BB_END then 0 else 1
  }

  lemma {:induction false} DebtBounded(step: Machine -> Stepped, good: Machine -> bool, m: Machine, n: nat)
    requires good(m)
    requires forall x :: good(x) && step(x).Go? ==>
               var x' := step(x).m;
               good(x') && 2 * x'.arch.retired + Debt(x') >= 2 * x.arch.retired + Debt(x) + 1
    ensures var r := Run(step, m, n);
            r.Go? ==> good(r.m) && n <= 2 * (r.m.arch.retired - m.arch.retired) + Debt(r.m)
    decreases n
  {
    if n > 0 {
      DebtBounded(step, good, m, n - 1);
    }
  }

  /** The pointer is on a sentinel at most every other step, so a run keeps retiring. */
  lemma RunsMakeProgress(z: Semantics, step: Machine -> Stepped, m: Machine, n: nat)
    requires Lawful(z) && Threads(z, step) && Inv(m)
    ensures var r := Run(step, m, n); r.Go? ==> n <= 2 * (r.m.arch.retired - m.arch.retired) + 1
  {
    forall x | Inv(x) && step(x).Go?
      ensures var x' := step(x).m;
              Inv(x') && 2 * x'.arch.retired + Debt(x') >= 2 * x.arch.retired + Debt(x) + 1
    {
      StepKeepsInv(z, x);
      StepRetires(z, x);
    }
    DebtBounded(step, x => Inv(x), m, n);
  }

  // ---------------------------------------------------------------- refinement

  /** Each of the first `n` steps respects `Exact`. */
  ghost predicate ExactRun(z: Semantics, step: Machine -> Stepped, m: Machine, n: nat) {
    forall k: nat :: k < n ==> ExactNow(z, Run(step, m, k))
  }

  ghost predicate ExactNow(z: Semantics, r: Stepped) {
    match r
    case Go(m) => Runnable(m) ==> Exact(z, m)
    case _ => true
  }

  /** Each of the first `n` dispatches is of the instruction memory holds at the PC. */
  ghost predicate HonestRun(z: Semantics, step: Machine -> Stepped, m: Machine, n: nat) {
    forall k: nat :: k < n ==> HonestNow(z, Run(step, m, k))
  }

  predicate HonestNow(z: Semantics, r: Stepped) {
    match r
    case Go(m) => Runnable(m) ==> Honest(z, m)
    case _ => true
  }

  /** A step is one plain step and retires one, or changes no architectural state. */
  predicate Simulated(plain: Arch -> Plain, m: Machine, m': Machine) {
    m'.arch == m.arch || (plain(m.arch) == Ran(m'.arch) && m'.arch.retired == m.arch.retired + 1)
  }

  /** `t` is where the plain machine is after the instructions `t` has retired since `s`. */
  predicate Reached(plain: Arch -> Plain, s: Arch, t: Arch) {
    match t
    case Arch(_, _, _, retired) => retired >= s.retired && PlainRun(plain, s, retired - s.retired) == Ran(t)
  }

  lemma {:induction false} RunSimulates(
    step: Machine -> Stepped, plain: Arch -> Plain, good: Machine -> bool, fine: Machine -> bool, m: Machine, n: nat)
    requires good(m)
    requires forall x :: good(x) && fine(x) && step(x).Go? ==> good(step(x).m) && Simulated(plain, x, step(x).m)
    requires forall k: nat :: k < n && Run(step, m, k).Go? ==> fine(Run(step, m, k).m)
    ensures var r := Run(step, m, n);
            r.Go? ==> good(r.m) && Reached(plain, m.arch, r.m.arch)
    decreases n
  {
    if n > 0 {
      RunSimulates(step, plain, good, fine, m, n - 1);
    }
  }

  lemma StepIsSimulated(z: Semantics, step: Machine -> Stepped, plain: Arch -> Plain, m: Machine)
    requires Lawful(z) && Threads(z, step) && Walks(z, plain) && Inv(m) && HonestNow(z, Go(m)) && step(m).Go?
    ensures Inv(step(m).m) && Simulated(plain, m, step(m).m)
  {
    StepKeepsInv(z, m);
    StepSimulates(z, m);
    StepRetires(z, m);
  }

  /** The cached, threaded machine is the plain one: after any run that dispatches what memory
      holds at the PC, registers, PC, CSRs, privilege, memory and retired count are those of the
      plain machine after as many instructions. */
  lemma RunRefines(z: Semantics, step: Machine -> Stepped, plain: Arch -> Plain, m: Machine, n: nat)
    requires Lawful(z) && Threads(z, step) && Walks(z, plain)
    requires Inv(m) && HonestRun(z, step, m, n)
    ensures var r := Run(step, m, n);
            r.Go? ==> Inv(r.m) && Reached(plain, m.arch, r.m.arch)
  {
    forall x | Inv(x) && HonestNow(z, Go(x)) && step(x).Go?
      ensures Inv(step(x).m) && Simulated(plain, x, step(x).m)
    {
      StepIsSimulated(z, step, plain, x);
    }
    RunSimulates(step, plain, x => Inv(x), x => HonestNow(z, Go(x)), m, n);
  }

  /** Exact steps keep cached code equal to memory, and the pointer with the PC. */
  lemma ExactStaysSynced(z: Semantics, step: Machine -> Stepped, m: Machine, n: nat)
    requires Lawful(z) && Threads(z, step) && Synced(z, m) && ExactRun(z, step, m, n)
    ensures var r := Run(step, m, n); r.Go? ==> Synced(z, r.m)
  {
    forall x | Synced(z, x) && ExactNow(z, Go(x)) && step(x).Go?
      ensures Synced(z, step(x).m)
    {
      InvRunnable(x);
      StepSyncedIff(z, x);
    }
    RunKeepsWhile(step, x => Synced(z, x), x => ExactNow(z, Go(x)), m, n);
  }

  /** So a run of exact steps is honest, though an honest run need not be exact: code patched
      where it is rebuilt before it runs, or never runs, does no harm. */
  lemma ExactIsHonest(z: Semantics, step: Machine -> Stepped, m: Machine, n: nat)
    requires Lawful(z) && Threads(z, step) && Synced(z, m) && ExactRun(z, step, m, n)
    ensures HonestRun(z, step, m, n)
  {
    forall k: nat | k < n
      ensures HonestNow(z, Run(step, m, k))
    {
      ExactStaysSynced(z, step, m, k);
      var r := Run(step, m, k);
      if r.Go? && Runnable(r.m) {
        SyncedIsHonest(z, r.m);
      }
    }
  }

  /** How the threaded machine ends, the plain one does: in the same state when it stops on its
      own, and with a failure of its own when it crashes on anything but an unreadable block. */
  lemma RunEndsTogether(z: Semantics, step: Machine -> Stepped, plain: Arch -> Plain, m: Machine, n: nat)
    requires Lawful(z) && Threads(z, step) && Walks(z, plain)
    requires Inv(m) && HonestRun(z, step, m, n) && Run(step, m, n).Go? && HonestNow(z, Run(step, m, n))
    ensures var last := Run(step, m, n).m;
            && Runnable(last)
            && (step(last).Finished? ==> plain(last.arch) == Ended(step(last).arch))
            && (step(last).Crashed? ==> !Reads(z, last) || plain(last.arch) == Failed)
  {
    RunRefines(z, step, plain, m, n);
    var last := Run(step, m, n).m;
    InvRunnable(last);
    StepSimulates(z, last);
    if step(last).Crashed? {
      CrashIsFailure(z, last);
    }
  }

  lemma CrashIsFailure(z: Semantics, m: Machine)
    requires Lawful(z) && Inv(m) && Runnable(m) && Honest(z, m) && Step(z, m).Crashed?
    ensures !Reads(z, m) || PlainStep(z, m.arch) == Failed
  {
    StepCrashesIff(z, m);
  }

  // ---------------------------------------------------------------- every plain state is reached

  /** The dispatch is honest, and any block it fetches is cached or readable. */
  ghost predicate FineNow(z: Semantics, r: Stepped) {
    match r
    case Go(m) => Runnable(m) ==> Honest(z, m) && Reads(z, m)
    case _ => true
  }

  ghost predicate FineRun(z: Semantics, step: Machine -> Stepped, m: Machine, n: nat) {
    forall k: nat :: k < n ==> FineNow(z, Run(step, m, k))
  }

  /** The pointer is on an instruction. */
  predicate AtCode(m: Machine) {
    Pointing(m) && Current(m).op != BB_END
  }

  /** From a sentinel the step refetches; from an instruction it does what the plain machine
      does there, failures included. */
  predicate Follows(step: Machine -> Stepped, plain: Arch -> Plain, x: Machine) {
    match step(x)
    case Go(y) => if AtCode(x) then plain(x.arch) == Ran(y.arch) else AtCode(y) && y.arch == x.arch
    case Finished(s) => AtCode(x) && plain(x.arch) == Ended(s)
    case Crashed => AtCode(x) && plain(x.arch) == Failed
  }

  lemma StepFollows(z: Semantics, step: Machine -> Stepped, plain: Arch -> Plain, m: Machine)
    requires Lawful(z) && Threads(z, step) && Walks(z, plain) && Inv(m) && FineNow(z, Go(m))
    ensures Follows(step, plain, m) && (step(m).Go? ==> Inv(step(m).m))
  {
    StepKeepsInv(z, m);
    StepSimulates(z, m);
    StepCrashesIff(z, m);
    if Step(z, m).Go? {
      StepRetires(z, m);
    }
    if AtCode(m) {
      FailTogether(z, m);
    }
  }

  /** What the plain machine does next, as a result of the threaded one. */
  ghost predicate Matches(good: Machine -> bool, p: Plain, r: Stepped) {
    match p
    case Ran(s) => r.Go? && good(r.m) && r.m.arch == s
    case Ended(s) => r == Finished(s)
    case Failed => r == Crashed
  }

  /** One more plain instruction is one or two more dispatches. */
  lemma OneMore(step: Machine -> Stepped, plain: Arch -> Plain, good: Machine -> bool, fine: Machine -> bool,
                m: Machine, x: Machine, n: nat) returns (n': nat)
    requires Run(step, m, n) == Go(x) && good(x)
    requires forall y :: good(y) && fine(y) ==> Follows(step, plain, y) && (step(y).Go? ==> good(step(y).m))
    requires fine(x) && (step(x).Go? ==> fine(step(x).m))
    ensures n < n' <= n + 2 && Matches(good, plain(x.arch), Run(step, m, n'))
  {
    n' := n + 1;
    RunNext(step, m, x, n, n');
    if !AtCode(x) {
      var y, n1 := step(x).m, n';
      n' := n1 + 1;
      RunNext(step, m, y, n1, n');
    }
  }

  lemma RunNext(step: Machine -> Stepped, m: Machine, x: Machine, n: nat, next: nat)
    requires Run(step, m, n) == Go(x) && next == n + 1
    ensures Run(step, m, next) == step(x)
  {
  }

  lemma {:induction false} PlainReached(
    step: Machine -> Stepped, plain: Arch -> Plain, good: Machine -> bool, fine: Machine -> bool, m: Machine, k: nat)
    returns (n: nat)
    requires good(m)
    requires forall x :: good(x) && fine(x) ==> Follows(step, plain, x) && (step(x).Go? ==> good(step(x).m))
    requires forall j: nat :: j < 2 * k && Run(step, m, j).Go? ==> fine(Run(step, m, j).m)
    requires PlainRun(plain, m.arch, k).Ran?
    ensures n <= 2 * k && Matches(good, PlainRun(plain, m.arch, k), Run(step, m, n))
    decreases k
  {
    if k == 0 {
      n := 0;
    } else {
      var n0 := PlainReached(step, plain, good, fine, m, k - 1);
      var x := Run(step, m, n0).m;
      RunNext(step, m, x, n0, n0 + 1);
      n := OneMore(step, plain, good, fine, m, x, n0);
    }
  }

  lemma AllFollow(z: Semantics, step: Machine -> Stepped, plain: Arch -> Plain)
    requires Lawful(z) && Threads(z, step) && Walks(z, plain)
    ensures forall x :: Inv(x) && FineNow(z, Go(x)) ==>
              Follows(step, plain, x) && (step(x).Go? ==> Inv(step(x).m))
  {
    forall x | Inv(x) && FineNow(z, Go(x))
      ensures Follows(step, plain, x) && (step(x).Go? ==> Inv(step(x).m))
    {
      StepFollows(z, step, plain, x);
    }
  }

  /** Nothing the plain machine does is lost: when every dispatch is honest and every block fetched is
      cached or readable, each plain state is reached, within two dispatches an instruction. */
  lemma PlainIsReached(z: Semantics, step: Machine -> Stepped, plain: Arch -> Plain, m: Machine, k: nat)
    returns (n: nat)
    requires Lawful(z) && Threads(z, step) && Walks(z, plain)
    requires Inv(m) && FineRun(z, step, m, 2 * k) && PlainRun(plain, m.arch, k).Ran?
    ensures n <= 2 * k && Run(step, m, n).Go? && Inv(Run(step, m, n).m)
    ensures Run(step, m, n).m.arch == PlainRun(plain, m.arch, k).s
  {
    AllFollow(z, step, plain);
    n := PlainReached(step, plain, x => Inv(x), x => FineNow(z, Go(x)), m, k);
  }

  /** And the two end together: whatever the plain machine does after `k` instructions, stopping
      and failing included, the threaded one does at most two dispatches later. */
  lemma PlainEndIsReached(z: Semantics, step: Machine -> Stepped, plain: Arch -> Plain, m: Machine, k: nat)
    returns (n: nat)
    requires Lawful(z) && Threads(z, step) && Walks(z, plain)
    requires Inv(m) && FineRun(z, step, m, 2 * k + 2) && PlainRun(plain, m.arch, k).Ran?
    ensures n <= 2 * k + 2
    ensures Matches(x => Inv(x), plain(PlainRun(plain, m.arch, k).s), Run(step, m, n))
  {
    AllFollow(z, step, plain);
    var good, fine := (x: Machine) => Inv(x), (x: Machine) => FineNow(z, Go(x));
    var n0 := PlainReached(step, plain, good, fine, m, k);
    var x := Run(step, m, n0).m;
    RunNext(step, m, x, n0, n0 + 1);
    assert FineNow(z, Run(step, m, n0)) && FineNow(z, Run(step, m, n0 + 1));
    n := OneMore(step, plain, good, fine, m, x, n0);
  }

  // ---------------------------------------------------------------- power-on

  /** `Hart::run` from a fresh hart: PC 0, reset CSRs, poisoned cache, anything in the other
      registers and in memory. */
  ghost predicate PowerOn(m: Machine) {
    match m
    case Machine(arch, cache, _, _) => Pc(arch) == 0 && arch.csr == Csr.Reset() && C.Empty(cache)
  }

  /** `first` is the machine `run` starts from, its first block fetched. */
  ghost predicate Booted(z: Semantics, m: Machine, first: Machine) {
    match m
    case Machine(arch, cache, _, _) => PowerOn(m) && C.Shaped(cache) && FetchBB(z, m, Pc(arch)) == Arrived(first)
  }

  lemma PowerOnReady(z: Semantics, m: Machine)
    requires PowerOn(m)
    ensures Sane(m.arch) && Closed(m.cache) && Coherent(z, m.cache, m.arch.mem)
  {
    Csr.ResetIsLegal();
    EvenIsMod(0);
    assert forall j: nat :: C.Shaped(m.cache) && !Filled(m.cache, j);
  }

  /** A booted machine meets the precondition of `RunRefines`; with `Threaded.BesmLawful` the
      theorem therefore holds of the simulator from power-on, for every program. */
  lemma PowerOnSyncs(z: Semantics, m: Machine, first: Machine)
    requires Lawful(z) && Booted(z, m, first)
    ensures Synced(z, first) && first.arch == m.arch
  {
    PowerOnReady(z, m);
    RefetchSyncs(z, m);
  }

  /** The refinement from power-on: as long as it dispatches what memory holds at the PC,
      whatever the program, the threaded machine is where the plain one is after as many instructions from PC 0. */
  lemma RefinesFromPowerOn(z: Semantics, m: Machine, first: Machine, n: nat)
    requires Lawful(z) && Booted(z, m, first) && HonestRun(z, Threading(z), first, n)
    ensures first.arch == m.arch
    ensures var r := Run(Threading(z), first, n);
            r.Go? ==> Reached(OneByOne(z), first.arch, r.m.arch)
  {
    PowerOnSyncs(z, m, first);
    RunRefines(z, Threading(z), OneByOne(z), first, n);
  }

  /** From power-on exact steps are enough for that. */
  lemma ExactFromPowerOn(z: Semantics, m: Machine, first: Machine, n: nat)
    requires Lawful(z) && Booted(z, m, first) && ExactRun(z, Threading(z), first, n)
    ensures HonestRun(z, Threading(z), first, n)
    ensures var r := Run(Threading(z), first, n); r.Go? ==> Synced(z, r.m)
  {
    PowerOnSyncs(z, m, first);
    ExactIsHonest(z, Threading(z), first, n);
    ExactStaysSynced(z, Threading(z), first, n);
  }

  /** The last state before a run ended. */
  lemma {:induction false} LastGo(step: Machine -> Stepped, m: Machine, n: nat) returns (k: nat)
    requires !Run(step, m, n).Go?
    ensures k < n && Run(step, m, k).Go? && step(Run(step, m, k).m) == Run(step, m, n)
    decreases n
  {
    k := n - 1;
    if !Run(step, m, k).Go? {
      k := LastGo(step, m, k);
    }
  }

  /** After some instructions the plain machine's next step is `p`. */
  ghost predicate PlainEnds(plain: Arch -> Plain, s: Arch, p: Plain) {
    exists k: nat :: PlainRun(plain, s, k).Ran? && plain(PlainRun(plain, s, k).s) == p
  }

  /** However `n` steps leave the threaded machine, the plain one gets there: in as many
      instructions as were retired, at least one in two steps, or to the same end. */
  ghost predicate Shadowed(plain: Arch -> Plain, s: Arch, readable: bool, r: Stepped, n: nat) {
    match r
    case Go(m) => Reached(plain, s, m.arch) && n <= 2 * (m.arch.retired - s.retired) + 1
    case Finished(t) => PlainEnds(plain, s, Ended(t))
    case Crashed => readable ==> PlainEnds(plain, s, Failed)
  }

  lemma EndsFrom(plain: Arch -> Plain, s: Arch, last: Arch)
    requires Reached(plain, s, last)
    ensures PlainEnds(plain, s, plain(last))
  {
    var k: nat := last.retired - s.retired;
    assert PlainRun(plain, s, k) == Ran(last);
  }

  lemma EndIsShadowed(z: Semantics, step: Machine -> Stepped, plain: Arch -> Plain, m: Machine, k: nat, last: Machine)
    requires Lawful(z) && Threads(z, step) && Walks(z, plain)
    requires Inv(m) && HonestRun(z, step, m, k) && Run(step, m, k) == Go(last) && HonestNow(z, Go(last))
    ensures step(last).Finished? ==> PlainEnds(plain, m.arch, Ended(step(last).arch))
    ensures step(last).Crashed? && FineNow(z, Go(last)) ==> PlainEnds(plain, m.arch, Failed)
  {
    RunRefines(z, step, plain, m, k);
    RunEndsTogether(z, step, plain, m, k);
    EndsFrom(plain, m.arch, last.arch);
  }

  lemma RunIsShadowed(z: Semantics, step: Machine -> Stepped, plain: Arch -> Plain, m: Machine, n: nat)
    requires Lawful(z) && Threads(z, step) && Walks(z, plain)
    requires Inv(m) && HonestRun(z, step, m, n)
    ensures Shadowed(plain, m.arch, FineRun(z, step, m, n), Run(step, m, n), n)
  {
    if Run(step, m, n).Go? {
      RunRefines(z, step, plain, m, n);
      RunsMakeProgress(z, step, m, n);
    } else {
      var k := LastGo(step, m, n);
      EndIsShadowed(z, step, plain, m, k, Run(step, m, k).m);
    }
  }

  /** The other way: from power-on, whatever the plain machine does after `k` instructions, going
      on, stopping or failing, the threaded one does within `2 * k + 2` dispatches, in the same
      state, while its dispatches are honest and the blocks it fetches are cached or readable. */
  lemma FollowsFromPowerOn(z: Semantics, m: Machine, first: Machine, k: nat) returns (n: nat)
    requires Lawful(z) && Booted(z, m, first) && FineRun(z, Threading(z), first, 2 * k + 2)
    requires PlainRun(OneByOne(z), first.arch, k).Ran?
    ensures first.arch == m.arch && n <= 2 * k + 2
    ensures Matches(x => Inv(x), OneByOne(z)(PlainRun(OneByOne(z), first.arch, k).s), Run(Threading(z), first, n))
  {
    PowerOnSyncs(z, m, first);
    n := PlainEndIsReached(z, Threading(z), OneByOne(z), first, k);
  }

  /** The simulator's decoder and handlers, fetching whole words only or at any mapped address. */
  ghost predicate Simulator(z: Semantics) {
    z == Besm() || z == Bytewise()
  }

  lemma SimulatorLawful(z: Semantics)
    requires Simulator(z)
    ensures Lawful(z)
  {
    BesmLawful();
    BytewiseLawful();
  }

  /** Both, of this decoder and these handlers. */
  lemma BesmRefinesFromPowerOn(z: Semantics, m: Machine, first: Machine, n: nat)
    requires Simulator(z) && Booted(z, m, first) && HonestRun(z, Threading(z), first, n)
    ensures first.arch == m.arch
    ensures var r := Run(Threading(z), first, n);
            r.Go? ==> Reached(OneByOne(z), first.arch, r.m.arch)
  {
    SimulatorLawful(z);
    RefinesFromPowerOn(z, m, first, n);
  }

  lemma BesmFollowsFromPowerOn(z: Semantics, m: Machine, first: Machine, k: nat) returns (n: nat)
    requires Simulator(z) && Booted(z, m, first) && FineRun(z, Threading(z), first, 2 * k + 2)
    requires PlainRun(OneByOne(z), first.arch, k).Ran?
    ensures first.arch == m.arch && n <= 2 * k + 2
    ensures Matches(x => Inv(x), OneByOne(z)(PlainRun(OneByOne(z), first.arch, k).s), Run(Threading(z), first, n))
  {
    SimulatorLawful(z);
    n := FollowsFromPowerOn(z, m, first, k);
  }

  /** A hart boots if and only if the block at PC 0 can be read. */
  lemma BootsIff(z: Semantics, m: Machine)
    requires PowerOn(m)
    ensures C.Shaped(m.cache) && (FetchBB(z, m, Pc(m.arch)).Arrived? <==> Readable(z, m.arch.mem, Pc(m.arch)))
  {
    PowerOnReady(z, m);
    NotPoison(Pc(m.arch));
    FetchFaultIff(z, m, Pc(m.arch));
  }

  // ---------------------------------------------------------------- privilege

  /** The next step raises an exception. */
  predicate Raises(z: Semantics, m: Machine) {
    Runnable(m) && Current(m).op != BB_END && z.handle(Current(m), m.arch).Trap?
  }

  lemma UnprivilegedStep(z: Semantics, m: Machine)
    requires Lawful(z) && Inv(m) && Runnable(m) && !Raises(z, m) && m.arch.csr.privilege != Csr.MACHINE
    ensures Step(z, m).Go? ==> Step(z, m).m.arch.csr == m.arch.csr
  {
    if Current(m).op == BB_END {
      FetchKeepsInv(z, m, Pc(m.arch));
    }
  }

  /** Below machine mode, up to the first exception, no CSR bit and no privilege bit changes. */
  lemma UnprivilegedRunsKeepCsrs(z: Semantics, step: Machine -> Stepped, m: Machine, n: nat)
    requires Lawful(z) && Threads(z, step) && Inv(m) && m.arch.csr.privilege != Csr.MACHINE
    requires forall k: nat :: k < n && Run(step, m, k).Go? ==> !Raises(z, Run(step, m, k).m)
    ensures Run(step, m, n).Go? ==> Run(step, m, n).m.arch.csr == m.arch.csr
  {
    forall x | Inv(x) && x.arch.csr == m.arch.csr && !Raises(z, x) && step(x).Go?
      ensures Inv(step(x).m) && step(x).m.arch.csr == m.arch.csr
    {
      StepKeepsInv(z, x);
      UnprivilegedStep(z, x);
    }
    RunKeepsWhile(step, x => Inv(x) && x.arch.csr == m.arch.csr, x => !Raises(z, x), m, n);
  }

  // ---------------------------------------------------------------- where traps go wrong

  /** Otherwise the first instruction at the target is skipped: the next step applies the
      second one, with the PC still on the first. */
  lemma TrapSkipsFirstInstruction(z: Semantics, m: Machine)
    requires Lawful(z) && Synced(z, m) && Raises(z, m) && Step(z, m).Go?
    requires var o := z.handle(Current(m), m.arch); Pc(o.s) == o.target && !JumpAt(z, m.arch.mem, o.target)
    ensures var o := z.handle(Current(m), m.arch);
            && Runnable(Step(z, m).m)
            && Pc(Step(z, m).m.arch) == o.target
            && Code(Current(Step(z, m).m)) == z.decode(m.arch.mem, SlotAddress(o.target, 1))
  {
    StepKeepsInv(z, m);
    InvRunnable(Step(z, m).m);
    var o := z.handle(Current(m), m.arch);
    assert Kept(Current(m), m.arch, o);
    TrapKeepsInv(z, m);
    FetchSyncs(z, m.(arch := o.s), o.target);
    SecondSlot(z, FetchBB(z, m.(arch := o.s), o.target).m, o.target);
  }

  // ---------------------------------------------------------------- where stores go wrong

  /** A store about to run, its address, width and value, and the word after it, which the same
      block holds next. */
  ghost predicate Storing(m: Machine, a: nat, n: nat, v: nat, w: nat) {
    && Runnable(m) && KindOf(Current(m).op) == Kind.Storing
    && a == Address(Current(m), m.arch) && n == Width(Current(m).op) && v == ReadReg(m.arch.regs, Current(m).rs2)
    && Mapped(m.arch.mem, a) && Aligned(m.arch.mem, a, n)
    && m.slot + 1 < CAPACITY && m.cache.entries[m.way].body[m.slot + 1].op != BB_END && w == Wrap(Pc(m.arch) + 4)
  }

  /** Whether the simulator runs the word a store leaves at PC + 4 can be told before the store:
      it does if and only if that word, patched, decodes as it does now, and so whenever the
      store does not touch it.  Otherwise the stale instruction runs. */
  lemma StaleIff(m: Machine, a: nat, n: nat, v: nat, w: nat)
    requires Lawful(Besm()) && Synced(Besm(), m) && Storing(m, a, n, v, w)
    ensures Step(Besm(), m).Go? && Pointing(Step(Besm(), m).m) && Pc(Step(Besm(), m).m.arch) == w
    ensures var m' := Step(Besm(), m).m;
            var now, then_ := WordAt(m.arch.mem.bytes, w), WordAt(StoreLE(m.arch.mem.bytes, a, n, v), w);
            && (Code(Current(m')) == DecodeAt(m'.arch.mem, w) <==> Decoder.Decode(then_) == Decoder.Decode(now))
            && (a + n <= w || w + 4 <= a ==> then_ == now)
  {
    var s := m.arch.(mem := m.arch.mem.(bytes := StoreLE(m.arch.mem.bytes, a, n, v)));
    StoreSteps(m, a, n, v, w, s);
    StaleNext(Besm(), m, NextPc(s), w);
    PatchedDecode(m.arch.mem, s.mem, w);
    if a + n <= w || w + 4 <= a {
      LoadBeside(m.arch.mem.bytes, a, n, v, w, 4);
    }
  }

  /** The instruction that follows in the block is the one memory then holds if and only if its
      word decodes as it did. */
  lemma StaleNext(z: Semantics, m: Machine, s: Arch, w: U64)
    requires Lawful(z) && Synced(z, m) && Runnable(m) && Current(m).op != BB_END
    requires z.handle(Current(m), m.arch) == Next(s)
    requires m.slot + 1 < CAPACITY && m.cache.entries[m.way].body[m.slot + 1].op != BB_END && Pc(s) == w
    ensures var m' := Advance(m, s);
            && Pointing(m') && z.decode(m.arch.mem, w).Code?
            && (Code(Current(m')) == z.decode(s.mem, w) <==> z.decode(s.mem, w) == z.decode(m.arch.mem, w))
  {
    NextInStep(z, m);
    StaleAt(z, m, s, w);
  }

  lemma StaleAt(z: Semantics, m: Machine, s: Arch, w: U64)
    requires Synced(z, m) && Runnable(m) && Current(m).op != BB_END && m.slot + 1 < CAPACITY && InStep(Advance(m, s))
    requires m.cache.entries[m.way].body[m.slot + 1].op != BB_END && Pc(s) == w
    ensures var m' := Advance(m, s);
            && z.decode(m.arch.mem, w).Code?
            && (Code(Current(m')) == z.decode(s.mem, w) <==> z.decode(s.mem, w) == z.decode(m.arch.mem, w))
  {
    FollowingSlot(z, m);
    assert Pc(Retire(s)) == SlotAddress(m.cache.entries[m.way].pc, m.slot + 1);
  }

  lemma StoreSteps(m: Machine, a: nat, n: nat, v: nat, w: nat, s: Arch)
    requires Storing(m, a, n, v, w) && s == m.arch.(mem := m.arch.mem.(bytes := StoreLE(m.arch.mem.bytes, a, n, v)))
    ensures Current(m).op != BB_END && Besm().handle(Current(m), m.arch) == Next(NextPc(s))
    ensures Step(Besm(), m) == Go(Advance(m, NextPc(s))) && Pc(NextPc(s)) == w
  {
    StoreIs(m, Current(m), a, n, v, w, s);
    StepNext(Besm(), m, Current(m), NextPc(s));
  }

  lemma StoreIs(m: Machine, i: Instr, a: nat, n: nat, v: nat, w: nat, s: Arch)
    requires Storing(m, a, n, v, w) && s == m.arch.(mem := m.arch.mem.(bytes := StoreLE(m.arch.mem.bytes, a, n, v)))
    requires i == Current(m)
    ensures Pointing(m) && Decoded(i) && Besm().handle(i, m.arch) == Next(NextPc(s)) && Pc(NextPc(s)) == w
  {
    StoreHandled(i, m.arch);
    NextPcIs(s);
  }

  lemma NextPcIs(s: Arch)
    ensures Pc(NextPc(s)) == Wrap(Pc(s) + 4)
  {
  }

  lemma PatchedDecode(mem: Mem, mem': Mem, w: nat)
    requires mem'.devices == mem.devices
    ensures DecodeAt(mem, w).Code? ==>
              && DecodeAt(mem, w) == Code(Decoder.Decode(WordAt(mem.bytes, w)))
              && DecodeAt(mem', w) == Code(Decoder.Decode(WordAt(mem'.bytes, w)))
  {
  }

  lemma FollowingSlot(z: Semantics, m: Machine)
    requires Synced(z, m) && Runnable(m) && Current(m).op != BB_END
    requires m.slot + 1 < CAPACITY && m.cache.entries[m.way].body[m.slot + 1].op != BB_END
    ensures var e := m.cache.entries[m.way];
            z.decode(m.arch.mem, SlotAddress(e.pc, m.slot + 1)) == Code(e.body[m.slot + 1])
  {
    var e := m.cache.entries[m.way];
    var n :| Fresh(z, m.arch.mem, e, n);
    var n' :| EndsAt(e.body, n') && m.slot <= n';
    SameEnd(e.body, n, n');
    assert m.slot + 1 < n;
  }
}
