/** src/exec/basic-block.cpp: the 128-set, 8-way block cache, its round-robin victims, and
    what every sequence of fetches keeps.  `T` is the cached block body. */
module BlockCache {
  import opened Bits
  import BitMagic

  const SETS := 128
  const WAYS := 8
  const SLOTS := 1024

  /** The PC of a block that was never built. */
  const POISON := 1

  datatype Entry<T> = Entry(pc: nat, body: T)

  datatype Cache<T> = Cache(entries: seq<Entry<T>>, next: seq<nat>)

  /** Five low bits dropped: two for instruction alignment, three for block capacity. */
  function SetOf(pc: nat): (s: nat)
    ensures s < SETS
  {
    pc / 32 % SETS
  }

  predicate Shaped<T(!new)>(c: Cache<T>) {
    |c.entries| == SLOTS && |c.next| == SETS && forall s :: 0 <= s < SETS ==> c.next[s] < WAYS
  }

  // ---------------------------------------------------------------- the code

  /** First index in `[lo, hi)` whose entry has this PC, or `hi`. */
  function Probe<T>(entries: seq<Entry<T>>, lo: nat, hi: nat, pc: nat): (r: nat)
    requires lo <= hi <= |entries|
    ensures lo <= r <= hi
    ensures r < hi ==> entries[r].pc == pc
    ensures forall i :: lo <= i < r ==> entries[i].pc != pc
    decreases hi - lo
  {
    if lo == hi || entries[lo].pc == pc then lo else Probe(entries, lo + 1, hi, pc)
  }

  datatype Found<T> = Found(hit: bool, index: nat, cache: Cache<T>)

  /** `BasicBlockCache::lookup`: the entry holding the PC, or the victim to rebuild. */
  function Lookup<T(!new)>(c: Cache<T>, pc: nat): (r: Found<T>)
    requires Shaped(c)
    ensures Shaped(r.cache) && r.index < SLOTS && r.index / WAYS == SetOf(pc)
  {
    var line := SetOf(pc);
    var index := Probe(c.entries, line * WAYS, line * WAYS + WAYS, pc);
    if index < line * WAYS + WAYS then Found(true, index, c)
    else Found(false, line * WAYS + c.next[line], c.(next := c.next[line := (c.next[line] + 1) % WAYS]))
  }

  function Install<T>(c: Cache<T>, index: nat, pc: nat, body: T): Cache<T>
    requires index < |c.entries|
  {
    c.(entries := c.entries[index := Entry(pc, body)])
  }

  /** A request: the PC to fetch and the block that would be built for it now. */
  datatype Request<T> = Request(pc: nat, body: T)

  function Fetch<T(!new)>(c: Cache<T>, q: Request<T>): (r: Found<T>)
    requires Shaped(c)
    ensures Shaped(r.cache) && r.index < SLOTS
  {
    var f := Lookup(c, q.pc);
    if f.hit then f else f.(cache := Install(f.cache, f.index, q.pc, q.body))
  }

  // ---------------------------------------------------------------- invariant

  /** Every filled entry sits in its set, and no PC is held twice. */
  ghost predicate WellPlaced<T(!new)>(c: Cache<T>) {
    && Shaped(c)
    && (forall j :: 0 <= j < SLOTS && c.entries[j].pc != POISON ==> SetOf(c.entries[j].pc) == j / WAYS)
    && (forall j, k :: 0 <= j < k < SLOTS && c.entries[j].pc == c.entries[k].pc ==> c.entries[j].pc == POISON)
  }

  /** `BasicBlockCache::BasicBlockCache` with the poisoned block constructor. */
  ghost predicate Empty<T(!new)>(c: Cache<T>) {
    Shaped(c) && forall j :: 0 <= j < SLOTS ==> c.entries[j].pc == POISON
  }

  /** With the victim counters at zero. */
  ghost predicate Rewound<T(!new)>(c: Cache<T>) {
    match c
    case Cache(_, next) => forall i :: 0 <= i < |next| ==> next[i] == 0
  }

  /** A lookup hits exactly when the PC is held, and then finds its one entry. */
  lemma LookupFinds<T(!new)>(c: Cache<T>, pc: nat)
    requires WellPlaced(c) && pc != POISON
    ensures var r := Lookup(c, pc);
            && (r.hit <==> exists j :: 0 <= j < SLOTS && c.entries[j].pc == pc)
            && (r.hit ==> c.entries[r.index].pc == pc && r.cache == c)
            && (!r.hit ==> r.cache.entries == c.entries)
  {
    if j :| 0 <= j < SLOTS && c.entries[j].pc == pc {
      assert j / WAYS == SetOf(pc);
    }
  }

  lemma FetchKeepsPlacing<T(!new)>(c: Cache<T>, q: Request<T>)
    requires WellPlaced(c) && q.pc != POISON
    ensures var r := Fetch(c, q);
            && WellPlaced(r.cache)
            && r.cache.entries[r.index].pc == q.pc
            && (forall j :: 0 <= j < SLOTS && j != r.index ==> r.cache.entries[j] == c.entries[j])
            && (Lookup(c, q.pc).hit ==> r.cache == c)
            && (!Lookup(c, q.pc).hit ==> r.cache.entries[r.index].body == q.body)
  {
    LookupFinds(c, q.pc);
  }

  // ---------------------------------------------------------------- whole histories

  function FetchAll<T(!new)>(c: Cache<T>, qs: seq<Request<T>>): (r: Cache<T>)
    requires Shaped(c)
    ensures Shaped(r)
    decreases |qs|
  {
    if qs == [] then c else FetchAll(Fetch(c, qs[0]).cache, qs[1..])
  }

  /** The block last built for each PC. */
  function Built<T(!new)>(c: Cache<T>, qs: seq<Request<T>>, built: map<nat, T>): map<nat, T>
    requires Shaped(c)
    decreases |qs|
  {
    if qs == [] then built
    else Built(Fetch(c, qs[0]).cache, qs[1..], if Lookup(c, qs[0].pc).hit then built else built[qs[0].pc := qs[0].body])
  }

  ghost predicate Holds<T(!new)>(c: Cache<T>, built: map<nat, T>)
    requires Shaped(c)
  {
    forall j :: 0 <= j < SLOTS && c.entries[j].pc != POISON ==>
      c.entries[j].pc in built && built[c.entries[j].pc] == c.entries[j].body
  }

  predicate NoPoison<T>(qs: seq<Request<T>>) {
    forall i :: 0 <= i < |qs| ==> qs[i].pc != POISON
  }

  /** After any fetches every entry is in its set, no PC is held twice, and what a lookup
      returns is the block last built for that PC. */
  lemma {:induction false} CacheInvariant<T(!new)>(c: Cache<T>, qs: seq<Request<T>>, built: map<nat, T>)
    requires WellPlaced(c) && Holds(c, built) && NoPoison(qs)
    ensures WellPlaced(FetchAll(c, qs)) && Holds(FetchAll(c, qs), Built(c, qs, built))
    decreases |qs|
  {
    if qs != [] {
      FetchKeepsPlacing(c, qs[0]);
      var c' := Fetch(c, qs[0]).cache;
      var built' := if Lookup(c, qs[0].pc).hit then built else built[qs[0].pc := qs[0].body];
      assert Holds(c', built');
      CacheInvariant(c', qs[1..], built');
    }
  }

  /** The set is seven bits of the PC from bit 5 on, as the code masks and shifts them. */
  lemma SetOfIsCode(pc: nat, bits: nat, from: nat)
    requires bits == 7 && from == 5
    ensures SetOf(pc) == BitMagic.ExtractBits(WIDTH, pc, bits, from)
  {
    BitMagic.ExtractBitsIsField(WIDTH, pc, bits, from);
    assert Pow2(7) == 128 && Pow2(5) == 32;
  }

  /** In numbers: a filled entry is in line (pc / 32) mod 128, eight entries to a line. */
  lemma InItsLine<T(!new)>(c: Cache<T>, qs: seq<Request<T>>, j: nat)
    requires WellPlaced(c) && NoPoison(qs) && j < 1024
    ensures var pc := FetchAll(c, qs).entries[j].pc; pc == 1 || pc / 32 % 128 == j / 8
  {
    StaysPlaced(c, qs);
  }

  lemma {:induction false} StaysPlaced<T(!new)>(c: Cache<T>, qs: seq<Request<T>>)
    requires WellPlaced(c) && NoPoison(qs)
    ensures WellPlaced(FetchAll(c, qs))
    decreases |qs|
  {
    if qs != [] {
      FetchKeepsPlacing(c, qs[0]);
      StaysPlaced(Fetch(c, qs[0]).cache, qs[1..]);
    }
  }

  function Misses<T(!new)>(c: Cache<T>, line: nat, qs: seq<Request<T>>): nat
    requires Shaped(c)
    decreases |qs|
  {
    if qs == [] then 0
    else (if SetOf(qs[0].pc) == line && !Lookup(c, qs[0].pc).hit then 1 else 0)
         + Misses(Fetch(c, qs[0]).cache, line, qs[1..])
  }

  /** The victim `k` misses after way `way` was filled. */
  function Victim(way: nat, k: nat): int {
    if way + 1 + k < WAYS then way + 1 + k else way + 1 + k - WAYS
  }

  /** The victim counter passes the other seven ways before it returns. */
  lemma NextVictim(way: nat, k: nat)
    requires way < WAYS && k < 7
    ensures Victim(way, k) != way && (Victim(way, k) + 1) % WAYS == Victim(way, k + 1)
  {
  }

  lemma FetchElsewhere<T(!new)>(c: Cache<T>, q: Request<T>, line: nat, way: nat)
    requires WellPlaced(c) && q.pc != POISON && line < SETS && way < WAYS
    requires SetOf(q.pc) == line && !Lookup(c, q.pc).hit ==> c.next[line] != way
    ensures var r := Fetch(c, q).cache;
            && WellPlaced(r) && r.entries[line * WAYS + way] == c.entries[line * WAYS + way]
            && r.next[line]
               == if SetOf(q.pc) == line && !Lookup(c, q.pc).hit then (c.next[line] + 1) % WAYS else c.next[line]
  {
    FetchKeepsPlacing(c, q);
    assert (line * WAYS + way) / WAYS == line;
  }

  /** An entry at way `way` outlives the misses that fill the other seven ways first. */
  lemma {:induction false} SurvivesFrom<T(!new)>(c: Cache<T>, e: Entry<T>, way: nat, k: nat, qs: seq<Request<T>>)
    requires WellPlaced(c) && NoPoison(qs) && e.pc != POISON && way < WAYS
    requires c.entries[SetOf(e.pc) * WAYS + way] == e
    requires c.next[SetOf(e.pc)] == Victim(way, k)
    requires k + Misses(c, SetOf(e.pc), qs) <= 7
    ensures FetchAll(c, qs).entries[SetOf(e.pc) * WAYS + way] == e && WellPlaced(FetchAll(c, qs))
    decreases |qs|
  {
    if qs != [] {
      var line := SetOf(e.pc);
      var miss := SetOf(qs[0].pc) == line && !Lookup(c, qs[0].pc).hit;
      if miss {
        NextVictim(way, k);
      }
      FetchElsewhere(c, qs[0], line, way);
      SurvivesFrom(Fetch(c, qs[0]).cache, e, way, if miss then k + 1 else k, qs[1..]);
    }
  }

  lemma HeldIsFound<T(!new)>(c: Cache<T>, j: nat, e: Entry<T>)
    requires WellPlaced(c) && j < SLOTS && c.entries[j] == e && e.pc != POISON
    ensures Lookup(c, e.pc).hit && c.entries[Lookup(c, e.pc).index] == e
  {
    assert c.entries[j].pc == e.pc;
    LookupFinds(c, e.pc);
  }

  lemma JustInstalled<T(!new)>(c: Cache<T>, q: Request<T>, way: nat)
    requires WellPlaced(c) && q.pc != POISON && !Lookup(c, q.pc).hit && way == c.next[SetOf(q.pc)]
    ensures var c' := Fetch(c, q).cache;
            && WellPlaced(c') && c'.next[SetOf(q.pc)] == Victim(way, 0)
            && c'.entries[SetOf(q.pc) * WAYS + way] == Entry(q.pc, q.body)
  {
    FetchKeepsPlacing(c, q);
  }

  /** A block just built is still there after the next seven misses in its set, whatever
      else was fetched in between. */
  lemma InstalledSurvives<T(!new)>(c: Cache<T>, q: Request<T>, qs: seq<Request<T>>)
    requires WellPlaced(c) && q.pc != POISON && NoPoison(qs)
    requires !Lookup(c, q.pc).hit
    requires Misses(Fetch(c, q).cache, SetOf(q.pc), qs) <= 7
    ensures var later := FetchAll(Fetch(c, q).cache, qs);
            Lookup(later, q.pc).hit && later.entries[Lookup(later, q.pc).index] == Entry(q.pc, q.body)
  {
    var line := SetOf(q.pc);
    var way, c' := c.next[line], Fetch(c, q).cache;
    JustInstalled(c, q, way);
    SurvivesFrom(c', Entry(q.pc, q.body), way, 0, qs);
    HeldIsFound(FetchAll(c', qs), line * WAYS + way, Entry(q.pc, q.body));
  }

  ghost predicate Absent<T(!new)>(c: Cache<T>, pc: nat) {
    Shaped(c) && forall j :: 0 <= j < SLOTS ==> c.entries[j].pc != pc
  }

  predicate NeverAsked<T>(qs: seq<Request<T>>, pc: nat) {
    forall i :: 0 <= i < |qs| ==> qs[i].pc != pc
  }

  lemma {:induction false} StaysAway<T(!new)>(c: Cache<T>, pc: nat, qs: seq<Request<T>>)
    requires WellPlaced(c) && NoPoison(qs) && NeverAsked(qs, pc) && Absent(c, pc)
    ensures Absent(FetchAll(c, qs), pc)
    decreases |qs|
  {
    if qs != [] {
      FetchKeepsPlacing(c, qs[0]);
      StaysAway(Fetch(c, qs[0]).cache, pc, qs[1..]);
    }
  }

  /** The miss that finds the victim counter back on an entry's way removes it. */
  lemma Replaced<T(!new)>(c: Cache<T>, q: Request<T>, e: Entry<T>, way: nat)
    requires WellPlaced(c) && q.pc != POISON && e.pc != POISON && way < WAYS && q.pc != e.pc
    requires c.entries[SetOf(e.pc) * WAYS + way] == e && c.next[SetOf(e.pc)] == way
    requires SetOf(q.pc) == SetOf(e.pc) && !Lookup(c, q.pc).hit
    ensures WellPlaced(Fetch(c, q).cache) && Absent(Fetch(c, q).cache, e.pc)
  {
    FetchKeepsPlacing(c, q);
    var index := SetOf(e.pc) * WAYS + way;
    assert Fetch(c, q).index == index;
    forall j | 0 <= j < SLOTS && j != index
      ensures c.entries[j].pc != e.pc
    {
    }
  }

  lemma {:induction false} EvictedFrom<T(!new)>(c: Cache<T>, e: Entry<T>, way: nat, k: nat, qs: seq<Request<T>>)
    requires WellPlaced(c) && NoPoison(qs) && NeverAsked(qs, e.pc) && e.pc != POISON && way < WAYS
    requires c.entries[SetOf(e.pc) * WAYS + way] == e
    requires c.next[SetOf(e.pc)] == Victim(way, k) && k <= 7
    requires k + Misses(c, SetOf(e.pc), qs) >= 8
    ensures Absent(FetchAll(c, qs), e.pc)
    decreases |qs|
  {
    var line := SetOf(e.pc);
    var miss := SetOf(qs[0].pc) == line && !Lookup(c, qs[0].pc).hit;
    var rest := qs[1..];
    assert NoPoison(rest) && NeverAsked(rest, e.pc);
    if miss && k == 7 {
      Replaced(c, qs[0], e, way);
      StaysAway(Fetch(c, qs[0]).cache, e.pc, rest);
    } else {
      if miss {
        NextVictim(way, k);
      }
      FetchElsewhere(c, qs[0], line, way);
      var c', k' := Fetch(c, qs[0]).cache, if miss then k + 1 else k;
      assert c'.next[line] == Victim(way, k');
      EvictedFrom(c', e, way, k', rest);
    }
  }

  lemma NoHit<T(!new)>(c: Cache<T>, pc: nat)
    requires Absent(c, pc)
    ensures !Lookup(c, pc).hit
  {
  }

  /** Seven is exact: unless asked for again, a block is gone after the eighth miss. */
  lemma EighthMissEvicts<T(!new)>(c: Cache<T>, q: Request<T>, qs: seq<Request<T>>)
    requires WellPlaced(c) && q.pc != POISON && NoPoison(qs) && NeverAsked(qs, q.pc)
    requires !Lookup(c, q.pc).hit
    requires Misses(Fetch(c, q).cache, SetOf(q.pc), qs) >= 8
    ensures !Lookup(FetchAll(Fetch(c, q).cache, qs), q.pc).hit
  {
    var way := c.next[SetOf(q.pc)];
    JustInstalled(c, q, way);
    EvictedFrom(Fetch(c, q).cache, Entry(q.pc, q.body), way, 0, qs);
    NoHit(FetchAll(Fetch(c, q).cache, qs), q.pc);
  }

  // ---------------------------------------------------------------- the cache object

  /** `BasicBlockCache`; a reference to a block is its index in `bbs`. */
  class BasicBlockCache<T(!new)> {
    const bbs: array<Entry<T>>
    const lruRowers: array<nat>

    ghost predicate Valid()
      reads this, bbs, lruRowers
    {
      Shaped(State())
    }

    ghost function State(): Cache<T>
      reads this, bbs, lruRowers
    {
      Cache(bbs[..], lruRowers[..])
    }

    constructor (poisoned: T)
      ensures Valid() && Empty(State()) && Rewound(State()) && fresh(bbs) && fresh(lruRowers)
      ensures forall j :: 0 <= j < SLOTS ==> bbs[j] == Entry(POISON, poisoned)
    {
      bbs := new Entry<T>[SLOTS](_ => Entry(POISON, poisoned));
      lruRowers := new nat[SETS](_ => 0);
    }

    /** The loop over the ways of a set. */
    method ScanSet(setPos: nat, pc: nat) returns (hit: bool, index: nat)
      requires Valid() && setPos + WAYS <= SLOTS
      ensures var p := Probe(bbs[..], setPos, setPos + WAYS, pc);
              if hit then index == p < setPos + WAYS else p == setPos + WAYS
    {
      var i := 0;
      while i < WAYS
        invariant i <= WAYS
        invariant Probe(bbs[..], setPos, setPos + WAYS, pc) == Probe(bbs[..], setPos + i, setPos + WAYS, pc)
      {
        if bbs[setPos + i].pc == pc {
          return true, setPos + i;
        }
        i := i + 1;
      }
      return false, setPos;
    }

    /** `BasicBlockCache::lookup`. */
    method Find(pc: nat) returns (hit: bool, index: nat)
      requires Valid()
      modifies lruRowers
      ensures Valid() && Found(hit, index, State()) == Lookup(old(State()), pc)
    {
      var hash := pc / 32 % SETS;
      var setPos := hash * WAYS;
      hit, index := ScanSet(setPos, pc);
      if hit {
        return;
      }
      index := lruRowers[hash] + setPos;
      lruRowers[hash] := (lruRowers[hash] + 1) % WAYS;
    }
  }
}
