/** include/besm-666/util/assotiative-cache.hpp: the generic set-associative cache with
    round-robin replacement, and what it holds after any history of calls. */
module AssocCache {
  import opened Bits

  datatype Entry<P, T> = Entry(valid: bool, tag: T, payload: P)

  /** `ways_`, `sets_`, `TagFunc` and `HashFunc`; `blank` is a default-constructed entry. */
  datatype Config<!P(!new), !T(!new)> = Config(ways: nat, sets: nat, tagOf: P -> T, hash: T -> nat, blank: Entry<P, T>)

  ghost predicate Usable<P(!new), T(!new)>(k: Config<P, T>) {
    k.ways > 0 && !k.blank.valid && forall t :: k.hash(t) < k.sets
  }

  datatype Contents<P, T> = Contents(entries: seq<Entry<P, T>>, counters: seq<nat>)

  predicate Shaped<P(!new), T(!new)>(k: Config<P, T>, c: Contents<P, T>) {
    && |c.entries| == k.sets * k.ways && |c.counters| == k.sets
    && forall s :: 0 <= s < k.sets ==> c.counters[s] < k.ways
  }

  function Index(ways: nat, line: nat, way: nat): nat {
    line * ways + way
  }

  lemma IndexInside(ways: nat, sets: nat, line: nat, way: nat)
    requires line < sets && way < ways
    ensures Index(ways, line, way) < sets * ways && Index(ways, line, 0) + ways <= sets * ways
  {
    MulOrder(ways, line, sets);
  }

  lemma IndexUnique(ways: nat, line: nat, way: nat, line': nat, way': nat)
    requires way < ways && way' < ways && Index(ways, line, way) == Index(ways, line', way')
    ensures line == line' && way == way'
  {
    DivUnique(Index(ways, line, way), ways, line, way);
    DivUnique(Index(ways, line, way), ways, line', way');
  }

  // ---------------------------------------------------------------- the operations, on values

  datatype Op<P, T> = Add(payload: P) | Drop(tag: T) | DropAll

  function SetOf<P(!new), T(!new)>(k: Config<P, T>, p: P): nat {
    k.hash(k.tagOf(p))
  }

  function Invalidated<P, T>(e: Entry<P, T>): Entry<P, T> {
    e.(valid := false)
  }

  /** What one call does to the contents. */
  function Apply<P(!new), T(!new, ==)>(k: Config<P, T>, c: Contents<P, T>, op: Op<P, T>): (r: Contents<P, T>)
    requires Usable(k) && Shaped(k, c)
    ensures Shaped(k, r)
  {
    match op
    case Add(p) =>
      var line := SetOf(k, p);
      IndexInside(k.ways, k.sets, line, c.counters[line]);
      Contents(c.entries[Index(k.ways, line, c.counters[line]) := Entry(true, k.tagOf(p), p)],
               c.counters[line := (c.counters[line] + 1) % k.ways])
    case Drop(t) =>
      var line := k.hash(t);
      IndexInside(k.ways, k.sets, line, 0);
      c.(entries := seq(|c.entries|, i requires 0 <= i < |c.entries| =>
        if Index(k.ways, line, 0) <= i < Index(k.ways, line, 0) + k.ways && c.entries[i].valid && c.entries[i].tag == t
        then Invalidated(c.entries[i]) else c.entries[i]))
    case DropAll =>
      c.(entries := seq(|c.entries|, i requires 0 <= i < |c.entries| => Invalidated(c.entries[i])))
  }

  function Fresh<P(!new), T(!new)>(k: Config<P, T>): (r: Contents<P, T>)
    requires Usable(k)
    ensures Shaped(k, r)
  {
    Contents(seq(k.sets * k.ways, _ => k.blank), seq(k.sets, _ => 0))
  }

  /** The contents after the first `n` calls. */
  function Replay<P(!new), T(!new, ==)>(k: Config<P, T>, ops: seq<Op<P, T>>, n: nat): (r: Contents<P, T>)
    requires Usable(k) && n <= |ops|
    ensures Shaped(k, r)
  {
    if n == 0 then Fresh(k) else Apply(k, Replay(k, ops, n - 1), ops[n - 1])
  }

  // ---------------------------------------------------------------- what ought to be held

  predicate AddsTo<P(!new), T(!new)>(k: Config<P, T>, op: Op<P, T>, line: nat) {
    op.Add? && SetOf(k, op.payload) == line
  }

  predicate Kills<P, T(==)>(op: Op<P, T>, t: T) {
    op.DropAll? || (op.Drop? && op.tag == t)
  }

  /** How many of the calls in `[lo, hi)` add to this set. */
  function Adds<P(!new), T(!new)>(k: Config<P, T>, ops: seq<Op<P, T>>, line: nat, lo: nat, hi: nat): nat
    requires hi <= |ops|
    decreases hi
  {
    if hi <= lo then 0 else Adds(k, ops, line, lo, hi - 1) + (if AddsTo(k, ops[hi - 1], line) then 1 else 0)
  }

  /** Call `i` added to this set, fewer than `ways` additions to it came later, and nothing
      since invalidated its tag. */
  ghost predicate Live<P(!new), T(!new)>(k: Config<P, T>, ops: seq<Op<P, T>>, n: nat, line: nat, i: nat)
    requires n <= |ops|
  {
    && i < n && AddsTo(k, ops[i], line)
    && Adds(k, ops, line, i + 1, n) < k.ways
    && forall j :: i < j < n ==> !Kills(ops[j], k.tagOf(ops[i].payload))
  }

  /** The way that the `i`th call's addition went to. */
  function Way<P(!new), T(!new)>(k: Config<P, T>, ops: seq<Op<P, T>>, line: nat, i: nat): nat
    requires k.ways > 0 && i <= |ops|
  {
    Adds(k, ops, line, 0, i) % k.ways
  }

  lemma {:induction false} AddsSplit<P(!new), T(!new)>(
    k: Config<P, T>, ops: seq<Op<P, T>>, line: nat, lo: nat, mid: nat, hi: nat)
    requires lo <= mid <= hi <= |ops|
    ensures Adds(k, ops, line, lo, hi) == Adds(k, ops, line, lo, mid) + Adds(k, ops, line, mid, hi)
    decreases hi
  {
    if mid < hi {
      AddsSplit(k, ops, line, lo, mid, hi - 1);
    }
  }

  lemma SameWay(ways: nat, a: nat, b: nat)
    requires ways > 0 && a < b && a % ways == b % ways
    ensures b - a >= ways
  {
    if b - a < ways {
      var q, r := a / ways, a % ways;
      var x := r + (b - a);
      if x < ways {
        DivUnique(b, ways, q, x);
      } else {
        assert ways * (q + 1) == ways * q + ways;
        DivUnique(b, ways, q + 1, x - ways);
      }
    }
  }

  lemma FullTurn(ways: nat, a: nat)
    requires ways > 0
    ensures (a + ways) % ways == a % ways
  {
    assert ways * (a / ways + 1) == ways * (a / ways) + ways;
    DivUnique(a + ways, ways, a / ways + 1, a % ways);
  }

  /** Two live additions to a set never share a way. */
  lemma LiveWaysDiffer<P(!new), T(!new)>(k: Config<P, T>, ops: seq<Op<P, T>>, n: nat, line: nat, i: nat, j: nat)
    requires Usable(k) && n <= |ops| && i < j && Live(k, ops, n, line, i) && Live(k, ops, n, line, j)
    ensures Way(k, ops, line, i) != Way(k, ops, line, j)
  {
    AddsSplit(k, ops, line, 0, i + 1, j);
    AddsSplit(k, ops, line, i + 1, j, n);
    AddsSplit(k, ops, line, j, j + 1, n);
    if Way(k, ops, line, i) == Way(k, ops, line, j) {
      SameWay(k.ways, Adds(k, ops, line, 0, i), Adds(k, ops, line, 0, j));
    }
  }

  /** The entry is what live additions say this way holds. */
  ghost predicate Holds<P(!new), T(!new)>(
    k: Config<P, T>, ops: seq<Op<P, T>>, n: nat, line: nat, way: nat, e: Entry<P, T>)
    requires Usable(k) && n <= |ops|
  {
    && (e.valid ==> exists i: nat :: Live(k, ops, n, line, i) && Way(k, ops, line, i) == way
                                && e == Entry(true, k.tagOf(ops[i].payload), ops[i].payload))
    && (forall i: nat :: Live(k, ops, n, line, i) && Way(k, ops, line, i) == way ==> e.valid)
  }

  lemma StillLive<P(!new), T(!new)>(k: Config<P, T>, ops: seq<Op<P, T>>, n: nat, line: nat, i: nat)
    requires Usable(k) && n < |ops| && i < n
    ensures Live(k, ops, n + 1, line, i) <==>
            && Live(k, ops, n, line, i) && !Kills(ops[n], k.tagOf(ops[i].payload))
            && !(AddsTo(k, ops[n], line) && Adds(k, ops, line, 0, n) % k.ways == Way(k, ops, line, i))
  {
    if AddsTo(k, ops[i], line) {
      var a := Adds(k, ops, line, 0, i);
      var later := Adds(k, ops, line, i + 1, n);
      AddsSplit(k, ops, line, 0, i + 1, n);
      assert Adds(k, ops, line, 0, n) == a + 1 + later;
      if later < k.ways && (a + 1 + later) % k.ways == a % k.ways {
        SameWay(k.ways, a, a + 1 + later);
      }
      if later + 1 == k.ways {
        FullTurn(k.ways, a);
      }
    }
  }

  lemma AddHolds<P(!new), T(!new)>(k: Config<P, T>, ops: seq<Op<P, T>>, n: nat, line: nat, way: nat, e: Entry<P, T>)
    requires Usable(k) && n < |ops| && ops[n].Add? && Holds(k, ops, n, line, way, e)
    ensures var mine := AddsTo(k, ops[n], line) && Adds(k, ops, line, 0, n) % k.ways == way;
            Holds(k, ops, n + 1, line, way, if mine then Entry(true, k.tagOf(ops[n].payload), ops[n].payload) else e)
  {
    forall i: nat | i < n
      ensures Live(k, ops, n + 1, line, i) <==>
              && Live(k, ops, n, line, i)
              && !(AddsTo(k, ops[n], line) && Adds(k, ops, line, 0, n) % k.ways == Way(k, ops, line, i))
    {
      StillLive(k, ops, n, line, i);
    }
    assert AddsTo(k, ops[n], line) ==> Live(k, ops, n + 1, line, n);
  }

  lemma DropHolds<P(!new), T(!new)>(k: Config<P, T>, ops: seq<Op<P, T>>, n: nat, line: nat, way: nat, e: Entry<P, T>)
    requires Usable(k) && n < |ops| && !ops[n].Add? && Holds(k, ops, n, line, way, e)
    ensures Holds(k, ops, n + 1, line, way, if e.valid && Kills(ops[n], e.tag) then Invalidated(e) else e)
  {
    forall i: nat | i < n
      ensures Live(k, ops, n + 1, line, i) <==> Live(k, ops, n, line, i) && !Kills(ops[n], k.tagOf(ops[i].payload))
    {
      StillLive(k, ops, n, line, i);
    }
    if e.valid {
      var i: nat :| Live(k, ops, n, line, i) && Way(k, ops, line, i) == way
                    && e == Entry(true, k.tagOf(ops[i].payload), ops[i].payload);
      forall j: nat | Live(k, ops, n + 1, line, j) && Way(k, ops, line, j) == way
        ensures j == i
      {
        if i < j {
          LiveWaysDiffer(k, ops, n, line, i, j);
        } else if j < i {
          LiveWaysDiffer(k, ops, n, line, j, i);
        }
      }
    }
  }

  lemma TagInItsSet<P(!new), T(!new)>(k: Config<P, T>, ops: seq<Op<P, T>>, n: nat, line: nat, way: nat, e: Entry<P, T>)
    requires Usable(k) && n <= |ops| && Holds(k, ops, n, line, way, e) && e.valid
    ensures k.hash(e.tag) == line
  {
  }

  /** One call changes the entry at a way only as `AddHolds` and `DropHolds` allow. */
  lemma ApplyAt<P(!new), T(!new)>(k: Config<P, T>, c: Contents<P, T>, op: Op<P, T>, line: nat, way: nat)
    requires Usable(k) && Shaped(k, c) && line < k.sets && way < k.ways
    ensures Index(k.ways, line, way) < |c.entries|
    ensures var x := Index(k.ways, line, way);
            var e, e' := c.entries[x], Apply(k, c, op).entries[x];
            match op
            case Add(p) =>
              e' == if SetOf(k, p) == line && c.counters[line] == way then Entry(true, k.tagOf(p), p) else e
            case Drop(t) => e' == if k.hash(t) == line && e.valid && e.tag == t then Invalidated(e) else e
            case DropAll => e' == Invalidated(e)
  {
    IndexInside(k.ways, k.sets, line, way);
    match op
    case Add(p) =>
      var other := SetOf(k, p);
      if Index(k.ways, other, c.counters[other]) == Index(k.ways, line, way) {
        IndexUnique(k.ways, other, c.counters[other], line, way);
      }
    case Drop(t) =>
      var x, lo := Index(k.ways, line, way), Index(k.ways, k.hash(t), 0);
      if lo <= x < lo + k.ways {
        IndexUnique(k.ways, k.hash(t), x - lo, line, way);
      }
    case DropAll =>
  }

  /** After any history, a set's valid entries are exactly its live additions: its last
      `ways` ones, less those invalidated since, each in the way its turn gave it. */
  lemma {:induction false} Ring<P(!new), T(!new)>(k: Config<P, T>, ops: seq<Op<P, T>>, n: nat, line: nat, way: nat)
    requires Usable(k) && n <= |ops| && line < k.sets && way < k.ways
    ensures var c := Replay(k, ops, n);
            && c.counters[line] == Adds(k, ops, line, 0, n) % k.ways
            && Index(k.ways, line, way) < |c.entries|
            && Holds(k, ops, n, line, way, c.entries[Index(k.ways, line, way)])
    decreases n
  {
    if n == 0 {
      RingStart(k, ops, line, way);
    } else {
      var p := n - 1;
      Ring(k, ops, p, line, way);
      RingStep(k, ops, p, n, Replay(k, ops, p), line, way);
    }
  }

  lemma RingStart<P(!new), T(!new)>(k: Config<P, T>, ops: seq<Op<P, T>>, line: nat, way: nat)
    requires Usable(k) && line < k.sets && way < k.ways
    ensures var c := Fresh(k);
            && c.counters[line] == Adds(k, ops, line, 0, 0) % k.ways
            && Index(k.ways, line, way) < |c.entries|
            && Holds(k, ops, 0, line, way, c.entries[Index(k.ways, line, way)])
  {
    IndexInside(k.ways, k.sets, line, way);
  }

  lemma RingStep<P(!new), T(!new)>(
    k: Config<P, T>, ops: seq<Op<P, T>>, n: nat, next: nat, c: Contents<P, T>, line: nat, way: nat)
    requires Usable(k) && next == n + 1 <= |ops| && line < k.sets && way < k.ways && Shaped(k, c)
    requires Index(k.ways, line, way) < |c.entries|
    requires c.counters[line] == Adds(k, ops, line, 0, n) % k.ways
    requires Holds(k, ops, n, line, way, c.entries[Index(k.ways, line, way)])
    ensures var c' := Apply(k, c, ops[n]);
            && c'.counters[line] == Adds(k, ops, line, 0, next) % k.ways
            && Holds(k, ops, next, line, way, c'.entries[Index(k.ways, line, way)])
  {
    var e := c.entries[Index(k.ways, line, way)];
    ApplyAt(k, c, ops[n], line, way);
    if ops[n].Add? {
      AddHolds(k, ops, n, line, way, e);
      NextTurn(Adds(k, ops, line, 0, n), k.ways);
    } else {
      DropHolds(k, ops, n, line, way, e);
      if e.valid {
        TagInItsSet(k, ops, n, line, way, e);
      }
    }
  }

  lemma NextTurn(a: nat, ways: nat)
    requires ways > 0
    ensures (a % ways + 1) % ways == (a + 1) % ways
  {
    var q, r := a / ways, a % ways;
    if r + 1 == ways {
      assert ways * (q + 1) == ways * q + ways;
      DivUnique(a + 1, ways, q + 1, 0);
      DivUnique(r + 1, ways, 1, 0);
    } else {
      DivUnique(a + 1, ways, q, r + 1);
      DivUnique(r + 1, ways, 0, r + 1);
    }
  }

  // ---------------------------------------------------------------- the cache object

  class Cache<P(!new), T(!new, ==)> {
    ghost const k: Config<P, T>
    const ways: nat
    const sets: nat
    const tagOf: P -> T
    const hash: T -> nat
    const data: array<Entry<P, T>>
    const counters: array<nat>

    ghost predicate Valid()
      reads this, data, counters
    {
      && Usable(k) && ways == k.ways && sets == k.sets && tagOf == k.tagOf && hash == k.hash
      && Shaped(k, State())
    }

    ghost function State(): Contents<P, T>
      reads this, data, counters
    {
      Contents(data[..], counters[..])
    }

    constructor (config: Config<P, T>)
      requires Usable(config)
      ensures Valid() && k == config && State() == Fresh(config) && fresh(data) && fresh(counters)
    {
      k := config;
      ways, sets, tagOf, hash := config.ways, config.sets, config.tagOf, config.hash;
      data := new Entry<P, T>[config.sets * config.ways](_ => config.blank);
      counters := new nat[config.sets](_ => 0);
    }

    method Add(payload: P)
      requires Valid()
      modifies data, counters
      ensures Valid() && State() == Apply(k, old(State()), Op.Add(payload))
    {
      var tag := tagOf(payload);
      var line := hash(tag);
      IndexInside(ways, sets, line, counters[line]);
      data[line * ways + counters[line]] := Entry(true, tag, payload);
      counters[line] := (counters[line] + 1) % ways;
    }

    /** The first valid entry with this tag, or the way the next addition will take; the
        tag is found exactly when the set holds it. */
    method Find(tag: T) returns (e: Entry<P, T>)
      requires Valid()
      ensures e.valid && e.tag == tag <==>
              exists way :: 0 <= way < ways && Index(ways, hash(tag), way) < data.Length
                            && data[Index(ways, hash(tag), way)].valid && data[Index(ways, hash(tag), way)].tag == tag
      ensures exists way :: 0 <= way < ways && Index(ways, hash(tag), way) < data.Length
                            && e == data[Index(ways, hash(tag), way)]
                            && ((e.valid && e.tag == tag) || way == counters[hash(tag)])
    {
      var line := hash(tag);
      IndexInside(ways, sets, line, counters[line]);
      var i := 0;
      while i < ways
        invariant i <= ways
        invariant forall j :: 0 <= j < i ==>
                    !(data[Index(ways, line, j)].valid && data[Index(ways, line, j)].tag == tag)
      {
        if data[line * ways + i].valid && data[line * ways + i].tag == tag {
          assert data[Index(ways, line, i)].valid;
          return data[line * ways + i];
        }
        i := i + 1;
      }
      e := data[line * ways + counters[line]];
      assert e == data[Index(ways, line, counters[line])];
    }

    method Invalidate(tag: T)
      requires Valid()
      modifies data
      ensures Valid() && State() == Apply(k, old(State()), Drop(tag))
    {
      var line := hash(tag);
      IndexInside(ways, sets, line, 0);
      var lo := line * ways;
      var i := lo;
      while i < lo + ways
        invariant lo <= i <= lo + ways
        invariant forall j :: 0 <= j < data.Length ==>
                    var e := old(data[j]);
                    data[j] == if lo <= j < i && e.valid && e.tag == tag then Invalidated(e) else e
      {
        if data[i].valid && data[i].tag == tag {
          data[i] := data[i].(valid := false);
        }
        i := i + 1;
      }
    }

    method InvalidateAll()
      requires Valid()
      modifies data
      ensures Valid() && State() == Apply(k, old(State()), DropAll)
    {
      var i := 0;
      while i < data.Length
        invariant i <= data.Length
        invariant forall j :: 0 <= j < data.Length ==>
                    data[j] == if j < i then Invalidated(old(data[j])) else old(data[j])
      {
        data[i] := data[i].(valid := false);
        i := i + 1;
      }
    }
  }

  /** A way of the set holds a valid entry with this tag. */
  ghost predicate TagAt<P(!new), T(!new)>(k: Config<P, T>, c: Contents<P, T>, t: T, way: nat) {
    var x := Index(k.ways, k.hash(t), way);
    way < k.ways && x < |c.entries| && c.entries[x].valid && c.entries[x].tag == t
  }

  /** `Find` on the cache a history built: a set holds a valid entry with a tag if and only if
      some live addition has it, and every such entry is a live addition's. */
  lemma FoundIffLive<P(!new), T(!new)>(k: Config<P, T>, ops: seq<Op<P, T>>, t: T)
    requires Usable(k)
    ensures var c, line := Replay(k, ops, |ops|), k.hash(t);
            && ((exists way: nat :: TagAt(k, c, t, way)) <==>
                exists i: nat :: Live(k, ops, |ops|, line, i) && k.tagOf(ops[i].payload) == t)
            && forall way: nat :: TagAt(k, c, t, way) ==>
                 exists i: nat :: Live(k, ops, |ops|, line, i)
                                  && c.entries[Index(k.ways, line, way)] == Entry(true, t, ops[i].payload)
  {
    var n, c, line := |ops|, Replay(k, ops, |ops|), k.hash(t);
    forall way: nat | TagAt(k, c, t, way)
      ensures exists i: nat :: Live(k, ops, n, line, i) && k.tagOf(ops[i].payload) == t
                               && c.entries[Index(k.ways, line, way)] == Entry(true, t, ops[i].payload)
    {
      Ring(k, ops, n, line, way);
    }
    if i: nat :| Live(k, ops, n, line, i) && k.tagOf(ops[i].payload) == t {
      LiveIsHeld(k, ops, i, line);
      assert TagAt(k, c, t, Way(k, ops, line, i));
    }
  }

  /** A live addition is in the way its turn gave it, tag and payload. */
  lemma LiveIsHeld<P(!new), T(!new)>(k: Config<P, T>, ops: seq<Op<P, T>>, i: nat, line: nat)
    requires Usable(k) && Live(k, ops, |ops|, line, i)
    ensures var x := Index(k.ways, line, Way(k, ops, line, i));
            && x < |Replay(k, ops, |ops|).entries|
            && Replay(k, ops, |ops|).entries[x] == Entry(true, k.tagOf(ops[i].payload), ops[i].payload)
  {
    var way := Way(k, ops, line, i);
    assert line < k.sets;
    Ring(k, ops, |ops|, line, way);
    var e := Replay(k, ops, |ops|).entries[Index(k.ways, line, way)];
    var j: nat :| Live(k, ops, |ops|, line, j) && Way(k, ops, line, j) == way
                  && e == Entry(true, k.tagOf(ops[j].payload), ops[j].payload);
    if i < j {
      LiveWaysDiffer(k, ops, |ops|, line, i, j);
    } else if j < i {
      LiveWaysDiffer(k, ops, |ops|, line, j, i);
    }
  }
}
