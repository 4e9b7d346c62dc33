/** src/memory/prefetcher.cpp: instruction words read through a remembered host window. */
module Prefetcher {
  import opened Bits
  import opened FlatMemory
  import PageAllocator
  import opened Ram
  import opened PhysMem

  datatype Pointer = Null | Saved(ptr: PageAllocator.HostPtr)

  /** A fetched word, a fault on the way to it, or a read of host bytes past the page. */
  datatype Fetched = Word(v: nat) | Refused(fault: Fault) | Overrun

  function FromLoad(r: Loaded): Fetched {
    match r
    case Value(v) => Word(v)
    case LoadFault(fault) => Refused(fault)
  }

  /** Four bytes at `x`, with `room` bytes left in the page. */
  function WordAt(bytes: Bytes, x: nat, room: int): Fetched {
    if 4 <= room then Word(LoadLE(bytes, x, 4)) else Overrun
  }

  /** `saved_ + (vaddress - start_) / sizeof(RV64UWord)`: how far into the window a hit reads. */
  function Skip(start: nat, a: nat): nat
    requires start <= a
  {
    (a - start) / 4 * 4
  }

  /** What a hit returns. */
  function HitWord(bytes: Bytes, start: nat, len: nat, a: nat): Fetched
    requires start <= a
  {
    WordAt(bytes, start + Skip(start, a), len - Skip(start, a))
  }

  /** What a miss returns, by whether its page is mapped. */
  function MissWord(m: Mem, h: Host, a: nat): Fetched {
    match h
    case Host(_, room) => WordAt(m.bytes, a, room)
    case NoHost => FromLoad(Load(m, a, 4))
  }

  /** The window after a miss: opened on the page, if it is mapped. */
  function Opened(h: Host, a: nat, start: nat, len: nat): (nat, nat) {
    match h
    case Host(_, room) => (a, room)
    case NoHost => (start, len)
  }

  // ---------------------------------------------------------------- whole words

  /** The address is at a whole-word offset in its device, as the code asserts of a hit in a
      window that was opened at one. */
  predicate Fetchable(m: Mem, a: nat) {
    Mapped(m, a) ==> Aligned(m, a, 4)
  }

  lemma WordOffset(m: Mem, a: nat, off: nat)
    requires Fetchable(m, a) && Mapped(m, a) && off == a - m.devices[Scan(m.devices, a)].left
    ensures Multiple(off, 4)
  {
  }

  lemma WholeWords(at: nat, off: nat)
    requires at <= off && Multiple(at, 4) && Multiple(off, 4)
    ensures (off - at) / 4 * 4 == off - at
  {
    MultipleLess(off, at, 4);
    MultipleIsMod(off - at, 4);
  }

  /** Where a hit reads: the word that `(a - start) % 4` bytes before the address begins. */
  lemma HitReads(start: nat, a: nat)
    requires start <= a
    ensures start + Skip(start, a) == a - (a - start) % 4
  {
  }

  /** A hit returns the word at the address, whatever memory holds, if and only if the address
      is a whole number of words into the window: the condition the code asserts. */
  lemma HitIff(start: nat, len: nat, a: nat)
    requires start <= a && Skip(start, a) + 4 <= len
    ensures (forall bytes :: HitWord(bytes, start, len, a) == Word(LoadLE(bytes, a, 4))) <==> (a - start) % 4 == 0
  {
    HitReads(start, a);
    if (a - start) % 4 != 0 {
      var x := start + Skip(start, a);
      var bytes: Bytes := map[x := 1];
      OneByte(bytes, x);
      assert HitWord(bytes, start, len, a) == Word(1);
      Zeros(bytes, x, a, 4);
    }
  }

  /** A hit that skips all of the way reads the word at the address. */
  lemma HitAt(bytes: Bytes, start: nat, len: nat, a: nat)
    requires start <= a && Skip(start, a) == a - start && a + 4 <= start + len
    ensures HitWord(bytes, start, len, a) == Word(LoadLE(bytes, a, 4))
  {
  }

  lemma FlatWord(m: Mem, a: nat, off: nat)
    requires Mapped(m, a) && off == a - m.devices[Scan(m.devices, a)].left && Multiple(off, 4)
    ensures FromLoad(FlatMemory.Load(m, a, 4)) == Word(LoadLE(m.bytes, a, 4))
  {
    LoadIs(m, a, 4, off);
  }

  lemma OneByte(bytes: Bytes, x: nat)
    requires bytes == map[x := 1]
    ensures LoadLE(bytes, x, 4) == 1
  {
    Zeros(bytes, x, x + 1, 3);
  }

  lemma {:induction false} Zeros(bytes: Bytes, x: nat, a: nat, n: nat)
    requires bytes == map[x := 1] && x < a
    ensures LoadLE(bytes, a, n) == 0
    decreases n
  {
    if n > 0 {
      Zeros(bytes, x, a + 1, n - 1);
    }
  }

  // ---------------------------------------------------------------- interleavings

  datatype Call = FetchWord(a: nat) | LoadFrom(a: nat, n: nat) | StoreTo(a: nat, n: nat, v: nat)

  datatype Answer = Fetch(word: Fetched) | Read(value: Loaded) | Wrote(ack: Ack)

  predicate Proper(c: Call) {
    c.FetchWord? || Wide(c.n)
  }

  predicate AllProper(calls: seq<Call>) {
    forall i :: 0 <= i < |calls| ==> Proper(calls[i])
  }

  /** Not a fetch off a whole word. */
  predicate Straight(m: Mem, c: Call) {
    c.FetchWord? ==> Fetchable(m, c.a)
  }

  /** What the flat memory answers to a call. */
  function Answered(m: Mem, c: Call): Answer
    requires Proper(c)
  {
    match c
    case FetchWord(a) => Fetch(FromLoad(Load(m, a, 4)))
    case LoadFrom(a, n) => Read(Load(m, a, n))
    case StoreTo(a, n, v) =>
      match Store(m, a, n, v)
      case Done(_) => Wrote(Fine)
      case StoreFault(fault) => Wrote(Failed(fault))
  }

  /** What a call leaves in the flat memory. */
  function Effect(m: Mem, c: Call): (r: Mem)
    requires Proper(c)
    ensures r.devices == m.devices
  {
    match c
    case StoreTo(a, n, v) => (match Store(m, a, n, v) case Done(m') => m' case StoreFault(_) => m)
    case _ => m
  }

  /** What the calls leave in it. */
  function After(m: Mem, calls: seq<Call>): Mem
    requires AllProper(calls)
    decreases |calls|
  {
    if calls == [] then m else After(Effect(m, calls[0]), calls[1..])
  }

  /** The answers are the flat memory's, except to fetches once one was off a whole word. */
  predicate Right(m: Mem, calls: seq<Call>, answers: seq<Answer>, words: bool)
    requires AllProper(calls)
    decreases |calls|
  {
    if calls == [] then answers == []
    else
      var still := words && Straight(m, calls[0]);
      && answers != []
      && (!calls[0].FetchWord? || still ==> answers[0] == Answered(m, calls[0]))
      && Right(Effect(m, calls[0]), calls[1..], answers[1..], still)
  }

  /** Knowing less of the window promises less of the answers. */
  lemma {:induction false} RightWeakens(m: Mem, calls: seq<Call>, answers: seq<Answer>, words: bool)
    requires AllProper(calls) && Right(m, calls, answers, words)
    ensures Right(m, calls, answers, false)
    decreases |calls|
  {
    if calls != [] {
      RightWeakens(Effect(m, calls[0]), calls[1..], answers[1..], words && Straight(m, calls[0]));
    }
  }

  lemma RightAll(m: Mem, calls: seq<Call>, first: Answer, rest: seq<Answer>, words: bool, after: bool)
    requires AllProper(calls) && calls != [] && (words && Straight(m, calls[0]) ==> after)
    requires !calls[0].FetchWord? || (words && Straight(m, calls[0])) ==> first == Answered(m, calls[0])
    requires Right(Effect(m, calls[0]), calls[1..], rest, after)
    ensures Right(m, calls, [first] + rest, words)
  {
    if !(words && Straight(m, calls[0])) {
      RightWeakens(Effect(m, calls[0]), calls[1..], rest, after);
    }
    assert ([first] + rest)[1..] == rest;
  }

  // ---------------------------------------------------------------- the window

  /** The window is the rest of a page that is still mapped where it was: in device `i`, from
      offset `at` on. */
  ghost predicate Window(mem: PhysMem, start: nat, len: nat, saved: Pointer, i: nat, at: nat)
    reads mem`bytes, mem`Repr, mem.Repr
  {
    match saved
    case Null => false
    case Saved(ptr) =>
      && mem.Sound() && i < |mem.devices|
      && var d := mem.devices[i];
         && d in mem.devices && Contains(d.range, start) && at == start - d.range.left
         && DeviceOk(d, mem.Repr, mem.bytes) && d.ram.HostOf(at) == Host(ptr, len)
  }

  class Prefetcher {
    const mem: PhysMem
    var start: nat
    var len: nat
    var saved: Pointer

    /** The device (its index) and the offset the window was opened at. */
    ghost var home: nat
    ghost var at: nat

    ghost predicate Valid()
      reads this, mem, mem.Repr
    {
      this !in mem.Repr && mem.Valid() && (len > 0 ==> Window(mem, start, len, saved, home, at))
    }

    /** The window was opened at a whole-word offset. */
    ghost predicate Words()
      reads this
    {
      len > 0 ==> Multiple(at, 4)
    }

    predicate Hits(a: nat)
      reads this
    {
      start < a < start + len
    }

    constructor (pmem: PhysMem)
      requires pmem.Valid()
      ensures Valid() && Words() && mem == pmem && len == 0 && fresh(this)
    {
      mem := pmem;
      start, len, saved := TWO64 - 1, 0, Null;
      home, at := 0, 0;
    }

    /** Reading through a window: the flat memory's bytes, as far as the page goes. */
    lemma Through(d: Device, from: nat, w: Host, off: nat, a: nat, x: nat)
      requires mem.Sound() && d in mem.devices && DeviceOk(d, mem.Repr, mem.bytes)
      requires w.Host? && d.ram.HostOf(from) == w && from <= off && off + 4 <= from + w.size
      requires from < Size(d.range) && a == d.range.left + off && x == w.ptr.off + (off - from)
      ensures w.ptr.chunk.data in mem.Repr && x + 4 <= w.ptr.chunk.data.Length
      ensures ReadHost(w.ptr.chunk.data, x, 4) == LoadLE(mem.bytes, a, 4)
    {
      d.ram.WindowShows(from, w, off, 4, x);
      RestOfPage(Size(d.range), d.ram.pageSize, from);
      ShownLoad(mem.bytes, d.range.left, Size(d.range), d.ram.bytes, off, a, 4);
    }

    /** What `loadWord` answers, for any address, where asserts are compiled out. */
    ghost function Served(a: nat): Fetched
      requires Valid()
      reads this, mem, mem.Repr
    {
      if Hits(a) then HitWord(mem.bytes, start, len, a) else MissWord(mem.Flat(), mem.HostPage(a), a)
    }

    /** The window it leaves. */
    ghost function Opens(a: nat): (nat, nat)
      requires Valid()
      reads this, mem, mem.Repr
    {
      if Hits(a) then (start, len) else Opened(mem.HostPage(a), a, start, len)
    }

    /** A hit, word for word. */
    method Hit(a: nat) returns (r: Fetched)
      requires Valid() && Hits(a)
      ensures r == HitWord(mem.bytes, start, len, a)
    {
      var skip := Skip(start, a);
      if 4 <= len - skip {
        var x := saved.ptr.off + skip;
        Through(mem.devices[home], at, Host(saved.ptr, len), at + skip, start + skip, x);
        r := Word(ReadHost(saved.ptr.chunk.data, x, 4));
      } else {
        r := Overrun;
      }
    }

    /** A mapped page found: remember its window and read its first word. */
    method Open(a: nat, w: Host, ghost i: nat, ghost off: nat) returns (r: Fetched)
      requires this !in mem.Repr && mem.Valid() && w.Host? && w.size > 0
      requires Window(mem, a, w.size, Saved(w.ptr), i, off)
      modifies this
      ensures Valid() && r == WordAt(mem.bytes, a, w.size) && at == off && (start, len) == (a, w.size)
    {
      if 4 <= w.size {
        Through(mem.devices[i], off, w, off, a, w.ptr.off);
        r := Word(ReadHost(w.ptr.chunk.data, w.ptr.off, 4));
      } else {
        r := Overrun;
      }
      Remember(a, w, i, off);
    }

    method Remember(a: nat, w: Host, ghost i: nat, ghost off: nat)
      requires w.Host?
      modifies this
      ensures start == a && len == w.size && saved == Saved(w.ptr) && home == i && at == off
    {
      start, len, saved := a, w.size, Saved(w.ptr);
      home, at := i, off;
    }

    method Miss(a: nat) returns (r: Fetched)
      requires Valid() && !Hits(a)
      modifies this, mem`lastRange, mem`lastDevice
      ensures Valid() && mem.bytes == old(mem.bytes) && mem.Repr == old(mem.Repr)
      ensures r == old(Served(a)) && (start, len) == old(Opens(a))
      ensures old(Words()) && Fetchable(old(mem.Flat()), a) ==> Words()
    {
      var f, h := mem.GetHostAddress(a);
      if f.NotFound? {
        r := Refused(Unmapped);
      } else if h.NoHost? {
        var loaded := Load(a, 4);
        r := FromLoad(loaded);
      } else {
        r := MissMapped(f.device, h, a);
      }
    }

    /** A mapped page makes a window. */
    lemma PageIsWindow(d: Device, h: Host, a: nat, i: nat, off: nat)
      requires mem.Sound() && mem.Answer(a) == Found(d) && h.Host? && h == mem.HostPage(a)
      requires i == Scan(RangesOf(mem.devices), a) && off == a - d.range.left
      ensures Window(mem, a, h.size, Saved(h.ptr), i, off) && h.size > 0
    {
      mem.AnswerIs(a, d, i);
      mem.HostPageIs(a, d, off);
    }

    /** A miss in a mapped page: its window. */
    method MissMapped(ghost d: Device, h: Host, a: nat) returns (r: Fetched)
      requires Valid() && mem.Answer(a) == Found(d) && h.Host? && h == mem.HostPage(a)
      modifies this
      ensures Valid() && r == MissWord(mem.Flat(), h, a) && (start, len) == (a, h.size)
      ensures Fetchable(mem.Flat(), a) ==> Words()
    {
      ghost var i, off := Scan(RangesOf(mem.devices), a), a - d.range.left;
      PageIsWindow(d, h, a, i, off);
      r := Open(a, h, i, off);
      if Fetchable(mem.Flat(), a) {
        WordOffset(mem.Flat(), a, off);
      }
    }

    /** `Prefetcher::loadWord`, for every address, and the window it leaves.  At whole-word offsets,
        in a window opened at one, it is the memory's own load of the word, hit or miss.  After a
        miss in a mapped page the rest of that page hits. */
    method LoadWord(a: nat) returns (r: Fetched)
      requires Valid()
      modifies this, mem`lastRange, mem`lastDevice
      ensures Valid() && mem.bytes == old(mem.bytes) && mem.Repr == old(mem.Repr)
      ensures r == old(Served(a)) && (start, len) == old(Opens(a))
      ensures old(Words()) && Fetchable(mem.Flat(), a) ==> Words() && r == FromLoad(FlatMemory.Load(mem.Flat(), a, 4))
      ensures var h := old(if Hits(a) then NoHost else mem.HostPage(a));
              h.Host? ==> forall b :: a < b < a + h.size ==> Hits(b)
    {
      if Fetchable(mem.Flat(), a) && Words() {
        ServedIsLoad(a);
      }
      if start < a < start + len {
        r := Hit(a);
      } else {
        r := Miss(a);
      }
    }

    /** Off whole words too, the word at the address is served where the code reads it: a hit a
        whole number of words into the window, or a mapped page, and four bytes left there. */
    lemma ServedInPhase(a: nat)
      requires Valid() && mem.Answer(a).Found?
      requires if Hits(a) then (a - start) % 4 == 0 && a + 4 <= start + len
               else match mem.HostPage(a)
                    case Host(_, room) => 4 <= room
                    case NoHost => false
      ensures Served(a) == Word(LoadLE(mem.bytes, a, 4))
    {
      if Hits(a) {
        HitReads(start, a);
        HitAt(mem.bytes, start, len, a);
      }
    }

    /** At whole-word offsets what is served is the flat load. */
    lemma ServedIsLoad(a: nat)
      requires Valid() && Words() && Fetchable(mem.Flat(), a)
      ensures Served(a) == FromLoad(FlatMemory.Load(mem.Flat(), a, 4))
    {
      if Hits(a) {
        HitIsLoad(a);
      } else if mem.HostPage(a).Host? {
        MissIsLoad(a);
      }
    }

    lemma MissIsLoad(a: nat)
      requires Valid() && Fetchable(mem.Flat(), a) && mem.HostPage(a).Host?
      ensures MissWord(mem.Flat(), mem.HostPage(a), a) == FromLoad(FlatMemory.Load(mem.Flat(), a, 4))
    {
      var d := mem.Answer(a).device;
      var off := a - d.range.left;
      WordOffset(mem.Flat(), a, off);
      Roomy(d, off);
      FlatWord(mem.Flat(), a, off);
    }

    lemma Roomy(d: Device, off: nat)
      requires mem.Sound() && d in mem.devices && DeviceOk(d, mem.Repr, mem.bytes) && Multiple(off, 4)
      ensures d.ram.HostOf(off).Host? ==> 4 <= d.ram.HostOf(off).size
    {
      WideDivides(d.ram.pageSize, 8, 4);
      AlignedInPage(d.ram.pageSize, off, 4);
    }

    lemma HitIsLoad(a: nat)
      requires Valid() && Words() && Fetchable(mem.Flat(), a) && Hits(a)
      ensures HitWord(mem.bytes, start, len, a) == FromLoad(FlatMemory.Load(mem.Flat(), a, 4))
    {
      var d, off := Home(a);
      WordOffset(mem.Flat(), a, off);
      HitSkips(d, a, off);
      HitAt(mem.bytes, start, len, a);
      FlatWord(mem.Flat(), a, off);
    }

    /** The device and offset a hit reads. */
    lemma Home(a: nat) returns (d: Device, off: nat)
      requires Valid() && Hits(a)
      ensures home < |mem.devices| && d == mem.devices[home] && off == at + (a - start)
      ensures mem.Answer(a) == Found(d) && off == a - d.range.left
    {
      d, off := mem.devices[home], at + (a - start);
      RestOfPage(Size(d.range), d.ram.pageSize, at);
      mem.Scanned(a, d);
    }

    /** Between whole words of the window a hit skips all of the way. */
    lemma HitSkips(d: Device, a: nat, off: nat)
      requires Valid() && Words() && Hits(a) && d == mem.devices[home] && off == at + (a - start) && Multiple(off, 4)
      ensures Skip(start, a) == a - start && a - start + 4 <= len
    {
      WholeWords(at, off);
      InWindow(d, off);
    }

    lemma InWindow(d: Device, off: nat)
      requires Valid() && len > 0 && d == mem.devices[home] && at <= off < at + len && Multiple(off, 4)
      ensures off + 4 <= at + len
    {
      InPage(d.ram.pageSize, at, off - at);
      WideDivides(d.ram.pageSize, 8, 4);
      AlignedInPage(d.ram.pageSize, off, 4);
    }

    /** A store moves no page, so the window stays good. */
    twostate lemma StillOpen()
      requires old(Valid()) && unchanged(this) && mem.Valid() && PagesStay(mem.devices) && this !in mem.Repr
      ensures Valid()
    {
      if len > 0 {
        var d := mem.devices[home];
        assert DeviceOk(d, mem.Repr, mem.bytes);
        assert old(d.ram.HostOf(at)) == d.ram.HostOf(at);
      }
    }

    /** The hart's side of a load, behind the prefetcher's back. */
    method Load(a: nat, n: nat) returns (r: Loaded)
      requires Valid() && Wide(n)
      modifies mem`lastRange, mem`lastDevice
      ensures Valid() && mem.bytes == old(mem.bytes) && mem.Repr == old(mem.Repr)
      ensures r == FlatMemory.Load(mem.Flat(), a, n)
    {
      r := mem.Load(a, n);
    }

    /** The hart's side of a store, behind the prefetcher's back. */
    method Store(a: nat, n: nat, v: nat) returns (r: Ack)
      requires Valid() && Wide(n)
      modifies mem, mem.Repr
      ensures Valid() && fresh(mem.Repr - old(mem.Repr))
      ensures match FlatMemory.Store(old(mem.Flat()), a, n, v)
              case Done(m) => r == Fine && mem.Flat() == m
              case StoreFault(fault) => r == Failed(fault) && mem.Flat() == old(mem.Flat())
    {
      r := mem.Store(a, n, v);
      StillOpen();
    }

    method Serve(c: Call) returns (answer: Answer)
      requires Valid() && Proper(c)
      modifies this, mem, mem.Repr
      ensures Valid() && fresh(mem.Repr - old(mem.Repr))
      ensures mem.Flat() == Effect(old(mem.Flat()), c)
      ensures old(Words()) && Straight(old(mem.Flat()), c) ==> Words()
      ensures !c.FetchWord? || (old(Words()) && Straight(old(mem.Flat()), c)) ==> answer == Answered(old(mem.Flat()), c)
    {
      match c {
        case FetchWord(a) =>
          var r := LoadWord(a);
          answer := Fetch(r);
        case LoadFrom(a, n) =>
          var r := mem.Load(a, n);
          answer := Read(r);
        case StoreTo(a, n, v) =>
          var r := Store(a, n, v);
          answer := Wrote(r);
      }
    }

    /** Over any interleaving of prefetches, loads and stores, memory ends as the flat memory
        does, every load and store is answered as there, and so is every prefetch up to the
        first one off a whole word. */
    method Interleave(calls: seq<Call>) returns (answers: seq<Answer>)
      requires Valid() && AllProper(calls)
      modifies this, mem, mem.Repr
      ensures Valid()
      ensures mem.Flat() == After(old(mem.Flat()), calls)
      ensures Right(old(mem.Flat()), calls, answers, old(Words()))
      decreases |calls|
    {
      if calls == [] {
        return [];
      }
      ghost var m, words := mem.Flat(), Words();
      var c, tail := calls[0], calls[1..];
      assert Proper(c) && AllProper(tail);
      var first := Serve(c);
      ghost var after := Words();
      var rest := Interleave(tail);
      RightAll(m, calls, first, rest, words, after);
      answers := [first] + rest;
    }
  }
}
