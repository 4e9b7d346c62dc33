/** src/memory/phys-mem.cpp: accesses routed to the device whose range holds the address,
    through a memo of the last one found. */
module PhysMem {
  import opened Bits
  import opened FlatMemory
  import PageAllocator
  import opened Ram

  datatype Device = Device(range: Range, ram: Ram)

  predicate Apart(r: Range, s: Range) {
    r.right <= s.left || s.right <= r.left
  }

  function RangesOf(ds: seq<Device>): (r: seq<Range>)
    ensures |r| == |ds| && forall i :: 0 <= i < |ds| ==> r[i] == ds[i].range
  {
    seq(|ds|, i requires 0 <= i < |ds| => ds[i].range)
  }

  /** With disjoint ranges only one device can answer, so the order of the scan is moot. */
  lemma OnlyOne(rs: seq<Range>, a: nat, i: nat)
    requires forall j, k :: 0 <= j < k < |rs| ==> Apart(rs[j], rs[k])
    requires i < |rs| && Contains(rs[i], a)
    ensures Scan(rs, a) == i
  {
    var k := Scan(rs, a);
    assert k <= i;
    assert k < i ==> Apart(rs[k], rs[i]);
  }

  datatype Lookup = NotFound | Found(device: Device)

  datatype Ack = Fine | Failed(fault: Fault)

  /** An access width: 1, 2, 4 or 8. */
  predicate Wide(n: nat) {
    n > 0 && Multiple(8, n)
  }

  lemma {:induction false} WideDivides(x: nat, d: nat, n: nat)
    requires n > 0 && Multiple(x, d) && Multiple(d, n)
    ensures Multiple(x, n)
    decreases x
  {
    if x > 0 {
      WideDivides(x - d, d, n);
      Sum(x - d, d, n);
    }
  }

  lemma {:induction false} Sum(x: nat, y: nat, n: nat)
    requires n > 0 && Multiple(x, n) && Multiple(y, n)
    ensures Multiple(x + y, n)
    decreases x
  {
    if x > 0 {
      Sum(x - n, y, n);
    }
  }

  /** An aligned access at an offset inside a device stays inside it, and so in its page. */
  lemma InDevice(size: nat, page: nat, off: nat, n: nat)
    requires Wide(n) && Multiple(page, 8) && Multiple(size, page)
    ensures Multiple(page, n)
    ensures off < size && Multiple(off, n) ==> off + n <= size
  {
    WideDivides(page, 8, n);
    WideDivides(size, page, n);
    if off < size && Multiple(off, n) {
      PageAllocator.Apart(off, size, n);
    }
  }

  /** The rest of a page lies inside a device of whole pages. */
  lemma {:induction false} RestOfPage(size: nat, page: nat, off: nat)
    requires page > 0 && Multiple(size, page) && off < size
    ensures off + (page - PageOffset(page, off)) <= size
    decreases off
  {
    if off >= page {
      RestOfPage(size - page, page, off - page);
    }
  }

  function Size(r: Range): nat {
    if r.left <= r.right then r.right - r.left else 0
  }

  /** The flat map shows the device's bytes at its place. */
  ghost predicate Shows(bytes: Bytes, left: nat, size: nat, local: Bytes) {
    forall x: nat {:trigger At(local, x)} :: x < size ==> At(bytes, left + x) == At(local, x)
  }

  lemma {:induction false} ShownLoad(bytes: Bytes, left: nat, size: nat, local: Bytes, off: nat, a: nat, n: nat)
    requires Shows(bytes, left, size, local) && off + n <= size && a == left + off
    ensures LoadLE(bytes, a, n) == LoadLE(local, off, n)
    decreases n
  {
    if n > 0 {
      assert At(bytes, left + off) == At(local, off);
      ShownLoad(bytes, left, size, local, off + 1, a + 1, n - 1);
    }
  }

  lemma LoadIs(m: Mem, a: nat, n: nat, off: nat)
    requires n > 0 && Mapped(m, a) && off == a - m.devices[Scan(m.devices, a)].left
    ensures Load(m, a, n) == Reading(m.bytes, off, a, n)
  {
  }

  /** Loading through the flat map is loading from the device. */
  lemma LoadLocal(m: Mem, a: nat, n: nat, r: Range, off: nat, local: Bytes)
    requires n > 0 && Mapped(m, a) && r == m.devices[Scan(m.devices, a)] && Shows(m.bytes, r.left, Size(r), local)
    requires off == a - r.left && (Multiple(off, n) ==> off + n <= Size(r))
    ensures FlatMemory.Load(m, a, n) == Reading(local, off, off, n)
  {
    LoadIs(m, a, n, off);
    if Multiple(off, n) {
      ShownLoad(m.bytes, r.left, Size(r), local, off, a, n);
    }
  }

  lemma ShownStore(bytes: Bytes, left: nat, size: nat, local: Bytes, off: nat, src: seq<Byte>)
    requires Shows(bytes, left, size, local) && off + |src| <= size
    ensures Shows(StoreEach(bytes, left + off, src), left, size, StoreEach(local, off, src))
  {
    forall x: nat | x < size
      ensures At(StoreEach(bytes, left + off, src), left + x) == At(StoreEach(local, off, src), x)
    {
      StoreEachAt(bytes, left + off, src, left + x);
      StoreEachAt(local, off, src, x);
      assert At(bytes, left + x) == At(local, x);
    }
  }

  lemma ShownBeside(bytes: Bytes, left: nat, size: nat, local: Bytes, a: nat, src: seq<Byte>)
    requires Shows(bytes, left, size, local) && (a + |src| <= left || left + size <= a)
    ensures Shows(StoreEach(bytes, a, src), left, size, local)
  {
    forall x: nat | x < size
      ensures At(StoreEach(bytes, a, src), left + x) == At(local, x)
    {
      StoreEachAt(bytes, a, src, left + x);
    }
  }

  /** Every address in `[lo, hi)` has a device. */
  ghost predicate Covered(rs: seq<Range>, lo: nat, hi: nat) {
    forall x :: lo <= x < hi ==> Scan(rs, x) < |rs|
  }

  lemma StoreOn(before: Bytes, a: nat, x: nat, data: seq<Byte>, i: nat, j: nat)
    requires x == a + i && i <= j <= |data|
    ensures StoreEach(StoreEach(before, a, data[..i]), x, data[i..j]) == StoreEach(before, a, data[..j])
  {
    StoreEachSplit(before, a, data[..i], data[i..j]);
    assert data[..i] + data[i..j] == data[..j];
  }

  /** A device of whole pages, seen through the flat map. */
  ghost predicate DeviceOk(d: Device, objects: set<object>, bytes: Bytes)
    reads d.ram, d.ram.Repr
  {
    match d
    case Device(range, ram) =>
      && ram in objects && ram.Repr <= objects && ram.Valid() && range.left <= range.right
      && Multiple(ram.pageSize, 8) && Multiple(Size(range), ram.pageSize)
      && Shows(bytes, range.left, Size(range), ram.bytes)
  }

  ghost predicate Separate(d: Device, e: Device)
    reads d.ram, e.ram
  {
    d.ram.Repr !! e.ram.Repr && Apart(d.range, e.range)
  }

  /** No page, once mapped, is unmapped or moved. */
  twostate predicate PagesStay(ds: seq<Device>)
    reads set d | d in ds :: d.ram
  {
    forall d, id :: d in ds && id in old(d.ram.pagemap) ==>
      id in d.ram.pagemap && d.ram.pagemap[id] == old(d.ram.pagemap[id])
  }

  class PhysMem {
    const devices: seq<Device>
    var lastRange: Range
    var lastDevice: Ram?

    ghost var bytes: Bytes
    ghost var Repr: set<object>

    /** The devices, apart from each other and together showing `bytes`. */
    ghost predicate Sound()
      reads this`bytes, this`Repr, Repr
    {
      && this !in Repr
      && (forall d :: d in devices ==> d.ram in Repr && d.ram.Repr <= Repr && DeviceOk(d, Repr, bytes))
      && (forall i, j :: 0 <= i < j < |devices| ==> Separate(devices[i], devices[j]))
    }

    ghost predicate Valid()
      reads this, Repr
    {
      Sound() && (lastRange == Range(0, 0) || (lastDevice != null && Device(lastRange, lastDevice) in devices))
    }

    ghost function Flat(): Mem
      reads this`bytes
    {
      Mem(RangesOf(devices), bytes)
    }

    /** `PhysMemBuilder::build`: devices apart from each other, showing `flat` between them
        (nothing but zeros when none was written). */
    constructor (ds: seq<Device>, ghost objects: set<object>, ghost flat: Bytes)
      requires forall d :: d in ds ==> DeviceOk(d, objects, flat)
      requires forall i, j :: 0 <= i < j < |ds| ==> Separate(ds[i], ds[j])
      ensures Valid() && devices == ds && bytes == flat && Repr == objects
    {
      devices := ds;
      lastRange, lastDevice := Range(0, 0), null;
      bytes := flat;
      Repr := objects;
    }

    lemma Scanned(a: nat, d: Device)
      requires Sound() && d in devices && Contains(d.range, a)
      ensures Scan(RangesOf(devices), a) < |devices| && devices[Scan(RangesOf(devices), a)] == d
    {
      var i :| 0 <= i < |devices| && devices[i] == d;
      forall j, k | 0 <= j < k < |devices|
        ensures Apart(RangesOf(devices)[j], RangesOf(devices)[k])
      {
        assert Separate(devices[j], devices[k]);
      }
      OnlyOne(RangesOf(devices), a, i);
    }

    /** What a scan without the memo would answer. */
    ghost function Answer(a: nat): Lookup {
      var i := Scan(RangesOf(devices), a);
      if i < |devices| then Found(devices[i]) else NotFound
    }

    /** The loop over the ordered map. */
    method ScanDevices(a: nat) returns (r: Lookup)
      requires Sound()
      ensures r == Answer(a) && (r.Found? ==> r.device in devices)
    {
      var i := 0;
      while i < |devices|
        invariant i <= |devices|
        invariant forall j :: 0 <= j < i ==> !Contains(devices[j].range, a)
      {
        if devices[i].range.left <= a < devices[i].range.right {
          Scanned(a, devices[i]);
          return Found(devices[i]);
        }
        i := i + 1;
      }
      r := NotFound;
    }

    /** The memo is invisible: the answer is that of a scan without it. */
    method FindDevice(a: nat) returns (r: Lookup)
      requires Valid()
      modifies this`lastRange, this`lastDevice
      ensures Valid() && bytes == old(bytes) && Repr == old(Repr) && PagesStay(devices)
      ensures r == Answer(a)
    {
      if lastRange.left <= a < lastRange.right {
        Scanned(a, Device(lastRange, lastDevice));
        return Found(Device(lastRange, lastDevice));
      }
      r := ScanDevices(a);
      if r.Found? {
        Remember(r.device);
      }
    }

    method Remember(d: Device)
      requires Sound() && d in devices
      modifies this`lastRange, this`lastDevice
      ensures Valid() && bytes == old(bytes) && Repr == old(Repr) && PagesStay(devices)
    {
      lastRange, lastDevice := d.range, d.ram;
    }

    /** What a device holds at an offset is what the flat map holds at the address. */
    lemma Routed(d: Device, a: nat, off: nat, n: nat)
      requires Sound() && Wide(n) && Answer(a) == Found(d) && off == a - d.range.left
      ensures d in devices && DeviceOk(d, Repr, bytes) && Multiple(d.ram.pageSize, n) && Contains(d.range, a)
      ensures FlatMemory.Load(Flat(), a, n) == Reading(d.ram.bytes, off, off, n)
    {
      assert DeviceOk(d, Repr, bytes);
      InDevice(Size(d.range), d.ram.pageSize, off, n);
      LoadLocal(Flat(), a, n, d.range, off, d.ram.bytes);
    }

    /** The host's window on the page holding the address, if it is mapped. */
    ghost function HostPage(a: nat): Host
      requires Sound()
      reads this`bytes, this`Repr, Repr
    {
      match Answer(a)
      case NotFound => NoHost
      case Found(d) => HostIn(d, a)
    }

    ghost function HostIn(d: Device, a: nat): Host
      requires Sound() && d in devices && Contains(d.range, a)
      reads this`bytes, this`Repr, Repr
    {
      assert DeviceOk(d, Repr, bytes);
      d.ram.HostOf(a - d.range.left)
    }

    lemma AnswerIs(a: nat, d: Device, i: nat)
      requires Answer(a) == Found(d) && i == Scan(RangesOf(devices), a)
      ensures i < |devices| && devices[i] == d && d in devices && Contains(d.range, a)
    {
    }

    lemma HostPageIs(a: nat, d: Device, off: nat)
      requires Sound() && Answer(a) == Found(d) && d in devices && Contains(d.range, a) && off == a - d.range.left
      ensures DeviceOk(d, Repr, bytes) && d.ram.pageSize > 0 && HostPage(a) == d.ram.HostOf(off)
    {
      assert DeviceOk(d, Repr, bytes);
      assert HostPage(a) == HostIn(d, a);
    }

    method GetHostAddress(a: nat) returns (f: Lookup, h: Host)
      requires Valid()
      modifies this`lastRange, this`lastDevice
      ensures Valid() && bytes == old(bytes) && Repr == old(Repr)
      ensures f == Answer(a) && h == HostPage(a) == old(HostPage(a))
    {
      f := FindDevice(a);
      if f.NotFound? {
        return f, NoHost;
      }
      h := HostOn(f.device, a);
    }

    method HostOn(d: Device, a: nat) returns (h: Host)
      requires Sound() && d in devices && Contains(d.range, a)
      ensures h == HostIn(d, a)
    {
      assert DeviceOk(d, Repr, bytes);
      h := d.ram.GetHostAddress(a - d.range.left);
    }

    method Load(a: nat, n: nat) returns (r: Loaded)
      requires Valid() && Wide(n)
      modifies this`lastRange, this`lastDevice
      ensures Valid() && bytes == old(bytes) && Repr == old(Repr)
      ensures r == FlatMemory.Load(Flat(), a, n)
    {
      var f := FindDevice(a);
      match f {
        case NotFound => r := LoadFault(Unmapped);
        case Found(d) =>
          var off := a - d.range.left;
          Routed(d, a, off, n);
          r := d.ram.Load(off, n);
      }
    }

    /** After a write to `d` alone, growing its objects only by new ones, all is sound again. */
    twostate lemma Regrouped(d: Device, new off: nat, new src: seq<Byte>)
      requires old(Sound()) && d in devices && off + |src| <= Size(d.range)
      requires d.ram.Valid() && d.ram.bytes == StoreEach(old(d.ram.bytes), off, src)
      requires forall e :: e in devices && e != d ==> unchanged(e.ram) && unchanged(e.ram.Repr)
      requires fresh(d.ram.Repr - old(d.ram.Repr)) && Repr == old(Repr) + d.ram.Repr
      requires bytes == StoreEach(old(bytes), d.range.left + off, src)
      ensures Sound()
    {
      forall e | e in devices
        ensures DeviceOk(e, Repr, bytes)
      {
        assert old(DeviceOk(e, Repr, bytes));
        if e == d {
          RegroupedSelf(d, off, src, old(Repr), old(bytes), old(d.ram.bytes));
        } else {
          ApartFrom(d, e);
          assert DeviceOk(e, old(Repr), old(bytes));
          RegroupedOther(e, d.range.left + off, src, old(Repr), old(bytes));
        }
      }
      forall i, j | 0 <= i < j < |devices|
        ensures Separate(devices[i], devices[j])
      {
        assert old(Separate(devices[i], devices[j]));
      }
    }

    lemma RegroupedSelf(d: Device, off: nat, src: seq<Byte>, objects: set<object>, before: Bytes, local: Bytes)
      requires off + |src| <= Size(d.range) && d.ram.Valid() && d.ram.bytes == StoreEach(local, off, src)
      requires d.range.left <= d.range.right && Shows(before, d.range.left, Size(d.range), local)
      requires Multiple(d.ram.pageSize, 8) && Multiple(Size(d.range), d.ram.pageSize)
      requires d.ram in Repr && d.ram.Repr <= Repr && bytes == StoreEach(before, d.range.left + off, src)
      ensures DeviceOk(d, Repr, bytes)
    {
      ShownStore(before, d.range.left, Size(d.range), local, off, src);
    }

    lemma RegroupedOther(e: Device, a: nat, src: seq<Byte>, objects: set<object>, before: Bytes)
      requires DeviceOk(e, objects, before) && objects <= Repr && bytes == StoreEach(before, a, src)
      requires a + |src| <= e.range.left || e.range.right <= a
      ensures DeviceOk(e, Repr, bytes)
    {
      ShownBeside(before, e.range.left, Size(e.range), e.ram.bytes, a, src);
    }

    lemma ApartFrom(d: Device, e: Device)
      requires (forall i, j :: 0 <= i < j < |devices| ==> Apart(devices[i].range, devices[j].range))
      requires d in devices && e in devices && d != e
      ensures Apart(d.range, e.range)
    {
      var i :| 0 <= i < |devices| && devices[i] == d;
      var j :| 0 <= j < |devices| && devices[j] == e;
      if i < j {
        assert Apart(devices[i].range, devices[j].range);
      } else {
        assert Apart(devices[j].range, devices[i].range);
      }
    }

    /** The two stores as bytes, and that they stay in the device. */
    lemma StoreFits(d: Device, off: nat, n: nat, v: nat)
      requires Sound() && d in devices && off < Size(d.range) && Wide(n)
      ensures DeviceOk(d, Repr, bytes) && Multiple(d.ram.pageSize, n)
      ensures Multiple(off, n) ==> off + n <= Size(d.range)
      ensures StoreLE(d.ram.bytes, off, n, v) == StoreEach(d.ram.bytes, off, ToHost(n, v))
      ensures StoreLE(bytes, d.range.left + off, n, v) == StoreEach(bytes, d.range.left + off, ToHost(n, v))
    {
      assert DeviceOk(d, Repr, bytes);
      InDevice(Size(d.range), d.ram.pageSize, off, n);
      StoreIsEach(d.ram.bytes, off, n, v);
      StoreIsEach(bytes, d.range.left + off, n, v);
    }

    /** A change inside one device's objects leaves the others as they were. */
    twostate predicate OnlyIn(d: Device)
      reads d.ram, set e | e in devices :: e.ram
      reads set e, o | e in devices && o in e.ram.Repr :: o
    {
      && (forall e :: e in devices && e != d ==> unchanged(e.ram) && unchanged(e.ram.Repr))
      && fresh(d.ram.Repr - old(d.ram.Repr)) && PagesStay(devices)
    }

    /** The device's own store. */
    method StoreIn(d: Device, off: nat, n: nat, v: nat) returns (ok: bool, ghost src: seq<Byte>)
      requires Valid() && d in devices && off < Size(d.range) && Wide(n)
      modifies d.ram.Repr
      ensures OnlyIn(d) && d.ram.Valid() && bytes == old(bytes) && Repr == old(Repr)
      ensures ok <==> Multiple(off, n)
      ensures off + |src| <= Size(d.range) && d.ram.bytes == StoreEach(old(d.ram.bytes), off, src)
      ensures StoreEach(bytes, d.range.left + off, src)
              == if ok then StoreLE(bytes, d.range.left + off, n, v) else bytes
    {
      StoreFits(d, off, n, v);
      ok := d.ram.Store(off, n, v);
      src := if ok then ToHost(n, v) else [];
    }

    /** What the flat map shows after it. */
    method Show(d: Device, ghost off: nat, ghost src: seq<Byte>)
      modifies this`bytes, this`Repr
      ensures bytes == StoreEach(old(bytes), d.range.left + off, src) && Repr == old(Repr) + d.ram.Repr
    {
      bytes := StoreEach(bytes, d.range.left + off, src);
      Repr := Repr + d.ram.Repr;
    }

    method StoreTo(d: Device, off: nat, n: nat, v: nat) returns (ok: bool)
      requires Valid() && d in devices && off < Size(d.range) && Wide(n)
      modifies this`bytes, this`Repr, d.ram.Repr
      ensures Valid() && fresh(Repr - old(Repr))
      ensures ok <==> Multiple(off, n)
      ensures bytes == if ok then StoreLE(old(bytes), d.range.left + off, n, v) else old(bytes)
      ensures PagesStay(devices)
    {
      ghost var src;
      ok, src := StoreIn(d, off, n, v);
      Show(d, off, src);
      Regrouped(d, off, src);
    }

    lemma StoreRouted(d: Device, a: nat, off: nat, n: nat, v: nat)
      requires Sound() && Wide(n) && Answer(a) == Found(d) && off == a - d.range.left
      ensures d in devices && off < Size(d.range)
      ensures FlatMemory.Store(Flat(), a, n, v)
              == if Multiple(off, n) then Done(Flat().(bytes := StoreLE(bytes, a, n, v))) else StoreFault(Unaligned)
    {
    }

    method StoreFound(d: Device, a: nat, n: nat, v: nat) returns (r: Ack)
      requires Valid() && Wide(n) && Answer(a) == Found(d)
      modifies this`bytes, this`Repr, d.ram.Repr
      ensures Valid() && fresh(Repr - old(Repr)) && PagesStay(devices)
      ensures Acked(old(Flat()), FlatMemory.Store(old(Flat()), a, n, v), r)
    {
      var off := a - d.range.left;
      StoreRouted(d, a, off, n, v);
      var ok := StoreTo(d, off, n, v);
      r := if ok then Fine else Failed(Unaligned);
    }

    /** What a store came to. */
    ghost predicate Acked(before: Mem, s: Stored, r: Ack)
      reads this`bytes
    {
      match s
      case Done(m) => r == Fine && Flat() == m
      case StoreFault(fault) => r == Failed(fault) && Flat() == before
    }

    /** `PhysMem::store*`: the flat store, its two failures included. */
    method Store(a: nat, n: nat, v: nat) returns (r: Ack)
      requires Valid() && Wide(n)
      modifies this, Repr
      ensures Valid() && fresh(Repr - old(Repr))
      ensures match FlatMemory.Store(old(Flat()), a, n, v)
              case Done(m) => r == Fine && Flat() == m
              case StoreFault(fault) => r == Failed(fault) && Flat() == old(Flat())
      ensures PagesStay(devices)
    {
      var f := FindDevice(a);
      match f {
        case NotFound => r := Failed(Unmapped);
        case Found(d) => r := StoreFound(d, a, n, v);
      }
    }

    /** Bytes copied through a touched host pointer, inside one page of one device. */
    method CopyTo(d: Device, off: nat, src: seq<Byte>)
      requires Valid() && d in devices && off + |src| <= Size(d.range)
      requires d.ram.pageSize > 0 && PageOffset(d.ram.pageSize, off) + |src| <= d.ram.pageSize
      modifies this`bytes, this`Repr, d.ram.Repr
      ensures Valid() && fresh(Repr - old(Repr))
      ensures bytes == StoreEach(old(bytes), d.range.left + off, src)
      ensures PagesStay(devices)
    {
      assert DeviceOk(d, Repr, bytes);
      d.ram.Write(off, src);
      bytes := StoreEach(bytes, d.range.left + off, src);
      Repr := Repr + d.ram.Repr;
      Regrouped(d, off, src);
    }

    /** A stretch inside one device's range is covered. */
    lemma CoveredBy(d: Device, lo: nat, hi: nat)
      requires Sound() && d in devices && d.range.left <= lo && hi <= d.range.right
      ensures Covered(RangesOf(devices), lo, hi)
    {
      forall x | lo <= x < hi
        ensures Scan(RangesOf(devices), x) < |RangesOf(devices)|
      {
        Scanned(x, d);
      }
    }

    /** One turn of the copying loop: as much of the rest as the page at `x` takes. */
    method CopyPage(d: Device, x: nat, data: seq<Byte>, i: nat) returns (j: nat)
      requires Valid() && d in devices && Contains(d.range, x) && i < |data|
      modifies this`bytes, this`Repr, d.ram.Repr
      ensures Valid() && fresh(Repr - old(Repr)) && i < j <= |data|
      ensures bytes == StoreEach(old(bytes), x, data[i..j])
      ensures Covered(RangesOf(devices), x, x + j - i)
      ensures PagesStay(devices)
    {
      assert DeviceOk(d, Repr, bytes);
      var off := x - d.range.left;
      var _, offset := PageOf(d.ram.pageSize, off);
      RestOfPage(Size(d.range), d.ram.pageSize, off);
      var n := if |data| - i < d.ram.pageSize - offset then |data| - i else d.ram.pageSize - offset;
      CoveredBy(d, x, x + n);
      j := i + n;
      CopyTo(d, off, data[i..j]);
    }

    /** `storeContArea`: the bytes stored one by one in order, across pages and devices; at
        the first address no device holds it fails, with everything before it stored. */
    method StoreContArea(a: nat, data: seq<Byte>) returns (r: Ack, stored: nat)
      requires Valid()
      modifies this, Repr
      ensures Valid() && fresh(Repr - old(Repr)) && stored <= |data|
      ensures bytes == StoreEach(old(bytes), a, data[..stored])
      ensures Covered(RangesOf(devices), a, a + stored)
      ensures r == if stored == |data| then Fine else Failed(Unmapped)
      ensures stored < |data| ==> !Mapped(Flat(), a + stored)
      ensures PagesStay(devices)
    {
      var i := 0;
      while i < |data|
        invariant i <= |data| && Valid() && fresh(Repr - old(Repr))
        invariant bytes == StoreEach(old(bytes), a, data[..i])
        invariant Covered(RangesOf(devices), a, a + i)
        invariant PagesStay(devices)
      {
        var x := a + i;
        var f := FindDevice(x);
        if f.NotFound? {
          return Failed(Unmapped), i;
        }
        var j := CopyPage(f.device, x, data, i);
        StoreOn(old(bytes), a, x, data, i, j);
        i := j;
      }
      return Fine, i;
    }
  }
}
