/** src/memory/ram.cpp and include/besm-666/memory/ram.hpp: sparse pages, touched on first
    store, behind the flat byte map `bytes`. */
module Ram {
  import opened Bits
  import opened FlatMemory
  import opened PageAllocator

  function PageOffset(page: nat, a: nat): (o: nat)
    requires page > 0
    ensures o < page
  {
    if a < page then a else PageOffset(page, a - page)
  }

  /** It is the remainder, and `getPageId` the quotient. */
  lemma {:induction false} PageIsDiv(page: nat, a: nat)
    requires page > 0
    ensures Quotient(a, page) == a / page && PageOffset(page, a) == a % page
    decreases a
  {
    if a < page {
      DivUnique(a, page, 0, a);
    } else {
      PageIsDiv(page, a - page);
      var q := (a - page) / page;
      assert page * (q + 1) == page * q + page;
      DivUnique(a, page, q + 1, (a - page) % page);
    }
  }

  /** `getPageId` and `getPageOffset`. */
  method PageOf(page: nat, a: nat) returns (id: nat, offset: nat)
    requires page > 0
    ensures id == Quotient(a, page) && offset == PageOffset(page, a)
  {
    PageIsDiv(page, a);
    id, offset := a / page, a % page;
  }

  lemma {:induction false} InPage(page: nat, a: nat, j: nat)
    requires page > 0 && PageOffset(page, a) + j < page
    ensures Quotient(a + j, page) == Quotient(a, page) && PageOffset(page, a + j) == PageOffset(page, a) + j
    decreases a
  {
    if a >= page {
      InPage(page, a - page, j);
    }
  }

  lemma {:induction false} SamePlace(page: nat, a: nat, x: nat)
    requires page > 0 && Quotient(a, page) == Quotient(x, page)
    ensures x - a == PageOffset(page, x) - PageOffset(page, a)
    decreases a
  {
    if a >= page {
      SamePlace(page, a - page, x - page);
    }
  }

  /** An aligned access stays inside its page when the width divides the page size. */
  lemma {:induction false} AlignedInPage(page: nat, a: nat, n: nat)
    requires page > 0 && n > 0 && Multiple(page, n) && Multiple(a, n)
    ensures PageOffset(page, a) + n <= page
    decreases a
  {
    if a < page {
      Apart(a, page, n);
    } else {
      MultipleLess(a, page, n);
      AlignedInPage(page, a - page, n);
    }
  }

  /** And only then: otherwise the last aligned address of a page is too close to its end. */
  lemma AlignedInPageIff(page: nat, n: nat)
    requires page > 0 && n > 0
    ensures Multiple(page, n) <==> forall a: nat :: Multiple(a, n) ==> PageOffset(page, a) + n <= page
  {
    if Multiple(page, n) {
      forall a: nat | Multiple(a, n)
        ensures PageOffset(page, a) + n <= page
      {
        AlignedInPage(page, a, n);
      }
    } else {
      var a := LastMultiple(page, n);
      assert PageOffset(page, a) == a;
    }
  }

  lemma {:induction false} LastMultiple(x: nat, n: nat) returns (a: nat)
    requires n > 0
    ensures Multiple(a, n) && a <= x < a + n
    decreases x
  {
    if x < n {
      a := 0;
    } else {
      var b := LastMultiple(x - n, n);
      a := b + n;
    }
  }

  /** An object of `n` bytes read through a host pointer. */
  function ReadHost(data: array<Byte>, lo: nat, n: nat): nat
    requires lo + n <= data.Length
    reads data
    decreases n
  {
    if n == 0 then 0 else data[lo] + 256 * ReadHost(data, lo + 1, n - 1)
  }

  /** `memcpy` into host memory. */
  method CopyHost(data: array<Byte>, lo: nat, src: seq<Byte>)
    requires lo + |src| <= data.Length
    modifies data
    ensures forall i :: 0 <= i < data.Length ==> data[i] == if lo <= i < lo + |src| then src[i - lo] else old(data[i])
  {
    var k := 0;
    while k < |src|
      invariant k <= |src|
      invariant forall i :: 0 <= i < data.Length ==> data[i] == if lo <= i < lo + k then src[i - lo] else old(data[i])
    {
      data[lo + k] := src[k];
      k := k + 1;
    }
  }

  datatype Host = NoHost | Host(ptr: HostPtr, size: nat)

  class Ram {
    const ramSize: nat
    const pageSize: nat
    const allocator: RamPageAllocator
    var pagemap: map<nat, HostPtr>

    ghost var bytes: Bytes
    ghost var Repr: set<object>

    /** Every mapped page is one the allocator gave out, to this page alone. */
    ghost predicate Placed()
      reads this, Repr
    {
      && this in Repr && allocator in Repr && allocator.Repr <= Repr && this !in allocator.Repr
      && allocator.Valid() && pageSize == allocator.pageSize && Multiple(allocator.mapSize, pageSize)
      && (forall id :: id in pagemap ==> pagemap[id] in allocator.pages)
      && (forall id, id' :: id in pagemap && id' in pagemap && pagemap[id] == pagemap[id'] ==> id == id')
    }

    /** The byte the host holds for an address. */
    ghost function HostByte(a: nat): Byte
      requires Placed()
      reads this, Repr
    {
      var id := Quotient(a, pageSize);
      if id in pagemap then
        allocator.PagesDisjoint(pagemap[id], pagemap[id]);
        pagemap[id].chunk.data[pagemap[id].off + PageOffset(pageSize, a)]
      else 0
    }

    ghost predicate Valid()
      reads this, Repr
    {
      Placed() && forall a: nat {:trigger HostByte(a)} :: HostByte(a) == At(bytes, a)
    }

    constructor (size: nat, page: nat, chunk: nat, host: nat)
      requires Accepted(page, chunk, host) && Fits(page, chunk, host)
      ensures Valid() && fresh(Repr) && bytes == map[] && ramSize == size && pageSize == page
    {
      ramSize, pageSize := size, page;
      allocator := new RamPageAllocator(page, chunk, host);
      pagemap, bytes := map[], map[];
      new;
      Repr := {this} + allocator.Repr;
    }

    /** The window on the rest of a mapped page. */
    ghost function HostOf(address: nat): Host
      requires pageSize > 0
      reads this
    {
      var id, offset := Quotient(address, pageSize), PageOffset(pageSize, address);
      if id in pagemap then Host(HostPtr(pagemap[id].chunk, pagemap[id].off + offset), pageSize - offset) else NoHost
    }

    method GetHostAddress(address: nat) returns (h: Host)
      requires Valid()
      ensures h == HostOf(address)
    {
      var id, offset := PageOf(pageSize, address);
      if id in pagemap {
        var page := pagemap[id];
        h := Host(HostPtr(page.chunk, page.off + offset), pageSize - offset);
      } else {
        h := NoHost;
      }
    }

    lemma HostAt(address: nat)
      requires Valid() && Quotient(address, pageSize) in pagemap
      ensures var p := pagemap[Quotient(address, pageSize)];
              var x := p.off + PageOffset(pageSize, address);
              && p.chunk in Repr && p.chunk.data in Repr && p.off + pageSize <= p.chunk.data.Length
              && p.chunk.data[x] == At(bytes, address)
    {
      var p := pagemap[Quotient(address, pageSize)];
      allocator.PagesDisjoint(p, p);
      assert HostByte(address) == At(bytes, address);
    }

    /** What a host pointer to this RAM shows is the flat map. */
    lemma {:induction false} HostIsFlat(address: nat, n: nat)
      requires Valid() && Quotient(address, pageSize) in pagemap && PageOffset(pageSize, address) + n <= pageSize
      ensures var p := pagemap[Quotient(address, pageSize)];
              var lo := p.off + PageOffset(pageSize, address);
              && p.chunk in Repr && p.chunk.data in Repr && lo + n <= p.chunk.data.Length
              && ReadHost(p.chunk.data, lo, n) == LoadLE(bytes, address, n)
      decreases n
    {
      HostAt(address);
      if n > 1 {
        InPage(pageSize, address, 1);
        HostIsFlat(address + 1, n - 1);
      }
    }

    /** Bytes inside a window, read through its pointer, are the flat map's. */
    lemma WindowShows(at: nat, w: Host, off: nat, n: nat, x: nat)
      requires Valid() && w.Host? && HostOf(at) == w && at <= off && off + n <= at + w.size
      requires n > 0 && x == w.ptr.off + (off - at)
      ensures w.ptr.chunk in Repr && w.ptr.chunk.data in Repr && x + n <= w.ptr.chunk.data.Length
      ensures ReadHost(w.ptr.chunk.data, x, n) == LoadLE(bytes, off, n)
    {
      InPage(pageSize, at, off - at);
      HostIsFlat(off, n);
    }

    lemma {:induction false} Unbacked(address: nat, n: nat)
      requires Valid() && Quotient(address, pageSize) !in pagemap && PageOffset(pageSize, address) + n <= pageSize
      ensures LoadLE(bytes, address, n) == 0
      decreases n
    {
      if n > 0 {
        InPage(pageSize, address, 0);
        assert HostByte(address) == At(bytes, address);
        if n > 1 {
          InPage(pageSize, address, 1);
          Unbacked(address + 1, n - 1);
        }
      }
    }

    /** `RAM::load`: the little-endian bytes last stored, or zeros. */
    method Load(address: nat, n: nat) returns (r: Loaded)
      requires Valid() && n > 0 && Multiple(pageSize, n)
      ensures r == Reading(bytes, address, address, n)
    {
      MultipleIsMod(address, n);
      if address % n != 0 {
        return LoadFault(Unaligned);
      }
      AlignedInPage(pageSize, address, n);
      var h := GetHostAddress(address);
      match h {
        case NoHost =>
          Unbacked(address, n);
          r := Value(0);
        case Host(p, _) =>
          HostIsFlat(address, n);
          r := Value(ReadHost(p.chunk.data, p.off, n));
      }
    }

    /** Mapping an absent page: it shows zeros, which is what the flat map already held. */
    method MapPage(id: nat) returns (p: HostPtr)
      requires Valid() && id !in pagemap
      modifies this, allocator, allocator.Back()
      ensures Valid() && fresh(Repr - old(Repr)) && old(Repr) <= Repr && bytes == old(bytes)
      ensures pagemap == old(pagemap)[id := p]
    {
      p := allocator.AllocPage();
      pagemap := pagemap[id := p];
      Repr := Repr + allocator.Repr;
      assert Placed();
      MappedSame(id, p);
    }

    twostate lemma MappedSame(id: nat, new p: HostPtr)
      requires old(Valid()) && Placed() && id !in old(pagemap) && pagemap == old(pagemap)[id := p]
      requires bytes == old(bytes)
      requires forall q :: q in old(allocator.pages) ==> unchanged(q.chunk.data)
      requires p.off + pageSize <= p.chunk.data.Length
      requires forall i :: p.off <= i < p.off + pageSize ==> p.chunk.data[i] == 0
      ensures Valid()
    {
      forall a: nat
        ensures HostByte(a) == At(bytes, a)
      {
        assert old(HostByte(a)) == At(bytes, a);
        var o := PageOffset(pageSize, a);
        if Quotient(a, pageSize) == id {
          assert p.chunk.data[p.off + o] == 0;
        } else if Quotient(a, pageSize) in pagemap {
          var q := pagemap[Quotient(a, pageSize)];
          allocator.PagesDisjoint(q, q);
          assert q.chunk.data[q.off + o] == old(q.chunk.data[q.off + o]);
        }
      }
    }

    /** `touchPageAddress`: touching changes no byte, and no page ever moves. */
    method TouchPage(address: nat) returns (p: HostPtr)
      requires Valid()
      modifies this, allocator, allocator.Back()
      ensures Valid() && fresh(Repr - old(Repr)) && old(Repr) <= Repr && bytes == old(bytes)
      ensures forall id :: id in old(pagemap) ==> id in pagemap && pagemap[id] == old(pagemap[id])
      ensures Quotient(address, pageSize) in pagemap && pagemap[Quotient(address, pageSize)] == p
    {
      var id, _ := PageOf(pageSize, address);
      if id in pagemap {
        p := pagemap[id];
      } else {
        p := MapPage(id);
      }
    }

    /** The bytes of one page, changed in place. */
    twostate lemma Written(new address: nat, new src: seq<Byte>, p: HostPtr, new lo: nat)
      requires old(Valid()) && PageOffset(pageSize, address) + |src| <= pageSize
      requires Quotient(address, pageSize) in old(pagemap) && pagemap == old(pagemap) && Repr == old(Repr)
      requires bytes == StoreEach(old(bytes), address, src)
      requires p == pagemap[Quotient(address, pageSize)] && lo == p.off + PageOffset(pageSize, address)
      requires unchanged(allocator)
      requires forall c :: c in allocator.chunks ==> unchanged(c) && (c == p.chunk || unchanged(c.data))
      requires forall i :: 0 <= i < p.chunk.data.Length ==>
                 p.chunk.data[i] == if lo <= i < lo + |src| then src[i - lo] else old(p.chunk.data[i])
      ensures Valid()
    {
      allocator.WriteKept(p);
      forall a: nat
        ensures HostByte(a) == At(bytes, a)
      {
        assert old(HostByte(a)) == At(old(bytes), a);
        if Quotient(a, pageSize) in pagemap {
          WrittenByte(address, src, p, lo, a);
        } else {
          StoreEachAt(old(bytes), address, src, a);
          Elsewhere(address, |src|, a);
        }
      }
    }

    twostate lemma WrittenByte(new address: nat, new src: seq<Byte>, p: HostPtr, new lo: nat, new a: nat)
      requires old(Placed()) && Placed() && PageOffset(pageSize, address) + |src| <= pageSize
      requires old(HostByte(a)) == At(old(bytes), a)
      requires Quotient(a, pageSize) in pagemap && Quotient(address, pageSize) in pagemap && pagemap == old(pagemap)
      requires p == pagemap[Quotient(address, pageSize)] && lo == p.off + PageOffset(pageSize, address)
      requires var q := pagemap[Quotient(a, pageSize)]; q.chunk == p.chunk || unchanged(q.chunk.data)
      requires forall i :: 0 <= i < p.chunk.data.Length ==>
                 p.chunk.data[i] == if lo <= i < lo + |src| then src[i - lo] else old(p.chunk.data[i])
      ensures HostByte(a) == At(StoreEach(old(bytes), address, src), a)
    {
      var q := pagemap[Quotient(a, pageSize)];
      allocator.PagesDisjoint(p, q);
      ByteShown(a);
      var x := q.off + PageOffset(pageSize, a);
      if q.chunk.data == p.chunk.data {
        assert q.chunk.data[x] == if lo <= x < lo + |src| then src[x - lo] else At(old(bytes), a);
      }
      WrittenAt(old(bytes), address, src, p, lo, a, q, x, q.chunk.data[x]);
    }

    twostate lemma ByteShown(new a: nat)
      requires old(Placed()) && Placed() && pagemap == old(pagemap) && Quotient(a, pageSize) in pagemap
      ensures var q := pagemap[Quotient(a, pageSize)];
              var x := q.off + PageOffset(pageSize, a);
              && x < q.chunk.data.Length
              && HostByte(a) == q.chunk.data[x] && old(HostByte(a)) == old(q.chunk.data[x])
    {
      var q := pagemap[Quotient(a, pageSize)];
      allocator.PagesDisjoint(q, q);
    }

    lemma WrittenAt(before: Bytes, address: nat, src: seq<Byte>, p: HostPtr, lo: nat,
                    a: nat, q: HostPtr, x: nat, now: Byte)
      requires pageSize > 0 && PageOffset(pageSize, address) + |src| <= pageSize
      requires Quotient(address, pageSize) == Quotient(a, pageSize) ==> p == q
      requires Quotient(address, pageSize) != Quotient(a, pageSize) ==>
                 q.chunk.data != p.chunk.data || p.off + pageSize <= q.off || q.off + pageSize <= p.off
      requires lo == p.off + PageOffset(pageSize, address) && x == q.off + PageOffset(pageSize, a)
      requires now == if q.chunk.data == p.chunk.data && lo <= x < lo + |src| then src[x - lo] else At(before, a)
      ensures now == At(StoreEach(before, address, src), a)
    {
      StoreEachAt(before, address, src, a);
      if Quotient(a, pageSize) == Quotient(address, pageSize) {
        SamePlace(pageSize, address, a);
      } else {
        Elsewhere(address, |src|, a);
      }
    }

    lemma Elsewhere(address: nat, n: nat, a: nat)
      requires pageSize > 0 && Quotient(a, pageSize) != Quotient(address, pageSize)
      requires PageOffset(pageSize, address) + n <= pageSize
      ensures !(address <= a < address + n)
    {
      if address <= a < address + n {
        InPage(pageSize, address, a - address);
      }
    }

    method WriteMapped(address: nat, src: seq<Byte>)
      requires Valid() && PageOffset(pageSize, address) + |src| <= pageSize && Quotient(address, pageSize) in pagemap
      modifies this`bytes, pagemap[Quotient(address, pageSize)].chunk.data
      ensures Valid() && bytes == StoreEach(old(bytes), address, src)
    {
      var id, offset := PageOf(pageSize, address);
      var p := pagemap[id];
      HostAt(address);
      var lo := p.off + offset;
      CopyHost(p.chunk.data, lo, src);
      bytes := StoreEach(bytes, address, src);
      Written(address, src, p, lo);
    }

    /** Bytes copied within one page. */
    method Write(address: nat, src: seq<Byte>)
      requires Valid() && PageOffset(pageSize, address) + |src| <= pageSize
      modifies Repr
      ensures Valid() && fresh(Repr - old(Repr)) && old(Repr) <= Repr
      ensures bytes == StoreEach(old(bytes), address, src)
      ensures forall id :: id in old(pagemap) ==> id in pagemap && pagemap[id] == old(pagemap[id])
    {
      var _ := TouchPage(address);
      HostAt(address);
      WriteMapped(address, src);
    }

    /** `RAM::store`: the value's bytes, lowest first. */
    method Store(address: nat, n: nat, v: nat) returns (ok: bool)
      requires Valid() && n > 0 && Multiple(pageSize, n)
      modifies Repr
      ensures Valid() && fresh(Repr - old(Repr)) && old(Repr) <= Repr
      ensures ok <==> Multiple(address, n)
      ensures bytes == if ok then StoreLE(old(bytes), address, n, v) else old(bytes)
      ensures forall id :: id in old(pagemap) ==> id in pagemap && pagemap[id] == old(pagemap[id])
    {
      MultipleIsMod(address, n);
      ok := address % n == 0;
      if ok {
        AlignedInPage(pageSize, address, n);
        StoreIsEach(bytes, address, n, v);
        Write(address, ToHost(n, v));
      }
    }
  }
}
