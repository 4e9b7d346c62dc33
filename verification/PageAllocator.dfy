/** src/memory/ram.cpp, first half: chunks mapped from the host and the bump allocator that
    cuts them into guest pages. */
module PageAllocator {
  import opened Bits
  import BitMagic

  // ---------------------------------------------------------------- include/besm-666/util/math.hpp

  predicate Is2Pow(v: nat) {
    v == 0 || BitAnd(v, v - 1) == 0
  }

  /** `(value + d) & ~(d - 1)` in a `w`-bit type. */
  function Nearest2PowDivident(w: nat, value: nat, d: nat): nat
    requires 0 < d < Pow2(w)
  {
    BitAnd(Low(value + d, w), BitNot(w, d - 1))
  }

  /** The test accepts zero and the powers of two. */
  lemma Is2PowIff(v: nat)
    ensures Is2Pow(v) <==> v == 0 || exists k: nat :: v == Pow2(k)
  {
    if v > 0 && Is2Pow(v) {
      var k := LowBitOnly(v);
    }
    if k: nat :| v == Pow2(k) {
      PowerPasses(k);
    }
  }

  lemma {:induction false} PowerPasses(k: nat)
    ensures BitAnd(Pow2(k), Pow2(k) - 1) == 0
  {
    if k > 0 {
      PowerPasses(k - 1);
      AndUnfold(Pow2(k), Pow2(k) - 1);
      assert (Pow2(k) - 1) / 2 == Pow2(k - 1) - 1;
    }
  }

  lemma {:induction false} LowBitOnly(v: nat) returns (k: nat)
    requires v > 0 && BitAnd(v, v - 1) == 0
    ensures v == Pow2(k)
  {
    AndUnfold(v, v - 1);
    if v % 2 == 0 {
      assert (v - 1) / 2 == v / 2 - 1;
      var j := LowBitOnly(v / 2);
      k := j + 1;
    } else {
      AndSelf(v / 2);
      k := 0;
    }
  }

  lemma AndSelf(a: nat)
    ensures BitAnd(a, a) == a
  {
  }

  /** A multiple of the divider in `(value, value + d]`: strictly above `value`, even when
      `value` is itself a multiple. */
  lemma NearestIsMultiple(w: nat, value: nat, d: nat, k: nat)
    requires d == Pow2(k) && value + d < Pow2(w)
    ensures var r := Nearest2PowDivident(w, value, d); r % d == 0 && value < r <= value + d
  {
    NearestRoundsDown(w, value, d, k);
    RoundedDown(value, d);
  }

  lemma NearestRoundsDown(w: nat, value: nat, d: nat, k: nat)
    requires d == Pow2(k) && value + d < Pow2(w)
    ensures Nearest2PowDivident(w, value, d) == value + d - (value + d) % d
  {
    var x := value + d;
    LowId(x, w);
    AndNot(x, d - 1, w);
    AndOnes(x, k);
    LowIsMod(x, k);
  }

  lemma RoundedDown(value: nat, d: nat)
    requires d > 0
    ensures var r := value + d - (value + d) % d; r % d == 0 && value < r <= value + d
  {
    var x := value + d;
    DivUnique(x - x % d, d, x / d, 0);
  }

  // ---------------------------------------------------------------- when pages fit

  /** The size a chunk is mapped with. */
  function MapSize(chunk: nat, host: nat): nat {
    if 0 < host < Pow2(WIDTH) then Nearest2PowDivident(WIDTH, chunk, host) else 0
  }

  /** It is a positive multiple of the page size. */
  predicate Fits(page: nat, chunk: nat, host: nat) {
    page > 0 && MapSize(chunk, host) > 0 && Multiple(MapSize(chunk, host), page)
  }

  /** What the constructors of `RAM` and its allocator accept, on a host whose page size is a
      power of two, when the size to map does not overflow. */
  ghost predicate Accepted(page: nat, chunk: nat, host: nat) {
    && page > 0 && Is2Pow(page) && page <= chunk
    && (exists k: nat :: host == Pow2(k)) && chunk + host < TWO64
  }

  lemma {:induction false} Decompose(x: nat, d: nat) returns (r: nat)
    requires d > 0
    ensures x == d * Quotient(x, d) + r && r < d && (Multiple(x, d) ==> r == 0)
    decreases x
  {
    if x < d {
      r := x;
    } else {
      r := Decompose(x - d, d);
      NextProduct(d, Quotient(x - d, d));
    }
  }

  lemma QuotientOf(x: nat, d: nat, q: nat, r: nat)
    requires d > 0 && x == d * q + r && r < d
    ensures Quotient(x, d) == q
  {
    var r' := Decompose(x, d);
    if Quotient(x, d) < q {
      MulOrder(d, Quotient(x, d), q);
    } else if q < Quotient(x, d) {
      MulOrder(d, q, Quotient(x, d));
    }
  }

  lemma QuotientIsDiv(x: nat, d: nat)
    requires d > 0
    ensures Quotient(x, d) == x / d
  {
    DivMod(x, d);
    QuotientOf(x, d, x / d, x % d);
  }

  /** Chunks are mapped with the next multiple of the host page size, always above `chunk`. */
  lemma MappedSize(chunk: nat, host: nat, k: nat, q: nat, r: nat, n: nat)
    requires host == Pow2(k) && chunk + host < TWO64 && chunk == host * q + r && r < host && n == q + 1
    ensures MapSize(chunk, host) == host * n > 0
  {
    Pow64();
    NearestRoundsDown(WIDTH, chunk, host, k);
    Shifted(chunk, host, q, r, n);
    Positive(host, n);
  }

  lemma Shifted(x: nat, d: nat, q: nat, r: nat, n: nat)
    requires d > 0 && x == d * q + r && r < d && n == q + 1
    ensures x + d - (x + d) % d == d * n
  {
    NextProduct(d, q);
    DivUnique(x + d, d, n, r);
  }

  lemma NextProduct(d: nat, q: nat)
    ensures d * (q + 1) == d * q + d
  {
  }

  lemma AcceptedMaps(page: nat, chunk: nat, host: nat)
    requires Accepted(page, chunk, host)
    ensures page > 0 && MapSize(chunk, host) > 0
    ensures Fits(page, chunk, host) <==> Multiple(MapSize(chunk, host), page)
  {
    var j, k := PagePowers(page, chunk, host);
    var n := MapsWhole(chunk, host, k);
  }

  lemma PagePowers(page: nat, chunk: nat, host: nat) returns (j: nat, k: nat)
    requires Accepted(page, chunk, host)
    ensures page == Pow2(j) && host == Pow2(k)
  {
    Is2PowIff(page);
    j :| page == Pow2(j);
    k :| host == Pow2(k);
  }

  /** How many host pages are mapped. */
  lemma MapsWhole(chunk: nat, host: nat, k: nat) returns (n: nat)
    requires host == Pow2(k) && chunk + host < TWO64
    ensures n == Quotient(chunk, host) + 1 && MapSize(chunk, host) == host * n > 0
  {
    var q := Quotient(chunk, host);
    var r := Decompose(chunk, host);
    n := q + 1;
    MappedSize(chunk, host, k, q, r, n);
  }

  /** Pages are cut from the mapped size without remainder if and only if the page is no larger
      than the host's, or the host pages of a chunk, and one more, are a whole number of pages. */
  lemma FitsIff(page: nat, chunk: nat, host: nat)
    requires Accepted(page, chunk, host)
    ensures Fits(page, chunk, host) <==> page <= host || Multiple(Quotient(chunk, host) + 1, Quotient(page, host))
  {
    var j, k := PagePowers(page, chunk, host);
    var n := MapsWhole(chunk, host, k);
    FitsFrom(page, chunk, host, j, k, n);
  }

  /** The same with division and remainder. */
  lemma FitsIffDividing(page: nat, chunk: nat, host: nat)
    requires Accepted(page, chunk, host)
    ensures Fits(page, chunk, host) <==> page <= host || (chunk / host + 1) % (page / host) == 0
  {
    FitsIff(page, chunk, host);
    if page > host {
      Divides(page, chunk, host);
    }
  }

  lemma Divides(page: nat, chunk: nat, host: nat)
    requires page > host > 0
    ensures page / host > 0
    ensures Multiple(Quotient(chunk, host) + 1, Quotient(page, host)) <==> (chunk / host + 1) % (page / host) == 0
  {
    QuotientIsDiv(chunk, host);
    QuotientIsDiv(page, host);
    MultipleIsMod(chunk / host + 1, page / host);
  }

  lemma FitsFrom(page: nat, chunk: nat, host: nat, j: nat, k: nat, q: nat)
    requires page == Pow2(j) && host == Pow2(k) && MapSize(chunk, host) == host * q > 0
    ensures Fits(page, chunk, host) <==> page <= host || Multiple(q, Quotient(page, host))
  {
    MultipleIsMod(host * q, page);
    CutsIff(page, host, j, k, q);
  }

  lemma CutsIff(page: nat, host: nat, j: nat, k: nat, q: nat)
    requires page == Pow2(j) && host == Pow2(k)
    ensures (host * q) % page == 0 <==> page <= host || Multiple(q, Quotient(page, host))
  {
    if j <= k {
      Pow2Add(j, k - j);
      BitMagic.Pow2Mono(j, k);
      DividesProduct(page, Pow2(k - j), q);
    } else {
      Pow2Add(k, j - k);
      LargerPage(page, host, Pow2(j - k), q);
    }
  }

  lemma LargerPage(page: nat, host: nat, t: nat, q: nat)
    requires host > 0 && t >= 2 && page == host * t
    ensures page > host && Quotient(page, host) == t
    ensures (host * q) % page == 0 <==> Multiple(q, t)
  {
    MulOrder(host, 1, t);
    QuotientOf(page, host, t, 0);
    ProductMod(host, t, q);
    MultipleIsMod(q, t);
  }

  lemma Positive(a: nat, b: nat)
    requires a > 0 && b > 0
    ensures a * b > 0
  {
  }

  lemma DividesProduct(a: nat, b: nat, c: nat)
    requires a > 0
    ensures ((a * b) * c) % a == 0
  {
    Distribute(a, b, c, 0);
    DivUnique((a * b) * c, a, b * c, 0);
  }

  /** `h * q` modulo `h * t` is `h` times `q` modulo `t`. */
  lemma ProductMod(h: nat, t: nat, q: nat)
    requires h > 0 && t > 0
    ensures h * t > 0 && ((h * q) % (h * t) == 0 <==> q % t == 0)
  {
    Positive(h, t);
    DivUnique(h * q, h, q, 0);
    DivModMod(h * q, h, t, h * t);
    if q % t > 0 {
      Positive(h, q % t);
    }
  }

  /** So pages larger than the host's never fit a chunk that is a whole number of them: the
      rounding always adds one host page. */
  lemma WholeChunksOverrun(page: nat, chunk: nat, host: nat)
    requires Accepted(page, chunk, host) && page > host && Multiple(chunk, page)
    ensures !Fits(page, chunk, host)
  {
    Is2PowIff(page);
    var j: nat :| page == Pow2(j);
    var k: nat :| host == Pow2(k);
    if j <= k {
      BitMagic.Pow2Mono(j, k);
    }
    Pow2Add(k, j - k);
    var _ := Decompose(chunk, page);
    WholePages(page, chunk, host, Pow2(j - k), Quotient(chunk, page));
    FitsIff(page, chunk, host);
  }

  lemma WholePages(page: nat, chunk: nat, host: nat, t: nat, m: nat)
    requires host > 0 && t >= 2 && page == host * t && chunk == page * m
    ensures Quotient(page, host) == t && !Multiple(Quotient(chunk, host) + 1, t)
  {
    LargerPage(page, host, t, 0);
    Distribute(host, t, m, 0);
    QuotientOf(chunk, host, t * m, 0);
    DivUnique(t * m + 1, t, m, 1);
    MultipleIsMod(t * m + 1, t);
  }

  lemma {:induction false} Apart(a: nat, b: nat, page: nat)
    requires page > 0 && Multiple(a, page) && Multiple(b, page) && a < b
    ensures a + page <= b
    decreases a
  {
    if a > 0 {
      Apart(a - page, b - page, page);
    }
  }

  // ---------------------------------------------------------------- chunks

  datatype Page = NoPage | Start(off: nat)

  /** A host mapping; `new` is the host's `mmap`, fresh and zeroed. */
  class Chunk {
    const data: array<Byte>
    const pageSize: nat
    var rower: nat

    /** Cut from the front in pages, and untouched behind `rower`. */
    ghost predicate Valid()
      reads this, data
    {
      && pageSize > 0 && Multiple(rower, pageSize)
      && forall i :: rower <= i < data.Length ==> data[i] == 0
    }

    constructor (page: nat, size: nat)
      requires page > 0
      ensures fresh(data) && data.Length == size
      ensures Valid() && rower == 0 && pageSize == page
    {
      data := new Byte[size](_ => 0);
      pageSize := page;
      rower := 0;
    }

    /** The page at `rower`, zeroed as far as it lies in the chunk, if it starts there; where
        it ends is not looked at. */
    method AllocPage() returns (p: Page)
      requires Valid()
      modifies this
      ensures Valid() && p == if old(rower) < data.Length then Start(old(rower)) else NoPage
      ensures rower == if p.Start? then old(rower) + pageSize else old(rower)
      ensures p.Start? ==> forall i :: p.off <= i < p.off + pageSize && i < data.Length ==> data[i] == 0
    {
      if rower < data.Length {
        p := Start(rower);
        rower := rower + pageSize;
      } else {
        p := NoPage;
      }
    }
  }

  /** A pointer into host memory. */
  datatype HostPtr = HostPtr(chunk: Chunk, off: nat)

  // ---------------------------------------------------------------- the allocator

  class RamPageAllocator {
    const pageSize: nat
    const mapSize: nat
    var chunks: seq<Chunk>

    ghost var pages: set<HostPtr>
    ghost var Repr: set<object>

    ghost predicate Valid()
      reads this, Repr
    {
      && this in Repr && pageSize > 0 && mapSize > 0
      && (forall c :: c in chunks ==>
            c in Repr && c.data in Repr && c.pageSize == pageSize && c.data.Length == mapSize && c.Valid())
      && (forall i, j :: 0 <= i < j < |chunks| ==> chunks[i] != chunks[j] && chunks[i].data != chunks[j].data)
      && (forall p :: p in pages ==>
            p.chunk in chunks && Multiple(p.off, pageSize) && p.off < mapSize && p.off + pageSize <= p.chunk.rower)
    }

    ghost function Back(): set<Chunk>
      reads this
    {
      if chunks == [] then {} else {chunks[|chunks| - 1]}
    }

    /** Every chunk is mapped with the chunk size rounded up to host pages. */
    constructor (page: nat, chunk: nat, host: nat)
      requires Accepted(page, chunk, host)
      ensures Valid() && pages == {} && Repr == {this} && pageSize == page && chunks == []
      ensures mapSize == MapSize(chunk, host)
    {
      AcceptedMaps(page, chunk, host);
      pageSize, mapSize := page, MapSize(chunk, host);
      chunks := [];
      pages := {};
      Repr := {this};
    }

    /** The back chunk's next page, if it has one left. */
    method FromBack() returns (page: Page)
      requires Valid()
      modifies this`pages, Back()
      ensures Valid()
      ensures page.NoPage? <==> chunks == [] || old(chunks[|chunks| - 1].rower) >= mapSize
      ensures page.NoPage? ==> pages == old(pages)
      ensures page.Start? ==>
                var p := HostPtr(chunks[|chunks| - 1], page.off);
                && p.off == old(chunks[|chunks| - 1].rower) && p.chunk.rower == p.off + pageSize
                && p !in old(pages) && pages == old(pages) + {p} && p.off < p.chunk.data.Length
                && forall i :: p.off <= i < p.off + pageSize && i < p.chunk.data.Length ==> p.chunk.data[i] == 0
    {
      page := NoPage;
      if chunks != [] {
        var back := chunks[|chunks| - 1];
        page := back.AllocPage();
        if page.Start? {
          pages := pages + {HostPtr(back, page.off)};
        }
      }
    }

    /** `chunks_.emplace_back`. */
    method Grow()
      requires Valid()
      modifies this
      ensures Valid() && fresh(Repr - old(Repr)) && old(Repr) <= Repr && pages == old(pages)
      ensures |chunks| == |old(chunks)| + 1 && fresh(chunks[|chunks| - 1])
      ensures chunks[|chunks| - 1].rower == 0
    {
      var c := new Chunk(pageSize, mapSize);
      chunks := chunks + [c];
      Repr := Repr + {c, c.data};
    }

    /** A page never handed out before, the next of the back chunk or the first of a new one.
        It is zeroed, and inside the chunk when the page size divides the mapped size. */
    method AllocPage() returns (p: HostPtr)
      requires Valid()
      modifies this, Back()
      ensures Valid() && fresh(Repr - old(Repr)) && old(Repr) <= Repr
      ensures p !in old(pages) && pages == old(pages) + {p}
      ensures p.chunk in Repr && p.chunk.data in Repr && p.off < p.chunk.data.Length == mapSize
      ensures chunks != [] && p.chunk == chunks[|chunks| - 1] && p.chunk.rower == p.off + pageSize
      ensures var room := old(chunks != [] && chunks[|chunks| - 1].rower < mapSize);
              && |chunks| == |old(chunks)| + (if room then 0 else 1)
              && p.off == if room then old(chunks[|chunks| - 1].rower) else 0
      ensures Multiple(mapSize, pageSize) ==> p.off + pageSize <= p.chunk.data.Length
      ensures forall i :: p.off <= i < p.off + pageSize && i < p.chunk.data.Length ==> p.chunk.data[i] == 0
    {
      var page := FromBack();
      if page.NoPage? {
        Grow();
        page := FromBack();
      }
      p := HostPtr(chunks[|chunks| - 1], page.off);
      if Multiple(mapSize, pageSize) {
        Apart(p.off, mapSize, pageSize);
      }
    }

    /** Writing inside a page given out does not disturb the allocator. */
    twostate lemma WriteKept(p: HostPtr)
      requires old(Valid()) && p in old(pages) && unchanged(this)
      requires forall c :: c in chunks ==> unchanged(c) && (c == p.chunk || unchanged(c.data))
      requires forall i :: p.off + pageSize <= i < p.chunk.data.Length ==> p.chunk.data[i] == old(p.chunk.data[i])
      ensures Valid()
    {
      forall c | c in chunks
        ensures c.Valid()
      {
        assert old(c.Valid());
      }
    }

    /** Any two pages handed out are disjoint, and each lies inside its chunk when the page
        size divides the mapped size. */
    lemma PagesDisjoint(p: HostPtr, q: HostPtr)
      requires Valid() && p in pages && q in pages
      ensures Multiple(mapSize, pageSize) ==> p.off + pageSize <= p.chunk.data.Length
      ensures p != q ==>
                p.chunk.data != q.chunk.data || p.off + pageSize <= q.off || q.off + pageSize <= p.off
    {
      var i :| 0 <= i < |chunks| && chunks[i] == p.chunk;
      var j :| 0 <= j < |chunks| && chunks[j] == q.chunk;
      if Multiple(mapSize, pageSize) {
        Apart(p.off, mapSize, pageSize);
      }
      if p.off < q.off {
        Apart(p.off, q.off, pageSize);
      } else if q.off < p.off {
        Apart(q.off, p.off, pageSize);
      }
    }
  }

  /** One more page from a chunk that is not used up. */
  method NextPage(allocator: RamPageAllocator, chunk: Chunk) returns (p: HostPtr)
    requires allocator.Valid() && allocator.chunks == [chunk] && chunk.rower < chunk.data.Length
    modifies allocator, chunk
    ensures allocator.Valid() && allocator.chunks == [p.chunk] && fresh(allocator.Repr - old(allocator.Repr))
    ensures p.off == old(chunk.rower) && p.chunk.rower == p.off + allocator.pageSize
    ensures p.off < p.chunk.data.Length == allocator.mapSize
  {
    assert chunk in allocator.chunks;
    p := allocator.AllocPage();
  }

  /** Cutting pages until the first chunk is used up: the last one lies inside it if and only if
      pages fit the mapped size. */
  method LastPage(page: nat, chunk: nat, host: nat) returns (last: HostPtr)
    requires Accepted(page, chunk, host)
    ensures last.off < last.chunk.data.Length
    ensures last.off + page <= last.chunk.data.Length <==> Fits(page, chunk, host)
  {
    AcceptedMaps(page, chunk, host);
    var allocator := new RamPageAllocator(page, chunk, host);
    last := allocator.AllocPage();
    while last.chunk.rower < last.chunk.data.Length
      invariant allocator.Valid() && allocator.chunks == [last.chunk] && fresh(allocator.Repr)
      invariant last.off < last.chunk.data.Length == allocator.mapSize && last.chunk.rower == last.off + page
      decreases last.chunk.data.Length - last.chunk.rower
    {
      last := NextPage(allocator, last.chunk);
    }
    EndsInside(last.off, last.chunk.rower, allocator.mapSize, page);
  }

  lemma EndsInside(off: nat, end: nat, size: nat, page: nat)
    requires page > 0 && end == off + page && Multiple(end, page) && off < size <= end
    ensures end <= size <==> Multiple(size, page)
  {
    if Multiple(size, page) {
      Apart(off, size, page);
    }
  }

  /** 64 KiB pages in 1 MiB chunks on a host with 4 KiB pages: the seventeenth page starts inside
      the chunk and ends outside it. */
  method PageOverruns() returns (last: HostPtr)
    ensures last.off < last.chunk.data.Length < last.off + 0x1_0000
  {
    Configuration();
    last := LastPage(0x1_0000, 0x10_0000, 0x1000);
  }

  lemma Configuration()
    ensures Accepted(0x1_0000, 0x10_0000, 0x1000) && !Fits(0x1_0000, 0x10_0000, 0x1000)
  {
    Powers();
    Is2PowIff(0x1_0000);
    MultipleIsMod(0x10_0000, 0x1_0000);
    WholeChunksOverrun(0x1_0000, 0x10_0000, 0x1000);
  }

  lemma Powers()
    ensures Pow2(12) == 0x1000 && Pow2(16) == 0x1_0000
  {
    Pow2Add(8, 4);
    Pow2Add(8, 8);
    assert Pow2(4) == 16 && Pow2(8) == 256;
  }
}
