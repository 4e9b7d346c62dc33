/** The memory every layer is compared with: device ranges and a flat, zero-initialised
    map from address to byte, read and written in little-endian order. */
module FlatMemory {
  import opened Bits

  /** `util::Range`: the addresses `[left, right)`. */
  datatype Range = Range(left: nat, right: nat)

  predicate Contains(r: Range, a: nat) {
    r.left <= a < r.right
  }

  type Bytes = map<nat, Byte>

  datatype Mem = Mem(devices: seq<Range>, bytes: Bytes)

  datatype Fault = Unmapped | Unaligned

  datatype Loaded = Value(v: nat) | LoadFault(fault: Fault)

  datatype Stored = Done(mem: Mem) | StoreFault(fault: Fault)

  function At(bytes: Bytes, a: nat): Byte {
    if a in bytes then bytes[a] else 0
  }

  function LoadLE(bytes: Bytes, a: nat, n: nat): nat
    decreases n
  {
    if n == 0 then 0 else At(bytes, a) + 256 * LoadLE(bytes, a + 1, n - 1)
  }

  function StoreLE(bytes: Bytes, a: nat, n: nat, v: nat): Bytes
    decreases n
  {
    if n == 0 then bytes else StoreLE(bytes[a := v % 256], a + 1, n - 1, v / 256)
  }

  /** Index of the first range holding the address, or `|ds|`. */
  function Scan(ds: seq<Range>, a: nat): (i: nat)
    ensures i <= |ds|
    ensures i < |ds| ==> Contains(ds[i], a)
    ensures forall j :: 0 <= j < i ==> !Contains(ds[j], a)
  {
    if ds == [] then 0 else if Contains(ds[0], a) then 0 else 1 + Scan(ds[1..], a)
  }

  predicate Mapped(m: Mem, a: nat) {
    Scan(m.devices, a) < |m.devices|
  }

  /** The checks made on the way to a device: it exists, and its offset is aligned. */
  predicate Aligned(m: Mem, a: nat, n: nat)
    requires Mapped(m, a) && n > 0
  {
    Multiple(a - m.devices[Scan(m.devices, a)].left, n)
  }

  /** A device's answer at offset `off`, where the bytes of the access are at `a`. */
  function Reading(bytes: Bytes, off: nat, a: nat, n: nat): Loaded {
    if Multiple(off, n) then Value(LoadLE(bytes, a, n)) else LoadFault(Unaligned)
  }

  function Load(m: Mem, a: nat, n: nat): Loaded
    requires n > 0
  {
    if Mapped(m, a) then Reading(m.bytes, a - m.devices[Scan(m.devices, a)].left, a, n) else LoadFault(Unmapped)
  }

  function Store(m: Mem, a: nat, n: nat, v: nat): Stored
    requires n > 0
  {
    if !Mapped(m, a) then StoreFault(Unmapped)
    else if !Aligned(m, a, n) then StoreFault(Unaligned)
    else Done(m.(bytes := StoreLE(m.bytes, a, n, v)))
  }

  /** Instruction fetch: a whole word, at a whole-word offset of its device. */
  function Fetch(m: Mem, a: nat): Loaded {
    Load(m, a, 4)
  }

  // ---------------------------------------------------------------- laws

  /** The two memories agree outside `[a, a + n)`. */
  ghost predicate SameOutside(b1: Bytes, b2: Bytes, a: nat, n: nat) {
    forall x: nat :: !(a <= x < a + n) ==> At(b1, x) == At(b2, x)
  }

  function Pow256(n: nat): (r: nat)
    ensures r >= 1
  {
    if n == 0 then 1 else 256 * Pow256(n - 1)
  }

  lemma {:induction false} LoadBound(bytes: Bytes, a: nat, n: nat)
    ensures LoadLE(bytes, a, n) < Pow256(n)
    decreases n
  {
    if n > 0 {
      LoadBound(bytes, a + 1, n - 1);
    }
  }

  lemma {:induction false} StoreAt(bytes: Bytes, a: nat, n: nat, v: nat, x: nat)
    ensures !(a <= x < a + n) ==> At(StoreLE(bytes, a, n, v), x) == At(bytes, x)
    decreases n
  {
    if n > 0 {
      StoreAt(bytes[a := v % 256], a + 1, n - 1, v / 256, x);
    }
  }

  lemma {:induction false} LoadSame(b1: Bytes, b2: Bytes, a: nat, n: nat)
    requires forall x :: a <= x < a + n ==> At(b1, x) == At(b2, x)
    ensures LoadLE(b1, a, n) == LoadLE(b2, a, n)
    decreases n
  {
    if n > 0 {
      LoadSame(b1, b2, a + 1, n - 1);
    }
  }

  /** A store does not change what lies beside it. */
  lemma LoadBeside(bytes: Bytes, a: nat, n: nat, v: nat, x: nat, m: nat)
    requires a + n <= x || x + m <= a
    ensures LoadLE(StoreLE(bytes, a, n, v), x, m) == LoadLE(bytes, x, m)
  {
    forall y | x <= y < x + m
      ensures At(StoreLE(bytes, a, n, v), y) == At(bytes, y)
    {
      StoreAt(bytes, a, n, v, y);
    }
    LoadSame(StoreLE(bytes, a, n, v), bytes, x, m);
  }

  /** A load gives back the stored value, truncated to its width. */
  lemma {:induction false} LoadAfterStore(bytes: Bytes, a: nat, n: nat, v: nat)
    ensures LoadLE(StoreLE(bytes, a, n, v), a, n) == v % Pow256(n)
    decreases n
  {
    if n > 0 {
      LoadAfterStore(bytes[a := v % 256], a + 1, n - 1, v / 256);
      StoreAt(bytes[a := v % 256], a + 1, n - 1, v / 256, a);
      DivModMod(v, 256, Pow256(n - 1), Pow256(n));
    }
  }

  // ---------------------------------------------------------------- byte strings

  /** The bytes stored one after another. */
  function StoreEach(bytes: Bytes, a: nat, src: seq<Byte>): Bytes
    decreases |src|
  {
    if src == [] then bytes else StoreEach(bytes[a := src[0]], a + 1, src[1..])
  }

  /** A value as the bytes of an object in host memory (a little-endian host). */
  function ToHost(n: nat, v: nat): (s: seq<Byte>)
    ensures |s| == n
  {
    if n == 0 then [] else [v % 256] + ToHost(n - 1, v / 256)
  }

  lemma {:induction false} StoreEachAt(bytes: Bytes, a: nat, src: seq<Byte>, x: nat)
    ensures At(StoreEach(bytes, a, src), x) == if a <= x < a + |src| then src[x - a] else At(bytes, x)
    decreases |src|
  {
    if src != [] {
      StoreEachAt(bytes[a := src[0]], a + 1, src[1..], x);
    }
  }

  /** A wide store is its bytes in order, lowest first. */
  lemma {:induction false} StoreIsEach(bytes: Bytes, a: nat, n: nat, v: nat)
    ensures StoreLE(bytes, a, n, v) == StoreEach(bytes, a, ToHost(n, v))
    decreases n
  {
    if n > 0 {
      StoreIsEach(bytes[a := v % 256], a + 1, n - 1, v / 256);
      assert ToHost(n, v)[1..] == ToHost(n - 1, v / 256);
    }
  }

  lemma {:induction false} StoreEachSplit(bytes: Bytes, a: nat, s: seq<Byte>, t: seq<Byte>)
    ensures StoreEach(bytes, a, s + t) == StoreEach(StoreEach(bytes, a, s), a + |s|, t)
    decreases |s|
  {
    if s == [] {
      assert s + t == t;
    } else {
      StoreEachSplit(bytes[a := s[0]], a + 1, s[1..], t);
      assert (s + t)[1..] == s[1..] + t;
    }
  }
}
