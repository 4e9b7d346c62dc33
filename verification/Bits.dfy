/** Machine words as natural numbers, with the bitwise operators of C++ defined one
    bit at a time.  Shifts are also one bit at a time, so that the laws below are
    linear inductions; `ShrIsDiv` and `LowIsMod` give their arithmetic meaning. */
module Bits {

  const TWO63 := 0x8000_0000_0000_0000
  const TWO64 := 0x1_0000_0000_0000_0000

  type U64 = x: nat | x < TWO64
  type Byte = x: nat | x < 256

  type WordWidth = w: nat | w == 64 witness 64

  /** The width of `RV64UDWord` and `size_t`. */
  const WIDTH: WordWidth

  function Pow2(n: nat): (r: nat)
    ensures r >= 1
  {
    if n == 0 then 1 else 2 * Pow2(n - 1)
  }

  predicate Even(x: nat) {
    if x < 2 then x == 0 else Even(x - 2)
  }

  lemma {:induction false} EvenIsMod(x: nat)
    ensures Even(x) <==> x % 2 == 0
  {
    if x >= 2 {
      EvenIsMod(x - 2);
    }
  }

  predicate Bit(x: nat, i: nat) {
    if i == 0 then x % 2 == 1 else Bit(x / 2, i - 1)
  }

  function BitAnd(a: nat, b: nat): nat {
    if a == 0 || b == 0 then 0
    else (if a % 2 == 1 && b % 2 == 1 then 1 else 0) + 2 * BitAnd(a / 2, b / 2)
  }

  function BitOr(a: nat, b: nat): nat {
    if a == 0 then b else if b == 0 then a
    else (if a % 2 == 1 || b % 2 == 1 then 1 else 0) + 2 * BitOr(a / 2, b / 2)
  }

  function BitXor(a: nat, b: nat): nat {
    if a == 0 then b else if b == 0 then a
    else (if a % 2 != b % 2 then 1 else 0) + 2 * BitXor(a / 2, b / 2)
  }

  /** `x >> k`. */
  function Shr(x: nat, k: nat): nat
    decreases k
  {
    if k == 0 then x else Shr(x / 2, k - 1)
  }

  /** `x << k`, before truncation to a width. */
  function Shl(x: nat, k: nat): (r: nat)
    ensures r >= x
    decreases k
  {
    if k == 0 then x else 2 * Shl(x, k - 1)
  }

  /** The low `k` bits of `x`; `Low(x, w)` is truncation to a `w`-bit type. */
  function Low(x: nat, k: nat): nat
    decreases k
  {
    if k == 0 then 0 else x % 2 + 2 * Low(x / 2, k - 1)
  }

  /** The low `k` bits of `lo` below `hi`. */
  function Splice(k: nat, lo: nat, hi: nat): nat
    decreases k
  {
    if k == 0 then hi else lo % 2 + 2 * Splice(k - 1, lo / 2, hi)
  }

  /** `~x` in a `w`-bit type. */
  function BitNot(w: nat, x: nat): nat
    requires x < Pow2(w)
  {
    Pow2(w) - 1 - x
  }

  /** `a - b` in a `w`-bit unsigned type. */
  function SubWrap(w: nat, a: nat, b: nat): nat
    requires b <= Pow2(w)
  {
    if a >= b then a - b else a + Pow2(w) - b
  }

  function PopCount(x: nat): nat {
    if x == 0 then 0 else x % 2 + PopCount(x / 2)
  }

  // ---------------------------------------------------------------- arithmetic meaning

  /** Quotient and remainder by a power of two, as a shift and a truncation. */
  lemma ShrLow(x: nat, k: nat)
    ensures Shr(x, k) == x / Pow2(k) && Low(x, k) == x % Pow2(k)
  {
    SpliceSelf(k, x);
    SpliceIsSum(k, x, Shr(x, k));
    ShlIsMul(Shr(x, k), k);
    LowBound(x, k);
    DivUnique(x, Pow2(k), Shr(x, k), Low(x, k));
  }

  lemma ShrIsDiv(x: nat, k: nat)
    ensures Shr(x, k) == x / Pow2(k)
  {
    ShrLow(x, k);
  }

  lemma LowIsMod(x: nat, k: nat)
    ensures Low(x, k) == x % Pow2(k)
  {
    ShrLow(x, k);
  }

  lemma DivUnique(x: int, d: nat, q: int, r: nat)
    requires d > 0 && x == d * q + r && r < d
    ensures x / d == q && x % d == r
  {
    var q', r' := x / d, x % d;
    assert d * q + r == d * q' + r';
    if q < q' {
      MulOrder(d, q, q');
    } else if q' < q {
      MulOrder(d, q', q);
    }
  }

  lemma {:induction false} MulOrder(d: nat, a: int, b: int)
    requires a < b
    ensures d * a + d <= d * b
    decreases b - a
  {
    if b > a + 1 {
      MulOrder(d, a, b - 1);
    }
    assert d * b == d * (b - 1) + d;
  }

  /** Dividing by `c == a * b` is dividing by `a` and then by `b`. */
  lemma DivDiv(x: nat, a: nat, b: nat, c: nat)
    requires a > 0 && b > 0 && c == a * b
    ensures x / c == x / a / b
  {
    DivModMod(x, a, b, c);
  }

  /** Remainders included. */
  lemma DivModMod(x: nat, a: nat, b: nat, c: nat)
    requires a > 0 && b > 0 && c == a * b
    ensures x / c == x / a / b && x % c == a * (x / a % b) + x % a
  {
    DivMod(x, a);
    DivMod(x / a, b);
    var low := a * (x / a % b) + x % a;
    Digits(x, a, b, x / a, x % a, x / a / b, x / a % b);
    DivUnique(x, c, x / a / b, low);
  }

  lemma DivMod(x: nat, d: nat)
    requires d > 0
    ensures x == d * (x / d) + x % d
  {
  }

  lemma Digits(x: nat, a: nat, b: nat, y: nat, m: nat, q: nat, r: nat)
    requires x == a * y + m && m < a && y == b * q + r && r < b
    ensures x == (a * b) * q + (a * r + m) && a * r + m < a * b
  {
    Distribute(a, b, q, r);
    MulOrder(a, r, b);
  }

  lemma Distribute(a: nat, b: nat, q: nat, r: nat)
    ensures a * (b * q + r) == (a * b) * q + a * r
  {
    calc {
      a * (b * q + r);
      a * (b * q) + a * r;
      (a * b) * q + a * r;
    }
  }

  /** `x` is a multiple of `d`. */
  predicate Multiple(x: nat, d: nat) {
    x == 0 || (0 < d <= x && Multiple(x - d, d))
  }

  /** `x / d`, one subtraction at a time. */
  function Quotient(x: nat, d: nat): nat
    requires d > 0
  {
    if x < d then 0 else 1 + Quotient(x - d, d)
  }

  lemma {:induction false} MultipleIsMod(x: nat, d: nat)
    requires d > 0
    ensures Multiple(x, d) <==> x % d == 0
    decreases x
  {
    if x >= d {
      MultipleIsMod(x - d, d);
      var q, r := (x - d) / d, (x - d) % d;
      assert d * (q + 1) == d * q + d;
      DivUnique(x, d, q + 1, r);
    } else {
      DivUnique(x, d, 0, x);
    }
  }

  lemma {:induction false} MultipleLess(a: nat, b: nat, n: nat)
    requires n > 0 && b <= a && Multiple(a, n) && Multiple(b, n)
    ensures Multiple(a - b, n)
    decreases b
  {
    if b > 0 {
      MultipleLess(a - n, b - n, n);
    }
  }

  lemma {:induction false} ShlIsMul(x: nat, k: nat)
    ensures Shl(x, k) == x * Pow2(k)
    decreases k
  {
    if k > 0 {
      ShlIsMul(x, k - 1);
      Doubled(x, Pow2(k - 1));
    }
  }

  lemma Doubled(x: nat, p: nat)
    ensures 2 * (x * p) == x * (2 * p) == (2 * x) * p
  {
  }

  // ---------------------------------------------------------------- shifts, truncation, splicing

  lemma LowBound(x: nat, k: nat)
    ensures Low(x, k) < Pow2(k)
    decreases k
  {
  }

  lemma LowId(x: nat, k: nat)
    requires x < Pow2(k)
    ensures Low(x, k) == x && Shr(x, k) == 0
    decreases k
  {
  }

  lemma ShrShr(x: nat, j: nat, k: nat)
    ensures Shr(Shr(x, j), k) == Shr(x, j + k)
    decreases j
  {
  }

  lemma ShlShl(x: nat, j: nat, k: nat)
    ensures Shl(Shl(x, j), k) == Shl(x, j + k)
    decreases k
  {
  }

  lemma ShlBound(x: nat, s: nat, k: nat)
    requires x < Pow2(s)
    ensures Shl(x, k) < Pow2(s + k)
    decreases k
  {
    if k > 0 {
      ShlBound(x, s, k - 1);
      assert Pow2(s + k) == 2 * Pow2(s + k - 1);
    }
  }

  lemma SpliceLow(k: nat, lo: nat, hi: nat)
    ensures Splice(k, Low(lo, k), hi) == Splice(k, lo, hi)
    decreases k
  {
  }

  lemma SpliceSplice(a: nat, b: nat, x: nat, y: nat, z: nat)
    ensures Splice(a + b, Splice(a, x, y), z) == Splice(a, x, Splice(b, y, z))
    decreases a
  {
    if a > 0 {
      SpliceSplice(a - 1, b, x / 2, y, z);
    }
  }

  lemma ShrSplice(a: nat, b: nat, x: nat, y: nat)
    ensures Shr(Splice(a, x, y), a + b) == Shr(y, b)
    decreases a
  {
    if a > 0 {
      ShrSplice(a - 1, b, x / 2, y);
    }
  }

  lemma SpliceSelf(k: nat, x: nat)
    ensures Splice(k, x, Shr(x, k)) == x
    decreases k
  {
  }

  lemma SpliceBound(k: nat, lo: nat, hi: nat, w: nat)
    requires k <= w && hi < Pow2(w - k)
    ensures Splice(k, lo, hi) < Pow2(w)
    decreases k
  {
    if k > 0 {
      SpliceBound(k - 1, lo / 2, hi, w - 1);
    }
  }

  lemma SpliceIsSum(k: nat, lo: nat, hi: nat)
    ensures Splice(k, lo, hi) == Low(lo, k) + Shl(hi, k)
    decreases k
  {
  }

  lemma {:induction false} Pow2Add(a: nat, b: nat)
    ensures Pow2(a + b) == Pow2(a) * Pow2(b)
    decreases a
  {
    if a > 0 {
      Pow2Add(a - 1, b);
      Doubled(Pow2(a - 1), Pow2(b));
    }
  }

  // ---------------------------------------------------------------- and, or, xor

  lemma AndComm(a: nat, b: nat)
    ensures BitAnd(a, b) == BitAnd(b, a)
  {
  }

  lemma OrComm(a: nat, b: nat)
    ensures BitOr(a, b) == BitOr(b, a)
  {
  }

  lemma AndBound(a: nat, b: nat)
    ensures BitAnd(a, b) <= a && BitAnd(a, b) <= b
  {
  }

  lemma OrBound(a: nat, b: nat, w: nat)
    requires a < Pow2(w) && b < Pow2(w)
    ensures BitOr(a, b) < Pow2(w) && BitXor(a, b) < Pow2(w)
    decreases w
  {
  }

  /** A low part and a part shifted above it share no bit. */
  lemma {:induction false} OrAbove(a: nat, b: nat, k: nat)
    requires a < Pow2(k)
    ensures BitOr(a, Shl(b, k)) == a + Shl(b, k)
    decreases k
  {
    if k > 0 {
      OrAbove(a / 2, b, k - 1);
      assert Shl(b, k) / 2 == Shl(b, k - 1) && Shl(b, k) % 2 == 0;
    }
  }

  lemma AndOnes(x: nat, k: nat)
    ensures BitAnd(x, Pow2(k) - 1) == Low(x, k)
    decreases k
  {
    if k > 0 {
      AndOnes(x / 2, k - 1);
      assert (Pow2(k) - 1) / 2 == Pow2(k - 1) - 1 && (Pow2(k) - 1) % 2 == 1;
      AndComm(x, Pow2(k) - 1);
      AndComm(x / 2, Pow2(k - 1) - 1);
    }
  }

  lemma {:induction false} XorTop(c: nat, k: nat)
    requires k >= 1 && c < Pow2(k)
    ensures BitXor(c, Pow2(k - 1)) == if c < Pow2(k - 1) then c + Pow2(k - 1) else c - Pow2(k - 1)
    decreases k
  {
    if k > 1 {
      XorTop(c / 2, k - 1);
    }
  }

  /** Bits cleared by a mask plus bits kept by it give the word back. */
  lemma {:induction false} AndNot(x: nat, m: nat, w: nat)
    requires x < Pow2(w) && m < Pow2(w)
    ensures BitAnd(x, BitNot(w, m)) == x - BitAnd(x, m)
    decreases w
  {
    AndBound(x, m);
    if w > 0 {
      AndNot(x / 2, m / 2, w - 1);
      var n := BitNot(w, m);
      assert n / 2 == BitNot(w - 1, m / 2) && n % 2 == 1 - m % 2;
      AndUnfold(x, n);
      AndUnfold(x, m);
    }
  }

  lemma AndUnfold(a: nat, b: nat)
    ensures BitAnd(a, b) == (if a % 2 == 1 && b % 2 == 1 then 1 else 0) + 2 * BitAnd(a / 2, b / 2)
  {
  }

  lemma Pow64()
    ensures Pow2(64) == TWO64
  {
    Squared(4, 16, 8, 0x100);
    Squared(8, 0x100, 16, 0x1_0000);
    Squared(16, 0x1_0000, 32, 0x1_0000_0000);
    Squared(32, 0x1_0000_0000, 64, TWO64);
  }

  lemma Squared(n: nat, p: nat, m: nat, q: nat)
    requires Pow2(n) == p && m == n + n && q == p * p
    ensures Pow2(m) == q
  {
    Pow2Add(n, n);
  }

  // ---------------------------------------------------------------- bit by bit

  lemma {:induction false} AndBits(a: nat, b: nat, k: nat)
    ensures Bit(BitAnd(a, b), k) <==> Bit(a, k) && Bit(b, k)
    decreases k
  {
    AndUnfold(a, b);
    if k > 0 {
      AndBits(a / 2, b / 2, k - 1);
    }
  }

  lemma {:induction false} OrBits(a: nat, b: nat, k: nat)
    ensures Bit(BitOr(a, b), k) <==> Bit(a, k) || Bit(b, k)
    decreases k
  {
    OrUnfold(a, b);
    if k > 0 {
      OrBits(a / 2, b / 2, k - 1);
    }
  }

  lemma {:induction false} XorBits(a: nat, b: nat, k: nat)
    ensures Bit(BitXor(a, b), k) <==> Bit(a, k) != Bit(b, k)
    decreases k
  {
    XorUnfold(a, b);
    if k > 0 {
      XorBits(a / 2, b / 2, k - 1);
    }
  }

  lemma OrUnfold(a: nat, b: nat)
    ensures BitOr(a, b) == (if a % 2 == 1 || b % 2 == 1 then 1 else 0) + 2 * BitOr(a / 2, b / 2)
  {
  }

  lemma XorUnfold(a: nat, b: nat)
    ensures BitXor(a, b) == (if a % 2 != b % 2 then 1 else 0) + 2 * BitXor(a / 2, b / 2)
  {
  }

  lemma {:induction false} ShrBits(x: nat, n: nat, k: nat)
    ensures Bit(Shr(x, n), k) <==> Bit(x, n + k)
    decreases n
  {
    if n > 0 {
      ShrBits(x / 2, n - 1, k);
    }
  }

  lemma {:induction false} ShlBits(x: nat, n: nat, k: nat)
    ensures Bit(Shl(x, n), k) <==> k >= n && Bit(x, k - n)
    decreases n
  {
    if n > 0 && k > 0 {
      ShlBits(x, n - 1, k - 1);
      assert Shl(x, n) / 2 == Shl(x, n - 1);
    }
  }

  lemma {:induction false} LowBits(x: nat, n: nat, k: nat)
    ensures Bit(Low(x, n), k) <==> k < n && Bit(x, k)
    decreases k
  {
    if n == 0 {
      NoBits(k);
    } else if k > 0 {
      LowBits(x / 2, n - 1, k - 1);
    }
  }

  lemma NoBits(k: nat)
    ensures !Bit(0, k)
  {
  }

  lemma {:induction false} SpliceBits(n: nat, lo: nat, hi: nat, k: nat)
    ensures Bit(Splice(n, lo, hi), k) <==> if k < n then Bit(lo, k) else Bit(hi, k - n)
    decreases n
  {
    if n > 0 && k > 0 {
      SpliceBits(n - 1, lo / 2, hi, k - 1);
    }
  }

  lemma {:induction false} OnesBits(n: nat, k: nat)
    ensures Bit(Pow2(n) - 1, k) <==> k < n
    decreases n
  {
    if n == 0 {
      NoBits(k);
    } else if k > 0 {
      OnesBits(n - 1, k - 1);
      assert (Pow2(n) - 1) / 2 == Pow2(n - 1) - 1;
    }
  }

  /** A number below 2^(n + 1) reaches 2^n exactly when its top bit is set. */
  lemma {:induction false} TopBit(x: nat, n: nat)
    requires x < Pow2(n + 1)
    ensures Bit(x, n) <==> x >= Pow2(n)
    decreases n
  {
    if n > 0 {
      TopBit(x / 2, n - 1);
    }
  }

  /** Numbers that agree in every bit are equal. */
  lemma {:induction false} SameBits(x: nat, y: nat)
    requires forall k: nat :: Bit(x, k) <==> Bit(y, k)
    ensures x == y
    decreases x + y
  {
    if x + y > 0 {
      assert Bit(x, 0) <==> Bit(y, 0);
      forall k: nat
        ensures Bit(x / 2, k) <==> Bit(y / 2, k)
      {
        assert Bit(x, k + 1) <==> Bit(y, k + 1);
      }
      SameBits(x / 2, y / 2);
    }
  }
}
