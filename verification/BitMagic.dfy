/** include/besm-666/util/bit-magic.hpp: sign extension, bit fields, and the run-length
    masked extract/insert pair that every CSR field rests on, for any word width `w`. */
module BitMagic {
  import opened Bits

  // ---------------------------------------------------------------- the code

  /** `1 << n` is undefined when `n` reaches the width, hence `bits < w` everywhere. */
  function BitMask(w: nat, bits: nat, where: nat): nat
    requires bits < w
  {
    Low(Shl(Shl(1, bits) - 1, where), w)
  }

  function ExtractBits(w: nat, value: nat, bits: nat, from: nat): nat
    requires bits < w
  {
    Shr(BitAnd(value, BitMask(w, bits, from)), from)
  }

  function ClearBits(w: nat, value: nat, bits: nat, from: nat): nat
    requires bits < w
  {
    LowBound(Shl(Shl(1, bits) - 1, from), w);
    BitAnd(value, BitNot(w, BitMask(w, bits, from)))
  }

  function ChangeBits(w: nat, value: nat, newBits: nat, bits: nat, from: nat): nat
    requires bits < w
  {
    BitOr(ClearBits(w, value, bits, from), Low(Shl(ExtractBits(w, newBits, bits, 0), from), w))
  }

  function SignExtend(w: nat, signBits: nat, value: nat): nat
    requires 1 <= signBits < w
  {
    var clean := BitAnd(value, Shl(1, signBits) - 1);
    var sign := Shl(1, signBits - 1);
    SignFits(w, signBits);
    SubWrap(w, BitXor(clean, sign), sign)
  }

  /** A run of `series` mask bits ends just below `pos`; the mask has not run out. */
  ghost predicate RunState(w: nat, mask: nat, pos: nat, series: nat, packed: nat) {
    && w >= 2
    && mask < Pow2(w) - 1
    && series <= pos <= w
    && packed + series <= pos
    && OnesBelow(Shr(mask, pos - series), series)
  }

  predicate OnesBelow(m: nat, n: nat) {
    n == 0 || (m % 2 == 1 && OnesBelow(m / 2, n - 1))
  }

  /** `MaskedExtractor<Mask, Pos, Series, Filled>::Do`. */
  function RunExtract(w: nat, mask: nat, pos: nat, series: nat, filled: nat, value: nat): nat
    requires RunState(w, mask, pos, series, filled)
    decreases w - pos
  {
    RunShorter(w, mask, pos, series);
    if pos == w then
      if series == 0 then 0
      else Low(Shl(ExtractBits(w, value, series, pos - series), filled), w)
    else (
      MaskBit(w, mask, pos);
      if ExtractBits(w, mask, 1, pos) != 0 then (
        RunGrows(mask, pos - series, series);
        RunExtract(w, mask, pos + 1, series + 1, filled, value)
      ) else
        BitOr(Low(Shl(ExtractBits(w, value, series, pos - series), filled), w),
              RunExtract(w, mask, pos + 1, 0, filled + series, value))
    )
  }

  /** `MaskedInserter<Mask, Pos, Series, Set>::Do`. */
  function RunInsert(w: nat, mask: nat, pos: nat, series: nat, used: nat, value: nat, place: nat): nat
    requires RunState(w, mask, pos, series, used)
    decreases w - pos
  {
    RunShorter(w, mask, pos, series);
    if pos == w then
      if series == 0 then place
      else ChangeBits(w, place, ExtractBits(w, value, series, used), series, pos - series)
    else (
      MaskBit(w, mask, pos);
      if ExtractBits(w, mask, 1, pos) != 0 then (
        RunGrows(mask, pos - series, series);
        RunInsert(w, mask, pos + 1, series + 1, used, value, place)
      ) else (
        var newPlace := ChangeBits(w, place, ExtractBits(w, value, series, used), series, pos - series);
        RunInsert(w, mask, pos + 1, 0, used + series, value, newPlace)
      )
    )
  }

  function ExtractMasked(w: nat, mask: nat, value: nat): nat
    requires w >= 2 && mask < Pow2(w)
  {
    if mask == Pow2(w) - 1 then value else RunExtract(w, mask, 0, 0, 0, value)
  }

  function InsertMasked(w: nat, mask: nat, value: nat, place: nat): nat
    requires w >= 2 && mask < Pow2(w)
  {
    if mask == Pow2(w) - 1 then value else RunInsert(w, mask, 0, 0, 0, value, place)
  }

  // ---------------------------------------------------------------- one bit at a time

  /** Gather the bits of `value` under the mask into the low end. */
  function Pext(mask: nat, value: nat): nat {
    if mask == 0 then 0
    else if mask % 2 == 1 then value % 2 + 2 * Pext(mask / 2, value / 2)
    else Pext(mask / 2, value / 2)
  }

  /** Scatter the low bits of `value` to the places the mask names. */
  function Pdep(mask: nat, value: nat, place: nat): nat {
    if mask == 0 then place
    else if mask % 2 == 1 then value % 2 + 2 * Pdep(mask / 2, value / 2, place / 2)
    else place % 2 + 2 * Pdep(mask / 2, value, place / 2)
  }

  /** How many mask bits lie below bit `i`. */
  function Rank(mask: nat, i: nat): nat {
    if i == 0 then 0 else mask % 2 + Rank(mask / 2, i - 1)
  }

  // ---------------------------------------------------------------- fields

  lemma BitMaskIs(w: nat, bits: nat, where: nat)
    requires bits < w && bits + where <= w
    ensures BitMask(w, bits, where) == Shl(Pow2(bits) - 1, where) < Pow2(w)
    ensures where > 0 ==> BitMask(w, bits, where) == 2 * Shl(Pow2(bits) - 1, where - 1)
  {
    ShlIsMul(1, bits);
    ShlBound(Pow2(bits) - 1, bits, where);
    Pow2Mono(bits + where, w);
    LowId(Shl(Pow2(bits) - 1, where), w);
  }

  lemma Pow2Mono(a: nat, b: nat)
    requires a <= b
    ensures Pow2(a) <= Pow2(b)
    decreases b
  {
    if a < b {
      Pow2Mono(a, b - 1);
    }
  }

  lemma {:induction false} AndShl(v: nat, m: nat, k: nat)
    ensures BitAnd(v, Shl(m, k)) == Shl(BitAnd(Shr(v, k), m), k)
    decreases k
  {
    if k > 0 {
      AndShl(v / 2, m, k - 1);
      AndUnfold(v, Shl(m, k));
      assert Shl(m, k) / 2 == Shl(m, k - 1);
    }
  }

  lemma ShrShl(x: nat, k: nat)
    ensures Shr(Shl(x, k), k) == x
    decreases k
  {
  }

  lemma ExtractBitsIsLow(w: nat, v: nat, bits: nat, from: nat)
    requires bits < w && bits + from <= w
    ensures ExtractBits(w, v, bits, from) == Low(Shr(v, from), bits)
  {
    BitMaskIs(w, bits, from);
    AndShl(v, Pow2(bits) - 1, from);
    AndOnes(Shr(v, from), bits);
    ShrShl(BitAnd(Shr(v, from), Pow2(bits) - 1), from);
  }

  /** `ExtractBits` is the field `[from, from + bits)` of the value. */
  lemma ExtractBitsIsField(w: nat, v: nat, bits: nat, from: nat)
    requires bits < w && bits + from <= w
    ensures ExtractBits(w, v, bits, from) == (v / Pow2(from)) % Pow2(bits)
    ensures ExtractBits(w, v, bits, from) < Pow2(bits)
  {
    ExtractBitsIsLow(w, v, bits, from);
    LowBound(Shr(v, from), bits);
    ShrIsDiv(v, from);
    LowIsMod(Shr(v, from), bits);
  }

  lemma ClearBitsIsHole(w: nat, v: nat, bits: nat, from: nat)
    requires bits < w && bits + from <= w && v < Pow2(w)
    ensures ClearBits(w, v, bits, from) == Splice(from, v, Splice(bits, 0, Shr(v, from + bits)))
  {
    BitMaskIs(w, bits, from);
    AndNot(v, BitMask(w, bits, from), w);
    AndShl(v, Pow2(bits) - 1, from);
    AndOnes(Shr(v, from), bits);
    HoleIs(v, bits, from);
  }

  lemma InsertedBitsFit(w: nat, new_: nat, bits: nat, from: nat)
    requires bits < w && bits + from <= w
    ensures Low(Shl(ExtractBits(w, new_, bits, 0), from), w) == Shl(Low(new_, bits), from)
  {
    ExtractBitsIsLow(w, new_, bits, 0);
    LowBound(new_, bits);
    ShlBound(Low(new_, bits), bits, from);
    Pow2Mono(bits + from, w);
    LowId(Shl(Low(new_, bits), from), w);
  }

  /** `ChangeBits` replaces the field `[from, from + bits)` and nothing else. */
  lemma ChangeBitsIsSplice(w: nat, v: nat, new_: nat, bits: nat, from: nat)
    requires bits < w && bits + from <= w && v < Pow2(w)
    ensures ChangeBits(w, v, new_, bits, from) == Splice(from, v, Splice(bits, new_, Shr(v, from + bits)))
    ensures ChangeBits(w, v, new_, bits, from) < Pow2(w)
  {
    ClearBitsIsHole(w, v, bits, from);
    InsertedBitsFit(w, new_, bits, from);
    LowBound(new_, bits);
    FillHole(v, Low(new_, bits), bits, from);
    SpliceLow(bits, new_, Shr(v, from + bits));
    SplicesFit(w, v, new_, bits, from);
  }

  lemma SplicesFit(w: nat, v: nat, new_: nat, bits: nat, from: nat)
    requires bits + from <= w && v < Pow2(w)
    ensures Splice(from, v, Splice(bits, new_, Shr(v, from + bits))) < Pow2(w)
  {
    var rest := Shr(v, from + bits);
    ShrBound(v, w, from + bits);
    SpliceBound(bits, new_, rest, w - from);
    SpliceBound(from, v, Splice(bits, new_, rest), w);
  }

  lemma ShrBound(v: nat, w: nat, k: nat)
    requires v < Pow2(w) && k <= w
    ensures Shr(v, k) < Pow2(w - k)
    decreases k
  {
    if k > 0 {
      ShrBound(v / 2, w - 1, k - 1);
    }
  }

  lemma {:induction false} HoleIs(v: nat, bits: nat, from: nat)
    ensures v - Shl(Low(Shr(v, from), bits), from) == Splice(from, v, Splice(bits, 0, Shr(v, from + bits)))
    decreases from
  {
    if from > 0 {
      HoleIs(v / 2, bits, from - 1);
    } else {
      SpliceSelf(bits, v);
      SpliceIsSum(bits, v, Shr(v, bits));
      SpliceIsSum(bits, 0, Shr(v, bits));
      LowZero(bits);
    }
  }

  lemma LowZero(k: nat)
    ensures Low(0, k) == 0
  {
  }

  lemma {:induction false} FillHole(v: nat, f: nat, bits: nat, from: nat)
    requires f < Pow2(bits)
    ensures BitOr(Splice(from, v, Splice(bits, 0, Shr(v, from + bits))), Shl(f, from))
         == Splice(from, v, Splice(bits, f, Shr(v, from + bits)))
    decreases from
  {
    if from > 0 {
      var k := from - 1;
      FillHole(v / 2, f, bits, k);
      assert Shr(v, from + bits) == Shr(v / 2, k + bits);
      OrUnfold(Splice(from, v, Splice(bits, 0, Shr(v, from + bits))), Shl(f, from));
    } else {
      FillLow(Shr(v, bits), f, bits);
    }
  }

  lemma FillLow(rest: nat, f: nat, bits: nat)
    requires f < Pow2(bits)
    ensures BitOr(Splice(bits, 0, rest), f) == Splice(bits, f, rest)
  {
    SpliceIsSum(bits, 0, rest);
    LowZero(bits);
    SpliceIsSum(bits, f, rest);
    LowId(f, bits);
    OrComm(Splice(bits, 0, rest), f);
    OrAbove(f, rest, bits);
  }

  // ---------------------------------------------------------------- sign extension

  lemma SignFits(w: nat, k: nat)
    requires 1 <= k < w
    ensures Shl(1, k - 1) == Pow2(k - 1) <= Pow2(w)
  {
    ShlIsMul(1, k - 1);
    Pow2Mono(k - 1, w);
  }

  lemma SignExtendLow(w: nat, k: nat, value: nat)
    requires 1 <= k < w
    ensures var c := Low(value, k);
            SignExtend(w, k, value) == if c < Pow2(k - 1) then c else Pow2(w) - (Pow2(k) - c)
    ensures SignExtend(w, k, value) < Pow2(w)
  {
    ShlIsMul(1, k);
    SignFits(w, k);
    AndOnes(value, k);
    LowBound(value, k);
    XorTop(Low(value, k), k);
    Pow2Mono(k, w);
  }

  /** The C++ trick is two's-complement extension, at every width. */
  lemma SignExtendIsTwosComplement(w: nat, k: nat, value: nat)
    requires 1 <= k < w
    ensures var c := value % Pow2(k);
            SignExtend(w, k, value) == if c < Pow2(k - 1) then c else Pow2(w) - (Pow2(k) - c)
  {
    SignExtendLow(w, k, value);
    LowIsMod(value, k);
  }

  // ---------------------------------------------------------------- runs

  lemma MaskBit(w: nat, mask: nat, pos: nat)
    requires pos < w && w >= 2
    ensures ExtractBits(w, mask, 1, pos) == Shr(mask, pos) % 2
  {
    ExtractBitsIsLow(w, mask, 1, pos);
  }

  lemma RunGrows(mask: nat, off: nat, series: nat)
    requires OnesBelow(Shr(mask, off), series)
    requires Shr(mask, off + series) % 2 == 1
    ensures OnesBelow(Shr(mask, off), series + 1)
  {
    ShrShr(mask, off, series);
    OnesExtend(Shr(mask, off), series);
  }

  lemma OnesExtend(m: nat, n: nat)
    requires OnesBelow(m, n) && Shr(m, n) % 2 == 1
    ensures OnesBelow(m, n + 1)
    decreases n
  {
    if n > 0 {
      OnesExtend(m / 2, n - 1);
    }
  }

  /** A mask other than all-ones never fills a whole word with one run. */
  lemma RunShorter(w: nat, mask: nat, pos: nat, series: nat)
    requires mask < Pow2(w) - 1 && series <= pos <= w
    requires OnesBelow(Shr(mask, pos - series), series)
    ensures series < w || w == 0
  {
    if series == w {
      FullRun(mask, w);
    }
  }

  lemma {:induction false} FullRun(m: nat, w: nat)
    requires OnesBelow(m, w) && m < Pow2(w)
    ensures m == Pow2(w) - 1
    decreases w
  {
    if w > 0 {
      FullRun(m / 2, w - 1);
    }
  }

  lemma {:induction false} PextRun(m: nat, v: nat, n: nat)
    requires OnesBelow(m, n)
    ensures Pext(m, v) == Low(v, n) + Shl(Pext(Shr(m, n), Shr(v, n)), n)
    decreases n
  {
    if n > 0 {
      PextRun(m / 2, v / 2, n - 1);
    }
  }

  lemma {:induction false} PdepRun(m: nat, v: nat, p: nat, n: nat)
    requires OnesBelow(m, n)
    ensures Pdep(m, v, p) == Splice(n, v, Pdep(Shr(m, n), Shr(v, n), Shr(p, n)))
    decreases n
  {
    if n > 0 {
      PdepRun(m / 2, v / 2, p / 2, n - 1);
    }
  }

  lemma FieldFits(w: nat, v: nat, series: nat, off: nat, filled: nat)
    requires series < w && series + off <= w && series + filled <= w
    ensures Low(Shl(ExtractBits(w, v, series, off), filled), w) == Shl(Low(Shr(v, off), series), filled)
  {
    var f := Low(Shr(v, off), series);
    ExtractBitsIsLow(w, v, series, off);
    LowBound(Shr(v, off), series);
    ShlBound(f, series, filled);
    Pow2Mono(series + filled, w);
    LowId(Shl(f, filled), w);
  }

  /** A finished run contributes its field, the rest lands above it. */
  lemma ExtractRunEnds(m: nat, v: nat, series: nat, filled: nat)
    requires OnesBelow(m, series) && Shr(m, series) % 2 == 0
    ensures BitOr(Shl(Low(v, series), filled), Shl(Pext(Shr(m, series + 1), Shr(v, series + 1)), filled + series))
         == Shl(Pext(m, v), filled)
  {
    PextRun(m, v, series);
    ShrShr(m, series, 1);
    ShrShr(v, series, 1);
    var rest := Pext(Shr(m, series + 1), Shr(v, series + 1));
    assert Pext(Shr(m, series), Shr(v, series)) == rest;
    ShlShl(rest, series, filled);
    LowBound(v, series);
    OrShl(Low(v, series), Shl(rest, series), filled);
    OrAbove(Low(v, series), rest, series);
  }

  /** The last run ends at the top of the word. */
  lemma ExtractLastRun(m: nat, v: nat, series: nat, filled: nat)
    requires OnesBelow(m, series) && Shr(m, series) == 0
    ensures Shl(Low(v, series), filled) == Shl(Pext(m, v), filled)
  {
    PextRun(m, v, series);
    ShlZero(series);
  }

  lemma ExtractAtTop(w: nat, mask: nat, off: nat, series: nat, filled: nat, v: nat)
    requires RunState(w, mask, w, series, filled) && off == w - series
    ensures RunExtract(w, mask, w, series, filled, v) == Shl(Pext(Shr(mask, off), Shr(v, off)), filled)
  {
    RunShorter(w, mask, w, series);
    ShrShr(mask, off, series);
    FieldFits(w, v, series, off, filled);
    LowId(mask, w);
    ExtractLastRun(Shr(mask, off), Shr(v, off), series, filled);
    ShlZero(filled);
  }

  /** A run that stops at `pos` is gathered before the rest. */
  lemma ExtractAtGap(w: nat, mask: nat, pos: nat, off: nat, series: nat, filled: nat, v: nat)
    requires RunState(w, mask, pos, series, filled) && off == pos - series && pos < w && Shr(mask, pos) % 2 == 0
    requires series < w
    ensures BitOr(Low(Shl(ExtractBits(w, v, series, off), filled), w),
                  Shl(Pext(Shr(mask, pos + 1), Shr(v, pos + 1)), filled + series))
         == Shl(Pext(Shr(mask, off), Shr(v, off)), filled)
  {
    FieldFits(w, v, series, off, filled);
    ShrShr(mask, off, series);
    ExtractRunEnds(Shr(mask, off), Shr(v, off), series, filled);
    ShrShr(mask, off, series + 1);
    ShrShr(v, off, series + 1);
  }

  lemma {:induction false} RunExtractIsPext(w: nat, mask: nat, pos: nat, series: nat, filled: nat, v: nat)
    requires RunState(w, mask, pos, series, filled)
    ensures RunExtract(w, mask, pos, series, filled, v)
         == Shl(Pext(Shr(mask, pos - series), Shr(v, pos - series)), filled)
    decreases w - pos
  {
    var off := pos - series;
    RunShorter(w, mask, pos, series);
    if pos == w {
      ExtractAtTop(w, mask, off, series, filled, v);
    } else {
      MaskBit(w, mask, pos);
      if Shr(mask, pos) % 2 == 1 {
        RunGrows(mask, off, series);
        RunExtractIsPext(w, mask, pos + 1, series + 1, filled, v);
      } else {
        RunExtractIsPext(w, mask, pos + 1, 0, filled + series, v);
        ExtractAtGap(w, mask, pos, off, series, filled, v);
      }
    }
  }

  lemma ShlZero(k: nat)
    ensures Shl(0, k) == 0
  {
  }

  lemma {:induction false} OrShl(a: nat, b: nat, k: nat)
    ensures BitOr(Shl(a, k), Shl(b, k)) == Shl(BitOr(a, b), k)
    decreases k
  {
    if k > 0 {
      OrShl(a, b, k - 1);
      OrUnfold(Shl(a, k), Shl(b, k));
    }
  }

  lemma InsertField(w: nat, v: nat, place: nat, series: nat, off: nat, used: nat)
    requires series < w && series + off <= w && series + used <= w && place < Pow2(w)
    ensures var np := ChangeBits(w, place, ExtractBits(w, v, series, used), series, off);
            np == Splice(off, place, Splice(series, Shr(v, used), Shr(place, off + series))) && np < Pow2(w)
  {
    ExtractBitsIsLow(w, v, series, used);
    ChangeBitsIsSplice(w, place, ExtractBits(w, v, series, used), series, off);
    SpliceLow(series, Shr(v, used), Shr(place, off + series));
  }

  /** A field spliced in at `off` does not disturb what lies above it. */
  lemma SplicedField(v: nat, place: nat, off: nat, series: nat, rest: nat)
    ensures var np := Splice(off, place, Splice(series, v, Shr(place, off + series)));
            && Shr(np, off + series + 1) == Shr(place, off + series + 1)
            && Splice(off + series + 1, np, rest)
               == Splice(off, place, Splice(series, v, Splice(1, Shr(place, off + series), rest)))
  {
    var p := Shr(place, off + series);
    var y := Splice(series, v, p);
    ShrSplice(off, series + 1, place, y);
    ShrSplice(series, 1, v, p);
    ShrShr(place, off + series, 1);
    SpliceSplice(off, series + 1, place, y, rest);
    SpliceSplice(series, 1, v, p, rest);
  }

  lemma PdepRunEnds(m: nat, v: nat, p: nat, series: nat)
    requires OnesBelow(m, series) && Shr(m, series) % 2 == 0
    ensures Pdep(m, v, p)
         == Splice(series, v, Splice(1, Shr(p, series), Pdep(Shr(m, series + 1), Shr(v, series), Shr(p, series + 1))))
  {
    PdepRun(m, v, p, series);
    ShrShr(m, series, 1);
    ShrShr(p, series, 1);
    SpliceOne(Shr(p, series), Pdep(Shr(m, series + 1), Shr(v, series), Shr(p, series + 1)));
  }

  /** A finished run is in place; the rest is inserted above it. */
  lemma InsertRunEnds(m: nat, v: nat, place: nat, off: nat, series: nat)
    requires OnesBelow(m, series) && Shr(m, series) % 2 == 0
    ensures var np := Splice(off, place, Splice(series, v, Shr(place, off + series)));
            Splice(off + series + 1, np, Pdep(Shr(m, series + 1), Shr(v, series), Shr(np, off + series + 1)))
            == Splice(off, place, Pdep(m, v, Shr(place, off)))
  {
    PdepRunEnds(m, v, Shr(place, off), series);
    ShrShr(place, off, series);
    ShrShr(place, off, series + 1);
    SplicedField(v, place, off, series, Pdep(Shr(m, series + 1), Shr(v, series), Shr(place, off + series + 1)));
  }

  lemma SpliceOne(lo: nat, hi: nat)
    ensures Splice(1, lo, hi) == lo % 2 + 2 * hi
  {
    assert Splice(0, lo / 2, hi) == hi;
  }

  /** The last run ends at the top of the word. */
  lemma InsertLastRun(m: nat, v: nat, place: nat, off: nat, series: nat)
    requires OnesBelow(m, series) && Shr(m, series) == 0
    ensures Splice(off, place, Splice(series, v, Shr(place, off + series)))
         == Splice(off, place, Pdep(m, v, Shr(place, off)))
  {
    PdepRun(m, v, Shr(place, off), series);
    ShrShr(place, off, series);
  }

  /** The last run, when the mask has been walked to the top. */
  lemma InsertAtTop(w: nat, mask: nat, series: nat, used: nat, v: nat, place: nat)
    requires RunState(w, mask, w, series, used) && place < Pow2(w)
    ensures RunInsert(w, mask, w, series, used, v, place)
         == Splice(w - series, place, Pdep(Shr(mask, w - series), Shr(v, used), Shr(place, w - series)))
  {
    var off := w - series;
    RunShorter(w, mask, w, series);
    ShrShr(mask, off, series);
    InsertField(w, v, place, series, off, used);
    LowId(mask, w);
    InsertLastRun(Shr(mask, off), Shr(v, used), place, off, series);
    SpliceSelf(off, place);
  }

  /** A run that stops at `pos` is scattered, and the rest goes on from the next bit. */
  lemma InsertAtGap(w: nat, mask: nat, pos: nat, series: nat, used: nat, v: nat, place: nat, np: nat)
    requires RunState(w, mask, pos, series, used) && place < Pow2(w) && pos < w && Shr(mask, pos) % 2 == 0
    requires series < w && np == ChangeBits(w, place, ExtractBits(w, v, series, used), series, pos - series)
    ensures Splice(pos + 1, np, Pdep(Shr(mask, pos + 1), Shr(v, used + series), Shr(np, pos + 1)))
         == Splice(pos - series, place, Pdep(Shr(mask, pos - series), Shr(v, used), Shr(place, pos - series)))
    ensures np < Pow2(w)
  {
    var off := pos - series;
    ShrShr(mask, off, series);
    InsertField(w, v, place, series, off, used);
    InsertRunEnds(Shr(mask, off), Shr(v, used), place, off, series);
    ShrShr(mask, off, series + 1);
    ShrShr(v, used, series);
  }

  /** Where `RunInsert` goes on, at a set bit of the mask and at a clear one. */
  lemma InsertGoesOn(w: nat, mask: nat, pos: nat, series: nat, used: nat, v: nat, place: nat, np: nat)
    requires RunState(w, mask, pos, series, used) && pos < w && series < w
    requires np == ChangeBits(w, place, ExtractBits(w, v, series, used), series, pos - series)
    ensures if Shr(mask, pos) % 2 == 1
            then RunState(w, mask, pos + 1, series + 1, used) &&
                 RunInsert(w, mask, pos, series, used, v, place)
                 == RunInsert(w, mask, pos + 1, series + 1, used, v, place)
            else RunState(w, mask, pos + 1, 0, used + series) &&
                 RunInsert(w, mask, pos, series, used, v, place)
                 == RunInsert(w, mask, pos + 1, 0, used + series, v, np)
  {
    MaskBit(w, mask, pos);
    if Shr(mask, pos) % 2 == 1 {
      RunGrows(mask, pos - series, series);
    }
  }

  /** What the recursion has come to from `off` on, the run at `pos` included. */
  ghost predicate Scattered(
    w: nat, mask: nat, pos: nat, off: nat, series: nat, used: nat, v: nat, place: nat)
    requires RunState(w, mask, pos, series, used)
  {
    RunInsert(w, mask, pos, series, used, v, place)
    == Splice(off, place, Pdep(Shr(mask, off), Shr(v, used), Shr(place, off)))
  }

  lemma ScatteredGap(w: nat, mask: nat, pos: nat, series: nat, used: nat, v: nat, place: nat, np: nat)
    requires RunState(w, mask, pos, series, used) && place < Pow2(w) && pos < w && Shr(mask, pos) % 2 == 0
    requires series < w && np == ChangeBits(w, place, ExtractBits(w, v, series, used), series, pos - series)
    requires RunState(w, mask, pos + 1, 0, used + series)
    requires Scattered(w, mask, pos + 1, pos + 1, 0, used + series, v, np)
    ensures Scattered(w, mask, pos, pos - series, series, used, v, place)
  {
    InsertGoesOn(w, mask, pos, series, used, v, place, np);
    InsertAtGap(w, mask, pos, series, used, v, place, np);
  }

  lemma ScatteredAt(w: nat, mask: nat, pos: nat, next: nat, off: nat, series: nat, used: nat, now: nat, v: nat,
                    place: nat, np: nat)
    requires RunState(w, mask, pos, series, used) && place < Pow2(w) && pos < w && Shr(mask, pos) % 2 == 0
    requires series < w && next == pos + 1 && off == pos - series && now == used + series
    requires np == ChangeBits(w, place, ExtractBits(w, v, series, used), series, off)
    requires RunState(w, mask, next, 0, now) && Scattered(w, mask, next, next, 0, now, v, np)
    ensures Scattered(w, mask, pos, off, series, used, v, place)
  {
    ScatteredGap(w, mask, pos, series, used, v, place, np);
  }

  lemma {:induction false} RunInsertIsPdep(
    w: nat, mask: nat, pos: nat, off: nat, series: nat, used: nat, v: nat, place: nat)
    requires RunState(w, mask, pos, series, used) && off == pos - series && place < Pow2(w)
    ensures Scattered(w, mask, pos, off, series, used, v, place)
    decreases w - pos
  {
    if pos == w {
      InsertAtTop(w, mask, series, used, v, place);
    } else {
      RunShorter(w, mask, pos, series);
      var next, now := pos + 1, used + series;
      var np := ChangeBits(w, place, ExtractBits(w, v, series, used), series, off);
      InsertGoesOn(w, mask, pos, series, used, v, place, np);
      if Shr(mask, pos) % 2 == 1 {
        RunInsertIsPdep(w, mask, next, off, series + 1, used, v, place);
      } else {
        InsertAtGap(w, mask, pos, series, used, v, place, np);
        RunInsertIsPdep(w, mask, next, next, 0, now, v, np);
        ScatteredAt(w, mask, pos, next, off, series, used, now, v, place, np);
      }
    }
  }

  lemma PextFull(w: nat, v: nat)
    requires v < Pow2(w)
    ensures Pext(Pow2(w) - 1, v) == v
    decreases w
  {
    if w > 0 {
      PextFull(w - 1, v / 2);
      assert (Pow2(w) - 1) / 2 == Pow2(w - 1) - 1 && (Pow2(w) - 1) % 2 == 1;
    }
  }

  lemma PdepFull(w: nat, v: nat, p: nat)
    requires v < Pow2(w) && p < Pow2(w)
    ensures Pdep(Pow2(w) - 1, v, p) == v
    decreases w
  {
    if w > 0 {
      PdepFull(w - 1, v / 2, p / 2);
      assert (Pow2(w) - 1) / 2 == Pow2(w - 1) - 1 && (Pow2(w) - 1) % 2 == 1;
    }
  }

  // ---------------------------------------------------------------- main results

  /** The run-length recursions are the bit-at-a-time gather and scatter. */
  lemma MaskedIsBitwise(w: nat, mask: nat, v: nat, p: nat)
    requires w >= 2 && mask < Pow2(w) && v < Pow2(w) && p < Pow2(w)
    ensures ExtractMasked(w, mask, v) == Pext(mask, v)
    ensures InsertMasked(w, mask, v, p) == Pdep(mask, v, p)
  {
    if mask == Pow2(w) - 1 {
      PextFull(w, v);
      PdepFull(w, v, p);
    } else {
      RunExtractIsPext(w, mask, 0, 0, 0, v);
      RunInsertIsPdep(w, mask, 0, 0, 0, 0, v, p);
    }
  }

  /** Reading back what was inserted gives the value truncated to the field. */
  lemma ExtractOfInsert(w: nat, mask: nat, v: nat, p: nat)
    requires w >= 2 && mask < Pow2(w) && v < Pow2(w) && p < Pow2(w)
    ensures InsertMasked(w, mask, v, p) < Pow2(w)
    ensures ExtractMasked(w, mask, InsertMasked(w, mask, v, p)) == v % Pow2(PopCount(mask))
  {
    MaskedIsBitwise(w, mask, v, p);
    PdepBound(mask, v, p, w);
    MaskedIsBitwise(w, mask, Pdep(mask, v, p), p);
    PextOfPdep(mask, v, p);
    LowIsMod(v, PopCount(mask));
  }

  /** Inserting what is already there changes nothing. */
  lemma InsertOfExtract(w: nat, mask: nat, p: nat)
    requires w >= 2 && mask < Pow2(w) && p < Pow2(w)
    ensures ExtractMasked(w, mask, p) < Pow2(w)
    ensures InsertMasked(w, mask, ExtractMasked(w, mask, p), p) == p
  {
    MaskedIsBitwise(w, mask, p, p);
    PextBound(mask, p);
    PdepOfPext(mask, p);
    MaskedIsBitwise(w, mask, Pext(mask, p), p);
  }

  /** Bit by bit: under the mask the value's next bit, elsewhere the old bit. */
  lemma InsertBits(w: nat, mask: nat, v: nat, p: nat, i: nat)
    requires w >= 2 && mask < Pow2(w) && v < Pow2(w) && p < Pow2(w)
    ensures Bit(InsertMasked(w, mask, v, p), i) == if Bit(mask, i) then Bit(v, Rank(mask, i)) else Bit(p, i)
  {
    MaskedIsBitwise(w, mask, v, p);
    PdepBits(mask, v, p, i);
  }

  /** Bit by bit: each masked bit lands at the rank of its position. */
  lemma ExtractBitsOfMask(w: nat, mask: nat, v: nat, i: nat)
    requires w >= 2 && mask < Pow2(w) && v < Pow2(w) && Bit(mask, i)
    ensures Bit(ExtractMasked(w, mask, v), Rank(mask, i)) == Bit(v, i)
  {
    MaskedIsBitwise(w, mask, v, v);
    PextBits(mask, v, i);
  }

  /** Writing one field leaves every field with a disjoint mask alone. */
  lemma DisjointFields(w: nat, m1: nat, m2: nat, v: nat, p: nat)
    requires w >= 2 && m1 < Pow2(w) && m2 < Pow2(w) && v < Pow2(w) && p < Pow2(w)
    requires BitAnd(m1, m2) == 0
    ensures InsertMasked(w, m2, v, p) < Pow2(w)
    ensures ExtractMasked(w, m1, InsertMasked(w, m2, v, p)) == ExtractMasked(w, m1, p)
  {
    MaskedIsBitwise(w, m2, v, p);
    PdepBound(m2, v, p, w);
    MaskedIsBitwise(w, m1, Pdep(m2, v, p), p);
    MaskedIsBitwise(w, m1, p, p);
    PextDisjoint(m1, m2, v, p);
  }

  lemma PdepBound(m: nat, v: nat, p: nat, w: nat)
    requires m < Pow2(w) && p < Pow2(w)
    ensures Pdep(m, v, p) < Pow2(w)
    decreases w
  {
  }

  lemma PextBound(m: nat, v: nat)
    ensures Pext(m, v) <= m && Pext(m, v) <= v && Pext(m, v) < Pow2(PopCount(m))
  {
  }

  lemma {:induction false} PextOfPdep(m: nat, v: nat, p: nat)
    ensures Pext(m, Pdep(m, v, p)) == Low(v, PopCount(m))
  {
    if m > 0 {
      PextOfPdep(m / 2, if m % 2 == 1 then v / 2 else v, p / 2);
    }
  }

  lemma {:induction false} PdepOfPext(m: nat, p: nat)
    ensures Pdep(m, Pext(m, p), p) == p
  {
    if m > 0 {
      PdepOfPext(m / 2, p / 2);
    }
  }

  lemma {:induction false} PdepBits(m: nat, v: nat, p: nat, i: nat)
    ensures Bit(Pdep(m, v, p), i) == if Bit(m, i) then Bit(v, Rank(m, i)) else Bit(p, i)
    decreases i
  {
    if m == 0 {
      NoBits(i);
    } else if i > 0 {
      PdepBits(m / 2, if m % 2 == 1 then v / 2 else v, p / 2, i - 1);
    }
  }

  lemma {:induction false} PextBits(m: nat, v: nat, i: nat)
    requires Bit(m, i)
    ensures Bit(Pext(m, v), Rank(m, i)) == Bit(v, i)
    decreases i
  {
    if m == 0 {
      NoBits(i);
    } else if i > 0 {
      PextBits(m / 2, v / 2, i - 1);
    }
  }

  lemma {:induction false} PextDisjoint(m1: nat, m2: nat, v: nat, p: nat)
    requires BitAnd(m1, m2) == 0
    ensures Pext(m1, Pdep(m2, v, p)) == Pext(m1, p)
  {
    if m1 > 0 && m2 > 0 {
      PextDisjoint(m1 / 2, m2 / 2, if m2 % 2 == 1 then v / 2 else v, p / 2);
    }
  }

  lemma OrDigits(p: nat, x: nat, q: nat, y: nat)
    requires p < 2 && q < 2
    ensures BitOr(p + 2 * x, q + 2 * y) == (if p == 1 || q == 1 then 1 else 0) + 2 * BitOr(x, y)
  {
    OrUnfold(p + 2 * x, q + 2 * y);
  }

  lemma AndDigits(p: nat, x: nat, q: nat, y: nat)
    requires p < 2 && q < 2
    ensures BitAnd(p + 2 * x, q + 2 * y) == (if p == 1 && q == 1 then 1 else 0) + 2 * BitAnd(x, y)
  {
    AndUnfold(p + 2 * x, q + 2 * y);
  }

  lemma PextDigit(m: nat, p: nat, x: nat)
    requires m > 0 && p < 2
    ensures Pext(m, p + 2 * x) == if m % 2 == 1 then p + 2 * Pext(m / 2, x) else Pext(m / 2, x)
  {
    assert (p + 2 * x) / 2 == x && (p + 2 * x) % 2 == p;
  }

  /** Gathering goes through the bitwise operators. */
  lemma {:induction false} PextOr(m: nat, a: nat, b: nat)
    ensures Pext(m, BitOr(a, b)) == BitOr(Pext(m, a), Pext(m, b))
    decreases m
  {
    if m > 0 {
      var p, x, q, y := a % 2, a / 2, b % 2, b / 2;
      PextOr(m / 2, x, y);
      OrDigits(p, x, q, y);
      OrDigits(p, Pext(m / 2, x), q, Pext(m / 2, y));
      PextDigit(m, if p == 1 || q == 1 then 1 else 0, BitOr(x, y));
    }
  }

  lemma {:induction false} PextAnd(m: nat, a: nat, b: nat)
    ensures Pext(m, BitAnd(a, b)) == BitAnd(Pext(m, a), Pext(m, b))
    decreases m
  {
    if m > 0 {
      var p, x, q, y := a % 2, a / 2, b % 2, b / 2;
      PextAnd(m / 2, x, y);
      AndDigits(p, x, q, y);
      AndDigits(p, Pext(m / 2, x), q, Pext(m / 2, y));
      PextDigit(m, if p == 1 && q == 1 then 1 else 0, BitAnd(x, y));
    }
  }

  lemma {:induction false} PextNot(w: nat, m: nat, b: nat)
    requires m < Pow2(w) && b < Pow2(w)
    ensures Pext(m, b) < Pow2(PopCount(m)) && Pext(m, BitNot(w, b)) == BitNot(PopCount(m), Pext(m, b))
    decreases w
  {
    PextBound(m, b);
    if w > 0 {
      PextNot(w - 1, m / 2, b / 2);
      var n := BitNot(w, b);
      assert n / 2 == BitNot(w - 1, b / 2) && n % 2 == 1 - b % 2;
    }
  }
}
