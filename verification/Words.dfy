/** 32-bit words as numbers: the bit tricks of the tables compute what the tables mean by them. */
module Words {
  import opened Probing
  import opened PackedFlags
  import opened Khash

  function Half(w: bv32): bv32 {
    w >> 1
  }

  predicate Odd(w: bv32) {
    w & 1 == 1
  }

  predicate OneBit(w: bv32) {
    w != 0 && w & (w - 1) == 0
  }

  function Mask(k: bv32, n: bv32): bv32 {
    k & (n - 1)
  }

  lemma HalfLess(w: bv32)
    requires w != 0
    ensures Half(w) < w
  {
  }

  /** The number a word stands for. */
  function Value(w: bv32): (v: nat)
    ensures w == 0 <==> v == 0
    decreases w
  {
    if w == 0 then 0 else
      HalfLess(w);
      ZeroHalf(w);
      2 * Value(Half(w)) + (if Odd(w) then 1 else 0)
  }

  lemma ZeroHalf(w: bv32)
    requires w != 0
    ensures Half(w) == 0 ==> Odd(w)
  {
  }

  lemma Bit(w: bv32)
    ensures Value(w) == 2 * Value(Half(w)) + (if Odd(w) then 1 else 0)
  {
    if w == 0 {
      assert Half(w) == 0 && !Odd(w);
    }
  }

  predicate Less(x: bv32, y: bv32) {
    x < y
  }

  lemma LessIsStrict(x: bv32, y: bv32)
    requires Less(x, y)
    ensures !Less(y, x) && x != y
  {
  }

  lemma HalvesLess(x: bv32, y: bv32)
    ensures Less(Half(x), Half(y)) ==> Less(x, y)
  {
  }

  lemma FromHalf(x: bv32)
    ensures x == (Half(x) << 1) | (if Odd(x) then 1 else 0)
  {
  }

  lemma LastBit(a: bv32)
    ensures (a << 1) | 0 < (a << 1) | 1
  {
  }

  lemma SameHalves(x: bv32, y: bv32)
    requires Half(x) == Half(y)
    ensures Odd(x) == Odd(y) ==> x == y
    ensures !Odd(x) && Odd(y) ==> Less(x, y)
  {
    hide Half, Odd;
    FromHalf(x);
    FromHalf(y);
    LastBit(Half(x));
  }

  lemma {:induction false} Compared(x: bv32, y: bv32)
    requires x != y
    ensures Less(x, y) || Less(y, x)
    decreases Value(x) + Value(y)
  {
    hide Value, Half, Odd, Less;
    if Half(x) == Half(y) {
      SameHalves(x, y);
      SameHalves(y, x);
    } else {
      Bit(x);
      Bit(y);
      Compared(Half(x), Half(y));
      HalvesLess(x, y);
      HalvesLess(y, x);
    }
  }

  /** A smaller word stands for a smaller number. */
  lemma {:induction false} ValueGrows(x: bv32, y: bv32)
    requires Less(x, y)
    ensures Value(x) < Value(y)
    decreases Value(x) + Value(y)
  {
    hide Value, Half, Odd, Less;
    Bit(x);
    Bit(y);
    LessIsStrict(x, y);
    if Half(x) == Half(y) {
      SameHalves(x, y);
      SameHalves(y, x);
    } else {
      Compared(Half(x), Half(y));
      if Less(Half(y), Half(x)) {
        HalvesLess(y, x);
        LessIsStrict(y, x);
      }
      ValueGrows(Half(x), Half(y));
    }
  }

  /** Words are ordered as their numbers are. */
  lemma ValueOrdered(x: bv32, y: bv32)
    ensures Less(x, y) <==> Value(x) < Value(y)
    ensures x == y <==> Value(x) == Value(y)
  {
    hide Value, Less;
    if Less(x, y) {
      LessIsStrict(x, y);
      ValueGrows(x, y);
    } else if x != y {
      Compared(x, y);
      ValueGrows(y, x);
    }
  }

  lemma OneBitHalf(n: bv32)
    requires OneBit(n) && n != 1
    ensures !Odd(n) && OneBit(Half(n))
  {
  }

  lemma MaskHalf(k: bv32, n: bv32)
    requires n != 0 && !Odd(n)
    ensures Half(Mask(k, n)) == Mask(Half(k), Half(n))
    ensures Odd(Mask(k, n)) == Odd(k)
  {
  }

  lemma MaskOne(k: bv32)
    ensures Mask(k, 1) == 0 && Half(1) == 0 && Odd(1)
  {
  }

  /** A word with one bit stands for a power of two. */
  lemma {:induction false} OneBitIsPower(n: bv32)
    requires OneBit(n)
    ensures PowerOfTwo(Value(n))
    decreases n
  {
    hide Value, Half, Odd, OneBit;
    Bit(n);
    if n == 1 {
      MaskOne(0);
    } else {
      OneBitHalf(n);
      NotZero(n);
      HalfLess(n);
      OneBitIsPower(Half(n));
    }
  }

  /** The test with n & (n - 1) finds exactly the powers of two. */
  lemma {:induction false} OneBitExactly(n: bv32)
    ensures OneBit(n) <==> PowerOfTwo(Value(n))
    decreases Value(n)
  {
    hide Value, Half, Odd, OneBit;
    if OneBit(n) {
      OneBitIsPower(n);
    } else if PowerOfTwo(Value(n)) {
      Bit(n);
      if Value(n) == 1 {
        OnlyOne(n);
      } else {
        PowerIsEven(Value(n));
        OneBitExactly(Half(n));
        HalfOneBit(n);
      }
    }
  }

  lemma OnlyOne(n: bv32)
    requires Value(n) == 1
    ensures OneBit(n)
  {
    Bit(n);
    hide Value;
    FromHalf(n);
  }

  lemma HalfOneBit(n: bv32)
    requires OneBit(Half(n)) && !Odd(n)
    ensures OneBit(n)
  {
  }

  lemma NotZero(n: bv32)
    requires OneBit(n)
    ensures n != 0
  {
  }

  lemma Twice(w: bv32)
    requires w < 0x8000_0000
    ensures Half(w << 1) == w && !Odd(w << 1)
  {
  }

  lemma Doubled(w: bv32)
    requires w < 0x8000_0000
    ensures Value(w << 1) == 2 * Value(w)
  {
    hide Value, Half, Odd;
    Twice(w);
    Bit(w << 1);
  }

  lemma TopValue()
    ensures Value(0x8000_0000) == 0x8000_0000
  {
    assert Value(1) == 1;
    hide Value;
    Doubled(0x1);
    Doubled(0x2);
    Doubled(0x4);
    Doubled(0x8);
    Doubled(0x10);
    Doubled(0x20);
    Doubled(0x40);
    Doubled(0x80);
    Doubled(0x100);
    Doubled(0x200);
    Doubled(0x400);
    Doubled(0x800);
    Doubled(0x1000);
    Doubled(0x2000);
    Doubled(0x4000);
    Doubled(0x8000);
    Doubled(0x10000);
    Doubled(0x20000);
    Doubled(0x40000);
    Doubled(0x80000);
    Doubled(0x100000);
    Doubled(0x200000);
    Doubled(0x400000);
    Doubled(0x800000);
    Doubled(0x1000000);
    Doubled(0x2000000);
    Doubled(0x4000000);
    Doubled(0x8000000);
    Doubled(0x10000000);
    Doubled(0x20000000);
    Doubled(0x40000000);
  }

  /** The round-up chain computes the rounding that the table is specified with, wrap-around included. */
  lemma RoundUpAgrees(x: bv32)
    ensures Value(RoundUpBits(x)) == RoundUp32(Value(x))
  {
    hide Value, RoundUpBits, RoundUp32, PowerOfTwo, Half, Odd;
    RoundUpBitsExact(x);
    TopValue();
    ValueOrdered(0x8000_0000, x);
    var r := RoundUpBits(x);
    if 0 < x <= 0x8000_0000 {
      OneBitIsPower(r);
      ValueOrdered(r, x);
      Bit(r);
      HalfOf(r, x);
      PowerIsEven(Value(r));
      PowerUnique(Value(r), RoundUp32(Value(x)), Value(x));
    }
  }

  lemma HalfOf(r: bv32, x: bv32)
    requires r >> 1 < x
    ensures Value(Half(r)) < Value(x)
  {
    hide Value;
    ValueOrdered(Half(r), x);
  }

  lemma PowerIsEven(n: nat)
    requires PowerOfTwo(n)
    ensures n == 1 || n % 2 == 0
  {
  }

  /** Masking with one less than a power of two is taking the remainder. */
  lemma {:induction false} MaskIsRemainder(k: bv32, n: bv32)
    requires OneBit(n)
    ensures Value(n) > 0 && Value(Mask(k, n)) == Value(k) % Value(n)
    decreases Value(n)
  {
    hide Value, Half, Odd, Mask, OneBit;
    NotZero(n);
    if n == 1 {
      MaskOne(k);
      ValueOfOne();
    } else {
      OneBitHalf(n);
      NotZero(Half(n));
      Bit(n);
      MaskIsRemainder(Half(k), Half(n));
      MaskStep(k, n);
    }
  }

  lemma ValueOfOne()
    ensures Value(0) == 0 && Value(1) == 1
  {
    Bit(1);
    assert Half(1) == 0 && Odd(1);
  }

  lemma MaskStep(k: bv32, n: bv32)
    requires n != 0 && !Odd(n) && Value(Half(n)) > 0 && Value(Mask(Half(k), Half(n))) == Value(Half(k)) % Value(Half(n))
    ensures Value(n) > 0 && Value(Mask(k, n)) == Value(k) % Value(n)
  {
    hide Value, Half, Odd, Mask;
    MaskHalf(k, n);
    Bit(k);
    Bit(n);
    Bit(Mask(k, n));
    RemainderBits(Value(Half(k)), if Odd(k) then 1 else 0, Value(Half(n)));
  }

  lemma RemainderBits(h: nat, b: nat, m: nat)
    requires m > 0 && b < 2
    ensures (2 * h + b) % (2 * m) == 2 * (h % m) + b
  {
    RemainderHalves(2 * h + b, m);
  }

  lemma RemainderHalves(a: nat, m: nat)
    requires m > 0
    ensures a % (2 * m) == 2 * (a / 2 % m) + a % 2
  {
    var q := a / 2 / m;
    assert a / 2 == q * m + a / 2 % m;
    assert a == q * (2 * m) + (2 * (a / 2 % m) + a % 2);
    ModUnique(a, q, 2 * (a / 2 % m) + a % 2, 2 * m);
  }
}
