/** Software 64-bit division on a machine with a 64-by-32 divide that traps:
    lib/arithmetic.c.  Every machine operation that can wrap is written out with
    its modulus, and the DIVL instruction is a partial operation. */
module Arithmetic {
  const B32 := 0x1_0000_0000
  const B64 := 0x1_0000_0000_0000_0000

  type U32 = x: int | 0 <= x < B32
  type U64 = x: int | 0 <= x < B64
  type I64 = x: int | -0x8000_0000_0000_0000 <= x < 0x8000_0000_0000_0000

  /** What a division delivers: a quotient, or the divide-error exception (#DE). */
  datatype Division<T> = Quotient(value: T) | DivideError

  function Pow2(k: nat): (p: nat)
    ensures p >= 1
  {
    if k == 0 then 1 else 2 * Pow2(k - 1)
  }

  /** The DIVL instruction: traps when the divisor is zero or the quotient needs
      more than 32 bits. */
  function Divl(n: U64, d: U32): Division<U32> {
    if d == 0 || n / d >= B32 then DivideError else Quotient(n / d)
  }

  /** Truncating 64-bit cast of an integer. */
  function Wrap64(x: int): U64 { x % B64 }

  /** x >> 32, and the truncating cast to 32 bits. */
  function HighWord(x: U64): U32 { x / B32 }
  function LowWord(x: U64): U32 { x % B32 }

  function ShiftLeft(x: U64, k: nat): U64 { Wrap64(x * Pow2(k)) }

  function ShiftRight(x: U64, k: nat): (r: U64) {
    DivAtMost(x, Pow2(k));
    x / Pow2(k)
  }

  // ---------------------------------------------------------------- arithmetic facts

  lemma DivAtMost(x: nat, k: nat)
    requires k >= 1
    ensures 0 <= x / k <= x
  {
    var q := x / k;
    assert q * k <= x;
    MulMono(1, k, q);
  }

  lemma MulMono(a: int, b: int, k: nat)
    requires a <= b
    ensures a * k <= b * k
  {}

  lemma MulCancel(a: int, b: int, k: nat)
    requires a * k < b * k
    ensures a < b
  {
    if b <= a {
      MulMono(b, a, k);
    }
  }

  lemma MulSucc(a: int, k: int)
    ensures (a + 1) * k == a * k + k
  {}

  /** Characterisation of floor division. */
  lemma DivUnique(n: int, d: int, q: int)
    requires d > 0 && q * d <= n < (q + 1) * d
    ensures n / d == q
  {
    var k := n / d;
    assert k * d <= n < k * d + d;
    MulSucc(k, d);
    MulCancel(q, k + 1, d);
    MulCancel(k, q + 1, d);
  }

  /** The divide traps exactly when the high word of the dividend reaches the divisor,
      which is what the callers' normalisation avoids. */
  lemma DivlTraps(n: U64, d: U32)
    ensures Divl(n, d).DivideError? <==> HighWord(n) >= d
    ensures Divl(n, d).Quotient? ==> Divl(n, d).value * d <= n < (Divl(n, d).value + 1) * d
  {
    if d > 0 {
      var q, h := n / d, HighWord(n);
      MulSucc(q, d);
      if q >= B32 {
        MulMono(B32, q, d);
      } else if h >= d {
        MulMono(d, h, B32);
        MulMono(q + 1, B32, d);
      }
    }
  }

  lemma DivDiv(n: nat, a: nat, b: nat)
    requires a > 0 && b > 0
    ensures a * b > 0 && n / a / b == n / (a * b)
  {
    var x := n / a;
    var q := x / b;
    assert q * b <= x < q * b + b;
    assert x * a <= n < x * a + a;
    calc {
      q * (a * b);
      (q * b) * a;
    <= { MulMono(q * b, x, a); }
      x * a;
    }
    calc {
      x * a + a;
      (x + 1) * a;
    <= { MulMono(x + 1, (q + 1) * b, a); }
      ((q + 1) * b) * a;
      (q + 1) * (a * b);
    }
    DivUnique(n, a * b, q);
  }

  lemma Pow2Add(a: nat, b: nat)
    ensures Pow2(a + b) == Pow2(a) * Pow2(b)
  {
    if a != 0 {
      Pow2Add(a - 1, b);
      calc {
        Pow2(a + b);
        2 * Pow2(a - 1 + b);
        2 * (Pow2(a - 1) * Pow2(b));
        (2 * Pow2(a - 1)) * Pow2(b);
      }
    }
  }

  lemma Pow2Of4()
    ensures Pow2(1) == 2 && Pow2(2) == 4 && Pow2(4) == 16
  {
    assert Pow2(2) == 2 * Pow2(1);
    assert Pow2(3) == 2 * Pow2(2);
  }

  lemma Pow2Of16()
    ensures Pow2(8) == 0x100 && Pow2(16) == 0x1_0000
  {
    Pow2Of4();
    Pow2Add(4, 4);
    Pow2Add(8, 8);
  }

  lemma Pow2Of32()
    ensures Pow2(32) == B32
  {
    Pow2Of16();
    Pow2Add(16, 16);
  }

  // ---------------------------------------------------------------- nlz

  /** Shifting by n brings the top set bit of x to position 31. */
  ghost predicate Normalises(x: U32, n: nat) {
    n <= 31 && 0x8000_0000 <= x * Pow2(n) < B32
  }

  /** At most one shift count normalises a word, so Normalises pins down nlz. */
  lemma NormalisesUnique(x: U32, m: nat, n: nat)
    requires Normalises(x, m) && Normalises(x, n)
    ensures m == n
  {
    if m < n {
      FurtherShiftDoubles(x, m, n);
    } else if n < m {
      FurtherShiftDoubles(x, n, m);
    }
  }

  lemma FurtherShiftDoubles(x: nat, m: nat, n: nat)
    requires m < n
    ensures x * Pow2(n) >= 2 * (x * Pow2(m))
    decreases n - m
  {
    DoubleShift(x, n - 1);
    if m < n - 1 {
      FurtherShiftDoubles(x, m, n - 1);
    }
  }

  lemma DoubleShift(x: nat, n: nat)
    ensures x * Pow2(n + 1) == 2 * (x * Pow2(n))
  {
    assert Pow2(n + 1) == 2 * Pow2(n);
  }

  /** x is x0 shifted left by n. */
  ghost predicate Shifted(x0: nat, n: nat, x: nat) { x == x0 * Pow2(n) }

  lemma NoShift(x: nat)
    ensures Shifted(x, 0, x)
  {}

  lemma ShiftedNormalises(x0: U32, n: nat, x: nat)
    requires Shifted(x0, n, x) && n <= 31 && 0x8000_0000 <= x < B32
    ensures Normalises(x0, n)
  {}

  /** One conditional shift of nlz: by k bits, that is times p. */
  lemma ShiftStep(x0: nat, n: nat, x: nat, k: nat, p: nat)
    requires Shifted(x0, n, x) && p == Pow2(k)
    ensures Shifted(x0, n + k, x * p)
  {
    Pow2Add(n, k);
    assert (x0 * Pow2(n)) * p == x0 * (Pow2(n) * p);
  }

  method Nlz(x0: U32) returns (n: nat)
    requires x0 != 0
    ensures Normalises(x0, n)
  {
    hide Shifted, Normalises, Pow2;
    Pow2Of4();
    Pow2Of16();
    var x: int := x0;
    n := 0;
    NoShift(x0);
    if x <= 0x0000_FFFF {
      ShiftStep(x0, n, x, 16, 0x1_0000);
      n, x := n + 16, x * 0x1_0000;
    }
    if x <= 0x00FF_FFFF {
      ShiftStep(x0, n, x, 8, 0x100);
      n, x := n + 8, x * 0x100;
    }
    if x <= 0x0FFF_FFFF {
      ShiftStep(x0, n, x, 4, 0x10);
      n, x := n + 4, x * 0x10;
    }
    if x <= 0x3FFF_FFFF {
      ShiftStep(x0, n, x, 2, 4);
      n, x := n + 2, x * 4;
    }
    if x <= 0x7FFF_FFFF {
      ShiftStep(x0, n, x, 1, 2);
      n, x := n + 1, x * 2;
    }
    ShiftedNormalises(x0, n, x);
  }

  // ---------------------------------------------------------------- udiv64

  /** The second step of long division divides a number below B32 * d. */
  lemma SecondStepFits(r: nat, n0: nat, d: nat)
    requires r < d && n0 < B32
    ensures B32 * r + n0 < B32 * d
    ensures (B32 * r + n0) / d < B32
  {
    var part := B32 * r + n0;
    var t := part / d;
    assert t * d <= part;
    MulCancel(t, B32, d);
  }

  /** The 32-bit divisor case: long division of the two halves is exact, and its
      second step cannot trap. */
  lemma LongDivision(n: U64, d: U32)
    requires d != 0
    ensures var part := B32 * (n / B32 % d) + n % B32;
            0 <= part < B64 && part / d < B32 &&
            part / d + B32 * (n / B32 / d) == n / d
  {
    var n1, n0 := n / B32, n % B32;
    var h, r := n1 / d, n1 % d;
    var part := B32 * r + n0;
    SecondStepFits(r, n0, d);
    var t := part / d;
    assert n == (B32 * h) * d + part by {
      assert n1 == h * d + r;
      assert B32 * (h * d) == (B32 * h) * d;
    }
    assert t * d <= part < t * d + d;
    assert (t + B32 * h) * d == t * d + (B32 * h) * d;
    MulSucc(t + B32 * h, d);
    DivUnique(n, d, t + B32 * h);
  }

  /** A product x * p below p * a leaves a whole p of room. */
  lemma TopWordRoom(x: nat, p: nat, a: nat)
    requires x * p < p * a
    ensures (x + 1) * p <= p * a
  {
    MulCancel(x, a, p);
    MulMono(x + 1, a, p);
  }

  /** Normalising by the high word loses no bit of the whole divisor. */
  lemma NormalisedDivisor(d: U64, p: nat, a: nat)
    requires p >= 1 && p * a == B32
    requires 0x8000_0000 <= d / B32 * p < B32
    ensures 0x8000_0000_0000_0000 <= d * p < B64
  {
    var d1 := d / B32;
    TopWordRoom(d1, p, a);
    assert d < (d1 + 1) * B32;
    assert d * p < ((d1 + 1) * B32) * p by {
      MulMono(d + 1, (d1 + 1) * B32, p);
      MulSucc(d, p);
    }
    assert ((d1 + 1) * B32) * p == ((d1 + 1) * p) * B32;
    MulMono(d1 * B32, d, p);
    assert (d1 * B32) * p == (d1 * p) * B32;
  }

  /** How far the truncated divisor v * a = (d * p / 2^32) * a lies below d, where
      p = 2^s and a = 2^(32-s). */
  lemma TruncatedDivisor(d: U64, p: nat, a: nat, v: nat)
    requires p >= 1 && a >= 1 && p * a == B32
    requires v == d * p / B32
    requires 0x8000_0000_0000_0000 <= d * p
    ensures v * a <= d < v * a + a
    ensures v >= 0x8000_0000 && v * a >= 0x8000_0000 * a
  {
    var w := v * a;
    assert v * B32 == w * p by {
      assert v * (p * a) == (v * a) * p;
    }
    assert w * p <= d * p < w * p + B32;
    MulSucc(d, p);
    MulCancel(w, d + 1, p);
    assert (w + a) * p == w * p + p * a;
    MulCancel(d, w + a, p);
    MulMono(0x8000_0000, v, a);
  }

  /** The quotient by d, plus one, times a stays within 2^33. */
  lemma QuotientRange(n: U64, d: nat, a: nat, k: nat)
    requires a >= 1 && d >= 0x8000_0000 * a && a * k == 0x2_0000_0000
    ensures (n / d + 1) * a <= 0x2_0000_0000
  {
    var q := n / d;
    assert q * d <= n;
    MulMono(0x8000_0000 * a, d, q);
    assert 0x8000_0000 * (q * a) == (0x8000_0000 * a) * q;
    assert q * a < k * a;
    MulCancel(q, k, a);
    MulMono(q + 1, k, a);
  }

  /** What dividing by w instead of d can add: (q+1) * (a-1) fits under w. */
  lemma Overshoot(q: nat, a: nat, w: nat)
    requires (q + 1) * a <= 0x2_0000_0000
    requires a == 2 || a >= 4
    requires w >= 0x8000_0000 * a
    ensures (q + 1) * (a - 1) <= w
  {
    assert (q + 1) * (a - 1) == (q + 1) * a - (q + 1);
  }

  lemma BelowNextMultiple(n: nat, d: nat)
    requires d > 0
    ensures n / d * d <= n < (n / d + 1) * d
  {
    MulSucc(n / d, d);
  }

  /** A smaller divisor gives a quotient at least as large. */
  lemma QuotientAntitone(n: nat, d: nat, w: nat)
    requires 0 < w <= d
    ensures n / d <= n / w
  {
    var q := Floor(n, d);
    var e := Floor(n, w);
    AntitoneStep(n, d, w, q, e);
  }

  lemma Floor(n: nat, d: nat) returns (q: nat)
    requires d > 0
    ensures q == n / d && q * d <= n < (q + 1) * d
  {
    q := n / d;
    BelowNextMultiple(n, d);
  }

  lemma AntitoneStep(n: nat, d: nat, w: nat, q: nat, e: nat)
    requires w <= d && q * d <= n < (e + 1) * w
    ensures q <= e
  {
    MulMono(w, d, q);
    MulCancel(q, e + 1, w);
  }

  /** One more multiple of d = w + r stays below two more multiples of w. */
  lemma NextMultipleBound(q: nat, d: nat, w: nat, r: nat)
    requires d <= w + r && (q + 1) * r <= w
    ensures (q + 1) * d <= (q + 2) * w
  {
    MulMono(d, w + r, q + 1);
    assert (w + r) * (q + 1) == w * (q + 1) + r * (q + 1);
    MulSucc(q + 1, w);
  }

  lemma QuotientBound(n: nat, w: nat, q: nat)
    requires w > 0 && n < q * w
    ensures n / w < q
  {
    BelowNextMultiple(n, w);
    MulCancel(n / w, q, w);
  }

  /** Dividing by the truncated divisor overshoots the quotient by at most one. */
  lemma EstimateWithinOne(n: U64, d: nat, a: nat, k: nat, w: nat)
    requires a * k == 0x2_0000_0000 && (a == 2 || a >= 4)
    requires w <= d < w + a && w >= 0x8000_0000 * a
    ensures n / d <= n / w <= n / d + 1
  {
    var q := n / d;
    QuotientAntitone(n, d, w);
    QuotientRange(n, d, a, k);
    Overshoot(q, a, w);
    NextMultipleBound(q, d, w, a - 1);
    BelowNextMultiple(n, d);
    QuotientBound(n, w, q + 2);
  }

  /** n/2 divided by v and then by h is n divided by v * 2h. */
  lemma HalvedQuotient(n: nat, v: nat, h: nat)
    requires v > 0 && h > 0
    ensures v * (2 * h) > 0
    ensures n / 2 / v / h == n / (v * (2 * h))
  {
    DivDiv(n / 2, v, h);
    DivDiv(n, 2, v * h);
    assert 2 * (v * h) == v * (2 * h);
  }

  /** A dividend below 2^63 over a divisor of at least 2^31 needs only 32 bits. */
  lemma TopQuotientFits(m: nat, v: nat)
    requires m < 0x8000_0000_0000_0000 && v >= 0x8000_0000
    ensures m / v < B32
  {
    var t := m / v;
    assert t * v <= m;
    MulMono(0x8000_0000, v, t);
    assert t * 0x8000_0000 == 0x8000_0000 * t;
  }

  lemma NormalisedTop(d: U64, s: nat)
    requires d * Pow2(s) < B64
    ensures HighWord(ShiftLeft(d, s)) == d * Pow2(s) / B32
  {
    WrapSmall(d * Pow2(s));
  }

  /** The 64-bit divisor case: DIVL on n/2 and the top word of the normalised
      divisor cannot trap, and its shifted result is the quotient or one more. */
  lemma NormalisedEstimate(n: U64, d: U64, s: nat)
    requires Normalises(d / B32, s)
    ensures var v := HighWord(ShiftLeft(d, s));
            0x8000_0000 <= v < B32 && n / 2 / v < B32 &&
            n / d <= n / 2 / v / Pow2(31 - s) <= n / d + 1
  {
    var p, a, h := Pow2(s), Pow2(32 - s), Pow2(31 - s);
    assert p * a == B32 by {
      Pow2Add(s, 32 - s);
      Pow2Of32();
    }
    NormalisedDivisor(d, p, a);
    var v := d * p / B32;
    NormalisedTop(d, s);
    hide *;
    TruncatedDivisor(d, p, a, v);
    TopQuotientFits(n / 2, v);
    HalvedQuotient(n, v, h);
    ShiftPair(s);
    EstimateWithinOne(n, d, a, Pow2(s + 1), v * a);
  }

  lemma ShiftPair(s: nat)
    requires s <= 31
    ensures Pow2(32 - s) * Pow2(s + 1) == 0x2_0000_0000
    ensures Pow2(32 - s) == 2 || Pow2(32 - s) >= 4
  {
    Pow2Add(32 - s, s + 1);
    Pow2Of32();
    assert Pow2(33) == 2 * Pow2(32);
    if s < 31 {
      assert Pow2(32 - s) == 2 * Pow2(31 - s) && Pow2(31 - s) == 2 * Pow2(30 - s);
    }
  }

  /** The final comparison tells the two candidate quotients apart. */
  lemma CorrectionStep(n: U64, d: U64, q: U64)
    requires d > 0 && n / d >= 1 && n / d <= q <= n / d + 1
    ensures 0 <= n - (q - 1) * d < B64
    ensures n - (q - 1) * d < d <==> q == n / d + 1
  {
    var t := n / d;
    MulSucc(t - 1, d);
    MulMono(0, t - 1, d);
  }

  /** What the narrow branch computes, with all its truncations. */
  lemma NarrowResult(n: U64, d: U32)
    requires d != 0
    ensures var n1, n0 := HighWord(n), LowWord(n);
            var low := Divl(Wrap64(B32 * (n1 % d) + n0), d);
            low.Quotient? && Wrap64(low.value + Wrap64(B32 * (n1 / d))) == n / d
  {
    LongDivision(n, d);
    DivAtMost(n, d);
    var n1, n0 := HighWord(n), LowWord(n);
    var part, high := B32 * (n1 % d) + n0, B32 * (n1 / d);
    DivAtMost(n1, d);
    WrapSmall(part);
    WrapSmall(high);
    WrapSmall(part / d + high);
    hide Wrap64, HighWord, LowWord;
  }

  lemma WrapSmall(x: int)
    requires 0 <= x < B64
    ensures Wrap64(x) == x
  {}

  /** udiv64's branch for divisors that fit in 32 bits. */
  method DivideByNarrow(n: U64, d0: U32) returns (r: Division<U64>)
    ensures r == if d0 == 0 then DivideError else Quotient(n / d0)
  {
    var n1, n0 := HighWord(n), LowWord(n);
    if d0 == 0 {
      return DivideError;  // n1 % d0 traps
    }
    NarrowResult(n, d0);
    hide *;
    var low := Divl(Wrap64(B32 * (n1 % d0) + n0), d0);
    if low.DivideError? {
      return DivideError;
    }
    r := Quotient(Wrap64(low.value + Wrap64(B32 * (n1 / d0))));
  }

  lemma MulCancelOne(n: nat, d: nat)
    requires 0 < d <= n
    ensures n / d >= 1
  {
    BelowNextMultiple(n, d);
    MulCancel(1, n / d + 1, d);
  }

  /** udiv64's branch for divisors of more than 32 bits. */
  method DivideByWide(n: U64, d: U64) returns (r: Division<U64>)
    requires B32 <= d <= n
    ensures r == Quotient(n / d)
  {
    var s := Nlz(HighWord(d));
    NormalisedEstimate(n, d, s);
    var v := HighWord(ShiftLeft(d, s));
    var top := Divl(n / 2, v);
    if top.DivideError? {
      return DivideError;
    }
    var q: U64 := ShiftRight(top.value, 31 - s);
    MulCancelOne(n, d);
    CorrectionStep(n, d, q);
    r := Quotient(if Wrap64(n - (q - 1) * d) < d then q - 1 else q);
  }

  lemma SplitWord(d: U64)
    ensures HighWord(d) == 0 ==> LowWord(d) == d
    ensures HighWord(d) != 0 ==> d >= B32
  {}

  lemma SmallDividend(n: nat, d: nat)
    requires n < d
    ensures n / d == 0
  {}

  /** udiv64 delivers the exact quotient of every pair with d != 0 and traps only
      on d == 0: neither DIVL it executes can overflow. */
  method Udiv64(n: U64, d: U64) returns (r: Division<U64>)
    ensures r == if d == 0 then DivideError else Quotient(n / d)
  {
    SplitWord(d);
    if HighWord(d) == 0 {
      r := DivideByNarrow(n, LowWord(d));
    } else if n < d {
      SmallDividend(n, d);
      r := Quotient(0);
    } else {
      r := DivideByWide(n, d);
    }
  }

  // ---------------------------------------------------------------- sdiv64

  /** C's signed division: truncation toward zero. */
  function TruncDiv(n: int, d: int): int
    requires d != 0
  {
    if (n < 0) == (d < 0) then Abs(n) / Abs(d) else -(Abs(n) / Abs(d))
  }

  function Abs(x: int): nat { if x < 0 then -x else x }

  /** Two's-complement reading of a 64-bit word, and its inverse. */
  function AsSigned(x: U64): I64 {
    if x < 0x8000_0000_0000_0000 then x else x - B64
  }

  function AsUnsigned(x: I64): U64 {
    if x >= 0 then x else x + B64
  }

  function Negate64(x: U64): U64 {
    if x == 0 then 0 else B64 - x
  }

  /** TruncDiv rounds toward zero and leaves a remainder of the dividend's sign. */
  lemma TruncDivMeaning(n: int, d: int)
    requires d != 0
    ensures var r := n - TruncDiv(n, d) * d;
            Abs(r) < Abs(d) && (r == 0 || (r < 0) == (n < 0))
  {
    var q := Abs(n) / Abs(d);
    assert q * Abs(d) <= Abs(n) < q * Abs(d) + Abs(d);
    assert TruncDiv(n, d) * d == if n < 0 then -(q * Abs(d)) else q * Abs(d);
  }

  /** Only INT64_MIN / 1 and INT64_MIN / -1 reach magnitude 2^63. */
  lemma QuotientSize(n: I64, d: I64)
    requires d != 0
    ensures Abs(n) / Abs(d) <= 0x8000_0000_0000_0000
    ensures Abs(n) / Abs(d) == 0x8000_0000_0000_0000 <==>
      n == -0x8000_0000_0000_0000 && (d == 1 || d == -1)
  {
    DivAtMost(Abs(n), Abs(d));
    var q := Abs(n) / Abs(d);
    assert q * Abs(d) <= Abs(n);
    if Abs(d) >= 2 {
      MulMono(2, Abs(d), q);
    }
  }

  /** sdiv64 truncates toward zero, except that the one unrepresentable quotient
      INT64_MIN / -1 comes back as INT64_MIN. */
  method Sdiv64(n: I64, d: I64) returns (r: Division<I64>)
    ensures r.DivideError? <==> d == 0
    ensures d != 0 ==>
      (r.value == TruncDiv(n, d) <==> !(n == -0x8000_0000_0000_0000 && d == -1))
    ensures n == -0x8000_0000_0000_0000 && d == -1 ==> r.value == n
  {
    var nAbs := if n >= 0 then AsUnsigned(n) else Negate64(AsUnsigned(n));
    var dAbs := if d >= 0 then AsUnsigned(d) else Negate64(AsUnsigned(d));
    var q := Udiv64(nAbs, dAbs);
    if q.DivideError? {
      return DivideError;
    }
    QuotientSize(n, d);
    if (n < 0) == (d < 0) {
      r := Quotient(AsSigned(q.value));
    } else {
      r := Quotient(AsSigned(Negate64(AsUnsigned(AsSigned(q.value)))));
    }
  }
}
