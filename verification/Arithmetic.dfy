/** 64-bit division built from the 32-bit x86 `divl` instruction (lib/arithmetic.c).
    Machine words are integers with their range in the type; every C operation that can
    wrap is written with an explicit reduction. */
module Arithmetic {

  const TWO_31: int := 0x8000_0000
  const TWO_32: int := 0x1_0000_0000
  const TWO_63: int := 0x8000_0000_0000_0000
  const TWO_64: int := 0x1_0000_0000_0000_0000

  type U32 = x: int | 0 <= x < TWO_32
  type U64 = x: int | 0 <= x < TWO_64
  type S32 = x: int | -TWO_31 <= x < TWO_31
  type S64 = x: int | -TWO_63 <= x < TWO_63

  /** Conversions between words of the same or smaller width, two's complement. */
  function ToU64(x: int): U64 { x % TWO_64 }

  function ToS64(x: int): S64 {
    var u := x % TWO_64;
    if u < TWO_63 then u else u - TWO_64
  }

  function ToS32(x: int): S32 {
    var u := x % TWO_32;
    if u < TWO_31 then u else u - TWO_32
  }

  function Pow2(k: nat): (p: nat)
    ensures p > 0
  {
    if k == 0 then 1 else 2 * Pow2(k - 1)
  }

  lemma {:induction false} Pow2Add(a: nat, b: nat)
    ensures Pow2(a + b) == Pow2(a) * Pow2(b)
    decreases a
  {
    if a != 0 {
      Pow2Add(a - 1, b);
      assert Pow2(a + b) == 2 * Pow2(a - 1 + b);
      assert Pow2(a) * Pow2(b) == 2 * (Pow2(a - 1) * Pow2(b));
    }
  }

  lemma {:induction false} Pow2Values()
    ensures Pow2(1) == 2 && Pow2(2) == 4 && Pow2(4) == 16 && Pow2(8) == 256 && Pow2(16) == 0x1_0000
    ensures Pow2(31) == TWO_31 && Pow2(32) == TWO_32 && Pow2(63) == TWO_63 && Pow2(64) == TWO_64
  {
    assert Pow2(1) == 2 && Pow2(2) == 4;
    Pow2Add(2, 2);
    Pow2Add(4, 4);
    Pow2Add(8, 8);
    Pow2Add(16, 16);
    Pow2Add(32, 32);
    assert Pow2(32) == 2 * Pow2(31);
    assert Pow2(64) == 2 * Pow2(63);
  }

  /** The instruction traps exactly when the quotient does not fit in 32 bits or the divisor is
      zero; not trapping is the obligation of every call. */
  function Divl(n: U64, d: U32): (q: U32)
    requires d != 0 && n / d < TWO_32
  {
    QuotientNotLarger(n, d);
    n / d
  }

  /** A left shift by `k` that loses no bit multiplies by 2^k. */
  lemma ShiftLeft(x0: U32, x: U32, n: nat, k: nat, m: nat)
    requires x == x0 * Pow2(n) && m == Pow2(k) && x * m < TWO_32
    ensures (x * m) % TWO_32 == x * m == x0 * Pow2(n + k)
  {
    Pow2Add(n, k);
    assert x * m == x0 * (Pow2(n) * m);
  }

  function ShiftRight(x: U32, k: nat): (r: U32)
    ensures r <= x
  {
    QuotientNotLarger(x, Pow2(k));
    x / Pow2(k)
  }

  /** Number of leading zero bits: the shift that brings the top set bit to position 31. */
  method Nlz(x0: U32) returns (n: nat)
    requires x0 != 0
    ensures n <= 31
    ensures TWO_31 <= x0 * Pow2(n) < TWO_32
  {
    Pow2Values();
    var x := x0;
    n := 0;
    assert x == x0 * Pow2(0);
    if x <= 0x0000_FFFF {
      ShiftLeft(x0, x, n, 16, 0x1_0000);
      n := n + 16;
      x := (x * 0x1_0000) % TWO_32;
    }
    if x <= 0x00FF_FFFF {
      ShiftLeft(x0, x, n, 8, 0x100);
      n := n + 8;
      x := (x * 0x100) % TWO_32;
    }
    if x <= 0x0FFF_FFFF {
      ShiftLeft(x0, x, n, 4, 0x10);
      n := n + 4;
      x := (x * 0x10) % TWO_32;
    }
    if x <= 0x3FFF_FFFF {
      ShiftLeft(x0, x, n, 2, 4);
      n := n + 2;
      x := (x * 4) % TWO_32;
    }
    if x <= 0x7FFF_FFFF {
      ShiftLeft(x0, x, n, 1, 2);
      n := n + 1;
    }
  }

  lemma MulMono(a: int, b: int, c: int)
    requires a <= b && c >= 0
    ensures a * c <= b * c
  {
    assert (b - a) * c >= 0;
  }

  /** Cancelling a positive factor from a strict comparison. */
  lemma CancelLess(a: int, b: int, c: int)
    requires c > 0 && a * c < b * c
    ensures a < b
  {
    if a >= b {
      MulMono(b, a, c);
    }
  }

  lemma QuotientBetween(n: int, d: int, q: int)
    requires d > 0 && q * d <= n < (q + 1) * d
    ensures n / d == q
  {
    var r := n / d;
    assert r * d <= n < (r + 1) * d;
    CancelLess(q, r + 1, d);
    CancelLess(r, q + 1, d);
  }

  lemma HighWord(x: int, v: int, b: int)
    requires b > 0 && v == x / b
    ensures v * b <= x < (v + 1) * b
  {}

  lemma QuotientNotLarger(x: int, p: int)
    requires x >= 0 && p > 0
    ensures 0 <= x / p <= x
  {
    var q := x / p;
    HighWord(x, q, p);
    CancelLess(-1, q, p);
    MulMono(1, p, q);
  }

  lemma ThreeFactors(a: int, b: int, c: int)
    ensures (a * b) * c == a * (b * c) == (a * c) * b
  {}

  /** A word splits at the shift distance: 2^32 = 2 * 2^(31-s) * 2^s. */
  lemma SplitWord(s: nat)
    requires s <= 31
    ensures (2 * Pow2(31 - s)) * Pow2(s) == TWO_32
  {
    Pow2Values();
    Pow2Add(31 - s, s);
    ThreeFactors(2, Pow2(31 - s), Pow2(s));
  }

  /** The divisor `d`, scaled by `m` and truncated to a multiple of `w * m`, loses less than `w`. */
  lemma TruncatedDivisor(d: int, v: int, w: int, m: int)
    requires w > 0 && m > 0 && v * (w * m) <= d * m < (v + 1) * (w * m)
    ensures v * w <= d < v * w + w
  {
    ThreeFactors(v, w, m);
    ThreeFactors(v + 1, w, m);
    if d < v * w {
      MulMono(d + 1, v * w, m);
    }
    CancelLess(d, (v + 1) * w, m);
  }

  /** Two successive divisions are one division by the product. */
  lemma NestedQuotient(u: int, v: int, t: int, p: int, q: int)
    requires v > 0 && p > 0
    requires t * v <= u < (t + 1) * v && q * p <= t < (q + 1) * p
    ensures q * (p * v) <= u < (q + 1) * (p * v)
  {
    MulMono(q * p, t, v);
    MulMono(t + 1, (q + 1) * p, v);
    ThreeFactors(q, p, v);
    ThreeFactors(q + 1, p, v);
  }

  lemma Doubled(q: int, p: int, v: int)
    ensures q * (v * (2 * p)) == 2 * (q * (p * v))
  {
    assert v * (2 * p) == 2 * (p * v);
    ThreeFactors(q, 2, p * v);
  }

  /** Halving, dividing by `v` and then by `p` amounts to one division by `v * (2 * p)`. */
  lemma EstimateIsQuotient(n: int, v: int, p: int, q: int)
    requires v > 0 && p > 0 && q == (n / 2) / v / p
    ensures q * (v * (2 * p)) <= n < (q + 1) * (v * (2 * p))
  {
    var u := n / 2;
    var t := u / v;
    HighWord(u, t, v);
    HighWord(t, q, p);
    NestedQuotient(u, v, t, p, q);
    Doubled(q, p, v);
    Doubled(q + 1, p, v);
  }

  /** The quotient is below 2m when the dividend is below 2 * (d * m). */
  lemma QuotientBelow(n: int, d: int, m: int, quotient: int)
    requires d > 0 && m > 0 && quotient * d <= n < 2 * (d * m)
    ensures quotient < 2 * m
  {
    assert (2 * m) * d == 2 * (d * m);
    CancelLess(quotient, 2 * m, d);
  }

  lemma AccumulatedError(m: int, w: int, v: int, quotient: int)
    requires w > 0 && m > 0 && w * m == TWO_32 && quotient + 1 <= 2 * m
    requires 2 * TWO_32 - 2 * m <= v * w
    ensures (quotient + 1) * (w - 1) <= v * w
  {
    MulMono(quotient + 1, 2 * m, w - 1);
    assert (2 * m) * (w - 1) == 2 * (w * m) - 2 * m;
  }

  /** The truncation error, accumulated over the quotient, stays within one truncated divisor. */
  lemma ErrorBound(s: nat, v: int, quotient: int)
    requires s <= 31 && TWO_31 <= v && quotient < 2 * Pow2(s)
    ensures var w := 2 * Pow2(31 - s); (quotient + 1) * (w - 1) <= v * w
  {
    var m, w := Pow2(s), 2 * Pow2(31 - s);
    SplitWord(s);
    assert 2 * TWO_32 - 2 * m <= v * w by {
      if s == 31 {
        Pow2Values();
      } else {
        assert Pow2(31 - s) == 2 * Pow2(30 - s) >= 2;
        MulMono(4, w, v);
        assert w * v == v * w;
      }
    }
    AccumulatedError(m, w, v, quotient);
  }

  /** Dividing by a slightly smaller divisor overshoots by at most one. */
  lemma SlightlySmallerDivisor(n: int, d: int, trunc: int, err: int, q: int, quotient: int)
    requires 0 < trunc <= d <= trunc + err && 0 <= quotient
    requires quotient * d <= n < (quotient + 1) * d
    requires q * trunc <= n < (q + 1) * trunc
    requires (quotient + 1) * err <= trunc
    ensures quotient <= q <= quotient + 1
  {
    MulMono(trunc, d, quotient);
    CancelLess(quotient, q + 1, trunc);
    MulMono(d, trunc + err, quotient + 1);
    assert (trunc + err) * (quotient + 1) == (quotient + 1) * trunc + (quotient + 1) * err;
    assert (quotient + 2) * trunc == (quotient + 1) * trunc + trunc;
    CancelLess(q, quotient + 2, trunc);
  }

  /** Normalising loses no bit: the scaled divisor still fits in `b * b`, and its top word is
      the scaled top word or more. */
  lemma ScaledDivisor(d: int, m: int, w: int, b: int)
    requires d >= 0 && m > 0 && w > 0 && b == w * m && (d / b) * m < b
    ensures ((d / b) * m) * b <= d * m < b * b
  {
    var d1 := d / b;
    HighWord(d, d1, b);
    CancelLess(d1, w, m);
    MulMono(d1 + 1, w, m);
    MulMono(d1 * b, d, m);
    ThreeFactors(d1, b, m);
    MulMono(d + 1, (d1 + 1) * b, m);
    assert (d + 1) * m == d * m + m;
    ThreeFactors(d1 + 1, b, m);
    MulMono((d1 + 1) * m, b, b);
  }

  /** Dividing half of any 64-bit number by a word with its top bit set cannot trap. */
  lemma HalfDividesInRange(n: U64, v: U32)
    requires TWO_31 <= v
    ensures (n / 2) / v < TWO_32
  {
    var t := (n / 2) / v;
    assert t * v <= n / 2;
    if t >= TWO_32 {
      MulMono(TWO_32, t, v);
    }
  }

  /** What `Udiv64` computes from the normalised divisor is in range for `divl`. */
  lemma NormalisedInRange(n: U64, d: U64, s: nat)
    requires s <= 31 && TWO_31 <= (d / TWO_32) * Pow2(s) < TWO_32
    ensures TWO_63 <= d * Pow2(s) < TWO_64
    ensures var v := ToU64(d * Pow2(s)) / TWO_32;
            TWO_31 <= v < TWO_32 && (n / 2) / v < TWO_32
            && v * TWO_32 <= d * Pow2(s) < (v + 1) * TWO_32
  {
    var m := Pow2(s);
    SplitWord(s);
    ScaledDivisor(d, m, 2 * Pow2(31 - s), TWO_32);
    var x := d * m;
    assert ToU64(x) == x;
    var v := x / TWO_32;
    HighWord(x, v, TWO_32);
    HalfDividesInRange(n, v);
  }

  /** The shifted 32-bit estimate is the true quotient or one more. */
  lemma EstimateOffByAtMostOne(n: U64, d: U64, s: nat, v: int, q: int)
    requires s <= 31 && TWO_31 <= v && TWO_63 <= d * Pow2(s)
    requires v * TWO_32 <= d * Pow2(s) < (v + 1) * TWO_32
    requires q == (n / 2) / v / Pow2(31 - s)
    ensures n / d <= q <= n / d + 1
  {
    var m, p := Pow2(s), Pow2(31 - s);
    EstimateIsQuotient(n, v, p, q);
    HighWord(n, n / d, d);
    BoundedError(n, d, s, v, q, n / d);
  }

  lemma BoundedError(n: int, d: int, s: nat, v: int, q: int, quotient: int)
    requires 0 <= n < TWO_64 && 0 < d && s <= 31 && TWO_31 <= v && TWO_63 <= d * Pow2(s)
    requires v * TWO_32 <= d * Pow2(s) < (v + 1) * TWO_32
    requires var w := 2 * Pow2(31 - s); q * (v * w) <= n < (q + 1) * (v * w)
    requires quotient * d <= n < (quotient + 1) * d
    ensures quotient <= q <= quotient + 1
  {
    var w := 2 * Pow2(31 - s);
    SplitWord(s);
    TruncatedDivisor(d, v, w, Pow2(s));
    QuotientBelow(n, d, Pow2(s), quotient);
    ErrorBound(s, v, quotient);
    MulMono(1, v, w);
    if quotient < 0 {
      MulMono(quotient + 1, 0, d);
    }
    SlightlySmallerDivisor(n, d, v * w, w - 1, q, quotient);
  }

  /** The last line of the wide case, in 64-bit unsigned arithmetic. */
  function Corrected(n: U64, d: U64, q: U64): U64 {
    if ToU64(n - ToU64(ToU64(q - 1) * d)) < d then ToU64(q - 1) else q
  }

  /** The final comparison, computed modulo 2^64, selects the true quotient from the candidates. */
  lemma CorrectionRepairs(n: U64, d: U64, q: U64)
    requires 0 < d <= n && n / d <= q <= n / d + 1
    ensures Corrected(n, d, q) == n / d
  {
    var quotient := n / d;
    HighWord(n, quotient, d);
    CancelLess(1, quotient + 1, d);
    assert q >= 1;
    var candidate := ToU64(q - 1);
    assert candidate == q - 1;
    MulMono(candidate, quotient, d);
    MulMono(0, candidate, d);
    var product := candidate * d;
    assert ToU64(product) == product;
    assert ToU64(n - product) == n - product;
    assert (quotient - 1) * d == quotient * d - d;
  }

  /** One step of schoolbook division in base `b`. */
  lemma SchoolbookStep(n1: int, n0: int, d: int, b: int, high: int, rem: int, low: int)
    requires d > 0 && 0 <= n0 < b && 0 <= rem < d
    requires n1 == high * d + rem
    requires low * d <= b * rem + n0 < (low + 1) * d
    ensures b * rem + n0 < d * b && low < b
    ensures (b * n1 + n0) / d == low + b * high
  {
    MulMono(rem + 1, d, b);
    CancelLess(low, b, d);
    assert b * n1 == b * (high * d) + b * rem;
    ThreeFactors(b, high, d);
    assert (low + b * high) * d == low * d + (b * high) * d;
    assert (low + b * high + 1) * d == (low + 1) * d + (b * high) * d;
    QuotientBetween(b * n1 + n0, d, low + b * high);
  }

  lemma RemainderBounds(x: int, d: int)
    requires d > 0
    ensures x == (x / d) * d + x % d && 0 <= x % d < d
  {}

  /** The two-digit schoolbook step used when the divisor fits in 32 bits. */
  lemma NarrowDivision(n: U64, d: U32, n1: U32, n0: U32, dividend: int)
    requires d != 0 && n1 == n / TWO_32 && n0 == n % TWO_32
    requires dividend == TWO_32 * (n1 % d) + n0
    ensures 0 <= dividend < TWO_64 && dividend / d < TWO_32
    ensures dividend / d + TWO_32 * (n1 / d) == n / d
  {
    RemainderBounds(n1, d);
    HighWord(dividend, dividend / d, d);
    SchoolbookStep(n1, n0, d, TWO_32, n1 / d, n1 % d, dividend / d);
    assert n == TWO_32 * n1 + n0;
  }

  /** udiv64: the quotient of any 64-bit division by a nonzero divisor, with every `divl` in range. */
  method Udiv64(n: U64, d: U64) returns (quotient: U64)
    requires d != 0
    ensures quotient == n / d
  {
    if d / TWO_32 == 0 {
      var n1: U32, n0: U32, d0: U32 := n / TWO_32, n % TWO_32, d % TWO_32;
      assert d0 == d;
      var rem, high := n1 % d0, n1 / d0;
      NarrowDivision(n, d0, n1, n0, TWO_32 * rem + n0);
      QuotientNotLarger(n, d);
      var low := Divl(TWO_32 * rem + n0, d0);
      quotient := ToU64(low + TWO_32 * high);
    } else if n < d {
      QuotientBetween(n, d, 0);
      quotient := 0;
    } else {
      var d1: U32 := d / TWO_32;
      var s := Nlz(d1);
      NormalisedInRange(n, d, s);
      var v: U32 := ToU64(d * Pow2(s)) / TWO_32;
      var estimate := Divl(n / 2, v);
      var q: U64 := ShiftRight(estimate, 31 - s);
      EstimateOffByAtMostOne(n, d, s, v, q);
      CorrectionRepairs(n, d, q);
      quotient := Corrected(n, d, q);
    }
  }

  /** Reduction modulo 2^64 forgets any multiple of 2^64 inside a computation. */
  lemma WrapSubtract(n: int, product: int)
    ensures ToU64(n - ToU64(product)) == ToU64(n - product)
  {
    ModAbsorbs(n - product, TWO_64, product / TWO_64);
    assert n - ToU64(product) == n - product + (product / TWO_64) * TWO_64;
  }

  lemma {:induction false} ModAbsorbs(x: int, m: int, k: int)
    requires m > 0
    ensures (x + k * m) % m == x % m
  {
    var q := (x + k * m) / m;
    assert (x / m + k) * m == (x / m) * m + k * m;
    QuotientBetween(x + k * m, m, x / m + k);
  }

  lemma RemainderFromQuotient(n: U64, d: U64, quotient: U64)
    requires d != 0 && quotient == n / d
    ensures ToU64(n - ToU64(d * quotient)) == n % d
  {
    var product := d * quotient;
    RemainderBounds(n, d);
    QuotientNotLarger(n, d);
    assert n - product == n % d;
    WrapSubtract(n, product);
  }

  lemma LowWord(x: U64)
    ensures 0 <= x % TWO_32 < TWO_32 && (x % TWO_32 == x <==> x < TWO_32)
  {}

  /** umod64 returns 32 bits: the low word of the remainder, hence the remainder itself exactly when
      that fits in 32 bits. */
  method Umod64(n: U64, d: U64) returns (r: U32)
    requires d != 0
    ensures r == (n % d) % TWO_32
    ensures r == n % d <==> n % d < TWO_32
  {
    var quotient := Udiv64(n, d);
    RemainderFromQuotient(n, d, quotient);
    var rem := ToU64(n - ToU64(d * quotient));
    LowWord(rem);
    r := rem % TWO_32;
  }

  function Abs(x: int): int { if x < 0 then -x else x }

  /** C's integer division: the quotient whose remainder is smaller than the divisor and has the
      sign of the dividend. */
  ghost predicate IsTruncatedQuotient(n: int, d: int, q: int)
    requires d != 0
  {
    var r := n - d * q;
    Abs(r) < Abs(d) && (n >= 0 ==> r >= 0) && (n <= 0 ==> r <= 0)
  }

  function TruncatedQuotient(n: int, d: int): int
    requires d != 0
  {
    if (n < 0) == (d < 0) then Abs(n) / Abs(d) else -(Abs(n) / Abs(d))
  }

  lemma TruncatedQuotientIs(n: int, d: int)
    requires d != 0
    ensures IsTruncatedQuotient(n, d, TruncatedQuotient(n, d))
  {
    var a, b := Abs(n), Abs(d);
    RemainderBounds(a, b);
    var t := a / b;
    SignedProduct(d, t);
    SignedProduct(d, -t);
    assert (-t) * b == -(t * b);
    assert TruncatedQuotient(n, d) == if (n < 0) == (d < 0) then t else -t;
  }

  lemma SignedProduct(d: int, t: int)
    ensures d * t == if d < 0 then -(t * Abs(d)) else t * Abs(d)
  {}

  lemma TruncatedQuotientUnique(n: int, d: int, q1: int, q2: int)
    requires d != 0 && IsTruncatedQuotient(n, d, q1) && IsTruncatedQuotient(n, d, q2)
    ensures q1 == q2
  {
    var p1, p2 := d * q1, d * q2;
    assert d * (q1 - q2) == p1 - p2;
    SmallMultiple(d, q1 - q2);
  }

  lemma SmallMultiple(d: int, k: int)
    requires -Abs(d) < d * k < Abs(d)
    ensures k == 0
  {
    var a: int := Abs(d);
    assert d * k == if d < 0 then (-k) * a else k * a;
    CancelLess(if d < 0 then -k else k, 1, a);
    CancelLess(-1, if d < 0 then -k else k, a);
  }

  /** The smallest 64-bit integer divided by -1 is the one quotient that does not fit. */
  lemma QuotientFits(n: S64, d: S64)
    requires d != 0
    ensures -TWO_63 <= TruncatedQuotient(n, d) <= TWO_63
    ensures TruncatedQuotient(n, d) == TWO_63 <==> n == -TWO_63 && d == -1
  {
    var a, b := Abs(n), Abs(d);
    QuotientNotLarger(a, b);
    if b >= 2 {
      HighWord(a, a / b, b);
      MulMono(2, b, a / b);
    } else {
      QuotientBetween(a, 1, a);
    }
  }

  /** sdiv64 truncates toward zero, except for the one pair whose quotient overflows. The final
      negation is taken to wrap: C leaves it undefined for a quotient of -2^63. */
  method Sdiv64(n: S64, d: S64) returns (q: S64)
    requires d != 0
    ensures q == ToS64(TruncatedQuotient(n, d))
    ensures IsTruncatedQuotient(n, d, q) <==> !(n == -TWO_63 && d == -1)
  {
    var nAbs := Magnitude(n);
    var dAbs := Magnitude(d);
    var qAbs := Udiv64(nAbs, dAbs);
    q := if (n < 0) == (d < 0) then ToS64(qAbs) else ToS64(0 - ToS64(qAbs));
    SignedQuotient(n, d, qAbs);
    WrappedQuotient(n, d);
  }

  /** The magnitude of a signed word, negated as an unsigned one. */
  function Magnitude(x: S64): (m: U64)
    ensures m == Abs(x)
  {
    if x >= 0 then ToU64(x) else ToU64(0 - ToU64(x))
  }

  lemma SignedQuotient(n: S64, d: S64, qAbs: U64)
    requires d != 0 && qAbs == Abs(n) / Abs(d)
    ensures (if (n < 0) == (d < 0) then ToS64(qAbs) else ToS64(0 - ToS64(qAbs))) == ToS64(TruncatedQuotient(n, d))
  {
    NegationWraps(qAbs);
  }

  lemma NegationWraps(u: int)
    ensures ToS64(0 - ToS64(u)) == ToS64(-u)
  {
    var k := u / TWO_64;
    assert ToS64(u) == u - k * TWO_64 || ToS64(u) == u - (k + 1) * TWO_64;
    ModAbsorbs(-u, TWO_64, k);
    ModAbsorbs(-u, TWO_64, k + 1);
  }

  lemma WrappedQuotient(n: S64, d: S64)
    requires d != 0
    ensures IsTruncatedQuotient(n, d, ToS64(TruncatedQuotient(n, d))) <==> !(n == -TWO_63 && d == -1)
  {
    var t := TruncatedQuotient(n, d);
    QuotientFits(n, d);
    TruncatedQuotientIs(n, d);
    if t == TWO_63 && IsTruncatedQuotient(n, d, -TWO_63) {
      TruncatedQuotientUnique(n, d, -TWO_63, t);
    }
  }

  function Remainder(n: int, d: int): int
    requires d != 0
  {
    n - d * TruncatedQuotient(n, d)
  }

  lemma RemainderSmall(n: S64, d: S64)
    requires d != 0
    ensures -TWO_63 < Remainder(n, d) < TWO_63
    ensures (n == -TWO_63 && d == -1) ==> Remainder(n, d) == 0
  {
    TruncatedQuotientIs(n, d);
    if n == -TWO_63 && d == -1 {
      QuotientFits(n, d);
    }
  }

  /** smod64 returns 32 bits: the true remainder exactly when that fits, for every pair of operands,
      including the pair on which the quotient overflows. */
  method Smod64(n: S64, d: S64) returns (r: S32)
    requires d != 0
    ensures r == ToS32(Remainder(n, d))
    ensures r == Remainder(n, d) <==> -TWO_31 <= Remainder(n, d) < TWO_31
  {
    var q := Sdiv64(n, d);
    WrappedRemainder(n, d, q);
    r := ToS32(ToS64(n - ToS64(d * q)));
  }

  lemma WrappedRemainder(n: S64, d: S64, q: S64)
    requires d != 0 && q == ToS64(TruncatedQuotient(n, d))
    ensures ToS64(n - ToS64(d * q)) == Remainder(n, d)
  {
    RemainderSmall(n, d);
    QuotientFits(n, d);
    if n == -TWO_63 && d == -1 {
      assert q == -TWO_63;
    } else {
      assert q == TruncatedQuotient(n, d);
      SignedWrapSubtract(n, d * q);
    }
  }

  lemma SignedWrapSubtract(n: S64, product: int)
    requires -TWO_63 <= n - product < TWO_63
    ensures ToS64(n - ToS64(product)) == n - product
  {
    var k := product / TWO_64;
    assert ToS64(product) == product - k * TWO_64 || ToS64(product) == product - (k + 1) * TWO_64;
    ModAbsorbs(n - product, TWO_64, k);
    ModAbsorbs(n - product, TWO_64, k + 1);
  }
}
