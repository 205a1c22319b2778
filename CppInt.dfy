/**
 * The parts of C++ `int` arithmetic that the vector operators rely on:
 * division that truncates toward zero, and the range of a `w`-bit
 * two's-complement `int` (16 bits on AVR-based Arduino boards, 32 on most
 * others). Dafny's own `/` is Euclidean and its `int` is unbounded, so both
 * are written out here.
 */
module CppInt {

  function Abs(n: int): (r: nat)
    ensures r == n || r == -n
  {
    if n < 0 then -n else n
  }

  /** True when `r` may be the remainder of a C++ division of `a`: it is zero
      or, for a non-zero dividend, carries the dividend's sign. */
  predicate RemainderSign(r: int, a: int) {
    r == 0 || (a != 0 && (r < 0 <==> a < 0))
  }

  /** C++ `a / b` on `int`: the quotient of the magnitudes, negated when the
      operands have opposite signs (truncation toward zero). */
  function TruncDiv(a: int, b: int): (q: int)
    requires b != 0
  {
    if (a < 0) == (b < 0) then Abs(a) / Abs(b) else -(Abs(a) / Abs(b))
  }

  lemma MulMonotone(m: nat, d: nat)
    requires d >= 1
    ensures m <= m * d
  {
    assert m * d == m + m * (d - 1);
  }

  lemma MulNeg(x: int, y: int)
    ensures (-x) * y == -(x * y) && x * (-y) == -(x * y)
  {
  }

  lemma MulAbs(x: int, y: int)
    ensures Abs(x * y) == Abs(x) * Abs(y)
  {
    if x < 0 && y < 0 {
      MulNeg(-x, y);
      MulNeg(-x, -y);
    } else if x < 0 {
      MulNeg(-x, y);
    } else if y < 0 {
      MulNeg(x, -y);
    }
  }

  /** The quotient times the divisor is the largest multiple of |b| not
      above |a|, carrying the sign of `a`. */
  lemma QuotientTimesDivisor(a: int, b: int)
    requires b != 0
    ensures TruncDiv(a, b) * b
         == (if a < 0 then -(Abs(a) / Abs(b) * Abs(b)) else Abs(a) / Abs(b) * Abs(b))
  {
    var m: int, d := Abs(a) / Abs(b), Abs(b);
    if b < 0 {
      MulNeg(TruncDiv(a, b), d);
      if a < 0 { MulNeg(m, d); }
    } else if a < 0 {
      MulNeg(m, d);
    }
  }

  /** Euclidean division of naturals: `n / d` times `d` lies within `d` below `n`. */
  lemma NatDivBounds(n: nat, d: nat)
    requires d > 0
    ensures 0 <= (n / d) * d <= n < (n / d) * d + d
  {
    assert n == (n / d) * d + n % d;
  }

  /** What C++ promises of `a / b`: the remainder `a - (a / b) * b` is smaller
      than the divisor in magnitude and is zero or has the dividend's sign. */
  lemma TruncDivSpec(a: int, b: int)
    requires b != 0
    ensures Abs(a - TruncDiv(a, b) * b) < Abs(b)
    ensures RemainderSign(a - TruncDiv(a, b) * b, a)
  {
    NatDivBounds(Abs(a), Abs(b));
    QuotientTimesDivisor(a, b);
  }

  /** The quotient is no larger than the dividend in magnitude, and strictly
      smaller when the dividend is non-zero and the divisor is not 1 or -1. */
  lemma TruncDivShrinks(a: int, b: int)
    requires b != 0
    ensures Abs(TruncDiv(a, b)) <= Abs(a)
    ensures Abs(b) > 1 && a != 0 ==> Abs(TruncDiv(a, b)) < Abs(a)
  {
    var n, d := Abs(a), Abs(b);
    var m: nat := n / d;
    NatDivBounds(n, d);
    assert Abs(TruncDiv(a, b)) == m;
    MulMonotone(m, d);
    if d > 1 && a != 0 {
      MulMonotone(m, d - 1);
      assert m * d == m * (d - 1) + m;
    }
  }

  /** A non-zero multiple of `b` is at least as large as `b` in magnitude. */
  lemma NonZeroMultiple(k: int, b: int)
    requires k != 0
    ensures Abs(b) <= Abs(k * b)
  {
    MulAbs(k, b);
    MulMonotone(Abs(b), Abs(k));
  }

  lemma MulSubDistributes(q: int, t: int, b: int)
    ensures (q - t) * b == q * b - t * b
  {
  }

  /** Two remainders on the same side of zero, each smaller than `d`, are
      less than `d` apart. */
  lemma SameSideClose(r1: int, r2: int, a: int, d: int)
    requires Abs(r1) < d && Abs(r2) < d
    requires RemainderSign(r1, a) && RemainderSign(r2, a)
    ensures Abs(r2 - r1) < d
  {
  }

  /** The truncating quotient is the only quotient whose remainder is smaller
      than the divisor and has the dividend's sign. */
  lemma TruncDivUnique(a: int, b: int, q: int)
    requires b != 0
    requires Abs(a - q * b) < Abs(b)
    requires RemainderSign(a - q * b, a)
    ensures q == TruncDiv(a, b)
  {
    var t := TruncDiv(a, b);
    TruncDivSpec(a, b);
    // The two remainders are less than |b| apart, and they differ by the
    // multiple (q - t) * b, which is at least |b| unless q == t.
    SameSideClose(a - q * b, a - t * b, a, Abs(b));
    MulSubDistributes(q, t, b);
    if q != t {
      NonZeroMultiple(q - t, b);
    }
  }

  /** Dividing an exact multiple gives back the factor: `(a * b) / b == a`. */
  lemma MulTruncDivCancel(a: int, b: int)
    requires b != 0
    ensures TruncDiv(a * b, b) == a
  {
    TruncDivUnique(a * b, b, a);
  }

  /** Dividing by -1 negates. */
  lemma TruncDivMinusOne(a: int)
    ensures TruncDiv(a, -1) == -a
  {
    TruncDivUnique(a, -1, -a);
  }

  /** Dividing by 1 changes nothing. */
  lemma TruncDivOne(a: int)
    ensures TruncDiv(a, 1) == a
  {
    TruncDivUnique(a, 1, a);
  }

  /** The number of bits in an `int`. */
  type Width = w: nat | w >= 1 witness 16

  function Pow2(n: nat): (p: nat)
    ensures p >= 1
  {
    if n == 0 then 1 else 2 * Pow2(n - 1)
  }

  /** Smallest and largest `int` of width `w`. */
  function IntMin(w: Width): (m: int)
    ensures m < 0
  {
    -(Pow2(w - 1) as int)
  }

  function IntMax(w: Width): (m: int)
    ensures m >= 0 && m == -IntMin(w) - 1
  {
    Pow2(w - 1) - 1
  }

  /** The 16-bit `int` of AVR-based Arduino boards. */
  lemma Range16()
    ensures IntMin(16) == -32768 && IntMax(16) == 32767
  {
    assert Pow2(8) == 256;
    assert Pow2(15) == 32768;
  }

  /** `n` is a value of a `w`-bit `int`; a C++ arithmetic result outside this
      range is undefined behaviour. */
  predicate Fits(n: int, w: Width) {
    IntMin(w) <= n <= IntMax(w)
  }

  /** What a platform that wraps on overflow would store for the exact
      result `n`: `n` reduced modulo 2^w into the `w`-bit range. */
  function Wrap(n: int, w: Width): (r: int)
    ensures Fits(r, w)
    ensures (r - n) % Pow2(w) == 0
  {
    Pow2Split(w);
    ModFacts(n - IntMin(w), Pow2(w));
    IntMin(w) + (n - IntMin(w)) % Pow2(w)
  }

  /** The `w`-bit range holds exactly 2^w values. */
  lemma Pow2Split(w: Width)
    ensures Pow2(w) == IntMax(w) - IntMin(w) + 1
  {
  }

  /** `k % m` lies in `[0, m)`, differs from `k` by a multiple of `m`, and is
      `k` itself when `k` already lies in `[0, m)`. */
  lemma ModFacts(k: int, m: int)
    requires m > 0
    ensures 0 <= k % m < m
    ensures (k % m - k) % m == 0
    ensures 0 <= k < m ==> k % m == k
  {
    var q := k / m;
    assert k == q * m + k % m;
    MultipleMod(-q, m);
    assert k % m - k == (-q) * m;
  }

  lemma MultipleMod(q: int, m: int)
    requires m > 0
    ensures (q * m) % m == 0
  {
    var r := (q * m) % m;
    var p := (q * m) / m;
    assert q * m == p * m + r && 0 <= r < m;
    assert (q - p) * m == r by { MulSubDistributes(q, p, m); }
    if q != p {
      NonZeroMultiple(q - p, m);
    }
  }

  /** An exact result is representable exactly when wrapping it would leave
      it unchanged: outside the range, a wrapping platform stores a different
      value. */
  lemma {:induction false} FitsIffWrapExact(n: int, w: Width)
    ensures Fits(n, w) <==> Wrap(n, w) == n
  {
    Pow2Split(w);
    ModFacts(n - IntMin(w), Pow2(w));
  }

  /** The only quotient of two in-range `int`s that leaves the range is
      `IntMin(w) / -1`. */
  lemma {:induction false} TruncDivFits(a: int, b: int, w: Width)
    requires Fits(a, w) && b != 0
    ensures Fits(TruncDiv(a, b), w) <==> !(a == IntMin(w) && b == -1)
  {
    if b == -1 {
      TruncDivMinusOne(a);
    } else if b == 1 {
      TruncDivOne(a);
    } else {
      // |b| >= 2, so the quotient is strictly smaller than a non-zero dividend.
      TruncDivShrinks(a, b);
    }
  }
}
