/**
 The 18-digit decimals of cosmossdk.io/math: an integer counting units of 10^-18.
 Mul and Quo round half to even, QuoInt truncates towards zero. The bit-length panics
 of the library are not modelled.
 */
module Decimals {

  type Dec = int

  const ONE: int := 1_000_000_000_000_000_000
  const HALF: int := 500_000_000_000_000_000

  /** Integer division rounding towards zero, as Go's and big.Int's Quo do. */
  function TruncDiv(a: int, b: int): int
    requires b != 0
  {
    if a >= 0 then a / b else -((-a) / b)
  }

  /** Drops 18 digits, rounding half to even and symmetrically around zero. */
  function ChopRound(x: int): (r: int)
  {
    if x < 0 then -ChopRoundNat(-x) else ChopRoundNat(x)
  }

  function ChopRoundNat(x: nat): int {
    var q, m := x / ONE, x % ONE;
    if m < HALF || (m == HALF && q % 2 == 0) then q else q + 1
  }

  function Mul(a: Dec, b: Dec): Dec {
    ChopRound(a * b)
  }

  function Quo(a: Dec, b: Dec): Dec
    requires b != 0
  {
    ChopRound(TruncDiv(a * (ONE * ONE), b))
  }

  function QuoInt(a: Dec, n: int): Dec
    requires n != 0
  {
    TruncDiv(a, n)
  }

  function FromInt(n: int): Dec {
    n * ONE
  }

  function Truncate(a: Dec): int {
    TruncDiv(a, ONE)
  }

  // ---------- division towards zero

  lemma MulGap(d: int, x: int, y: int)
    requires d > 0 && x > y
    ensures d * x >= d * y + d
  {
    var k := x - y - 1;
    assert d * x == d * y + d + d * k;
    assert d * k >= 0;
  }

  /** The greatest q with d * q <= a is a / d. */
  lemma DivAtLeast(a: int, d: int, q: int)
    requires d > 0 && d * q <= a
    ensures q <= a / d
  {
    assert a == d * (a / d) + a % d;
    if q > a / d {
      MulGap(d, q, a / d);
      assert false;
    }
  }

  lemma DivMonotone(a: int, b: int, d: int)
    requires d > 0 && a <= b
    ensures a / d <= b / d
  {
    assert a == d * (a / d) + a % d;
    DivAtLeast(b, d, a / d);
  }

  lemma TruncDivMonotone(a: int, b: int, d: int)
    requires d > 0 && a <= b
    ensures TruncDiv(a, d) <= TruncDiv(b, d)
  {
    if a >= 0 {
      DivMonotone(a, b, d);
    } else if b < 0 {
      DivMonotone(-b, -a, d);
    } else {
      DivMonotone(0, -a, d);
      DivMonotone(0, b, d);
    }
  }

  lemma DivAntitone(a: int, d: int, e: int)
    requires a >= 0 && 0 < d <= e
    ensures 0 <= a / e <= a / d
  {
    var q := a / e;
    assert a == e * q + a % e;
    DivAtLeast(a, e, 0);
    assert d * q <= e * q;
    DivAtLeast(a, d, q);
  }

  // ---------- rounding

  /** The rounded value is a nearest multiple. */
  lemma ChopRoundNearest(x: int)
    ensures -HALF <= ChopRound(x) * ONE - x <= HALF
    ensures x >= 0 ==> ChopRound(x) >= 0
    ensures x <= 0 ==> ChopRound(x) <= 0
  {
  }

  /** Nearest, and even when two multiples are equally near: this determines it. */
  lemma ChopRoundUnique(x: int, r: int)
    requires -HALF <= r * ONE - x <= HALF
    requires (r * ONE - x == HALF || r * ONE - x == -HALF) ==> r % 2 == 0
    ensures r == ChopRound(x)
  {
    ChopRoundTies(x);
  }

  lemma ChopRoundTies(x: int)
    ensures -HALF <= ChopRound(x) * ONE - x <= HALF
    ensures ChopRound(x) * ONE - x == HALF || ChopRound(x) * ONE - x == -HALF ==> ChopRound(x) % 2 == 0
  {
    var y := if x < 0 then -x else x;
    assert y == ONE * (y / ONE) + y % ONE;
  }

  lemma ChopRoundMonotone(x: int, y: int)
    requires x <= y
    ensures ChopRound(x) <= ChopRound(y)
  {
    ChopRoundTies(x);
    ChopRoundTies(y);
  }

  lemma ChopRoundExact(n: int)
    ensures ChopRound(n * ONE) == n
  {
    ChopRoundUnique(n * ONE, n);
  }

  // ---------- products

  lemma MulMonotone(a: Dec, b: Dec, c: Dec)
    requires a <= b && c >= 0
    ensures Mul(a, c) <= Mul(b, c)
  {
    assert a * c <= b * c;
    ChopRoundMonotone(a * c, b * c);
  }

  lemma MulCommutes(a: Dec, b: Dec)
    ensures Mul(a, b) == Mul(b, a)
  {
  }

  /** Multiplying by a whole number is exact. */
  lemma MulWhole(n: int, b: Dec)
    ensures Mul(FromInt(n), b) == n * b
  {
    assert FromInt(n) * b == (n * b) * ONE;
    ChopRoundExact(n * b);
  }

  lemma MulOne(b: Dec)
    ensures Mul(ONE, b) == b && Mul(b, ONE) == b
  {
    ChopRoundExact(b);
  }

  lemma MulNonNegative(a: Dec, b: Dec)
    requires a >= 0 && b >= 0
    ensures Mul(a, b) >= 0
  {
    assert a * b >= 0;
  }

  // ---------- quotients

  lemma QuoMonotone(a: Dec, b: Dec, d: Dec)
    requires a <= b && d > 0
    ensures Quo(a, d) <= Quo(b, d)
  {
    assert a * (ONE * ONE) <= b * (ONE * ONE);
    TruncDivMonotone(a * (ONE * ONE), b * (ONE * ONE), d);
    ChopRoundMonotone(TruncDiv(a * (ONE * ONE), d), TruncDiv(b * (ONE * ONE), d));
  }

  lemma QuoAntitone(a: Dec, d: Dec, e: Dec)
    requires a >= 0 && 0 < d <= e
    ensures 0 <= Quo(a, e) <= Quo(a, d)
  {
    DivAntitone(a * (ONE * ONE), d, e);
    ChopRoundMonotone(a * (ONE * ONE) / e, a * (ONE * ONE) / d);
    ChopRoundNearest(a * (ONE * ONE) / e);
  }

  lemma QuoSelf(d: Dec)
    requires d > 0
    ensures Quo(d, d) == ONE
  {
    DivExact(ONE * ONE, d);
    assert d * (ONE * ONE) == (ONE * ONE) * d;
    ChopRoundExact(ONE);
  }

  lemma DivExact(n: int, d: int)
    requires d > 0
    ensures (n * d) / d == n
  {
    var q := (n * d) / d;
    assert n * d == d * q + (n * d) % d;
    DivAtLeast(n * d, d, n);
    if q > n {
      MulGap(d, q, n);
      assert false;
    }
  }

  lemma QuoZero(d: Dec)
    requires d != 0
    ensures Quo(0, d) == 0
  {
    assert 0 * (ONE * ONE) == 0;
    assert 0 / d == 0;
  }

  lemma QuoNonNegative(a: Dec, d: Dec)
    requires a >= 0 && d > 0
    ensures Quo(a, d) >= 0
  {
    QuoZero(d);
    QuoMonotone(0, a, d);
  }

  // ---------- how near the rounded results are

  /** c is a * b to the nearest unit. */
  predicate IsProduct(c: Dec, a: Dec, b: Dec) {
    -HALF <= c * ONE - a * b <= HALF
  }

  /** c is a / b within half a unit, and one part in 10^18 for the digits cut off before rounding. */
  predicate IsQuotient(c: Dec, a: Dec, b: Dec) {
    b > 0 && -(b * (ONE + 2)) <= 2 * ONE * (c * b - a * ONE) <= b * (ONE + 2)
  }

  /** c is a / n cut off towards zero. */
  predicate IsCutQuotient(c: int, a: int, n: int) {
    n > 0 && if a >= 0 then n * c <= a < n * (c + 1) else n * (c - 1) < a <= n * c
  }

  lemma MulNearest(a: Dec, b: Dec)
    ensures IsProduct(Mul(a, b), a, b)
  {
    ChopRoundNearest(a * b);
  }

  lemma QuoIntCut(a: Dec, n: int)
    requires n > 0
    ensures IsCutQuotient(QuoInt(a, n), a, n)
  {
    if a >= 0 {
      assert a == n * (a / n) + a % n;
      assert n * (a / n + 1) == n * (a / n) + n;
    } else {
      var q := (-a) / n;
      assert -a == n * q + (-a) % n;
      assert n * (-q - 1) == -(n * q) - n && n * (-q) == -(n * q);
    }
  }

  lemma QuoNearest(a: Dec, b: Dec)
    requires b > 0
    ensures IsQuotient(Quo(a, b), a, b)
  {
    hide ChopRound, TruncDiv;
    var n := a * (ONE * ONE);
    var t, c := TruncDiv(n, b), Quo(a, b);
    QuoIntCut(n, b);
    CutGap(t, n, b);
    ChopRoundNearest(t);
    ScaledGap(c * ONE - t, b);
    Distribute(b, c, t);
    QuotientGap(a, c * b, b, b * t, b * (c * ONE - t));
  }

  lemma CutGap(t: int, n: int, b: int)
    requires IsCutQuotient(t, n, b)
    ensures -b < b * t - n < b
  {
    assert b * (t + 1) == b * t + b;
    assert b * (t - 1) == b * t - b;
  }

  lemma Distribute(b: int, c: int, t: int)
    ensures b * (c * ONE - t) == (c * b) * ONE - b * t
  {
  }

  lemma QuotientGap(a: int, cb: int, b: int, bt: int, bg: int)
    requires -b < bt - a * (ONE * ONE) < b && -(b * ONE) <= 2 * bg <= b * ONE && bg == cb * ONE - bt
    ensures -(b * (ONE + 2)) <= 2 * ONE * (cb - a * ONE) <= b * (ONE + 2)
  {
  }

  lemma ScaledGap(g: int, b: int)
    requires -HALF <= g <= HALF && b > 0
    ensures -(b * ONE) <= 2 * (b * g) <= b * ONE
  {
    ScaleMonotone(b, g, HALF);
    ScaleMonotone(b, -HALF, g);
  }

  lemma ScaleMonotone(b: int, x: int, y: int)
    requires b >= 0 && x <= y
    ensures b * x <= b * y
  {
  }
}
