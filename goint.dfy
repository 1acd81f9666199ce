/** Go's fixed-width signed integers over Dafny's unbounded `int`:
    two's-complement wrap-around and division that truncates toward zero. */
module GoInt {

  const TwoTo31: int := 0x8000_0000
  const TwoTo32: int := 0x1_0000_0000
  const MinInt32: int := -0x8000_0000
  const MaxInt32: int := 0x7fff_ffff

  const TwoTo63: int := 0x8000_0000_0000_0000
  const TwoTo64: int := 0x1_0000_0000_0000_0000
  const MinInt64: int := -0x8000_0000_0000_0000
  const MaxInt64: int := 0x7fff_ffff_ffff_ffff

  predicate IsInt32(x: int) { MinInt32 <= x <= MaxInt32 }

  predicate IsInt64(x: int) { MinInt64 <= x <= MaxInt64 }

  function Abs(x: int): nat { if x < 0 then -x else x }

  /** The value an `int32` holds after a conversion `int32(x)` or after an
      arithmetic operation whose exact result is `x`. */
  function Wrap32(x: int): (r: int)
    ensures IsInt32(r)
    ensures (x - r) % TwoTo32 == 0
    ensures IsInt32(x) ==> r == x
  {
    (x + TwoTo31) % TwoTo32 - TwoTo31
  }

  /** The value a 64-bit Go `int` holds after an operation whose exact result is `x`. */
  function Wrap64(x: int): (r: int)
    ensures IsInt64(r)
    ensures (x - r) % TwoTo64 == 0
    ensures IsInt64(x) ==> r == x
  {
    (x + TwoTo63) % TwoTo64 - TwoTo63
  }

  /** Go's `/` on integers: the quotient rounded toward zero. */
  function Quot(a: int, d: int): (q: int)
    requires d != 0
    ensures a >= 0 && d > 0 ==> q == a / d
  {
    if a >= 0 then
      if d > 0 then a / d else -(a / -d)
    else
      if d > 0 then -((-a) / d) else (-a) / (-d)
  }

  /** The remainder of Go's division is smaller than the divisor in magnitude and takes the
      sign of the dividend. */
  lemma QuotRemainder(a: int, d: int)
    requires d != 0
    ensures Abs(a - Quot(a, d) * d) < Abs(d)
    ensures a >= 0 ==> a - Quot(a, d) * d >= 0
    ensures a <= 0 ==> a - Quot(a, d) * d <= 0
  {
    var b: int, e: int := Abs(a), Abs(d);
    DivDecompose(b, e);
    QuotTimesDivisor(a, d);
  }

  /** Euclidean division of a non-negative number by a positive one. */
  lemma DivDecompose(b: int, e: int)
    requires b >= 0 && e > 0
    ensures b == (b / e) * e + b % e && 0 <= b % e < e && b / e >= 0
  {
  }

  /** The truncated quotient times the divisor is the magnitudes' quotient times the divisor's
      magnitude, with the sign of the dividend. */
  lemma QuotTimesDivisor(a: int, d: int)
    requires d != 0
    ensures Quot(a, d) * d == if a >= 0 then (Abs(a) / Abs(d)) * Abs(d) else -((Abs(a) / Abs(d)) * Abs(d))
  {
    var r := Abs(a) / Abs(d);
    if a >= 0 && d > 0 {
    } else if a >= 0 {
      NegTimesNeg(r, Abs(d));
    } else if d > 0 {
      NegTimes(r, Abs(d));
    } else {
      NegTimes(Abs(d), r);
      assert r * d == d * r;
    }
  }

  lemma NegTimesNeg(x: int, y: int)
    ensures (-x) * (-y) == x * y
  {
  }

  lemma NegTimes(x: int, y: int)
    ensures (-x) * y == -(x * y)
  {
  }

  /** `int32` division: truncating, and wrapping in the single overflowing case MinInt32 / -1. */
  function Quot32(a: int, d: int): (q: int)
    requires d != 0
    ensures IsInt32(q)
    ensures 0 <= a <= MaxInt32 && d > 0 ==> q == a / d
  {
    DivAtMost(a, d);
    Wrap32(Quot(a, d))
  }

  /** Dividing a non-negative number by a positive one does not make it larger. */
  lemma DivAtMost(a: int, d: int)
    ensures a >= 0 && d > 0 ==> 0 <= a / d <= a
  {
    if a >= 0 && d > 0 {
      DivDecompose(a, d);
      MulGrows(a / d, d);
    }
  }

  lemma MulGrows(q: int, d: int)
    requires q >= 0 && d >= 1
    ensures q <= q * d
  {
    assert q * d == q + q * (d - 1);
  }

  /** Wrapping is compatible with addition: an int64 running sum equals the wrapped exact sum. */
  lemma Wrap64Add(x: int, y: int)
    ensures Wrap64(Wrap64(x) + y) == Wrap64(x + y)
  {
    var k := (x - Wrap64(x)) / TwoTo64;
    assert x == Wrap64(x) + k * TwoTo64;
    ModShift(Wrap64(x) + y + TwoTo63, k);
  }

  lemma ModShift(a: int, k: int)
    ensures (a + k * TwoTo64) % TwoTo64 == a % TwoTo64
  {
  }
}
