/**
 * Java's fixed-width integer ranges and its integer division, which truncates
 * toward zero (Dafny's `/` on `int` is Euclidean).
 */
module JavaMath {

  const INT32_MIN: int := -0x8000_0000
  const INT32_MAX: int := 0x7fff_ffff
  const INT64_MIN: int := -0x8000_0000_0000_0000
  const INT64_MAX: int := 0x7fff_ffff_ffff_ffff

  type int32 = x: int | INT32_MIN <= x <= INT32_MAX
  type int64 = x: int | INT64_MIN <= x <= INT64_MAX

  predicate IsInt32(x: int) {
    INT32_MIN <= x <= INT32_MAX
  }

  /** Java's `a / b` for a positive divisor: the quotient rounded toward zero. */
  function TruncDiv(a: int, b: int): (q: int)
    requires b > 0
    ensures a >= 0 ==> 0 <= q && q * b <= a < q * b + b
    ensures a < 0 ==> q <= 0 && q * b - b < a <= q * b
  {
    if a >= 0 then DivBounds(a, b); a / b else DivBounds(-a, b); -((-a) / b)
  }

  /** Euclidean division of a non-negative number by a positive one. */
  lemma DivBounds(a: int, b: int)
    requires a >= 0 && b > 0
    ensures 0 <= a / b && (a / b) * b <= a < (a / b) * b + b
  {
    var q, r := a / b, a % b;
    assert a == b * q + r && 0 <= r < b;
    assert b * q == q * b;
  }

  /** The quotient is fixed by the bounds TruncDiv promises. */
  lemma TruncDivUnique(a: int, b: int, q: int)
    requires b > 0
    requires a >= 0 ==> 0 <= q && q * b <= a < q * b + b
    requires a < 0 ==> q <= 0 && q * b - b < a <= q * b
    ensures TruncDiv(a, b) == q
  {
    var r := TruncDiv(a, b);
    if r < q {
      MulMonotone(r + 1, q, b);
    } else if q < r {
      MulMonotone(q + 1, r, b);
    }
  }

  lemma MulMonotone(x: int, y: int, b: int)
    requires x <= y && b >= 0
    ensures x * b <= y * b
  {
    assert y * b - x * b == (y - x) * b;
  }

  /** Truncating division never reverses the order of two numerators. */
  lemma TruncDivMonotone(a1: int, a2: int, b: int)
    requires b > 0 && a1 <= a2
    ensures TruncDiv(a1, b) <= TruncDiv(a2, b)
  {
    var q1, q2 := TruncDiv(a1, b), TruncDiv(a2, b);
    if q1 > q2 {
      MulMonotone(q2 + 1, q1, b);
    }
  }

  /** Truncating division by a million steps by one per million added, while the numerator keeps its side of zero. */
  lemma TruncDivShiftMillion(a: int, k: int)
    requires (a >= 0 && a + 1_000_000 * k >= 0) || (a <= 0 && a + 1_000_000 * k <= 0)
    ensures TruncDiv(a + 1_000_000 * k, 1_000_000) == TruncDiv(a, 1_000_000) + k
  {
    TruncDivUnique(a + 1_000_000 * k, 1_000_000, TruncDiv(a, 1_000_000) + k);
  }

  const TWO_TO_THE_32: int := 0x1_0000_0000

  /** Java's `(int)` cast of a long: keeps the low 32 bits, read as two's complement. */
  function NarrowToInt32(x: int): (r: int32)
    ensures IsInt32(x) ==> r == x
    ensures (x - r) % TWO_TO_THE_32 == 0
  {
    var low := (x - INT32_MIN) % TWO_TO_THE_32;
    assert x - INT32_MIN == TWO_TO_THE_32 * ((x - INT32_MIN) / TWO_TO_THE_32) + low;
    assert IsInt32(x) ==> (x - INT32_MIN) / TWO_TO_THE_32 == 0;
    low + INT32_MIN
  }
}
