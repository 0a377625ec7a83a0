/**
  The integer semantics of C that the clock controller relies on, written out
  because Dafny's `/` and `%` are Euclidean and its integers are unbounded.

  - `CDiv` and `CRem` are C's `/` and `%` on `int`: the quotient truncates
    toward zero and the remainder takes the sign of the dividend
    (section 6.5.5 of ISO/IEC 9899:2011).
  - `ToUint32` is the conversion of a wider integer to `uint32_t` (reduction
    modulo 2^32, section 6.3.1.3).
  - `ToInt32` is the conversion of an out-of-range value to a 32-bit `int`
    as two's complement targets perform it (wrap-around modulo 2^32).
 */
module CArith {

  const Two32: int := 0x1_0000_0000
  const Two31: int := 0x8000_0000

  type U32 = x: int | 0 <= x < 0x1_0000_0000

  /** C's truncating quotient `a / b`, for the positive divisors the core uses. */
  function CDiv(a: int, b: int): (r: int)
    requires b > 0
    ensures a >= 0 ==> r == a / b
    ensures a >= 0 ==> 0 <= r <= a
    ensures a < 0 ==> a <= r <= 0
  {
    DivBounds(if a >= 0 then a else -a, b);
    if a >= 0 then a / b else -((-a) / b)
  }

  /** C's remainder `a % b`: same sign as `a`, magnitude below `b`. */
  function CRem(a: int, b: int): (r: int)
    requires b > 0
    ensures -b < r < b
    ensures a >= 0 ==> r == a % b
    ensures a < 0 ==> r <= 0
  {
    if a >= 0 then a % b else -((-a) % b)
  }

  lemma MulAtLeast(k: int, b: int)
    requires k >= 1 && b > 0
    ensures k * b >= b
  {
    assert k * b == (k - 1) * b + b;
  }

  /** The quotient of a non-negative number lies between 0 and the number itself. */
  lemma DivBounds(n: int, b: int)
    requires n >= 0 && b > 0
    ensures 0 <= n / b <= n
  {
    var q, m := n / b, n % b;
    assert q * b + m == n;
    if q < 0 {
      MulAtLeast(-q, b);
    } else if q > n {
      MulAtLeast(b, q);
    }
  }

  /** Euclidean quotient and remainder are the only pair that recombines with `0 <= r < b`. */
  lemma EuclidUnique(a: int, b: int, q: int, r: int)
    requires b > 0 && a == q * b + r && 0 <= r < b
    ensures a / b == q && a % b == r
  {
    var q0, r0 := a / b, a % b;
    assert a == q0 * b + r0;
    assert (q0 - q) * b == r - r0 by {
      assert (q0 - q) * b == q0 * b - q * b;
    }
    if q0 > q {
      MulAtLeast(q0 - q, b);
    } else if q0 < q {
      MulAtLeast(q - q0, b);
    }
  }

  /** Quotient and remainder recombine to the dividend, as C requires of `/` and `%`. */
  lemma DivRemRecombine(a: int, b: int)
    requires b > 0
    ensures CDiv(a, b) * b + CRem(a, b) == a
    ensures a >= 0 ==> CDiv(a, b) == a / b && CDiv(a, b) >= 0
  {
    if a >= 0 {
      var q, m := a / b, a % b;
      assert q * b + m == a;
      if q < 0 {
        MulAtLeast(-q, b);
      }
    } else {
      var q, m := (-a) / b, (-a) % b;
      assert q * b + m == -a;
      assert (-q) * b == -(q * b);
      assert CDiv(a, b) * b + CRem(a, b) == (-q) * b - m;
    }
  }

  /**
    For a negative dividend, C's remainder and the Euclidean one differ by
    exactly `b` unless `b` divides `a`.
   */
  lemma CRemNegative(a: int, b: int)
    requires b > 0 && a < 0
    ensures a % b == 0 ==> CRem(a, b) == 0
    ensures a % b != 0 ==> CRem(a, b) == a % b - b
  {
    var q, m := (-a) / b, (-a) % b;
    assert -a == q * b + m;
    assert (-q) * b == -(q * b);
    if m == 0 {
      EuclidUnique(a, b, -q, 0);
    } else {
      assert (-q - 1) * b == (-q) * b - b;
      EuclidUnique(a, b, -q - 1, b - m);
    }
  }

  /** Conversion to `uint32_t`. */
  function ToUint32(x: int): (r: U32)
    ensures (r - x) % Two32 == 0
    ensures 0 <= x < Two32 ==> r == x
  {
    x % Two32
  }

  /** Conversion to a 32-bit two's complement `int`. */
  function ToInt32(x: int): (r: int)
    ensures -Two31 <= r < Two31
    ensures (r - x) % Two32 == 0
    ensures -Two31 <= x < Two31 ==> r == x
  {
    var m := x % Two32;
    if m < Two31 then m else m - Two32
  }
}
