/** The C integer conversions and operators the timer code relies on. */
module CInt {

  const U32 := 0x1_0000_0000

  /** Conversion to a 16-bit `short` (two's complement wrap). */
  function ToShort(x: int): (r: int)
    ensures -0x8000 <= r < 0x8000
    ensures -0x8000 <= x < 0x8000 ==> r == x
    ensures exists k: int :: r == x - k * 0x1_0000
  {
    var r := (x + 0x8000) % 0x1_0000 - 0x8000;
    assert r == x - ((x + 0x8000) / 0x1_0000) * 0x1_0000;
    r
  }

  /** Conversion to a 32-bit `int` (two's complement wrap). */
  function ToInt(x: int): (r: int)
    ensures -0x8000_0000 <= r < 0x8000_0000
    ensures -0x8000_0000 <= x < 0x8000_0000 ==> r == x
  {
    (x + 0x8000_0000) % U32 - 0x8000_0000
  }

  /** C's `/`: the quotient is truncated toward zero. */
  function TruncDiv(a: int, b: int): (q: int)
    requires 0 < b
    ensures 0 <= a ==> 0 <= q && b * q <= a < b * (q + 1)
    ensures a <= 0 ==> q <= 0 && b * (q - 1) < a <= b * q
  {
    if 0 <= a then a / b else -((-a) / b)
  }

  /** C's `%`: the remainder takes the sign of the dividend. */
  function TruncRem(a: int, b: int): (r: int)
    requires 0 < b
    ensures -b < r < b
    ensures a == b * TruncDiv(a, b) + r
  {
    a - b * TruncDiv(a, b)
  }

  /** A nonzero multiple of `n` is at least `n` away from 0. */
  lemma MultipleIsFar(k: int, n: int)
    requires 0 < n
    ensures 0 < k ==> n <= k * n
    ensures k < 0 ==> k * n <= -n
  {
    if 0 < k {
      assert (k - 1) * n >= 0;
    } else if k < 0 {
      assert (-k - 1) * n >= 0;
    }
  }

  /** Euclidean quotient and remainder are the only pair of their kind. */
  lemma DivModUnique(a: int, n: int, q: int, r: int)
    requires 0 < n && 0 <= r < n
    requires a == q * n + r
    ensures a / n == q && a % n == r
  {
    var q', r' := a / n, a % n;
    assert a == q' * n + r';
    assert (q - q') * n == q * n - q' * n;
    MultipleIsFar(q - q', n);
  }

  /** What quotient and remainder are, as facts to cite. */
  lemma DivMod(a: int, n: int)
    requires 0 < n
    ensures a == (a / n) * n + a % n
    ensures 0 <= a % n < n
    ensures 0 <= a ==> 0 <= a / n
  {}

  /** Shifting by a multiple of the modulus keeps the remainder. */
  lemma ModShift(a: int, k: int, n: int)
    requires 0 < n
    ensures (a + k * n) % n == a % n
    ensures (a + k * n) / n == a / n + k
  {
    assert a + k * n == (a / n + k) * n + a % n by {
      assert (a / n + k) * n == (a / n) * n + k * n;
    }
    DivModUnique(a + k * n, n, a / n + k, a % n);
  }

  /** Only the quotient completes the remainder to the dividend. */
  lemma QuotientCompletes(a: int, n: int, c: int)
    requires 0 < n
    ensures a % n + c * n == a <==> c == a / n
    ensures c < a / n ==> a % n + c * n < a
    ensures a / n < c ==> a < a % n + c * n
  {
    var q := a / n;
    assert a == q * n + a % n;
    assert (q - c) * n == q * n - c * n;
    MultipleIsFar(q - c, n);
  }

  lemma DivMonotone(a: int, b: int, n: int)
    requires 0 < n && a <= b
    ensures a / n <= b / n
  {
    var p, q := a / n, b / n;
    assert a == p * n + a % n && b == q * n + b % n;
    assert (p - q) * n == p * n - q * n;
    MultipleIsFar(p - q, n);
  }

  /** A positive divisor does not enlarge a quotient. */
  lemma DivByPositive(a: nat, b: nat)
    requires 0 < b
    ensures 0 <= a / b <= a
  {
    DivMod(a, b);
    ProductAtLeast(a / b, b);
  }

  lemma ProductAtLeast(q: nat, b: nat)
    requires 0 < b
    ensures q <= q * b
  {}

  /** The quotient of an `int` by a positive number is an `int`. */
  lemma QuotientIsInt(a: int, b: int)
    requires 0 < b && -0x8000_0000 <= a < 0x8000_0000
    ensures -0x8000_0000 <= TruncDiv(a, b) < 0x8000_0000
  {
    DivByPositive(if 0 <= a then a else -a, b);
  }

  /** The truncating quotient and remainder are the only pair of their kind. */
  lemma TruncDivUnique(a: int, b: int, q: int, r: int)
    requires 0 < b && -b < r < b && a == q * b + r
    requires (0 <= a ==> 0 <= r) && (a <= 0 ==> r <= 0)
    ensures TruncDiv(a, b) == q && TruncRem(a, b) == r
  {
    if 0 <= a { DivModUnique(a, b, q, r); } else { DivModUnique(-a, b, -q, -r); }
  }

  /** Only multiples of 2^32 are lost in the conversion to `int`. */
  lemma ToIntWraps(x: int, j: int)
    ensures ToInt(x + j * U32) == ToInt(x)
  {
    ModShift(x + 0x8000_0000, j, U32);
  }

  lemma ToIntLoses(x: int)
    ensures exists j: int :: x == ToInt(x) + j * U32
  {
    var j := (x + 0x8000_0000) / U32;
    DivMod(x + 0x8000_0000, U32);
    assert x == ToInt(x) + j * U32;
  }

  /** Two numbers leave the same remainder exactly if the divisor divides their difference. */
  lemma SameRemainder(a: int, b: int, n: int)
    requires 0 < n
    ensures a % n == b % n <==> (b - a) % n == 0
  {
    var k := (b - a) / n;
    if (b - a) % n == 0 {
      DivMod(b - a, n);
      assert b == a + k * n;
      ModShift(a, k, n);
    }
    if a % n == b % n {
      RemaindersCancel(a, b, n);
    }
  }

  lemma RemaindersCancel(a: int, b: int, n: int)
    requires 0 < n && a % n == b % n
    ensures (b - a) % n == 0
  {
    var p, q := a / n, b / n;
    DivMod(a, n);
    DivMod(b, n);
    assert (q - p) * n == q * n - p * n;
    DivModUnique(b - a, n, q - p, 0);
  }
}
