/** Fixed-width integers as the Nios II computes them: two's complement, wrapping,
    with division that truncates toward zero. */
module Machine {
  type i16 = x: int | -0x8000 <= x < 0x8000
  type u16 = x: int | 0 <= x < 0x1_0000
  type i32 = x: int | -0x8000_0000 <= x < 0x8000_0000
  type u32 = x: int | 0 <= x < 0x1_0000_0000

  const TWO_16: int := 0x1_0000
  const TWO_32: int := 0x1_0000_0000

  function ToU32(x: int): u32 {
    x % TWO_32
  }

  function ToI32(x: int): (r: i32)
    ensures -0x8000_0000 <= x < 0x8000_0000 ==> r == x
  {
    (x + 0x8000_0000) % TWO_32 - 0x8000_0000
  }

  function ToI16(x: int): (r: i16)
    ensures -0x8000 <= x < 0x8000 ==> r == x
  {
    (x + 0x8000) % TWO_16 - 0x8000
  }

  function Abs(x: int): nat {
    if x < 0 then -x else x
  }

  function Min(a: int, b: int): int {
    if a < b then a else b
  }

  function Max(a: int, b: int): int {
    if a > b then a else b
  }

  /** C's quotient for a positive divisor. */
  function TruncDiv(a: int, b: int): int
    requires b > 0
  {
    if a >= 0 then a / b else -((-a) / b)
  }

  /** The quotient lies strictly within one of the exact ratio, on the side of 0. */
  lemma TruncDivBound(a: int, b: int)
    requires b > 0
    ensures a >= 0 ==> TruncDiv(a, b) * b <= a < TruncDiv(a, b) * b + b && TruncDiv(a, b) >= 0
    ensures a <= 0 ==> TruncDiv(a, b) * b - b < a <= TruncDiv(a, b) * b && TruncDiv(a, b) <= 0
  {
    var n := if a >= 0 then a else -a;
    assert n == (n / b) * b + n % b;
  }

  lemma MultipleGrows(t: int, d: int)
    requires d > 0
    ensures t >= 1 ==> t * d >= d
    ensures t <= -1 ==> t * d <= -d
  {
  }

  /** q is the one integer whose remainder fits. */
  lemma QuotientIs(a: int, d: int, q: int)
    requires d > 0 && q * d <= a < q * d + d
    ensures a / d == q
  {
    var p := a / d;
    assert a == p * d + a % d;
    assert (p - q) * d == p * d - q * d;
    MultipleGrows(p - q, d);
  }

  lemma CancelFactor(t: int, n: int, d: int)
    requires d > 0 && t * d <= n * d
    ensures t <= n
  {
  }

  /** A fraction `part`/`whole` of n, computed by truncating, stays between 0 and n. */
  lemma TruncDivFraction(part: int, n: int, whole: int)
    requires 0 <= part <= whole && whole > 0
    ensures n >= 0 ==> 0 <= TruncDiv(part * n, whole) <= n
    ensures n <= 0 ==> n <= TruncDiv(part * n, whole) <= 0
  {
    var t := TruncDiv(part * n, whole);
    TruncDivBound(part * n, whole);
    if n >= 0 {
      ScaleUp(part, whole, n);
      CancelFactor(t, n, whole);
    } else {
      ScaleUp(part, whole, -n);
      assert part * -n == -(part * n) && whole * -n == -(n * whole);
      assert part * n <= 0;
      CancelFactor(n, t, whole);
    }
  }

  lemma ScaleUp(part: int, whole: int, n: int)
    requires 0 <= part <= whole && n >= 0
    ensures 0 <= part * n <= whole * n
  {
  }

  lemma ScaleOrder(k: int, m: int, n: int)
    requires k >= 0 && m <= n
    ensures k * m <= k * n
  {
  }

  lemma TruncDivMonotone(m: int, n: int, d: int)
    requires d > 0 && m <= n
    ensures TruncDiv(m, d) <= TruncDiv(n, d)
  {
    TruncDivBound(m, d);
    TruncDivBound(n, d);
    var p, q := TruncDiv(m, d), TruncDiv(n, d);
    assert (p - q) * d == p * d - q * d;
    MultipleGrows(p - q, d);
  }

  lemma TruncDivWhole(a: int, b: int)
    requires b > 0 && a % b == 0
    ensures TruncDiv(a, b) * b == a
  {
    var q := a / b;
    assert a == q * b;
    if a < 0 {
      QuotientIs(-a, b, -q);
    }
  }

  /** Raising the dividend by k divisors raises the quotient by at most k: truncation
      can only lose from a step across zero. */
  lemma TruncDivShift(a: int, b: int, k: int)
    requires b > 0 && k >= 0
    ensures TruncDiv(a + k * b, b) <= TruncDiv(a, b) + k
  {
    var kb := k * b;
    var t, u := TruncDiv(a, b), TruncDiv(a + kb, b);
    TruncDivBound(a, b);
    TruncDivBound(a + kb, b);
    ScaleUp(k, k, b);
    hide TruncDiv;
    var tb, ub := t * b, u * b;
    assert (u - t - k) * b == ub - tb - kb;
    MultipleGrows(u - t - k, b);
  }
}
