/**
 * The integer element types an `Array<T>` may be instantiated with, and the
 * C integer operations the library relies on, stated over unbounded `int`.
 *
 *  - `Narrow(t, x)` is the conversion of an exact result to `t` (modular,
 *    two's complement for the signed types).
 *  - `CDiv` is C's `/`, which truncates toward zero (Dafny's `/` is Euclidean).
 *  - `Asr` is `>>` on a signed value (an arithmetic, flooring shift).
 */
module IntTypes {

  /** The integer types no larger than four bytes. */
  datatype ElemType = I8 | U8 | I16 | U16 | I32 | U32

  /** `sizeof(T)` in bytes. */
  function SizeOf(t: ElemType): (n: nat)
    ensures n == 1 || n == 2 || n == 4
  {
    match t
    case I8 => 1
    case U8 => 1
    case I16 => 2
    case U16 => 2
    case I32 => 4
    case U32 => 4
  }

  predicate Signed(t: ElemType) {
    t.I8? || t.I16? || t.I32?
  }

  /** Number of distinct values of `t`: 2^(8 * sizeof(T)). */
  function Modulus(t: ElemType): (m: nat)
    ensures m >= 0x100 && m % 2 == 0
  {
    match t
    case I8 => 0x100
    case U8 => 0x100
    case I16 => 0x1_0000
    case U16 => 0x1_0000
    case I32 => 0x1_0000_0000
    case U32 => 0x1_0000_0000
  }

  function MinOf(t: ElemType): int {
    if Signed(t) then -(Modulus(t) / 2) else 0
  }

  function MaxOf(t: ElemType): int {
    MinOf(t) + Modulus(t) - 1
  }

  predicate InRange(t: ElemType, x: int) {
    MinOf(t) <= x <= MaxOf(t)
  }

  /**
   * Conversion of an exact integer result to `t`: the unique value of `t`
   * congruent to `x` modulo 2^(8 * sizeof(T)).
   */
  function Narrow(t: ElemType, x: int): (r: int)
    ensures InRange(t, r)
    ensures InRange(t, x) ==> r == x
  {
    MinOf(t) + (x - MinOf(t)) % Modulus(t)
  }

  /** The narrowed value differs from the exact one by a multiple of the modulus. */
  lemma NarrowCongruence(t: ElemType, x: int)
    ensures (x - Narrow(t, x)) % Modulus(t) == 0
  {
    var m, lo := Modulus(t), MinOf(t);
    var q := (x - lo) / m;
    assert x - Narrow(t, x) == q * m;
    DivModUnique(x - Narrow(t, x), m, q, 0);
  }

  /** Two values that differ by a multiple of the modulus narrow to the same value. */
  lemma NarrowCongruent(t: ElemType, x: int, y: int)
    requires (x - y) % Modulus(t) == 0
    ensures Narrow(t, x) == Narrow(t, y)
  {
    var m, lo := Modulus(t), MinOf(t);
    var d := (x - y) / m;
    assert x - y == d * m;
    assert (x - lo) == (y - lo) + d * m;
    ModOfShift(y - lo, d, m);
  }

  lemma ModOfShift(a: int, d: int, m: int)
    requires m > 0
    ensures (a + d * m) % m == a % m
  {
    var q, r := a / m, a % m;
    assert a == q * m + r && 0 <= r < m;
    assert a + d * m == (q + d) * m + r;
    DivModUnique(a + d * m, m, q + d, r);
  }

  lemma DivModUnique(a: int, m: int, q: int, r: int)
    requires m > 0 && 0 <= r < m && a == q * m + r
    ensures a % m == r && a / m == q
  {
    var q', r' := a / m, a % m;
    assert a == q' * m + r' && 0 <= r' < m;
    var k := q - q';
    assert k * m == r' - r by {
      assert q * m - q' * m == (q - q') * m;
    }
    if k >= 1 {
      MulAtLeast(k, m);
    } else if k <= -1 {
      MulAtLeast(-k, m);
    }
  }

  lemma MulAtLeast(k: int, m: int)
    requires k >= 1 && m > 0
    ensures k * m >= m
  {
    assert k * m == (k - 1) * m + m;
    assert (k - 1) * m >= 0;
  }

  /** Narrowing an operand before adding gives the same value as narrowing the exact sum. */
  lemma NarrowSum(t: ElemType, a: int, b: int)
    ensures Narrow(t, Narrow(t, a) + b) == Narrow(t, a + b)
  {
    var m, lo := Modulus(t), MinOf(t);
    var q := (a - lo) / m;
    var x := Narrow(t, a) + b - lo;
    assert a - lo == q * m + (a - lo) % m;
    assert a + b - lo == x + q * m;
    ModOfShift(x, q, m);
  }

  /** Narrowing an operand before multiplying gives the same value as narrowing the exact product. */
  lemma NarrowProduct(t: ElemType, a: int, b: int)
    ensures Narrow(t, Narrow(t, a) * b) == Narrow(t, a * b)
  {
    var m := Modulus(t);
    NarrowCongruence(t, a);
    var d := (a - Narrow(t, a)) / m;
    assert a - Narrow(t, a) == d * m;
    var e := d * b;
    assert Narrow(t, a) * b - a * b == -(e * m) by {
      assert Narrow(t, a) * b - a * b == (Narrow(t, a) - a) * b;
      assert (Narrow(t, a) - a) * b == (-(d * m)) * b;
    }
    ModOfShift(0, -e, m);
    NarrowCongruent(t, Narrow(t, a) * b, a * b);
  }

  /** Multiplying a value of `t` by -1 in `t` negates it modulo the width of `t`. */
  lemma NarrowNegates(t: ElemType, x: int)
    ensures Narrow(t, Narrow(t, x) * -1) == Narrow(t, -x)
  {
    NarrowProduct(t, x, -1);
    assert x * -1 == -x;
  }

  /** Adding `y` and then subtracting it in `t` restores a value of `t`. */
  lemma NarrowCancel(t: ElemType, x: int, y: int)
    requires InRange(t, x)
    ensures Narrow(t, Narrow(t, x + y) - y) == x
    ensures Narrow(t, Narrow(t, x + y) + -y) == x
  {
    NarrowSum(t, x + y, -y);
    assert x + y + -y == x;
  }

  /** Swapping the operands of a subtraction in `t` is multiplying by -1 in `t`. */
  lemma NarrowSwap(t: ElemType, x: int, y: int)
    ensures Narrow(t, y - x) == Narrow(t, Narrow(t, x - y) * -1)
  {
    NarrowNegates(t, x - y);
    assert -(x - y) == y - x;
  }

  /** `c - x` in `t` is `x + (-c)` in `t` multiplied by -1 in `t`. */
  lemma NarrowConstMinus(t: ElemType, c: int, x: int)
    ensures Narrow(t, c - x) == Narrow(t, Narrow(t, x + -c) * -1)
  {
    NarrowNegates(t, x + -c);
    assert -(x + -c) == c - x;
  }

  /** Scaling by `c` and then by `d` in `t` is scaling by `c * d` in `t`. */
  lemma NarrowScaleTwice(t: ElemType, x: int, c: int, d: int)
    ensures Narrow(t, Narrow(t, x * c) * d) == Narrow(t, x * (c * d))
  {
    NarrowProduct(t, x * c, d);
    MulAssociates(x, c, d);
  }

  lemma MulAssociates(x: int, c: int, d: int)
    ensures x * c * d == x * (c * d)
  {
  }

  function Abs(x: int): nat {
    if x < 0 then -x else x
  }

  /**
   * C's integer `/`: the quotient truncated toward zero. The remainder
   * `a - CDiv(a, b) * b` is smaller than the divisor in magnitude and has the
   * sign of the dividend.
   */
  function CDiv(a: int, b: int): (q: int)
    requires b != 0
    ensures Abs(a - q * b) < Abs(b)
    ensures a >= 0 ==> a - q * b >= 0
    ensures a <= 0 ==> a - q * b <= 0
  {
    var n := Abs(a) / Abs(b);
    var q := if (a < 0) == (b < 0) then n else -n;
    TruncatedRemainder(a, b, n, q);
    q
  }

  lemma TruncatedRemainder(a: int, b: int, n: int, q: int)
    requires b != 0 && n == Abs(a) / Abs(b)
    requires q == if (a < 0) == (b < 0) then n else -n
    ensures a - q * b == if a < 0 then -(Abs(a) % Abs(b)) else Abs(a) % Abs(b)
    ensures a == 0 ==> a - q * b == 0
  {
    var bb := Abs(b);
    if a == 0 {
      DivModUnique(0, bb, 0, 0);
      assert q == 0;
      return;
    }
    assert Abs(a) == n * bb + Abs(a) % bb;
    if b < 0 {
      assert q * b == (-q) * bb;
    } else {
      assert q * b == q * bb;
    }
    if (a < 0) == (b < 0) {
      assert q * bb == n * bb;
    } else {
      assert (-q) * bb == n * bb;
    }
  }

  /** 2^n. */
  function Pow2(n: nat): (p: nat)
    ensures p >= 1
  {
    if n == 0 then 1 else 2 * Pow2(n - 1)
  }

  /** `x >> n` on a signed value: an arithmetic shift, which rounds toward minus infinity. */
  function Asr(x: int, n: nat): (r: int)
    ensures r * Pow2(n) <= x < (r + 1) * Pow2(n)
  {
    x / Pow2(n)
  }

  /** x^n over unbounded integers. */
  function IntPow(x: int, n: nat): int {
    if n == 0 then 1 else IntPow(x, n - 1) * x
  }
}
