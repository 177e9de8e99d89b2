/**
 * The value side of `FixedPoint`: a Q-format number stored as a signed
 * 16-bit `data` with `frac` fractional bits, the `FP_MUL`/`FP_DIV` macros, the
 * comparisons and casts, and the free operators `+ - * /`, each of which
 * copies its left operand and applies the matching compound operator.
 *
 * Integer widths are explicit: `(int32_t)` casts and stores into `data` wrap
 * modulo 2^32 and 2^16 (`Narrow`), `>>` floors (`Asr`) and `/` truncates
 * (`CDiv`).
 */
module FixedPointOps {
  import opened IntTypes

  newtype int16 = x: int | -0x8000 <= x < 0x8000
  newtype uint8 = x: int | 0 <= x < 0x100

  /** `DEFAULT_FRAC`: fractional bits when none are given. */
  const DEFAULT_FRAC: uint8 := 6

  /** A fixed-point value: `data / 2^frac`. */
  datatype Fixed = Fixed(data: int16, frac: uint8)

  /** Storing an exact result into the int16 `data` field. */
  function ToInt16(x: int): (r: int16)
    ensures (r as int - x) % 0x1_0000 == 0
    ensures -0x8000 <= x < 0x8000 ==> r as int == x
  {
    var n := Narrow(I16, x);
    NegatedMultiple(x - n, 0x1_0000);
    n as int16
  }

  /** The negation of a multiple of `m` is a multiple of `m`. */
  lemma NegatedMultiple(d: int, m: int)
    requires m > 0 && d % m == 0
    ensures (-d) % m == 0
  {
    assert d == (d / m) * m;
    DivModUnique(-d, m, -(d / m), 0);
  }

  /* ---------------------------------------------------------------- */
  /* The macros                                                        */
  /* ---------------------------------------------------------------- */

  /** `FP_MUL(x, y, f)`: the exact product shifted right by `f`, the floor of x*y / 2^f. */
  function FpMul(x: int16, y: int16, f: uint8): (r: int)
    ensures r * Pow2(f as nat) <= x as int * y as int < (r + 1) * Pow2(f as nat)
  {
    Asr(x as int * y as int, f as nat)
  }

  /**
   * `FP_DIV(x, y, f)` as the source defines it: `x` widened to int32 and
   * shifted left by `2*f`, then divided by `y` with truncation. When the
   * shifted value fits in int32 the result is the truncated quotient of
   * x * 2^(2f) by y.
   */
  function FpDivAsWritten(x: int16, y: int16, f: uint8): (r: int)
    requires y != 0
    ensures InRange(I32, x as int * Pow2(2 * f as nat)) ==>
              Abs(x as int * Pow2(2 * f as nat) - r * y as int) < Abs(y as int)
    ensures InRange(I32, x as int * Pow2(2 * f as nat)) && x >= 0 ==>
              x as int * Pow2(2 * f as nat) - r * y as int >= 0
    ensures InRange(I32, x as int * Pow2(2 * f as nat)) && x <= 0 ==>
              x as int * Pow2(2 * f as nat) - r * y as int <= 0
  {
    CDiv(Narrow(I32, x as int * Pow2(2 * f as nat)), y as int)
  }

  /**
   * The Q-format quotient: `x` shifted left by `f` only, so that the result
   * keeps `f` fractional bits. When the shifted value fits in int32 the
   * result is the truncated quotient of x * 2^f by y.
   */
  function FpDiv(x: int16, y: int16, f: uint8): (r: int)
    requires y != 0
    ensures InRange(I32, x as int * Pow2(f as nat)) ==>
              Abs(x as int * Pow2(f as nat) - r * y as int) < Abs(y as int)
    ensures InRange(I32, x as int * Pow2(f as nat)) && x >= 0 ==>
              x as int * Pow2(f as nat) - r * y as int >= 0
    ensures InRange(I32, x as int * Pow2(f as nat)) && x <= 0 ==>
              x as int * Pow2(f as nat) - r * y as int <= 0
  {
    CDiv(Narrow(I32, x as int * Pow2(f as nat)), y as int)
  }

  /* ---------------------------------------------------------------- */
  /* Comparisons and casts                                             */
  /* ---------------------------------------------------------------- */

  /** `operator==`: both fields agree, that is the two values are identical. */
  function Eq(a: Fixed, b: Fixed): (r: bool)
    ensures r <==> a == b
  {
    a.data == b.data && a.frac == b.frac
  }

  /** `operator!=` as the source defines it: true only when both fields differ. */
  function NeAsWritten(a: Fixed, b: Fixed): (r: bool)
    ensures r ==> !Eq(a, b)
  {
    a.data != b.data && a.frac != b.frac
  }

  /** `operator!=` as meant: the negation of `==`. */
  function Ne(a: Fixed, b: Fixed): (r: bool)
    ensures r <==> !Eq(a, b)
  {
    a.data != b.data || a.frac != b.frac
  }

  /** `operator<`: defined only between values with the same `frac`. */
  function Lt(a: Fixed, b: Fixed): (r: bool)
    requires a.frac == b.frac
    ensures r <==> a.data as int < b.data as int
    ensures r ==> !Eq(a, b)
  {
    a.data < b.data
  }

  /** `operator>`: the mirror image of `<`. */
  function Gt(a: Fixed, b: Fixed): (r: bool)
    requires a.frac == b.frac
    ensures r <==> Lt(b, a)
  {
    a.data > b.data
  }

  /** `operator>=`: not less than. */
  function Ge(a: Fixed, b: Fixed): (r: bool)
    requires a.frac == b.frac
    ensures r <==> !Lt(a, b)
  {
    a.data >= b.data
  }

  /** `operator<=`: not greater than. */
  function Le(a: Fixed, b: Fixed): (r: bool)
    requires a.frac == b.frac
    ensures r <==> !Gt(a, b)
  {
    a.data <= b.data
  }

  /** At the same `frac`, `<=` and `>=` together mean `==`, and exactly one of `<`, `==`, `>` holds. */
  lemma OrderIsTotal(a: Fixed, b: Fixed)
    requires a.frac == b.frac
    ensures Le(a, b) && Ge(a, b) <==> Eq(a, b)
    ensures (Lt(a, b) && !Eq(a, b) && !Gt(a, b)) || (!Lt(a, b) && Eq(a, b) && !Gt(a, b)) ||
            (!Lt(a, b) && !Eq(a, b) && Gt(a, b))
  {
  }

  /**
   * The conversion operators to an integer type: `(T)data`, which keeps the
   * value whenever it fits in T and wraps otherwise; `operator int16_t`
   * returns `data` itself.
   */
  function Cast(t: ElemType, a: Fixed): (r: int)
    ensures InRange(t, r) && (r - a.data as int) % Modulus(t) == 0
    ensures InRange(t, a.data as int) ==> r == a.data as int
    ensures t == I16 ==> r == a.data as int
  {
    Narrow(t, a.data as int)
  }

  /* ---------------------------------------------------------------- */
  /* Free operators: a copy of the left operand, then the compound op  */
  /* ---------------------------------------------------------------- */

  /** `fp1 + fp2`: the sum of the raw values at the left operand's `frac`, wrapped to int16. */
  function Plus(a: Fixed, b: Fixed): (r: Fixed)
    requires a.frac == b.frac
    ensures r.frac == a.frac
    ensures (r.data as int - (a.data as int + b.data as int)) % 0x1_0000 == 0
  {
    Fixed(ToInt16(a.data as int + b.data as int), a.frac)
  }

  /** `fp1 - fp2`: the difference of the raw values, wrapped to int16. */
  function Minus(a: Fixed, b: Fixed): (r: Fixed)
    requires a.frac == b.frac
    ensures r.frac == a.frac
    ensures (r.data as int - (a.data as int - b.data as int)) % 0x1_0000 == 0
  {
    Fixed(ToInt16(a.data as int - b.data as int), a.frac)
  }

  /** `fp1 * fp2` as the source defines it: a copy of `fp1` with `+= fp2`. */
  function TimesAsWritten(a: Fixed, b: Fixed): (r: Fixed)
    requires a.frac == b.frac
    ensures r.frac == a.frac
    ensures (r.data as int - (a.data as int + b.data as int)) % 0x1_0000 == 0
  {
    Plus(a, b)
  }

  /** `fp1 * fp2` as meant, that is `*=` on a copy: `FP_MUL` of the raw values, wrapped to int16. */
  function Times(a: Fixed, b: Fixed): (r: Fixed)
    requires a.frac == b.frac
    ensures r.frac == a.frac
    ensures (r.data as int - FpMul(a.data, b.data, a.frac)) % 0x1_0000 == 0
  {
    var q := FpMul(a.data, b.data, a.frac);
    Fixed(ToInt16(q), a.frac)
  }

  /** `fp1 / fp2`, that is `/=` on a copy, with the source's `FP_DIV`. */
  function DivideAsWritten(a: Fixed, b: Fixed): (r: Fixed)
    requires a.frac == b.frac && b.data != 0
    ensures r.frac == a.frac
    ensures (r.data as int - FpDivAsWritten(a.data, b.data, a.frac)) % 0x1_0000 == 0
  {
    var q := FpDivAsWritten(a.data, b.data, a.frac);
    Fixed(ToInt16(q), a.frac)
  }

  /** `fp1 / fp2` with the Q-format quotient. */
  function Divide(a: Fixed, b: Fixed): (r: Fixed)
    requires a.frac == b.frac && b.data != 0
    ensures r.frac == a.frac
    ensures (r.data as int - FpDiv(a.data, b.data, a.frac)) % 0x1_0000 == 0
  {
    var q := FpDiv(a.data, b.data, a.frac);
    Fixed(ToInt16(q), a.frac)
  }

  /**
   * The `fp ⊕ float` overloads convert the float at `fp1.frac` first, so the
   * operands always share `frac`. The float type and the conversion
   * (`float2fixed`) are parameters.
   */
  function PlusFloat<F>(a: Fixed, x: F, toFixed: (F, uint8) -> int16): (r: Fixed)
    ensures r.frac == a.frac
    ensures (r.data as int - (a.data as int + toFixed(x, a.frac) as int)) % 0x1_0000 == 0
  {
    Plus(a, Fixed(toFixed(x, a.frac), a.frac))
  }

  function MinusFloat<F>(a: Fixed, x: F, toFixed: (F, uint8) -> int16): (r: Fixed)
    ensures r.frac == a.frac
    ensures (r.data as int - (a.data as int - toFixed(x, a.frac) as int)) % 0x1_0000 == 0
  {
    Minus(a, Fixed(toFixed(x, a.frac), a.frac))
  }

  function TimesFloat<F>(a: Fixed, x: F, toFixed: (F, uint8) -> int16): (r: Fixed)
    ensures r.frac == a.frac
    ensures (r.data as int - FpMul(a.data, toFixed(x, a.frac), a.frac)) % 0x1_0000 == 0
  {
    Times(a, Fixed(toFixed(x, a.frac), a.frac))
  }

  /** The divide overload additionally needs the converted divisor to be non-zero. */
  function DivideFloat<F>(a: Fixed, x: F, toFixed: (F, uint8) -> int16): (r: Fixed)
    requires toFixed(x, a.frac) != 0
    ensures r.frac == a.frac
    ensures (r.data as int - FpDivAsWritten(a.data, toFixed(x, a.frac), a.frac)) % 0x1_0000 == 0
  {
    DivideAsWritten(a, Fixed(toFixed(x, a.frac), a.frac))
  }

  /* ---------------------------------------------------------------- */
  /* Properties                                                        */
  /* ---------------------------------------------------------------- */

  /** Subtracting what was added gives back the original value, int16 wrap-around included. */
  lemma MinusUndoesPlus(a: Fixed, b: Fixed)
    requires a.frac == b.frac
    ensures Minus(Plus(a, b), b) == a
  {
    NarrowSum(I16, a.data as int + b.data as int, -(b.data as int));
  }

  /** `+` is commutative and associative on values of one `frac`. */
  lemma PlusCommutesAndAssociates(a: Fixed, b: Fixed, c: Fixed)
    requires a.frac == b.frac == c.frac
    ensures Plus(a, b) == Plus(b, a)
    ensures Plus(Plus(a, b), c) == Plus(a, Plus(b, c))
  {
    var x, y, z := a.data as int, b.data as int, c.data as int;
    var ab, bc := Narrow(I16, x + y), Narrow(I16, y + z);
    assert Plus(a, b).data as int == ab && Plus(b, c).data as int == bc;
    assert Plus(Plus(a, b), c).data as int == Narrow(I16, ab + z);
    assert Plus(a, Plus(b, c)).data as int == Narrow(I16, x + bc);
    NarrowAssociates(I16, x, y, z);
  }

  lemma NarrowAssociates(t: ElemType, x: int, y: int, z: int)
    ensures Narrow(t, Narrow(t, x + y) + z) == Narrow(t, x + Narrow(t, y + z))
  {
    NarrowSum(t, x + y, z);
    NarrowSum(t, y + z, x);
    assert x + Narrow(t, y + z) == Narrow(t, y + z) + x;
    assert x + y + z == y + z + x;
  }

  /** The representation of 1.0 with `f` fractional bits, `2^f`, which is an int16 for f <= 14. */
  function One(f: uint8): (r: Fixed)
    requires f <= 14
    ensures r.frac == f && r.data as int == Pow2(f as nat)
  {
    Pow2UpTo14(f as nat);
    Fixed(Pow2(f as nat) as int16, f)
  }

  lemma Pow2UpTo14(n: nat)
    requires n <= 14
    ensures Pow2(n) <= 0x4000
  {
    Pow2Monotone(n, 14);
    assert Pow2(14) == 0x4000;
  }

  lemma {:induction false} Pow2Monotone(n: nat, k: nat)
    requires n <= k
    ensures Pow2(n) <= Pow2(k)
  {
    if n < k {
      Pow2Monotone(n, k - 1);
    }
  }

  /** r*p <= x*p < (r+1)*p pins r down to x. */
  lemma FloorOfMultiple(x: int, r: int, p: int)
    requires p > 0 && r * p <= x * p < (r + 1) * p
    ensures r == x
  {
    assert (x - r) * p == x * p - r * p;
    assert (r + 1) * p == r * p + p;
    MultipleBelow(x - r, p);
  }

  /** A multiple of a positive p in [0, p) is 0 times p. */
  lemma MultipleBelow(k: int, p: int)
    requires p > 0 && 0 <= k * p < p
    ensures k == 0
  {
    if k >= 1 {
      MulAtLeast(k, p);
    } else if k <= -1 {
      assert (-k) * p == -(k * p);
      MulAtLeast(-k, p);
    }
  }

  /** |x*p - q*p| < p pins q down to x. */
  lemma TruncOfMultiple(x: int, q: int, p: int)
    requires p > 0 && Abs(x * p - q * p) < p
    ensures q == x
  {
    var k := x - q;
    assert k * p == x * p - q * p;
    if k * p < 0 {
      assert (-k) * p == -(k * p);
      MultipleBelow(-k, p);
    } else {
      MultipleBelow(k, p);
    }
  }

  /** |x| <= 2^15 and p <= 2^14 keep x*p within int32. */
  lemma ProductFitsInt32(x: int, p: int)
    requires -0x8000 <= x < 0x8000 && 1 <= p <= 0x4000
    ensures InRange(I32, x * p)
  {
    var ax := Abs(x);
    assert ax <= 0x8000;
    MulLe(ax, 0x8000, p);
    MulLe(p, 0x4000, 0x8000);
    assert ax * p <= 0x2000_0000;
    if x < 0 {
      assert x * p == -(ax * p);
    } else {
      assert x * p == ax * p;
    }
  }

  lemma MulLe(a: int, b: int, c: int)
    requires 0 <= a <= b && c >= 0
    ensures a * c <= b * c
  {
    assert b * c - a * c == (b - a) * c;
  }

  /** The product with 1.0 is the value itself. */
  lemma TimesOne(a: Fixed)
    requires a.frac <= 14
    ensures Times(a, One(a.frac)) == a
  {
    var p := Pow2(a.frac as nat);
    var r := FpMul(a.data, One(a.frac).data, a.frac);
    assert r * p <= a.data as int * p < (r + 1) * p;
    FloorOfMultiple(a.data as int, r, p);
  }

  /** The Q-format quotient by 1.0 is the value itself. */
  lemma DivideByOne(a: Fixed)
    requires a.frac <= 14
    ensures Divide(a, One(a.frac)) == a
  {
    var p := Pow2(a.frac as nat);
    Pow2UpTo14(a.frac as nat);
    var x := a.data as int;
    ProductFitsInt32(x, p);
    var q := FpDiv(a.data, One(a.frac).data, a.frac);
    assert Abs(x * p - q * p) < p;
    TruncOfMultiple(x, q, p);
  }

  /**
   * The source's quotient at the default `frac`: 2.0 / 1.0 (raw 128 and 64)
   * comes out as raw 8192, that is 128.0, where the Q-format quotient gives
   * 2.0 back.
   */
  lemma DivideAsWrittenOverscales()
    ensures DivideAsWritten(Fixed(128, 6), Fixed(64, 6)) == Fixed(8192, 6)
    ensures Divide(Fixed(128, 6), Fixed(64, 6)) == Fixed(128, 6)
  {
    assert Pow2(12) == 4096 && Pow2(6) == 64;
    var q := CDiv(128 * 4096, 64);
    TruncOfMultiple(8192, q, 64);
    var q' := CDiv(128 * 64, 64);
    TruncOfMultiple(128, q', 64);
  }

  /** The source's `*` at the default `frac`: 3.0 * 2.0 (raw 192 and 128) gives raw 320, that is 5.0, not 6.0 (raw 384). */
  lemma TimesAsWrittenAdds()
    ensures TimesAsWritten(Fixed(192, 6), Fixed(128, 6)) == Fixed(320, 6)
    ensures Times(Fixed(192, 6), Fixed(128, 6)) == Fixed(384, 6)
  {
    assert Pow2(6) == 64;
    var r := FpMul(192, 128, 6);
    FloorOfMultiple(384, r, 64);
  }

  /** The source's `!=` misses values that differ in one field only, while `!=` as meant catches them. */
  lemma NeAsWrittenMissesOneField()
    ensures !Eq(Fixed(1, 6), Fixed(2, 6)) && !NeAsWritten(Fixed(1, 6), Fixed(2, 6))
    ensures Ne(Fixed(1, 6), Fixed(2, 6))
  {
  }
}
