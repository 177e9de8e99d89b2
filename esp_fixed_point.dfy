/**
 * The `FixedPoint` object of `esp_fixed_point.h`: two public fields that the
 * constructors, the assignments and the compound operators `+= -= *= /=`
 * update in place. Each compound operator leaves the receiver holding the
 * value the matching free operator of `FixedPointOps` computes from the two
 * old values, so `a op= b` and `a = a op b` agree; `a op= a` is covered,
 * since both operands are read before `data` is written.
 */
module FixedPointClass {
  import opened IntTypes
  import opened FixedPointOps

  class FixedPoint {
    var data: int16
    var frac: uint8

    /** The value the two fields represent. */
    function Value(): (v: Fixed)
      reads this
      ensures v.data == data && v.frac == frac
    {
      Fixed(data, frac)
    }

    /** `FixedPoint()`: both fields start at `DEFAULT_FRAC`, so the raw value is 6, not 0. */
    constructor Default()
      ensures Value() == Fixed(6, 6)
    {
      data := DEFAULT_FRAC as int16;
      frac := DEFAULT_FRAC;
    }

    /** `FixedPoint(int16_t value, uint8_t fracBits)`: stores both as given. */
    constructor (value: int16, fracBits: uint8)
      ensures data == value && frac == fracBits
    {
      data := value;
      frac := fracBits;
    }

    /** The copy and move constructors: the same two fields as `other`. */
    constructor Copy(other: FixedPoint)
      ensures Value() == other.Value()
    {
      data := other.data;
      frac := other.frac;
    }

    /** `operator=(FixedPoint&)` and `operator=(FixedPoint&&)`: copies both fields. */
    method AssignFrom(other: FixedPoint)
      modifies this
      ensures Value() == old(other.Value())
    {
      data, frac := other.data, other.frac;
    }

    /**
     * `operator=(uint16_t)`: stores the raw value into the int16 field, which
     * wraps values from 2^15 upwards to negatives; `frac` is kept.
     */
    method AssignRaw(value: int)
      requires 0 <= value < 0x1_0000
      modifies this
      ensures frac == old(frac)
      ensures data as int == if value < 0x8000 then value else value - 0x1_0000
    {
      data := ToInt16(value);
      if value >= 0x8000 {
        assert data as int - (value - 0x1_0000) == (data as int - value) + 0x1_0000;
      }
    }

    /** `operator+=`: same `frac` required; afterwards the receiver holds old value `+` other. */
    method AddAssign(other: FixedPoint)
      requires frac == other.frac
      modifies this
      ensures Value() == Plus(old(Value()), old(other.Value()))
    {
      data := ToInt16(data as int + other.data as int);
    }

    /** `operator-=`: same `frac` required; afterwards the receiver holds old value `-` other. */
    method SubAssign(other: FixedPoint)
      requires frac == other.frac
      modifies this
      ensures Value() == Minus(old(Value()), old(other.Value()))
    {
      data := ToInt16(data as int - other.data as int);
    }

    /** `operator*=`: same `frac` required; `data` becomes `FP_MUL(data, other.data, frac)`. */
    method MulAssign(other: FixedPoint)
      requires frac == other.frac
      modifies this
      ensures Value() == Times(old(Value()), old(other.Value()))
    {
      data := ToInt16(FpMul(data, other.data, frac));
    }

    /**
     * `operator/=` as the source has it: same `frac` and a non-zero divisor
     * required; `data` becomes `FP_DIV(data, other.data, frac)`.
     */
    method DivAssignAsWritten(other: FixedPoint)
      requires frac == other.frac && other.data != 0
      modifies this
      ensures Value() == DivideAsWritten(old(Value()), old(other.Value()))
    {
      data := ToInt16(FpDivAsWritten(data, other.data, frac));
    }

    /** `operator/=` with the Q-format quotient. */
    method DivAssign(other: FixedPoint)
      requires frac == other.frac && other.data != 0
      modifies this
      ensures Value() == Divide(old(Value()), old(other.Value()))
    {
      data := ToInt16(FpDiv(data, other.data, frac));
    }
  }

  /**
   * The free operators' shape, `result = FixedPoint(fp1); result op= fp2`,
   * for `+` and `-`: the copy receives the result and both operands are left
   * as they were. By `MinusUndoesPlus`, subtracting `b` again restores `a`.
   */
  method AddThenSubtract(a: FixedPoint, b: FixedPoint) returns (sum: FixedPoint, back: FixedPoint)
    requires a.frac == b.frac
    ensures fresh(sum) && fresh(back)
    ensures sum.Value() == Plus(a.Value(), b.Value())
    ensures back.Value() == a.Value()
  {
    sum := new FixedPoint.Copy(a);
    sum.AddAssign(b);
    back := new FixedPoint.Copy(sum);
    back.SubAssign(b);
    MinusUndoesPlus(a.Value(), b.Value());
  }
}
