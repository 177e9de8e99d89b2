/**
 * The portable scalar loops of `esp_ansi.h`, restricted to integer element
 * types. Each helper is one `for (i = 0; i < len; i++)` loop that writes
 * `dest[i]` from the values at index `i` of its sources. The destination may
 * be one of the sources (the `Array` compound operators pass the same buffer
 * twice): every index is read before it is written, so the postconditions are
 * stated over `old(...)` and hold under aliasing.
 *
 * The element type `t` stands for the template parameter; `Narrow(t, _)` is
 * the conversion that happens when a C expression is cast or stored into `T`.
 */
module EspAnsi {
  import opened IntTypes

  /** `cpyArray`: dest[i] = (T)(src[i] * cnst); with the default cnst = 1 a plain copy. */
  method CpyArray(t: ElemType, src: array<int>, dest: array<int>, len: nat, cnst: int)
    requires len <= src.Length && len <= dest.Length
    modifies dest
    ensures forall j :: 0 <= j < len ==> dest[j] == Narrow(t, old(src[j]) * cnst)
    ensures forall j :: len <= j < dest.Length ==> dest[j] == old(dest[j])
    ensures (cnst == 1 && forall j :: 0 <= j < len ==> InRange(t, old(src[j]))) ==>
              dest[..len] == old(src[..len])
  {
    var i := 0;
    while i < len
      invariant 0 <= i <= len
      invariant forall j :: 0 <= j < i ==> dest[j] == Narrow(t, old(src[j]) * cnst)
      invariant forall j :: i <= j < dest.Length ==> dest[j] == old(dest[j])
      invariant forall j :: i <= j < src.Length ==> src[j] == old(src[j])
    {
      dest[i] := Narrow(t, src[i] * cnst);
      i := i + 1;
    }
  }

  /** `cpyConst`: the first len entries of dest become cnst; nothing else is touched. */
  method CpyConst(t: ElemType, dest: array<int>, len: nat, cnst: int)
    requires len <= dest.Length
    modifies dest
    ensures forall j :: 0 <= j < len ==> dest[j] == Narrow(t, cnst)
    ensures forall j :: len <= j < dest.Length ==> dest[j] == old(dest[j])
  {
    for i := 0 to len
      invariant forall j :: 0 <= j < i ==> dest[j] == Narrow(t, cnst)
      invariant forall j :: i <= j < dest.Length ==> dest[j] == old(dest[j])
    {
      dest[i] := Narrow(t, cnst);
    }
  }

  /** `addArrayToArray`: dest[i] = (T)(src1[i] + src2[i]) * cnst. */
  method AddArrayToArray(t: ElemType, src1: array<int>, src2: array<int>, dest: array<int>, len: nat, cnst: int)
    requires len <= src1.Length && len <= src2.Length && len <= dest.Length
    modifies dest
    ensures forall j :: 0 <= j < len ==> dest[j] == Narrow(t, (old(src1[j]) + old(src2[j])) * cnst)
    ensures forall j :: len <= j < dest.Length ==> dest[j] == old(dest[j])
  {
    var i := 0;
    while i < len
      invariant 0 <= i <= len
      invariant forall j :: 0 <= j < i ==> dest[j] == Narrow(t, (old(src1[j]) + old(src2[j])) * cnst)
      invariant forall j :: i <= j < dest.Length ==> dest[j] == old(dest[j])
      invariant forall j :: i <= j < src1.Length ==> src1[j] == old(src1[j])
      invariant forall j :: i <= j < src2.Length ==> src2[j] == old(src2[j])
    {
      NarrowProduct(t, src1[i] + src2[i], cnst);
      dest[i] := Narrow(t, Narrow(t, src1[i] + src2[i]) * cnst);
      i := i + 1;
    }
  }

  /** `addConstToArray`: dest[i] = src[i] + cnst. */
  method AddConstToArray(t: ElemType, src: array<int>, dest: array<int>, len: nat, cnst: int)
    requires len <= src.Length && len <= dest.Length
    modifies dest
    ensures forall j :: 0 <= j < len ==> dest[j] == Narrow(t, old(src[j]) + cnst)
    ensures forall j :: len <= j < dest.Length ==> dest[j] == old(dest[j])
  {
    var i := 0;
    while i < len
      invariant 0 <= i <= len
      invariant forall j :: 0 <= j < i ==> dest[j] == Narrow(t, old(src[j]) + cnst)
      invariant forall j :: i <= j < dest.Length ==> dest[j] == old(dest[j])
      invariant forall j :: i <= j < src.Length ==> src[j] == old(src[j])
    {
      dest[i] := Narrow(t, src[i] + cnst);
      i := i + 1;
    }
  }

  /** `subArrayFromArray`: dest[i] = (T)(src1[i] - src2[i]) * cnst. */
  method SubArrayFromArray(t: ElemType, src1: array<int>, src2: array<int>, dest: array<int>, len: nat, cnst: int)
    requires len <= src1.Length && len <= src2.Length && len <= dest.Length
    modifies dest
    ensures forall j :: 0 <= j < len ==> dest[j] == Narrow(t, (old(src1[j]) - old(src2[j])) * cnst)
    ensures forall j :: len <= j < dest.Length ==> dest[j] == old(dest[j])
  {
    var i := 0;
    while i < len
      invariant 0 <= i <= len
      invariant forall j :: 0 <= j < i ==> dest[j] == Narrow(t, (old(src1[j]) - old(src2[j])) * cnst)
      invariant forall j :: i <= j < dest.Length ==> dest[j] == old(dest[j])
      invariant forall j :: i <= j < src1.Length ==> src1[j] == old(src1[j])
      invariant forall j :: i <= j < src2.Length ==> src2[j] == old(src2[j])
    {
      NarrowProduct(t, src1[i] - src2[i], cnst);
      dest[i] := Narrow(t, Narrow(t, src1[i] - src2[i]) * cnst);
      i := i + 1;
    }
  }

  /**
   * `subConstFromArray`: dest[i] = (src[i] - cnst1) * cnst2. Passing -1 (as a
   * value of T) for cnst2 yields cnst1 - src[i]: this is how scalar-minus-array
   * is built.
   */
  method SubConstFromArray(t: ElemType, src: array<int>, dest: array<int>, len: nat, cnst1: int, cnst2: int)
    requires len <= src.Length && len <= dest.Length
    modifies dest
    ensures forall j :: 0 <= j < len ==> dest[j] == Narrow(t, (old(src[j]) - cnst1) * cnst2)
    ensures Narrow(t, cnst2) == Narrow(t, -1) ==>
              forall j :: 0 <= j < len ==> dest[j] == Narrow(t, cnst1 - old(src[j]))
    ensures forall j :: len <= j < dest.Length ==> dest[j] == old(dest[j])
  {
    var i := 0;
    while i < len
      invariant 0 <= i <= len
      invariant forall j :: 0 <= j < i ==> dest[j] == Narrow(t, (old(src[j]) - cnst1) * cnst2)
      invariant forall j :: i <= j < dest.Length ==> dest[j] == old(dest[j])
      invariant forall j :: i <= j < src.Length ==> src[j] == old(src[j])
    {
      dest[i] := Narrow(t, (src[i] - cnst1) * cnst2);
      i := i + 1;
    }
    if Narrow(t, cnst2) == Narrow(t, -1) {
      forall j | 0 <= j < len
        ensures dest[j] == Narrow(t, cnst1 - old(src[j]))
      {
        NegatedScale(t, old(src[j]) - cnst1, cnst2);
      }
    }
  }

  /** Scaling by any value of T congruent to -1 negates. */
  lemma NegatedScale(t: ElemType, x: int, c: int)
    requires Narrow(t, c) == Narrow(t, -1)
    ensures Narrow(t, x * c) == Narrow(t, -x)
  {
    calc {
      Narrow(t, x * c);
      { assert x * c == c * x; NarrowProduct(t, c, x); }
      Narrow(t, Narrow(t, c) * x);
      Narrow(t, Narrow(t, -1) * x);
      { NarrowProduct(t, -1, x); }
      Narrow(t, -1 * x);
    }
  }

  /** `mulArrayByArray`: dest[i] = (T)(src1[i] * src2[i]) * cnst. */
  method MulArrayByArray(t: ElemType, src1: array<int>, src2: array<int>, dest: array<int>, len: nat, cnst: int)
    requires len <= src1.Length && len <= src2.Length && len <= dest.Length
    modifies dest
    ensures forall j :: 0 <= j < len ==> dest[j] == Narrow(t, old(src1[j]) * old(src2[j]) * cnst)
    ensures forall j :: len <= j < dest.Length ==> dest[j] == old(dest[j])
  {
    var i := 0;
    while i < len
      invariant 0 <= i <= len
      invariant forall j :: 0 <= j < i ==> dest[j] == Narrow(t, old(src1[j]) * old(src2[j]) * cnst)
      invariant forall j :: i <= j < dest.Length ==> dest[j] == old(dest[j])
      invariant forall j :: i <= j < src1.Length ==> src1[j] == old(src1[j])
      invariant forall j :: i <= j < src2.Length ==> src2[j] == old(src2[j])
    {
      NarrowProduct(t, src1[i] * src2[i], cnst);
      dest[i] := Narrow(t, Narrow(t, src1[i] * src2[i]) * cnst);
      i := i + 1;
    }
  }

  /** `mulConstByArray`: dest[i] = src[i] * cnst. */
  method MulConstByArray(t: ElemType, src: array<int>, dest: array<int>, len: nat, cnst: int)
    requires len <= src.Length && len <= dest.Length
    modifies dest
    ensures forall j :: 0 <= j < len ==> dest[j] == Narrow(t, old(src[j]) * cnst)
    ensures forall j :: len <= j < dest.Length ==> dest[j] == old(dest[j])
  {
    var i := 0;
    while i < len
      invariant 0 <= i <= len
      invariant forall j :: 0 <= j < i ==> dest[j] == Narrow(t, old(src[j]) * cnst)
      invariant forall j :: i <= j < dest.Length ==> dest[j] == old(dest[j])
      invariant forall j :: i <= j < src.Length ==> src[j] == old(src[j])
    {
      dest[i] := Narrow(t, src[i] * cnst);
      i := i + 1;
    }
  }

  /** `divArrayByArray` on an integer T: dest[i] = src1[i] / src2[i], truncating. */
  method DivArrayByArray(t: ElemType, src1: array<int>, src2: array<int>, dest: array<int>, len: nat)
    requires len <= src1.Length && len <= src2.Length && len <= dest.Length
    requires forall j :: 0 <= j < len ==> src2[j] != 0
    modifies dest
    ensures forall j :: 0 <= j < len ==> old(src2[j]) != 0 && dest[j] == Narrow(t, CDiv(old(src1[j]), old(src2[j])))
    ensures forall j :: len <= j < dest.Length ==> dest[j] == old(dest[j])
  {
    var i := 0;
    while i < len
      invariant 0 <= i <= len
      invariant forall j :: 0 <= j < i ==> old(src2[j]) != 0 && dest[j] == Narrow(t, CDiv(old(src1[j]), old(src2[j])))
      invariant forall j :: i <= j < dest.Length ==> dest[j] == old(dest[j])
      invariant forall j :: i <= j < src1.Length ==> src1[j] == old(src1[j])
      invariant forall j :: i <= j < src2.Length ==> src2[j] == old(src2[j])
    {
      dest[i] := Narrow(t, CDiv(src1[i], src2[i]));
      i := i + 1;
    }
  }

  /** `divArrayByConst` on an integer T: dest[i] = src[i] / cnst, truncating. */
  method DivArrayByConst(t: ElemType, src: array<int>, dest: array<int>, len: nat, cnst: int)
    requires len <= src.Length && len <= dest.Length
    requires len > 0 ==> cnst != 0
    modifies dest
    ensures forall j :: 0 <= j < len ==> cnst != 0 && dest[j] == Narrow(t, CDiv(old(src[j]), cnst))
    ensures forall j :: len <= j < dest.Length ==> dest[j] == old(dest[j])
  {
    var i := 0;
    while i < len
      invariant 0 <= i <= len
      invariant forall j :: 0 <= j < i ==> cnst != 0 && dest[j] == Narrow(t, CDiv(old(src[j]), cnst))
      invariant forall j :: i <= j < dest.Length ==> dest[j] == old(dest[j])
      invariant forall j :: i <= j < src.Length ==> src[j] == old(src[j])
    {
      dest[i] := Narrow(t, CDiv(src[i], cnst));
      i := i + 1;
    }
  }

  /** `divConstByArray` on an integer T: dest[i] = cnst / src[i], truncating. */
  method DivConstByArray(t: ElemType, src: array<int>, dest: array<int>, len: nat, cnst: int)
    requires len <= src.Length && len <= dest.Length
    requires forall j :: 0 <= j < len ==> src[j] != 0
    modifies dest
    ensures forall j :: 0 <= j < len ==> old(src[j]) != 0 && dest[j] == Narrow(t, CDiv(cnst, old(src[j])))
    ensures forall j :: len <= j < dest.Length ==> dest[j] == old(dest[j])
  {
    var i := 0;
    while i < len
      invariant 0 <= i <= len
      invariant forall j :: 0 <= j < i ==> old(src[j]) != 0 && dest[j] == Narrow(t, CDiv(cnst, old(src[j])))
      invariant forall j :: i <= j < dest.Length ==> dest[j] == old(dest[j])
      invariant forall j :: i <= j < src.Length ==> src[j] == old(src[j])
    {
      dest[i] := Narrow(t, CDiv(cnst, src[i]));
      i := i + 1;
    }
  }

  /** `power`: x multiplied into an accumulator n times, in T; that is x^n reduced to T. */
  method Power(t: ElemType, x: int, n: nat) returns (acc: int)
    ensures acc == Narrow(t, IntPow(x, n))
  {
    acc := 1;
    var i := 0;
    while i < n
      invariant 0 <= i <= n
      invariant acc == Narrow(t, IntPow(x, i))
    {
      NarrowProduct(t, IntPow(x, i), x);
      acc := Narrow(t, acc * x);
      i := i + 1;
    }
  }

  /** power(x, 0) == 1 and power(x, n + 1) == power(x, n) * x, both in T. */
  lemma PowerRecurrence(t: ElemType, x: int, n: nat)
    ensures Narrow(t, IntPow(x, n + 1)) == Narrow(t, Narrow(t, IntPow(x, n)) * x)
  {
    NarrowProduct(t, IntPow(x, n), x);
  }
}
