/**
 * The earlier revision of the scalar loops, `ansi.h`, for integer element
 * types. Its array-array helpers take one source and accumulate into the
 * destination (`dest[i] += ...`, `-=`, `*=`), so each new `dest[i]` depends on
 * the old one. Its `cpyArray`, `cpyConst`, `addConstToArray`,
 * `subConstFromArray` and `mulConstByArray` are the same loops as in
 * `esp_ansi.h` and are modelled once, in `EspAnsi`.
 */
module Ansi {
  import opened IntTypes

  /** `addArrayToArray`: dest[i] += (T)(src[i] * cnst). */
  method AddArrayToArray(t: ElemType, src: array<int>, dest: array<int>, len: nat, cnst: int)
    requires len <= src.Length && len <= dest.Length
    modifies dest
    ensures forall j :: 0 <= j < len ==> dest[j] == Narrow(t, old(dest[j]) + old(src[j]) * cnst)
    ensures forall j :: len <= j < dest.Length ==> dest[j] == old(dest[j])
  {
    var i := 0;
    while i < len
      invariant 0 <= i <= len
      invariant forall j :: 0 <= j < i ==> dest[j] == Narrow(t, old(dest[j]) + old(src[j]) * cnst)
      invariant forall j :: i <= j < dest.Length ==> dest[j] == old(dest[j])
      invariant forall j :: i <= j < src.Length ==> src[j] == old(src[j])
    {
      var d, p := dest[i], src[i] * cnst;
      NarrowSum(t, p, d);
      assert Narrow(t, d + Narrow(t, p)) == Narrow(t, d + p) by {
        assert Narrow(t, p) + d == d + Narrow(t, p) && p + d == d + p;
      }
      dest[i] := Narrow(t, d + Narrow(t, p));
      i := i + 1;
    }
  }

  /** `subArrayFromArray`: dest[i] -= (T)(src[i] * cnst). */
  method SubArrayFromArray(t: ElemType, src: array<int>, dest: array<int>, len: nat, cnst: int)
    requires len <= src.Length && len <= dest.Length
    modifies dest
    ensures forall j :: 0 <= j < len ==> dest[j] == Narrow(t, old(dest[j]) - old(src[j]) * cnst)
    ensures forall j :: len <= j < dest.Length ==> dest[j] == old(dest[j])
  {
    var i := 0;
    while i < len
      invariant 0 <= i <= len
      invariant forall j :: 0 <= j < i ==> dest[j] == Narrow(t, old(dest[j]) - old(src[j]) * cnst)
      invariant forall j :: i <= j < dest.Length ==> dest[j] == old(dest[j])
      invariant forall j :: i <= j < src.Length ==> src[j] == old(src[j])
    {
      var d, p := dest[i], src[i] * cnst;
      NarrowedSubtrahend(t, d, p);
      dest[i] := Narrow(t, d - Narrow(t, p));
      i := i + 1;
    }
  }

  /** Narrowing the subtrahend first does not change a narrowed difference. */
  lemma NarrowedSubtrahend(t: ElemType, a: int, b: int)
    ensures Narrow(t, a - Narrow(t, b)) == Narrow(t, a - b)
  {
    var nb := Narrow(t, b);
    NarrowSum(t, b, -a);
    assert Narrow(t, nb - a) == Narrow(t, b - a) by {
      assert nb + -a == nb - a && b + -a == b - a;
    }
    NarrowNegates(t, nb - a);
    NarrowNegates(t, b - a);
    assert -(nb - a) == a - nb && -(b - a) == a - b;
  }

  /** `mulArrayByArray`: dest[i] *= (T)(src[i] * cnst). */
  method MulArrayByArray(t: ElemType, src: array<int>, dest: array<int>, len: nat, cnst: int)
    requires len <= src.Length && len <= dest.Length
    modifies dest
    ensures forall j :: 0 <= j < len ==> dest[j] == Narrow(t, old(dest[j]) * (old(src[j]) * cnst))
    ensures forall j :: len <= j < dest.Length ==> dest[j] == old(dest[j])
  {
    var i := 0;
    while i < len
      invariant 0 <= i <= len
      invariant forall j :: 0 <= j < i ==> dest[j] == Narrow(t, old(dest[j]) * (old(src[j]) * cnst))
      invariant forall j :: i <= j < dest.Length ==> dest[j] == old(dest[j])
      invariant forall j :: i <= j < src.Length ==> src[j] == old(src[j])
    {
      var d, p := dest[i], src[i] * cnst;
      NarrowProduct(t, p, d);
      assert Narrow(t, d * Narrow(t, p)) == Narrow(t, d * p) by {
        assert Narrow(t, p) * d == d * Narrow(t, p) && p * d == d * p;
      }
      dest[i] := Narrow(t, d * Narrow(t, p));
      i := i + 1;
    }
  }
}
