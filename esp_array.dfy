/**
 * The `Array<T>` buffer class of `esp_array.h` on its portable scalar path,
 * for an integer element type `t`. Its state is a logical length, the number
 * of bytes allocated (`_size`, always rounded up to the 16-byte alignment) and
 * the buffer itself (`_array`, null when nothing is allocated).
 *
 * Allocation is the only external step: where the source calls the heap, a
 * constructor or `Append` takes `allocOk`, and a successful allocation is a
 * Dafny `new`, whose contents the verifier knows nothing about (the heap does
 * not clear memory). Binary operators allocate their result, compound
 * operators rewrite the receiver's buffer in place.
 */
module EspArray {
  import opened IntTypes
  import opened ArraySpec
  import EspAnsi

  class Array {
    /** The element type T; fixed for the lifetime of the array. */
    const t: ElemType
    /** `_length`: number of valid elements. */
    var length: nat
    /** `_size`: bytes allocated. */
    var size: nat
    /** `_array`: the buffer, or null. */
    var buf: array?<int>

    /** A buffer is present exactly when bytes are allocated, and it holds `length` elements. */
    ghost predicate Valid()
      reads this
    {
      (buf == null <==> size == 0) &&
      (buf == null ==> length == 0) &&
      (buf != null ==> buf.Length * SizeOf(t) == size && length <= buf.Length)
    }

    /** The valid elements. */
    ghost function Contents(): (s: seq<int>)
      reads this, buf
      requires Valid()
      ensures |s| == length
    {
      if buf == null then [] else buf[..length]
    }

    /** `_size / sizeof(T)`: how many elements the allocation holds. */
    function Capacity(): nat
      reads this
    {
      size / SizeOf(t)
    }

    /**
     * `Array(initialMem)`: length `initialMem`, `_mem2alloc(initialMem)` bytes,
     * a buffer with unspecified contents, or null when nothing is to be
     * allocated or the allocation fails.
     */
    constructor (t: ElemType, initialMem: nat, allocOk: bool)
      ensures this.t == t && length == initialMem && size == Mem2Alloc(t, initialMem)
      ensures buf == null <==> initialMem == 0 || !allocOk
      ensures buf != null ==> fresh(buf) && buf.Length * SizeOf(t) == size
      ensures allocOk ==> Valid()
    {
      var bytes := Mem2Alloc(t, initialMem);
      Mem2AllocHolds(t, initialMem);
      this.t := t;
      length := initialMem;
      size := bytes;
      if bytes > 0 && allocOk {
        buf := new int[bytes / SizeOf(t)];
      } else {
        buf := null;
      }
    }

    /**
     * `Array(const T* initialValues, initialMem)`: the sized constructor, then,
     * when a buffer was obtained, the first `initialMem` values are copied in.
     */
    constructor FromValues(t: ElemType, values: array<int>, initialMem: nat, allocOk: bool)
      requires initialMem <= values.Length && AllInRange(t, values[..initialMem])
      ensures this.t == t && length == initialMem && size == Mem2Alloc(t, initialMem)
      ensures buf == null <==> initialMem == 0 || !allocOk
      ensures buf != null ==> fresh(buf) && Valid() && Contents() == values[..initialMem]
    {
      var bytes := Mem2Alloc(t, initialMem);
      Mem2AllocHolds(t, initialMem);
      this.t := t;
      length := initialMem;
      size := bytes;
      if bytes > 0 && allocOk {
        var b := new int[bytes / SizeOf(t)];
        EspAnsi.CpyArray(t, values, b, initialMem, 1);
        buf := b;
      } else {
        buf := null;
      }
    }

    /** `assign`: bounds-checked store; out of range it changes nothing and reports false. */
    method Assign(v: int, index: nat) returns (ok: bool)
      requires Valid() && InRange(t, v)
      modifies buf
      ensures ok <==> index < length
      ensures Valid()
      ensures Contents() == if ok then old(Contents())[index := v] else old(Contents())
      ensures buf != null ==> buf[length..] == old(buf[length..])
    {
      if index >= length {
        return false;
      }
      buf[index] := v;
      return true;
    }

    lemma CapacityOfValid()
      requires Valid()
      ensures buf != null ==> Capacity() == buf.Length
      ensures buf == null ==> Capacity() == 0
    {
      if buf != null {
        var s := SizeOf(t);
        assert size == buf.Length * s;
        DivModUnique(size, s, buf.Length, 0);
      }
    }

    /**
     * `append(value)`. With spare room the value goes in at the old length.
     * Otherwise `_size` becomes `_mem2alloc(length + 1)` and a new buffer is
     * allocated; this version carries the old elements over (see
     * `AppendAsWritten` for the source, which does not). A failed allocation
     * leaves no buffer and reports false.
     */
    method Append(v: int, allocOk: bool) returns (ok: bool)
      requires Valid() && InRange(t, v)
      modifies this, buf
      ensures old(length) < old(Capacity()) ==> ok && buf == old(buf) && size == old(size)
      ensures old(length) >= old(Capacity()) ==>
                size == Mem2Alloc(t, old(length) + 1) && ok == allocOk && (ok ==> fresh(buf))
      ensures allocOk ==> ok
      ensures ok ==> Valid() && Contents() == old(Contents()) + [v]
      ensures !ok ==> buf == null && length == old(length)
    {
      ghost var c := Contents();
      CapacityOfValid();
      if length < size / SizeOf(t) {
        buf[length] := v;
        length := length + 1;
        assert buf[..length] == c + [v];
        return true;
      }
      size := Mem2Alloc(t, length + 1);
      Mem2AllocHolds(t, length + 1);
      if !allocOk {
        buf := null;
        return false;
      }
      buf := Grown(buf, length, size / SizeOf(t), v);
      length := length + 1;
      return true;
    }

    /**
     * `append(value)` as the source has it: when there is no room the old
     * buffer is freed and a new one allocated, but nothing is copied, so the
     * earlier positions hold whatever the new block held (`stale`).
     */
    method AppendAsWritten(v: int, allocOk: bool) returns (ok: bool, ghost stale: seq<int>)
      requires Valid() && InRange(t, v)
      modifies this, buf
      ensures ok ==> Valid()
      ensures !ok ==> buf == null && length == old(length)
      ensures old(length) < old(Capacity()) ==>
                ok && buf == old(buf) && size == old(size) && Contents() == old(Contents()) + [v]
      ensures old(length) >= old(Capacity()) ==>
                size == Mem2Alloc(t, old(length) + 1) && ok == allocOk &&
                (ok ==> fresh(buf) && old(length) < |stale| &&
                        Contents() == Reallocated(stale, old(length), v))
    {
      stale := [];
      ghost var c := Contents();
      CapacityOfValid();
      if length < size / SizeOf(t) {
        buf[length] := v;
        length := length + 1;
        assert buf[..length] == c + [v];
        return true, stale;
      }
      size := Mem2Alloc(t, length + 1);
      Mem2AllocHolds(t, length + 1);
      if !allocOk {
        buf := null;
        return false, stale;
      }
      var n := length;
      var g := new int[size / SizeOf(t)];
      stale := g[..];
      g[n] := v;
      assert g[..n + 1] == Reallocated(stale, n, v);
      buf, length := g, n + 1;
      return true, stale;
    }

    /**
     * `append(Array&)` through `operator<<`: every element of `another` is
     * appended in turn; the result reports whether a buffer is present.
     */
    method AppendArray(another: Array) returns (ok: bool)
      requires Valid() && another.Valid() && another.t == t && another != this
      requires buf == null || buf != another.buf
      requires AllInRange(t, another.Contents())
      modifies this, buf
      ensures Valid() && Contents() == old(Contents()) + old(another.Contents())
      ensures ok <==> buf != null
      ensures old(length) + old(another.length) > 0 ==> ok
    {
      ghost var prefix, src := Contents(), another.Contents();
      var i := 0;
      while i < another.length
        invariant 0 <= i <= another.length == |src|
        invariant Valid() && Contents() == prefix + src[..i]
        invariant buf == null || buf == old(buf) || fresh(buf)
        invariant buf == null || buf != another.buf
        invariant another.Valid() && another.Contents() == src
      {
        var x := another.buf[i];
        assert x == src[i] && InRange(t, x);
        var _ := Append(x, true);
        assert src[..i + 1] == src[..i] + [x];
        i := i + 1;
      }
      assert src[..another.length] == src;
      ok := buf != null;
    }

    /**
     * `operator[](Array filter)`: a new array holding, in order, the elements
     * at positions where the mask is non-zero (built by appending to an empty
     * array).
     */
    method Filter(mask: Array) returns (r: Array)
      requires Valid() && mask.Valid() && length <= mask.length
      requires forall i :: 0 <= i < length ==> InRange(t, Contents()[i])
      ensures fresh(r) && r.Valid() && r.t == t
      ensures r.Contents() == ArraySpec.Filter(Contents(), mask.Contents())
    {
      ghost var s, m := Contents(), mask.Contents();
      r := new Array(t, 0, true);
      var i := 0;
      while i < length
        invariant 0 <= i <= length
        invariant fresh(r) && r.Valid() && r.t == t
        invariant r.buf == null || fresh(r.buf)
        invariant r.Contents() == ArraySpec.Filter(s[..i], m)
      {
        FilterStep(s, m, i);
        var x := buf[i];
        assert x == s[i];
        if mask.buf[i] != 0 {
          assert m[i] != 0;
          var _ := r.Append(x, true);
        }
        i := i + 1;
      }
      assert s[..length] == s;
    }

    /**
     * The scalar comparisons `==`, `!=`, `>`, `<`, `>=`, `<=`: a new array of
     * the same length with 1 where the comparison holds and 0 elsewhere.
     * (The source writes only the 1s; see `CompareMaskAsWritten`.)
     */
    method CompareMask(op: Comparison, v: int) returns (r: Array)
      requires Valid() && InRange(t, v)
      ensures fresh(r) && r.Valid() && r.t == t && r.length == length
      ensures r.Contents() == Mask(op, Contents(), v)
    {
      r := new Array(t, length, true);
      for i := 0 to length
        invariant r.Valid() && r.length == length
        invariant r.buf != null ==> fresh(r.buf)
        invariant forall j :: 0 <= j < i ==> r.buf[j] == if Holds(op, buf[j], v) then 1 else 0
      {
        r.buf[i] := if Holds(op, buf[i], v) then 1 else 0;
      }
    }

    /**
     * The scalar comparisons as the source writes them: `cond ? newArray[i] = 1 : 0`
     * stores only the 1s, so the other positions keep the fresh buffer's
     * contents (`stale`).
     */
    method CompareMaskAsWritten(op: Comparison, v: int) returns (r: Array, ghost stale: seq<int>)
      requires Valid() && InRange(t, v)
      ensures fresh(r) && r.Valid() && r.t == t && r.length == length && length <= |stale|
      ensures r.Contents() == MaskAsWritten(op, Contents(), v, stale)
    {
      r := new Array(t, length, true);
      stale := if r.buf == null then [] else r.buf[..];
      for i := 0 to length
        invariant r.Valid() && r.length == length
        invariant r.buf != null ==> fresh(r.buf)
        invariant forall j :: 0 <= j < i ==> r.buf[j] == if Holds(op, buf[j], v) then 1 else stale[j]
        invariant forall j :: i <= j < length ==> r.buf[j] == stale[j]
      {
        if Holds(op, buf[i], v) {
          r.buf[i] := 1;
        }
      }
    }

    /** `operator!`: a new array with 1 where the element is 0 and 0 elsewhere. */
    method Not() returns (r: Array)
      requires Valid()
      ensures fresh(r) && r.Valid() && r.t == t
      ensures r.Contents() == LogicalNot(Contents())
    {
      r := new Array(t, length, true);
      for i := 0 to length
        invariant r.Valid() && r.length == length
        invariant r.buf != null ==> fresh(r.buf)
        invariant forall j :: 0 <= j < i ==> r.buf[j] == if buf[j] == 0 then 1 else 0
      {
        r.buf[i] := if buf[i] == 0 then 1 else 0;
      }
    }

    /** `operator==(const T*)`: every valid element equals the raw buffer's element at the same index. */
    method EqualsRaw(input: array<int>) returns (eq: bool)
      requires Valid() && length <= input.Length
      ensures eq <==> forall i :: 0 <= i < length ==> Contents()[i] == input[i]
    {
      var i := 0;
      while i < length
        invariant 0 <= i <= length
        invariant forall j :: 0 <= j < i ==> Contents()[j] == input[j]
      {
        if buf[i] != input[i] {
          return false;
        }
        i := i + 1;
      }
      return true;
    }

    /** `operator!=(const T*)`: the negation of `operator==(const T*)`. */
    method NotEqualsRaw(input: array<int>) returns (ne: bool)
      requires Valid() && length <= input.Length
      ensures ne <==> exists i :: 0 <= i < length && Contents()[i] != input[i]
    {
      var eq := EqualsRaw(input);
      ne := !eq;
    }

    /**
     * `operator==(Array&)`, which compares against the other array's buffer
     * over this array's length only; the other length is never consulted.
     */
    method EqualsArrayAsWritten(another: Array) returns (eq: bool)
      requires Valid() && another.Valid()
      requires length == 0 || (another.buf != null && length <= another.buf.Length)
      ensures length == 0 ==> eq
      ensures length > 0 ==> (eq <==> MatchesPrefix(Contents(), another.buf[..]))
    {
      if length == 0 {
        return true;
      }
      eq := EqualsRaw(another.buf);
    }

    /** Aggregate equality as it is meant: same length and the same elements. */
    method EqualsArray(another: Array) returns (eq: bool)
      requires Valid() && another.Valid()
      ensures eq <==> Contents() == another.Contents()
    {
      if length != another.length {
        return false;
      }
      if length == 0 {
        return true;
      }
      eq := EqualsRaw(another.buf);
      assert eq ==> Contents() == another.Contents();
    }

    /** `diff`: some valid position differs from the other array's element at that index. */
    method Diff(another: Array) returns (d: bool)
      requires Valid() && another.Valid()
      requires length == 0 || (another.buf != null && length <= another.buf.Length)
      ensures d <==> exists i :: 0 <= i < length && Contents()[i] != another.buf[i]
    {
      var i := 0;
      while i < length
        invariant 0 <= i <= length
        invariant forall j :: 0 <= j < i ==> Contents()[j] == another.buf[j]
      {
        if buf[i] != another.buf[i] {
          return true;
        }
        i := i + 1;
      }
      return false;
    }

    /**
     * `copy`: a deep copy. Length and allocated size become the other's, a
     * new buffer receives its elements, and the other array is untouched.
     */
    method Copy(another: Array)
      requires Valid() && another.Valid() && another.t == t && another != this
      modifies this
      ensures Valid() && length == another.length && size == another.size
      ensures Contents() == another.Contents()
      ensures buf == null || fresh(buf)
      ensures another.length == old(another.length) && another.buf == old(another.buf)
      ensures another.Contents() == old(another.Contents())
    {
      length := another.length;
      size := another.size;
      if size == 0 {
        buf := null;
        return;
      }
      buf := new int[another.buf.Length];
      forall i | 0 <= i < length {
        buf[i] := another.buf[i];
      }
    }

    /** `operator+=(T)`: every valid element gets `v` added, in place. */
    method AddAssign(v: int)
      requires Valid()
      modifies buf
      ensures Valid() && Contents() == AddConst(t, old(Contents()), v)
      ensures buf != null ==> buf[length..] == old(buf[length..])
    {
      if buf != null {
        EspAnsi.AddConstToArray(t, buf, buf, length, v);
      }
    }

    /** `operator-=(T)`, implemented as `+= value * (-1)`: every valid element gets `v` subtracted. */
    method SubAssign(v: int)
      requires Valid()
      modifies buf
      ensures Valid() && Contents() == AddConst(t, old(Contents()), -v)
      ensures buf != null ==> buf[length..] == old(buf[length..])
    {
      AddAssign(Narrow(t, v * -1));
      forall i | 0 <= i < length
        ensures Contents()[i] == AddConst(t, old(Contents()), -v)[i]
      {
        NarrowSum(t, -v, old(Contents())[i]);
      }
    }

    /** `operator*=(T)`: every valid element is multiplied by `v`, in place. */
    method MulAssign(v: int)
      requires Valid()
      modifies buf
      ensures Valid() && Contents() == MulConst(t, old(Contents()), v)
      ensures buf != null ==> buf[length..] == old(buf[length..])
    {
      if buf != null {
        EspAnsi.MulConstByArray(t, buf, buf, length, v);
      }
    }

    /** `operator+=(Array&)`: element-wise sum in place; `a += a` doubles every element. */
    method AddAssignArray(another: Array)
      requires Valid() && another.Valid() && length <= another.length
      modifies buf
      ensures Valid() && Contents() == Sum(t, old(Contents()), old(another.Contents()))
      ensures buf != null ==> buf[length..] == old(buf[length..])
    {
      if length > 0 {
        EspAnsi.AddArrayToArray(t, another.buf, buf, buf, length, 1);
        forall i | 0 <= i < length
          ensures Contents()[i] == Sum(t, old(Contents()), old(another.Contents()))[i]
        {
          assert (old(another.buf[i]) + old(buf[i])) * 1 == old(buf[i]) + old(another.buf[i]);
        }
      }
    }

    /**
     * `operator-=(Array&)` as the source has it: `subArrayFromArray(another,
     * _array, _array, ...)` stores another[i] - this[i].
     */
    method SubAssignArrayAsWritten(another: Array)
      requires Valid() && another.Valid() && length <= another.length
      modifies buf
      ensures Valid() && Contents() == Difference(t, old(another.Contents())[..length], old(Contents()))
      ensures buf != null ==> buf[length..] == old(buf[length..])
    {
      if length > 0 {
        EspAnsi.SubArrayFromArray(t, another.buf, buf, buf, length, 1);
        forall i | 0 <= i < length
          ensures Contents()[i] == Difference(t, old(another.Contents())[..length], old(Contents()))[i]
        {
          assert (old(another.buf[i]) - old(buf[i])) * 1 == old(another.buf[i]) - old(buf[i]);
        }
      }
    }

    /** `operator-=(Array&)` as meant (and as the float kernel path computes it): this[i] - another[i]. */
    method SubAssignArray(another: Array)
      requires Valid() && another.Valid() && length <= another.length
      modifies buf
      ensures Valid() && Contents() == Difference(t, old(Contents()), old(another.Contents()))
      ensures buf != null ==> buf[length..] == old(buf[length..])
    {
      if length > 0 {
        EspAnsi.SubArrayFromArray(t, buf, another.buf, buf, length, 1);
        forall i | 0 <= i < length
          ensures Contents()[i] == Difference(t, old(Contents()), old(another.Contents()))[i]
        {
          assert (old(buf[i]) - old(another.buf[i])) * 1 == old(buf[i]) - old(another.buf[i]);
        }
      }
    }

    /** `operator*=(Array&)`: element-wise product in place. */
    method MulAssignArray(another: Array)
      requires Valid() && another.Valid() && length <= another.length
      modifies buf
      ensures Valid() && Contents() == Product(t, old(Contents()), old(another.Contents()))
      ensures buf != null ==> buf[length..] == old(buf[length..])
    {
      if length > 0 {
        EspAnsi.MulArrayByArray(t, another.buf, buf, buf, length, 1);
        forall i | 0 <= i < length
          ensures Contents()[i] == Product(t, old(Contents()), old(another.Contents()))[i]
        {
          assert old(another.buf[i]) * old(buf[i]) * 1 == old(buf[i]) * old(another.buf[i]);
        }
      }
    }

    /** Generic `operator+(Array&, Array)`: a new array of the left operand's length. */
    method Plus(another: Array) returns (r: Array)
      requires Valid() && another.Valid() && length <= another.length
      ensures fresh(r) && r.Valid() && r.t == t
      ensures r.Contents() == Sum(t, Contents(), another.Contents())
    {
      r := new Array(t, length, true);
      if length > 0 {
        EspAnsi.AddArrayToArray(t, buf, another.buf, r.buf, length, 1);
        forall i | 0 <= i < length
          ensures r.Contents()[i] == Sum(t, Contents(), another.Contents())[i]
        {
          assert (buf[i] + another.buf[i]) * 1 == buf[i] + another.buf[i];
        }
      }
    }

    /** Generic `operator+(Array&, T)`; `operator+(T, Array)` makes the same call. */
    method PlusConst(v: int) returns (r: Array)
      requires Valid()
      ensures fresh(r) && r.Valid() && r.t == t
      ensures r.Contents() == AddConst(t, Contents(), v)
    {
      r := new Array(t, length, true);
      if length > 0 {
        EspAnsi.AddConstToArray(t, buf, r.buf, length, v);
      }
    }

    /** Generic `operator-(Array&, Array)`: element-wise difference. */
    method Minus(another: Array) returns (r: Array)
      requires Valid() && another.Valid() && length <= another.length
      ensures fresh(r) && r.Valid() && r.t == t
      ensures r.Contents() == Difference(t, Contents(), another.Contents())
    {
      r := new Array(t, length, true);
      if length > 0 {
        EspAnsi.SubArrayFromArray(t, buf, another.buf, r.buf, length, 1);
        forall i | 0 <= i < length
          ensures r.Contents()[i] == Difference(t, Contents(), another.Contents())[i]
        {
          assert (buf[i] - another.buf[i]) * 1 == buf[i] - another.buf[i];
        }
      }
    }

    /** Generic `operator-(Array&, T)`: `subConstFromArray` with the default factor 1. */
    method MinusConst(v: int) returns (r: Array)
      requires Valid()
      ensures fresh(r) && r.Valid() && r.t == t
      ensures r.Contents() == AddConst(t, Contents(), -v)
    {
      r := new Array(t, length, true);
      if length > 0 {
        EspAnsi.SubConstFromArray(t, buf, r.buf, length, v, 1);
        forall i | 0 <= i < length
          ensures r.Contents()[i] == AddConst(t, Contents(), -v)[i]
        {
          assert (buf[i] - v) * 1 == buf[i] + -v;
        }
      }
    }

    /** Generic `operator-(T, Array)`: `subConstFromArray` with factor -1 (as a T), that is v - a[i]. */
    method ConstMinusArray(v: int) returns (r: Array)
      requires Valid()
      ensures fresh(r) && r.Valid() && r.t == t
      ensures r.Contents() == ConstMinus(t, v, Contents())
    {
      r := new Array(t, length, true);
      if length > 0 {
        EspAnsi.SubConstFromArray(t, buf, r.buf, length, v, Narrow(t, -1));
      }
    }

    /** Generic `operator*(Array&, Array)`: element-wise product. */
    method Times(another: Array) returns (r: Array)
      requires Valid() && another.Valid() && length <= another.length
      ensures fresh(r) && r.Valid() && r.t == t
      ensures r.Contents() == Product(t, Contents(), another.Contents())
    {
      r := new Array(t, length, true);
      if length > 0 {
        EspAnsi.MulArrayByArray(t, buf, another.buf, r.buf, length, 1);
        forall i | 0 <= i < length
          ensures r.Contents()[i] == Product(t, Contents(), another.Contents())[i]
        {
          assert buf[i] * another.buf[i] * 1 == buf[i] * another.buf[i];
        }
      }
    }

    /** Generic `operator*(Array&, T)`; `operator*(T, Array)` makes the same call. */
    method TimesConst(v: int) returns (r: Array)
      requires Valid()
      ensures fresh(r) && r.Valid() && r.t == t
      ensures r.Contents() == MulConst(t, Contents(), v)
    {
      r := new Array(t, length, true);
      if length > 0 {
        EspAnsi.MulConstByArray(t, buf, r.buf, length, v);
      }
    }

    /**
     * Generic `operator^`, used by the element types without a specialised dot
     * product (int8, uint16 and uint32; int16, int32 and uint8 have their own):
     * it returns -1 converted to T, whatever the operands.
     */
    method DotFallback(another: Array) returns (r: int)
      requires t == I8 || t == U16 || t == U32
      ensures Signed(t) ==> r == -1
      ensures !Signed(t) ==> r == MaxOf(t)
    {
      r := Narrow(t, -1);
    }
  }

  /**
   * A new block of `cap` cells whose first `n` cells are copied from `src`
   * (none when there is no buffer) and whose next cell is `v`.
   */
  method Grown(src: array?<int>, n: nat, cap: nat, v: int) returns (g: array<int>)
    requires n < cap && (src == null ==> n == 0) && (src != null ==> n <= src.Length)
    ensures fresh(g) && g.Length == cap
    ensures g[..n + 1] == (if src == null then [] else src[..n]) + [v]
  {
    g := new int[cap];
    if src != null {
      forall i | 0 <= i < n {
        g[i] := src[i];
      }
    }
    g[n] := v;
  }
}
