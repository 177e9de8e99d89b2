/**
 * Value-level meaning of the `Array<T>` operations of `esp_array.h`: the
 * allocation size rule, the mask and filter operators, and the element-wise
 * results of the arithmetic operators, as functions on sequences. The class
 * in `EspArray` is proved against these.
 */
module ArraySpec {
  import opened IntTypes

  /** Buffer alignment in bytes (`ALIGNMENT`, esp_opt.h). */
  const ALIGNMENT: nat := 16

  /** Round allocations up to the alignment (`FAST_MODE`, on by default in esp_opt.h). */
  const FAST_MODE: bool := true

  /** `extraToAlign`: the padding that brings `m` bytes up to a multiple of the alignment. */
  function ExtraToAlign(m: nat): (e: nat)
    ensures e < ALIGNMENT
    ensures (m + e) % ALIGNMENT == 0
    ensures m % ALIGNMENT == 0 ==> e == 0
  {
    (ALIGNMENT - m % ALIGNMENT) % ALIGNMENT
  }

  /**
   * `_mem2alloc`: the byte size allocated for `n` elements of `t`. With
   * FAST_MODE it is the smallest multiple of the alignment that holds them,
   * so it also holds a whole number of elements.
   */
  function Mem2Alloc(t: ElemType, n: nat): (bytes: nat)
    ensures n * SizeOf(t) <= bytes
    ensures FAST_MODE ==> bytes % ALIGNMENT == 0 && bytes < n * SizeOf(t) + ALIGNMENT
    ensures bytes % SizeOf(t) == 0
    ensures bytes == 0 <==> n == 0
  {
    var minBytes: nat := n * SizeOf(t);
    var aligned := minBytes + ExtraToAlign(minBytes);
    AlignedHoldsWholeElements(aligned, SizeOf(t));
    if FAST_MODE then aligned else minBytes
  }

  /** A multiple of the alignment is a multiple of every element size. */
  lemma AlignedHoldsWholeElements(b: nat, s: nat)
    requires b % ALIGNMENT == 0 && (s == 1 || s == 2 || s == 4)
    ensures b % s == 0
  {
    var k := b / ALIGNMENT;
    assert b == k * ALIGNMENT;
    DivModUnique(b, s, k * (ALIGNMENT / s), 0);
  }

  /** No multiple of the alignment that holds `n` elements is smaller than `Mem2Alloc`. */
  lemma Mem2AllocIsSmallest(t: ElemType, n: nat, b: nat)
    requires b % ALIGNMENT == 0 && n * SizeOf(t) <= b
    ensures Mem2Alloc(t, n) <= b
  {
    var r := Mem2Alloc(t, n);
    assert r < b + ALIGNMENT;
    assert (b - r) % ALIGNMENT == 0;
  }

  /** Element capacity of an allocation of `Mem2Alloc(t, n)` bytes: at least `n`. */
  lemma Mem2AllocHolds(t: ElemType, n: nat)
    ensures Mem2Alloc(t, n) / SizeOf(t) >= n
    ensures (Mem2Alloc(t, n) / SizeOf(t)) * SizeOf(t) == Mem2Alloc(t, n)
  {
    var b, s := Mem2Alloc(t, n), SizeOf(t);
    var k := b / s;
    assert b == k * s;
  }

  /* ---------------------------------------------------------------- */
  /* Filtering by a mask                                               */
  /* ---------------------------------------------------------------- */

  /** The elements of `s` at positions where `m` is non-zero, in order. */
  function Filter(s: seq<int>, m: seq<int>): seq<int>
    requires |s| <= |m|
  {
    if |s| == 0 then []
    else Filter(s[..|s| - 1], m) + (if m[|s| - 1] != 0 then [s[|s| - 1]] else [])
  }

  /** Number of non-zero entries in `m`. */
  function CountNonZero(m: seq<int>): nat {
    if |m| == 0 then 0
    else CountNonZero(m[..|m| - 1]) + (if m[|m| - 1] != 0 then 1 else 0)
  }

  /** The filter keeps exactly as many elements as the mask has non-zero entries. */
  lemma {:induction false} FilterLength(s: seq<int>, m: seq<int>)
    requires |s| == |m|
    ensures |Filter(s, m)| == CountNonZero(m)
  {
    if |s| > 0 {
      FilterLength(s[..|s| - 1], m[..|m| - 1]);
      FilterPrefixMask(s[..|s| - 1], m, m[..|m| - 1]);
    }
  }

  /** Only the first |s| entries of the mask matter. */
  lemma {:induction false} FilterPrefixMask(s: seq<int>, m: seq<int>, m': seq<int>)
    requires |s| <= |m| && |s| <= |m'| && m[..|s|] == m'[..|s|]
    ensures Filter(s, m) == Filter(s, m')
  {
    if |s| > 0 {
      var n := |s| - 1;
      assert m[n] == m[..|s|][n] == m'[..|s|][n] == m'[n];
      assert m[..n] == m[..|s|][..n] && m'[..n] == m'[..|s|][..n];
      FilterPrefixMask(s[..n], m, m');
    }
  }

  /** A value is kept by the filter exactly when it sits at some selected position. */
  lemma {:induction false} FilterMembers(s: seq<int>, m: seq<int>, x: int)
    requires |s| <= |m|
    ensures x in Filter(s, m) <==> exists i :: 0 <= i < |s| && m[i] != 0 && s[i] == x
  {
    if |s| > 0 {
      var n := |s| - 1;
      FilterMembers(s[..n], m, x);
      if x in Filter(s, m) && !(x in Filter(s[..n], m)) {
        assert m[n] != 0 && s[n] == x;
      }
      if exists i :: 0 <= i < |s| && m[i] != 0 && s[i] == x {
        var i :| 0 <= i < |s| && m[i] != 0 && s[i] == x;
        if i < n {
          assert s[..n][i] == x;
        }
      }
    }
  }

  /** Filtering a prefix one element longer appends that element when its mask entry is set. */
  lemma FilterStep(s: seq<int>, m: seq<int>, i: nat)
    requires i < |s| <= |m|
    ensures Filter(s[..i + 1], m) == Filter(s[..i], m) + (if m[i] != 0 then [s[i]] else [])
  {
    assert s[..i + 1][..i] == s[..i];
  }

  /* ---------------------------------------------------------------- */
  /* Comparison masks and logical not                                  */
  /* ---------------------------------------------------------------- */

  /** The six scalar comparison operators. */
  datatype Comparison = Eq | Ne | Gt | Lt | Ge | Le

  predicate Holds(op: Comparison, x: int, v: int) {
    match op
    case Eq => x == v
    case Ne => x != v
    case Gt => x > v
    case Lt => x < v
    case Ge => x >= v
    case Le => x <= v
  }

  /** The comparison that holds exactly where `op` fails. */
  function Negation(op: Comparison): (n: Comparison)
    ensures forall x, v :: Holds(n, x, v) <==> !Holds(op, x, v)
  {
    match op
    case Eq => Ne
    case Ne => Eq
    case Gt => Le
    case Le => Gt
    case Lt => Ge
    case Ge => Lt
  }

  /** The intended mask: 1 where `s[i] op v` holds, 0 elsewhere. */
  function Mask(op: Comparison, s: seq<int>, v: int): (m: seq<int>)
    ensures |m| == |s|
    ensures forall i :: 0 <= i < |s| ==> m[i] in {0, 1} && (m[i] == 1 <==> Holds(op, s[i], v))
  {
    seq(|s|, i requires 0 <= i < |s| => if Holds(op, s[i], v) then 1 else 0)
  }

  /**
   * The mask as the source computes it: `cond ? newArray[i] = 1 : 0` writes
   * only the 1s, so elsewhere the fresh buffer keeps whatever `stale` held.
   */
  function MaskAsWritten(op: Comparison, s: seq<int>, v: int, stale: seq<int>): (m: seq<int>)
    requires |s| <= |stale|
    ensures |m| == |s|
  {
    seq(|s|, i requires 0 <= i < |s| => if Holds(op, s[i], v) then 1 else stale[i])
  }

  /** The written mask equals the intended one only if the buffer already held 0 where the test fails. */
  lemma MaskAsWrittenAgrees(op: Comparison, s: seq<int>, v: int, stale: seq<int>)
    requires |s| <= |stale|
    ensures MaskAsWritten(op, s, v, stale) == Mask(op, s, v) <==>
              forall i :: 0 <= i < |s| && !Holds(op, s[i], v) ==> stale[i] == 0
  {
    var a, b := MaskAsWritten(op, s, v, stale), Mask(op, s, v);
    if a == b {
      forall i | 0 <= i < |s| && !Holds(op, s[i], v) ensures stale[i] == 0 {
        assert a[i] == b[i];
      }
    }
  }

  /** Concrete case: {1} == 2 over a buffer that held 7 yields {7}, not {0}. */
  lemma MaskLeavesStaleValue()
    ensures MaskAsWritten(Eq, [1], 2, [7]) == [7]
    ensures Mask(Eq, [1], 2) == [0]
  {
  }

  /** `operator!`: 1 where the element is 0, 0 elsewhere. */
  function LogicalNot(s: seq<int>): (r: seq<int>)
    ensures |r| == |s|
    ensures forall i :: 0 <= i < |s| ==> r[i] in {0, 1}
    ensures forall i :: 0 <= i < |s| ==> (r[i] == 1 <==> s[i] == 0)
  {
    seq(|s|, i requires 0 <= i < |s| => if s[i] == 0 then 1 else 0)
  }

  /** Negating a comparison mask gives the mask of the negated comparison; `!` is an involution on masks. */
  lemma NotOfMask(op: Comparison, s: seq<int>, v: int)
    ensures LogicalNot(Mask(op, s, v)) == Mask(Negation(op), s, v)
    ensures LogicalNot(LogicalNot(Mask(op, s, v))) == Mask(op, s, v)
  {
    var m := Mask(op, s, v);
    assert forall i :: 0 <= i < |s| ==> LogicalNot(m)[i] == Mask(Negation(op), s, v)[i];
  }

  /** Filtering by a mask and by its negation splits the array: every element lands on one side. */
  lemma FilterPartition(op: Comparison, s: seq<int>, v: int)
    ensures |Filter(s, Mask(op, s, v))| + |Filter(s, Mask(Negation(op), s, v))| == |s|
    ensures forall x :: x in Filter(s, Mask(op, s, v)) ==> x in s && Holds(op, x, v)
  {
    var m, n := Mask(op, s, v), Mask(Negation(op), s, v);
    FilterLength(s, m);
    FilterLength(s, n);
    CountComplement(m, n);
    forall x | x in Filter(s, m) ensures x in s && Holds(op, x, v) {
      FilterMembers(s, m, x);
    }
  }

  lemma {:induction false} CountComplement(m: seq<int>, n: seq<int>)
    requires |m| == |n|
    requires forall i :: 0 <= i < |m| ==> (m[i] != 0 <==> n[i] == 0)
    ensures CountNonZero(m) + CountNonZero(n) == |m|
  {
    if |m| > 0 {
      CountComplement(m[..|m| - 1], n[..|n| - 1]);
    }
  }

  /** The example of the source's doc comment: {1,2,3,4,5} filtered by {0,1,0,1,1} is {2,4,5}. */
  lemma FilterExample()
    ensures Filter([1, 2, 3, 4, 5], [0, 1, 0, 1, 1]) == [2, 4, 5]
  {
    var s, m := [1, 2, 3, 4, 5], [0, 1, 0, 1, 1];
    assert s[..0] == [];
    assert Filter(s[..1], m) == [] by { assert s[..1][..0] == s[..0]; }
    assert Filter(s[..2], m) == [2] by { assert s[..2][..1] == s[..1]; }
    assert Filter(s[..3], m) == [2] by { assert s[..3][..2] == s[..2]; }
    assert Filter(s[..4], m) == [2, 4] by { assert s[..4][..3] == s[..3]; }
    assert s[..5][..4] == s[..4] && s[..5] == s;
  }

  /* ---------------------------------------------------------------- */
  /* Aggregate equality                                                */
  /* ---------------------------------------------------------------- */

  /** `s` agrees with the start of `raw`; the length of `raw` beyond `|s|` plays no part. */
  predicate MatchesPrefix(s: seq<int>, raw: seq<int>) {
    |s| <= |raw| && raw[..|s|] == s
  }

  /** Matching a prefix is equality only when the lengths agree. */
  lemma MatchesPrefixIsEquality(s: seq<int>, raw: seq<int>)
    ensures MatchesPrefix(s, raw) && |s| == |raw| <==> s == raw
  {
    if s == raw {
      assert raw[..|s|] == raw;
    }
  }

  /** Concrete case: {1,2} matches the start of {1,2,3}, yet the two differ. */
  lemma PrefixMatchIgnoresLength()
    ensures MatchesPrefix([1, 2], [1, 2, 3]) && [1, 2] != [1, 2, 3]
  {
    assert [1, 2, 3][..2] == [1, 2];
  }

  /* ---------------------------------------------------------------- */
  /* Appending past the capacity                                       */
  /* ---------------------------------------------------------------- */

  /**
   * The contents after a reallocating append that copies nothing: the first
   * `n` positions of the new block (`stale`) and then the appended value.
   */
  function Reallocated(stale: seq<int>, n: nat, v: int): (r: seq<int>)
    requires n < |stale|
    ensures |r| == n + 1 && r[n] == v
    ensures forall i :: 0 <= i < n ==> r[i] == stale[i]
  {
    stale[..n] + [v]
  }

  /** Such an append keeps the old contents exactly when the new block already held them. */
  lemma ReallocatedKeepsContents(stale: seq<int>, old_: seq<int>, v: int)
    requires |old_| < |stale|
    ensures Reallocated(stale, |old_|, v) == old_ + [v] <==> stale[..|old_|] == old_
  {
    var r := Reallocated(stale, |old_|, v);
    if r == old_ + [v] {
      assert r[..|old_|] == old_;
    }
  }

  /**
   * Concrete case with int16 elements: eight elements fill the 16 aligned
   * bytes, so appending 9 reallocates; over a zeroed block the earlier
   * elements read back as 0.
   */
  lemma ReallocationLosesElements()
    ensures Mem2Alloc(I16, 8) == 16 && Mem2Alloc(I16, 9) == 32
    ensures Reallocated(seq(16, i => 0), 8, 9) != [1, 2, 3, 4, 5, 6, 7, 8] + [9]
  {
    var r := Reallocated(seq(16, i => 0), 8, 9);
    assert r[0] == 0;
  }

  /* ---------------------------------------------------------------- */
  /* Element-wise arithmetic, as the generic operators compute it      */
  /* ---------------------------------------------------------------- */

  /** a[i] + b[i] in T, over the length of the left operand. */
  function Sum(t: ElemType, a: seq<int>, b: seq<int>): (r: seq<int>)
    requires |a| <= |b|
    ensures |r| == |a|
  {
    seq(|a|, i requires 0 <= i < |a| => Narrow(t, a[i] + b[i]))
  }

  /** a[i] - b[i] in T, over the length of the left operand. */
  function Difference(t: ElemType, a: seq<int>, b: seq<int>): (r: seq<int>)
    requires |a| <= |b|
    ensures |r| == |a|
  {
    seq(|a|, i requires 0 <= i < |a| => Narrow(t, a[i] - b[i]))
  }

  /** a[i] * b[i] in T, over the length of the left operand. */
  function Product(t: ElemType, a: seq<int>, b: seq<int>): (r: seq<int>)
    requires |a| <= |b|
    ensures |r| == |a|
  {
    seq(|a|, i requires 0 <= i < |a| => Narrow(t, a[i] * b[i]))
  }

  /** a[i] + c in T. */
  function AddConst(t: ElemType, a: seq<int>, c: int): (r: seq<int>)
    ensures |r| == |a|
  {
    seq(|a|, i requires 0 <= i < |a| => Narrow(t, a[i] + c))
  }

  /** a[i] * c in T. */
  function MulConst(t: ElemType, a: seq<int>, c: int): (r: seq<int>)
    ensures |r| == |a|
  {
    seq(|a|, i requires 0 <= i < |a| => Narrow(t, a[i] * c))
  }

  /** c - a[i] in T. */
  function ConstMinus(t: ElemType, c: int, a: seq<int>): (r: seq<int>)
    ensures |r| == |a|
  {
    seq(|a|, i requires 0 <= i < |a| => Narrow(t, c - a[i]))
  }

  predicate AllInRange(t: ElemType, a: seq<int>) {
    forall i :: 0 <= i < |a| ==> InRange(t, a[i])
  }

  /** Subtracting what was added restores an array of values of T, wrap-around included. */
  lemma DifferenceUndoesSum(t: ElemType, a: seq<int>, b: seq<int>)
    requires |a| <= |b| && AllInRange(t, a)
    ensures Difference(t, Sum(t, a, b), b) == a
  {
    var l := Difference(t, Sum(t, a, b), b);
    forall i | 0 <= i < |a| ensures l[i] == a[i] {
      NarrowCancel(t, a[i], b[i]);
    }
    assert |l| == |a|;
  }

  /** Adding a constant and then its negation restores an array of values of T. */
  lemma AddConstInverse(t: ElemType, a: seq<int>, c: int)
    requires AllInRange(t, a)
    ensures AddConst(t, AddConst(t, a, c), -c) == a
  {
    var l := AddConst(t, AddConst(t, a, c), -c);
    forall i | 0 <= i < |a| ensures l[i] == a[i] {
      NarrowCancel(t, a[i], c);
    }
    assert |l| == |a|;
  }

  /** Scalar minus array is the negation of array minus scalar. */
  lemma ConstMinusIsNegatedDifference(t: ElemType, c: int, a: seq<int>)
    ensures ConstMinus(t, c, a) == MulConst(t, AddConst(t, a, -c), -1)
  {
    var l, r := ConstMinus(t, c, a), MulConst(t, AddConst(t, a, -c), -1);
    forall i | 0 <= i < |a| ensures l[i] == r[i] {
      NarrowConstMinus(t, c, a[i]);
    }
    assert |l| == |r|;
  }

  /** Swapping the operands of a subtraction negates the result: b - a is -(a - b) in T. */
  lemma SwappedDifferenceNegates(t: ElemType, a: seq<int>, b: seq<int>)
    requires |a| == |b|
    ensures Difference(t, b, a) == MulConst(t, Difference(t, a, b), -1)
  {
    var l, r := Difference(t, b, a), MulConst(t, Difference(t, a, b), -1);
    forall i | 0 <= i < |a| ensures l[i] == r[i] {
      NarrowSwap(t, a[i], b[i]);
    }
    assert |l| == |r|;
  }

  /** Scaling by 1 leaves an array of values of T unchanged. */
  lemma MulConstOne(t: ElemType, a: seq<int>)
    requires AllInRange(t, a)
    ensures MulConst(t, a, 1) == a
  {
    var l := MulConst(t, a, 1);
    forall i | 0 <= i < |a| ensures l[i] == a[i] {
      assert a[i] * 1 == a[i];
    }
    assert |l| == |a|;
  }

  /** Scaling twice is scaling once by the product of the factors, wrap-around included. */
  lemma MulConstComposes(t: ElemType, a: seq<int>, c: int, d: int)
    ensures MulConst(t, MulConst(t, a, c), d) == MulConst(t, a, c * d)
  {
    var l, r := MulConst(t, MulConst(t, a, c), d), MulConst(t, a, c * d);
    forall i | 0 <= i < |a| ensures l[i] == r[i] {
      NarrowScaleTwice(t, a[i], c, d);
    }
    assert |l| == |r|;
  }

  /** The element-wise product of two arrays of the same length does not depend on their order. */
  lemma ProductCommutes(t: ElemType, a: seq<int>, b: seq<int>)
    requires |a| == |b|
    ensures Product(t, a, b) == Product(t, b, a)
  {
    var l, r := Product(t, a, b), Product(t, b, a);
    forall i | 0 <= i < |a| ensures l[i] == r[i] {
      assert a[i] * b[i] == b[i] * a[i];
    }
    assert |l| == |r|;
  }

  /** Concrete case with int16 elements: {5} - {3} is {2}, while the operands swapped give {-2}. */
  lemma SwappedDifferenceExample()
    ensures Difference(I16, [5], [3]) == [2]
    ensures Difference(I16, [3], [5]) == [-2]
  {
  }

  /** Concrete case with int16 elements: {10,20,30} + {1,2,3} and {10,20,30} * {1,2,3}. */
  lemma SumAndProductExample()
    ensures Sum(I16, [10, 20, 30], [1, 2, 3]) == [11, 22, 33]
    ensures Product(I16, [10, 20, 30], [1, 2, 3]) == [10, 40, 90]
  {
  }
}
