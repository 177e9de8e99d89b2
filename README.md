# EspMath core in Dafny

A model of the integer core of the EspMath embedded array library:

- the `Array<T>` buffer class on its portable scalar path;
- the scalar loop helpers it is built on, in both revisions;
- the `FixedPoint` Q-format number.

Element types are the integer types of at most four bytes (`IntTypes.ElemType`). Cells hold unbounded integers. Every store into a `T` is explicitly narrowed with two's-complement wrap-around (`IntTypes.Narrow`). Signed overflow is undefined behaviour in C; this model gives it the wrap-around that the target compiler produces. C's truncating `/` is `IntTypes.CDiv`, and the arithmetic `>>` is `IntTypes.Asr`. Inside `CDiv` Dafny's own `/` sees only non-negative operands. `Asr` uses Dafny's `/` on a possibly negative value, but only by a positive power of two. There Dafny's Euclidean division floors, as an arithmetic shift does.

Files and modules:

- `int_types.dfy`, module `IntTypes`: element types, narrowing, C division and shifts.
- `esp_ansi.dfy`, module `EspAnsi`: the `esp_ansi.h` helpers. Each is a method over arrays, with a loop and its invariants. Its postconditions are phrased with `old(...)`, so they also hold when `dest` is the same array as a source, as in every compound operator of `Array`.
  - The `cpyArray`, `cpyConst`, `addConstToArray`, `subConstFromArray` and `mulConstByArray` loops of `ansi.h` are the same code as here and are not repeated.
  - As in `ansi.h`, `mulConstByArray` writes `src[i]*cnst`. It matches its own comment, `dest[i] *= cnst`, only when `dest` is `src`.
- `ansi.dfy`, module `Ansi`: the accumulate-in-place helpers of the older `ansi.h` revision. Each new `dest[i]` is stated in terms of the old one.
- `array_spec.dfy`, module `ArraySpec`: the value-level meaning of the `Array` operations. It covers the aligned allocation size (`ALIGNMENT` = 16, `FAST_MODE` on), mask filtering, comparison masks, and element-wise results, with the lemmas about them.
- `esp_array.dfy`, module `EspArray`: `class Array`, with fields `length`, `size` (bytes) and `buf` (null when nothing is allocated).
  - Compound operators rewrite `buf` in place by calling the `EspAnsi` helpers with the buffer as both source and destination.
  - `esp_array.h` includes `ansi.h` (line 18), but its calls pass two sources, a destination and a length, as at lines 347, 362, 809 and 887. Only the `esp_ansi.h` signatures take those arguments; with the `ansi.h` ones, `_array` would be passed as the length. Both headers use the same include guard, `_ANSI_VERSION_H`, so only one of them is compiled, and the calls are valid only against `esp_ansi.h`. The `Array` model therefore binds to `EspAnsi`. The `-=` finding below depends on this binding.
  - Binary operators return a fresh `Array` of the left operand's length.
  - Each method is proved against the `ArraySpec` functions.
- `esp_fixed_point_ops.dfy`, module `FixedPointOps`: the pure part of `FixedPoint`. It holds the `FP_MUL` and `FP_DIV` macros, the value datatype `Fixed`, the comparisons and casts, and the free operators of `esp_fixed_point.cpp`.
- `esp_fixed_point.dfy`, module `FixedPointClass`: `class FixedPoint`. Its constructors, assignments and compound operators update `data` and `frac` in place. Each compound operator is proved to leave the value that the matching free operator computes.

How allocation is modelled:

- The heap is abstract. The constructors and `append` take `allocOk`, which says whether the allocation succeeds.
- A successful allocation is a Dafny `new`. Nothing is known about its contents, just as nothing is known about the contents of fresh heap memory.
- `copy` and the operators that return a new array always obtain their buffer.

Two behaviours worth noting:

- **Failed allocation.** The constructor keeps `_length = initialMem` and `_size = _mem2alloc(initialMem)` with a null buffer; it does not reset them to zero (`EspArray.Array.constructor`).
- **Array equality.** `operator==(Array&)` is documented as verifying that two arrays are identical (esp_array.h:266), but it ignores the other array's length (see Findings).

## Model

| member | source | states |
|---|---|---|
| EspAnsi.CpyArray | src/esp_ansi.h:35-40 | dest[i] becomes src[i]*cnst in T for i < len, and nothing else changes. With cnst = 1 and values of T, the prefix is an exact copy. |
| EspAnsi.CpyConst | src/esp_ansi.h:51-56 | The first len entries become cnst, and the rest of dest is unchanged. |
| EspAnsi.AddArrayToArray | src/esp_ansi.h:68-73 | dest[i] = (src1[i]+src2[i])*cnst in T from the old values, which is valid when dest aliases a source. The rest is unchanged. |
| EspAnsi.AddConstToArray | src/esp_ansi.h:85-90 | dest[i] = src[i]+cnst from the old values, safe in place. The rest is unchanged. |
| EspAnsi.SubArrayFromArray | src/esp_ansi.h:102-107 | dest[i] = (src1[i]-src2[i])*cnst from the old values. The rest is unchanged. |
| EspAnsi.SubConstFromArray | src/esp_ansi.h:119-124 | dest[i] = (src[i]-cnst1)*cnst2. When cnst2 is -1 as a T, dest[i] = cnst1-src[i]. |
| EspAnsi.NegatedScale | src/esp_array.h:930-935 | Multiplying by -1 converted to T negates, modulo the width of T. |
| EspAnsi.MulArrayByArray | src/esp_ansi.h:136-141 | dest[i] = src1[i]*src2[i]*cnst from the old values. The rest is unchanged. |
| EspAnsi.MulConstByArray | src/esp_ansi.h:152-157 | dest[i] = src[i]*cnst from the old values, safe in place. The rest is unchanged. |
| EspAnsi.DivArrayByArray | src/esp_ansi.h:168-173 | Requires every divisor read to be non-zero. dest[i] is the truncated quotient src1[i]/src2[i] reduced to T (see "## Left out"). |
| EspAnsi.DivArrayByConst | src/esp_ansi.h:184-189 | Requires a non-zero divisor when anything is read. dest[i] is the truncated src[i]/cnst. |
| EspAnsi.DivConstByArray | src/esp_ansi.h:200-205 | Requires non-zero src[i]. dest[i] is the truncated cnst/src[i] reduced to T: the integer quotient, not the float one (see "## Left out"). |
| EspAnsi.Power | src/esp_ansi.h:207-219 | The accumulator loop returns x^n reduced to T. |
| EspAnsi.PowerRecurrence | src/esp_ansi.h:207-219 | power(x, n+1) == power(x, n)*x in T, for every x and n. |
| Ansi.AddArrayToArray | src/ansi.h:66-71 | The new dest[i] is the old dest[i] + src[i]*cnst in T for i < len. The rest is unchanged. |
| Ansi.SubArrayFromArray | src/ansi.h:100-105 | The new dest[i] is the old dest[i] - src[i]*cnst. The rest is unchanged. |
| Ansi.NarrowedSubtrahend | src/ansi.h:100-105 | Converting the subtrahend to T first does not change the stored difference. |
| Ansi.MulArrayByArray | src/ansi.h:134-139 | The new dest[i] is the old dest[i] * (src[i]*cnst). The rest is unchanged. |
| ArraySpec.ExtraToAlign | src/esp_array.h:656-659 | The padding is below 16, brings the size to a multiple of 16, and is 0 for aligned sizes. |
| ArraySpec.Mem2Alloc | src/esp_array.h:639-648 | The allocation holds n elements. It is a multiple of 16 and of sizeof(T), less than 16 bytes over, and 0 exactly for n = 0. |
| ArraySpec.Mem2AllocIsSmallest | src/esp_array.h:639-648 | No multiple of 16 that holds n elements is smaller. |
| ArraySpec.Mem2AllocHolds | src/esp_array.h:639-648 | `_size/sizeof(T)` is at least n and divides exactly. |
| ArraySpec.FilterLength | src/esp_array.h:121-140 | The filtered length is the number of non-zero mask entries. |
| ArraySpec.FilterPrefixMask | src/esp_array.h:133-140 | Only the first length entries of the mask matter. |
| ArraySpec.FilterMembers | src/esp_array.h:121-140 | A value is kept exactly when it sits at a position whose mask entry is non-zero. |
| ArraySpec.FilterStep | src/esp_array.h:136-137 | Each loop step appends the element exactly when its mask entry is set. |
| ArraySpec.FilterExample | src/esp_array.h:121-130 | {1,2,3,4,5} filtered by {0,1,0,1,1} is {2,4,5}. |
| ArraySpec.Negation | src/esp_array.h:148-230 | The six comparisons come in pairs; each pair holds exactly where the other fails. |
| ArraySpec.Mask | src/esp_array.h:148-230 | The mask has the same length and holds 1 exactly where the comparison holds, 0 elsewhere. |
| ArraySpec.MaskAsWrittenAgrees | src/esp_array.h:148-155 | The mask as written equals the intended one iff the fresh buffer already held 0 wherever the test fails. |
| ArraySpec.MaskLeavesStaleValue | src/esp_array.h:148-155 | {1} == 2 over a buffer holding 7 gives {7}; the intended mask is {0}. |
| ArraySpec.LogicalNot | src/esp_array.h:237-244 | Same length, and every entry is 0 or 1: it is 1 exactly where the element is 0. |
| ArraySpec.NotOfMask | src/esp_array.h:148-244 | `!` of a comparison mask is the mask of the negated comparison, and `!` twice is the identity on masks. |
| ArraySpec.FilterPartition | src/esp_array.h:121-230 | Filtering by a mask and by its negation together keep every element once. Everything kept satisfies the comparison. |
| ArraySpec.MatchesPrefixIsEquality | src/esp_array.h:253-281 | Matching the start of the other buffer is equality exactly when the lengths agree. |
| ArraySpec.PrefixMatchIgnoresLength | src/esp_array.h:272-276 | {1,2} matches the start of {1,2,3}, yet the two differ. |
| ArraySpec.Reallocated | src/esp_array.h:461-478 | After a reallocating append without a copy, the earlier positions hold the new block's contents and the last holds v. |
| ArraySpec.ReallocatedKeepsContents | src/esp_array.h:461-478 | Such an append keeps the old contents iff the new block already held them. |
| ArraySpec.ReallocationLosesElements | src/esp_array.h:453-478 | Eight int16 values fill 16 bytes, so appending a ninth reallocates to 32 bytes; over a zeroed block the contents are lost. |
| ArraySpec.DifferenceUndoesSum | src/esp_array.h:806-889 | (a + b) - b == a element-wise, wrap-around included. |
| ArraySpec.AddConstInverse | src/esp_array.h:301-315 | Adding c and then -c restores the array. |
| ArraySpec.ConstMinusIsNegatedDifference | src/esp_array.h:908-935 | c - a equals -(a - c) element-wise in T. |
| ArraySpec.SwappedDifferenceNegates | src/esp_array.h:360-363 | Swapping the operands of a subtraction negates it in T. |
| ArraySpec.SwappedDifferenceExample | src/esp_array.h:360-363 | {5}-{3} is {2}, while the swapped operands give {-2}. |
| ArraySpec.MulConstOne | src/esp_array.h:987-993 | Scaling an array of values of T by 1 gives it back. |
| ArraySpec.MulConstComposes | src/esp_array.h:323-326 | `a *= c; a *= d` gives the same as `a *= c*d`, wrap-around included. |
| ArraySpec.ProductCommutes | src/esp_array.h:955-961 | The element-wise product of equally long arrays does not depend on the order of the operands. |
| ArraySpec.SumAndProductExample | src/esp_array.h:806-961 | int16 {10,20,30}+{1,2,3} = {11,22,33} and {10,20,30}*{1,2,3} = {10,40,90}. |
| EspArray.Array.constructor | src/esp_array.h:73-78 | length = initialMem and size = `_mem2alloc(initialMem)`. The buffer is null exactly when nothing is to be allocated or allocation fails; otherwise it holds size/sizeof(T) cells. |
| EspArray.Array.FromValues | src/esp_array.h:86-92 | As the sized constructor; when a buffer is obtained, its first initialMem elements equal the given values. |
| EspArray.Array.Assign | src/esp_array.h:439-444 | Returns true iff index < length. Then only that position changes, to v; otherwise nothing changes. |
| EspArray.Array.Append | src/esp_array.h:453-479 | With room: v goes at the old length, and size and buffer are kept. Without room: size becomes `_mem2alloc(length+1)`, and on success the contents are the old ones plus v. On failure: no buffer, length kept, false. |
| EspArray.Array.AppendAsWritten | src/esp_array.h:453-479 | As `Append`, except that after a reallocation the earlier positions hold the new block's stale contents. |
| EspArray.Array.AppendArray | src/esp_array.h:488-492 | The contents become the old contents followed by the other array's. Returns whether a buffer is present, which is true whenever the total is non-empty. |
| EspArray.Array.Filter | src/esp_array.h:133-140 | A fresh array holding exactly `ArraySpec.Filter` of the contents by the mask. |
| EspArray.Array.CompareMask | src/esp_array.h:148-230 | A fresh array of the same length equal to `Mask(op, contents, v)`: 1 where the comparison holds, 0 elsewhere. |
| EspArray.Array.CompareMaskAsWritten | src/esp_array.h:148-230 | A fresh array holding 1 where the comparison holds and the buffer's previous contents elsewhere. |
| EspArray.Array.Not | src/esp_array.h:237-244 | A fresh array with 1 where the element is 0 and 0 elsewhere. |
| EspArray.Array.EqualsRaw | src/esp_array.h:253-263 | True iff every element below length equals input[i]. |
| EspArray.Array.NotEqualsRaw | src/esp_array.h:290-293 | True iff some element below length differs from input[i]. |
| EspArray.Array.EqualsArrayAsWritten | src/esp_array.h:272-281 | True iff the contents match the start of the other buffer; the other length is ignored. |
| EspArray.Array.EqualsArray | src/esp_array.h:272-281 | True iff both arrays have the same length and the same elements. |
| EspArray.Array.Diff | src/esp_array.h:583-593 | True iff some position below length differs from the other buffer. |
| EspArray.Array.Copy | src/esp_array.h:525-536 | length and size become the other's, and a new buffer holds its elements. The other array is untouched. |
| EspArray.Array.AddAssign | src/esp_array.h:301-304 | The contents become `AddConst(old contents, v)`. Cells beyond length are untouched. |
| EspArray.Array.SubAssign | src/esp_array.h:312-315 | Adding v*(-1) in T is subtracting v: the contents become `AddConst(old, -v)`. |
| EspArray.Array.MulAssign | src/esp_array.h:323-326 | The contents become `MulConst(old contents, v)`. Cells beyond length are untouched. |
| EspArray.Array.AddAssignArray | src/esp_array.h:345-348 | The contents become this[i] + another[i], so `a += a` doubles. |
| EspArray.Array.SubAssignArrayAsWritten | src/esp_array.h:360-363 | The contents become another[i] - this[i]. |
| EspArray.Array.SubAssignArray | src/esp_array.h:360-363 | The contents become this[i] - another[i]. |
| EspArray.Array.MulAssignArray | src/esp_array.h:375-378 | The contents become this[i] * another[i]. |
| EspArray.Array.Plus | src/esp_array.h:806-811 | A fresh array of the left length equal to `Sum(this, another)`. |
| EspArray.Array.PlusConst | src/esp_array.h:838-843 | A fresh array equal to `AddConst(this, v)`; scalar + array is the same. |
| EspArray.Array.Minus | src/esp_array.h:884-889 | A fresh array equal to `Difference(this, another)`. |
| EspArray.Array.MinusConst | src/esp_array.h:908-913 | A fresh array equal to a[i] - v in T. |
| EspArray.Array.ConstMinusArray | src/esp_array.h:930-935 | A fresh array equal to v - a[i] in T. |
| EspArray.Array.Times | src/esp_array.h:956-961 | A fresh array equal to `Product(this, another)`. |
| EspArray.Array.TimesConst | src/esp_array.h:988-993 | A fresh array equal to `MulConst(this, v)`. |
| EspArray.Array.DotFallback | src/esp_array.h:1211-1215 | For int8, uint16 and uint32, which have no specialised `^`, the generic one returns -1 as a T: -1 for int8 and the maximum for the unsigned types. |
| FixedPointOps.FpMul | src/esp_fixed_point.h:8 | The floor of x*y / 2^f. |
| FixedPointOps.FpDivAsWritten | src/esp_fixed_point.h:9 | When x*2^(2f) fits in int32, the truncated quotient of x*2^(2f) by y: the remainder is smaller than y in magnitude and has the sign of the dividend. |
| FixedPointOps.FpDiv | src/esp_fixed_point.h:9 | When x*2^f fits in int32, the truncated quotient of x*2^f by y: the remainder is smaller than y in magnitude and has the sign of the dividend. |
| FixedPointOps.Eq | src/esp_fixed_point.h:44 | True iff the two values are identical in both fields. |
| FixedPointOps.NeAsWritten | src/esp_fixed_point.h:45 | True only for values that differ, but not for every such pair. |
| FixedPointOps.Ne | src/esp_fixed_point.h:45 | Exactly the negation of `==`. |
| FixedPointOps.Lt | src/esp_fixed_point.h:48 | Requires equal frac; holds exactly when the raw data is smaller, so never for equal values. |
| FixedPointOps.Gt | src/esp_fixed_point.h:46 | Requires equal frac; a > b iff b < a. |
| FixedPointOps.Ge | src/esp_fixed_point.h:47 | Requires equal frac; a >= b iff not a < b. |
| FixedPointOps.Le | src/esp_fixed_point.h:49 | Requires equal frac; a <= b iff not a > b. |
| FixedPointOps.OrderIsTotal | src/esp_fixed_point.h:44-49 | At equal frac, <= and >= together are ==, and exactly one of <, ==, > holds. |
| FixedPointOps.Cast | src/esp_fixed_point.h:30-32 | `(T)data` keeps data when it fits in T and wraps otherwise; `operator int16_t` is data itself. |
| FixedPointOps.Plus | src/esp_fixed_point.cpp:4-9 | Requires equal frac. The result keeps fp1.frac, and its data is fp1.data + fp2.data modulo 2^16. |
| FixedPointOps.Minus | src/esp_fixed_point.cpp:11-16 | Requires equal frac. Same frac; data is the difference modulo 2^16. |
| FixedPointOps.TimesAsWritten | src/esp_fixed_point.cpp:18-23 | Same frac; data is the sum modulo 2^16, because the body uses `+=`. |
| FixedPointOps.Times | src/esp_fixed_point.cpp:18-23 | Same frac; data is `FP_MUL` of the two modulo 2^16. |
| FixedPointOps.DivideAsWritten | src/esp_fixed_point.cpp:25-30 | Requires equal frac and a non-zero divisor. Same frac; data is `FP_DIV` as written, modulo 2^16. |
| FixedPointOps.Divide | src/esp_fixed_point.cpp:25-30 | Requires equal frac and a non-zero divisor. Same frac; data is the Q-format quotient modulo 2^16. |
| FixedPointOps.PlusFloat | src/esp_fixed_point.cpp:32-39 | The float is converted at fp1.frac, so the fracs always agree. The result keeps fp1.frac, and its data is fp1.data plus the converted value, modulo 2^16. |
| FixedPointOps.MinusFloat | src/esp_fixed_point.cpp:41-48 | As `+`: the result keeps fp1.frac, and its data is fp1.data minus the converted value, modulo 2^16. |
| FixedPointOps.TimesFloat | src/esp_fixed_point.cpp:50-57 | As `+`: the result keeps fp1.frac, and its data is `FP_MUL` of fp1.data and the converted value, modulo 2^16. |
| FixedPointOps.DivideFloat | src/esp_fixed_point.cpp:59-66 | As `+`: the result keeps fp1.frac, and its data is `FP_DIV` as written of fp1.data by the converted value, modulo 2^16. The converted divisor must be non-zero. |
| FixedPointOps.MinusUndoesPlus | src/esp_fixed_point.cpp:4-16 | (a + b) - b == a for every pair with equal frac, int16 wrap-around included. |
| FixedPointOps.PlusCommutesAndAssociates | src/esp_fixed_point.cpp:4-9 | `+` is commutative and associative at one frac. |
| FixedPointOps.One | src/esp_fixed_point.h:7-9 | 1.0 at f fractional bits is raw 2^f, for f <= 14. |
| FixedPointOps.TimesOne | src/esp_fixed_point.h:54 | Multiplying by 1.0 gives the value back. |
| FixedPointOps.DivideByOne | src/esp_fixed_point.h:55 | The Q-format quotient by 1.0 gives the value back. |
| FixedPointOps.DivideAsWrittenOverscales | src/esp_fixed_point.h:9 | At frac 6, 2.0 / 1.0 as written gives raw 8192 (128.0); the Q-format quotient gives 2.0. |
| FixedPointOps.TimesAsWrittenAdds | src/esp_fixed_point.cpp:18-23 | At frac 6, 3.0 * 2.0 as written gives 5.0 (raw 320); `FP_MUL` gives 6.0 (raw 384). |
| FixedPointOps.NeAsWrittenMissesOneField | src/esp_fixed_point.h:44-45 | Raw 1 and 2 at frac 6 are not equal, yet `!=` as written is false for them; the negation of `==` is true. |
| FixedPointClass.FixedPoint.Default | src/esp_fixed_point.h:23 | The default value has data 6 and frac 6 (`DEFAULT_FRAC` in both), not data 0. |
| FixedPointClass.FixedPoint.constructor | src/esp_fixed_point.h:24 | Stores value and fracBits exactly. |
| FixedPointClass.FixedPoint.Copy | src/esp_fixed_point.h:26-27 | The copy has the same data and frac. |
| FixedPointClass.FixedPoint.AssignFrom | src/esp_fixed_point.h:38-39 | Both fields are copied from the other. |
| FixedPointClass.FixedPoint.AssignRaw | src/esp_fixed_point.h:40 | data becomes the uint16 reinterpreted as int16 (values from 2^15 become negative); frac is kept. |
| FixedPointClass.FixedPoint.AddAssign | src/esp_fixed_point.h:52 | Requires equal frac; the new value is `Plus(old this, old other)`. |
| FixedPointClass.FixedPoint.SubAssign | src/esp_fixed_point.h:53 | Requires equal frac; the new value is `Minus(old this, old other)`. |
| FixedPointClass.FixedPoint.MulAssign | src/esp_fixed_point.h:54 | Requires equal frac; the new value is `Times(old this, old other)`, that is `FP_MUL`. |
| FixedPointClass.FixedPoint.DivAssignAsWritten | src/esp_fixed_point.h:55 | Requires equal frac and a non-zero divisor; the new value is `DivideAsWritten` of the old values. |
| FixedPointClass.FixedPoint.DivAssign | src/esp_fixed_point.h:55 | Requires equal frac and a non-zero divisor; the new value is the Q-format quotient. |
| FixedPointClass.AddThenSubtract | src/esp_fixed_point.cpp:4-16 | Copy and `+=` yield fp1 + fp2; copying that and applying `-=` fp2 gives fp1 back. Both operands are unchanged. |

## Left out

- Use of an array after a failed allocation is not modelled. After a failed constructor, `Valid()` does not hold. After a failed `append`, `size` is positive while the buffer is null. Every member requires `Valid()`, so later calls on such an array, which in the source write through a null pointer, are excluded.
- Floating point, for these reasons:
  - the `Array<float>` specialisations;
  - the float-returning and float-scaled division operators (`operator/`, `operator/=` of `Array`);
  - `eqFloats`, `float2fixed`, `fixed2float` and `roundF`;
  - the float `FixedPoint` constructor, casts and `operator=(float)`;
  - the float division helpers of `ansi.h`.
  
  In the `fp ⊕ float` overloads the float type and its conversion are parameters.
- The bulk DSP kernels and every specialisation that calls them. These are the int16, int32, uint32 and uint8 operators, the dot products, convolution and correlation. The kernels' bodies are not part of this model. For the arithmetic operators, the model gives those element types the generic scalar path, which the kernels are meant to match. The dot product `^` is not modelled for int16, int32 and uint8 (esp_array.h:1218-1259); `EspArray.Array.DotFallback` covers only the generic `return -1` of the other types.
- The heap and ownership:
  - `heap_caps_malloc` and `free` become `allocOk` and `new`;
  - the destructor, `memCaps`, `copyRef`, `preserveMem` and `canBeDestroyed` are not modelled;
  - so the move constructor and `operator=(Array&)` are not modelled either.
- `operator<<(Array&)` assigns the array to itself through `copyRef`, which frees the buffer it then adopts. Concatenation is modelled as repeated `Append` (`AppendArray`).
- Unchecked `operator[](index)`, the pointer cast and `getArrayPntr` are direct buffer access. In the model they are `buf[i]` and `buf`.
- Allocation failure in `copy` and in the binary operators is not modelled, because the source then writes through a null pointer.
- `copy(self)` is not modelled: it frees the buffer before reading it.
- Conversions between two different element types (`T1` ≠ `T2` in the helpers) are not modelled; both sides use the same `ElemType`.
- `FAST_MODE` = 0 is not modelled. The constant is fixed at its default of 1.
- EspAnsi.DivArrayByArray: the float factor `cnst` is fixed at its default 1 and the result is the exact truncated quotient. The helper multiplies the quotient by a float and converts back to T. Two effects of that are not modelled. First, the float rounding: a 32-bit quotient above 2^24 in magnitude loses low bits. Second, the conversion of a float outside T, which C leaves undefined. An example is int8 -128 / -1 = 128. The model wraps such a quotient modulo the width of T instead.
- EspAnsi.DivConstByArray: the float `cnst` is taken to be an integer, and the division is modelled as exact integer division. The helper converts `src[i]` to float and divides in float, and the model misses three effects of that. First, a 32-bit `src[i]` or `cnst` above 2^24 in magnitude is rounded before dividing. With int32, 16777216 / 16777217 gives 1 in the source and 0 in the model. Second, a quotient outside T, for instance int8 with `cnst` = 1000 and `src[i]` = 1, converts with undefined behaviour in C. The model wraps it modulo the width of T. Third, a non-integer `cnst` is not modelled.
- FixedPointOps.FpMul: shift counts of 32 or more are undefined in C; the model gives them their mathematical meaning.
- FixedPointOps.FpDivAsWritten: the shift by `2*f` is undefined in C when `f` is 16 or more (a count of 32 or more), when the value is negative, or when the result passes INT32_MAX. The model gives all of these the modular meaning of x * 2^(2f) reduced to int32, and it gives the int32 quotient `INT32_MIN / -1` its modular meaning too.
- EspArray.Array.Filter: the source's `Array<T> newArray();` declares a function rather than an array. The model follows the documented behaviour, building the result with the corrected `Append`.
- EspArray.Array.AppendArray: built on the corrected `Append`, with allocation always succeeding. The source's `operator<<` calls `append` as written, which drops the old elements at each reallocation (first finding) and may fail to allocate. So the contract `old contents + other contents` is the intended result, not what the source computes when a reallocation happens. It also requires the other array to be a different object. Appending an array to itself never ends in the source, because the loop bound grows with every append.
- The `const int16_t& ref` member of `FixedPoint` always equals `data` and is not a separate field.

## Findings

| source | as written | input that shows it | evidently intended | confidence | as-written member | corrected member |
|---|---|---|---|---|---|---|
| src/esp_array.h:461-478 | `append` without room frees the old buffer and allocates a new one, but never copies the old elements | Eight int16 elements fill 16 bytes, so appending a ninth reallocates and the first eight read back whatever the new block held | The old elements are kept, and v is appended after them | high, not executed | EspArray.Array.AppendAsWritten, ArraySpec.ReallocationLosesElements | EspArray.Array.Append |
| src/esp_array.h:148-230 | `cond ? newArray[i] = 1 : 0` writes only the 1s into a fresh, uncleared buffer | {1} == 2 over a block that held 7 gives {7} | 0 where the comparison fails | high, not executed | EspArray.Array.CompareMaskAsWritten, ArraySpec.MaskLeavesStaleValue | EspArray.Array.CompareMask |
| src/esp_array.h:360-363 | `-=` passes the other array as the minuend, computing another[i] - this[i] | {5} -= {3} gives {-2} | this[i] - another[i], which is {2} | high, not executed | EspArray.Array.SubAssignArrayAsWritten, ArraySpec.SwappedDifferenceExample | EspArray.Array.SubAssignArray |
| src/esp_array.h:272-281 | `operator==(Array&)` compares over this length only | {1,2} == {1,2,3} is true | Equal lengths and equal elements | medium, not executed | EspArray.Array.EqualsArrayAsWritten, ArraySpec.PrefixMatchIgnoresLength | EspArray.Array.EqualsArray |
| src/esp_fixed_point.h:9 | `FP_DIV` shifts the dividend by 2*frac | 2.0 / 1.0 at frac 6 (raw 128 / 64) gives raw 8192 = 128.0 | A shift by frac, which gives 2.0 | high, not executed | FixedPointOps.DivideAsWritten, FixedPointOps.DivideAsWrittenOverscales | FixedPointOps.Divide, FixedPointOps.DivideByOne |
| src/esp_fixed_point.cpp:18-23 | `operator*` applies `+=` to the copy | 3.0 * 2.0 at frac 6 gives 5.0 | `*=`, which gives 6.0 | high, not executed | FixedPointOps.TimesAsWritten, FixedPointOps.TimesAsWrittenAdds | FixedPointOps.Times, FixedPointOps.TimesOne |
| src/esp_fixed_point.h:45 | `!=` is `data != other.data && frac != other.frac` | Raw 1 vs raw 2, both at frac 6: not equal, yet `!=` is false | The negation of `==` | high, not executed | FixedPointOps.NeAsWritten, FixedPointOps.NeAsWrittenMissesOneField | FixedPointOps.Ne |
