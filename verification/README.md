# GlmSharp `vec3` and `dvec4` in Dafny

GlmSharp is a code-generated C# family of small vector and matrix value
types in the style of GLSL. This project models its single-precision
3-component vector `vec3` and the contract of its double-precision
4-component vector `dvec4`. The `dvec4` contract comes from that type's
generated unit tests; its own source is not part of this model.

Scalars are Dafny `real`, an idealisation of `float` and `double`: there is
no rounding, NaN or infinity, so `==` is exact equality and `float` and
`double` collapse into one type. The vectors are immutable datatypes (module
`Vectors`: `Vec2`, `Vec3`, `Vec4` over `real`, `BVec2..4` over `bool`,
`IVec2..4` over `int`). Each has `Values()`, the component array in
declaration order.

Modules:

- `Wrappers` holds `Result`. It carries the indexer's `ArgumentOutOfRangeException("index")` as a value.
- `Int32` holds the C# `int` type of indexer arguments as a newtype, so the extreme indices can be written.
- `Scalars` holds stand-ins for the `System.Math` calls the vectors apply per component: `Abs`, `Min`, `Max`, `Sign`. It also holds the truncating `(int)` cast and squaring.
- `FloatVec3` holds `vec3`:
  - constants and constructors;
  - conversions;
  - the indexer (a partial `At`, plus `Get`/`Set` returning `Result`) and the enumerator;
  - equality;
  - component-wise arithmetic, and comparison returning `bvec3`;
  - reductions;
  - `Dot`, `Cross` and `DistanceSqr`;
  - `Abs`, `Sign` and `Sqr`;
  - `NormalizedSafe`.
- `DoubleVec4` holds `dvec4`:
  - constants and constructors;
  - the indexer, including a sequence of assignments;
  - `Values`/`ToArray`;
  - equality.

The indexer setter of the C# struct mutates `this`. Here `Set` returns the
updated vector instead.

## Model

| member | source | states |
|---|---|---|
| Vectors.Vec3.Values | GlmSharp/GlmSharp/vec3.cs:59-61 | three entries; the order x, y, z is its definition, and Get, Set and Enumerate are stated against it |
| Vectors.Vec4.Values | GlmSharp/GlmSharpTest/Generated/Vec4/dvec4.Test.cs:162-169 | four entries; the order x, y, z, w is its definition, and Get, Set and ToArray are stated against it |
| FloatVec3.ConstantsAreStandard | GlmSharp/GlmSharp/vec3.cs:36-56 | `Zero` is all 0, `Ones` all 1, and the k-th unit vector is 1 exactly in slot k |
| FloatVec3.Broadcast | GlmSharp/GlmSharp/vec3.cs:76-81 | every component equals the given scalar |
| FloatVec3.BroadcastLaws | GlmSharp/GlmSharp/vec3.cs:76-81 | broadcasting 0 and 1 gives `Zero` and `Ones`, and the broadcast is injective |
| FloatVec3.FromVec2 | GlmSharp/GlmSharp/vec3.cs:86-91 | components are the 2-vector's followed by a zero z |
| FloatVec3.FromVec2AndZ | GlmSharp/GlmSharp/vec3.cs:96-101 | components are the 2-vector's followed by the given z |
| FloatVec3.Copy | GlmSharp/GlmSharp/vec3.cs:106-111 | the copy has the same components and is `Equals` to the original |
| FloatVec3.FromVec4 | GlmSharp/GlmSharp/vec3.cs:116-121 | components are the first three of the 4-vector |
| FloatVec3.ToVec2 | GlmSharp/GlmSharp/vec3.cs:166 | the result is the first two components |
| FloatVec3.ToVec4 | GlmSharp/GlmSharp/vec3.cs:171 | the result is the three components followed by a zero w |
| FloatVec3.ConversionRoundTrips | GlmSharp/GlmSharp/vec3.cs:96-121 | narrowing to vec2 then re-adding z, widening a vec2 then narrowing, and padding to vec4 then dropping w all give back the input |
| FloatVec3.ToBVec2 | GlmSharp/GlmSharp/vec3.cs:226 | each component is true iff the source component is non-zero |
| FloatVec3.ToBVec3 | GlmSharp/GlmSharp/vec3.cs:231 | each component is true iff the source component is non-zero |
| FloatVec3.ToBVec4 | GlmSharp/GlmSharp/vec3.cs:236 | first three are "non-zero", w is false |
| FloatVec3.BoolConversionLaws | GlmSharp/GlmSharp/vec3.cs:226-236 | the bvec3 conversion is all false exactly for `Zero`; the bvec2 and bvec4 conversions are its narrowing and its false-padded widening; negation does not change it |
| FloatVec3.ToIVec2 | GlmSharp/GlmSharp/vec3.cs:136 | each component is the source component truncated toward zero |
| FloatVec3.ToIVec3 | GlmSharp/GlmSharp/vec3.cs:141 | each component is the source component truncated toward zero |
| FloatVec3.ToIVec4 | GlmSharp/GlmSharp/vec3.cs:146 | first three truncated toward zero, w is 0 |
| FloatVec3.At | GlmSharp/GlmSharp/vec3.cs:263-272 | on 0..2 the partial indexer agrees with the checked getter |
| FloatVec3.Get | GlmSharp/GlmSharp/vec3.cs:263-272 | succeeds iff 0 <= index < 3, returning that component; every other `int` fails with ArgumentOutOfRange("index") |
| FloatVec3.Set | GlmSharp/GlmSharp/vec3.cs:273-282 | succeeds iff 0 <= index < 3, replacing exactly that component; every other `int` fails with ArgumentOutOfRange("index") |
| FloatVec3.SetThenGet | GlmSharp/GlmSharp/vec3.cs:261-282 | reading the written index yields the written value; every other index reads as before |
| FloatVec3.Enumerate | GlmSharp/GlmSharp/vec3.cs:241-256 | yields exactly `Values`, x, y, z in order |
| FloatVec3.Equals | GlmSharp/GlmSharp/vec3.cs:288 | true iff every component is equal, i.e. iff the vectors are identical |
| FloatVec3.NotEquals | GlmSharp/GlmSharp/vec3.cs:302-307 | true iff some component differs, exactly the negation of `==` |
| FloatVec3.EqualsObject | GlmSharp/GlmSharp/vec3.cs:293-297 | true iff the object is a boxed vec3 equal to this one; false for null and other types |
| FloatVec3.Add | GlmSharp/GlmSharp/vec3.cs:373 | component-wise sum |
| FloatVec3.Sub | GlmSharp/GlmSharp/vec3.cs:428 | component-wise difference |
| FloatVec3.Mul | GlmSharp/GlmSharp/vec3.cs:538 | component-wise product |
| FloatVec3.Div | GlmSharp/GlmSharp/vec3.cs:483 | each quotient times the divisor's component gives back the dividend's component |
| FloatVec3.AddScalar | GlmSharp/GlmSharp/vec3.cs:378 | same as adding the broadcast scalar |
| FloatVec3.ScalarAdd | GlmSharp/GlmSharp/vec3.cs:383 | same as adding to the broadcast scalar |
| FloatVec3.SubScalar | GlmSharp/GlmSharp/vec3.cs:433 | same as subtracting the broadcast scalar |
| FloatVec3.ScalarSub | GlmSharp/GlmSharp/vec3.cs:438 | same as subtracting from the broadcast scalar |
| FloatVec3.MulScalar | GlmSharp/GlmSharp/vec3.cs:543 | same as multiplying by the broadcast scalar |
| FloatVec3.ScalarMul | GlmSharp/GlmSharp/vec3.cs:548 | same as multiplying the broadcast scalar |
| FloatVec3.DivScalar | GlmSharp/GlmSharp/vec3.cs:488 | same as dividing by the broadcast scalar |
| FloatVec3.ScalarDiv | GlmSharp/GlmSharp/vec3.cs:493 | same as dividing the broadcast scalar |
| FloatVec3.Plus | GlmSharp/GlmSharp/vec3.cs:593 | unary plus returns an equal vector |
| FloatVec3.Neg | GlmSharp/GlmSharp/vec3.cs:598 | each component negated; the result is the additive inverse |
| FloatVec3.AddAlgebra | GlmSharp/GlmSharp/vec3.cs:373-438 | addition is commutative and associative with identity `Zero`; negation is an involution; subtraction adds the negation and undoes addition |
| FloatVec3.MulAlgebra | GlmSharp/GlmSharp/vec3.cs:483-548 | component-wise multiplication is commutative with identity `Ones` and absorbing `Zero`; dividing by a vector without zero components undoes it |
| FloatVec3.Compare | GlmSharp/GlmSharp/vec3.cs:603-648 | `<`, `<=`, `>`, `>=` give the bvec3 whose i-th component is the relation on the i-th components |
| FloatVec3.CompareScalar | GlmSharp/GlmSharp/vec3.cs:608-653 | the vector-scalar overloads equal the comparison with the broadcast scalar |
| FloatVec3.ScalarCompare | GlmSharp/GlmSharp/vec3.cs:613-658 | the scalar-vector overloads equal the comparison with the broadcast scalar |
| FloatVec3.CompareLaws | GlmSharp/GlmSharp/vec3.cs:603-658 | `a < b` is `b > a`, `a <= b` is `b >= a`, `>=` is the component-wise negation of `<`, and all-`<=` with all-`>=` means equal |
| FloatVec3.MinElement | GlmSharp/GlmSharp/vec3.cs:323 | at most every component and equal to one of them |
| FloatVec3.MaxElement | GlmSharp/GlmSharp/vec3.cs:328 | at least every component and equal to one of them |
| FloatVec3.SumIsFold | GlmSharp/GlmSharp/vec3.cs:343 | `Sum` is the fold of `+` over the enumerated components |
| FloatVec3.Sum | GlmSharp/GlmSharp/vec3.cs:343 | `x + y + z`; SumIsFold ties it to the fold over `Values`, SumIsDotOnes to `Dot` with `Ones` |
| FloatVec3.SumIsDotOnes | GlmSharp/GlmSharp/vec3.cs:343 | `Sum` is the dot product with `Ones` |
| FloatVec3.Dot | GlmSharp/GlmSharp/vec3.cs:673 | the sum of the products of matching components; see DotIsSumOfProducts, DotSymmetric, DotWithUnit, DotUnitAxes |
| FloatVec3.DotIsSumOfProducts | GlmSharp/GlmSharp/vec3.cs:673 | `Dot` is the sum of the component-wise product; `LengthSqr` is the self dot product and the sum of `Sqr` |
| FloatVec3.DotSymmetric | GlmSharp/GlmSharp/vec3.cs:673 | `Dot(a, b) == Dot(b, a)` |
| FloatVec3.DotWithUnit | GlmSharp/GlmSharp/vec3.cs:673 | dotting with UnitX/UnitY/UnitZ picks out x/y/z |
| FloatVec3.DotUnitAxes | GlmSharp/GlmSharp/vec3.cs:46-56 | the unit axes are pairwise orthogonal and of unit squared length |
| FloatVec3.Sqr | GlmSharp/GlmSharp/vec3.cs:788 | the vector times itself; every component is non-negative |
| FloatVec3.LengthSqr | GlmSharp/GlmSharp/vec3.cs:338 | the sum of the squared components; see LengthSqrPositive, DotIsSumOfProducts, ScaledLengthSqr |
| FloatVec3.LengthSqrPositive | GlmSharp/GlmSharp/vec3.cs:338 | the squared length is non-negative and zero exactly for `Zero` |
| FloatVec3.Abs | GlmSharp/GlmSharp/vec3.cs:693 | every component is non-negative and is plus or minus the source component |
| FloatVec3.Sign | GlmSharp/GlmSharp/vec3.cs:783 | each component is -1, 0 or 1, zero iff the source component is, and times the source component gives its magnitude |
| FloatVec3.Norm1 | GlmSharp/GlmSharp/vec3.cs:353 | the sum of the magnitudes; non-negative and zero exactly for `Zero` |
| FloatVec3.NormMax | GlmSharp/GlmSharp/vec3.cs:363 | the largest magnitude; non-negative, at most `Norm1`, zero exactly for `Zero` |
| FloatVec3.DistanceSqr | GlmSharp/GlmSharp/vec3.cs:683 | the squared length of the difference; see DistanceSqrPositive, DistanceSqrSymmetric |
| FloatVec3.DistanceSqrPositive | GlmSharp/GlmSharp/vec3.cs:683 | the squared distance is non-negative and zero exactly when the vectors are equal |
| FloatVec3.DistanceSqrSymmetric | GlmSharp/GlmSharp/vec3.cs:683 | the squared distance does not depend on argument order |
| FloatVec3.SubZeroIffEqual | GlmSharp/GlmSharp/vec3.cs:428 | the difference is `Zero` exactly when the operands are equal |
| FloatVec3.Cross | GlmSharp/GlmSharp/vec3.cs:688 | the determinant expansion; see CrossOrthogonal, CrossAnticommutative, CrossWithUnit, CrossUnitAxes |
| FloatVec3.CrossOrthogonal | GlmSharp/GlmSharp/vec3.cs:688 | the cross product is orthogonal to both factors |
| FloatVec3.CrossAnticommutative | GlmSharp/GlmSharp/vec3.cs:688 | `Cross(a, b) == -Cross(b, a)` and `Cross(a, a) == Zero` |
| FloatVec3.CrossWithUnit | GlmSharp/GlmSharp/vec3.cs:688 | crossing a unit axis with v rotates v's other two components |
| FloatVec3.CrossUnitAxes | GlmSharp/GlmSharp/vec3.cs:46-56 | X × Y = Z, Y × Z = X, Z × X = Y |
| FloatVec3.NormalizedSafe | GlmSharp/GlmSharp/vec3.cs:661-668 | `Zero` maps to `Zero`; any other vector is divided by its length: scaling the result by the length gives the vector back, and the result has squared length 1 |
| FloatVec3.UnitLength | GlmSharp/GlmSharp/vec3.cs:663 | a non-zero vector divided by its length has squared length 1 |
| FloatVec3.ScaledLengthSqr | GlmSharp/GlmSharp/vec3.cs:338 | scaling by k multiplies the squared length by k squared |
| Scalars.Sign | GlmSharp/GlmSharp/vec3.cs:783 | -1, 0 or 1, zero iff the argument is, and times the argument gives its magnitude |
| Scalars.Truncate | GlmSharp/GlmSharp/vec3.cs:136-146 | the `(int)` cast rounds toward zero: the result lies within 1 of the argument, on the zero side |
| Scalars.SquareSign | GlmSharp/GlmSharp/vec3.cs:338 | a square is non-negative and zero exactly when its root is zero |
| DoubleVec4.ConstantsAreStandard | GlmSharp/GlmSharpTest/Generated/Vec4/dvec4.Test.cs:176-204 | `Zero` is all 0, `Ones` all 1, UnitX..UnitW are 1 exactly in their own slot |
| DoubleVec4.Broadcast | GlmSharp/GlmSharpTest/Generated/Vec4/dvec4.Test.cs:25-29 | every component equals the given scalar |
| DoubleVec4.BroadcastLaws | GlmSharp/GlmSharpTest/Generated/Vec4/dvec4.Test.cs:25-29 | broadcasting 0 and 1 gives `Zero` and `Ones`, and the broadcast is injective |
| DoubleVec4.FromVec2 | GlmSharp/GlmSharpTest/Generated/Vec4/dvec4.Test.cs:39-44 | the 2-vector's components followed by zero z and w |
| DoubleVec4.FromVec3 | GlmSharp/GlmSharpTest/Generated/Vec4/dvec4.Test.cs:46-51 | the 3-vector's components followed by a zero w |
| DoubleVec4.WideningAgrees | GlmSharp/GlmSharpTest/Generated/Vec4/dvec4.Test.cs:39-51 | widening a 2-vector directly or through vec3 agrees; widening a 3-vector agrees with vec3's conversion to vec4 and dropping w restores it |
| DoubleVec4.Copy | GlmSharp/GlmSharpTest/Generated/Vec4/dvec4.Test.cs:53-57 | the copy has the same components and equals the original |
| DoubleVec4.At | GlmSharp/GlmSharpTest/Generated/Vec4/dvec4.Test.cs:64-68 | on 0..3 the partial indexer agrees with the checked getter |
| DoubleVec4.Get | GlmSharp/GlmSharpTest/Generated/Vec4/dvec4.Test.cs:64-79 | succeeds iff 0 <= index < 4, returning x, y, z, w; every other `int` fails with ArgumentOutOfRange |
| DoubleVec4.Set | GlmSharp/GlmSharpTest/Generated/Vec4/dvec4.Test.cs:70-81 | succeeds iff 0 <= index < 4, replacing exactly that component; every other `int` fails with ArgumentOutOfRange |
| DoubleVec4.IndexerRejectsOutOfRange | GlmSharp/GlmSharpTest/Generated/Vec4/dvec4.Test.cs:70-79 | get and set both fail at -2147483648, -1, 4, 5 and 2147483647 |
| DoubleVec4.SetThenGet | GlmSharp/GlmSharpTest/Generated/Vec4/dvec4.Test.cs:81-82 | reading the written index yields the written value; other indices are unchanged |
| DoubleVec4.ApplyWrites | GlmSharp/GlmSharpTest/Generated/Vec4/dvec4.Test.cs:81-158 | a run of assignments fails, with ArgumentOutOfRange, iff one of its indices is out of range |
| DoubleVec4.ApplyWritesReadsLatest | GlmSharp/GlmSharpTest/Generated/Vec4/dvec4.Test.cs:81-158 | after in-range assignments every component reads as the last value assigned to it, or as before |
| DoubleVec4.ApplyWritesConcat | GlmSharp/GlmSharpTest/Generated/Vec4/dvec4.Test.cs:81-158 | running two runs of assignments back to back is running their concatenation, stopping at the first failure |
| DoubleVec4.IndexerTestTrace | GlmSharp/GlmSharpTest/Generated/Vec4/dvec4.Test.cs:81-158 | the test's 39 assignments on (8.5, 4.5, 3, 1) all succeed and leave (8.5, 6.5, 3.5, 9.5) |
| DoubleVec4.ToArray | GlmSharp/GlmSharpTest/Generated/Vec4/dvec4.Test.cs:164-170 | gives exactly `Values`, `[x, y, z, w]` |
| DoubleVec4.Equals | GlmSharp/GlmSharpTest/Generated/Vec4/dvec4.Test.cs:243-246 | true iff every component is equal, i.e. iff the vectors are identical |
| DoubleVec4.NotEquals | GlmSharp/GlmSharpTest/Generated/Vec4/dvec4.Test.cs:247-248 | true iff some component differs, exactly the negation of `==` |
| DoubleVec4.EqualityLaws | GlmSharp/GlmSharpTest/Generated/Vec4/dvec4.Test.cs:240-248 | equality is reflexive and symmetric, a copy equals its original, and the reversed vector is unequal iff x != w or y != z |

## Left out

- IEEE-754 semantics: NaN, infinities, signed zero and rounding. Scalars are exact reals, so `float.Equals` (for which NaN equals NaN) and `==` coincide, and the `MaxValue`/`MinValue`/`Epsilon`/`NaN`/infinity constants of `dvec4` have no counterpart.
- FloatVec3.Div: the divisors must be non-zero, because real division by zero has no IEEE infinity or NaN to return.
- FloatVec3.DivScalar: the scalar divisor must be non-zero, because real division by zero has no IEEE infinity or NaN to return.
- FloatVec3.ScalarDiv: the vector divisor's components must be non-zero, because real division by zero has no IEEE infinity or NaN to return.
- FloatVec3.ToIVec2: the `(int)` cast is truncation into an unbounded integer. A `float` outside the 32-bit range, whose C# result is unspecified, is not modelled.
- FloatVec3.ToIVec3: the `(int)` cast is truncation into an unbounded integer; a `float` outside the 32-bit range is not modelled.
- FloatVec3.ToIVec4: the `(int)` cast is truncation into an unbounded integer; a `float` outside the 32-bit range is not modelled.
- FloatVec3.NormalizedSafe: `Length` is a square root, which has no real-valued Dafny counterpart. The length is therefore a parameter, required positive and squaring to `LengthSqr` when the vector is non-zero.
- `Length`, `Norm`, `Norm2`, `Distance` and `NormP`: each needs a square root or `Math.Pow`.
- `Normalized` is not a member of its own: its formula, the vector divided by its length, is covered by UnitLength and NormalizedSafe with the length passed in as a parameter; the division by a zero length is not modelled.
- Conversions to `uvec*`, `lvec*`, `decvec*` and `cvec*`, and the implicit `dvec3`/`cvec3` conversions: they repeat the truncation or widening pattern over other scalar types.
- The promoting operators with `double` and `Complex` operands (vec3.cs lines 388-588): they repeat the same-domain pattern.
- `GetHashCode`: it depends on `float.GetHashCode` and unchecked 32-bit overflow.
- The transcendental and rounding functions (`Acos` … `Truncate`, vec3.cs lines 698-778): they are floating-point library calls.
- `swizzle` and the non-generic `IEnumerator`.
- `dvec4` parsing, `ToString` and JSON round-trips: they depend on culture-specific formatting and an external serializer.
- `Mat3x3/hmat3.glm.cs` is not part of this model. It only forwards to `hmat3` members over `Half` that are not available here.
- The component-wise constructor `vec3(x, y, z)` and its `dvec4` counterpart are the datatype constructors themselves.
