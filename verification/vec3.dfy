/** The single-precision 3-component vector `vec3`, with `float` idealised as
    `real`: constants, constructors, the bounds-checked indexer, equality,
    component-wise arithmetic and comparison, conversions to other shapes and
    domains, reductions, and the dot and cross products. */
module FloatVec3 {
  import opened Wrappers
  import opened Int32
  import opened Scalars
  import opened Vectors

  /** Number of components (`Count`). */
  const Count: int := 3

  const Zero: Vec3 := Vec3(0.0, 0.0, 0.0)
  const Ones: Vec3 := Vec3(1.0, 1.0, 1.0)
  const UnitX: Vec3 := Vec3(1.0, 0.0, 0.0)
  const UnitY: Vec3 := Vec3(0.0, 1.0, 0.0)
  const UnitZ: Vec3 := Vec3(0.0, 0.0, 1.0)

  /** The unit vectors in axis order. */
  const Units: seq<Vec3> := [UnitX, UnitY, UnitZ]

  /** `Zero` is all 0, `Ones` is all 1, and the k-th unit vector has 1 in
      slot k and 0 elsewhere. */
  lemma ConstantsAreStandard()
    ensures forall i | 0 <= i < Count :: Zero.Values()[i] == 0.0 && Ones.Values()[i] == 1.0
    ensures forall k, i | 0 <= k < Count && 0 <= i < Count ::
      Units[k].Values()[i] == if i == k then 1.0 else 0.0
  {
  }

  // ---------------------------------------------------------------------
  // Constructors

  /** All-same-value constructor. */
  function Broadcast(s: real): (r: Vec3)
    ensures forall i | 0 <= i < Count :: r.Values()[i] == s
  {
    Vec3(s, s, s)
  }

  /** Broadcasting 0 and 1 gives `Zero` and `Ones`, and different scalars
      give different vectors. */
  lemma BroadcastLaws(s: real, t: real)
    ensures Broadcast(0.0) == Zero && Broadcast(1.0) == Ones
    ensures Broadcast(s) == Broadcast(t) <==> s == t
  {
  }

  /** From a 2-vector; the missing z is zero. */
  function FromVec2(v: Vec2): (r: Vec3)
    ensures r.Values() == v.Values() + [0.0]
  {
    Vec3(v.x, v.y, 0.0)
  }

  /** From a 2-vector and an explicit z. */
  function FromVec2AndZ(v: Vec2, z: real): (r: Vec3)
    ensures r.Values() == v.Values() + [z]
  {
    Vec3(v.x, v.y, z)
  }

  /** Copy constructor. */
  function Copy(v: Vec3): (r: Vec3)
    ensures r.Values() == v.Values()
    ensures Equals(r, v)
  {
    Vec3(v.x, v.y, v.z)
  }

  /** From a 4-vector; w is dropped. */
  function FromVec4(v: Vec4): (r: Vec3)
    ensures r.Values() == v.Values()[..Count]
  {
    Vec3(v.x, v.y, v.z)
  }

  // ---------------------------------------------------------------------
  // Conversions

  /** Explicit conversion to `vec2` (and `dvec2`): z is dropped. */
  function ToVec2(v: Vec3): (r: Vec2)
    ensures r.Values() == v.Values()[..2]
  {
    Vec2(v.x, v.y)
  }

  /** Explicit conversion to `vec4` (and `dvec4`): w is zero. */
  function ToVec4(v: Vec3): (r: Vec4)
    ensures r.Values() == v.Values() + [0.0]
  {
    Vec4(v.x, v.y, v.z, 0.0)
  }

  /** Dropping z and putting it back restores the vector; a 2-vector survives
      widening and narrowing; padding w and truncating it restores the vector. */
  lemma ConversionRoundTrips(v: Vec3, u: Vec2)
    ensures FromVec2AndZ(ToVec2(v), v.z) == v
    ensures ToVec2(FromVec2(u)) == u
    ensures FromVec4(ToVec4(v)) == v
  {
  }

  /** Explicit conversion to `bvec2`: a component is true iff it is non-zero. */
  function ToBVec2(v: Vec3): (r: BVec2)
    ensures forall i | 0 <= i < 2 :: r.Values()[i] <==> v.Values()[i] != 0.0
  {
    BVec2(v.x != 0.0, v.y != 0.0)
  }

  /** Explicit conversion to `bvec3`: a component is true iff it is non-zero. */
  function ToBVec3(v: Vec3): (r: BVec3)
    ensures forall i | 0 <= i < Count :: r.Values()[i] <==> v.Values()[i] != 0.0
  {
    BVec3(v.x != 0.0, v.y != 0.0, v.z != 0.0)
  }

  /** Explicit conversion to `bvec4`: as `bvec3`, and w is false. */
  function ToBVec4(v: Vec3): (r: BVec4)
    ensures forall i | 0 <= i < Count :: r.Values()[i] <==> v.Values()[i] != 0.0
    ensures !r.w
  {
    BVec4(v.x != 0.0, v.y != 0.0, v.z != 0.0, false)
  }

  /** The boolean conversions agree with each other, are all false exactly
      for `Zero`, and do not see the sign of a component. */
  lemma BoolConversionLaws(v: Vec3)
    ensures ToBVec3(v) == BVec3(false, false, false) <==> v == Zero
    ensures ToBVec2(v) == BVec2(ToBVec3(v).x, ToBVec3(v).y)
    ensures ToBVec4(v).Values() == ToBVec3(v).Values() + [false]
    ensures ToBVec3(Neg(v)) == ToBVec3(v)
  {
  }

  /** Explicit conversion to `ivec2`: each component truncated toward zero. */
  function ToIVec2(v: Vec3): (r: IVec2)
    ensures forall i | 0 <= i < 2 :: r.Values()[i] == Truncate(v.Values()[i])
  {
    IVec2(Truncate(v.x), Truncate(v.y))
  }

  /** Explicit conversion to `ivec3`: each component truncated toward zero. */
  function ToIVec3(v: Vec3): (r: IVec3)
    ensures forall i | 0 <= i < Count :: r.Values()[i] == Truncate(v.Values()[i])
  {
    IVec3(Truncate(v.x), Truncate(v.y), Truncate(v.z))
  }

  /** Explicit conversion to `ivec4`: as `ivec3`, and w is zero. */
  function ToIVec4(v: Vec3): (r: IVec4)
    ensures forall i | 0 <= i < Count :: r.Values()[i] == Truncate(v.Values()[i])
    ensures r.w == 0
  {
    IVec4(Truncate(v.x), Truncate(v.y), Truncate(v.z), 0)
  }

  // ---------------------------------------------------------------------
  // Indexer and enumeration

  /** The indexer as a partial function: defined on 0, 1, 2 only, where it
      agrees with the checked getter. */
  function At(v: Vec3, i: int): (r: real)
    requires 0 <= i < Count
    ensures Get(v, i as int32) == Success(r)
  {
    if i == 0 then v.x else if i == 1 then v.y else v.z
  }

  /** Indexer get: component `index` for 0, 1, 2; any other `int` throws. */
  function Get(v: Vec3, index: int32): (r: Result<real>)
    ensures r.Success? <==> 0 <= index < 3
    ensures r.Success? ==> r.value == v.Values()[index]
    ensures r.Failure? ==> r.error == ArgumentOutOfRange("index")
  {
    if index == 0 then Success(v.x)
    else if index == 1 then Success(v.y)
    else if index == 2 then Success(v.z)
    else Failure(ArgumentOutOfRange("index"))
  }

  /** Indexer set: replaces component `index` for 0, 1, 2 and keeps the
      others; any other `int` throws. */
  function Set(v: Vec3, index: int32, value: real): (r: Result<Vec3>)
    ensures r.Success? <==> 0 <= index < 3
    ensures r.Success? ==> r.value.Values() == v.Values()[index as int := value]
    ensures r.Failure? ==> r.error == ArgumentOutOfRange("index")
  {
    if index == 0 then Success(Vec3(value, v.y, v.z))
    else if index == 1 then Success(Vec3(v.x, value, v.z))
    else if index == 2 then Success(Vec3(v.x, v.y, value))
    else Failure(ArgumentOutOfRange("index"))
  }

  /** Reading back a component just written yields the written value, and
      every other index reads as before. */
  lemma SetThenGet(v: Vec3, i: int32, j: int32, value: real)
    requires 0 <= i < 3
    ensures Set(v, i, value).Success?
    ensures Get(Set(v, i, value).value, i) == Success(value)
    ensures j != i ==> Get(Set(v, i, value).value, j) == Get(v, j)
  {
  }

  /** The enumerator: walking indices 0 .. Count-1 through the indexer
      yields the components in declaration order, i.e. exactly `Values`.
      Going through the indexer rather than the fields is a modelling choice. */
  method Enumerate(v: Vec3) returns (xs: seq<real>)
    ensures |xs| == Count
    ensures xs == v.Values()
  {
    xs := [];
    var i: int32 := 0;
    while i < Count as int32
      invariant 0 <= i <= 3
      invariant xs == v.Values()[..i]
    {
      var c := Get(v, i);
      xs := xs + [c.value];
      i := i + 1;
    }
  }

  // ---------------------------------------------------------------------
  // Equality

  /** `Equals(vec3)` and `operator ==`: component-wise equality. */
  function Equals(a: Vec3, b: Vec3): (r: bool)
    ensures r <==> forall i | 0 <= i < Count :: a.Values()[i] == b.Values()[i]
    ensures r <==> a == b
  {
    assert a.Values()[0] == a.x && a.Values()[1] == a.y && a.Values()[2] == a.z;
    assert b.Values()[0] == b.x && b.Values()[1] == b.y && b.Values()[2] == b.z;
    a.x == b.x && a.y == b.y && a.z == b.z
  }

  /** `operator !=`: some component differs. */
  function NotEquals(a: Vec3, b: Vec3): (r: bool)
    ensures r <==> exists i | 0 <= i < Count :: a.Values()[i] != b.Values()[i]
    ensures r <==> !Equals(a, b)
  {
    !Equals(a, b)
  }

  /** The argument of `Equals(object)`: a null reference, a boxed `vec3`, or
      an object of any other type. */
  datatype Object = Null | Boxed(v: Vec3) | Other

  /** `Equals(object)`: true only for a boxed `vec3` equal to `a`. */
  function EqualsObject(a: Vec3, obj: Object): (r: bool)
    ensures r <==> obj.Boxed? && obj.v == a
  {
    match obj
    case Null => false
    case Boxed(v) => Equals(a, v)
    case Other => false
  }

  // ---------------------------------------------------------------------
  // Component-wise arithmetic

  function Add(a: Vec3, b: Vec3): (r: Vec3)
    ensures forall i | 0 <= i < Count :: r.Values()[i] == a.Values()[i] + b.Values()[i]
  {
    Vec3(a.x + b.x, a.y + b.y, a.z + b.z)
  }

  function Sub(a: Vec3, b: Vec3): (r: Vec3)
    ensures forall i | 0 <= i < Count :: r.Values()[i] == a.Values()[i] - b.Values()[i]
  {
    Vec3(a.x - b.x, a.y - b.y, a.z - b.z)
  }

  function Mul(a: Vec3, b: Vec3): (r: Vec3)
    ensures forall i | 0 <= i < Count :: r.Values()[i] == a.Values()[i] * b.Values()[i]
  {
    Vec3(a.x * b.x, a.y * b.y, a.z * b.z)
  }

  /** True iff no component is zero (a valid divisor over the reals). */
  predicate NonZeroComponents(v: Vec3) {
    v.x != 0.0 && v.y != 0.0 && v.z != 0.0
  }

  function Div(a: Vec3, b: Vec3): (r: Vec3)
    requires NonZeroComponents(b)
    ensures forall i | 0 <= i < Count :: r.Values()[i] * b.Values()[i] == a.Values()[i]
  {
    Vec3(a.x / b.x, a.y / b.y, a.z / b.z)
  }

  /** `vec3 + float`: the scalar is broadcast. */
  function AddScalar(a: Vec3, s: real): (r: Vec3)
    ensures r == Add(a, Broadcast(s))
  {
    Vec3(a.x + s, a.y + s, a.z + s)
  }

  /** `float + vec3`: the scalar is broadcast. */
  function ScalarAdd(s: real, a: Vec3): (r: Vec3)
    ensures r == Add(Broadcast(s), a)
  {
    Vec3(s + a.x, s + a.y, s + a.z)
  }

  function SubScalar(a: Vec3, s: real): (r: Vec3)
    ensures r == Sub(a, Broadcast(s))
  {
    Vec3(a.x - s, a.y - s, a.z - s)
  }

  function ScalarSub(s: real, a: Vec3): (r: Vec3)
    ensures r == Sub(Broadcast(s), a)
  {
    Vec3(s - a.x, s - a.y, s - a.z)
  }

  function MulScalar(a: Vec3, s: real): (r: Vec3)
    ensures r == Mul(a, Broadcast(s))
  {
    Vec3(a.x * s, a.y * s, a.z * s)
  }

  function ScalarMul(s: real, a: Vec3): (r: Vec3)
    ensures r == Mul(Broadcast(s), a)
  {
    Vec3(s * a.x, s * a.y, s * a.z)
  }

  function DivScalar(a: Vec3, s: real): (r: Vec3)
    requires s != 0.0
    ensures r == Div(a, Broadcast(s))
  {
    Vec3(a.x / s, a.y / s, a.z / s)
  }

  function ScalarDiv(s: real, a: Vec3): (r: Vec3)
    requires NonZeroComponents(a)
    ensures r == Div(Broadcast(s), a)
  {
    Vec3(s / a.x, s / a.y, s / a.z)
  }

  /** Unary `+` returns its operand unchanged. */
  function Plus(v: Vec3): (r: Vec3)
    ensures Equals(r, v)
  {
    v
  }

  /** Unary `-`: every component changes sign; it is the additive inverse. */
  function Neg(v: Vec3): (r: Vec3)
    ensures forall i | 0 <= i < Count :: r.Values()[i] == -v.Values()[i]
    ensures Add(v, r) == Zero
  {
    Vec3(-v.x, -v.y, -v.z)
  }

  /** Over the reals, component-wise addition is a commutative monoid with
      `Zero` as identity, negation is an involution, subtraction adds the
      negation and undoes addition. */
  lemma AddAlgebra(a: Vec3, b: Vec3, c: Vec3)
    ensures Add(a, b) == Add(b, a)
    ensures Add(Add(a, b), c) == Add(a, Add(b, c))
    ensures Add(a, Zero) == a
    ensures Neg(Neg(a)) == a
    ensures Sub(a, b) == Add(a, Neg(b))
    ensures Sub(Add(a, b), b) == a
  {
  }

  /** Component-wise multiplication is commutative with identity `Ones` and
      absorbing `Zero`, and division by a vector without zero components
      undoes it. */
  lemma MulAlgebra(a: Vec3, b: Vec3)
    ensures Mul(a, b) == Mul(b, a)
    ensures Mul(a, Ones) == a
    ensures Mul(a, Zero) == Zero
    ensures NonZeroComponents(b) ==> Div(Mul(a, b), b) == a
  {
  }

  // ---------------------------------------------------------------------
  // Component-wise comparison

  /** The four relational operators; each compares component-wise and
      returns a `bvec3`, not a single boolean. */
  datatype Relation = Less | LessEqual | Greater | GreaterEqual

  predicate Holds(rel: Relation, a: real, b: real) {
    match rel
    case Less => a < b
    case LessEqual => a <= b
    case Greater => a > b
    case GreaterEqual => a >= b
  }

  /** `operator <`, `<=`, `>`, `>=` between two vectors. */
  function Compare(rel: Relation, a: Vec3, b: Vec3): (r: BVec3)
    ensures forall i | 0 <= i < Count :: r.Values()[i] == Holds(rel, a.Values()[i], b.Values()[i])
  {
    BVec3(Holds(rel, a.x, b.x), Holds(rel, a.y, b.y), Holds(rel, a.z, b.z))
  }

  /** The overloads with a scalar on the right broadcast it. */
  function CompareScalar(rel: Relation, a: Vec3, s: real): (r: BVec3)
    ensures r == Compare(rel, a, Broadcast(s))
  {
    BVec3(Holds(rel, a.x, s), Holds(rel, a.y, s), Holds(rel, a.z, s))
  }

  /** The overloads with a scalar on the left broadcast it. */
  function ScalarCompare(rel: Relation, s: real, a: Vec3): (r: BVec3)
    ensures r == Compare(rel, Broadcast(s), a)
  {
    BVec3(Holds(rel, s, a.x), Holds(rel, s, a.y), Holds(rel, s, a.z))
  }

  /** `a < b` is `b > a`, `a <= b` is `b >= a`; over the reals (no NaN)
      `a >= b` is the component-wise negation of `a < b`; and if `a <= b`
      and `a >= b` hold in every component the vectors are equal. */
  lemma CompareLaws(a: Vec3, b: Vec3)
    ensures Compare(Less, a, b) == Compare(Greater, b, a)
    ensures Compare(LessEqual, a, b) == Compare(GreaterEqual, b, a)
    ensures forall i | 0 <= i < Count ::
      Compare(GreaterEqual, a, b).Values()[i] == !Compare(Less, a, b).Values()[i]
    ensures (Compare(LessEqual, a, b) == BVec3(true, true, true) &&
             Compare(GreaterEqual, a, b) == BVec3(true, true, true)) ==> a == b
  {
  }

  // ---------------------------------------------------------------------
  // Reductions

  /** `MinElement`: a lower bound of the components that is one of them. */
  function MinElement(v: Vec3): (r: real)
    ensures forall i | 0 <= i < Count :: r <= v.Values()[i]
    ensures r in v.Values()
  {
    Min(Min(v.x, v.y), v.z)
  }

  /** `MaxElement`: an upper bound of the components that is one of them. */
  function MaxElement(v: Vec3): (r: real)
    ensures forall i | 0 <= i < Count :: v.Values()[i] <= r
    ensures r in v.Values()
  {
    Max(Max(v.x, v.y), v.z)
  }

  /** Reference fold: the sum of a sequence of scalars, first to last. */
  function SeqSum(s: seq<real>): real
  {
    if s == [] then 0.0 else s[0] + SeqSum(s[1..])
  }

  /** `Sum`: the sum of all components. */
  function Sum(v: Vec3): real
  {
    v.x + v.y + v.z
  }

  /** `Sum` is the fold of `+` over the enumerated components. */
  lemma SumIsFold(v: Vec3)
    ensures Sum(v) == SeqSum(v.Values())
  {
    assert SeqSum([v.z]) == v.z + SeqSum([]);
    assert SeqSum([v.y, v.z]) == v.y + SeqSum([v.z]);
    assert SeqSum([v.x, v.y, v.z]) == v.x + SeqSum([v.y, v.z]);
  }

  /** `Dot`: the inner product. */
  function Dot(a: Vec3, b: Vec3): real
  {
    a.x * b.x + a.y * b.y + a.z * b.z
  }

  /** The dot product is the sum of the component-wise products, and the
      squared length is the dot product of a vector with itself, i.e. the
      sum of its squared components. */
  lemma DotIsSumOfProducts(a: Vec3, b: Vec3)
    ensures Dot(a, b) == Sum(Mul(a, b))
    ensures LengthSqr(a) == Dot(a, a) == Sum(Sqr(a))
  {
  }

  /** `Sum` is the dot product with `Ones`. */
  lemma SumIsDotOnes(v: Vec3)
    ensures Sum(v) == Dot(v, Ones)
  {
  }

  /** The dot product is symmetric. */
  lemma DotSymmetric(a: Vec3, b: Vec3)
    ensures Dot(a, b) == Dot(b, a)
  {
  }

  /** The dot product with a unit axis picks out that component. */
  lemma DotWithUnit(v: Vec3)
    ensures Dot(UnitX, v) == v.x
    ensures Dot(UnitY, v) == v.y
    ensures Dot(UnitZ, v) == v.z
  {
  }

  /** The unit axes are orthonormal. */
  lemma DotUnitAxes()
    ensures Dot(UnitX, UnitY) == 0.0 && Dot(UnitY, UnitZ) == 0.0 && Dot(UnitZ, UnitX) == 0.0
    ensures Dot(UnitX, UnitX) == 1.0 && Dot(UnitY, UnitY) == 1.0 && Dot(UnitZ, UnitZ) == 1.0
  {
    DotWithUnit(UnitX);
    DotWithUnit(UnitY);
    DotWithUnit(UnitZ);
  }

  /** `Sqr`: each component squared, i.e. the vector times itself. */
  function Sqr(v: Vec3): (r: Vec3)
    ensures r == Mul(v, v)
    ensures forall i | 0 <= i < Count :: r.Values()[i] >= 0.0
  {
    SquareSign(v.x);
    SquareSign(v.y);
    SquareSign(v.z);
    Vec3(Square(v.x), Square(v.y), Square(v.z))
  }

  /** `LengthSqr`: the squared Euclidean length. */
  function LengthSqr(v: Vec3): real
  {
    Square(v.x) + Square(v.y) + Square(v.z)
  }

  /** The squared length is non-negative, and zero exactly for the zero
      vector. */
  lemma LengthSqrPositive(v: Vec3)
    ensures LengthSqr(v) >= 0.0
    ensures v == Zero ==> LengthSqr(v) == 0.0
    ensures v != Zero ==> LengthSqr(v) > 0.0
  {
    SquareSign(v.x);
    SquareSign(v.y);
    SquareSign(v.z);
  }

  /** `Abs`: each component replaced by its magnitude. */
  function Abs(v: Vec3): (r: Vec3)
    ensures forall i | 0 <= i < Count ::
      r.Values()[i] >= 0.0 && (r.Values()[i] == v.Values()[i] || r.Values()[i] == -v.Values()[i])
  {
    Vec3(Scalars.Abs(v.x), Scalars.Abs(v.y), Scalars.Abs(v.z))
  }

  /** `Sign`: an `ivec3` of -1/0/1 whose product with each component is that
      component's magnitude. */
  function Sign(v: Vec3): (r: IVec3)
    ensures forall i | 0 <= i < Count ::
      -1 <= r.Values()[i] <= 1 &&
      (r.Values()[i] == 0 <==> v.Values()[i] == 0.0) &&
      r.Values()[i] as real * v.Values()[i] == Abs(v).Values()[i]
  {
    IVec3(Scalars.Sign(v.x), Scalars.Sign(v.y), Scalars.Sign(v.z))
  }

  /** `Norm1`: the sum of the magnitudes; non-negative. */
  function Norm1(v: Vec3): (r: real)
    ensures r == Sum(Abs(v))
    ensures r >= 0.0
    ensures r == 0.0 <==> v == Zero
  {
    Scalars.Abs(v.x) + Scalars.Abs(v.y) + Scalars.Abs(v.z)
  }

  /** `NormMax`: the largest magnitude; non-negative, and at most `Norm1`. */
  function NormMax(v: Vec3): (r: real)
    ensures r == MaxElement(Abs(v))
    ensures r >= 0.0
    ensures r <= Norm1(v)
    ensures r == 0.0 <==> v == Zero
  {
    Max(Max(Scalars.Abs(v.x), Scalars.Abs(v.y)), Scalars.Abs(v.z))
  }

  /** `DistanceSqr`: the squared length of the difference. */
  function DistanceSqr(a: Vec3, b: Vec3): real
  {
    LengthSqr(Sub(a, b))
  }

  /** The squared distance is non-negative, and zero exactly when the two
      vectors are equal. */
  lemma DistanceSqrPositive(a: Vec3, b: Vec3)
    ensures DistanceSqr(a, b) >= 0.0
    ensures a == b ==> DistanceSqr(a, b) == 0.0
    ensures a != b ==> DistanceSqr(a, b) > 0.0
  {
    LengthSqrPositive(Sub(a, b));
    SubZeroIffEqual(a, b);
  }

  /** The difference of two vectors is zero exactly when they are equal. */
  lemma SubZeroIffEqual(a: Vec3, b: Vec3)
    ensures Sub(a, b) == Zero <==> a == b
  {
  }

  lemma DistanceSqrSymmetric(a: Vec3, b: Vec3)
    ensures DistanceSqr(a, b) == DistanceSqr(b, a)
  {
  }

  // ---------------------------------------------------------------------
  // Cross product

  /** `Cross`: the determinant expansion. */
  function Cross(l: Vec3, r: Vec3): Vec3
  {
    Vec3(l.y * r.z - l.z * r.y, l.z * r.x - l.x * r.z, l.x * r.y - l.y * r.x)
  }

  /** The cross product is orthogonal to both operands. */
  lemma CrossOrthogonal(a: Vec3, b: Vec3)
    ensures Dot(Cross(a, b), a) == 0.0
    ensures Dot(Cross(a, b), b) == 0.0
  {
  }

  /** The cross product is anticommutative and vanishes on a vector with
      itself. */
  lemma CrossAnticommutative(a: Vec3, b: Vec3)
    ensures Cross(a, b) == Neg(Cross(b, a))
    ensures Cross(a, a) == Zero
  {
  }

  /** The cross product with a unit axis on the left. */
  lemma CrossWithUnit(v: Vec3)
    ensures Cross(UnitX, v) == Vec3(0.0, -v.z, v.y)
    ensures Cross(UnitY, v) == Vec3(v.z, 0.0, -v.x)
    ensures Cross(UnitZ, v) == Vec3(-v.y, v.x, 0.0)
  {
  }

  /** Consecutive unit axes map to the next one (the standard basis is
      right-handed). */
  lemma CrossUnitAxes()
    ensures Cross(UnitX, UnitY) == UnitZ
    ensures Cross(UnitY, UnitZ) == UnitX
    ensures Cross(UnitZ, UnitX) == UnitY
  {
    CrossWithUnit(UnitY);
    CrossWithUnit(UnitZ);
    CrossWithUnit(UnitX);
  }

  // ---------------------------------------------------------------------
  // Safe normalisation

  /** `NormalizedSafe`, with the Euclidean length (a square root the model
      cannot compute) passed in as `length`: the zero vector maps to itself;
      any other vector is divided by its length, so that scaling the result
      back by the length restores it, and has unit length. */
  function NormalizedSafe(v: Vec3, length: real): (r: Vec3)
    requires v != Zero ==> length > 0.0 && Square(length) == LengthSqr(v)
    ensures v == Zero ==> r == Zero
    ensures v != Zero ==> MulScalar(r, length) == v
    ensures v != Zero ==> LengthSqr(r) == 1.0
  {
    if Equals(v, Zero) then Zero
    else
      var u := DivScalar(v, length);
      ScaleBack(v, length);
      UnitLength(v, length);
      u
  }

  /** Dividing a non-zero vector by its length gives a unit vector. */
  lemma UnitLength(v: Vec3, length: real)
    requires v != Zero
    requires length > 0.0 && Square(length) == LengthSqr(v)
    ensures LengthSqr(DivScalar(v, length)) == 1.0
  {
    var u := DivScalar(v, length);
    ScaleBack(v, length);
    ScaledLengthSqr(u, length);
    LengthSqrPositive(v);
    CancelPositive(LengthSqr(v), Square(length), LengthSqr(u));
  }

  /** Multiplying by a non-zero scalar undoes dividing by it. */
  lemma ScaleBack(v: Vec3, s: real)
    requires s != 0.0
    ensures MulScalar(DivScalar(v, s), s) == v
  {
  }

  /** Scaling a vector by `k` scales its squared length by `k * k`. */
  lemma ScaledLengthSqr(u: Vec3, k: real)
    ensures LengthSqr(MulScalar(u, k)) == Square(k) * LengthSqr(u)
  {
    SquareOfProduct(u.x, k);
    SquareOfProduct(u.y, k);
    SquareOfProduct(u.z, k);
  }

  /** If a positive `a` equals both `p` and `p * s`, then `s` is one. */
  lemma CancelPositive(a: real, p: real, s: real)
    requires a > 0.0 && a == p * s && a == p
    ensures s == 1.0
  {
    ProductSign(p, s - 1.0);
    assert p * (s - 1.0) == p * s - p;
  }

  lemma ProductSign(p: real, d: real)
    requires p > 0.0
    ensures d > 0.0 ==> p * d > 0.0
    ensures d < 0.0 ==> p * d < 0.0
  {
  }
}
