/** The double-precision 4-component vector `dvec4`, with `double` idealised
    as `real`, as far as its behaviour is pinned down: constants, the
    broadcast, widening and copy constructors, the bounds-checked indexer,
    `Values`, and component-wise equality. */
module DoubleVec4 {
  import opened Wrappers
  import opened Int32
  import opened Vectors
  import FloatVec3

  /** Number of components (`Count`). */
  const Count: int := 4

  const Zero: Vec4 := Vec4(0.0, 0.0, 0.0, 0.0)
  const Ones: Vec4 := Vec4(1.0, 1.0, 1.0, 1.0)
  const UnitX: Vec4 := Vec4(1.0, 0.0, 0.0, 0.0)
  const UnitY: Vec4 := Vec4(0.0, 1.0, 0.0, 0.0)
  const UnitZ: Vec4 := Vec4(0.0, 0.0, 1.0, 0.0)
  const UnitW: Vec4 := Vec4(0.0, 0.0, 0.0, 1.0)

  /** The unit vectors in axis order. */
  const Units: seq<Vec4> := [UnitX, UnitY, UnitZ, UnitW]

  /** `Zero` is all 0, `Ones` is all 1, and the k-th unit vector has 1 in
      slot k and 0 elsewhere. */
  lemma ConstantsAreStandard()
    ensures forall i | 0 <= i < Count :: Zero.Values()[i] == 0.0 && Ones.Values()[i] == 1.0
    ensures forall k, i | 0 <= k < Count && 0 <= i < Count ::
      Units[k].Values()[i] == if i == k then 1.0 else 0.0
  {
  }

  // ---------------------------------------------------------------------
  // Constructors

  /** All-same-value constructor. */
  function Broadcast(s: real): (r: Vec4)
    ensures forall i | 0 <= i < Count :: r.Values()[i] == s
  {
    Vec4(s, s, s, s)
  }

  /** From a 2-vector; the missing z and w are zero. */
  function FromVec2(v: Vec2): (r: Vec4)
    ensures r.Values() == v.Values() + [0.0, 0.0]
  {
    Vec4(v.x, v.y, 0.0, 0.0)
  }

  /** From a 3-vector; the missing w is zero. */
  function FromVec3(v: Vec3): (r: Vec4)
    ensures r.Values() == v.Values() + [0.0]
  {
    Vec4(v.x, v.y, v.z, 0.0)
  }

  /** Broadcasting 0 and 1 gives `Zero` and `Ones`, and different scalars
      give different vectors. */
  lemma BroadcastLaws(s: real, t: real)
    ensures Broadcast(0.0) == Zero && Broadcast(1.0) == Ones
    ensures Broadcast(s) == Broadcast(t) <==> s == t
  {
  }

  /** Widening a 2-vector to four components directly or through `vec3`
      gives the same vector; widening a 3-vector agrees with `vec3`'s own
      conversion to a 4-vector, and dropping w again restores it. */
  lemma WideningAgrees(u: Vec2, v: Vec3)
    ensures FromVec3(FloatVec3.FromVec2(u)) == FromVec2(u)
    ensures FromVec3(v) == FloatVec3.ToVec4(v)
    ensures FloatVec3.FromVec4(FromVec3(v)) == v
  {
  }

  /** Copy constructor. */
  function Copy(v: Vec4): (r: Vec4)
    ensures r.Values() == v.Values()
    ensures Equals(r, v)
  {
    Vec4(v.x, v.y, v.z, v.w)
  }

  // ---------------------------------------------------------------------
  // Indexer

  /** The indexer as a partial function: defined on 0 .. 3 only, where it
      agrees with the checked getter. */
  function At(v: Vec4, i: int): (r: real)
    requires 0 <= i < Count
    ensures Get(v, i as int32) == Success(r)
  {
    if i == 0 then v.x else if i == 1 then v.y else if i == 2 then v.z else v.w
  }

  /** Indexer get: component `index` for 0 .. 3; any other `int` throws. */
  function Get(v: Vec4, index: int32): (r: Result<real>)
    ensures r.Success? <==> 0 <= index < 4
    ensures r.Success? ==> r.value == v.Values()[index]
    ensures r.Failure? ==> r.error == ArgumentOutOfRange("index")
  {
    if index == 0 then Success(v.x)
    else if index == 1 then Success(v.y)
    else if index == 2 then Success(v.z)
    else if index == 3 then Success(v.w)
    else Failure(ArgumentOutOfRange("index"))
  }

  /** Indexer set: replaces component `index` for 0 .. 3 and keeps the
      others; any other `int` throws. */
  function Set(v: Vec4, index: int32, value: real): (r: Result<Vec4>)
    ensures r.Success? <==> 0 <= index < 4
    ensures r.Success? ==> r.value.Values() == v.Values()[index as int := value]
    ensures r.Failure? ==> r.error == ArgumentOutOfRange("index")
  {
    if index == 0 then Success(Vec4(value, v.y, v.z, v.w))
    else if index == 1 then Success(Vec4(v.x, value, v.z, v.w))
    else if index == 2 then Success(Vec4(v.x, v.y, value, v.w))
    else if index == 3 then Success(Vec4(v.x, v.y, v.z, value))
    else Failure(ArgumentOutOfRange("index"))
  }

  /** Both get and set reject the smallest and largest `int`, -1, 4 and 5,
      with `ArgumentOutOfRange`. */
  lemma IndexerRejectsOutOfRange(v: Vec4, value: real)
    ensures forall index: int32 | index in {MinValue, -1, 4, 5, MaxValue} ::
      Get(v, index) == Failure(ArgumentOutOfRange("index")) &&
      Set(v, index, value) == Failure(ArgumentOutOfRange("index"))
  {
  }

  /** Reading back a component just written yields the written value, and
      every other index reads as before. */
  lemma SetThenGet(v: Vec4, i: int32, j: int32, value: real)
    requires 0 <= i < 4
    ensures Set(v, i, value).Success?
    ensures Get(Set(v, i, value).value, i) == Success(value)
    ensures j != i ==> Get(Set(v, i, value).value, j) == Get(v, j)
  {
  }

  /** One indexer assignment `v[index] = value`. */
  datatype Write = Write(index: int32, value: real)

  /** A sequence of indexer assignments applied in order; the first one with
      a bad index throws and ends the sequence. */
  function ApplyWrites(v: Vec4, ws: seq<Write>): (r: Result<Vec4>)
    ensures r.Failure? ==> r.error == ArgumentOutOfRange("index")
    ensures r.Failure? <==> exists k | 0 <= k < |ws| :: !(0 <= ws[k].index < 4)
    decreases |ws|
  {
    if ws == [] then Success(v)
    else
      var u :- Set(v, ws[0].index, ws[0].value);
      var r := ApplyWrites(u, ws[1..]);
      assert forall k | 1 <= k < |ws| :: ws[k] == ws[1..][k - 1];
      r
  }

  /** The value the last assignment to `i` in `ws` wrote, or `current` when
      there is none. */
  function Latest(ws: seq<Write>, i: int32, current: real): real
    decreases |ws|
  {
    if ws == [] then current
    else Latest(ws[1..], i, if ws[0].index == i then ws[0].value else current)
  }

  /** After a sequence of in-range assignments, every component reads as the
      last value assigned to it, or as before when it was never assigned. */
  lemma {:induction false} ApplyWritesReadsLatest(v: Vec4, ws: seq<Write>, i: int32)
    requires forall k | 0 <= k < |ws| :: 0 <= ws[k].index < 4
    requires 0 <= i < 4
    ensures ApplyWrites(v, ws).Success?
    ensures Get(ApplyWrites(v, ws).value, i) == Success(Latest(ws, i, Get(v, i).value))
    decreases |ws|
  {
    if ws != [] {
      SetThenGet(v, ws[0].index, i, ws[0].value);
      var u := Set(v, ws[0].index, ws[0].value).value;
      assert forall k | 0 <= k < |ws[1..]| :: ws[1..][k] == ws[k + 1];
      ApplyWritesReadsLatest(u, ws[1..], i);
    }
  }

  /** Applying `a + b` is applying `a`, then, if that succeeded, `b`. */
  lemma {:induction false} ApplyWritesConcat(v: Vec4, a: seq<Write>, b: seq<Write>)
    ensures ApplyWrites(v, a + b) ==
      if ApplyWrites(v, a).Success? then ApplyWrites(ApplyWrites(v, a).value, b) else ApplyWrites(v, a)
    decreases |a|
  {
    if a == [] {
      assert a + b == b;
    } else {
      assert (a + b)[0] == a[0];
      assert (a + b)[1..] == a[1..] + b;
      match Set(v, a[0].index, a[0].value)
      case Failure(_) =>
      case Success(u) => ApplyWritesConcat(u, a[1..], b);
    }
  }

  /** The indexer test's run of 39 assignments, in chunks of five. */
  const TraceStart: Vec4 := Vec4(8.5, 4.5, 3.0, 1.0)
  const Trace1: seq<Write> := [Write(1, 0.0), Write(3, 1.0), Write(1, 2.0), Write(2, 3.0), Write(3, 4.0)]
  const Trace2: seq<Write> := [Write(2, 5.0), Write(2, 6.0), Write(2, 7.0), Write(2, 8.0), Write(1, 9.0)]
  const Trace3: seq<Write> := [Write(0, -1.0), Write(1, -2.0), Write(0, -3.0), Write(3, -4.0), Write(2, -5.0)]
  const Trace4: seq<Write> := [Write(3, -6.0), Write(0, -7.0), Write(0, -8.0), Write(1, -9.0), Write(0, -9.5)]
  const Trace5: seq<Write> := [Write(2, -8.5), Write(1, -7.5), Write(1, -6.5), Write(0, -5.5), Write(1, -4.5)]
  const Trace6: seq<Write> := [Write(1, -3.5), Write(3, -2.5), Write(0, -1.5), Write(2, -0.5), Write(0, 0.5)]
  const Trace7: seq<Write> := [Write(0, 1.5), Write(1, 2.5), Write(2, 3.5), Write(1, 4.5), Write(3, 5.5)]
  const Trace8: seq<Write> := [Write(1, 6.5), Write(3, 7.5), Write(0, 8.5), Write(3, 9.5)]
  const TraceWrites: seq<Write> := Trace1 + Trace2 + Trace3 + Trace4 + Trace5 + Trace6 + Trace7 + Trace8

  /** The whole run succeeds and leaves the last value written to each
      component: 8.5, 6.5, 3.5, 9.5. */
  lemma IndexerTestTrace()
    ensures |TraceWrites| == 39
    ensures ApplyWrites(TraceStart, TraceWrites) == Success(Vec4(8.5, 6.5, 3.5, 9.5))
  {
    var v1, v2, v3, v4 := Vec4(8.5, 2.0, 3.0, 4.0), Vec4(8.5, 9.0, 8.0, 4.0), Vec4(-3.0, -2.0, -5.0, -4.0), Vec4(-9.5, -9.0, -5.0, -6.0);
    var v5, v6, v7 := Vec4(-5.5, -4.5, -8.5, -6.0), Vec4(0.5, -3.5, -0.5, -2.5), Vec4(1.5, 4.5, 3.5, 5.5);
    assert ApplyWrites(TraceStart, Trace1) == Success(v1);
    assert ApplyWrites(v1, Trace2) == Success(v2);
    assert ApplyWrites(v2, Trace3) == Success(v3);
    assert ApplyWrites(v3, Trace4) == Success(v4);
    assert ApplyWrites(v4, Trace5) == Success(v5);
    assert ApplyWrites(v5, Trace6) == Success(v6);
    assert ApplyWrites(v6, Trace7) == Success(v7);
    assert ApplyWrites(v7, Trace8) == Success(Vec4(8.5, 6.5, 3.5, 9.5));
    ApplyWritesConcat(TraceStart, Trace1, Trace2);
    ApplyWritesConcat(TraceStart, Trace1 + Trace2, Trace3);
    ApplyWritesConcat(TraceStart, Trace1 + Trace2 + Trace3, Trace4);
    ApplyWritesConcat(TraceStart, Trace1 + Trace2 + Trace3 + Trace4, Trace5);
    ApplyWritesConcat(TraceStart, Trace1 + Trace2 + Trace3 + Trace4 + Trace5, Trace6);
    ApplyWritesConcat(TraceStart, Trace1 + Trace2 + Trace3 + Trace4 + Trace5 + Trace6, Trace7);
    ApplyWritesConcat(TraceStart, Trace1 + Trace2 + Trace3 + Trace4 + Trace5 + Trace6 + Trace7, Trace8);
  }

  // ---------------------------------------------------------------------
  // Values and enumeration

  /** `ToArray`: walking indices 0 .. Count-1 through the indexer yields the
      components in declaration order, i.e. exactly `Values`. Going through
      the indexer rather than the enumerator's fields is a modelling choice. */
  method ToArray(v: Vec4) returns (xs: seq<real>)
    ensures |xs| == Count
    ensures xs == v.Values()
  {
    xs := [];
    var i: int32 := 0;
    while i < Count as int32
      invariant 0 <= i <= 4
      invariant xs == v.Values()[..i]
    {
      var c := Get(v, i);
      xs := xs + [c.value];
      i := i + 1;
    }
  }

  // ---------------------------------------------------------------------
  // Equality

  /** `Equals(dvec4)` and `operator ==`: component-wise equality. */
  function Equals(a: Vec4, b: Vec4): (r: bool)
    ensures r <==> forall i | 0 <= i < Count :: a.Values()[i] == b.Values()[i]
    ensures r <==> a == b
  {
    assert a.Values()[0] == a.x && a.Values()[1] == a.y && a.Values()[2] == a.z && a.Values()[3] == a.w;
    assert b.Values()[0] == b.x && b.Values()[1] == b.y && b.Values()[2] == b.z && b.Values()[3] == b.w;
    a.x == b.x && a.y == b.y && a.z == b.z && a.w == b.w
  }

  /** `operator !=`: some component differs; exactly the negation of `==`. */
  function NotEquals(a: Vec4, b: Vec4): (r: bool)
    ensures r <==> exists i | 0 <= i < Count :: a.Values()[i] != b.Values()[i]
    ensures r <==> !Equals(a, b)
  {
    !Equals(a, b)
  }

  /** Equality is reflexive and symmetric, a copy equals its original, and
      reversing the components gives an unequal vector unless the vector is a
      palindrome. */
  lemma EqualityLaws(a: Vec4, b: Vec4)
    ensures Equals(a, a) && Equals(Copy(a), a)
    ensures Equals(a, b) <==> Equals(b, a)
    ensures NotEquals(a, Vec4(a.w, a.z, a.y, a.x)) <==> a.x != a.w || a.y != a.z
  {
  }
}
