/** Patterns: colour functions of a point in pattern space, built from the
    integer parts (floors) of the point's coordinates, and their evaluation
    on a transformed shape. */
module Patterns {
  import opened Wrappers
  import opened Tuples
  import opened Matrices
  import Colors

  datatype PatternKind = Checkers | Gradient | Ring | Stripe

  /** A pattern alternates or blends between colours a and b; `transform`
      maps pattern space into object space. */
  datatype Pattern = Pattern(kind: PatternKind, a: Colors.Color, b: Colors.Color, transform: Matrix4)

  /** The four `*_pattern(first, second)` factories: the two colours and the
      identity transform. */
  function MakePattern(kind: PatternKind, first: Colors.Color, second: Colors.Color): (p: Pattern)
    ensures p.kind == kind && p.a == first && p.b == second
    ensures p.transform == IdentityMatrix()
  {
    Pattern(kind, first, second, IdentityMatrix())
  }

  function CheckersPattern(first: Colors.Color, second: Colors.Color): Pattern {
    MakePattern(Checkers, first, second)
  }

  function GradientPattern(first: Colors.Color, second: Colors.Color): Pattern {
    MakePattern(Gradient, first, second)
  }

  function RingPattern(first: Colors.Color, second: Colors.Color): Pattern {
    MakePattern(Ring, first, second)
  }

  function StripePattern(first: Colors.Color, second: Colors.Color): Pattern {
    MakePattern(Stripe, first, second)
  }

  /** `std::fmod(v, 2) == 0` for a double v that is an integer: v is even. */
  predicate IsEven(n: int) {
    n % 2 == 0
  }

  /** `std::fmod(v, 2) == 0` for an arbitrary non-negative double v: v is an
      even integer. */
  predicate IsEvenInteger(v: real) {
    v == v.Floor as real && IsEven(v.Floor)
  }

  /** `pattern_at`, dispatched on the kind of pattern. Every kind but the
      gradient picks one of its two colours. */
  function PatternAt(ir: Irrationals, p: Pattern, point: Tuple): (r: Colors.Color)
    ensures p.kind != Gradient ==> r == p.a || r == p.b
  {
    match p.kind
    case Stripe =>
      if IsEven(point.x.Floor) then p.a else p.b
    case Checkers =>
      if IsEven(point.x.Floor + point.y.Floor + point.z.Floor) then p.a else p.b
    case Gradient =>
      Colors.Add(p.a, Colors.Scale(Colors.Sub(p.b, p.a), point.x - point.x.Floor as real))
    case Ring =>
      if IsEvenInteger(ir.sqrt(SquaredRadius(point))) then p.a else p.b
  }

  /** The squared distance of a point from the y axis. */
  function SquaredRadius(point: Tuple): real {
    point.x * point.x + point.z * point.z
  }

  lemma FloorShift(x: real, n: int)
    ensures (x + n as real).Floor == x.Floor + n
  {
  }

  /** A stripe depends on x alone, and moving one unit along x switches to
      the other colour. */
  lemma {:induction false} StripeAlternates(ir: Irrationals, p: Pattern, point: Tuple, y: real, z: real)
    requires p.kind == Stripe
    ensures PatternAt(ir, p, point) == PatternAt(ir, p, Tuple(point.x, y, z, point.w))
    ensures PatternAt(ir, p, point) == p.a <==> IsEven(point.x.Floor) || p.a == p.b
    ensures PatternAt(ir, p, Tuple(point.x + 1.0, point.y, point.z, point.w)) ==
              if IsEven(point.x.Floor) then p.b else p.a
  {
    FloorShift(point.x, 1);
  }

  /** Checkers switch colour with one unit of movement along any axis. */
  lemma {:induction false} CheckersAlternate(ir: Irrationals, p: Pattern, point: Tuple)
    requires p.kind == Checkers
    ensures PatternAt(ir, p, point) == p.a <==>
              IsEven(point.x.Floor + point.y.Floor + point.z.Floor) || p.a == p.b
    ensures var other := if IsEven(point.x.Floor + point.y.Floor + point.z.Floor) then p.b else p.a;
            PatternAt(ir, p, Tuple(point.x + 1.0, point.y, point.z, point.w)) == other &&
            PatternAt(ir, p, Tuple(point.x, point.y + 1.0, point.z, point.w)) == other &&
            PatternAt(ir, p, Tuple(point.x, point.y, point.z + 1.0, point.w)) == other
  {
    FloorShift(point.x, 1);
    FloorShift(point.y, 1);
    FloorShift(point.z, 1);
  }

  /** A gradient is a at every integer x, and elsewhere a + (b - a) * f for a
      blend fraction f in [0, 1) that repeats with period 1. */
  lemma {:induction false} GradientBlends(ir: Irrationals, p: Pattern, point: Tuple)
    requires p.kind == Gradient
    ensures point.x == point.x.Floor as real ==> PatternAt(ir, p, point) == p.a
    ensures exists f: real :: 0.0 <= f < 1.0 &&
              PatternAt(ir, p, point) == Colors.Add(p.a, Colors.Scale(Colors.Sub(p.b, p.a), f))
    ensures PatternAt(ir, p, Tuple(point.x + 1.0, point.y, point.z, point.w)) == PatternAt(ir, p, point)
  {
    var f := point.x - point.x.Floor as real;
    assert 0.0 <= f < 1.0;
    FloorShift(point.x, 1);
    if point.x == point.x.Floor as real {
      assert Colors.Scale(Colors.Sub(p.b, p.a), 0.0) == Colors.Black;
    }
  }

  /** Rings are centred on the y axis: two points at the same distance from
      it get the same colour. */
  lemma RingDependsOnRadius(ir: Irrationals, p: Pattern, point: Tuple, other: Tuple)
    requires p.kind == Ring
    requires SquaredRadius(other) == SquaredRadius(point)
    ensures PatternAt(ir, p, other) == PatternAt(ir, p, point)
  {
  }

  /** A point whose distance from the y axis is a whole number d of units
      gets colour a when d is even and colour b when d is odd. */
  lemma {:induction false} RingAlternates(ir: Irrationals, p: Pattern, point: Tuple, d: nat)
    requires p.kind == Ring
    requires ir.sqrt(SquaredRadius(point)) == d as real
    ensures PatternAt(ir, p, point) == if d % 2 == 0 then p.a else p.b
  {
    assert (d as real).Floor == d;
  }

  /** `pattern_at_shape`: the world point is taken into object space by the
      inverse of the object's transform, then into pattern space by the
      inverse of the pattern's; either inverse can fail. */
  function PatternAtShape(ir: Irrationals, p: Pattern, objectTransform: Matrix4, worldPoint: Tuple): (r: Result<Colors.Color>)
    ensures r.Failure? <==> !Invertible(objectTransform) || !Invertible(p.transform)
    ensures r.Failure? ==> r.error == NotInvertible
  {
    var toObject :- Inverse4(objectTransform);
    var toPattern :- Inverse4(p.transform);
    Success(PatternAt(ir, p, MulTuple(toPattern, MulTuple(toObject, worldPoint))))
  }

  /** The two changes of space compose into one matrix, pattern inverse times
      object inverse. */
  lemma {:induction false} PatternAtShapeComposes(ir: Irrationals, p: Pattern, objectTransform: Matrix4, worldPoint: Tuple)
    requires Invertible(objectTransform) && Invertible(p.transform)
    ensures PatternAtShape(ir, p, objectTransform, worldPoint) ==
              Success(PatternAt(ir, p, MulTuple(MatMul4(Inverse4(p.transform).value, Inverse4(objectTransform).value), worldPoint)))
  {
    MulTupleOfProduct(Inverse4(p.transform).value, Inverse4(objectTransform).value, worldPoint);
  }

  /** On an untransformed object, a freshly built pattern is evaluated at the
      world point itself. */
  lemma {:induction false} FreshPatternOnPlainObject(ir: Irrationals, kind: PatternKind, first: Colors.Color, second: Colors.Color, worldPoint: Tuple)
    ensures PatternAtShape(ir, MakePattern(kind, first, second), IdentityMatrix(), worldPoint) ==
              Success(PatternAt(ir, MakePattern(kind, first, second), worldPoint))
  {
    InverseOfIdentityMatrix();
    IdentityMulTuple(worldPoint);
  }

  /** `set_pattern_transform`: replaces the transform and nothing else. */
  function SetPatternTransform(p: Pattern, m: Matrix4): (q: Pattern)
    ensures q.kind == p.kind && q.a == p.a && q.b == p.b && q.transform == m
  {
    p.(transform := m)
  }

  /** Evaluation after `set_pattern_transform` depends on the new transform
      only through its inverse. */
  lemma {:induction false} SetPatternTransformEvaluates(ir: Irrationals, p: Pattern, m: Matrix4, worldPoint: Tuple)
    requires Invertible(m)
    ensures PatternAtShape(ir, SetPatternTransform(p, m), IdentityMatrix(), worldPoint) ==
              Success(PatternAt(ir, p, MulTuple(Inverse4(m).value, worldPoint)))
  {
    InverseOfIdentityMatrix();
    IdentityMulTuple(worldPoint);
    PatternAtIgnoresTransform(ir, p, m, MulTuple(Inverse4(m).value, worldPoint));
  }

  /** The colour at a pattern-space point does not depend on the transform. */
  lemma PatternAtIgnoresTransform(ir: Irrationals, p: Pattern, m: Matrix4, point: Tuple)
    ensures PatternAt(ir, SetPatternTransform(p, m), point) == PatternAt(ir, p, point)
  {
  }
}
