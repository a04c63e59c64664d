/** The affine transformation constructors. Each starts from the 4 x 4
    identity and overwrites a few entries; none touches row 3, so every
    one of them maps points to points and vectors to vectors. */
module Transformations {
  import opened Tuples
  import opened Matrices

  /** Row 3 of m is (0, 0, 0, 1): the shape every constructor here keeps. */
  predicate KeepsBottomRow(m: Matrix4) {
    Entry(m, 3, 0) == 0.0 && Entry(m, 3, 1) == 0.0 && Entry(m, 3, 2) == 0.0 && Entry(m, 3, 3) == 1.0
  }

  /** `translation(x, y, z)`: the identity with (x, y, z) in column 3. */
  function Translation(x: real, y: real, z: real): Matrix4 {
    Matrix(4, [1.0, 0.0, 0.0, x,
               0.0, 1.0, 0.0, y,
               0.0, 0.0, 1.0, z,
               0.0, 0.0, 0.0, 1.0])
  }

  /** `scaling(x, y, z)`: the identity with x, y, z on the diagonal. */
  function Scaling(x: real, y: real, z: real): Matrix4 {
    Matrix(4, [x, 0.0, 0.0, 0.0,
               0.0, y, 0.0, 0.0,
               0.0, 0.0, z, 0.0,
               0.0, 0.0, 0.0, 1.0])
  }

  /** `shearing(xy, xz, yx, yz, zx, zy)`: parameter `ab` sits in row a,
      column b, so it moves coordinate a in proportion to coordinate b. */
  function Shearing(xy: real, xz: real, yx: real, yz: real, zx: real, zy: real): Matrix4 {
    Matrix(4, [1.0, xy, xz, 0.0,
               yx, 1.0, yz, 0.0,
               zx, zy, 1.0, 0.0,
               0.0, 0.0, 0.0, 1.0])
  }

  /** `rotation_x(rad)`, given sin(rad) and cos(rad). */
  function RotationX(sin: real, cos: real): Matrix4 {
    Matrix(4, [1.0, 0.0, 0.0, 0.0,
               0.0, cos, -sin, 0.0,
               0.0, sin, cos, 0.0,
               0.0, 0.0, 0.0, 1.0])
  }

  /** `rotation_y(rad)`, given sin(rad) and cos(rad). */
  function RotationY(sin: real, cos: real): Matrix4 {
    Matrix(4, [cos, 0.0, sin, 0.0,
               0.0, 1.0, 0.0, 0.0,
               -sin, 0.0, cos, 0.0,
               0.0, 0.0, 0.0, 1.0])
  }

  /** `rotation_z(rad)`, given sin(rad) and cos(rad). */
  function RotationZ(sin: real, cos: real): Matrix4 {
    Matrix(4, [cos, -sin, 0.0, 0.0,
               sin, cos, 0.0, 0.0,
               0.0, 0.0, 1.0, 0.0,
               0.0, 0.0, 0.0, 1.0])
  }

  lemma TranslationFromIdentity(x: real, y: real, z: real)
    ensures Translation(x, y, z) == (
      WithEntry(WithEntry(WithEntry(IdentityMatrix(), 0, 3, x), 1, 3, y), 2, 3, z))
  {
  }

  lemma ScalingFromIdentity(x: real, y: real, z: real)
    ensures Scaling(x, y, z) == (
      WithEntry(WithEntry(WithEntry(IdentityMatrix(), 0, 0, x), 1, 1, y), 2, 2, z))
  {
  }

  lemma ShearingFromIdentity(xy: real, xz: real, yx: real, yz: real, zx: real, zy: real)
    ensures Shearing(xy, xz, yx, yz, zx, zy) == (
      var s := WithEntry(WithEntry(WithEntry(IdentityMatrix(), 0, 1, xy), 0, 2, xz), 1, 0, yx);
      WithEntry(WithEntry(WithEntry(s, 1, 2, yz), 2, 0, zx), 2, 1, zy))
  {
  }

  lemma RotationXFromIdentity(sin: real, cos: real)
    ensures RotationX(sin, cos) == (
      WithEntry(WithEntry(WithEntry(WithEntry(IdentityMatrix(), 1, 1, cos), 1, 2, -sin), 2, 1, sin), 2, 2, cos))
  {
  }

  lemma RotationYFromIdentity(sin: real, cos: real)
    ensures RotationY(sin, cos) == (
      WithEntry(WithEntry(WithEntry(WithEntry(IdentityMatrix(), 0, 0, cos), 0, 2, sin), 2, 0, -sin), 2, 2, cos))
  {
  }

  lemma RotationZFromIdentity(sin: real, cos: real)
    ensures RotationZ(sin, cos) == (
      WithEntry(WithEntry(WithEntry(WithEntry(IdentityMatrix(), 0, 0, cos), 0, 1, -sin), 1, 0, sin), 1, 1, cos))
  {
  }

  /** A matrix keeping row 3 keeps the w tag of every tuple it transforms. */
  lemma KeepsTag(m: Matrix4, t: Tuple)
    requires KeepsBottomRow(m)
    ensures MulTuple(m, t).w == t.w
    ensures IsPoint(t) ==> IsPoint(MulTuple(m, t))
    ensures IsVector(t) ==> IsVector(MulTuple(m, t))
  {
    BottomRowKeepsTag(m, t);
  }

  /** Every constructor leaves row 3 of the identity in place. */
  lemma ConstructorsKeepBottomRow(x: real, y: real, z: real, sin: real, cos: real,
                                  xy: real, xz: real, yx: real, yz: real, zx: real, zy: real)
    ensures KeepsBottomRow(Translation(x, y, z))
    ensures KeepsBottomRow(Scaling(x, y, z))
    ensures KeepsBottomRow(Shearing(xy, xz, yx, yz, zx, zy))
    ensures KeepsBottomRow(RotationX(sin, cos))
    ensures KeepsBottomRow(RotationY(sin, cos))
    ensures KeepsBottomRow(RotationZ(sin, cos))
  {
  }

  /** Translation adds (x, y, z) to a point and leaves a vector unchanged:
      in general it adds w times the offset. */
  lemma TranslationMoves(x: real, y: real, z: real, t: Tuple)
    ensures MulTuple(Translation(x, y, z), t) == Tuple(t.x + x * t.w, t.y + y * t.w, t.z + z * t.w, t.w)
    ensures IsPoint(t) ==> MulTuple(Translation(x, y, z), t) == Add(t, Vector(x, y, z))
    ensures IsVector(t) ==> MulTuple(Translation(x, y, z), t) == t
  {
    TranslationOffset(x, y, z, t);
  }

  lemma TranslationOffset(x: real, y: real, z: real, t: Tuple)
    ensures MulTuple(Translation(x, y, z), t) == Tuple(t.x + x * t.w, t.y + y * t.w, t.z + z * t.w, t.w)
  {
    MulTupleByValues(Translation(x, y, z), t, 1.0, 0.0, 0.0, x, 0.0, 1.0, 0.0, y, 0.0, 0.0, 1.0, z, 0.0, 0.0, 0.0, 1.0);
  }

  /** Translating by the opposite offset undoes a translation. */
  lemma {:induction false} TranslationUndone(x: real, y: real, z: real, t: Tuple, u: Tuple)
    requires u == MulTuple(Translation(x, y, z), t)
    ensures MulTuple(Translation(-x, -y, -z), u) == t
  {
    var nx, ny, nz := -x, -y, -z;
    TranslationOffset(x, y, z, t);
    TranslationOffset(nx, ny, nz, u);
    OffsetsCancel(x, y, z, nx, ny, nz, t, u, MulTuple(Translation(nx, ny, nz), u));
  }

  /** Adding w times an offset and then w times its opposite. */
  lemma OffsetsCancel(x: real, y: real, z: real, nx: real, ny: real, nz: real, t: Tuple, u: Tuple, v: Tuple)
    requires nx == -x && ny == -y && nz == -z
    requires u == Tuple(t.x + x * t.w, t.y + y * t.w, t.z + z * t.w, t.w)
    requires v == Tuple(u.x + nx * u.w, u.y + ny * u.w, u.z + nz * u.w, u.w)
    ensures v == t
  {
    OffsetCancels(t.x, x, nx, t.w);
    OffsetCancels(t.y, y, ny, t.w);
    OffsetCancels(t.z, z, nz, t.w);
  }

  lemma OffsetCancels(a: real, d: real, nd: real, w: real)
    requires nd == -d
    ensures a + d * w + nd * w == a
  {
  }

  /** Scaling multiplies x, y and z of points and vectors alike. */
  lemma ScalingScales(x: real, y: real, z: real, t: Tuple)
    ensures MulTuple(Scaling(x, y, z), t) == Tuple(t.x * x, t.y * y, t.z * z, t.w)
  {
    MulTupleByValues(Scaling(x, y, z), t, x, 0.0, 0.0, 0.0, 0.0, y, 0.0, 0.0, 0.0, 0.0, z, 0.0, 0.0, 0.0, 0.0, 1.0);
  }

  /** Scaling by (-1, 1, 1) mirrors a point across the x = 0 plane. */
  lemma {:induction false} ReflectionIsScaling(x: real, y: real, z: real)
    ensures MulTuple(Scaling(-1.0, 1.0, 1.0), Point(x, y, z)) == Point(-x, y, z)
  {
    ScalingScales(-1.0, 1.0, 1.0, Point(x, y, z));
  }

  /** Each shearing parameter adds one coordinate, in proportion, to another. */
  lemma ShearingMoves(xy: real, xz: real, yx: real, yz: real, zx: real, zy: real, t: Tuple)
    ensures MulTuple(Shearing(xy, xz, yx, yz, zx, zy), t) ==
              Tuple(t.x + xy * t.y + xz * t.z, t.y + yx * t.x + yz * t.z, t.z + zx * t.x + zy * t.y, t.w)
  {
    MulTupleByValues(Shearing(xy, xz, yx, yz, zx, zy), t, 1.0, xy, xz, 0.0, yx, 1.0, yz, 0.0, zx, zy, 1.0, 0.0, 0.0, 0.0, 0.0, 1.0);
  }

  /** With only `xy` set, shearing moves x in proportion to y and nothing else. */
  lemma {:induction false} ShearingXByY(k: real, x: real, y: real, z: real)
    ensures MulTuple(Shearing(k, 0.0, 0.0, 0.0, 0.0, 0.0), Point(x, y, z)) == Point(x + k * y, y, z)
  {
    ShearingMoves(k, 0.0, 0.0, 0.0, 0.0, 0.0, Point(x, y, z));
    ZeroShears(k, x, y, z);
  }

  lemma ZeroShears(k: real, x: real, y: real, z: real)
    ensures Tuple(x + k * y + 0.0 * z, y + 0.0 * x + 0.0 * z, z + 0.0 * x + 0.0 * y, 1.0) == Point(x + k * y, y, z)
  {
  }

  /** A rotation about x keeps the x coordinate; with sin^2 + cos^2 = 1 it
      also keeps the squared length of y and z. */
  lemma RotationXTurns(sin: real, cos: real, t: Tuple)
    ensures MulTuple(RotationX(sin, cos), t) == Tuple(t.x, cos * t.y - sin * t.z, sin * t.y + cos * t.z, t.w)
  {
    MulTupleByValues(RotationX(sin, cos), t, 1.0, 0.0, 0.0, 0.0, 0.0, cos, -sin, 0.0, 0.0, sin, cos, 0.0, 0.0, 0.0, 0.0, 1.0);
  }

  lemma RotationYTurns(sin: real, cos: real, t: Tuple)
    ensures MulTuple(RotationY(sin, cos), t) == Tuple(cos * t.x + sin * t.z, t.y, cos * t.z - sin * t.x, t.w)
  {
    MulTupleByValues(RotationY(sin, cos), t, cos, 0.0, sin, 0.0, 0.0, 1.0, 0.0, 0.0, -sin, 0.0, cos, 0.0, 0.0, 0.0, 0.0, 1.0);
  }

  lemma RotationZTurns(sin: real, cos: real, t: Tuple)
    ensures MulTuple(RotationZ(sin, cos), t) == Tuple(cos * t.x - sin * t.y, sin * t.x + cos * t.y, t.z, t.w)
  {
    MulTupleByValues(RotationZ(sin, cos), t, cos, -sin, 0.0, 0.0, sin, cos, 0.0, 0.0, 0.0, 0.0, 1.0, 0.0, 0.0, 0.0, 0.0, 1.0);
  }

  /** With sin^2 + cos^2 = 1 the planar rotation keeps squared length. */
  lemma {:induction false} PlanarRotationKeepsLength(sin: real, cos: real, a: real, b: real)
    requires sin * sin + cos * cos == 1.0
    ensures (cos * a - sin * b) * (cos * a - sin * b) + (sin * a + cos * b) * (sin * a + cos * b) == a * a + b * b
  {
    calc {
      (cos * a - sin * b) * (cos * a - sin * b) + (sin * a + cos * b) * (sin * a + cos * b);
      (sin * sin + cos * cos) * (a * a) + (sin * sin + cos * cos) * (b * b);
      a * a + b * b;
    }
  }

  /** A rotation about z keeps the length of a vector. */
  lemma {:induction false} RotationZKeepsLength(sin: real, cos: real, v: Tuple)
    requires sin * sin + cos * cos == 1.0
    ensures Dot(MulTuple(RotationZ(sin, cos), v), MulTuple(RotationZ(sin, cos), v)) == Dot(v, v)
  {
    RotationZTurns(sin, cos, v);
    PlanarRotationKeepsLength(sin, cos, v.x, v.y);
  }

  /** Chained transformations apply right to left: (C * B * A) * p equals
      C * (B * (A * p)). */
  lemma {:induction false} ChainedTransformations(a: Matrix4, b: Matrix4, c: Matrix4, p: Tuple)
    ensures MulTuple(MatMul4(MatMul4(c, b), a), p) == MulTuple(c, MulTuple(b, MulTuple(a, p)))
  {
    MulTupleOfProduct(MatMul4(c, b), a, p);
    MulTupleOfProduct(c, b, MulTuple(a, p));
  }
}
