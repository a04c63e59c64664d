# myrtchallenge ray-tracing kernel in Dafny

This project models the sequential kernel of myrtchallenge, a C++ ray tracer
that follows "The Ray Tracer Challenge". It covers the numeric primitives,
tuples, colours, matrices, transformations, rays, shapes, intersections,
patterns, materials, the world, the camera and the canvas. It also proves
properties of that model.

Doubles are modelled as exact reals. The irrational functions the kernel
calls are parameters: `sqrt`, `pow` and `normalize` are fields of
`Tuples.Irrationals`, rotations take their sine and cosine, and the camera
takes `half_view` (the tangent of half the field of view). Exceptions become
`Wrappers.Result`: `NotInvertible` stands for the `domain_error` thrown by
`inverse` and `OutOfRange` for `std::vector::at`. The NaN "no hit" sentinel
becomes `Wrappers.Option`. Heap handles (`Shape_Ptr`, `Pattern_Ptr`,
`World_Ptr` and the like) become immutable values, and an update returns a
new value.

Modules follow the source files:

- `Primitives` (src/primitives.hpp);
- `Tuples`, `Colors`, `Matrices`, `Transformations`, `Rays`, `Lights`;
- `Shapes`, `Intersections`, `Patterns`, `Materials`;
- `Worlds`, `Cameras`, `Canvases`;
- `Wrappers`, which holds the `Option` and `Result` types.

## Model

| member | source | states |
|---|---|---|
| Primitives.EqualOnInfinity | src/primitives.hpp:18-21 | When either side is infinite, `equal` is exact equality. |
| Primitives.ApproxEqIsTolerance | src/primitives.hpp:15-24 | On finite values, `equal` holds iff the difference lies strictly between -EPSILON and EPSILON, with EPSILON = 0.00001. |
| Primitives.EqualReflexive | src/primitives.hpp:18-25 | Every value, infinite or not, is `equal` to itself. |
| Primitives.EqualSymmetric | src/primitives.hpp:18-25 | `equal(a, b)` holds iff `equal(b, a)` holds. |
| Primitives.Max | src/shapes.cpp:118-119 | The maximum of two extended reals is one of them and bounds both from above. |
| Primitives.Min | src/shapes.cpp:120-121 | The minimum of two extended reals is one of them and bounds both from below. |
| Primitives.TimesInfinity | src/primitives.hpp:37-40 | A positive numerator times infinity is +inf and a negative one is -inf. |
| Primitives.CheckAxis | src/primitives.hpp:28-44 | The returned pair is ordered. When the direction is at least EPSILON in size, it holds the two quotients (min − origin)/direction and (max − origin)/direction. Below that, both ends are infinite. |
| Primitives.CheckAxisIsSlab | src/primitives.hpp:28-44 | For a direction of size at least EPSILON, t lies between the returned bounds iff origin + t·direction lies in [min, max]. |
| Tuples.Point | src/tuples.cpp:25-28 | A point carries the tag w = 1 and is not a vector. |
| Tuples.Vector | src/tuples.cpp:37-40 | A vector carries the tag w = 0 and is not a point. |
| Tuples.TagAlgebra | src/tuples.cpp:44-61 | point − point is a vector, point ± vector is a point, vector ± vector is a vector, and negating a vector gives a vector. |
| Tuples.NegInvolution | src/tuples.cpp:44-47 | Negating twice gives the tuple back. |
| Tuples.NegIsSubtractionFromZero | src/tuples.cpp:44-61 | Negation equals subtraction from the zero tuple. |
| Tuples.AddSubCancel | src/tuples.cpp:51-61 | Subtracting what was added gives the tuple back. |
| Tuples.DotSymmetric | src/tuples.cpp:89-92 | The dot product is symmetric; it includes the w product. |
| Tuples.DotOfNeg | src/tuples.cpp:44-47 | Negating either argument negates the dot product. |
| Tuples.DotOfScale | src/tuples.cpp:65-68 | Scaling one argument scales the dot product. |
| Tuples.DotOfAdd | src/tuples.cpp:51-54 | The dot product distributes over addition. |
| Tuples.DotOfSub | src/tuples.cpp:58-61 | The dot product distributes over subtraction. |
| Tuples.DotOfAffine | src/tuples.cpp:89-92 | The dot product is linear in its right argument. |
| Tuples.CrossProperties | src/tuples.cpp:78-86 | The cross product is a vector, anti-commutes, and is orthogonal to each vector argument. |
| Tuples.Cross | src/tuples.cpp:78-86 | The cross product is a vector orthogonal to each vector argument. |
| Tuples.Reflect | src/tuples.cpp:108-111 | Reflecting a vector off a vector gives a vector. Off a unit normal, the component along the normal is negated. |
| Tuples.ReflectVectorIsVector | src/tuples.cpp:108-111 | Reflecting a vector off a vector gives a vector. |
| Tuples.ReflectNegatesNormalPart | src/tuples.cpp:108-111 | Off a unit normal, reflection negates the component along the normal. |
| Tuples.ReflectAboutUnitNormal | src/tuples.cpp:108-111 | Off a unit normal, reflecting twice gives back the incoming vector. |
| Tuples.TupleEqIsComponentwiseTolerance | src/tuples.cpp:13-16 | Tuple equality holds iff x, y, z and w each differ by less than EPSILON. |
| Tuples.TupleEqReflexive | src/tuples.cpp:13-16 | Every tuple equals itself. |
| Colors.DefaultIsBlack | include/myrtchallenge/colors.hpp:15-17 | A default colour has all three channels at 0. |
| Colors.ColorEqIsChannelTolerance | src/colors.cpp:13-16 | Colour equality holds iff each channel differs by less than EPSILON. |
| Colors.HadamardCommutes | src/colors.cpp:43-46 | The Hadamard product is commutative. |
| Colors.ScaleByOneAndZero | src/colors.cpp:49-52 | Scaling by 1 keeps a colour, and scaling by 0 gives black. |
| Colors.AddSubCancel | src/colors.cpp:31-40 | (c1 + c2) − c2 = c1. |
| Colors.AddBlack | src/colors.cpp:31-34 | Black is the identity of colour addition. |
| Matrices.At | src/matrices.cpp:29-32 | Reading (row, col) succeeds iff col + row·size is inside the value store. It then returns that value, and otherwise fails with OutOfRange. |
| Matrices.AtAgreesWithGet | src/matrices.cpp:29-32 | Inside a well-formed matrix, the checked read returns the row-major entry. |
| Matrices.IndexInjective | src/matrices.cpp:29-38 | Distinct in-range (row, col) pairs occupy distinct slots. |
| Matrices.Extensionality | src/matrices.cpp:29-38 | Two same-size matrices with the same entries are the same matrix. |
| Matrices.Identity | src/matrices.cpp:98-106 | The identity of size n is a well-formed n×n matrix. |
| Matrices.IdentityEntry | src/matrices.cpp:98-106 | The identity has 1 on the diagonal and 0 elsewhere. |
| Matrices.IdentityMatrix | src/matrices.cpp:98-106 | The literal 4×4 identity is the size-4 identity. |
| Matrices.WithEntry | src/matrices.cpp:35-38 | Assigning one entry sets it and leaves the other fifteen unchanged. |
| Matrices.MatMul | src/matrices.cpp:54-65 | The product of two n×n matrices is a well-formed n×n matrix. |
| Matrices.MatMulEntry | src/matrices.cpp:54-65 | Each product entry is the row-times-column sum. |
| Matrices.MatMul4Entry | src/matrices.cpp:54-65 | Each 4×4 product entry is the four-term row-times-column sum. |
| Matrices.MulTuple | src/matrices.cpp:68-76 | The identity leaves a tuple unchanged, and a bottom row of (0, 0, 0, 1) keeps w. |
| Matrices.MulTupleByValues | src/matrices.cpp:68-76 | A 4×4 matrix times a tuple gives each component as the dot product of one row with the tuple. |
| Matrices.IdentityMulTuple | src/matrices.cpp:68-76 | The identity leaves every tuple unchanged. |
| Matrices.BottomRowKeepsTag | src/matrices.cpp:68-76 | A matrix whose bottom row is (0, 0, 0, 1) preserves w. |
| Matrices.MatMul4IsProduct | src/matrices.cpp:54-65 | The 4×4 product has every entry given by the row-times-column sum. |
| Matrices.ProductRow | src/matrices.cpp:54-65 | Row i of A·B is the combination of B's rows weighted by row i of A. |
| Matrices.RowDotOfProduct | src/matrices.cpp:54-76 | Row i of A·B applied to t equals row i of A applied to B·t. |
| Matrices.MulTupleOfProduct | src/matrices.cpp:54-76 | (A·B)·t = A·(B·t). |
| Matrices.MulTupleOfAffine | src/matrices.cpp:68-76 | Applying a matrix is linear: M·(a + k·b) = M·a + k·(M·b). |
| Matrices.TransposeOfIdentity | src/matrices.cpp:161-168 | The transpose of the identity of every size is the identity. |
| Matrices.Transpose | src/matrices.cpp:161-168 | The transpose of a well-formed matrix is well-formed and of the same size. |
| Matrices.TransposeEntry | src/matrices.cpp:161-168 | The transpose moves (col, row) to (row, col). |
| Matrices.TransposeInvolution | src/matrices.cpp:161-168 | Transposing twice gives the matrix back. |
| Matrices.Submatrix | src/matrices.cpp:137-158 | The submatrix of an n×n matrix is well-formed and (n−1)×(n−1). |
| Matrices.SubmatrixEntry | src/matrices.cpp:137-158 | Each submatrix entry is the original entry with the removed row and column skipped. |
| Matrices.SubmatrixKeepsTheRest | src/matrices.cpp:137-158 | Every original entry outside the removed row and column appears in the submatrix, shifted past them. |
| Matrices.Determinant2x2 | src/matrices.cpp:86-91 | A 2×2 determinant is ad − bc. |
| Matrices.CofactorIsSignedMinor | src/matrices.cpp:79-83 | A cofactor is the minor, negated iff row + col is odd. |
| Matrices.ExpansionStep | src/matrices.cpp:92-94 | The row-0 expansion adds m(0, col)·cofactor(0, col) for each column. |
| Matrices.CofactorOfRow0 | src/matrices.cpp:79-83 | A row-0 cofactor is the signed determinant of the submatrix. |
| Matrices.DeterminantOfOneByOne | src/matrices.cpp:86-95 | The corrected determinant of a 1×1 matrix is its only entry. |
| Matrices.ZeroRowDeterminant | src/matrices.cpp:86-95 | A matrix with an all-zero row has determinant 0. |
| Matrices.SubmatrixOfIdentity | src/matrices.cpp:137-158 | Removing row k and column k from the identity gives the identity one size smaller. |
| Matrices.DeterminantOfIdentity | src/matrices.cpp:86-106 | The identity of every size has determinant 1. |
| Matrices.CofactorOfIdentity | src/matrices.cpp:79-83 | The identity's cofactors are 1 on the diagonal and 0 elsewhere. |
| Matrices.Inverse | src/matrices.cpp:109-128 | The inverse fails with NotInvertible exactly when the determinant is `equal` to 0. Otherwise it is a well-formed matrix of the same size. |
| Matrices.InverseEntry | src/matrices.cpp:114-121 | Entry (col, row) of the inverse is cofactor(row, col) divided by the non-zero determinant. |
| Matrices.Inverse4 | src/matrices.cpp:109-128 | On 4×4 matrices, the inverse fails exactly when the matrix is not invertible. |
| Matrices.InverseOfIdentity | src/matrices.cpp:98-122 | The identity of every size is its own inverse. |
| Matrices.InverseOfIdentityMatrix | src/matrices.cpp:98-122 | The 4×4 identity is its own inverse. |
| Matrices.Cofactor2x2 | src/matrices.cpp:79-83 | With the corrected determinant, a 2×2 cofactor is the signed opposite entry. |
| Matrices.InverseEntries2x2 | src/matrices.cpp:109-122 | The inverse of an invertible 2×2 matrix is (1/det)·[[d, −b], [−c, a]]. |
| Matrices.InverseOf2x2 | src/matrices.cpp:109-122 | An invertible 2×2 matrix times its inverse is the identity. |
| Matrices.InverseAsWritten | src/matrices.cpp:109-122 | Inverse as written, with the source's 1×1 determinant. It fails exactly when that determinant is `equal` to 0. |
| Matrices.OneByOneAsWritten | src/matrices.cpp:86-95 | As written, every 1×1 matrix has determinant 0. |
| Matrices.OneByOneCounterexample | src/matrices.cpp:86-95 | As written, det([5]) = 0, while the corrected determinant gives 5. |
| Matrices.InverseAsWrittenCounterexample | src/matrices.cpp:109-122 | As written, [[2, 0], [0, 2]] has determinant 4 but its inverse is the zero matrix. |
| Matrices.InverseCorrected | src/matrices.cpp:109-122 | With the corrected determinant, the inverse of [[2, 0], [0, 2]] is [[0.5, 0], [0, 0.5]]. |
| Matrices.ValuesFromEntries | src/matrices.cpp:18-26 | Entrywise `equal` on two same-size matrices implies matrix equality. |
| Matrices.EntriesFromValues | src/matrices.cpp:18-26 | Matrix equality implies entrywise `equal`. |
| Matrices.MatrixEqIsElementwise | src/matrices.cpp:18-26 | Matrix equality holds iff the sizes agree and every (row, col) entry is `equal`. |
| Matrices.MatrixEqReflexive | src/matrices.cpp:18-26 | Every matrix equals itself. |
| Transformations.TranslationFromIdentity | src/transformations.cpp:68-75 | Translation is the identity with (0,3), (1,3) and (2,3) set to x, y and z. |
| Transformations.ScalingFromIdentity | src/transformations.cpp:45-52 | Scaling is the identity with the diagonal set to x, y and z. |
| Transformations.ShearingFromIdentity | src/transformations.cpp:55-65 | Shearing is the identity with the six off-diagonal entries set. |
| Transformations.RotationXFromIdentity | src/transformations.cpp:12-20 | Rotation about x is the identity with the y-z block set to cos and ±sin. |
| Transformations.RotationYFromIdentity | src/transformations.cpp:23-31 | Rotation about y is the identity with the x-z block set to cos and ±sin. |
| Transformations.RotationZFromIdentity | src/transformations.cpp:34-42 | Rotation about z is the identity with the x-y block set to cos and ±sin. |
| Transformations.KeepsTag | src/transformations.cpp:12-75 | A matrix with bottom row (0, 0, 0, 1) keeps points as points and vectors as vectors. |
| Transformations.ConstructorsKeepBottomRow | src/transformations.cpp:12-75 | Every transformation constructor leaves the bottom row at (0, 0, 0, 1). |
| Transformations.TranslationMoves | src/transformations.cpp:68-75 | Translation adds (x, y, z) to a point and leaves a vector unchanged. |
| Transformations.TranslationOffset | src/transformations.cpp:68-75 | Translation adds w times (x, y, z) to a tuple. |
| Transformations.TranslationUndone | src/transformations.cpp:68-75 | Translating by (−x, −y, −z) undoes translating by (x, y, z). |
| Transformations.ScalingScales | src/transformations.cpp:45-52 | Scaling multiplies x, y and z by the factors and keeps w. |
| Transformations.ReflectionIsScaling | src/transformations.cpp:45-52 | scaling(−1, 1, 1) mirrors a point's x coordinate. |
| Transformations.ShearingMoves | src/transformations.cpp:55-65 | Each coordinate moves by the shearing factors times the other two coordinates. |
| Transformations.ShearingXByY | src/transformations.cpp:55-65 | Shearing x by y moves a point's x by k·y alone. |
| Transformations.RotationXTurns | src/transformations.cpp:12-20 | Rotation about x keeps x and w and turns (y, z) by the given angle. |
| Transformations.RotationYTurns | src/transformations.cpp:23-31 | Rotation about y keeps y and w and turns (z, x) by the given angle. |
| Transformations.RotationZTurns | src/transformations.cpp:34-42 | Rotation about z keeps z and w and turns (x, y) by the given angle. |
| Transformations.PlanarRotationKeepsLength | src/transformations.cpp:34-42 | When sin² + cos² = 1, a plane rotation preserves squared length. |
| Transformations.RotationZKeepsLength | src/transformations.cpp:34-42 | When sin² + cos² = 1, rotation about z preserves the squared length of a tuple. |
| Transformations.ChainedTransformations | src/matrices.cpp:54-76 | Applying C·B·A to p is applying A, then B, then C. |
| Rays.Position | src/rays.cpp:28-31 | The position moves from the origin by t times the direction on each axis. A point origin with a vector direction gives a point. |
| Rays.PositionAtZero | src/rays.cpp:28-31 | At t = 0 the position is the origin. |
| Rays.PositionAdds | src/rays.cpp:28-31 | Moving s + t along a ray is moving s, then t more along the direction. |
| Rays.Transform | src/rays.cpp:34-37 | The identity leaves a ray unchanged. A matrix with bottom row (0, 0, 0, 1) keeps a point origin a point and a vector direction a vector. |
| Rays.PositionOfTransform | src/rays.cpp:28-37 | A position on the transformed ray is the transformed position on the original ray. |
| Rays.TranslateRay | src/rays.cpp:34-37 | Translating a ray moves its origin and keeps its direction. |
| Rays.ScaleRay | src/rays.cpp:34-37 | Scaling a ray scales both its origin and its direction. |
| Rays.RayEqIsComponentwiseTolerance | src/rays.cpp:16-19 | Ray equality is tuple equality on origin and on direction. |
| Rays.RayEqReflexive | src/rays.cpp:16-19 | Every ray equals itself. |
| Shapes.NewShape | src/shapes.cpp:99-105 | A new cube, plane or sphere has the identity transform and the default material. |
| Shapes.GlassSphere | src/shapes.cpp:213-219 | The glass sphere is the default sphere with transparency 1.0 and refractive index 1.5. |
| Shapes.SetTransform | src/shapes.cpp:88-91 | Setting the transform replaces it and keeps the kind and the material. |
| Shapes.ShapeEq | src/shapes.cpp:37-46 | Shapes with the same transform and the same material are equal. |
| Shapes.ShapeEqIgnoresKind | src/shapes.cpp:37-46 | Shape equality compares only transform and material: a fresh cube equals a fresh sphere, and a glass sphere differs from a plain one. |
| Shapes.CubeIntersect | src/shapes.cpp:114-129 | A cube yields no intersections or exactly two. Both reference the cube, and the first t is no greater than the second. |
| Shapes.WithinAllSlabs | src/shapes.cpp:114-129 | t lies within the cube's combined bounds iff it lies within each axis's bounds. |
| Shapes.InsideCubeIsWithinSlabs | src/shapes.cpp:114-121 | The ray point at t lies inside the unit cube iff t lies within the bounds of all three axes. |
| Shapes.CubeIntersectionsAreTheBounds | src/shapes.cpp:114-129 | When the direction is not negligible, t lies between two reported intersections iff it lies within the combined bounds (largest minimum, smallest maximum). |
| Shapes.CubeIntersectionsBoundTheCube | src/shapes.cpp:114-129 | When the direction is not negligible, t lies between the two intersections iff the ray point at t is inside the cube. |
| Shapes.CubeNormal | src/shapes.cpp:138-148 | The cube normal is a vector. |
| Shapes.CubeNormalIsDominantAxis | src/shapes.cpp:138-148 | The cube normal keeps only the component of largest magnitude, with ties going to x, then y. |
| Shapes.PlaneIntersect | src/shapes.cpp:171-179 | A plane yields nothing iff the direction's y is below EPSILON in size. Otherwise it yields one hit on y = 0 referencing the plane. |
| Shapes.PlaneRootIsUnique | src/shapes.cpp:171-179 | When the ray is not parallel, the reported t is the only t whose position has y = 0. |
| Shapes.SphereQuadratic | src/shapes.cpp:227-236 | The quadratic's a is non-negative, and the discriminant is b² − 4ac. |
| Shapes.SphereIntersect | src/shapes.cpp:227-248 | A sphere yields nothing when the discriminant is negative (or a = 0). Otherwise it yields exactly two hits referencing the sphere. |
| Shapes.SphereRootsOrdered | src/shapes.cpp:238-247 | With a true square root, the two roots are in order, and they are equal iff the discriminant is 0. |
| Shapes.QuadraticRoot | src/shapes.cpp:238-247 | Each quadratic formula root solves the quadratic. |
| Shapes.SquaredDistanceAlongRay | src/shapes.cpp:227-236 | The squared distance of the ray point from the origin, minus 1, is the sphere's quadratic in t. |
| Shapes.SphereRootsOnSurface | src/shapes.cpp:227-248 | With a true square root, every reported hit lies on the unit sphere. |
| Shapes.LocalIntersect | src/shapes.cpp:114-248 | Dispatch by kind gives at most two intersections, all referencing the shape. |
| Shapes.LocalNormalAt | src/shapes.cpp:138-260 | The plane normal is (0, 1, 0), the sphere normal is the point minus the origin, and cube normals are vectors. |
| Shapes.Intersect | src/shapes.cpp:56-62 | Intersecting fails exactly when the shape's transform is not invertible. Otherwise it yields at most two hits on the shape. |
| Shapes.IntersectUntransformed | src/shapes.cpp:56-62 | With the identity transform, world intersection is local intersection. |
| Shapes.IntersectMovesTheRay | src/shapes.cpp:56-62 | World intersection is local intersection of the ray transformed by the inverse. |
| Shapes.NormalAt | src/shapes.cpp:72-79 | The world normal fails exactly when the shape's transform is not invertible. |
| Shapes.NormalAtThroughInverse | src/shapes.cpp:72-79 | The world normal is the local normal at inverse·point, multiplied by the transposed inverse, with w set to 0, then normalised. |
| Shapes.NormalAtUntransformed | src/shapes.cpp:72-79 | With the identity transform, the world normal is the normalised local normal at the point itself, with w set to 0. |
| Intersections.Before | src/intersections.cpp:18-21 | Intersections at the same t are never ordered, and one with a smaller t comes before. |
| Intersections.IntersectionEq | src/intersections.cpp:24-27 | Every intersection equals itself. Two intersections are equal iff they share the object and their t values are less than EPSILON apart. |
| Intersections.OrderIgnoresObject | src/intersections.cpp:18-27 | Intersections are ordered by t alone. At equal t, equality is decided by the object. |
| Intersections.SortedPairwise | src/intersections.cpp:45-50 | In a sorted list, an earlier element never has a larger t. |
| Intersections.Insert | src/intersections.cpp:45-50 | Insertion into a sorted list keeps it sorted and adds exactly the new element. |
| Intersections.Sort | src/intersections.cpp:45-50 | `intersections` returns a sorted permutation of its input. |
| Intersections.SortKeepsMembers | src/intersections.cpp:45-50 | Every element of the sorted list comes from the input. |
| Intersections.SortOfSorted | src/intersections.cpp:45-50 | Sorting an already sorted list leaves it unchanged. |
| Intersections.FindPositive | src/intersections.cpp:30-35 | The scan stops at the first element with t > 0, and everything it skips has t ≤ 0. |
| Intersections.Hit | src/intersections.cpp:30-36 | There is no hit iff every t ≤ 0. Otherwise the hit is the first list element with t > 0. |
| Intersections.HitIsSmallestPositive | src/intersections.cpp:30-36 | On a sorted list, the hit has the smallest positive t. |
| Intersections.SortKeepsHit | src/intersections.cpp:30-50 | Sorting neither creates nor removes a hit. |
| Intersections.FaceEye | src/intersections.cpp:66-71 | The normal is negated, and `inside` set, exactly when it points away from the eye. Afterwards it faces the eye. |
| Intersections.PrepareComputations | src/intersections.cpp:53-77 | This fails exactly when the object's transform is not invertible. Otherwise t, the object, the point and the eye vector are the hit's, and the normal faces the eye. |
| Intersections.InsideFlipsNormal | src/intersections.cpp:64-71 | `inside` holds iff the world normal points away from the eye, and the stored normal is then its negation. |
| Intersections.OverPointFacesEye | src/intersections.cpp:73-74 | The over point is the point nudged by EPSILON along the normal, toward the eye. reflectv is the direction reflected about the normal. |
| Patterns.MakePattern | src/patterns.cpp:19-56 | A new pattern stores its two colours and the identity transform. |
| Patterns.PatternAt | src/patterns.cpp:59-88 | Every kind of pattern except the gradient returns one of its two colours. |
| Patterns.StripeAlternates | src/patterns.cpp:83-88 | Stripes ignore y and z, return a iff floor(x) is even (or a = b), and swap colours one unit along x. |
| Patterns.CheckersAlternate | src/patterns.cpp:59-64 | Checkers return a iff the floors of x, y and z sum to an even number (or a = b), and swap colours one unit along any axis. |
| Patterns.GradientBlends | src/patterns.cpp:67-72 | A gradient is a at integer x, blends a toward b by a fraction in [0, 1), and repeats every unit. |
| Patterns.RingDependsOnRadius | src/patterns.cpp:75-80 | Two points at the same distance from the y axis get the same ring colour. |
| Patterns.RingAlternates | src/patterns.cpp:75-80 | At a whole distance d from the y axis, a ring gives a when d is even and b when d is odd. |
| Patterns.PatternAtShape | src/patterns.cpp:91-96 | This fails exactly when either the object's or the pattern's transform is not invertible. |
| Patterns.PatternAtShapeComposes | src/patterns.cpp:91-96 | The pattern is evaluated at inverse(pattern transform)·(inverse(object transform)·p). |
| Patterns.FreshPatternOnPlainObject | src/patterns.cpp:19-96 | A fresh pattern on an untransformed object is evaluated at the world point itself. |
| Patterns.SetPatternTransform | src/patterns.cpp:99-102 | Setting the pattern transform replaces only the transform. |
| Patterns.SetPatternTransformEvaluates | src/patterns.cpp:91-102 | After the transform is set, the pattern is evaluated at the point mapped by its inverse. |
| Patterns.PatternAtIgnoresTransform | src/patterns.cpp:59-88 | The local evaluation does not depend on the pattern's transform. |
| Materials.DefaultMaterial | src/materials.cpp:53-66 | The default material is white, with ambient 0.1, diffuse 0.9, specular 0.9 and shininess 200. It has no pattern, reflective 0, transparency 0 and refractive index 1. |
| Materials.MaterialEq | src/materials.cpp:20-44 | Materials that differ only in `reflective` and the pattern are equal. Equal materials have red channels less than EPSILON apart. |
| Materials.MaterialEqReflexive | src/materials.cpp:20-44 | Every material equals itself. |
| Materials.MaterialEqIgnoresReflectiveAndPattern | src/materials.cpp:20-44 | Changing `reflective` or the pattern keeps a material equal. |
| Materials.MaterialEqSeesColor | src/materials.cpp:20-44 | Changing the colour by at least EPSILON makes a material unequal. |
| Materials.SurfaceColor | src/materials.cpp:71-73 | The surface colour fails iff there is a pattern and the object's or the pattern's transform is singular. Without a pattern it is the material colour. With a stripe, checkers or ring pattern it is one of the pattern's two colours. |
| Materials.PhongTerms | src/materials.cpp:76-112 | The ambient term is effective colour times ambient. Diffuse and specular are black when the light is behind the surface. Specular is black when the reflection points away from the eye. |
| Materials.Lighting | src/materials.cpp:69-117 | Lighting fails exactly when the surface colour fails. |
| Materials.LightingInShadow | src/materials.cpp:114-115 | In shadow, lighting returns exactly the ambient term. |
| Materials.LightBehindSurface | src/materials.cpp:89-93 | When the light is behind the surface, lit and shadowed results coincide. |
| Materials.ReflectionAwayFromEye | src/materials.cpp:101-105 | When the reflected light points away from the eye, only ambient and diffuse remain. |
| Materials.PatternReplacesColor | src/materials.cpp:71-73 | With a pattern present, the material's own colour has no influence. |
| Worlds.EmptyWorld | src/world.cpp:18-21 | A new world has no light and no objects. |
| Worlds.DefaultWorld | src/world.cpp:24-40 | The default world has a white light at (−10, 10, −10), then sphere s1 with its colour, diffuse and specular, then sphere s2 scaled by 0.5. |
| Worlds.IntersectAll | src/world.cpp:54-61 | Collecting every object's intersections fails iff some object's transform is singular. Every hit references an object of the world. |
| Worlds.IntersectAllLength | src/world.cpp:54-61 | The collected list is as long as the sum of the per-object counts. |
| Worlds.IntersectWorld | src/world.cpp:54-63 | The world's intersections are a sorted permutation of the collected ones, each referencing an object. An empty world gives none. |
| Worlds.IntersectWorldLength | src/world.cpp:54-63 | Sorting keeps the total count. |
| Worlds.IsShadowed | src/world.cpp:66-79 | The shadow test fails exactly when some object's transform is singular. |
| Worlds.ShadowedIffBlocked | src/world.cpp:66-79 | A point is shadowed iff the ray toward the light has a hit closer than the light. |
| Worlds.ColorAt | src/world.cpp:43-51 | A world with a singular object transform cannot be shaded. |
| Worlds.ColorAtShadesHit | src/world.cpp:43-51 | When the ray has a hit, preparing it succeeds and the colour seen is `shade_hit` of the prepared hit with the same budget. |
| Worlds.ColorAtSucceeds | src/world.cpp:43-102 | With a light, and every object and pattern transform invertible, the colour along every ray succeeds for every budget. |
| Worlds.ColorAtFromReflections | src/world.cpp:43-102 | One level of the recursion: if every ray succeeds with one less unit of budget, this ray succeeds with the full budget. |
| Worlds.ShadeHit | src/world.cpp:96-102 | Shading fails whenever some object's transform is singular. |
| Worlds.ShadeHitSumsSurfaceAndReflection | src/world.cpp:96-102 | The shadow test at the over point succeeds. Shading is the lit surface colour, with that shadow flag, plus the reflected colour. |
| Worlds.ShadeHitSucceeds | src/world.cpp:96-102 | With every object and pattern transform invertible, shading a hit on an object of the world succeeds once the reflected colour does. |
| Worlds.ReflectionOfAColor | src/world.cpp:82-92 | On a reflective surface with budget left, the reflected colour succeeds once the colour along the reflected ray does. |
| Worlds.ReflectedColor | src/world.cpp:82-88 | With no budget left, or on a non-reflective surface, the reflected colour is black. |
| Worlds.ReflectedColorRecurses | src/world.cpp:90-92 | Otherwise it is the colour along the reflected ray from the over point, with one less unit of budget, scaled by reflectivity. |
| Worlds.EmptyWorldIsBlack | src/world.cpp:18-51 | Every ray in an empty world sees black. |
| Worlds.NoHitIsBlack | src/world.cpp:43-51 | A ray without a positive hit sees black. |
| Worlds.MatteShadingIgnoresBudget | src/world.cpp:82-102 | On a non-reflective surface, shading does not depend on the remaining budget. |
| Worlds.SpentBudgetShadesSurfaceOnly | src/world.cpp:82-102 | With the budget spent, shading is the lit surface colour plus black. |
| Canvases.NewCanvas | src/canvas.cpp:17-21 | A new canvas has the given size, width·height pixels, all black. |
| Canvases.PixelAt | src/canvas.cpp:71-74 | Reading fails with OutOfRange iff the flat index y·width + x is past the store. |
| Canvases.WritePixel | src/canvas.cpp:77-80 | Writing keeps the width, the height and the store size. |
| Canvases.NewCanvasIsBlack | src/canvas.cpp:17-21 | Every in-range pixel of a new canvas reads black. |
| Canvases.ReadAfterWrite | src/canvas.cpp:71-80 | Reading a pixel after writing it returns the written colour. |
| Canvases.WriteKeepsOthers | src/canvas.cpp:71-80 | Writing leaves every pixel at another index unchanged. |
| Canvases.DistinctPixelsDistinctIndices | src/canvas.cpp:73-79 | Inside the width, distinct coordinates map to distinct flat indices. |
| Canvases.WritePastRowEndWraps | src/canvas.cpp:77-80 | Writing at x = width lands on pixel (0, y + 1). |
| Cameras.NewCamera | src/camera.cpp:14-32 | The camera stores its sizes and field of view with the identity transform. The wider side spans half_view, both sides keep the aspect ratio, and the pixel size divides the width evenly. |
| Cameras.SquarePixels | src/camera.cpp:18-29 | The pixel size also divides the height evenly, so pixels are square. |
| Cameras.NewCameraIsProportioned | src/camera.cpp:14-32 | A new camera's pixel size divides both sides, and its longer side spans half_view. |
| Cameras.PixelSizeIgnoresOrientation | src/camera.cpp:18-29 | Swapping hsize and vsize gives the same pixel size. |
| Cameras.PixelCentreStep | src/camera.cpp:38-44 | The next column's centre is one pixel size further towards −x, and the next row's is one pixel size further towards −y. |
| Cameras.CanvasSpansHalfExtents | src/camera.cpp:38-44 | On a proportioned camera the pixels tile the canvas: the first pixel's outer corner is (half_width, half_height, −1) and the last pixel's is (−half_width, −half_height, −1). |
| Cameras.RowIsCentred | src/camera.cpp:38-44 | Pixel columns px and hsize − 1 − px mirror each other about the axis. |
| Cameras.ColumnIsCentred | src/camera.cpp:38-44 | Pixel rows py and vsize − 1 − py mirror each other about the axis. |
| Cameras.MiddlePixelIsOnAxis | src/camera.cpp:38-44 | The middle pixel's centre is (0, 0, −1). |
| Cameras.RayForPixel | src/camera.cpp:35-54 | The pixel ray fails exactly when the camera transform is not invertible. |
| Cameras.UntransformedRayForPixel | src/camera.cpp:49-53 | With the identity transform, the ray starts at the origin and heads for the pixel centre. |
| Cameras.RayAlongAxis | src/camera.cpp:43-53 | Through a pixel centred on the axis, an untransformed camera looks down −z. |
| Cameras.MiddleRayLooksDownAxis | src/camera.cpp:35-54 | A new camera's middle-pixel ray starts at the origin and looks down −z. |
| Cameras.PixelColor | src/camera.cpp:62-63 | A pixel's colour fails with NotInvertible when the camera transform is singular. |
| Cameras.PaintNext | src/camera.cpp:60-66 | Writing the next pixel in row-major order extends the painted prefix and keeps earlier pixels. |
| Cameras.AllPainted | src/camera.cpp:57-68 | After the last row, every pixel shows its colour. |
| Cameras.Render | src/camera.cpp:57-68 | On success, the canvas is hsize × vsize and every pixel holds the colour seen through it. On failure, the error is that of the first failing pixel in row-major order. |

## Left out

- `canvas_to_png`: libpng calls, `setjmp` and file I/O.
- The example scene programs and the older `spheres.cpp` snapshot, which `shapes.cpp` supersedes.
- Bounds, groups, cylinders and cones, `view_transform`, `refracted_color`, `schlick`, n1/n2 and `under_point`. They are declared in the headers but have no definition in the modelled source.
- Irrational numerics: `sqrt`, `pow`, `normalize`, `sin`, `cos` and `tan` are supplied by the caller and left uninterpreted. Ring patterns are modelled with the supplied `sqrt`.
- Rounding: doubles are exact reals, and the NaN sentinel of `hit` is `Option.None`.
- Primitives.CheckAxis: when origin sits exactly on a slab face and the direction is below EPSILON, the source computes `0 * INFINITY` = NaN. The model returns the unbounded interval there.
- Shapes.CubeIntersect: when every direction component is below EPSILON, the infinite slab bounds can still pass `tmin <= tmax`, and the source then returns infinite t values. The model returns no intersections in that case.
- Shapes.SphereIntersect: for a zero direction (a = 0), the source divides by zero and returns NaN roots. The model returns none.
- Matrices.Inverse: m·inverse(m) = I is proved only for 2×2 matrices. For 4×4 matrices the model keeps the cofactor formula and its error condition.
- Matrices.DeterminantAsWritten: agreement with the corrected determinant on sizes other than 1 is not proved.
- Matrices.Determinant: the corrected determinant of a 0×0 matrix is 1, so Matrices.Inverse of it succeeds. The source's loop gives 0 there (src/matrices.cpp:88-94), and `inverse` throws `domain_error` (src/matrices.cpp:111-112). Taking 1 is what makes the row-0 expansion give det([a]) = a.
- Matrices.MulTuple takes 4×4 matrices only, and so do the transformations built on it. The source's `operator*(Matrix, Tuple)` accepts any size. On a larger matrix it reads the correct top-left 4×4 entries and ignores the rest. On a smaller one, reads past the row end land on entries of the next row until `.at` throws `out_of_range`: on a 3×3 matrix, m(0, 3) reads entry (1, 0) and m(2, 3) throws.
- Matrices.MatMul requires equal sizes. The source reads out of range (and throws) on mismatched sizes.
- Matrices.Submatrix, Matrices.Cofactor and Matrices.Minor require in-range indices, where the source throws `out_of_range` for most bad ones.
- `Point_Light` assignment and `operator==`: the light is a plain two-field datatype.
- Object identity: the source compares intersection objects by their address, and the model compares shapes by value.
- Intersections.Sort: `std::sort` is not stable. The model picks one sorted permutation by insertion, so the order among equal t values may differ from the source's.
- Worlds.ColorAt: the source dereferences the light without a check. The model requires a light whenever the world has objects.
- Cameras.NewCamera: sizes are whole numbers and must be positive. The source takes doubles and divides by vsize and hsize.
- Cameras.RayForPixel: nothing is proved about the normalised direction beyond its argument, because `normalize` is uninterpreted.

## Findings

| source | as written | input that shows it | evidently intended | confidence | as-written member | corrected member |
|---|---|---|---|---|---|---|
| src/matrices.cpp:86-95 | `determinant` of a 1×1 matrix runs the cofactor loop, and the minor of a 0×0 submatrix is 0, so det([a]) = 0. Every 2×2 cofactor is therefore 0, and `inverse` of an invertible 2×2 matrix returns the zero matrix. 3×3 and 4×4 matrices are unaffected because the recursion stops at the 2×2 formula. | [[2, 0], [0, 2]]: determinant 4, but the inverse is all zeros | det([a]) = a, and the inverse of [[2, 0], [0, 2]] is [[0.5, 0], [0, 0.5]] | not executed | Matrices.InverseAsWrittenCounterexample | Matrices.InverseOf2x2 |
