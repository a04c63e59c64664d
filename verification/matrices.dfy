/** Square matrices stored row-major in a flat sequence, as the kernel stores
    them: element (row, col) of an n x n matrix lives at `values[col + row * n]`. */
module Matrices {
  import opened Wrappers
  import opened Primitives
  import opened Tuples

  datatype Matrix = Matrix(size: nat, values: seq<real>)

  /** Every matrix built by `matrix(sz)` holds exactly sz * sz values. */
  predicate WellFormed(m: Matrix) {
    |m.values| == m.size * m.size
  }

  /** The 4 x 4 matrices used as transforms. */
  type Matrix4 = m: Matrix | m.size == 4 && |m.values| == 16
    witness Matrix(4, [0.0, 0.0, 0.0, 0.0, 0.0, 0.0, 0.0, 0.0,
                       0.0, 0.0, 0.0, 0.0, 0.0, 0.0, 0.0, 0.0])

  // ---------------------------------------------------------------------
  // Layout arithmetic

  lemma MulMonotone(a: int, b: int, n: nat)
    requires a <= b
    ensures a * n <= b * n
  {
  }

  /** A flat offset below n * n splits into a row k / n and a column k % n. */
  lemma LayoutOf(n: nat, k: nat)
    requires k < n * n
    ensures k / n < n && k % n < n
    ensures k == k % n + (k / n) * n
  {
    if k / n >= n {
      MulMonotone(n, k / n, n);
    }
  }

  /** Row and column are recovered from the offset `col + row * n`. */
  lemma IndexOf(n: nat, row: nat, col: nat)
    requires row < n && col < n
    ensures col + row * n < n * n
    ensures (col + row * n) / n == row && (col + row * n) % n == col
  {
    MulMonotone(row, n - 1, n);
    var k := col + row * n;
    var q, r := k / n, k % n;
    assert (q - row) * n == col - r;
    if q - row >= 1 {
      MulMonotone(1, q - row, n);
    } else if q - row <= -1 {
      MulMonotone(q - row, -1, n);
    }
  }

  /** Distinct in-range (row, col) pairs have distinct offsets. */
  lemma IndexInjective(n: nat, row: nat, col: nat, row': nat, col': nat)
    requires row < n && col < n && row' < n && col' < n
    requires col + row * n == col' + row' * n
    ensures row == row' && col == col'
  {
    IndexOf(n, row, col);
    IndexOf(n, row', col');
  }

  // ---------------------------------------------------------------------
  // Element access

  /** `operator()(row, col)`: `values.at(col + row * size)`, which throws
      `std::out_of_range` past the end of the storage. The column is not
      checked against the size on its own. */
  function At(m: Matrix, row: nat, col: nat): (r: Result<real>)
    ensures r.Success? <==> col + row * m.size < |m.values|
    ensures r.Success? ==> r.value == m.values[col + row * m.size]
    ensures r.Failure? ==> r.error == OutOfRange
  {
    var offset := col + row * m.size;
    if offset < |m.values| then Success(m.values[offset]) else Failure(OutOfRange)
  }

  /** Element (row, col) of a well-formed matrix, for in-range indices; the
      offset is always in range there (IndexOf), so the fallback is never
      taken. */
  function Get(m: Matrix, row: nat, col: nat): real
    requires WellFormed(m) && row < m.size && col < m.size
  {
    var offset := col + row * m.size;
    if offset < |m.values| then m.values[offset] else 0.0
  }

  lemma AtAgreesWithGet(m: Matrix, row: nat, col: nat)
    requires WellFormed(m) && row < m.size && col < m.size
    ensures At(m, row, col) == Success(Get(m, row, col))
  {
    IndexOf(m.size, row, col);
  }

  /** Two well-formed matrices of one size with the same elements are equal. */
  lemma {:induction false} Extensionality(a: Matrix, b: Matrix)
    requires WellFormed(a) && WellFormed(b) && a.size == b.size
    requires forall row: nat, col: nat :: row < a.size && col < a.size ==> Get(a, row, col) == Get(b, row, col)
    ensures a == b
  {
    var n := a.size;
    forall k | 0 <= k < n * n
      ensures a.values[k] == b.values[k]
    {
      LayoutOf(n, k);
      assert Get(a, k / n, k % n) == Get(b, k / n, k % n);
    }
  }

  // ---------------------------------------------------------------------
  // Construction

  /** `identity_matrix()` generalised to any size: ones on the diagonal. */
  function Identity(n: nat): (m: Matrix)
    ensures WellFormed(m) && m.size == n
  {
    Matrix(n, seq(n * n, k requires 0 <= k < n * n => if k / n == k % n then 1.0 else 0.0))
  }

  lemma IdentityEntry(n: nat, row: nat, col: nat)
    requires row < n && col < n
    ensures Get(Identity(n), row, col) == if row == col then 1.0 else 0.0
  {
    IndexOf(n, row, col);
  }

  /** `identity_matrix()`: the 4 x 4 identity. */
  function IdentityMatrix(): (m: Matrix4)
    ensures m == Identity(4)
  {
    Matrix(4, [1.0, 0.0, 0.0, 0.0,
               0.0, 1.0, 0.0, 0.0,
               0.0, 0.0, 1.0, 0.0,
               0.0, 0.0, 0.0, 1.0])
  }

  /** Element (row, col) of a 4 x 4 matrix: `values[col + row * 4]`. */
  function Entry(m: Matrix4, row: nat, col: nat): real
    requires row < 4 && col < 4
  {
    m.values[col + row * 4]
  }

  lemma EntryIsGet(m: Matrix4, row: nat, col: nat)
    requires row < 4 && col < 4
    ensures Entry(m, row, col) == Get(m, row, col)
  {
  }

  /** The reference-style write `m(row, col) = v` on a 4 x 4 matrix. */
  function WithEntry(m: Matrix4, row: nat, col: nat, v: real): (r: Matrix4)
    requires row < 4 && col < 4
    ensures Entry(r, row, col) == v
    ensures forall i: nat, j: nat :: i < 4 && j < 4 && (i, j) != (row, col) ==> Entry(r, i, j) == Entry(m, i, j)
  {
    var r := Matrix(4, m.values[col + row * 4 := v]);
    assert forall i: nat, j: nat :: i < 4 && j < 4 && (i, j) != (row, col) ==> col + row * 4 != j + i * 4;
    r
  }

  // ---------------------------------------------------------------------
  // Products

  /** The sum of `lhs(row, i) * rhs(i, col)` for i below `count`. */
  function RowTimesColumn(lhs: Matrix, rhs: Matrix, row: nat, col: nat, count: nat): real
    requires WellFormed(lhs) && WellFormed(rhs) && lhs.size == rhs.size
    requires row < lhs.size && col < lhs.size && count <= lhs.size
  {
    if count == 0 then 0.0
    else RowTimesColumn(lhs, rhs, row, col, count - 1) + Get(lhs, row, count - 1) * Get(rhs, count - 1, col)
  }

  /** Matrix `operator*`: element (row, col) of the product is the dot
      product of row `row` of lhs with column `col` of rhs. */
  function MatMul(lhs: Matrix, rhs: Matrix): (m: Matrix)
    requires WellFormed(lhs) && WellFormed(rhs) && lhs.size == rhs.size
    ensures WellFormed(m) && m.size == lhs.size
  {
    var n := lhs.size;
    Matrix(n, seq(n * n, k requires 0 <= k < n * n =>
      LayoutOf(n, k);
      RowTimesColumn(lhs, rhs, k / n, k % n, n)))
  }

  lemma MatMulEntry(lhs: Matrix, rhs: Matrix, row: nat, col: nat)
    requires WellFormed(lhs) && WellFormed(rhs) && lhs.size == rhs.size
    requires row < lhs.size && col < lhs.size
    ensures Get(MatMul(lhs, rhs), row, col) == RowTimesColumn(lhs, rhs, row, col, lhs.size)
  {
    IndexOf(lhs.size, row, col);
  }

  function MatMul4(lhs: Matrix4, rhs: Matrix4): (m: Matrix4)
  {
    MatMul(lhs, rhs)
  }

  /** Row `row` of a 4 x 4 matrix as a tuple. */
  function Row(m: Matrix4, row: nat): Tuple
    requires row < 4
  {
    Tuple(Entry(m, row, 0), Entry(m, row, 1), Entry(m, row, 2), Entry(m, row, 3))
  }

  /** Row `row` of a 4 x 4 matrix dotted with the four components of a tuple. */
  function RowDot(m: Matrix4, row: nat, t: Tuple): real
    requires row < 4
  {
    Dot(Row(m, row), t)
  }

  /** Matrix-tuple `operator*`, written out over the four rows. The
      identity leaves every tuple alone, and a bottom row of (0, 0, 0, 1)
      keeps the w tag. */
  function MulTuple(m: Matrix4, t: Tuple): (r: Tuple)
    ensures m == IdentityMatrix() ==> r == t
    ensures Entry(m, 3, 0) == 0.0 && Entry(m, 3, 1) == 0.0 && Entry(m, 3, 2) == 0.0 && Entry(m, 3, 3) == 1.0 ==>
              r.w == t.w
  {
    Tuple(RowDot(m, 0, t), RowDot(m, 1, t), RowDot(m, 2, t), RowDot(m, 3, t))
  }

  /** A 4 x 4 matrix given by its sixteen values, applied to a tuple. */
  lemma MulTupleByValues(m: Matrix4, t: Tuple,
                         m00: real, m01: real, m02: real, m03: real,
                         m10: real, m11: real, m12: real, m13: real,
                         m20: real, m21: real, m22: real, m23: real,
                         m30: real, m31: real, m32: real, m33: real)
    requires m.values == [m00, m01, m02, m03, m10, m11, m12, m13, m20, m21, m22, m23, m30, m31, m32, m33]
    ensures MulTuple(m, t) == Tuple(m00 * t.x + m01 * t.y + m02 * t.z + m03 * t.w,
                                    m10 * t.x + m11 * t.y + m12 * t.z + m13 * t.w,
                                    m20 * t.x + m21 * t.y + m22 * t.z + m23 * t.w,
                                    m30 * t.x + m31 * t.y + m32 * t.z + m33 * t.w)
  {
  }

  /** The identity leaves every tuple, point or vector, unchanged. */
  lemma IdentityMulTuple(t: Tuple)
    ensures MulTuple(IdentityMatrix(), t) == t
  {
  }

  /** A matrix whose bottom row is (0, 0, 0, 1) keeps the w tag of what it
      transforms, so it maps points to points and vectors to vectors. */
  lemma BottomRowKeepsTag(m: Matrix4, t: Tuple)
    requires Entry(m, 3, 0) == 0.0 && Entry(m, 3, 1) == 0.0 && Entry(m, 3, 2) == 0.0 && Entry(m, 3, 3) == 1.0
    ensures MulTuple(m, t).w == t.w
  {
  }

  /** Entry (row, col) of a 4 x 4 product, written out. */
  lemma {:induction false} MatMul4Entry(a: Matrix4, b: Matrix4, row: nat, col: nat)
    requires row < 4 && col < 4
    ensures Entry(MatMul4(a, b), row, col) ==
              Entry(a, row, 0) * Entry(b, 0, col) + Entry(a, row, 1) * Entry(b, 1, col) +
              Entry(a, row, 2) * Entry(b, 2, col) + Entry(a, row, 3) * Entry(b, 3, col)
  {
    MatMulEntry(a, b, row, col);
    EntryIsGet(MatMul4(a, b), row, col);
    EntryIsGet(a, row, 0);
    EntryIsGet(a, row, 1);
    EntryIsGet(a, row, 2);
    EntryIsGet(a, row, 3);
    EntryIsGet(b, 0, col);
    EntryIsGet(b, 1, col);
    EntryIsGet(b, 2, col);
    EntryIsGet(b, 3, col);
    assert RowTimesColumn(a, b, row, col, 1) == Get(a, row, 0) * Get(b, 0, col);
    assert RowTimesColumn(a, b, row, col, 2) == RowTimesColumn(a, b, row, col, 1) + Get(a, row, 1) * Get(b, 1, col);
    assert RowTimesColumn(a, b, row, col, 3) == RowTimesColumn(a, b, row, col, 2) + Get(a, row, 2) * Get(b, 2, col);
    assert RowTimesColumn(a, b, row, col, 4) == RowTimesColumn(a, b, row, col, 3) + Get(a, row, 3) * Get(b, 3, col);
  }

  /** Equal factors give equal products. */
  lemma Substitute(a: real, b: real, x: real)
    requires a == b
    ensures a * x == b * x && x * a == x * b
  {
  }

  /** The combination b0 * a.x + b1 * a.y + b2 * a.z + b3 * a.w of four
      tuples, weighted by the components of a. */
  function Combine(a: Tuple, b0: Tuple, b1: Tuple, b2: Tuple, b3: Tuple): Tuple {
    Add(Add(Scale(b0, a.x), Scale(b1, a.y)), Add(Scale(b2, a.z), Scale(b3, a.w)))
  }

  /** `dot` is linear in its left argument, so a combination of rows dotted
      with t is the weights dotted with the rows' products with t. */
  lemma {:induction false} DotOfCombine(a: Tuple, b0: Tuple, b1: Tuple, b2: Tuple, b3: Tuple, t: Tuple)
    ensures Dot(Combine(a, b0, b1, b2, b3), t) == Dot(a, Tuple(Dot(b0, t), Dot(b1, t), Dot(b2, t), Dot(b3, t)))
  {
    DotOfAdd(Add(Scale(b0, a.x), Scale(b1, a.y)), Add(Scale(b2, a.z), Scale(b3, a.w)), t);
    DotOfAdd(Scale(b0, a.x), Scale(b1, a.y), t);
    DotOfAdd(Scale(b2, a.z), Scale(b3, a.w), t);
    DotOfScale(b0, a.x, t);
    DotOfScale(b1, a.y, t);
    DotOfScale(b2, a.z, t);
    DotOfScale(b3, a.w, t);
  }

  /** Two sums of four products agree when their factors agree pairwise. */
  lemma SumOfProductsAgree(a0: real, a1: real, a2: real, a3: real, b0: real, b1: real, b2: real, b3: real,
                           c0: real, c1: real, c2: real, c3: real, d0: real, d1: real, d2: real, d3: real)
    requires a0 == c0 && a1 == c1 && a2 == c2 && a3 == c3
    requires b0 == d0 && b1 == d1 && b2 == d2 && b3 == d3
    ensures a0 * b0 + a1 * b1 + a2 * b2 + a3 * b3 == c0 * d0 + c1 * d1 + c2 * d2 + c3 * d3
  {
    Substitute(a0, c0, b0);
    Substitute(b0, d0, c0);
    Substitute(a1, c1, b1);
    Substitute(b1, d1, c1);
    Substitute(a2, c2, b2);
    Substitute(b2, d2, c2);
    Substitute(a3, c3, b3);
    Substitute(b3, d3, c3);
  }

  /** p holds the entries of the 4 x 4 product a * b. */
  predicate IsProductOf(p: Matrix4, a: Matrix4, b: Matrix4) {
    forall row: nat, col: nat :: row < 4 && col < 4 ==>
      Entry(p, row, col) ==
        Entry(a, row, 0) * Entry(b, 0, col) + Entry(a, row, 1) * Entry(b, 1, col) +
        Entry(a, row, 2) * Entry(b, 2, col) + Entry(a, row, 3) * Entry(b, 3, col)
  }

  lemma MatMul4IsProduct(a: Matrix4, b: Matrix4)
    ensures IsProductOf(MatMul4(a, b), a, b)
  {
    forall row: nat, col: nat | row < 4 && col < 4
      ensures Entry(MatMul4(a, b), row, col) ==
                Entry(a, row, 0) * Entry(b, 0, col) + Entry(a, row, 1) * Entry(b, 1, col) +
                Entry(a, row, 2) * Entry(b, 2, col) + Entry(a, row, 3) * Entry(b, 3, col)
    {
      MatMul4Entry(a, b, row, col);
    }
  }

  /** Column `col` of row `row` of a product, written with the rows of its
      factors. */
  lemma {:induction false} ProductRowEntry(p: Matrix4, a: Matrix4, b: Matrix4, row: nat, col: nat,
                                           v: real, r: Tuple, b0: real, b1: real, b2: real, b3: real)
    requires IsProductOf(p, a, b) && row < 4 && col < 4
    requires v == Entry(p, row, col) && r == Row(a, row)
    requires b0 == Entry(b, 0, col) && b1 == Entry(b, 1, col) && b2 == Entry(b, 2, col) && b3 == Entry(b, 3, col)
    ensures v == r.x * b0 + r.y * b1 + r.z * b2 + r.w * b3
  {
    SumOfProductsAgree(Entry(a, row, 0), Entry(a, row, 1), Entry(a, row, 2), Entry(a, row, 3),
                       Entry(b, 0, col), Entry(b, 1, col), Entry(b, 2, col), Entry(b, 3, col),
                       r.x, r.y, r.z, r.w, b0, b1, b2, b3);
  }

  /** A tuple whose components are those of a combination is that combination. */
  lemma CombineByComponents(v: Tuple, a: Tuple, b0: Tuple, b1: Tuple, b2: Tuple, b3: Tuple)
    requires v.x == a.x * b0.x + a.y * b1.x + a.z * b2.x + a.w * b3.x
    requires v.y == a.x * b0.y + a.y * b1.y + a.z * b2.y + a.w * b3.y
    requires v.z == a.x * b0.z + a.y * b1.z + a.z * b2.z + a.w * b3.z
    requires v.w == a.x * b0.w + a.y * b1.w + a.z * b2.w + a.w * b3.w
    ensures v == Combine(a, b0, b1, b2, b3)
  {
  }

  /** Row `row` of a product is the combination of the rows of the right
      factor weighted by row `row` of the left factor. */
  lemma {:induction false} ProductRow(p: Matrix4, a: Matrix4, b: Matrix4, row: nat)
    requires IsProductOf(p, a, b) && row < 4
    ensures Row(p, row) == Combine(Row(a, row), Row(b, 0), Row(b, 1), Row(b, 2), Row(b, 3))
  {
    ProductRowOf(p, a, b, row, Row(p, row), Row(a, row), Row(b, 0), Row(b, 1), Row(b, 2), Row(b, 3));
  }

  /** ProductRow with the five rows involved given names. */
  lemma {:induction false} ProductRowOf(p: Matrix4, a: Matrix4, b: Matrix4, row: nat,
                                        pr: Tuple, r: Tuple, b0: Tuple, b1: Tuple, b2: Tuple, b3: Tuple)
    requires IsProductOf(p, a, b) && row < 4
    requires pr == Row(p, row) && r == Row(a, row)
    requires b0 == Row(b, 0) && b1 == Row(b, 1) && b2 == Row(b, 2) && b3 == Row(b, 3)
    ensures pr == Combine(r, b0, b1, b2, b3)
  {
    ProductRowEntry(p, a, b, row, 0, pr.x, r, b0.x, b1.x, b2.x, b3.x);
    ProductRowEntry(p, a, b, row, 1, pr.y, r, b0.y, b1.y, b2.y, b3.y);
    ProductRowEntry(p, a, b, row, 2, pr.z, r, b0.z, b1.z, b2.z, b3.z);
    ProductRowEntry(p, a, b, row, 3, pr.w, r, b0.w, b1.w, b2.w, b3.w);
    CombineByComponents(pr, r, b0, b1, b2, b3);
  }

  /** Row `row` of a product maps t as the left factor maps b * t. */
  lemma {:induction false} RowDotOfProduct(p: Matrix4, a: Matrix4, b: Matrix4, row: nat, t: Tuple)
    requires IsProductOf(p, a, b) && row < 4
    ensures RowDot(p, row, t) == RowDot(a, row, MulTuple(b, t))
  {
    ProductRow(p, a, b, row);
    DotOfCombine(Row(a, row), Row(b, 0), Row(b, 1), Row(b, 2), Row(b, 3), t);
  }

  /** Multiplying by a product applies the right factor first:
      (a * b) * t == a * (b * t). */
  lemma {:induction false} MulTupleOfProduct(a: Matrix4, b: Matrix4, t: Tuple)
    ensures MulTuple(MatMul4(a, b), t) == MulTuple(a, MulTuple(b, t))
  {
    var p := MatMul4(a, b);
    MatMul4IsProduct(a, b);
    RowDotOfProduct(p, a, b, 0, t);
    RowDotOfProduct(p, a, b, 1, t);
    RowDotOfProduct(p, a, b, 2, t);
    RowDotOfProduct(p, a, b, 3, t);
  }

  /** One row of m is linear in the tuple it is applied to. */
  lemma {:induction false} RowDotOfAffine(m: Matrix4, row: nat, a: Tuple, b: Tuple, k: real, u: Tuple)
    requires row < 4 && u == Row(m, row)
    ensures RowDot(m, row, Add(a, Scale(b, k))) == RowDot(m, row, a) + k * RowDot(m, row, b)
  {
    DotOfAffine(u, a, b, k);
  }

  /** Matrix-tuple multiplication is linear: m * (a + b * k) == m * a + (m * b) * k. */
  lemma {:induction false} MulTupleOfAffine(m: Matrix4, a: Tuple, b: Tuple, k: real)
    ensures MulTuple(m, Add(a, Scale(b, k))) == Add(MulTuple(m, a), Scale(MulTuple(m, b), k))
  {
    RowDotOfAffine(m, 0, a, b, k, Row(m, 0));
    RowDotOfAffine(m, 1, a, b, k, Row(m, 1));
    RowDotOfAffine(m, 2, a, b, k, Row(m, 2));
    RowDotOfAffine(m, 3, a, b, k, Row(m, 3));
    AffineByComponents(MulTuple(m, Add(a, Scale(b, k))), MulTuple(m, a), MulTuple(m, b), k);
  }

  lemma AffineByComponents(p: Tuple, q: Tuple, r: Tuple, k: real)
    requires p.x == q.x + k * r.x && p.y == q.y + k * r.y
    requires p.z == q.z + k * r.z && p.w == q.w + k * r.w
    ensures p == Add(q, Scale(r, k))
  {
  }

  // ---------------------------------------------------------------------
  // Transpose and submatrix

  /** `transpose`: element (row, col) of the result is element (col, row). */
  function Transpose(m: Matrix): (t: Matrix)
    requires WellFormed(m)
    ensures WellFormed(t) && t.size == m.size
  {
    var n := m.size;
    Matrix(n, seq(n * n, k requires 0 <= k < n * n =>
      LayoutOf(n, k);
      Get(m, k % n, k / n)))
  }

  lemma TransposeEntry(m: Matrix, row: nat, col: nat)
    requires WellFormed(m) && row < m.size && col < m.size
    ensures Get(Transpose(m), row, col) == Get(m, col, row)
  {
    IndexOf(m.size, row, col);
  }

  lemma {:induction false} TransposeInvolution(m: Matrix)
    requires WellFormed(m)
    ensures Transpose(Transpose(m)) == m
  {
    forall row: nat, col: nat | row < m.size && col < m.size
      ensures Get(Transpose(Transpose(m)), row, col) == Get(m, row, col)
    {
      TransposeEntry(Transpose(m), row, col);
      TransposeEntry(m, col, row);
    }
    Extensionality(Transpose(Transpose(m)), m);
  }

  /** The identity is its own transpose. */
  lemma {:induction false} TransposeOfIdentity(n: nat)
    ensures Transpose(Identity(n)) == Identity(n)
  {
    forall row: nat, col: nat | row < n && col < n
      ensures Get(Transpose(Identity(n)), row, col) == Get(Identity(n), row, col)
    {
      TransposeEntry(Identity(n), row, col);
      IdentityEntry(n, row, col);
      IdentityEntry(n, col, row);
    }
    Extensionality(Transpose(Identity(n)), Identity(n));
  }

  /** Index `i` of a submatrix comes from index `Skip(i, removed)` of the
      original: indices at or past the removed one shift up by one. */
  function Skip(i: nat, removed: nat): nat {
    if i < removed then i else i + 1
  }

  /** `submatrix`: the (n-1) x (n-1) matrix left after deleting row `rrow`
      and column `rcol`, the survivors keeping their relative order. */
  function Submatrix(m: Matrix, rrow: nat, rcol: nat): (s: Matrix)
    requires WellFormed(m) && rrow < m.size && rcol < m.size
    ensures WellFormed(s) && s.size == m.size - 1
  {
    var n := m.size - 1;
    Matrix(n, seq(n * n, k requires 0 <= k < n * n =>
      LayoutOf(n, k);
      Get(m, Skip(k / n, rrow), Skip(k % n, rcol))))
  }

  lemma SubmatrixEntry(m: Matrix, rrow: nat, rcol: nat, row: nat, col: nat)
    requires WellFormed(m) && rrow < m.size && rcol < m.size
    requires row < m.size - 1 && col < m.size - 1
    ensures Get(Submatrix(m, rrow, rcol), row, col) == Get(m, Skip(row, rrow), Skip(col, rcol))
  {
    IndexOf(m.size - 1, row, col);
  }

  /** Every element of the original outside the removed row and column
      appears in the submatrix, at its shifted position. */
  lemma SubmatrixKeepsTheRest(m: Matrix, rrow: nat, rcol: nat, row: nat, col: nat)
    requires WellFormed(m) && rrow < m.size && rcol < m.size
    requires row < m.size && col < m.size && row != rrow && col != rcol
    ensures var i, j := if row < rrow then row else row - 1, if col < rcol then col else col - 1;
            Get(Submatrix(m, rrow, rcol), i, j) == Get(m, row, col)
  {
    var i, j := if row < rrow then row else row - 1, if col < rcol then col else col - 1;
    SubmatrixEntry(m, rrow, rcol, i, j);
  }

  // ---------------------------------------------------------------------
  // Determinant, minor, cofactor

  /** The sign of a cofactor: `((row + col) % 2) ? -1 : 1`. */
  function Sign(k: nat): real {
    if k % 2 == 1 then -1.0 else 1.0
  }

  /** `determinant`, with the empty determinant taken as 1 instead of the
      source's 0 (see DeterminantAsWritten): a 2 x 2 matrix gives ad - bc;
      every other size is expanded by cofactors along row 0. */
  function Determinant(m: Matrix): real
    requires WellFormed(m)
    decreases m.size, 3
  {
    if m.size == 0 then 1.0
    else if m.size == 2 then Get(m, 0, 0) * Get(m, 1, 1) - Get(m, 0, 1) * Get(m, 1, 0)
    else ExpandRow0(m, 0)
  }

  /** The terms of the row-0 expansion from column `col` on. */
  function ExpandRow0(m: Matrix, col: nat): real
    requires WellFormed(m)
    decreases m.size, 2, m.size - col
  {
    if col >= m.size then 0.0
    else Get(m, 0, col) * Cofactor(m, 0, col) + ExpandRow0(m, col + 1)
  }

  /** `cofactor`: the minor, negated exactly when row + col is odd. */
  function Cofactor(m: Matrix, row: nat, col: nat): real
    requires WellFormed(m) && row < m.size && col < m.size
    decreases m.size, 1
  {
    Sign(row + col) * Determinant(Submatrix(m, row, col))
  }

  /** `minor`: the determinant of the submatrix. */
  function Minor(m: Matrix, row: nat, col: nat): real
    requires WellFormed(m) && row < m.size && col < m.size
  {
    Determinant(Submatrix(m, row, col))
  }

  lemma Determinant2x2(m: Matrix)
    requires WellFormed(m) && m.size == 2
    ensures Determinant(m) == Get(m, 0, 0) * Get(m, 1, 1) - Get(m, 0, 1) * Get(m, 1, 0)
  {
  }

  lemma CofactorIsSignedMinor(m: Matrix, row: nat, col: nat)
    requires WellFormed(m) && row < m.size && col < m.size
    ensures (row + col) % 2 == 0 ==> Cofactor(m, row, col) == Minor(m, row, col)
    ensures (row + col) % 2 == 1 ==> Cofactor(m, row, col) == -Minor(m, row, col)
  {
  }

  /** One step of the row-0 expansion. */
  lemma ExpansionStep(m: Matrix, col: nat)
    requires WellFormed(m) && col < m.size
    ensures ExpandRow0(m, col) == Get(m, 0, col) * Cofactor(m, 0, col) + ExpandRow0(m, col + 1)
  {
  }

  lemma CofactorOfRow0(m: Matrix, col: nat)
    requires WellFormed(m) && col < m.size
    ensures Cofactor(m, 0, col) == Sign(col) * Determinant(Submatrix(m, 0, col))
  {
  }

  /** A 1 x 1 matrix has its only element as determinant. */
  lemma {:induction false} DeterminantOfOneByOne(m: Matrix)
    requires WellFormed(m) && m.size == 1
    ensures Determinant(m) == Get(m, 0, 0)
  {
    ExpansionStep(m, 0);
    CofactorOfRow0(m, 0);
    assert Submatrix(m, 0, 0).size == 0;
    assert Cofactor(m, 0, 0) == 1.0;
    Substitute(Cofactor(m, 0, 0), 1.0, Get(m, 0, 0));
  }

  /** A matrix with a zero row has determinant 0, whichever row it is. */
  lemma {:induction false} ZeroRowDeterminant(m: Matrix, zero: nat)
    requires WellFormed(m) && zero < m.size
    requires forall col: nat :: col < m.size ==> Get(m, zero, col) == 0.0
    ensures Determinant(m) == 0.0
    decreases m.size, 1
  {
    if m.size != 2 {
      ZeroRowExpansion(m, zero, 0);
    }
  }

  lemma {:induction false} ZeroRowExpansion(m: Matrix, zero: nat, col: nat)
    requires WellFormed(m) && zero < m.size
    requires forall c: nat :: c < m.size ==> Get(m, zero, c) == 0.0
    ensures ExpandRow0(m, col) == 0.0
    decreases m.size, 0, m.size - col
  {
    if col < m.size {
      ZeroRowExpansion(m, zero, col + 1);
      ExpansionStep(m, col);
      CofactorOfRow0(m, col);
      if zero == 0 {
        Substitute(Get(m, 0, col), 0.0, Cofactor(m, 0, col));
      } else {
        var s := Submatrix(m, 0, col);
        var z: nat := zero - 1;
        forall c: nat | c < s.size
          ensures Get(s, z, c) == 0.0
        {
          SubmatrixEntry(m, 0, col, z, c);
        }
        ZeroRowDeterminant(s, z);
        Substitute(Determinant(s), 0.0, Sign(col));
        Substitute(Cofactor(m, 0, col), 0.0, Get(m, 0, col));
      }
    }
  }

  /** Deleting the same row and column from an identity leaves an identity. */
  lemma {:induction false} SubmatrixOfIdentity(n: nat, k: nat)
    requires k < n
    ensures Submatrix(Identity(n), k, k) == Identity(n - 1)
  {
    var s := Submatrix(Identity(n), k, k);
    forall row: nat, col: nat | row < n - 1 && col < n - 1
      ensures Get(s, row, col) == Get(Identity(n - 1), row, col)
    {
      SubmatrixEntry(Identity(n), k, k, row, col);
      IdentityEntry(n, Skip(row, k), Skip(col, k));
      IdentityEntry(n - 1, row, col);
    }
    Extensionality(s, Identity(n - 1));
  }

  lemma {:induction false} DeterminantOfIdentity(n: nat)
    ensures Determinant(Identity(n)) == 1.0
  {
    var id := Identity(n);
    if n == 2 {
      IdentityEntry(n, 0, 0);
      IdentityEntry(n, 0, 1);
      IdentityEntry(n, 1, 0);
      IdentityEntry(n, 1, 1);
    } else if n != 0 {
      IdentityEntry(n, 0, 0);
      ExpansionStep(id, 0);
      CofactorOfRow0(id, 0);
      SubmatrixOfIdentity(n, 0);
      DeterminantOfIdentity(n - 1);
      IdentityTailExpansion(n, 1);
      Substitute(Get(id, 0, 0), 1.0, Cofactor(id, 0, 0));
    }
  }

  lemma {:induction false} IdentityTailExpansion(n: nat, col: nat)
    requires col >= 1
    ensures ExpandRow0(Identity(n), col) == 0.0
    decreases n - col
  {
    if col < n {
      IdentityEntry(n, 0, col);
      IdentityTailExpansion(n, col + 1);
    }
  }

  /** The cofactors of the identity are the identity's own entries. */
  lemma {:induction false} CofactorOfIdentity(n: nat, row: nat, col: nat)
    requires row < n && col < n
    ensures Cofactor(Identity(n), row, col) == if row == col then 1.0 else 0.0
  {
    if row == col {
      SubmatrixOfIdentity(n, row);
      DeterminantOfIdentity(n - 1);
    } else {
      var s := Submatrix(Identity(n), row, col);
      var zero: nat := if col < row then col else col - 1;
      forall c: nat | c < n - 1
        ensures Get(s, zero, c) == 0.0
      {
        SubmatrixEntry(Identity(n), row, col, zero, c);
        IdentityEntry(n, Skip(zero, row), Skip(c, col));
      }
      ZeroRowDeterminant(s, zero);
    }
  }

  // ---------------------------------------------------------------------
  // Inverse

  /** `invertible`: the determinant is not `equal` to 0. */
  predicate Invertible(m: Matrix)
    requires WellFormed(m)
  {
    !ApproxEq(Determinant(m), 0.0)
  }

  /** The cofactor stored at offset k of the transposed cofactor matrix:
      offset k is row k / n, column k % n, and holds cofactor (k % n, k / n). */
  function TransposedCofactor(m: Matrix, k: nat): real
    requires WellFormed(m) && k < m.size * m.size
  {
    LayoutOf(m.size, k);
    Cofactor(m, k % m.size, k / m.size)
  }

  /** `inverse`: throws `domain_error` on a non-invertible matrix; otherwise
      element (col, row) of the result is cofactor(m, row, col) / det(m). */
  function Inverse(m: Matrix): (r: Result<Matrix>)
    requires WellFormed(m)
    ensures r.Failure? <==> ApproxEq(Determinant(m), 0.0)
    ensures r.Failure? ==> r.error == NotInvertible
    ensures r.Success? ==> WellFormed(r.value) && r.value.size == m.size
  {
    if !Invertible(m) then Failure(NotInvertible)
    else
      var n := m.size;
      var d := Determinant(m);
      Success(Matrix(n, seq(n * n, k requires 0 <= k < n * n => TransposedCofactor(m, k) / d)))
  }

  lemma InverseEntry(m: Matrix, row: nat, col: nat)
    requires WellFormed(m) && Invertible(m) && row < m.size && col < m.size
    ensures Determinant(m) != 0.0
    ensures Get(Inverse(m).value, col, row) == Cofactor(m, row, col) / Determinant(m)
  {
    var n, k := m.size, row + col * m.size;
    IndexOf(n, col, row);
    assert k % n == row && k / n == col;
    assert Inverse(m).value.values[k] == Cofactor(m, row, col) / Determinant(m);
  }

  /** `inverse` on a 4 x 4 matrix gives a 4 x 4 matrix. */
  function Inverse4(m: Matrix4): (r: Result<Matrix4>)
    ensures r.Failure? <==> !Invertible(m)
    ensures r.Success? ==> r.value == Inverse(m).value
  {
    var inv :- Inverse(m);
    Success(inv)
  }

  /** The identity is invertible and is its own inverse. */
  lemma {:induction false} InverseOfIdentity(n: nat)
    ensures Inverse(Identity(n)) == Success(Identity(n))
  {
    DeterminantOfIdentity(n);
    var inv := Inverse(Identity(n)).value;
    forall row: nat, col: nat | row < n && col < n
      ensures Get(inv, row, col) == Get(Identity(n), row, col)
    {
      InverseEntry(Identity(n), col, row);
      IdentityEntry(n, row, col);
      CofactorOfIdentity(n, col, row);
    }
    Extensionality(inv, Identity(n));
  }

  lemma InverseOfIdentityMatrix()
    ensures Inverse4(IdentityMatrix()) == Success(IdentityMatrix())
  {
    InverseOfIdentity(4);
  }

  lemma Cofactor2x2(m: Matrix, row: nat, col: nat)
    requires WellFormed(m) && m.size == 2 && row < 2 && col < 2
    ensures Cofactor(m, row, col) == Sign(row + col) * Get(m, 1 - row, 1 - col)
  {
    var s := Submatrix(m, row, col);
    SubmatrixEntry(m, row, col, 0, 0);
    DeterminantOfOneByOne(s);
  }

  /** The arithmetic of one entry of m * inverse(m) for m = [a b; c e]:
      row `row` of m is (m0, m1) and column `col` of the inverse is
      (c0 / d, c1 / d), built from the cofactors. */
  lemma TwoByTwoProductEntry(a: real, b: real, c: real, e: real, d: real, row: nat, col: nat,
                             m0: real, m1: real, c0: real, c1: real, v0: real, v1: real)
    requires d == a * e - b * c && d != 0.0 && row < 2 && col < 2
    requires m0 == (if row == 0 then a else c) && m1 == (if row == 0 then b else e)
    requires c0 == (if col == 0 then e else -b) && c1 == (if col == 0 then -c else a)
    requires v0 == c0 / d && v1 == c1 / d
    ensures m0 * v0 + m1 * v1 == if row == col then 1.0 else 0.0
  {
    assert m0 * v0 + m1 * v1 == (m0 * c0 + m1 * c1) / d;
  }

  /** The inverse of m = [a b; c e] is [e -b; -c a] / (ae - bc). */
  lemma {:induction false} InverseEntries2x2(m: Matrix, row: nat, col: nat)
    requires WellFormed(m) && m.size == 2 && Invertible(m) && row < 2 && col < 2
    ensures var a, b, c, e := Get(m, 0, 0), Get(m, 0, 1), Get(m, 1, 0), Get(m, 1, 1);
            var d := a * e - b * c;
            d != 0.0 &&
            Get(Inverse(m).value, row, col) ==
              (if row == 0 then (if col == 0 then e else -b) else (if col == 0 then -c else a)) / d
  {
    Determinant2x2(m);
    InverseEntry(m, col, row);
    Cofactor2x2(m, col, row);
  }

  /** Entry (row, col) of m * inv, for any inv with the entries of m's
      inverse, d being the determinant of m. */
  lemma {:induction false} ProductWithInverse2x2(m: Matrix, inv: Matrix, d: real, row: nat, col: nat)
    requires WellFormed(m) && WellFormed(inv) && m.size == 2 && inv.size == 2 && row < 2 && col < 2
    requires d == Get(m, 0, 0) * Get(m, 1, 1) - Get(m, 0, 1) * Get(m, 1, 0) && d != 0.0
    requires Get(inv, 0, 0) == Get(m, 1, 1) / d && Get(inv, 0, 1) == -Get(m, 0, 1) / d
    requires Get(inv, 1, 0) == -Get(m, 1, 0) / d && Get(inv, 1, 1) == Get(m, 0, 0) / d
    ensures Get(m, row, 0) * Get(inv, 0, col) + Get(m, row, 1) * Get(inv, 1, col) == if row == col then 1.0 else 0.0
  {
    var a, b, c, e := Get(m, 0, 0), Get(m, 0, 1), Get(m, 1, 0), Get(m, 1, 1);
    TwoByTwoProductEntry(a, b, c, e, d, row, col,
                         Get(m, row, 0), Get(m, row, 1),
                         if col == 0 then e else -b, if col == 0 then -c else a,
                         Get(inv, 0, col), Get(inv, 1, col));
  }

  /** Entry (row, col) of m times its inverse, given as the sum of products
      that defines it. */
  lemma {:induction false} ProductEntryWithInverse2x2(m: Matrix, inv: Matrix, d: real, row: nat, col: nat, v: real)
    requires WellFormed(m) && WellFormed(inv) && m.size == 2 && inv.size == 2 && row < 2 && col < 2
    requires d == Get(m, 0, 0) * Get(m, 1, 1) - Get(m, 0, 1) * Get(m, 1, 0) && d != 0.0
    requires Get(inv, 0, 0) == Get(m, 1, 1) / d && Get(inv, 0, 1) == -Get(m, 0, 1) / d
    requires Get(inv, 1, 0) == -Get(m, 1, 0) / d && Get(inv, 1, 1) == Get(m, 0, 0) / d
    requires v == RowTimesColumn(m, inv, row, col, 2)
    ensures v == if row == col then 1.0 else 0.0
  {
    assert RowTimesColumn(m, inv, row, col, 1) == Get(m, row, 0) * Get(inv, 0, col);
    ProductWithInverse2x2(m, inv, d, row, col);
  }

  /** With the empty determinant at 1, `inverse` of an invertible 2 x 2
      matrix is a right inverse. */
  lemma {:induction false} InverseOf2x2(m: Matrix)
    requires WellFormed(m) && m.size == 2 && Invertible(m)
    ensures MatMul(m, Inverse(m).value) == Identity(2)
  {
    var inv := Inverse(m).value;
    var d := Get(m, 0, 0) * Get(m, 1, 1) - Get(m, 0, 1) * Get(m, 1, 0);
    InverseEntries2x2(m, 0, 0);
    InverseEntries2x2(m, 0, 1);
    InverseEntries2x2(m, 1, 0);
    InverseEntries2x2(m, 1, 1);
    var p := MatMul(m, inv);
    forall row: nat, col: nat | row < 2 && col < 2
      ensures Get(p, row, col) == Get(Identity(2), row, col)
    {
      MatMulEntry(m, inv, row, col);
      ProductEntryWithInverse2x2(m, inv, d, row, col, Get(p, row, col));
      IdentityEntry(2, row, col);
    }
    Extensionality(p, Identity(2));
  }

  // ---------------------------------------------------------------------
  // The determinant as the source writes it

  /** `determinant` exactly as written: only the 2 x 2 case is direct; any
      other size is the row-0 expansion, whose sum starts at 0, so an empty
      matrix has determinant 0 and so, one step up, does every 1 x 1 matrix. */
  function DeterminantAsWritten(m: Matrix): real
    requires WellFormed(m)
    decreases m.size, 1
  {
    if m.size == 2 then Get(m, 0, 0) * Get(m, 1, 1) - Get(m, 0, 1) * Get(m, 1, 0)
    else ExpandRow0AsWritten(m, 0)
  }

  function ExpandRow0AsWritten(m: Matrix, col: nat): real
    requires WellFormed(m)
    decreases m.size, 0, m.size - col
  {
    if col >= m.size then 0.0
    else Get(m, 0, col) * CofactorAsWritten(m, 0, col) + ExpandRow0AsWritten(m, col + 1)
  }

  function CofactorAsWritten(m: Matrix, row: nat, col: nat): real
    requires WellFormed(m) && row < m.size && col < m.size
    decreases m.size, 0, 0
  {
    Sign(row + col) * DeterminantAsWritten(Submatrix(m, row, col))
  }

  function TransposedCofactorAsWritten(m: Matrix, k: nat): real
    requires WellFormed(m) && k < m.size * m.size
  {
    LayoutOf(m.size, k);
    CofactorAsWritten(m, k % m.size, k / m.size)
  }

  /** `inverse` with the determinant and cofactors as written. */
  function InverseAsWritten(m: Matrix): (r: Result<Matrix>)
    requires WellFormed(m)
    ensures r.Failure? <==> ApproxEq(DeterminantAsWritten(m), 0.0)
    ensures r.Success? ==> WellFormed(r.value) && r.value.size == m.size
  {
    var d := DeterminantAsWritten(m);
    if ApproxEq(d, 0.0) then Failure(NotInvertible)
    else
      var n := m.size;
      Success(Matrix(n, seq(n * n, k requires 0 <= k < n * n => TransposedCofactorAsWritten(m, k) / d)))
  }

  lemma {:induction false} OneByOneAsWritten(m: Matrix)
    requires WellFormed(m) && m.size == 1
    ensures DeterminantAsWritten(m) == 0.0
  {
    var s := Submatrix(m, 0, 0);
    assert s.size == 0;
    assert DeterminantAsWritten(s) == ExpandRow0AsWritten(s, 0) == 0.0;
    assert CofactorAsWritten(m, 0, 0) == Sign(0) * DeterminantAsWritten(s) == 0.0;
    assert ExpandRow0AsWritten(m, 0) == Get(m, 0, 0) * CofactorAsWritten(m, 0, 0) + ExpandRow0AsWritten(m, 1);
    Substitute(CofactorAsWritten(m, 0, 0), 0.0, Get(m, 0, 0));
  }

  /** The discrepancy: the 1 x 1 matrix [5] has determinant 0 as written,
      and 5 once the empty determinant is 1. */
  lemma {:induction false} OneByOneCounterexample()
    ensures DeterminantAsWritten(Matrix(1, [5.0])) == 0.0
    ensures Determinant(Matrix(1, [5.0])) == 5.0
  {
    OneByOneAsWritten(Matrix(1, [5.0]));
    DeterminantOfOneByOne(Matrix(1, [5.0]));
  }

  /** Its consequence: every cofactor of a 2 x 2 matrix is 0 as written, so
      `inverse` of the invertible matrix diag(2, 2) is the zero matrix. */
  lemma {:induction false} InverseAsWrittenCounterexample()
    ensures DeterminantAsWritten(Matrix(2, [2.0, 0.0, 0.0, 2.0])) == 4.0
    ensures InverseAsWritten(Matrix(2, [2.0, 0.0, 0.0, 2.0])) == Success(Matrix(2, [0.0, 0.0, 0.0, 0.0]))
  {
    var two := Matrix(2, [2.0, 0.0, 0.0, 2.0]);
    var zero := Matrix(2, [0.0, 0.0, 0.0, 0.0]);
    forall row: nat, col: nat | row < 2 && col < 2
      ensures CofactorAsWritten(two, row, col) == 0.0
    {
      OneByOneAsWritten(Submatrix(two, row, col));
      Substitute(DeterminantAsWritten(Submatrix(two, row, col)), 0.0, Sign(row + col));
    }
    var inv := InverseAsWritten(two).value;
    forall row: nat, col: nat | row < 2 && col < 2
      ensures Get(inv, row, col) == Get(zero, row, col)
    {
      IndexOf(2, row, col);
      var k := col + row * 2;
      assert TransposedCofactorAsWritten(two, k) == CofactorAsWritten(two, col, row) == 0.0;
      assert Get(inv, row, col) == inv.values[k] == 0.0 / DeterminantAsWritten(two);
    }
    Extensionality(inv, zero);
  }

  /** The corrected `inverse` of diag(2, 2) is diag(0.5, 0.5). */
  lemma {:induction false} InverseCorrected()
    ensures Inverse(Matrix(2, [2.0, 0.0, 0.0, 2.0])) == Success(Matrix(2, [0.5, 0.0, 0.0, 0.5]))
  {
    var two := Matrix(2, [2.0, 0.0, 0.0, 2.0]);
    var half := Matrix(2, [0.5, 0.0, 0.0, 0.5]);
    Determinant2x2(two);
    var good := Inverse(two).value;
    forall row: nat, col: nat | row < 2 && col < 2
      ensures Get(good, row, col) == Get(half, row, col)
    {
      InverseEntries2x2(two, row, col);
      IndexOf(2, row, col);
    }
    Extensionality(good, half);
  }

  // ---------------------------------------------------------------------
  // Equality

  /** Matrix `operator==`: same size and every stored value `equal`. */
  predicate MatrixEq(a: Matrix, b: Matrix)
    requires WellFormed(a) && WellFormed(b)
  {
    a.size == b.size && forall k :: 0 <= k < a.size * a.size ==> ApproxEq(a.values[k], b.values[k])
  }

  /** The two matrices agree at a stored value when they agree at the entry
      stored there. */
  lemma ValueFromEntry(a: Matrix, b: Matrix, k: nat, row: nat, col: nat)
    requires WellFormed(a) && WellFormed(b) && a.size == b.size
    requires row < a.size && col < a.size && k == col + row * a.size && k < a.size * a.size
    requires ApproxEq(Get(a, row, col), Get(b, row, col))
    ensures ApproxEq(a.values[k], b.values[k])
  {
    IndexOf(a.size, row, col);
  }

  /** Agreement at every entry gives agreement at every stored value. */
  lemma {:induction false} ValuesFromEntries(a: Matrix, b: Matrix)
    requires WellFormed(a) && WellFormed(b) && a.size == b.size
    requires forall row: nat, col: nat :: row < a.size && col < a.size ==> ApproxEq(Get(a, row, col), Get(b, row, col))
    ensures MatrixEq(a, b)
  {
    var n := a.size;
    forall k | 0 <= k < n * n
      ensures ApproxEq(a.values[k], b.values[k])
    {
      LayoutOf(n, k);
      ValueFromEntry(a, b, k, k / n, k % n);
    }
  }

  /** Agreement at every stored value gives agreement at every entry. */
  lemma {:induction false} EntriesFromValues(a: Matrix, b: Matrix)
    requires WellFormed(a) && WellFormed(b) && MatrixEq(a, b)
    ensures forall row: nat, col: nat :: row < a.size && col < a.size ==> ApproxEq(Get(a, row, col), Get(b, row, col))
  {
    var n := a.size;
    forall row: nat, col: nat | row < n && col < n
      ensures ApproxEq(Get(a, row, col), Get(b, row, col))
    {
      IndexOf(n, row, col);
    }
  }

  lemma {:induction false} MatrixEqIsElementwise(a: Matrix, b: Matrix)
    requires WellFormed(a) && WellFormed(b)
    ensures MatrixEq(a, b) <==>
              a.size == b.size &&
              forall row: nat, col: nat :: row < a.size && col < a.size ==> ApproxEq(Get(a, row, col), Get(b, row, col))
  {
    if MatrixEq(a, b) {
      EntriesFromValues(a, b);
    }
    if a.size == b.size && forall row: nat, col: nat :: row < a.size && col < a.size ==> ApproxEq(Get(a, row, col), Get(b, row, col)) {
      ValuesFromEntries(a, b);
    }
  }

  lemma MatrixEqReflexive(a: Matrix)
    requires WellFormed(a)
    ensures MatrixEq(a, a)
  {
  }
}
