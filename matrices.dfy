/** The 3×3 matrix arithmetic the TypeScript code takes from mathjs (`matrix`, `multiply`,
    `transpose` of a column), written out over `real`. A matrix is its array of rows, as
    `Matrix.toArray()` returns it. */
module Matrices {

  type Matrix = seq<seq<real>>

  /** Every row has as many entries as the first: mathjs matrices are always rectangular. */
  predicate IsRectangular(m: Matrix) {
    forall i :: 0 <= i < |m| ==> |m[i]| == |m[0]|
  }

  predicate Is3x3(m: Matrix) {
    |m| == 3 && |m[0]| == 3 && |m[1]| == 3 && |m[2]| == 3
  }

  /** The bottom row of a 2D affine transform in homogeneous coordinates. */
  predicate HasAffineBottomRow(m: Matrix)
    requires Is3x3(m)
  {
    m[2] == [0.0, 0.0, 1.0]
  }

  function Identity(): (m: Matrix)
    ensures Is3x3(m) && HasAffineBottomRow(m)
  {
    [[1.0, 0.0, 0.0], [0.0, 1.0, 0.0], [0.0, 0.0, 1.0]]
  }

  /** Entry (i, j) of the product a·b: row i of a against column j of b. */
  function Dot(a: Matrix, b: Matrix, i: nat, j: nat): real
    requires Is3x3(a) && Is3x3(b) && i < 3 && j < 3
  {
    a[i][0] * b[0][j] + a[i][1] * b[1][j] + a[i][2] * b[2][j]
  }

  /** mathjs `multiply` of two 3×3 matrices. */
  function Multiply(a: Matrix, b: Matrix): (c: Matrix)
    requires Is3x3(a) && Is3x3(b)
    ensures Is3x3(c)
  {
    [[Dot(a, b, 0, 0), Dot(a, b, 0, 1), Dot(a, b, 0, 2)],
     [Dot(a, b, 1, 0), Dot(a, b, 1, 1), Dot(a, b, 1, 2)],
     [Dot(a, b, 2, 0), Dot(a, b, 2, 1), Dot(a, b, 2, 2)]]
  }

  /** mathjs `multiply` of a 3×3 matrix and a column of three entries. */
  function Apply(m: Matrix, v: seq<real>): (r: seq<real>)
    requires Is3x3(m) && |v| == 3
    ensures |r| == 3
  {
    [m[0][0] * v[0] + m[0][1] * v[1] + m[0][2] * v[2],
     m[1][0] * v[0] + m[1][1] * v[1] + m[1][2] * v[2],
     m[2][0] * v[0] + m[2][1] * v[1] + m[2][2] * v[2]]
  }

  /** The identity matrix is neutral on both sides. */
  lemma MultiplyIdentity(a: Matrix)
    requires Is3x3(a)
    ensures Multiply(Identity(), a) == a && Multiply(a, Identity()) == a
  {
    var i := Identity();
    var m, n := Multiply(i, a), Multiply(a, i);
    forall r | 0 <= r < 3
      ensures m[r] == a[r] && n[r] == a[r]
    {
      forall k | 0 <= k < 3
        ensures m[r][k] == a[r][k] && n[r][k] == a[r][k]
      {
      }
    }
  }

  /** A product of two matrices with the affine bottom row keeps that bottom row. */
  lemma MultiplyKeepsAffineBottomRow(a: Matrix, b: Matrix)
    requires Is3x3(a) && Is3x3(b) && HasAffineBottomRow(a) && HasAffineBottomRow(b)
    ensures HasAffineBottomRow(Multiply(a, b))
  {
    assert Multiply(a, b)[2] == [Dot(a, b, 2, 0), Dot(a, b, 2, 1), Dot(a, b, 2, 2)];
  }

  /** Applying a product applies the right factor first: (a·b)·v == a·(b·v). This is
      what makes a product of transforms mean "the right-hand transform happens first". */
  lemma ApplyMultiply(a: Matrix, b: Matrix, v: seq<real>)
    requires Is3x3(a) && Is3x3(b) && |v| == 3
    ensures Apply(Multiply(a, b), v) == Apply(a, Apply(b, v))
  {
    var c, w := Multiply(a, b), Apply(b, v);
    var l, r := Apply(c, v), Apply(a, w);
    DistributeRow(a, b, v, 0);
    DistributeRow(a, b, v, 1);
    DistributeRow(a, b, v, 2);
    assert l[0] == r[0] && l[1] == r[1] && l[2] == r[2];
  }

  /** The rearrangement behind `ApplyMultiply`, for row `i`: the product's row applied to
      `v` equals row `i` of `a` applied to `b·v`. */
  lemma DistributeRow(a: Matrix, b: Matrix, v: seq<real>, i: nat)
    requires Is3x3(a) && Is3x3(b) && |v| == 3 && i < 3
    ensures Dot(a, b, i, 0) * v[0] + Dot(a, b, i, 1) * v[1] + Dot(a, b, i, 2) * v[2]
         == a[i][0] * Apply(b, v)[0] + a[i][1] * Apply(b, v)[1] + a[i][2] * Apply(b, v)[2]
  {
    var p, q, r := a[i][0], a[i][1], a[i][2];
    var c0, c1, c2 := Dot(a, b, i, 0), Dot(a, b, i, 1), Dot(a, b, i, 2);
    var w := Apply(b, v);
    assert c0 * v[0] == p * b[0][0] * v[0] + q * b[1][0] * v[0] + r * b[2][0] * v[0];
    assert c1 * v[1] == p * b[0][1] * v[1] + q * b[1][1] * v[1] + r * b[2][1] * v[1];
    assert c2 * v[2] == p * b[0][2] * v[2] + q * b[1][2] * v[2] + r * b[2][2] * v[2];
    assert p * w[0] == p * b[0][0] * v[0] + p * b[0][1] * v[1] + p * b[0][2] * v[2];
    assert q * w[1] == q * b[1][0] * v[0] + q * b[1][1] * v[1] + q * b[1][2] * v[2];
    assert r * w[2] == r * b[2][0] * v[0] + r * b[2][1] * v[1] + r * b[2][2] * v[2];
  }
}
