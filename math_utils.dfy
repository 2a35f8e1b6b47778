/** The static helpers of `MathUtils` in src/model/MathUtils.ts: the canvas
    `[a, b, c, d, e, f]` extraction, point and vector transforms, and the
    diagonal-only box transform. */
module MathUtils {
  import opened Wrappers
  import opened Geometry
  import opened Matrices

  /** The one error `matrixToCanvasTransform` throws. */
  datatype MathError = NotThreeByThree

  /** How a canvas context reads a transform `[a, b, c, d, e, f]`: as the affine matrix
      with rows (a, c, e), (b, d, f), (0, 0, 1). */
  function CanvasMatrix(t: seq<real>): (m: Matrix)
    requires |t| == 6
    ensures Is3x3(m) && HasAffineBottomRow(m)
  {
    [[t[0], t[2], t[4]], [t[1], t[3], t[5]], [0.0, 0.0, 1.0]]
  }

  /** `m` with its bottom row replaced by (0, 0, 1). */
  function WithAffineBottomRow(m: Matrix): (r: Matrix)
    requires Is3x3(m)
    ensures Is3x3(r) && HasAffineBottomRow(r) && r[0] == m[0] && r[1] == m[1]
  {
    [m[0], m[1], [0.0, 0.0, 1.0]]
  }

  /** `matrixToCanvasTransform`: fails unless the matrix has three rows and its first row
      three entries; otherwise gives the six entries that a canvas reads back as the top
      two rows of `m`, so the bottom row is ignored. */
  function MatrixToCanvasTransform(m: Matrix): (r: Result<seq<real>, MathError>)
    requires IsRectangular(m)
    ensures r.Failure? <==> !(|m| == 3 && |m[0]| == 3)
    ensures r.Success? ==> Is3x3(m) && |r.value| == 6 && CanvasMatrix(r.value) == WithAffineBottomRow(m)
  {
    if |m| != 3 || |m[0]| != 3 then
      Failure(NotThreeByThree)
    else
      var t := [m[0][0], m[1][0], m[0][1], m[1][1], m[0][2], m[1][2]];
      assert CanvasMatrix(t)[0] == m[0] && CanvasMatrix(t)[1] == m[1];
      Success(t)
  }

  /** Reading a canvas transform back as a matrix is one-to-one, so the contract of
      `MatrixToCanvasTransform` determines its result. */
  lemma CanvasMatrixInjective(s: seq<real>, t: seq<real>)
    requires |s| == 6 && |t| == 6 && CanvasMatrix(s) == CanvasMatrix(t)
    ensures s == t
  {
    var ms, mt := CanvasMatrix(s), CanvasMatrix(t);
    assert ms[0][0] == mt[0][0] && ms[1][0] == mt[1][0] && ms[0][1] == mt[0][1];
    assert ms[1][1] == mt[1][1] && ms[0][2] == mt[0][2] && ms[1][2] == mt[1][2];
  }

  /** Round trip: an affine matrix (bottom row (0, 0, 1)) survives the conversion to a
      canvas transform and back. */
  lemma CanvasRoundTrip(m: Matrix)
    requires Is3x3(m) && HasAffineBottomRow(m)
    ensures MatrixToCanvasTransform(m).Success?
    ensures CanvasMatrix(MatrixToCanvasTransform(m).value) == m
  {
    assert WithAffineBottomRow(m) == [m[0], m[1], m[2]] == m;
  }

  /** Two 3×3 matrices that differ only in their bottom row give the same transform. */
  lemma CanvasTransformIgnoresBottomRow(m: Matrix, n: Matrix)
    requires Is3x3(m) && Is3x3(n) && m[0] == n[0] && m[1] == n[1]
    ensures MatrixToCanvasTransform(m) == MatrixToCanvasTransform(n)
  {
    var rm, rn := MatrixToCanvasTransform(m), MatrixToCanvasTransform(n);
    assert CanvasMatrix(rm.value) == CanvasMatrix(rn.value);
    CanvasMatrixInjective(rm.value, rn.value);
  }

  /** `transformPointOrVector`: the first two entries of m·(x, y, w). */
  function TransformPointOrVector(m: Matrix, x: real, y: real, w: real): (p: Coordinate)
    requires Is3x3(m)
    ensures p.x == m[0][0] * x + m[0][1] * y + m[0][2] * w
    ensures p.y == m[1][0] * x + m[1][1] * y + m[1][2] * w
  {
    var v := Apply(m, [x, y, w]);
    Coordinate(v[0], v[1])
  }

  /** `transformPoint`: the point (x, y) in homogeneous form (x, y, 1) through `m`. */
  function TransformPoint(m: Matrix, x: real, y: real): (p: Coordinate)
    requires Is3x3(m)
    ensures p.x == m[0][0] * x + m[0][1] * y + m[0][2]
    ensures p.y == m[1][0] * x + m[1][1] * y + m[1][2]
  {
    TransformPointOrVector(m, x, y, 1.0)
  }

  /** `transformVector` as written: it also passes w = 1, so it is `transformPoint`,
      translation included. */
  function TransformVector(m: Matrix, x: real, y: real): (p: Coordinate)
    requires Is3x3(m)
    ensures p == TransformPoint(m, x, y)
  {
    TransformPointOrVector(m, x, y, 1.0)
  }

  /** The point (x, y) through the canvas transform `t`, as a canvas context maps it. */
  function CanvasMapPoint(t: seq<real>, x: real, y: real): Coordinate
    requires |t| == 6
  {
    Coordinate(t[0] * x + t[2] * y + t[4], t[1] * x + t[3] * y + t[5])
  }

  /** A canvas given `matrixToCanvasTransform(m)` maps every point where `transformPoint`
      does. */
  lemma CanvasAgreesWithTransformPoint(m: Matrix, x: real, y: real)
    requires Is3x3(m)
    ensures MatrixToCanvasTransform(m).Success?
    ensures CanvasMapPoint(MatrixToCanvasTransform(m).value, x, y) == TransformPoint(m, x, y)
  {
    var t := MatrixToCanvasTransform(m).value;
    assert CanvasMatrix(t)[0] == m[0] && CanvasMatrix(t)[1] == m[1];
  }

  /** Transforming a point by a product of affine matrices transforms it by the right
      factor first. */
  lemma TransformPointMultiply(a: Matrix, b: Matrix, x: real, y: real)
    requires Is3x3(a) && Is3x3(b) && HasAffineBottomRow(b)
    ensures var q := TransformPoint(b, x, y);
            TransformPoint(Multiply(a, b), x, y) == TransformPoint(a, q.x, q.y)
  {
    ApplyMultiply(a, b, [x, y, 1.0]);
    var q := TransformPoint(b, x, y);
    var v := Apply(b, [x, y, 1.0]);
    assert b[2][0] == 0.0 && b[2][1] == 0.0 && b[2][2] == 1.0;
    assert v[0] == q.x && v[1] == q.y && v[2] == 1.0;
    assert v == [q.x, q.y, 1.0];
  }

  function Translation(tx: real, ty: real): (m: Matrix)
    ensures Is3x3(m) && HasAffineBottomRow(m)
  {
    [[1.0, 0.0, tx], [0.0, 1.0, ty], [0.0, 0.0, 1.0]]
  }

  /** `transformVector` moves a vector by the translation part: under a translation by
      (5, 0) the vector (1, 0) comes out as (6, 0), not (1, 0). */
  lemma TransformVectorKeepsTranslation()
    ensures TransformVector(Translation(5.0, 0.0), 1.0, 0.0) == Coordinate(6.0, 0.0)
  {
  }

  /** For every matrix and every (x, y), `transformVector` as written is the linear vector
      transform shifted by the translation column (m02, m12). */
  lemma TransformVectorAddsTranslation(m: Matrix, x: real, y: real)
    requires Is3x3(m)
    ensures var v, l := TransformVector(m, x, y), TransformVectorLinear(m, x, y);
            v == Coordinate(l.x + m[0][2], l.y + m[1][2])
  {
  }

  /** The vector transform evidently intended: w = 0, so the translation column drops out. */
  function TransformVectorLinear(m: Matrix, x: real, y: real): (v: Coordinate)
    requires Is3x3(m)
    ensures v.x == m[0][0] * x + m[0][1] * y && v.y == m[1][0] * x + m[1][1] * y
  {
    TransformPointOrVector(m, x, y, 0.0)
  }

  /** The corrected vector transform maps the difference of two points to the difference
      of their images, and so is unaffected by translation. */
  lemma TransformVectorOfDifference(m: Matrix, p: Coordinate, q: Coordinate)
    requires Is3x3(m)
    ensures var tp, tq := TransformPoint(m, p.x, p.y), TransformPoint(m, q.x, q.y);
            TransformVectorLinear(m, p.x - q.x, p.y - q.y) == Coordinate(tp.x - tq.x, tp.y - tq.y)
  {
    var v := TransformVectorLinear(m, p.x - q.x, p.y - q.y);
    assert m[0][0] * (p.x - q.x) == m[0][0] * p.x - m[0][0] * q.x;
    assert m[0][1] * (p.y - q.y) == m[0][1] * p.y - m[0][1] * q.y;
    assert m[1][0] * (p.x - q.x) == m[1][0] * p.x - m[1][0] * q.x;
    assert m[1][1] * (p.y - q.y) == m[1][1] * p.y - m[1][1] * q.y;
  }

  /** `transformAABB`: scales the corner and the extents by the diagonal entries m00 and
      m11 and translates the corner by m02, m12; the off-diagonal entries are ignored. */
  function TransformAabb(m: Matrix, rect: Aabb): (r: Aabb)
    requires Is3x3(m)
    ensures r.x == rect.x * m[0][0] + m[0][2] && r.y == rect.y * m[1][1] + m[1][2]
    ensures r.width == rect.width * m[0][0] && r.height == rect.height * m[1][1]
  {
    var scaleX := m[0][0];
    var scaleY := m[1][1];
    var translateX := m[0][2];
    var translateY := m[1][2];
    Aabb(rect.x * scaleX + translateX, rect.y * scaleY + translateY, rect.width * scaleX, rect.height * scaleY)
  }

  /** No rotation or shear: the off-diagonal entries of the linear part are zero. */
  predicate IsAxisAligned(m: Matrix)
    requires Is3x3(m)
  {
    m[0][1] == 0.0 && m[1][0] == 0.0
  }

  /** For a matrix without rotation or shear, `transformAABB` moves the box's top-left and
      bottom-right corners exactly where `transformPoint` moves them. */
  lemma TransformAabbMapsCorners(m: Matrix, rect: Aabb)
    requires Is3x3(m) && IsAxisAligned(m)
    ensures var r := TransformAabb(m, rect);
            TransformPoint(m, rect.x, rect.y) == Coordinate(r.x, r.y)
            && TransformPoint(m, rect.x + rect.width, rect.y + rect.height)
               == Coordinate(r.x + r.width, r.y + r.height)
  {
    assert (rect.x + rect.width) * m[0][0] == rect.x * m[0][0] + rect.width * m[0][0];
    assert (rect.y + rect.height) * m[1][1] == rect.y * m[1][1] + rect.height * m[1][1];
  }

  /** With the identity matrix `transformAABB` returns the box unchanged. */
  lemma TransformAabbIdentity(rect: Aabb)
    ensures TransformAabb(Identity(), rect) == rect
  {
  }
}
