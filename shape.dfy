/** The transform state of a shape (src/model/Shape.ts): translation, rotation and scaling,
    updated in place, and the matrices built from them. */
module Shape {
  import opened Geometry
  import opened Matrices
  import MathUtils

  /** A linear part only: bottom row (0, 0, 1) and a zero translation column, which is
      what every rotation matrix the source builds looks like. */
  predicate IsLinearPart(m: Matrix)
    requires Is3x3(m)
  {
    HasAffineBottomRow(m) && m[0][2] == 0.0 && m[1][2] == 0.0
  }

  class Shape {
    /** Generated once by `nanoid()` in the source; given to the constructor here. */
    const id: string
    /** `_rotate`, in degrees. */
    var rotation: real
    /** `_translate`. */
    var translation: Coordinate
    var rotateMatrix: Matrix
    /** `_scale`, one factor per axis. */
    var scaling: Coordinate

    /** The rotation matrix is always a 3×3 linear part. */
    ghost predicate Valid()
      reads this
    {
      Is3x3(rotateMatrix) && IsLinearPart(rotateMatrix)
    }

    constructor (id: string)
      ensures Valid() && this.id == id
      ensures rotation == 0.0 && translation == Coordinate(0.0, 0.0)
      ensures scaling == Coordinate(1.0, 1.0) && rotateMatrix == Identity()
    {
      this.id := id;
      rotation := 0.0;
      translation := Coordinate(0.0, 0.0);
      rotateMatrix := Identity();
      scaling := Coordinate(1.0, 1.0);
    }

    /** `translateMatrix`. The contract gives the shape only; what the entries do to a point
        is stated by `TransformMatrix` (last column) and `TransformOrder`. */
    function TranslateMatrix(): (m: Matrix)
      reads this
      ensures Is3x3(m) && HasAffineBottomRow(m)
    {
      [[1.0, 0.0, translation.x], [0.0, 1.0, translation.y], [0.0, 0.0, 1.0]]
    }

    /** `scaleMatrix`. The contract gives the shape only; what the entries do to a point is
        stated by `TransformOrder`. */
    function ScaleMatrix(): (m: Matrix)
      reads this
      ensures Is3x3(m) && IsLinearPart(m)
    {
      [[scaling.x, 0.0, 0.0], [0.0, scaling.y, 0.0], [0.0, 0.0, 1.0]]
    }

    /** `transformMatrix` = translateMatrix · rotateMatrix · scaleMatrix. Its bottom row is
        (0, 0, 1) and its last column is the translation (tx, ty, 1). */
    function TransformMatrix(): (m: Matrix)
      reads this
      requires Valid()
      ensures Is3x3(m) && HasAffineBottomRow(m)
      ensures m[0][2] == translation.x && m[1][2] == translation.y
    {
      var tr := Multiply(TranslateMatrix(), rotateMatrix);
      TranslateRotateColumn(TranslateMatrix(), rotateMatrix);
      var m := Multiply(tr, ScaleMatrix());
      assert m[2] == [Dot(tr, ScaleMatrix(), 2, 0), Dot(tr, ScaleMatrix(), 2, 1), Dot(tr, ScaleMatrix(), 2, 2)];
      m
    }

    /** `rotate(r)`: sets the rotation to `r` (not adding to it) and replaces the rotation
        matrix by [[cos, −sin, 0], [sin, cos, 0], [0, 0, 1]]. The cosine and sine of `r`
        degrees are computed by the host and passed in. */
    method Rotate(r: real, cos: real, sin: real)
      requires Valid()
      modifies this
      ensures Valid()
      ensures rotation == r
      ensures rotateMatrix == [[cos, -sin, 0.0], [sin, cos, 0.0], [0.0, 0.0, 1.0]]
      ensures translation == old(translation) && scaling == old(scaling)
    {
      rotation := r;
      rotateMatrix := [[cos, -sin, 0.0], [sin, cos, 0.0], [0.0, 0.0, 1.0]];
    }

    /** `scale(x, y)`: multiplies each scale factor, leaving translation and rotation alone. */
    method Scale(x: real, y: real)
      requires Valid()
      modifies this
      ensures Valid()
      ensures scaling == Coordinate(old(scaling.x) * x, old(scaling.y) * y)
      ensures translation == old(translation) && rotation == old(rotation)
      ensures rotateMatrix == old(rotateMatrix)
    {
      scaling := Coordinate(scaling.x * x, scaling.y * y);
    }

    /** `translate(x, y)`: adds to each translation component, leaving scale and rotation alone. */
    method Translate(x: real, y: real)
      requires Valid()
      modifies this
      ensures Valid()
      ensures translation == Coordinate(old(translation.x) + x, old(translation.y) + y)
      ensures scaling == old(scaling) && rotation == old(rotation)
      ensures rotateMatrix == old(rotateMatrix)
    {
      translation := Coordinate(translation.x + x, translation.y + y);
    }
  }

  /** T·R keeps T's last column when R is a linear part, and the affine bottom row. */
  lemma TranslateRotateColumn(t: Matrix, r: Matrix)
    requires Is3x3(t) && HasAffineBottomRow(t) && Is3x3(r) && IsLinearPart(r)
    ensures var m := Multiply(t, r);
            HasAffineBottomRow(m) && m[0][2] == t[0][2] && m[1][2] == t[1][2]
  {
    var m := Multiply(t, r);
    assert t[2][0] == 0.0 && t[2][1] == 0.0 && t[2][2] == 1.0;
    assert r[2][0] == 0.0 && r[2][1] == 0.0 && r[2][2] == 1.0;
    assert Dot(t, r, 2, 0) == 0.0 && Dot(t, r, 2, 1) == 0.0 && Dot(t, r, 2, 2) == 1.0;
    assert m[2] == [Dot(t, r, 2, 0), Dot(t, r, 2, 1), Dot(t, r, 2, 2)];
  }

  /** A shape's transform applies the scaling first, then the rotation, then the
      translation to a point of the shape's local geometry. */
  lemma TransformOrder(s: Shape, p: Coordinate)
    requires s.Valid()
    ensures var scaled := MathUtils.TransformPoint(s.ScaleMatrix(), p.x, p.y);
            var rotated := MathUtils.TransformPoint(s.rotateMatrix, scaled.x, scaled.y);
            MathUtils.TransformPoint(s.TransformMatrix(), p.x, p.y)
              == Coordinate(rotated.x + s.translation.x, rotated.y + s.translation.y)
  {
    var t, r, sc := s.TranslateMatrix(), s.rotateMatrix, s.ScaleMatrix();
    var tr := Multiply(t, r);
    TranslateRotateColumn(t, r);
    MathUtils.TransformPointMultiply(tr, sc, p.x, p.y);
    var scaled := MathUtils.TransformPoint(sc, p.x, p.y);
    MathUtils.TransformPointMultiply(t, r, scaled.x, scaled.y);
  }
}
