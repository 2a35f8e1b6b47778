/** The camera of src/model/Camera.ts: a pan offset and a zoom factor, the matrices built
    from them, and the conversion of a view point to a world point. */
module Camera {
  import opened Wrappers
  import opened Matrices

  /** What mathjs `inv` throws for a matrix whose determinant is zero. */
  datatype CameraError = SingularMatrix

  /** The inverse of the view→world matrix [[s, 0, tx], [0, s, ty], [0, 0, 1]] for s ≠ 0. */
  function InverseTranslateScale(s: real, tx: real, ty: real): (m: Matrix)
    requires s != 0.0
    ensures Is3x3(m) && HasAffineBottomRow(m)
  {
    [[1.0 / s, 0.0, -tx / s], [0.0, 1.0 / s, -ty / s], [0.0, 0.0, 1.0]]
  }

  class Camera {
    var width: real
    var height: real
    /** `_translate`, a pair (x, y) in the source. */
    var translation: (real, real)
    /** `_scale`. */
    var scaling: real

    constructor (width: real, height: real)
      ensures this.width == width && this.height == height
      ensures translation == (0.0, 0.0) && scaling == 1.0
    {
      this.width := width;
      this.height := height;
      translation := (0.0, 0.0);
      scaling := 1.0;
    }

    /** `translateMatrix`: the pan offset as a homogeneous translation. The contract gives
        the shape only; the entries are pinned by the closed form of `InvViewMatrix`. */
    function TranslateMatrix(): (m: Matrix)
      reads this
      ensures Is3x3(m) && HasAffineBottomRow(m)
    {
      [[1.0, 0.0, translation.0], [0.0, 1.0, translation.1], [0.0, 0.0, 1.0]]
    }

    /** `scaleMatrix`: the zoom factor on both axes. The contract gives the shape only; the
        entries are pinned by the closed form of `InvViewMatrix`. */
    function ScaleMatrix(): (m: Matrix)
      reads this
      ensures Is3x3(m) && HasAffineBottomRow(m)
    {
      [[scaling, 0.0, 0.0], [0.0, scaling, 0.0], [0.0, 0.0, 1.0]]
    }

    /** `invViewMatrix` = translateMatrix · scaleMatrix: scale first, then pan. */
    function InvViewMatrix(): (m: Matrix)
      reads this
      ensures m == [[scaling, 0.0, translation.0], [0.0, scaling, translation.1], [0.0, 0.0, 1.0]]
    {
      Multiply(TranslateMatrix(), ScaleMatrix())
    }

    /** `viewMatrix` = inv(invViewMatrix): fails exactly when the zoom factor is zero, and is
        otherwise a two-sided inverse of `InvViewMatrix`. */
    function ViewMatrix(): (r: Result<Matrix, CameraError>)
      reads this
      ensures r.Failure? <==> scaling == 0.0
      ensures r.Success? ==> Is3x3(r.value)
      ensures r.Success? ==> Multiply(InvViewMatrix(), r.value) == Identity()
                             && Multiply(r.value, InvViewMatrix()) == Identity()
    {
      if scaling == 0.0 then
        Failure(SingularMatrix)
      else
        var v := InverseTranslateScale(scaling, translation.0, translation.1);
        InverseTranslateScaleIsInverse(scaling, translation.0, translation.1);
        Success(v)
    }

    /** `toWorld`: the view point `p` through `viewMatrix`, keeping the first two entries.
        The result `r` solves s·r + t = p, so `InvViewMatrix` maps it back to `p`. */
    function ToWorld(p: (real, real)): (r: Result<(real, real), CameraError>)
      reads this
      ensures r.Failure? <==> scaling == 0.0
      ensures r.Success? ==> r.value == ((p.0 - translation.0) / scaling, (p.1 - translation.1) / scaling)
      ensures r.Success? ==> Apply(InvViewMatrix(), [r.value.0, r.value.1, 1.0]) == [p.0, p.1, 1.0]
    {
      match ViewMatrix()
      case Failure(e) => Failure(e)
      case Success(view) =>
        var vec := Apply(view, [p.0, p.1, 1.0]);
        var w := (vec[0], vec[1]);
        ToWorldSolves(scaling, translation.0, translation.1, p);
        Success(w)
    }

    /** `translate(x, y)`: adds to both pan components, without clamping. */
    method Translate(x: real, y: real)
      modifies this
      ensures translation == (old(translation.0) + x, old(translation.1) + y)
      ensures scaling == old(scaling) && width == old(width) && height == old(height)
    {
      translation := (translation.0 + x, translation.1 + y);
    }

    /** `scale(rate)`: multiplies the zoom factor, without clamping. */
    method Scale(rate: real)
      modifies this
      ensures scaling == old(scaling) * rate
      ensures translation == old(translation) && width == old(width) && height == old(height)
    {
      scaling := scaling * rate;
    }
  }

  /** The closed form is the inverse of [[s, 0, tx], [0, s, ty], [0, 0, 1]] on both sides. */
  lemma InverseTranslateScaleIsInverse(s: real, tx: real, ty: real)
    requires s != 0.0
    ensures var m := [[s, 0.0, tx], [0.0, s, ty], [0.0, 0.0, 1.0]];
            var v := InverseTranslateScale(s, tx, ty);
            Multiply(m, v) == Identity() && Multiply(v, m) == Identity()
  {
    var m := [[s, 0.0, tx], [0.0, s, ty], [0.0, 0.0, 1.0]];
    var v := InverseTranslateScale(s, tx, ty);
    assert s * (1.0 / s) == 1.0;
    assert s * (-tx / s) + tx == 0.0;
    assert s * (-ty / s) + ty == 0.0;
    assert (1.0 / s) * tx + -tx / s == 0.0;
    assert (1.0 / s) * ty + -ty / s == 0.0;
    var mv, vm := Multiply(m, v), Multiply(v, m);
    assert Dot(m, v, 0, 0) == 1.0 && Dot(m, v, 0, 1) == 0.0 && Dot(m, v, 0, 2) == 0.0;
    assert Dot(m, v, 1, 0) == 0.0 && Dot(m, v, 1, 1) == 1.0 && Dot(m, v, 1, 2) == 0.0;
    assert Dot(v, m, 0, 0) == 1.0 && Dot(v, m, 0, 1) == 0.0 && Dot(v, m, 0, 2) == 0.0;
    assert Dot(v, m, 1, 0) == 0.0 && Dot(v, m, 1, 1) == 1.0 && Dot(v, m, 1, 2) == 0.0;
    assert mv[0] == [1.0, 0.0, 0.0] && mv[1] == [0.0, 1.0, 0.0] && mv[2] == [0.0, 0.0, 1.0];
    assert vm[0] == [1.0, 0.0, 0.0] && vm[1] == [0.0, 1.0, 0.0] && vm[2] == [0.0, 0.0, 1.0];
  }

  /** The world point that `toWorld` computes is (p − t)/s, and s·((p − t)/s) + t = p. */
  lemma ToWorldSolves(s: real, tx: real, ty: real, p: (real, real))
    requires s != 0.0
    ensures var vec := Apply(InverseTranslateScale(s, tx, ty), [p.0, p.1, 1.0]);
            vec[0] == (p.0 - tx) / s && vec[1] == (p.1 - ty) / s
            && Apply([[s, 0.0, tx], [0.0, s, ty], [0.0, 0.0, 1.0]], [vec[0], vec[1], 1.0]) == [p.0, p.1, 1.0]
  {
    var vec := Apply(InverseTranslateScale(s, tx, ty), [p.0, p.1, 1.0]);
    assert (1.0 / s) * p.0 + -tx / s == (p.0 - tx) / s;
    assert (1.0 / s) * p.1 + -ty / s == (p.1 - ty) / s;
    assert s * ((p.0 - tx) / s) + tx == p.0;
    assert s * ((p.1 - ty) / s) + ty == p.1;
    var back := Apply([[s, 0.0, tx], [0.0, s, ty], [0.0, 0.0, 1.0]], [vec[0], vec[1], 1.0]);
    assert back[0] == p.0 && back[1] == p.1 && back[2] == 1.0;
  }
}
