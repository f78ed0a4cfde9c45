/**
 * `ModelViewTransform2`, the transform between model and view coordinates.
 * It only ever holds an aligned matrix: each output coordinate is an affine
 * function of the same input coordinate,
 *   view.x = m00 * model.x + m02,   view.y = m11 * model.y + m12,
 * so the matrix is represented by these four coefficients and alignment
 * holds by construction.
 */
module ModelViewTransforms {
  import opened Wrappers
  import opened Geometry

  datatype AlignedMatrix = AlignedMatrix(m00: real, m02: real, m11: real, m12: real)

  /** `Matrix3.IDENTITY`. */
  const IDENTITY: AlignedMatrix := AlignedMatrix(1.0, 0.0, 1.0, 0.0)

  function MapX(m: AlignedMatrix, x: real): real
  {
    m.m00 * x + m.m02
  }

  function MapY(m: AlignedMatrix, y: real): real
  {
    m.m11 * y + m.m12
  }

  /** The point a fraction `t` of the way along an interval that starts at `start` and has length `length`. */
  function Lerp(start: real, length: real, t: real): real
  {
    start + t * length
  }

  /**
   * The inverse matrix. The 3x3 matrix of an aligned transform has
   * determinant m00 * m11; when that is 0 there is no inverse and inverting
   * fails (None).
   */
  function Inverse(m: AlignedMatrix): (r: Option<AlignedMatrix>)
    ensures r.None? <==> m.m00 == 0.0 || m.m11 == 0.0
    ensures r.Some? ==> forall x :: MapX(r.value, MapX(m, x)) == x
    ensures r.Some? ==> forall y :: MapY(r.value, MapY(m, y)) == y
    ensures r.Some? ==> forall x :: MapX(m, MapX(r.value, x)) == x
    ensures r.Some? ==> forall y :: MapY(m, MapY(r.value, y)) == y
  {
    if m.m00 == 0.0 || m.m11 == 0.0 then
      None
    else
      var inv := AlignedMatrix(1.0 / m.m00, -m.m02 / m.m00, 1.0 / m.m11, -m.m12 / m.m11);
      assert forall x :: MapX(inv, MapX(m, x)) == x by {
        forall x ensures MapX(inv, MapX(m, x)) == x { InverseAffine(m.m00, m.m02, x); }
      }
      assert forall y :: MapY(inv, MapY(m, y)) == y by {
        forall y ensures MapY(inv, MapY(m, y)) == y { InverseAffine(m.m11, m.m12, y); }
      }
      assert forall x :: MapX(m, MapX(inv, x)) == x by {
        forall x ensures MapX(m, MapX(inv, x)) == x { AffineInverse(m.m00, m.m02, x); }
      }
      assert forall y :: MapY(m, MapY(inv, y)) == y by {
        forall y ensures MapY(m, MapY(inv, y)) == y { AffineInverse(m.m11, m.m12, y); }
      }
      Some(inv)
  }

  lemma InverseAffine(a: real, b: real, x: real)
    requires a != 0.0
    ensures (1.0 / a) * (a * x + b) + (-b / a) == x
  {
    calc {
      (1.0 / a) * (a * x + b) + (-b / a);
      (a * x) / a + b / a - b / a;
      x;
    }
  }

  lemma AffineInverse(a: real, b: real, x: real)
    requires a != 0.0
    ensures a * ((1.0 / a) * x + (-b / a)) + b == x
  {
    calc {
      a * ((1.0 / a) * x + (-b / a)) + b;
      (a / a) * x - (a * b) / a + b;
      x;
    }
  }

  /**
   * `createOffsetXYScaleMapping`: view.x = model.x * xScale + offset.x and
   * view.y = model.y * yScale + offset.y.
   */
  function OffsetXYScaleMatrix(offset: Vector2, xScale: real, yScale: real): (m: AlignedMatrix)
    ensures forall x :: MapX(m, x) == x * xScale + offset.x
    ensures forall y :: MapY(m, y) == y * yScale + offset.y
  {
    AlignedMatrix(xScale, offset.x, yScale, offset.y)
  }

  /** `createOffsetScaleMapping`: the same scale on both axes. */
  function OffsetScaleMatrix(offset: Vector2, scale: real): (m: AlignedMatrix)
    ensures m == OffsetXYScaleMatrix(offset, scale, scale)
    ensures forall p: Vector2 :: Vector2(MapX(m, p.x), MapY(m, p.y)) == Vector2(p.x * scale + offset.x, p.y * scale + offset.y)
  {
    AlignedMatrix(scale, offset.x, scale, offset.y)
  }

  /** `createSinglePointXYScaleMapping`: the given scales, with `modelPoint` sent to `viewPoint`. */
  function SinglePointXYScaleMatrix(modelPoint: Vector2, viewPoint: Vector2, xScale: real, yScale: real): (m: AlignedMatrix)
    ensures m.m00 == xScale && m.m11 == yScale
    ensures MapX(m, modelPoint.x) == viewPoint.x && MapY(m, modelPoint.y) == viewPoint.y
  {
    OffsetXYScaleMatrix(Vector2(viewPoint.x - modelPoint.x * xScale, viewPoint.y - modelPoint.y * yScale), xScale, yScale)
  }

  /** `createSinglePointScaleMapping`. */
  function SinglePointScaleMatrix(modelPoint: Vector2, viewPoint: Vector2, scale: real): (m: AlignedMatrix)
    ensures m == SinglePointXYScaleMatrix(modelPoint, viewPoint, scale, scale)
    ensures MapX(m, modelPoint.x) == viewPoint.x && MapY(m, modelPoint.y) == viewPoint.y
  {
    SinglePointXYScaleMatrix(modelPoint, viewPoint, scale, scale)
  }

  /**
   * `createSinglePointScaleInvertedYMapping`: y is scaled by `-scale`, so for
   * a positive scale a higher model y is a lower view y.
   */
  function SinglePointScaleInvertedYMatrix(modelPoint: Vector2, viewPoint: Vector2, scale: real): (m: AlignedMatrix)
    ensures m == SinglePointXYScaleMatrix(modelPoint, viewPoint, scale, -scale)
    ensures MapX(m, modelPoint.x) == viewPoint.x && MapY(m, modelPoint.y) == viewPoint.y
    ensures scale > 0.0 ==> forall y1, y2 :: y1 < y2 ==> MapY(m, y1) > MapY(m, y2)
  {
    var m := SinglePointXYScaleMatrix(modelPoint, viewPoint, scale, -scale);
    assert scale > 0.0 ==> forall y1, y2 :: y1 < y2 ==> MapY(m, y1) > MapY(m, y2) by {
      if scale > 0.0 {
        forall y1, y2 | y1 < y2 ensures MapY(m, y1) > MapY(m, y2) {
          Geometry.MulPositive(scale, y2 - y1);
        }
      }
    }
    m
  }

  /**
   * The matrix of `setToRectangleMapping`: a point a fraction t across (or
   * down) the model rectangle goes to the point the same fraction across
   * (or down) the view rectangle, so the corners map to the corners.
   */
  function RectangleMatrix(modelBounds: Bounds2, viewBounds: Bounds2): (m: AlignedMatrix)
    requires modelBounds.Width() != 0.0 && modelBounds.Height() != 0.0
    ensures forall t :: MapX(m, Lerp(modelBounds.minX, modelBounds.Width(), t)) == Lerp(viewBounds.minX, viewBounds.Width(), t)
    ensures forall t :: MapY(m, Lerp(modelBounds.minY, modelBounds.Height(), t)) == Lerp(viewBounds.minY, viewBounds.Height(), t)
    ensures MapX(m, modelBounds.minX) == viewBounds.minX && MapY(m, modelBounds.minY) == viewBounds.minY
    ensures MapX(m, modelBounds.maxX) == viewBounds.maxX && MapY(m, modelBounds.maxY) == viewBounds.maxY
  {
    var m00 := viewBounds.Width() / modelBounds.Width();
    var m02 := viewBounds.minX - m00 * modelBounds.minX;
    var m11 := viewBounds.Height() / modelBounds.Height();
    var m12 := viewBounds.minY - m11 * modelBounds.minY;
    var m := AlignedMatrix(m00, m02, m11, m12);
    forall t ensures MapX(m, Lerp(modelBounds.minX, modelBounds.Width(), t)) == Lerp(viewBounds.minX, viewBounds.Width(), t) {
      ScaledInterval(modelBounds.minX, modelBounds.Width(), viewBounds.minX, viewBounds.Width(), t);
    }
    forall t ensures MapY(m, Lerp(modelBounds.minY, modelBounds.Height(), t)) == Lerp(viewBounds.minY, viewBounds.Height(), t) {
      ScaledInterval(modelBounds.minY, modelBounds.Height(), viewBounds.minY, viewBounds.Height(), t);
    }
    assert Lerp(modelBounds.minX, modelBounds.Width(), 1.0) == modelBounds.maxX;
    assert Lerp(modelBounds.minY, modelBounds.Height(), 1.0) == modelBounds.maxY;
    assert Lerp(modelBounds.minX, modelBounds.Width(), 0.0) == modelBounds.minX;
    assert Lerp(modelBounds.minY, modelBounds.Height(), 0.0) == modelBounds.minY;
    m
  }

  /** The scale `w / mw` and offset `v - (w / mw) * a` carry the interval [a, a + mw] onto [v, v + w]. */
  lemma ScaledInterval(a: real, mw: real, v: real, w: real, t: real)
    requires mw != 0.0
    ensures (w / mw) * Lerp(a, mw, t) + (v - (w / mw) * a) == Lerp(v, w, t)
  {
    calc {
      (w / mw) * Lerp(a, mw, t) + (v - (w / mw) * a);
      (w / mw) * (a + t * mw) + v - (w / mw) * a;
      (w / mw) * (t * mw) + v;
      { assert (w / mw) * (t * mw) == t * w * (mw / mw); }
      v + t * w;
    }
  }

  /**
   * The matrix of `setToRectangleInvertedYMapping`: x as in RectangleMatrix;
   * y is flipped, so a point a fraction t up from the model bottom goes to
   * the point the same fraction up from the view's maximum y.
   */
  function RectangleInvertedYMatrix(modelBounds: Bounds2, viewBounds: Bounds2): (m: AlignedMatrix)
    requires modelBounds.Width() != 0.0 && modelBounds.Height() != 0.0
    ensures forall t :: MapX(m, Lerp(modelBounds.minX, modelBounds.Width(), t)) == Lerp(viewBounds.minX, viewBounds.Width(), t)
    ensures forall t :: MapY(m, Lerp(modelBounds.minY, modelBounds.Height(), t)) == Lerp(viewBounds.maxY, -viewBounds.Height(), t)
    ensures MapX(m, modelBounds.minX) == viewBounds.minX && MapX(m, modelBounds.maxX) == viewBounds.maxX
    ensures MapY(m, modelBounds.maxY) == viewBounds.minY && MapY(m, modelBounds.minY) == viewBounds.maxY
  {
    var m00 := viewBounds.Width() / modelBounds.Width();
    var m02 := viewBounds.minX - m00 * modelBounds.minX;
    var m11 := -viewBounds.Height() / modelBounds.Height();
    var m12 := viewBounds.minY - m11 * modelBounds.maxY;
    var m := AlignedMatrix(m00, m02, m11, m12);
    forall t ensures MapX(m, Lerp(modelBounds.minX, modelBounds.Width(), t)) == Lerp(viewBounds.minX, viewBounds.Width(), t) {
      ScaledInterval(modelBounds.minX, modelBounds.Width(), viewBounds.minX, viewBounds.Width(), t);
    }
    forall t ensures MapY(m, Lerp(modelBounds.minY, modelBounds.Height(), t)) == Lerp(viewBounds.maxY, -viewBounds.Height(), t) {
      FlippedInterval(modelBounds.minY, modelBounds.maxY, viewBounds.minY, viewBounds.Height(), t);
    }
    assert Lerp(modelBounds.minX, modelBounds.Width(), 1.0) == modelBounds.maxX;
    assert Lerp(modelBounds.minY, modelBounds.Height(), 1.0) == modelBounds.maxY;
    assert Lerp(modelBounds.minX, modelBounds.Width(), 0.0) == modelBounds.minX;
    assert Lerp(modelBounds.minY, modelBounds.Height(), 0.0) == modelBounds.minY;
    m
  }

  /** The flipped scale carries [lo, hi] onto [v + h, v], with hi going to v. */
  lemma FlippedInterval(lo: real, hi: real, v: real, h: real, t: real)
    requires hi - lo != 0.0
    ensures (-h / (hi - lo)) * Lerp(lo, hi - lo, t) + (v - (-h / (hi - lo)) * hi) == Lerp(v + h, -h, t)
  {
    var k := -h / (hi - lo);
    calc {
      k * Lerp(lo, hi - lo, t) + (v - k * hi);
      k * (lo + t * (hi - lo)) + v - k * hi;
      v + k * (t * (hi - lo)) - k * (hi - lo);
      { assert k * (hi - lo) == -h; assert k * (t * (hi - lo)) == t * (k * (hi - lo)); }
      v + h - t * h;
    }
  }

  /**
   * A model-view transform. The source class inherits from the general
   * 2D affine transform `Transform3`; only aligned matrices are allowed.
   */
  class ModelViewTransform2 {
    var matrix: AlignedMatrix

    constructor (matrix: AlignedMatrix)
      ensures this.matrix == matrix
    {
      this.matrix := matrix;
    }

    /** `modelToViewX`: the x part of the matrix; it does not involve y. */
    function ModelToViewX(x: real): (r: real)
      reads this
      ensures r == MapX(matrix, x)
    {
      matrix.m00 * x + matrix.m02
    }

    /** `modelToViewY`: the y part of the matrix; it does not involve x. */
    function ModelToViewY(y: real): (r: real)
      reads this
      ensures r == MapY(matrix, y)
    {
      matrix.m11 * y + matrix.m12
    }

    /** `modelToViewXY`: each coordinate is mapped on its own axis. */
    function ModelToViewXY(x: real, y: real): (v: Vector2)
      reads this
      ensures v.x == ModelToViewX(x) && v.y == ModelToViewY(y)
    {
      Vector2(ModelToViewX(x), ModelToViewY(y))
    }

    /**
     * `viewToModelX`: the x part of the inverse matrix. It fails (None) when
     * the matrix cannot be inverted; otherwise it undoes ModelToViewX.
     */
    function ViewToModelX(x: real): (r: Option<real>)
      reads this
      ensures r.None? <==> matrix.m00 == 0.0 || matrix.m11 == 0.0
      ensures r.Some? ==> ModelToViewX(r.value) == x
      ensures r.Some? ==> forall mx :: ModelToViewX(mx) == x ==> mx == r.value
    {
      match Inverse(matrix)
      case None => None
      case Some(inverse) =>
        var mx := inverse.m00 * x + inverse.m02;
        assert MapX(inverse, MapX(matrix, mx)) == mx;
        assert forall other :: ModelToViewX(other) == x ==> other == mx by {
          forall other | ModelToViewX(other) == x ensures other == mx {
            assert MapX(inverse, MapX(matrix, other)) == other;
          }
        }
        Some(mx)
    }

    /** `viewToModelY`: the y part of the inverse matrix. */
    function ViewToModelY(y: real): (r: Option<real>)
      reads this
      ensures r.None? <==> matrix.m00 == 0.0 || matrix.m11 == 0.0
      ensures r.Some? ==> ModelToViewY(r.value) == y
      ensures r.Some? ==> forall my :: ModelToViewY(my) == y ==> my == r.value
    {
      match Inverse(matrix)
      case None => None
      case Some(inverse) =>
        var my := inverse.m11 * y + inverse.m12;
        assert MapY(inverse, MapY(matrix, my)) == my;
        assert forall other :: ModelToViewY(other) == y ==> other == my by {
          forall other | ModelToViewY(other) == y ensures other == my {
            assert MapY(inverse, MapY(matrix, other)) == other;
          }
        }
        Some(my)
    }

    /** `viewToModelXY`: both coordinates mapped back, or a failure when the matrix is singular. */
    function ViewToModelXY(x: real, y: real): (r: Option<Vector2>)
      reads this
      ensures r.None? <==> matrix.m00 == 0.0 || matrix.m11 == 0.0
      ensures r.Some? ==> ModelToViewXY(r.value.x, r.value.y) == Vector2(x, y)
    {
      var mx, my := ViewToModelX(x), ViewToModelY(y);
      if mx.Some? && my.Some? then Some(Vector2(mx.value, my.value)) else None
    }

    /** `setToRectangleMapping`: replaces the matrix; returns this transform for chaining. */
    method SetToRectangleMapping(modelBounds: Bounds2, viewBounds: Bounds2) returns (r: ModelViewTransform2)
      requires modelBounds.Width() != 0.0 && modelBounds.Height() != 0.0
      modifies this
      ensures r == this && matrix == RectangleMatrix(modelBounds, viewBounds)
    {
      var m00 := viewBounds.Width() / modelBounds.Width();
      var m02 := viewBounds.minX - m00 * modelBounds.minX;
      var m11 := viewBounds.Height() / modelBounds.Height();
      var m12 := viewBounds.minY - m11 * modelBounds.minY;
      matrix := AlignedMatrix(m00, m02, m11, m12);
      r := this;
    }

    /** `setToRectangleInvertedYMapping`: replaces the matrix with the y-flipped rectangle mapping. */
    method SetToRectangleInvertedYMapping(modelBounds: Bounds2, viewBounds: Bounds2) returns (r: ModelViewTransform2)
      requires modelBounds.Width() != 0.0 && modelBounds.Height() != 0.0
      modifies this
      ensures r == this && matrix == RectangleInvertedYMatrix(modelBounds, viewBounds)
    {
      var m00 := viewBounds.Width() / modelBounds.Width();
      var m02 := viewBounds.minX - m00 * modelBounds.minX;
      var m11 := -viewBounds.Height() / modelBounds.Height();
      var m12 := viewBounds.minY - m11 * modelBounds.maxY;
      matrix := AlignedMatrix(m00, m02, m11, m12);
      r := this;
    }

    /** `createIdentity`: model coordinates are view coordinates. */
    static method CreateIdentity() returns (t: ModelViewTransform2)
      ensures fresh(t) && t.matrix == IDENTITY
      ensures forall x, y :: t.ModelToViewXY(x, y) == Vector2(x, y)
    {
      t := new ModelViewTransform2(IDENTITY);
    }

    /** `createOffsetScaleMapping`. */
    static method CreateOffsetScaleMapping(offset: Vector2, scale: real) returns (t: ModelViewTransform2)
      ensures fresh(t) && t.matrix == OffsetScaleMatrix(offset, scale)
    {
      t := new ModelViewTransform2(AlignedMatrix(scale, offset.x, scale, offset.y));
    }

    /** `createOffsetXYScaleMapping`. */
    static method CreateOffsetXYScaleMapping(offset: Vector2, xScale: real, yScale: real) returns (t: ModelViewTransform2)
      ensures fresh(t) && t.matrix == OffsetXYScaleMatrix(offset, xScale, yScale)
    {
      t := new ModelViewTransform2(AlignedMatrix(xScale, offset.x, yScale, offset.y));
    }

    /** `createSinglePointXYScaleMapping`. */
    static method CreateSinglePointXYScaleMapping(modelPoint: Vector2, viewPoint: Vector2, xScale: real, yScale: real)
      returns (t: ModelViewTransform2)
      ensures fresh(t) && t.matrix == SinglePointXYScaleMatrix(modelPoint, viewPoint, xScale, yScale)
      ensures t.ModelToViewXY(modelPoint.x, modelPoint.y) == viewPoint
    {
      var offsetX := viewPoint.x - modelPoint.x * xScale;
      var offsetY := viewPoint.y - modelPoint.y * yScale;
      t := CreateOffsetXYScaleMapping(Vector2(offsetX, offsetY), xScale, yScale);
    }

    /** `createSinglePointScaleMapping`. */
    static method CreateSinglePointScaleMapping(modelPoint: Vector2, viewPoint: Vector2, scale: real)
      returns (t: ModelViewTransform2)
      ensures fresh(t) && t.matrix == SinglePointScaleMatrix(modelPoint, viewPoint, scale)
      ensures t.ModelToViewXY(modelPoint.x, modelPoint.y) == viewPoint
    {
      t := CreateSinglePointXYScaleMapping(modelPoint, viewPoint, scale, scale);
    }

    /** `createSinglePointScaleInvertedYMapping`. */
    static method CreateSinglePointScaleInvertedYMapping(modelPoint: Vector2, viewPoint: Vector2, scale: real)
      returns (t: ModelViewTransform2)
      ensures fresh(t) && t.matrix == SinglePointScaleInvertedYMatrix(modelPoint, viewPoint, scale)
      ensures t.ModelToViewXY(modelPoint.x, modelPoint.y) == viewPoint
    {
      t := CreateSinglePointXYScaleMapping(modelPoint, viewPoint, scale, -scale);
    }

    /** `createRectangleMapping`: a fresh transform set to the rectangle mapping. */
    static method CreateRectangleMapping(modelBounds: Bounds2, viewBounds: Bounds2) returns (t: ModelViewTransform2)
      requires modelBounds.Width() != 0.0 && modelBounds.Height() != 0.0
      ensures fresh(t) && t.matrix == RectangleMatrix(modelBounds, viewBounds)
    {
      var identity := new ModelViewTransform2(IDENTITY);
      t := identity.SetToRectangleMapping(modelBounds, viewBounds);
    }

    /** `createRectangleInvertedYMapping`. */
    static method CreateRectangleInvertedYMapping(modelBounds: Bounds2, viewBounds: Bounds2) returns (t: ModelViewTransform2)
      requires modelBounds.Width() != 0.0 && modelBounds.Height() != 0.0
      ensures fresh(t) && t.matrix == RectangleInvertedYMatrix(modelBounds, viewBounds)
    {
      var identity := new ModelViewTransform2(IDENTITY);
      t := identity.SetToRectangleInvertedYMapping(modelBounds, viewBounds);
    }
  }

  /** Alignment: the view x does not depend on the model y, nor the view y on the model x. */
  lemma AxesIndependent(t: ModelViewTransform2, x1: real, y1: real, x2: real, y2: real)
    ensures t.ModelToViewXY(x1, y1).x == t.ModelToViewXY(x1, y2).x
    ensures t.ModelToViewXY(x1, y1).y == t.ModelToViewXY(x2, y1).y
  {
  }

  /** Going to the view and back is the identity whenever the matrix is invertible. */
  lemma ViewModelRoundTrip(t: ModelViewTransform2, x: real, y: real)
    requires t.matrix.m00 != 0.0 && t.matrix.m11 != 0.0
    ensures t.ViewToModelXY(t.ModelToViewX(x), t.ModelToViewY(y)) == Some(Vector2(x, y))
  {
    var v := t.ViewToModelXY(t.ModelToViewX(x), t.ModelToViewY(y));
    assert v.Some?;
  }
}
