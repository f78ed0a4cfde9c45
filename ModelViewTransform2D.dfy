/**
 * The older `ModelViewTransform2D`: two closures over a scale and an offset.
 * A number is only scaled; a vector is offset and then scaled on the way to
 * the view, and divided and then offset back on the way to the model. Any
 * other argument raises an error naming its JavaScript type.
 */
module ModelViewTransform2D {
  import opened Wrappers
  import opened Geometry

  /** The dynamically typed argument: a number, a `Vector2`, or anything else with its `typeof` name. */
  datatype TransformValue = Number(n: real) | Vector(v: Vector2) | Unsupported(typeName: string)

  /** The text of the error thrown for an unsupported argument. */
  function UnsupportedTypeMessage(typeName: string): string
  {
    "value has unsupported type: " + typeName
  }

  datatype ModelViewTransform2D = ModelViewTransform2D(scale: real, offset: Vector2)
  {
    /** `modelToView`. */
    function ModelToView(value: TransformValue): (r: Result<TransformValue, string>)
      ensures r.Failure? <==> value.Unsupported?
      ensures value.Unsupported? ==> r.error == UnsupportedTypeMessage(value.typeName)
      ensures r.Success? ==> (r.value.Number? <==> value.Number?)
    {
      match value
      case Number(n) => Success(Number(n * scale))
      case Vector(v) => Success(Vector(Vector2((v.x + offset.x) * scale, (v.y + offset.y) * scale)))
      case Unsupported(typeName) => Failure(UnsupportedTypeMessage(typeName))
    }

    /** `viewToModel`; a zero scale would divide by zero, which is not modelled. */
    function ViewToModel(value: TransformValue): (r: Result<TransformValue, string>)
      requires scale != 0.0
      ensures r.Failure? <==> value.Unsupported?
      ensures value.Unsupported? ==> r.error == UnsupportedTypeMessage(value.typeName)
      ensures r.Success? ==> (r.value.Number? <==> value.Number?)
    {
      match value
      case Number(n) => Success(Number(n / scale))
      case Vector(v) => Success(Vector(Vector2(v.x / scale - offset.x, v.y / scale - offset.y)))
      case Unsupported(typeName) => Failure(UnsupportedTypeMessage(typeName))
    }
  }

  /** Model to view and back gives the original number or vector. */
  lemma ModelViewRoundTrip(t: ModelViewTransform2D, value: TransformValue)
    requires t.scale != 0.0 && !value.Unsupported?
    ensures t.ModelToView(value).Success?
    ensures t.ViewToModel(t.ModelToView(value).value).Success?
    ensures t.ViewToModel(t.ModelToView(value).value).value == value
  {
    match value
    case Number(n) =>
      assert (n * t.scale) / t.scale == n;
    case Vector(v) =>
      Cancel(v.x + t.offset.x, t.scale);
      Cancel(v.y + t.offset.y, t.scale);
  }

  /** View to model and back gives the original number or vector. */
  lemma ViewModelRoundTrip(t: ModelViewTransform2D, value: TransformValue)
    requires t.scale != 0.0 && !value.Unsupported?
    ensures t.ViewToModel(value).Success?
    ensures t.ModelToView(t.ViewToModel(value).value).Success?
    ensures t.ModelToView(t.ViewToModel(value).value).value == value
  {
    match value
    case Number(n) =>
      assert (n / t.scale) * t.scale == n;
    case Vector(v) =>
      assert (v.x / t.scale - t.offset.x + t.offset.x) * t.scale == v.x;
      assert (v.y / t.scale - t.offset.y + t.offset.y) * t.scale == v.y;
  }

  lemma Cancel(a: real, s: real)
    requires s != 0.0
    ensures (a * s) / s == a
  {
  }

  /** A number is scaled alone: two transforms with the same scale agree on it whatever their offsets. */
  lemma NumberIgnoresOffset(scale: real, offset1: Vector2, offset2: Vector2, n: real)
    ensures ModelViewTransform2D(scale, offset1).ModelToView(Number(n)).value ==
            ModelViewTransform2D(scale, offset2).ModelToView(Number(n)).value == Number(n * scale)
    ensures scale != 0.0 ==>
              ModelViewTransform2D(scale, offset1).ViewToModel(Number(n)).value ==
              ModelViewTransform2D(scale, offset2).ViewToModel(Number(n)).value == Number(n / scale)
  {
  }

  /** The model point at minus the offset is drawn at the view origin. */
  lemma NegatedOffsetAtOrigin(t: ModelViewTransform2D)
    ensures t.ModelToView(Vector(Vector2(-t.offset.x, -t.offset.y))).Success?
    ensures t.ModelToView(Vector(Vector2(-t.offset.x, -t.offset.y))).value == Vector(ZERO)
  {
  }
}
