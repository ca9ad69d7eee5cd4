/** The six kinds of value the preference store holds, and the float
    numerics it borrows from the runtime. */
module PrefValues {
  import opened Wrappers
  import opened Ints
  import opened Text

  /** A C# `float`, as its IEEE 754 single-precision bit pattern. */
  type Float = bv32

  /** `-1f`, what `GetFloat` answers when no save is loaded. */
  const MinusOne: Float := 0xBF80_0000

  /** `0f`, the components of `Vector2.zero` and `Vector3.zero`. */
  const Zero: Float := 0

  /** A stored value: exactly one of the six supported kinds. */
  datatype Value =
    | BoolValue(b: bool)
    | IntValue(i: int32)
    | FloatValue(f: Float)
    | StringValue(s: string)
    | Vector2Value(x: Float, y: Float)
    | Vector3Value(x: Float, y: Float, z: Float)

  /** The lower-case kind name written as a row's type tag. */
  function KindName(v: Value): string {
    match v
    case BoolValue(_) => "bool"
    case IntValue(_) => "int"
    case FloatValue(_) => "float"
    case StringValue(_) => "string"
    case Vector2Value(_, _) => "vector2"
    case Vector3Value(_, _, _) => "vector3"
  }

  /** The runtime's float numerics, which the model does not interpret:
      `format` is `float.ToString()`, `parse` is `float.TryParse`, and
      `fromSeconds` is the `(float)` conversion of a whole number of
      seconds. */
  datatype FloatText = FloatText(
    format: Float -> string,
    parse: string -> Option<Float>,
    fromSeconds: int -> Float)

  /** An IEEE 754 NaN: every exponent bit set and a non-zero fraction. */
  predicate IsNaN(f: Float) {
    f & 0x7F80_0000 == 0x7F80_0000 && f & 0x007F_FFFF != 0
  }

  /** No float component of the value is a NaN. */
  predicate NoNaN(v: Value) {
    match v
    case FloatValue(f) => !IsNaN(f)
    case Vector2Value(x, y) => !IsNaN(x) && !IsNaN(y)
    case Vector3Value(x, y, z) => !IsNaN(x) && !IsNaN(y) && !IsNaN(z)
    case _ => true
  }

  /** What the codec needs of the float numerics for floats and vectors to
      survive a save and a load: every float but a NaN is parsed back from
      its own text, and every float's text has no comma (vectors are
      comma-joined) and no surrounding white space (vector components are
      trimmed). NaNs are left out because every NaN prints as `NaN`, which
      parses to the one pattern of `float.NaN`. */
  ghost predicate Sound(num: FloatText) {
    forall f: Float ::
      && (!IsNaN(f) ==> num.parse(num.format(f)) == Some(f))
      && ',' !in num.format(f)
      && Trim(num.format(f), TrimBlanks) == num.format(f)
  }
}
