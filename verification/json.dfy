/** The already-parsed JSON document the decoders read, and the four scalar kinds
    the playground's conversions work with. */
module Json {
  import opened Wrappers

  /** Swift's `Int` on a 64-bit platform. */
  const INT64_MIN: int := -0x8000_0000_0000_0000
  const INT64_MAX: int := 0x7FFF_FFFF_FFFF_FFFF

  type Int64 = n: int | INT64_MIN <= n <= INT64_MAX

  /** A Swift `Double`, kept as its IEEE 754 bit pattern and never interpreted:
      every operation that looks inside one is a parameter of the model. */
  datatype Double = Double(bits: bv64)

  /** The scalar types `TypeConverter` handles. */
  datatype Kind = IntKind | DoubleKind | BoolKind | StringKind

  /** A value of one of the four scalar types. */
  datatype Scalar =
    | IntScalar(i: Int64)
    | DoubleScalar(d: Double)
    | BoolScalar(b: bool)
    | StringScalar(s: string)

  function KindOf(v: Scalar): Kind {
    match v
    case IntScalar(_) => IntKind
    case DoubleScalar(_) => DoubleKind
    case BoolScalar(_) => BoolKind
    case StringScalar(_) => StringKind
  }

  /** One node of a parsed JSON document. Every raw value has exactly one kind.
      A JSON number whose value is an integer that fits in `Int` (written as
      `135` or as `135.0`) is a `JInt`; every other JSON number (`99.99`, or
      an integer beyond 64 bits) is a `JDouble`. */
  datatype JValue =
    | JNull
    | JInt(i: Int64)
    | JDouble(d: Double)
    | JBool(b: bool)
    | JString(s: string)
    | JArray(items: seq<JValue>)
    | JObject(fields: map<string, JValue>)

  /** The raw value holds a scalar of kind `k`. */
  predicate HasKind(v: JValue, k: Kind) {
    match k
    case IntKind => v.JInt?
    case DoubleKind => v.JDouble?
    case BoolKind => v.JBool?
    case StringKind => v.JString?
  }

  function FromScalar(v: Scalar): (j: JValue)
    ensures HasKind(j, KindOf(v))
  {
    match v
    case IntScalar(n) => JInt(n)
    case DoubleScalar(d) => JDouble(d)
    case BoolScalar(b) => JBool(b)
    case StringScalar(s) => JString(s)
  }

  /** The scalar a raw value holds; none for null, arrays and objects. */
  function ScalarOf(j: JValue): (r: Option<Scalar>)
    ensures r.Some? ==> FromScalar(r.value) == j
    ensures r.Some? <==> j.JInt? || j.JDouble? || j.JBool? || j.JString?
  {
    match j
    case JInt(n) => Some(IntScalar(n))
    case JDouble(d) => Some(DoubleScalar(d))
    case JBool(b) => Some(BoolScalar(b))
    case JString(s) => Some(StringScalar(s))
    case _ => None
  }

  /** Reading a raw value as one scalar type, as the JSON decoder's typed
      `decode(T.self)` does: it succeeds exactly when the kinds agree. */
  function ReadAs(j: JValue, k: Kind): (r: Option<Scalar>)
    ensures r.Some? <==> HasKind(j, k)
    ensures r.Some? ==> KindOf(r.value) == k && FromScalar(r.value) == j
  {
    match ScalarOf(j)
    case Some(v) => if KindOf(v) == k then Some(v) else None
    case None => None
  }
}
