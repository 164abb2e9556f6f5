/** The part of Foundation's JSON decoder the playground's initialisers call: a
    keyed container over one JSON object, and the typed reads on it. Errors name
    the coding path of the offending value. */
module Container {
  import opened Wrappers
  import opened Json

  datatype DecodeError =
    | TypeMismatch(path: seq<string>)    // a value of another type than requested
    | ValueNotFound(path: seq<string>)   // null where a value is required
    | KeyNotFound(path: seq<string>)     // a required key is missing
    | DataCorrupted(path: seq<string>)   // a number that does not fit the requested integer type

  /** The error a strict read of `v` as kind `k` throws when `v` is neither null
      nor of kind `k`. A JSON number that is not an integer in range, read as
      `Int`, "does not fit" and is reported as corrupted data; every other
      mismatch is a type mismatch. */
  function MisreadError(path: seq<string>, v: JValue, k: Kind): (e: DecodeError)
    ensures e.path == path
    ensures e.DataCorrupted? <==> k == IntKind && v.JDouble?
    ensures e.TypeMismatch? <==> !(k == IntKind && v.JDouble?)
  {
    if k == IntKind && v.JDouble? then DataCorrupted(path) else TypeMismatch(path)
  }

  /** `KeyedDecodingContainer`: the fields of one JSON object, and where in the
      document that object sits. */
  datatype Keyed = Keyed(path: seq<string>, fields: map<string, JValue>)

  /** The value under `key` is missing or null. */
  predicate AbsentOrNull(c: Keyed, key: string) {
    key !in c.fields || c.fields[key].JNull?
  }

  /** `decoder.container(keyedBy:)` on the value at `path`: only an object
      opens. */
  function Open(path: seq<string>, v: JValue): (r: Result<Keyed, DecodeError>)
    ensures r.Success? <==> v.JObject?
    ensures r.Success? ==> r.value == Keyed(path, v.fields)
    ensures r.Failure? ==> r.error.path == path
  {
    match v
    case JObject(fields) => Success(Keyed(path, fields))
    case JNull => Failure(ValueNotFound(path))
    case _ => Failure(TypeMismatch(path))
  }

  /** `try container.decodeIfPresent(T.self, forKey: key)` for a scalar type `T`:
      nil when the key is missing or null, the value when it has type `T`,
      otherwise the error a misread throws. */
  function DecodeIfPresent(c: Keyed, key: string, k: Kind): (r: Result<Option<Scalar>, DecodeError>)
    ensures AbsentOrNull(c, key) ==> r == Success(None)
    ensures !AbsentOrNull(c, key) && HasKind(c.fields[key], k) ==>
              r.Success? && r.value.Some? && FromScalar(r.value.value) == c.fields[key]
    ensures !AbsentOrNull(c, key) && !HasKind(c.fields[key], k) ==>
              r == Failure(MisreadError(c.path + [key], c.fields[key], k))
    ensures r.Success? && r.value.Some? ==> KindOf(r.value.value) == k
  {
    if AbsentOrNull(c, key) then Success(None)
    else
      match ReadAs(c.fields[key], k)
      case Some(v) => Success(Some(v))
      case None => Failure(MisreadError(c.path + [key], c.fields[key], k))
  }

  /** `try container.decode(T.self, forKey: key)` for a scalar type `T`: the key
      must be present, non-null and of type `T`. */
  function Decode(c: Keyed, key: string, k: Kind): (r: Result<Scalar, DecodeError>)
    ensures r.Success? <==> key in c.fields && HasKind(c.fields[key], k)
    ensures r.Success? ==> KindOf(r.value) == k && FromScalar(r.value) == c.fields[key]
    ensures key !in c.fields ==> r == Failure(KeyNotFound(c.path + [key]))
    ensures key in c.fields && c.fields[key].JNull? ==> r == Failure(ValueNotFound(c.path + [key]))
    ensures key in c.fields && !c.fields[key].JNull? && !HasKind(c.fields[key], k) ==>
              r == Failure(MisreadError(c.path + [key], c.fields[key], k))
  {
    if key !in c.fields then Failure(KeyNotFound(c.path + [key]))
    else if c.fields[key].JNull? then Failure(ValueNotFound(c.path + [key]))
    else
      match ReadAs(c.fields[key], k)
      case Some(v) => Success(v)
      case None => Failure(MisreadError(c.path + [key], c.fields[key], k))
  }

  /** `try container.nestedContainer(keyedBy:forKey: key)`: the key must be
      present and hold an object; there is no default. */
  function NestedContainer(c: Keyed, key: string): (r: Result<Keyed, DecodeError>)
    ensures key !in c.fields ==> r == Failure(KeyNotFound(c.path + [key]))
    ensures key in c.fields && !c.fields[key].JObject? ==> r == Failure(TypeMismatch(c.path + [key]))
    ensures key in c.fields && c.fields[key].JObject? ==>
              r == Success(Keyed(c.path + [key], c.fields[key].fields))
  {
    if key !in c.fields then Failure(KeyNotFound(c.path + [key]))
    else
      match c.fields[key]
      case JObject(fields) => Success(Keyed(c.path + [key], fields))
      case _ => Failure(TypeMismatch(c.path + [key]))
  }

  /** The `String`, `Bool` and `Int` read by a typed `decodeIfPresent`. */
  function StringIfPresent(c: Keyed, key: string): Result<Option<string>, DecodeError> {
    var o :- DecodeIfPresent(c, key, StringKind);
    Success(if o.Some? && o.value.StringScalar? then Some(o.value.s) else None)
  }

  function BoolIfPresent(c: Keyed, key: string): Result<Option<bool>, DecodeError> {
    var o :- DecodeIfPresent(c, key, BoolKind);
    Success(if o.Some? && o.value.BoolScalar? then Some(o.value.b) else None)
  }

  function IntIfPresent(c: Keyed, key: string): Result<Option<Int64>, DecodeError> {
    var o :- DecodeIfPresent(c, key, IntKind);
    Success(if o.Some? && o.value.IntScalar? then Some(o.value.i) else None)
  }

  /** The reference reading of one optional field, straight from the object: the
      value under `key` when it is a string, the default otherwise. */
  function TextOr(fields: map<string, JValue>, key: string, default: string): string {
    if key in fields && fields[key].JString? then fields[key].s else default
  }

  function FlagOr(fields: map<string, JValue>, key: string, default: bool): bool {
    if key in fields && fields[key].JBool? then fields[key].b else default
  }

  function NumberOr(fields: map<string, JValue>, key: string, default: Int64): Int64 {
    if key in fields && fields[key].JInt? then fields[key].i else default
  }

  /** An optional field that a strict read accepts: missing, null, or of the
      declared type. */
  predicate Fits(fields: map<string, JValue>, key: string, k: Kind) {
    key !in fields || fields[key].JNull? || HasKind(fields[key], k)
  }

  /** A strict optional read of text fails exactly when the field does not fit,
      with the misread error, and otherwise gives the text or nothing. */
  lemma TextRead(c: Keyed, key: string)
    ensures StringIfPresent(c, key).Success? <==> Fits(c.fields, key, StringKind)
    ensures StringIfPresent(c, key).Success? ==>
              StringIfPresent(c, key).value.GetOr("") == TextOr(c.fields, key, "")
    ensures StringIfPresent(c, key).Failure? ==>
              StringIfPresent(c, key).error == MisreadError(c.path + [key], c.fields[key], StringKind)
  {
  }

  lemma FlagRead(c: Keyed, key: string)
    ensures BoolIfPresent(c, key).Success? <==> Fits(c.fields, key, BoolKind)
    ensures BoolIfPresent(c, key).Success? ==>
              BoolIfPresent(c, key).value.GetOr(false) == FlagOr(c.fields, key, false)
    ensures BoolIfPresent(c, key).Failure? ==>
              BoolIfPresent(c, key).error == MisreadError(c.path + [key], c.fields[key], BoolKind)
  {
  }

  lemma NumberRead(c: Keyed, key: string)
    ensures IntIfPresent(c, key).Success? <==> Fits(c.fields, key, IntKind)
    ensures IntIfPresent(c, key).Success? ==>
              IntIfPresent(c, key).value.GetOr(0) == NumberOr(c.fields, key, 0)
    ensures IntIfPresent(c, key).Failure? ==>
              IntIfPresent(c, key).error == MisreadError(c.path + [key], c.fields[key], IntKind)
  {
  }

  /** Strict optional reads: they fail exactly when the field does not fit, and
      otherwise give the value under the key or nothing. A rejected text or
      flag is a type mismatch; a rejected number is a type mismatch too, except
      a non-integer number, which does not fit in `Int`. */
  lemma StrictReads(c: Keyed, key: string)
    ensures StringIfPresent(c, key).Success? <==> Fits(c.fields, key, StringKind)
    ensures StringIfPresent(c, key).Success? ==>
              StringIfPresent(c, key).value.GetOr("") == TextOr(c.fields, key, "")
    ensures BoolIfPresent(c, key).Success? <==> Fits(c.fields, key, BoolKind)
    ensures BoolIfPresent(c, key).Success? ==>
              BoolIfPresent(c, key).value.GetOr(false) == FlagOr(c.fields, key, false)
    ensures IntIfPresent(c, key).Success? <==> Fits(c.fields, key, IntKind)
    ensures IntIfPresent(c, key).Success? ==>
              IntIfPresent(c, key).value.GetOr(0) == NumberOr(c.fields, key, 0)
    ensures StringIfPresent(c, key).Failure? ==> StringIfPresent(c, key).error == TypeMismatch(c.path + [key])
    ensures BoolIfPresent(c, key).Failure? ==> BoolIfPresent(c, key).error == TypeMismatch(c.path + [key])
    ensures IntIfPresent(c, key).Failure? ==>
              IntIfPresent(c, key).error ==
                (if c.fields[key].JDouble? then DataCorrupted(c.path + [key]) else TypeMismatch(c.path + [key]))
  {
    TextRead(c, key);
    FlagRead(c, key);
    NumberRead(c, key);
  }
}
