/** The custom-handling page: a lenient `decodeIfPresent(_:)` that never throws,
    converting a value of the wrong scalar type through `TypeConverter`, and a
    `Movie` whose every property falls back to a fixed default. */
module CustomHandling {
  import opened Wrappers
  import opened Json
  import opened Container
  import opened Decimal
  import opened TypeConverter

  /** The `KeyedDecodingContainer.decodeIfPresent(_:)` extension, for a scalar
      type `k`. An exact read is returned as it is. On a type mismatch the raw
      value is read as Int, then Double, then Bool, then String, and the first
      read that succeeds is converted to `k`. Every other error, and a failed
      conversion, gives nil; in particular a number that is not an integer,
      read as an Int, is corrupted data rather than a type mismatch, so it is
      never converted. */
  function LenientDecodeIfPresent(ops: FloatOps, c: Keyed, key: string, k: Kind): (r: Option<Scalar>)
    ensures r.Some? ==> KindOf(r.value) == k
    ensures AbsentOrNull(c, key) ==> r.None?
    ensures !AbsentOrNull(c, key) && HasKind(c.fields[key], k) ==> r == ScalarOf(c.fields[key])
    ensures key in c.fields && k == IntKind && c.fields[key].JDouble? ==> r.None?
    ensures !AbsentOrNull(c, key) && !HasKind(c.fields[key], k) && ScalarOf(c.fields[key]).Some? &&
            !(k == IntKind && c.fields[key].JDouble?) ==>
              r == Convert(ops, ScalarType(k), ScalarOf(c.fields[key]).value)
    ensures key in c.fields && ScalarOf(c.fields[key]).None? ==> r.None?
  {
    match DecodeIfPresent(c, key, k)
    case Success(exact) => exact
    case Failure(TypeMismatch(_)) =>
      var asInt := Decode(c, key, IntKind);
      if asInt.Success? then Convert(ops, ScalarType(k), asInt.value)
      else
        var asDouble := Decode(c, key, DoubleKind);
        if asDouble.Success? then Convert(ops, ScalarType(k), asDouble.value)
        else
          var asBool := Decode(c, key, BoolKind);
          if asBool.Success? then Convert(ops, ScalarType(k), asBool.value)
          else
            var asString := Decode(c, key, StringKind);
            if asString.Success? then Convert(ops, ScalarType(k), asString.value)
            else None
    case Failure(_) => None
  }

  /** `?? default` on a lenient read of a `String`, `Bool` or `Int`. */
  function TextValue(o: Option<Scalar>, default: string): string {
    if o.Some? && o.value.StringScalar? then o.value.s else default
  }

  function FlagValue(o: Option<Scalar>, default: bool): bool {
    if o.Some? && o.value.BoolScalar? then o.value.b else default
  }

  function NumberValue(o: Option<Scalar>, default: Int64): Int64 {
    if o.Some? && o.value.IntScalar? then o.value.i else default
  }

  /** `ClosedRange<Int>`. */
  datatype PriceRange = PriceRange(lower: Int64, upper: Int64)

  const DefaultTicketPrice := PriceRange(100, 150)

  datatype Movie = Movie(
    name: string, country: string, director: string, released: bool, duration: Int64, ticketPrice: PriceRange)

  /** The ticket price is read with the standard library's strict
      `decodeIfPresent(ClosedRange.self, ...)` under `try!`, which traps when
      that read throws; `decodeRange` stands for the library's decoding of a
      present value, nil meaning it throws. */
  predicate TicketPriceDecodes(decodeRange: JValue -> Option<PriceRange>, root: JValue) {
    root.JObject? && "ticketPrice" in root.fields && !root.fields["ticketPrice"].JNull? ==>
      decodeRange(root.fields["ticketPrice"]).Some?
  }

  /** `Movie.init(from:)`. Only a document that is not an object fails; every
      property of an object is read leniently and falls back to "", false or 0,
      and an absent or null ticket price to 100...150. */
  function DecodeMovie(ops: FloatOps, decodeRange: JValue -> Option<PriceRange>, root: JValue): (r: Result<Movie, DecodeError>)
    requires TicketPriceDecodes(decodeRange, root)
    ensures r.Success? <==> root.JObject?
    ensures r.Failure? ==> r.error.path == []
    ensures r.Success? && AbsentOrNull(Keyed([], root.fields), "ticketPrice") ==>
              r.value.ticketPrice == DefaultTicketPrice
    ensures r.Success? && !AbsentOrNull(Keyed([], root.fields), "ticketPrice") ==>
              Some(r.value.ticketPrice) == decodeRange(root.fields["ticketPrice"])
  {
    var c :- Open([], root);
    var name := TextValue(LenientDecodeIfPresent(ops, c, "name", StringKind), "");
    var country := TextValue(LenientDecodeIfPresent(ops, c, "country", StringKind), "");
    var director := TextValue(LenientDecodeIfPresent(ops, c, "director", StringKind), "");
    var released := FlagValue(LenientDecodeIfPresent(ops, c, "released", BoolKind), false);
    var duration := NumberValue(LenientDecodeIfPresent(ops, c, "duration", IntKind), 0);
    var ticketPrice :=
      if AbsentOrNull(c, "ticketPrice") then DefaultTicketPrice
      else decodeRange(c.fields["ticketPrice"]).value;
    Success(Movie(name, country, director, released, duration, ticketPrice))
  }

  /** A property whose value has its declared type, or is missing or null, is
      read exactly as a strict read would read it: the value, or the default. */
  lemma FittingValuesKept(ops: FloatOps, decodeRange: JValue -> Option<PriceRange>, obj: map<string, JValue>)
    requires TicketPriceDecodes(decodeRange, JObject(obj))
    ensures DecodeMovie(ops, decodeRange, JObject(obj)).Success?
    ensures Fits(obj, "name", StringKind) ==>
              DecodeMovie(ops, decodeRange, JObject(obj)).value.name == TextOr(obj, "name", "")
    ensures Fits(obj, "country", StringKind) ==>
              DecodeMovie(ops, decodeRange, JObject(obj)).value.country == TextOr(obj, "country", "")
    ensures Fits(obj, "director", StringKind) ==>
              DecodeMovie(ops, decodeRange, JObject(obj)).value.director == TextOr(obj, "director", "")
    ensures Fits(obj, "released", BoolKind) ==>
              DecodeMovie(ops, decodeRange, JObject(obj)).value.released == FlagOr(obj, "released", false)
    ensures Fits(obj, "duration", IntKind) ==>
              DecodeMovie(ops, decodeRange, JObject(obj)).value.duration == NumberOr(obj, "duration", 0)
  {
  }

  /** An empty object decodes to the defaults. */
  lemma EmptyObjectDefaults(ops: FloatOps, decodeRange: JValue -> Option<PriceRange>)
    ensures DecodeMovie(ops, decodeRange, JObject(map[])) == Success(Movie("", "", "", false, 0, PriceRange(100, 150)))
  {
  }

  /** A duration given as text is parsed as an integer; text that is not one
      gives the default 0 instead of an error. */
  lemma DurationFromText(ops: FloatOps, decodeRange: JValue -> Option<PriceRange>, obj: map<string, JValue>, s: string)
    requires TicketPriceDecodes(decodeRange, JObject(obj))
    requires "duration" in obj && obj["duration"] == JString(s)
    ensures DecodeMovie(ops, decodeRange, JObject(obj)).value.duration == ParseInt(s).GetOr(0)
  {
  }

  /** In particular a duration written as the text of an integer reads as that
      integer. */
  lemma DurationFromIntegerText(ops: FloatOps, decodeRange: JValue -> Option<PriceRange>, obj: map<string, JValue>, n: Int64)
    requires TicketPriceDecodes(decodeRange, JObject(obj))
    requires "duration" in obj && obj["duration"] == JString(FormatInt(n))
    ensures DecodeMovie(ops, decodeRange, JObject(obj)).value.duration == n
  {
    ParseFormat(n);
    DurationFromText(ops, decodeRange, obj, FormatInt(n));
  }

  /** A duration given as a Bool reads as 1 or 0. */
  lemma DurationFromFlag(ops: FloatOps, decodeRange: JValue -> Option<PriceRange>, obj: map<string, JValue>, b: bool)
    requires TicketPriceDecodes(decodeRange, JObject(obj))
    requires "duration" in obj && obj["duration"] == JBool(b)
    ensures DecodeMovie(ops, decodeRange, JObject(obj)).value.duration == if b then 1 else 0
  {
  }

  /** A release status given as a number is true exactly when it is nonzero. */
  lemma ReleasedFromNumber(ops: FloatOps, decodeRange: JValue -> Option<PriceRange>, obj: map<string, JValue>, n: Int64)
    requires TicketPriceDecodes(decodeRange, JObject(obj))
    requires "released" in obj && obj["released"] == JInt(n)
    ensures DecodeMovie(ops, decodeRange, JObject(obj)).value.released == (n != 0)
  {
  }

  /** A release status given as text is true exactly for "1", "yes" or "true"
      in any case; "0", "no", "false" and every unrecognised word give false. */
  lemma ReleasedFromText(ops: FloatOps, decodeRange: JValue -> Option<PriceRange>, obj: map<string, JValue>, s: string)
    requires TicketPriceDecodes(decodeRange, JObject(obj))
    requires "released" in obj && obj["released"] == JString(s)
    ensures DecodeMovie(ops, decodeRange, JObject(obj)).value.released == (BoolValue(s) == Some(true))
  {
  }

  /** A String property given as another scalar reads as that scalar's text:
      an integer as its decimal text, any other number as the description of
      that Double, a Bool as "true" or "false". */
  lemma TextFromScalar(ops: FloatOps, c: Keyed, key: string)
    requires key in c.fields
    ensures c.fields[key].JInt? ==>
              TextValue(LenientDecodeIfPresent(ops, c, key, StringKind), "") == FormatInt(c.fields[key].i)
    ensures c.fields[key].JDouble? ==>
              TextValue(LenientDecodeIfPresent(ops, c, key, StringKind), "") == ops.describe(c.fields[key].d)
    ensures c.fields[key].JBool? ==>
              TextValue(LenientDecodeIfPresent(ops, c, key, StringKind), "") == BoolText(c.fields[key].b)
  {
  }

  /** The name, country and director each read a non-text scalar as its text. */
  lemma TextFieldsFromScalar(ops: FloatOps, decodeRange: JValue -> Option<PriceRange>, obj: map<string, JValue>)
    requires TicketPriceDecodes(decodeRange, JObject(obj))
    ensures "name" in obj && obj["name"].JInt? ==>
              DecodeMovie(ops, decodeRange, JObject(obj)).value.name == FormatInt(obj["name"].i)
    ensures "name" in obj && obj["name"].JDouble? ==>
              DecodeMovie(ops, decodeRange, JObject(obj)).value.name == ops.describe(obj["name"].d)
    ensures "name" in obj && obj["name"].JBool? ==>
              DecodeMovie(ops, decodeRange, JObject(obj)).value.name == BoolText(obj["name"].b)
    ensures "country" in obj && obj["country"].JInt? ==>
              DecodeMovie(ops, decodeRange, JObject(obj)).value.country == FormatInt(obj["country"].i)
    ensures "country" in obj && obj["country"].JDouble? ==>
              DecodeMovie(ops, decodeRange, JObject(obj)).value.country == ops.describe(obj["country"].d)
    ensures "country" in obj && obj["country"].JBool? ==>
              DecodeMovie(ops, decodeRange, JObject(obj)).value.country == BoolText(obj["country"].b)
    ensures "director" in obj && obj["director"].JInt? ==>
              DecodeMovie(ops, decodeRange, JObject(obj)).value.director == FormatInt(obj["director"].i)
    ensures "director" in obj && obj["director"].JDouble? ==>
              DecodeMovie(ops, decodeRange, JObject(obj)).value.director == ops.describe(obj["director"].d)
    ensures "director" in obj && obj["director"].JBool? ==>
              DecodeMovie(ops, decodeRange, JObject(obj)).value.director == BoolText(obj["director"].b)
  {
    var c := Keyed([], obj);
    if "name" in obj { TextFromScalar(ops, c, "name"); }
    if "country" in obj { TextFromScalar(ops, c, "country"); }
    if "director" in obj { TextFromScalar(ops, c, "director"); }
  }

  /** A duration that is a number but not an integer is corrupted data for
      the Int read, which the lenient read swallows: the duration is 0, not
      the number truncated. A release status given as such a number is true
      exactly when it is nonzero. */
  lemma FractionalNumbers(ops: FloatOps, decodeRange: JValue -> Option<PriceRange>, obj: map<string, JValue>)
    requires TicketPriceDecodes(decodeRange, JObject(obj))
    ensures "duration" in obj && obj["duration"].JDouble? ==>
              DecodeMovie(ops, decodeRange, JObject(obj)).value.duration == 0
    ensures "released" in obj && obj["released"].JDouble? ==>
              DecodeMovie(ops, decodeRange, JObject(obj)).value.released == ops.isNonzero(obj["released"].d)
  {
  }

  /** An integer read where a Double is expected is converted by widening, the
      value a strict Double read of an integral number gives. */
  lemma IntegerWidened(ops: FloatOps, c: Keyed, key: string, n: Int64)
    requires key in c.fields && c.fields[key] == JInt(n)
    ensures LenientDecodeIfPresent(ops, c, key, DoubleKind) == Some(DoubleScalar(ops.widen(n)))
  {
  }

  /** An array or object where a scalar is expected is swallowed: the property
      takes its default. */
  lemma CompositeValuesDefault(ops: FloatOps, decodeRange: JValue -> Option<PriceRange>, obj: map<string, JValue>)
    requires TicketPriceDecodes(decodeRange, JObject(obj))
    ensures "duration" in obj && (obj["duration"].JArray? || obj["duration"].JObject?) ==>
              DecodeMovie(ops, decodeRange, JObject(obj)).value.duration == 0
    ensures "released" in obj && (obj["released"].JArray? || obj["released"].JObject?) ==>
              DecodeMovie(ops, decodeRange, JObject(obj)).value.released == false
    ensures "name" in obj && (obj["name"].JArray? || obj["name"].JObject?) ==>
              DecodeMovie(ops, decodeRange, JObject(obj)).value.name == ""
    ensures "country" in obj && (obj["country"].JArray? || obj["country"].JObject?) ==>
              DecodeMovie(ops, decodeRange, JObject(obj)).value.country == ""
    ensures "director" in obj && (obj["director"].JArray? || obj["director"].JObject?) ==>
              DecodeMovie(ops, decodeRange, JObject(obj)).value.director == ""
  {
  }

  /** The page's sample document, whatever the range decoder makes of
      [250, 500]. */
  lemma SampleDecodes(ops: FloatOps, decodeRange: JValue -> Option<PriceRange>, price: PriceRange)
    requires decodeRange(JArray([JInt(250), JInt(500)])) == Some(price)
    ensures TicketPriceDecodes(decodeRange, Sample)
    ensures DecodeMovie(ops, decodeRange, Sample) == Success(Movie("Roma", "Mexico", "Alfonso Cuarón", true, 135, price))
  {
  }

  const Sample := JObject(map[
    "name" := JString("Roma"),
    "country" := JString("Mexico"),
    "director" := JString("Alfonso Cuarón"),
    "released" := JBool(true),
    "duration" := JInt(135),
    "ticketPrice" := JArray([JInt(250), JInt(500)])])
}
