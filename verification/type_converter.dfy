/** `TypeConverter` and `String.boolValue()` of the custom-handling page: the
    scalar coercion matrix between Int, Double, Bool and String. */
module TypeConverter {
  import opened Wrappers
  import opened Json
  import opened Ascii
  import opened Decimal

  /** The floating-point operations the converter calls in Swift's standard
      library and Foundation. The model leaves them uninterpreted. */
  datatype FloatOps = FloatOps(
    describe: Double -> string,        // String(Double)
    parse: string -> Option<Double>,   // Double(String)
    widen: Int64 -> Double,            // Double(Int)
    truncate: Double -> Int64,         // Int(Double)
    isNonzero: Double -> bool)         // NSNumber(floatLiteral:).boolValue

  /** The type a conversion is asked to produce: one of the four scalar types,
      or any other `Decodable` type (a range, a nested record, ...). */
  datatype Target = ScalarType(kind: Kind) | OtherType

  const TrueWords: seq<string> := ["1", "yes", "true"]
  const FalseWords: seq<string> := ["0", "no", "false"]

  /** `words.contains(where: { $0.caseInsensitiveCompare(s) == .orderedSame })`. */
  predicate MatchesAny(words: seq<string>, s: string) {
    exists i :: 0 <= i < |words| && SameIgnoringCase(words[i], s)
  }

  /** `String.boolValue()`: true for the true-words, false for the false-words,
      compared without regard to case, nil for every other string. */
  function BoolValue(s: string): (r: Option<bool>)
    ensures r == Some(true) <==> Lower(s) == "1" || Lower(s) == "yes" || Lower(s) == "true"
    ensures r == Some(false) <==> Lower(s) == "0" || Lower(s) == "no" || Lower(s) == "false"
  {
    MatchesLowerCaseWords(TrueWords, s);
    MatchesLowerCaseWords(FalseWords, s);
    if MatchesAny(TrueWords, s) then Some(true)
    else if MatchesAny(FalseWords, s) then Some(false)
    else None
  }

  /** Against a list of lower-case words, a case-insensitive match is a match
      of the lower-cased string. */
  lemma MatchesLowerCaseWords(words: seq<string>, s: string)
    requires forall i :: 0 <= i < |words| ==> Lower(words[i]) == words[i]
    ensures MatchesAny(words, s) <==> Lower(s) in words
  {
    if Lower(s) in words {
      var i :| 0 <= i < |words| && words[i] == Lower(s);
      LowerIdempotent(s);
      assert SameIgnoringCase(words[i], s);
    }
  }

  /** No string is both a true-word and a false-word, so the order in which
      the two lists are consulted does not matter. */
  lemma WordListsDisjoint(s: string)
    ensures !(MatchesAny(TrueWords, s) && MatchesAny(FalseWords, s))
  {
    assert forall w :: w in TrueWords + FalseWords ==> Lower(w) == w;
  }

  lemma BoolValueExamples()
    ensures BoolValue("YES") == Some(true)
    ensures BoolValue("True") == Some(true)
    ensures BoolValue("0") == Some(false)
    ensures BoolValue("No") == Some(false)
    ensures BoolValue("2") == None
    ensures BoolValue("") == None
  {
    assert Lower("YES") == "yes";
    assert Lower("True") == "true";
    assert Lower("No") == "no";
    assert Lower("0") == "0";
    assert Lower("2") == "2";
  }

  /** `String(b)`. */
  function BoolText(b: bool): string {
    if b then "true" else "false"
  }

  /** `TypeConverter.string(from:)`. */
  function StringFrom(ops: FloatOps, v: Scalar): (r: Option<string>)
    ensures r.Some?
    ensures v.StringScalar? ==> r.value == v.s
    ensures v.IntScalar? ==> r.value == FormatInt(v.i)
    ensures v.BoolScalar? ==> r.value == BoolText(v.b)
    ensures v.IntScalar? ==> ParseInt(r.value) == Some(v.i)
    ensures v.BoolScalar? ==> BoolValue(r.value) == Some(v.b)
    ensures v.DoubleScalar? ==> r.value == ops.describe(v.d)
  {
    match v
    case IntScalar(n) => ParseFormat(n); Some(FormatInt(n))
    case DoubleScalar(d) => Some(ops.describe(d))
    case BoolScalar(b) => assert Lower(BoolText(b)) == BoolText(b); Some(BoolText(b))
    case StringScalar(s) => Some(s)
  }

  /** `TypeConverter.double(from:)`: a Bool is never converted to a Double. */
  function DoubleFrom(ops: FloatOps, v: Scalar): (r: Option<Double>)
    ensures r.None? <==> v.BoolScalar? || (v.StringScalar? && ops.parse(v.s).None?)
    ensures v.DoubleScalar? ==> r == Some(v.d)
    ensures v.IntScalar? ==> r == Some(ops.widen(v.i))
    ensures v.StringScalar? ==> r == ops.parse(v.s)
  {
    match v
    case IntScalar(n) => Some(ops.widen(n))
    case DoubleScalar(d) => Some(d)
    case StringScalar(s) => ops.parse(s)
    case BoolScalar(_) => None
  }

  /** `TypeConverter.int(from:)`. */
  function IntFrom(ops: FloatOps, v: Scalar): (r: Option<Int64>)
    ensures r.None? <==> v.StringScalar? && ParseInt(v.s).None?
    ensures v.IntScalar? ==> r == Some(v.i)
    ensures v.BoolScalar? ==> r.Some? && (r.value == 1 <==> v.b) && (r.value == 0 <==> !v.b)
    ensures v.StringScalar? ==> r == ParseInt(v.s)
    ensures v.DoubleScalar? ==> r == Some(ops.truncate(v.d))
  {
    match v
    case IntScalar(n) => Some(n)
    case DoubleScalar(d) => Some(ops.truncate(d))
    case BoolScalar(b) => Some(if b then 1 else 0)
    case StringScalar(s) => ParseInt(s)
  }

  /** `TypeConverter.bool(from:)`: a number is true exactly when it is nonzero. */
  function BoolFrom(ops: FloatOps, v: Scalar): (r: Option<bool>)
    ensures r.None? <==> v.StringScalar? && BoolValue(v.s).None?
    ensures v.IntScalar? ==> r == Some(v.i != 0)
    ensures v.DoubleScalar? ==> r == Some(ops.isNonzero(v.d))
    ensures v.BoolScalar? ==> r == Some(v.b)
    ensures v.StringScalar? ==> r == BoolValue(v.s)
  {
    match v
    case IntScalar(n) => Some(n != 0)
    case DoubleScalar(d) => Some(ops.isNonzero(d))
    case BoolScalar(b) => Some(b)
    case StringScalar(s) => BoolValue(s)
  }

  /** `TypeConverter.convert(_:from:)`: dispatch on the requested type. A result
      always has the requested type; converting to a value's own type returns
      it unchanged; a type outside the four scalars gives nil. */
  function Convert(ops: FloatOps, t: Target, v: Scalar): (r: Option<Scalar>)
    ensures r.Some? ==> t.ScalarType? && KindOf(r.value) == t.kind
    ensures t.OtherType? ==> r.None?
    ensures t == ScalarType(KindOf(v)) ==> r == Some(v)
    ensures t == ScalarType(DoubleKind) && v.BoolScalar? ==> r.None?
    ensures t == ScalarType(StringKind) ==> r.Some?
  {
    match t
    case OtherType => None
    case ScalarType(StringKind) =>
      Some(StringScalar(StringFrom(ops, v).value))
    case ScalarType(DoubleKind) =>
      var d :- DoubleFrom(ops, v); Some(DoubleScalar(d))
    case ScalarType(IntKind) =>
      var n :- IntFrom(ops, v); Some(IntScalar(n))
    case ScalarType(BoolKind) =>
      var b :- BoolFrom(ops, v); Some(BoolScalar(b))
  }

  /** Int -> String -> Int gives the integer back. */
  lemma IntStringRoundTrip(ops: FloatOps, n: Int64)
    ensures Convert(ops, ScalarType(StringKind), IntScalar(n)).Some?
    ensures Convert(ops, ScalarType(IntKind), Convert(ops, ScalarType(StringKind), IntScalar(n)).value)
         == Some(IntScalar(n))
  {
  }

  /** Bool -> Int gives 1 or 0, Int -> Bool is "nonzero", so Bool -> Int -> Bool
      gives the boolean back. */
  lemma BoolIntRoundTrip(ops: FloatOps, b: bool)
    ensures Convert(ops, ScalarType(IntKind), BoolScalar(b)) == Some(IntScalar(if b then 1 else 0))
    ensures Convert(ops, ScalarType(BoolKind), Convert(ops, ScalarType(IntKind), BoolScalar(b)).value)
         == Some(BoolScalar(b))
  {
  }

  /** Bool -> String gives "true" or "false", which `bool(from:)` reads back. */
  lemma BoolStringRoundTrip(ops: FloatOps, b: bool)
    ensures Convert(ops, ScalarType(StringKind), BoolScalar(b)) == Some(StringScalar(if b then "true" else "false"))
    ensures Convert(ops, ScalarType(BoolKind), Convert(ops, ScalarType(StringKind), BoolScalar(b)).value)
         == Some(BoolScalar(b))
  {
  }

  /** The decimal text of an integer has no letters and ends in a digit. */
  lemma NumeralShape(n: Int64)
    ensures Lower(FormatInt(n)) == FormatInt(n)
    ensures IsDigit(FormatInt(n)[|FormatInt(n)| - 1])
  {
    var s := FormatInt(n);
    assert IsDigit(s[|s| - 1]) by {
      if n < 0 { assert s[|s| - 1] == s[1..][|s| - 2]; }
    }
    forall i | 0 <= i < |s| ensures LowerChar(s[i]) == s[i] {
      if n < 0 && i > 0 { assert s[i] == s[1..][i - 1]; }
    }
  }

  /** The decimal text of an integer is a Bool word only for 0 and 1. */
  lemma IntegerTextAsFlag(n: Int64)
    ensures BoolValue(FormatInt(n)) == if n == 0 then Some(false) else if n == 1 then Some(true) else None
  {
    var s := FormatInt(n);
    NumeralShape(n);
    assert s != "yes" && s != "true" && s != "no" && s != "false" by {
      assert !IsDigit('s') && !IsDigit('e') && !IsDigit('o');
    }
    if s == "1" {
      assert ValueOf("1") == 1;
    }
  }

  /** A number and its decimal text convert to the same Bool exactly for 0
      and 1: every other integer is true as a number but no Bool word as text. */
  lemma NumberAndTextAsFlag(ops: FloatOps, n: Int64)
    ensures BoolFrom(ops, IntScalar(n)) == BoolFrom(ops, StringScalar(FormatInt(n))) <==> n == 0 || n == 1
  {
    IntegerTextAsFlag(n);
  }

  /** A number and its decimal text convert to the same Int. */
  lemma NumberAndTextAsInt(ops: FloatOps, n: Int64)
    ensures IntFrom(ops, StringScalar(FormatInt(n))) == IntFrom(ops, IntScalar(n)) == Some(n)
  {
    ParseFormat(n);
  }

  /** Conversion is not transitive: Bool -> Int gives 1 or 0, but Bool ->
      String gives "true" or "false", which is not an integer. Likewise a Bool
      is refused as a Double yet reaches one through Int. */
  lemma ConversionNotTransitive(ops: FloatOps, b: bool)
    ensures Convert(ops, ScalarType(IntKind), BoolScalar(b)).Some?
    ensures Convert(ops, ScalarType(IntKind), Convert(ops, ScalarType(StringKind), BoolScalar(b)).value) == None
    ensures Convert(ops, ScalarType(DoubleKind), BoolScalar(b)) == None
    ensures Convert(ops, ScalarType(DoubleKind), Convert(ops, ScalarType(IntKind), BoolScalar(b)).value)
         == Some(DoubleScalar(ops.widen(if b then 1 else 0)))
  {
    assert !IsDigit('t') && !IsDigit('f');
  }

  /** Int -> Bool: nonzero is true, zero is false. */
  lemma IntToBool(ops: FloatOps, n: Int64)
    ensures Convert(ops, ScalarType(BoolKind), IntScalar(n)) == Some(BoolScalar(n != 0))
  {
  }

  /** A string that is not an integer literal does not convert to Int. */
  lemma NonNumericStringToInt(ops: FloatOps)
    ensures Convert(ops, ScalarType(IntKind), StringScalar("abc")) == None
    ensures Convert(ops, ScalarType(StringKind), IntScalar(2019)) == Some(StringScalar("2019"))
  {
    NotANumber();
    assert Digits(2019) == "2019" by {
      assert Digits(2) == "2";
      assert Digits(20) == "20";
      assert Digits(201) == "201";
    }
  }
}
