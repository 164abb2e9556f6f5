# Codable playground, modelled in Dafny

A Dafny model of the decoding logic in four pages of a Swift playground about
`Codable`, with proofs about it.

- **Custom key decoding strategy** (page 01). `convertFromKebabCase` rewrites
  the last key of a coding path from kebab case to camel case. An example is
  `released-status` becoming `releasedStatus`. The model is in `KebabCase`,
  with the ASCII case mapping it needs in `Ascii`.
- **Coding-key conformance** (page 02). A `CodingKeys` enum whose raw values
  are aliases (`ctryName`, `dirName`). `Movie.init(from:)` reads each property
  with `try decodeIfPresent(...) ?? default`. It also decodes a nested
  `Artists` value. The model is in `MovieFields` and `CodingKeyConformance`.
- **Nested container** (page 02). The same document is flattened into one
  `Movie` through `nestedContainer(keyedBy:forKey:)`. The model is in
  `NestedContainer`.
- **Custom handling** (page 03). A lenient `decodeIfPresent(_:)` never throws.
  It converts a value of the wrong scalar type through `TypeConverter`, using
  `String.boolValue()` for text. `Movie.init(from:)` gives every property a
  default. The model is in `TypeConverter`, `Decimal` (`Int(String)` and
  `String(Int)`) and `CustomHandling`.

Some library behaviour the pages rely on is modelled in its own modules:

- `Container` models the standard JSON decoder's keyed container:
  `container(keyedBy:)`, `decode`, `decodeIfPresent` and `nestedContainer`.
  - A missing or null key reads as nil.
  - A number that is not an integer, read as an `Int`, is corrupted data at
    the coding path.
  - Any other value of another type is a type mismatch at the coding path.
  - A missing nested container is a key-not-found error.
- `Json` models decoded JSON values. Each raw value has one kind: integer,
  floating point, Bool, string, array, object or null. Integers are 64-bit.
- `Wrappers` holds `Option` and `Result`.

Behaviour of the code worth knowing:

- `TypeConverter.bool(from:)` converts a Double through `NSNumber.boolValue`.
  Only `double(from:)` refuses a Bool.
- `convertFromKebabCase` traps on a key that is empty or all hyphens, because
  `components[0]` does not exist. The model requires a key with a non-hyphen
  character.
- On both page-02 variants a value of the wrong type is not defaulted. The
  strict `try decodeIfPresent` throws, and the whole decode fails.
- On the nested-container page a missing `artists` object is an error
  (`nestedContainer` throws). It is not defaulted.
- On page 03 the lenient read swallows every error, but decoding can still
  fail in two ways. A document that is not an object fails in
  `container(keyedBy:)`. A ticket price that cannot be decoded traps in
  `try!`; the model states this as a precondition, `TicketPriceDecodes`.
  Every other property of an object falls back to its default.

## Model

| member | source | states |
|---|---|---|
| Container.Open | Codable.playground/Pages/02_CodingKeyConformance.xcplaygroundpage/Contents.swift:86 | opening a keyed container succeeds exactly on a JSON object, and otherwise fails at the coding path it was asked for |
| Container.DecodeIfPresent | Codable.playground/Pages/02_CodingKeyConformance.xcplaygroundpage/Contents.swift:87 | a strict optional read gives nil for a missing or null key and the value when it has the asked type; otherwise it fails at path+[key], with corrupted data for a non-integer number read as Int and a type mismatch for every other misfit |
| Container.Decode | Codable.playground/Pages/03_CustomHandling.xcplaygroundpage/Contents.swift:36-43 | a strict required read succeeds exactly when the key is present with the asked type and returns that value; a missing key is key-not-found, null is value-not-found, and a misfit is corrupted data or a type mismatch as for the optional read |
| Container.NestedContainer | Codable.playground/Pages/02_NestedContainer.xcplaygroundpage/Contents.swift:76 | a nested container fails with key-not-found for a missing key, with a type mismatch for a non-object (null included), and otherwise opens the object at path+[key] |
| Container.StrictReads | Codable.playground/Pages/02_CodingKeyConformance.xcplaygroundpage/Contents.swift:87-91 | `try decodeIfPresent(...) ?? default` for String, Bool and Int succeeds exactly when the value is missing, null or of the declared type, and gives the value or the default; otherwise it fails at path+[key], for Int with corrupted data when the value is a non-integer number and a type mismatch else, for String and Bool with a type mismatch |
| Container.NumberRead | Codable.playground/Pages/02_CodingKeyConformance.xcplaygroundpage/Contents.swift:91 | `try decodeIfPresent(Int.self, ...) ?? 0` succeeds exactly when the duration fits, gives its value or 0, and otherwise fails with the misread error of an Int read |
| Decimal.FormatInt | Codable.playground/Pages/03_CustomHandling.xcplaygroundpage/Contents.swift:96-97 | `String(Int)` is canonical decimal text whose digits denote the integer: a minus sign exactly for a negative number, and no leading zero except in "0" |
| Decimal.ParseInt | Codable.playground/Pages/03_CustomHandling.xcplaygroundpage/Contents.swift:156-158 | `Int(String)` accepts text exactly when, after one optional `+` or `-`, it is a non-empty run of digits (leading zeros allowed) whose signed value fits in 64 bits, and then gives that signed value |
| Decimal.ParseFormat | Codable.playground/Pages/03_CustomHandling.xcplaygroundpage/Contents.swift:96-158 | every 64-bit integer printed as text parses back to itself |
| Decimal.NotANumber | Codable.playground/Pages/03_CustomHandling.xcplaygroundpage/Contents.swift:156-158 | "abc", "" and "-" are not integers; "2019" and "-7" are |
| Decimal.SignAndLeadingZeros | Codable.playground/Pages/03_CustomHandling.xcplaygroundpage/Contents.swift:156-158 | "+135" parses to 135 and "007" to 7, while "+-1" is rejected |
| TypeConverter.BoolValue | Codable.playground/Pages/03_CustomHandling.xcplaygroundpage/Contents.swift:201-210 | a string is true exactly when it equals "1", "yes" or "true" ignoring case, false exactly for "0", "no" or "false", and nil otherwise |
| TypeConverter.MatchesLowerCaseWords | Codable.playground/Pages/03_CustomHandling.xcplaygroundpage/Contents.swift:204-206 | a case-insensitive match against lower-case words is membership of the lower-cased string |
| TypeConverter.WordListsDisjoint | Codable.playground/Pages/03_CustomHandling.xcplaygroundpage/Contents.swift:202-208 | no string matches both word lists, so the order of the two checks cannot change a result |
| TypeConverter.BoolValueExamples | Codable.playground/Pages/03_CustomHandling.xcplaygroundpage/Contents.swift:197-199 | "YES" and "True" are true, "0" and "No" are false, "2" and "" are nil |
| TypeConverter.StringFrom | Codable.playground/Pages/03_CustomHandling.xcplaygroundpage/Contents.swift:92-109 | every scalar converts to text: an Int to its canonical decimal text, which parses back to it; a Bool to "true" or "false", which `boolValue()` reads back; a Double to its description; a String unchanged |
| TypeConverter.DoubleFrom | Codable.playground/Pages/03_CustomHandling.xcplaygroundpage/Contents.swift:120-135 | conversion to Double fails exactly for a Bool and for text that `Double(String)` rejects; an Int widens and a Double is unchanged |
| TypeConverter.IntFrom | Codable.playground/Pages/03_CustomHandling.xcplaygroundpage/Contents.swift:145-162 | conversion to Int fails exactly for text that is not a 64-bit decimal integer; a Bool gives 1 or 0, a Double is truncated, an Int is unchanged |
| TypeConverter.BoolFrom | Codable.playground/Pages/03_CustomHandling.xcplaygroundpage/Contents.swift:172-189 | conversion to Bool fails exactly for text that `boolValue()` does not recognise; a number is true exactly when nonzero |
| TypeConverter.Convert | Codable.playground/Pages/03_CustomHandling.xcplaygroundpage/Contents.swift:66-82 | a result always has the requested type; a non-scalar target gives nil; converting to a value's own type returns it unchanged; conversion to String always succeeds; Bool to Double never does |
| TypeConverter.IntStringRoundTrip | Codable.playground/Pages/03_CustomHandling.xcplaygroundpage/Contents.swift:92-162 | Int to String to Int gives back the integer |
| TypeConverter.BoolIntRoundTrip | Codable.playground/Pages/03_CustomHandling.xcplaygroundpage/Contents.swift:145-189 | Bool to Int gives 1 or 0 and back to Bool gives the boolean |
| TypeConverter.BoolStringRoundTrip | Codable.playground/Pages/03_CustomHandling.xcplaygroundpage/Contents.swift:92-189 | Bool to String gives "true" or "false" and back to Bool gives the boolean |
| TypeConverter.IntToBool | Codable.playground/Pages/03_CustomHandling.xcplaygroundpage/Contents.swift:175-177 | Int to Bool is true exactly for nonzero integers |
| TypeConverter.NonNumericStringToInt | Codable.playground/Pages/03_CustomHandling.xcplaygroundpage/Contents.swift:89-158 | "abc" does not convert to Int and 2019 converts to "2019" |
| TypeConverter.IntegerTextAsFlag | Codable.playground/Pages/03_CustomHandling.xcplaygroundpage/Contents.swift:183-185 | the decimal text of an integer is a Bool word only for 0 (false) and 1 (true) |
| TypeConverter.NumberAndTextAsFlag | Codable.playground/Pages/03_CustomHandling.xcplaygroundpage/Contents.swift:175-185 | an integer and its decimal text convert to the same Bool exactly when the integer is 0 or 1 |
| TypeConverter.NumberAndTextAsInt | Codable.playground/Pages/03_CustomHandling.xcplaygroundpage/Contents.swift:148-158 | an integer and its decimal text convert to the same Int, the integer itself |
| TypeConverter.ConversionNotTransitive | Codable.playground/Pages/03_CustomHandling.xcplaygroundpage/Contents.swift:120-158 | Bool to Int succeeds but Bool to String to Int fails; Bool to Double fails but Bool to Int to Double succeeds |
| CustomHandling.LenientDecodeIfPresent | Codable.playground/Pages/03_CustomHandling.xcplaygroundpage/Contents.swift:28-51 | the lenient read never throws; a result has the requested type; a missing or null key gives nil; a value of the right type is returned unchanged; a non-integer number read as Int gives nil; any other scalar of another type is passed to `convert`; an array or object gives nil |
| CustomHandling.DecodeMovie | Codable.playground/Pages/03_CustomHandling.xcplaygroundpage/Contents.swift:242-251 | decoding fails only when the document is not an object, and then at the root; an absent or null ticket price gives 100...150, and a present one is what the range decoder makes of it |
| CustomHandling.FittingValuesKept | Codable.playground/Pages/03_CustomHandling.xcplaygroundpage/Contents.swift:244-248 | every property whose value is missing, null or of its declared type reads as a strict read would: the value or "", false, 0 |
| CustomHandling.EmptyObjectDefaults | Codable.playground/Pages/03_CustomHandling.xcplaygroundpage/Contents.swift:244-250 | an empty object decodes to "", "", "", false, 0 and 100...150 |
| CustomHandling.DurationFromText | Codable.playground/Pages/03_CustomHandling.xcplaygroundpage/Contents.swift:248 | a duration given as text is that text parsed as an integer, or 0 when it does not parse |
| CustomHandling.DurationFromIntegerText | Codable.playground/Pages/03_CustomHandling.xcplaygroundpage/Contents.swift:142 | a duration given as the text of an integer n reads as n |
| CustomHandling.DurationFromFlag | Codable.playground/Pages/03_CustomHandling.xcplaygroundpage/Contents.swift:153-155 | a duration given as a Bool reads as 1 or 0 |
| CustomHandling.ReleasedFromNumber | Codable.playground/Pages/03_CustomHandling.xcplaygroundpage/Contents.swift:175-177 | a release status given as an integer is true exactly when it is nonzero |
| CustomHandling.ReleasedFromText | Codable.playground/Pages/03_CustomHandling.xcplaygroundpage/Contents.swift:183-185 | a release status given as text is true exactly when `boolValue()` says true; false and unrecognised words give false |
| CustomHandling.TextFromScalar | Codable.playground/Pages/03_CustomHandling.xcplaygroundpage/Contents.swift:94-103 | a String property given as an integer reads as its canonical decimal text, as another number as that Double's description, as a Bool as "true" or "false" |
| CustomHandling.TextFieldsFromScalar | Codable.playground/Pages/03_CustomHandling.xcplaygroundpage/Contents.swift:244-246 | the name, the country and the director each read an Int, Double or Bool value as its text |
| CustomHandling.FractionalNumbers | Codable.playground/Pages/03_CustomHandling.xcplaygroundpage/Contents.swift:45-49 | a duration that is a non-integer number is 0, not the number truncated; a release status given as such a number is true exactly when it is nonzero |
| CustomHandling.IntegerWidened | Codable.playground/Pages/03_CustomHandling.xcplaygroundpage/Contents.swift:36-38 | an integer read leniently as a Double is the integer widened |
| CustomHandling.CompositeValuesDefault | Codable.playground/Pages/03_CustomHandling.xcplaygroundpage/Contents.swift:45-49 | an array or object where any of the five scalars is expected gives that property's default rather than an error |
| CustomHandling.SampleDecodes | Codable.playground/Pages/03_CustomHandling.xcplaygroundpage/Contents.swift:11-20 | the page's sample decodes to Roma, Mexico, Alfonso Cuarón, released, 135 minutes, with the ticket price the range decoder makes of [250, 500] |
| KebabCase.Split | Codable.playground/Pages/01_CustomDecodingStrategy.xcplaygroundpage/Contents.swift:74 | `split(separator: "-")` yields only non-empty, hyphen-free pieces |
| KebabCase.SplitConcat | Codable.playground/Pages/01_CustomDecodingStrategy.xcplaygroundpage/Contents.swift:74 | the pieces, concatenated, are the key with its hyphens removed |
| KebabCase.SplitNonEmpty | Codable.playground/Pages/01_CustomDecodingStrategy.xcplaygroundpage/Contents.swift:74-78 | there is at least one piece exactly when the key has a character other than a hyphen |
| KebabCase.SplitJoin | Codable.playground/Pages/01_CustomDecodingStrategy.xcplaygroundpage/Contents.swift:74 | splitting pieces joined by single hyphens gives the pieces back |
| KebabCase.JoinSplit | Codable.playground/Pages/01_CustomDecodingStrategy.xcplaygroundpage/Contents.swift:74 | a key without leading, trailing or doubled hyphens is its pieces joined by single hyphens |
| KebabCase.Capitalize | Codable.playground/Pages/01_CustomDecodingStrategy.xcplaygroundpage/Contents.swift:81 | `capitalized` keeps each character apart from case: it upper-cases a character that starts a word (the first one, or one after a non-letter that is not case-ignorable) and lower-cases every other one |
| KebabCase.CapitalizeFromAgrees | Codable.playground/Pages/01_CustomDecodingStrategy.xcplaygroundpage/Contents.swift:81 | the left-to-right scan that remembers whether the last cased-or-not character was a letter agrees with the positional word-start rule |
| KebabCase.KebabToCamel | Codable.playground/Pages/01_CustomDecodingStrategy.xcplaygroundpage/Contents.swift:74-83 | the converted key has no hyphen, equals the key without hyphens ignoring case, a key without a hyphen is returned unchanged, and a key of two or more components is the lower-cased first component followed by the others capitalised |
| KebabCase.ConvertLastKey | Codable.playground/Pages/01_CustomDecodingStrategy.xcplaygroundpage/Contents.swift:72-84 | the strategy converts only the last key of the coding path |
| KebabCase.ConvertIgnoresDepth | Codable.playground/Pages/01_CustomDecodingStrategy.xcplaygroundpage/Contents.swift:73 | the result does not depend on the keys above the last one |
| KebabCase.KebabToCamelIdempotent | Codable.playground/Pages/01_CustomDecodingStrategy.xcplaygroundpage/Contents.swift:74-83 | converting an already converted key changes nothing |
| KebabCase.KebabToCamelOfJoin | Codable.playground/Pages/01_CustomDecodingStrategy.xcplaygroundpage/Contents.swift:79-81 | two or more pieces joined by single hyphens become the lower-cased first piece followed by the others capitalised |
| KebabCase.KebabToCamelOfSplit | Codable.playground/Pages/01_CustomDecodingStrategy.xcplaygroundpage/Contents.swift:74-83 | any key converts as the single-hyphen join of its components, so leading, trailing and doubled hyphens make no difference |
| KebabCase.KebabToCamelOfWord | Codable.playground/Pages/01_CustomDecodingStrategy.xcplaygroundpage/Contents.swift:77-78 | a single piece is returned as it is, case included |
| KebabCase.KebabToCamelOfPair | Codable.playground/Pages/01_CustomDecodingStrategy.xcplaygroundpage/Contents.swift:79-81 | a two-piece key becomes the lower-cased first piece followed by the capitalised second |
| KebabCase.KebabExampleReleasedStatus | Codable.playground/Pages/01_CustomDecodingStrategy.xcplaygroundpage/Contents.swift:17 | the sample key "released-status" becomes the property name "releasedStatus" |
| KebabCase.KebabExampleThreeWords | Codable.playground/Pages/01_CustomDecodingStrategy.xcplaygroundpage/Contents.swift:79-81 | "a-b-c" becomes "aBC" |
| KebabCase.KebabExampleLeadingHyphen | Codable.playground/Pages/01_CustomDecodingStrategy.xcplaygroundpage/Contents.swift:74-78 | a leading hyphen is dropped by the split, so "-name" stays "name" |
| KebabCase.KebabExampleDoubledHyphen | Codable.playground/Pages/01_CustomDecodingStrategy.xcplaygroundpage/Contents.swift:74-81 | a doubled hyphen produces no empty piece, so "a--b" becomes "aB" |
| KebabCase.KebabExampleDigitBoundary | Codable.playground/Pages/01_CustomDecodingStrategy.xcplaygroundpage/Contents.swift:81 | a digit ends a word, so "x-2fa" becomes "x2Fa" |
| KebabCase.CapitalizeApostrophe | Codable.playground/Pages/01_CustomDecodingStrategy.xcplaygroundpage/Contents.swift:81 | an apostrophe does not end a word, so "don't" capitalises to "Don't" |
| MovieFields.FromStringValue | Codable.playground/Pages/02_CodingKeyConformance.xcplaygroundpage/Contents.swift:76-83 | a wire key maps to the coding key whose raw value it is, and to nil exactly when no coding key has it |
| MovieFields.RawValueRoundTrip | Codable.playground/Pages/02_CodingKeyConformance.xcplaygroundpage/Contents.swift:76-83 | every coding key is found again from its raw value |
| MovieFields.AliasesOnly | Codable.playground/Pages/02_CodingKeyConformance.xcplaygroundpage/Contents.swift:78-79 | "ctryName" and "dirName" are the keys of country and director; "country" and "director" are not keys at all |
| MovieFields.CodingKeyTables | Codable.playground/Pages/02_CodingKeyConformance.xcplaygroundpage/Contents.swift:76-83 | the `CodingKeys` raw values are distinct and are exactly the six wire keys, and the two `ArtistCodingKeys` are the distinct names "leadActor" and "leadActress" |
| MovieFields.FirstMisfit | Codable.playground/Pages/02_CodingKeyConformance.xcplaygroundpage/Contents.swift:87-91 | nil exactly when every field fits; otherwise a present, misfitting field that every earlier field fits, so the first misfit in reading order |
| MovieFields.DecodeHeader | Codable.playground/Pages/02_CodingKeyConformance.xcplaygroundpage/Contents.swift:86-91 | the five scalar properties decode exactly when none misfits, to their values or defaults, and otherwise fail at the first misfit in reading order with the error the strict read of that field gives |
| MovieFields.HeaderFailureKinds | Codable.playground/Pages/02_CodingKeyConformance.xcplaygroundpage/Contents.swift:87-91 | a failed header read is a type mismatch or corrupted data, and corrupted data only at ["duration"] holding a non-integer number |
| MovieFields.DecodeArtistNames | Codable.playground/Pages/02_CodingKeyConformance.xcplaygroundpage/Contents.swift:44-48 | the two names decode exactly when each is missing, null or a string, to the value or ""; the actor is checked first |
| CodingKeyConformance.DecodeArtists | Codable.playground/Pages/02_CodingKeyConformance.xcplaygroundpage/Contents.swift:44-48 | a nested value decodes as Artists exactly when it is an object whose names fit |
| CodingKeyConformance.ArtistsIfPresent | Codable.playground/Pages/02_CodingKeyConformance.xcplaygroundpage/Contents.swift:92 | a missing or null artists value gives nil; a present one decodes exactly when it is an object whose names fit, to those names; any other present value is a type mismatch at ["artists"] |
| CodingKeyConformance.DecodeMovie | Codable.playground/Pages/02_CodingKeyConformance.xcplaygroundpage/Contents.swift:85-93 | decoding succeeds exactly when the root is an object whose six values fit; each property is its value or default read under its wire key; a failure on an object names a misfitting key, and is corrupted data only for a non-integer duration |
| CodingKeyConformance.DecodeEncode | Codable.playground/Pages/02_CodingKeyConformance.xcplaygroundpage/Contents.swift:85-93 | a movie written under the wire keys decodes back to itself |
| CodingKeyConformance.EncodingFits | Codable.playground/Pages/02_CodingKeyConformance.xcplaygroundpage/Contents.swift:85-93 | a movie written under the wire keys has every value of its declared type, and each strict read gives back the movie's field |
| CodingKeyConformance.HeaderReadsOnlyWireKeys | Codable.playground/Pages/02_CodingKeyConformance.xcplaygroundpage/Contents.swift:86-91 | the scalar properties depend only on the values at the five wire keys |
| CodingKeyConformance.DecodeReadsOnlyWireKeys | Codable.playground/Pages/02_CodingKeyConformance.xcplaygroundpage/Contents.swift:76-93 | two documents that agree on the six wire keys decode alike |
| CodingKeyConformance.UnknownKeysIgnored | Codable.playground/Pages/02_CodingKeyConformance.xcplaygroundpage/Contents.swift:76-83 | adding a key that is not a wire key, such as "country", changes nothing |
| CodingKeyConformance.MissingOrNullDefaults | Codable.playground/Pages/02_CodingKeyConformance.xcplaygroundpage/Contents.swift:50-53 | a document with every wire key missing or null decodes to all defaults and empty artists |
| CodingKeyConformance.ArtistNamesDefaultIndependently | Codable.playground/Pages/02_CodingKeyConformance.xcplaygroundpage/Contents.swift:46-47 | a missing lead actress defaults to "" while the actor is kept |
| CodingKeyConformance.WrongScalarTypeFails | Codable.playground/Pages/02_CodingKeyConformance.xcplaygroundpage/Contents.swift:87 | a number where the name should be is a type mismatch at ["name"] |
| CodingKeyConformance.WrongArtistsTypeFails | Codable.playground/Pages/02_CodingKeyConformance.xcplaygroundpage/Contents.swift:92 | a string where the artists object should be is a type mismatch at ["artists"] |
| CodingKeyConformance.RootMustBeObject | Codable.playground/Pages/02_CodingKeyConformance.xcplaygroundpage/Contents.swift:86 | a document that is not an object fails at the root |
| CodingKeyConformance.DocumentDecodes | Codable.playground/Pages/02_CodingKeyConformance.xcplaygroundpage/Contents.swift:13-25 | any document shaped like the sample decodes to its values |
| CodingKeyConformance.SampleDecodes | Codable.playground/Pages/02_CodingKeyConformance.xcplaygroundpage/Contents.swift:13-25 | the page's sample decodes to Roma with Fernando Grediaga and Yalitza Aparicio |
| NestedContainer.DecodeMovie | Codable.playground/Pages/02_NestedContainer.xcplaygroundpage/Contents.swift:68-79 | decoding succeeds exactly when the scalars fit and "artists" holds an object whose names fit; a missing "artists" is key-not-found and a non-object one a type mismatch at ["artists"] |
| NestedContainer.AgreesWithConformancePage | Codable.playground/Pages/02_NestedContainer.xcplaygroundpage/Contents.swift:68-79 | when "artists" holds an object, the flattened movie is the other page's movie with the artists inlined |
| NestedContainer.MissingArtistsFails | Codable.playground/Pages/02_NestedContainer.xcplaygroundpage/Contents.swift:76 | a document without "artists" fails with key-not-found |
| NestedContainer.NullArtistsFails | Codable.playground/Pages/02_NestedContainer.xcplaygroundpage/Contents.swift:76 | a null "artists" fails with a type mismatch |
| NestedContainer.ArtistNamesDefault | Codable.playground/Pages/02_NestedContainer.xcplaygroundpage/Contents.swift:77-78 | a missing lead actor defaults to "" while the actress is kept |
| NestedContainer.WrongScalarTypeFails | Codable.playground/Pages/02_NestedContainer.xcplaygroundpage/Contents.swift:74 | a Bool where the duration should be is a type mismatch at ["duration"] |
| NestedContainer.DecodeEncode | Codable.playground/Pages/02_NestedContainer.xcplaygroundpage/Contents.swift:68-79 | a flattened movie written with a nested artists object decodes back to itself |
| NestedContainer.SampleDecodes | Codable.playground/Pages/02_NestedContainer.xcplaygroundpage/Contents.swift:13-25 | the page's sample decodes to Roma with both lead names |

## Left out

- JSON text parsing and UTF-8 handling (`jsonString.data(using:)`,
  `JSONDecoder().decode(_:from:)`) are not modelled. Each decode starts from an
  already parsed `JValue`.
- `Json`: each JSON number has exactly one kind. A number with an integral
  value in the 64-bit range (`135`, `135.0`) is an Int and any other number is
  a Double, which is how Foundation decides whether an `Int` read succeeds.
- Container.DecodeIfPresent: an Int read as a `Double` is a type mismatch,
  where Foundation widens it. No property of the modelled pages is a `Double`,
  and on page 03 the lenient read reaches the widened value through `convert`
  (`CustomHandling.IntegerWidened`).
- Container.Decode: the same holds for the required read. The lenient read
  tries `Int` first, so its `Double` read never sees an integer.
- `TypeConverter.FloatOps`: the floating-point operations are parameters, not
  definitions. They are `String(Double)`, `Double(String)`, `Double(Int)`,
  `Int(Double)` and `NSNumber(floatLiteral:).boolValue`. Their IEEE 754
  behaviour is out of scope, and so is the trap in `Int(Double)` for values
  outside the 64-bit range.
- `CustomHandling.DecodeMovie`: decoding a `ClosedRange<Int>` from a JSON
  array is the standard library's code. It is the parameter `decodeRange`, and
  the `try!` trap is the precondition `TicketPriceDecodes`.
- CustomHandling.LenientDecodeIfPresent: modelled for the four scalar target
  types only; the page calls it for String, Bool and Int. A target of any
  other type exists only in `TypeConverter.Convert`, which gives nil for it.
- `Ascii.Lower`: `lowercased()`, `capitalized` and `caseInsensitiveCompare`
  are modelled for ASCII letters only. Unicode case mapping and normalisation
  are out of scope.
- KebabCase.Capitalize: only ASCII letters are cased and only the ASCII
  case-ignorable characters (`'`, `.`, `:`, `^`, `` ` ``) are skipped when
  deciding where a word starts. Other Unicode cased and case-ignorable
  characters, and title-case mappings, are out of scope.
- `KebabCase.ConvertLastKey`: the `MovieKey` wrapper and its `intValue`
  initialiser are not modelled. The strategy returns the key's string.
- Page 01's synthesised `Movie` decode of the converted keys is the compiler's
  code and is not modelled. So is the array-of-movies document.
- `dump`, `print`, the `fatalError` guard on the input text and the `do/catch`
  reporting around each decode are not modelled.
- The synthesised `Encodable` conformance of page 03's `Movie` is not modelled.
  The `Encode` functions of the page-02 modules are reference writers for the
  round-trip proofs.
