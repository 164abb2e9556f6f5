/** The coding-key-conformance page: a `Movie` read through an aliasing
    `CodingKeys` table, with every property optional and an optional nested
    `Artists` record that defaults to `Artists()`. */
module CodingKeyConformance {
  import opened Wrappers
  import opened Json
  import opened Container
  import opened MovieFields

  datatype Movie = Movie(
    name: string, country: string, director: string, released: bool, duration: Int64, artists: Artists)

  /** `Artists.init(from:)` on the value at `path`. */
  function DecodeArtists(path: seq<string>, v: JValue): (r: Result<Artists, DecodeError>)
    ensures r.Success? <==> v.JObject? && ArtistsFit(v.fields)
    ensures r.Success? ==> r.value == ExpectedArtists(v.fields)
  {
    var c :- Open(path, v);
    DecodeArtistNames(c)
  }

  /** `try container.decodeIfPresent(Artists.self, forKey: .artists)`. */
  function ArtistsIfPresent(c: Keyed): (r: Result<Option<Artists>, DecodeError>)
    ensures AbsentOrNull(c, RawValue(ArtistsKey)) ==> r == Success(None)
    ensures !AbsentOrNull(c, RawValue(ArtistsKey)) && r.Success? ==>
              r.value.Some? && c.fields["artists"].JObject? && r.value.value == ExpectedArtists(c.fields["artists"].fields)
    ensures !AbsentOrNull(c, RawValue(ArtistsKey)) ==>
              (r.Success? <==> c.fields["artists"].JObject? && ArtistsFit(c.fields["artists"].fields))
    ensures !AbsentOrNull(c, RawValue(ArtistsKey)) && !c.fields["artists"].JObject? ==>
              r == Failure(TypeMismatch(c.path + ["artists"]))
  {
    var key := RawValue(ArtistsKey);
    if AbsentOrNull(c, key) then Success(None)
    else
      var a :- DecodeArtists(c.path + [key], c.fields[key]);
      Success(Some(a))
  }

  /** An artists value the page accepts: missing, null, or an object whose names
      are missing, null or strings. */
  predicate ArtistsValueFits(obj: map<string, JValue>) {
    "artists" !in obj || obj["artists"].JNull? || (obj["artists"].JObject? && ArtistsFit(obj["artists"].fields))
  }

  /** A document the page decodes: an object whose properties all fit. */
  predicate Decodable(root: JValue) {
    root.JObject? && FirstMisfit(root.fields, ScalarFields).None? && ArtistsValueFits(root.fields)
  }

  /** The coding path of a value that a strict read rejects. */
  predicate Misfit(obj: map<string, JValue>, path: seq<string>) {
    || (exists i :: 0 <= i < |ScalarFields| && path == [RawValue(ScalarFields[i].0)] &&
                    !Fits(obj, RawValue(ScalarFields[i].0), ScalarFields[i].1))
    || (path == ["artists"] && !ArtistsValueFits(obj) && !obj["artists"].JObject?)
    || (path == ["artists", "leadActor"] && "artists" in obj && obj["artists"].JObject? &&
        !Fits(obj["artists"].fields, "leadActor", StringKind))
    || (path == ["artists", "leadActress"] && "artists" in obj && obj["artists"].JObject? &&
        !Fits(obj["artists"].fields, "leadActress", StringKind))
  }

  /** `Movie.init(from:)`. It succeeds exactly on decodable documents; every
      property is then the value under its wire key, or its default when that is
      missing or null; the artists default to `Artists()`. A failure on an
      object names an offending value: a type mismatch, or corrupted data for a
      duration that is a number but not an integer. */
  function DecodeMovie(root: JValue): (r: Result<Movie, DecodeError>)
    ensures r.Success? <==> Decodable(root)
    ensures r.Success? ==> r.value.name == TextOr(root.fields, "name", "")
    ensures r.Success? ==> r.value.country == TextOr(root.fields, "ctryName", "")
    ensures r.Success? ==> r.value.director == TextOr(root.fields, "dirName", "")
    ensures r.Success? ==> r.value.released == FlagOr(root.fields, "released", false)
    ensures r.Success? ==> r.value.duration == NumberOr(root.fields, "duration", 0)
    ensures r.Success? ==>
              r.value.artists == (if "artists" in root.fields && root.fields["artists"].JObject?
                                  then ExpectedArtists(root.fields["artists"].fields)
                                  else NoArtists)
    ensures r.Failure? && root.JObject? ==> (r.error.TypeMismatch? || r.error.DataCorrupted?) && Misfit(root.fields, r.error.path)
    ensures r.Failure? && r.error.DataCorrupted? ==>
              r.error.path == ["duration"] && root.JObject? && root.fields["duration"].JDouble?
  {
    var c :- Open([], root);
    HeaderFailureKinds(c);
    var h :- DecodeHeader(c);
    var a :- ArtistsIfPresent(c);
    Success(Movie(h.name, h.country, h.director, h.released, h.duration, a.GetOr(NoArtists)))
  }

  /** The document a movie is read back from: every property under its wire
      key, the artists as a nested object. */
  function Encode(m: Movie): JValue {
    JObject(map[
      RawValue(Name) := JString(m.name),
      RawValue(Country) := JString(m.country),
      RawValue(Director) := JString(m.director),
      RawValue(Released) := JBool(m.released),
      RawValue(Duration) := JInt(m.duration),
      RawValue(ArtistsKey) := JObject(map[
        ArtistRawValue(LeadActor) := JString(m.artists.leadActor),
        ArtistRawValue(LeadActress) := JString(m.artists.leadActress)])])
  }

  /** Every movie is read back unchanged from its document. */
  lemma DecodeEncode(m: Movie)
    ensures DecodeMovie(Encode(m)) == Success(m)
  {
    var f := Encode(m).fields;
    EncodingFits(m);
    var r := DecodeMovie(Encode(m));
    assert r.Success?;
    assert r.value.name == m.name && r.value.country == m.country && r.value.director == m.director;
    assert r.value.released == m.released && r.value.duration == m.duration;
    assert r.value.artists == m.artists;
  }

  /** The document of a movie holds every property with its declared type. */
  lemma EncodingFits(m: Movie)
    ensures Decodable(Encode(m))
    ensures TextOr(Encode(m).fields, "name", "") == m.name
    ensures TextOr(Encode(m).fields, "ctryName", "") == m.country
    ensures TextOr(Encode(m).fields, "dirName", "") == m.director
    ensures FlagOr(Encode(m).fields, "released", false) == m.released
    ensures NumberOr(Encode(m).fields, "duration", 0) == m.duration
    ensures "artists" in Encode(m).fields && Encode(m).fields["artists"].JObject?
    ensures ExpectedArtists(Encode(m).fields["artists"].fields) == m.artists
  {
    var f := Encode(m).fields;
    assert f["name"] == JString(m.name) && f["ctryName"] == JString(m.country) && f["dirName"] == JString(m.director);
    assert f["released"] == JBool(m.released) && f["duration"] == JInt(m.duration);
    assert FirstMisfit(f, ScalarFields).None? by { FirstScalarMisfit(f); }
    EncodedArtists(m);
  }

  /** The artists object of a movie's document holds both names as strings. */
  lemma EncodedArtists(m: Movie)
    ensures "artists" in Encode(m).fields && Encode(m).fields["artists"].JObject?
    ensures ArtistsValueFits(Encode(m).fields)
    ensures ExpectedArtists(Encode(m).fields["artists"].fields) == m.artists
  {
    var a := Encode(m).fields["artists"].fields;
    assert a["leadActor"] == JString(m.artists.leadActor) && a["leadActress"] == JString(m.artists.leadActress);
  }

  /** Two objects that agree on one key. */
  predicate SameAt(a: map<string, JValue>, b: map<string, JValue>, key: string) {
    (key in a <==> key in b) && (key in a ==> a[key] == b[key])
  }

  /** Two objects that agree on every wire key of the table. */
  predicate AgreeOnWireKeys(a: map<string, JValue>, b: map<string, JValue>) {
    forall k :: SameAt(a, b, RawValue(k))
  }

  lemma SameAtReads(a: map<string, JValue>, b: map<string, JValue>, key: string)
    requires SameAt(a, b, key)
    ensures forall k :: Fits(a, key, k) == Fits(b, key, k)
    ensures TextOr(a, key, "") == TextOr(b, key, "")
    ensures FlagOr(a, key, false) == FlagOr(b, key, false)
    ensures NumberOr(a, key, 0) == NumberOr(b, key, 0)
  {
  }

  lemma HeaderReadsOnlyWireKeys(a: map<string, JValue>, b: map<string, JValue>)
    requires AgreeOnWireKeys(a, b)
    ensures DecodeHeader(Keyed([], a)) == DecodeHeader(Keyed([], b))
  {
    assert SameAt(a, b, RawValue(Name));
    assert SameAt(a, b, RawValue(Country));
    assert SameAt(a, b, RawValue(Director));
    assert SameAt(a, b, RawValue(Released));
    assert SameAt(a, b, RawValue(Duration));
    SameAtReads(a, b, "name");
    SameAtReads(a, b, "ctryName");
    SameAtReads(a, b, "dirName");
    SameAtReads(a, b, "released");
    SameAtReads(a, b, "duration");
    FirstScalarMisfit(a);
    FirstScalarMisfit(b);
    assert FirstMisfit(a, ScalarFields) == FirstMisfit(b, ScalarFields);
    assert ExpectedHeader(a) == ExpectedHeader(b);
    var ra, rb := DecodeHeader(Keyed([], a)), DecodeHeader(Keyed([], b));
    if ra.Success? {
      assert ra.value == rb.value;
    } else {
      assert ra.error == rb.error;
    }
  }

  /** Only the values under the table's wire keys matter to the decode. */
  lemma DecodeReadsOnlyWireKeys(a: map<string, JValue>, b: map<string, JValue>)
    requires AgreeOnWireKeys(a, b)
    ensures DecodeMovie(JObject(a)) == DecodeMovie(JObject(b))
  {
    HeaderReadsOnlyWireKeys(a, b);
    assert SameAt(a, b, RawValue(ArtistsKey));
    assert ArtistsIfPresent(Keyed([], a)) == ArtistsIfPresent(Keyed([], b));
  }

  /** A key that is no raw value of the table fills nothing: adding it, or
      changing its value, leaves the outcome as it was. In particular the
      property name "country" is ignored. */
  lemma UnknownKeysIgnored(obj: map<string, JValue>, key: string, v: JValue)
    requires FromStringValue(key).None?
    ensures DecodeMovie(JObject(obj[key := v])) == DecodeMovie(JObject(obj))
  {
    DecodeReadsOnlyWireKeys(obj[key := v], obj);
  }

  /** An object with no known key, or with every known key null, decodes to the
      defaults: three empty strings, false, 0 and `Artists()`. */
  lemma MissingOrNullDefaults(obj: map<string, JValue>)
    requires forall k :: RawValue(k) !in obj || obj[RawValue(k)].JNull?
    ensures DecodeMovie(JObject(obj)) == Success(Movie("", "", "", false, 0, Artists("", "")))
  {
    assert RawValue(Name) !in obj || obj[RawValue(Name)].JNull?;
    assert RawValue(Country) !in obj || obj[RawValue(Country)].JNull?;
    assert RawValue(Director) !in obj || obj[RawValue(Director)].JNull?;
    assert RawValue(Released) !in obj || obj[RawValue(Released)].JNull?;
    assert RawValue(Duration) !in obj || obj[RawValue(Duration)].JNull?;
    assert RawValue(ArtistsKey) !in obj || obj[RawValue(ArtistsKey)].JNull?;
    FirstScalarMisfit(obj);
    assert Decodable(JObject(obj));
    var r := DecodeMovie(JObject(obj));
    assert r.value.name == "" && r.value.country == "" && r.value.director == "";
    assert r.value.released == false && r.value.duration == 0 && r.value.artists == NoArtists;
  }

  /** Inside a present artists object each missing name defaults to "" on its
      own. */
  lemma ArtistNamesDefaultIndependently(actor: string)
    ensures DecodeMovie(JObject(map["artists" := JObject(map["leadActor" := JString(actor)])]))
         == Success(Movie("", "", "", false, 0, Artists(actor, "")))
  {
    var obj := map["artists" := JObject(map["leadActor" := JString(actor)])];
    assert FirstMisfit(obj, ScalarFields).None? by { FirstScalarMisfit(obj); }
    assert ExpectedArtists(obj["artists"].fields) == Artists(actor, "");
    var r := DecodeMovie(JObject(obj));
    assert r.Success?;
    assert r.value.name == "" && r.value.country == "" && r.value.director == "";
    assert r.value.released == false && r.value.duration == 0;
  }

  /** A value of the wrong type is not defaulted: the whole decode fails with a
      type mismatch at that key. */
  lemma WrongScalarTypeFails(n: Int64)
    ensures DecodeMovie(JObject(map["name" := JInt(n)])) == Failure(TypeMismatch(["name"]))
  {
    var obj := map["name" := JInt(n)];
    FirstScalarMisfit(obj);
    assert !Fits(obj, "name", StringKind);
    assert [] + ["name"] == ["name"];
    assert DecodeHeader(Keyed([], obj)) == Failure(TypeMismatch(["name"]));
  }

  lemma WrongArtistsTypeFails(s: string)
    ensures DecodeMovie(JObject(map["artists" := JString(s)])) == Failure(TypeMismatch(["artists"]))
  {
    var obj := map["artists" := JString(s)];
    FirstScalarMisfit(obj);
    assert DecodeHeader(Keyed([], obj)).Success?;
    assert [] + ["artists"] == ["artists"];
    assert Open(["artists"], JString(s)) == Failure(TypeMismatch(["artists"]));
    assert ArtistsIfPresent(Keyed([], obj)) == Failure(TypeMismatch(["artists"]));
  }

  /** A document that is not an object does not decode. */
  lemma RootMustBeObject(v: JValue)
    requires !v.JObject?
    ensures DecodeMovie(v).Failure? && DecodeMovie(v).error.path == []
  {
  }

  /** A document shaped like the page's sample: every property present with
      its declared type. */
  function Document(name: string, country: string, director: string, released: bool, duration: Int64,
                    actress: string, actor: string): JValue {
    JObject(map[
      "name" := JString(name),
      "ctryName" := JString(country),
      "dirName" := JString(director),
      "released" := JBool(released),
      "duration" := JInt(duration),
      "artists" := JObject(map["leadActress" := JString(actress), "leadActor" := JString(actor)])])
  }

  lemma DocumentDecodes(name: string, country: string, director: string, released: bool, duration: Int64,
                        actress: string, actor: string)
    ensures DecodeMovie(Document(name, country, director, released, duration, actress, actor))
         == Success(Movie(name, country, director, released, duration, Artists(actor, actress)))
  {
    var m := Movie(name, country, director, released, duration, Artists(actor, actress));
    var doc := Document(name, country, director, released, duration, actress, actor);
    DocumentAgreesWithEncoding(m, actress, actor);
    DecodeEncode(m);
    DecodeReadsOnlyWireKeys(doc.fields, Encode(m).fields);
  }

  lemma DocumentAgreesWithEncoding(m: Movie, actress: string, actor: string)
    requires m.artists == Artists(actor, actress)
    ensures AgreeOnWireKeys(Document(m.name, m.country, m.director, m.released, m.duration, actress, actor).fields,
                            Encode(m).fields)
  {
    var doc := Document(m.name, m.country, m.director, m.released, m.duration, actress, actor);
    assert Encode(m).fields["artists"] == doc.fields["artists"];
    forall k ensures SameAt(doc.fields, Encode(m).fields, RawValue(k)) {
      match k
      case Name =>
      case Country =>
      case Director =>
      case Released =>
      case Duration =>
      case ArtistsKey =>
    }
  }

  /** The page's sample document decodes to Roma. */
  lemma SampleDecodes()
    ensures DecodeMovie(Document("Roma", "Mexico", "Alfonso Cuarón", true, 135, "Yalitza Aparicio", "Fernando Grediaga"))
         == Success(Movie("Roma", "Mexico", "Alfonso Cuarón", true, 135, Artists("Fernando Grediaga", "Yalitza Aparicio")))
  {
    DocumentDecodes("Roma", "Mexico", "Alfonso Cuarón", true, 135, "Yalitza Aparicio", "Fernando Grediaga");
  }
}
