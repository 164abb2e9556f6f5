/** The nested-container page: the same `Movie` table, but the two artist names
    are flattened into `Movie` through `nestedContainer(keyedBy:forKey:)`, which
    makes the "artists" object mandatory. */
module NestedContainer {
  import opened Wrappers
  import opened Json
  import opened Container
  import opened MovieFields
  import CodingKeyConformance

  datatype Movie = Movie(
    name: string, country: string, director: string, released: bool, duration: Int64,
    leadActor: string, leadActress: string)

  /** A document the page decodes: an object whose scalar properties fit and
      whose "artists" value is an object whose names fit. */
  predicate Decodable(root: JValue) {
    && root.JObject?
    && FirstMisfit(root.fields, ScalarFields).None?
    && "artists" in root.fields
    && root.fields["artists"].JObject?
    && ArtistsFit(root.fields["artists"].fields)
  }

  /** `Movie.init(from:)`. It succeeds exactly on decodable documents, with the
      scalar properties read as on the conformance page and the names taken
      from the nested object. A missing "artists" key is a key-not-found error
      and a non-object value there, null included, a type mismatch: the nested
      container has no default. */
  function DecodeMovie(root: JValue): (r: Result<Movie, DecodeError>)
    ensures r.Success? <==> Decodable(root)
    ensures r.Success? ==>
              var h := ExpectedHeader(root.fields);
              var a := ExpectedArtists(root.fields["artists"].fields);
              r.value == Movie(h.name, h.country, h.director, h.released, h.duration, a.leadActor, a.leadActress)
    ensures root.JObject? && FirstMisfit(root.fields, ScalarFields).None? && "artists" !in root.fields ==>
              r == Failure(KeyNotFound(["artists"]))
    ensures root.JObject? && FirstMisfit(root.fields, ScalarFields).None? &&
            "artists" in root.fields && !root.fields["artists"].JObject? ==>
              r == Failure(TypeMismatch(["artists"]))
  {
    var c :- Open([], root);
    var h :- DecodeHeader(c);
    assert c.path + [RawValue(ArtistsKey)] == ["artists"];
    var artists :- NestedContainer(c, RawValue(ArtistsKey));
    var a :- DecodeArtistNames(artists);
    Success(Movie(h.name, h.country, h.director, h.released, h.duration, a.leadActor, a.leadActress))
  }

  /** The conformance page's movie with its artists flattened into the movie. */
  function Flatten(r: Result<CodingKeyConformance.Movie, DecodeError>): Result<Movie, DecodeError> {
    match r
    case Success(m) =>
      Success(Movie(m.name, m.country, m.director, m.released, m.duration, m.artists.leadActor, m.artists.leadActress))
    case Failure(e) => Failure(e)
  }

  /** When "artists" holds an object, the two pages agree, failures and their
      coding paths included: flattening through a nested container reads the
      same values as decoding a nested `Artists` record. */
  lemma AgreesWithConformancePage(root: JValue)
    requires root.JObject? && "artists" in root.fields && root.fields["artists"].JObject?
    ensures DecodeMovie(root) == Flatten(CodingKeyConformance.DecodeMovie(root))
  {
    var c := Keyed([], root.fields);
    var inner := root.fields["artists"];
    assert [] + ["artists"] == ["artists"];
    assert NestedContainer(c, "artists") == Open(["artists"], inner);
    assert CodingKeyConformance.ArtistsIfPresent(c) == (
      match DecodeArtistNames(Keyed(["artists"], inner.fields))
      case Success(a) => Success(Some(a))
      case Failure(e) => Failure(e));
  }

  /** Without an "artists" key the decode fails, even when everything else is
      present. */
  lemma MissingArtistsFails(name: string)
    ensures DecodeMovie(JObject(map["name" := JString(name)])) == Failure(KeyNotFound(["artists"]))
  {
    FirstScalarMisfit(map["name" := JString(name)]);
  }

  /** A null "artists" value is a type mismatch, not a default. */
  lemma NullArtistsFails()
    ensures DecodeMovie(JObject(map["artists" := JNull])) == Failure(TypeMismatch(["artists"]))
  {
    FirstScalarMisfit(map["artists" := JNull]);
  }

  /** Inside a present artists object each missing name defaults to "" on its
      own; every missing scalar property takes its default. */
  lemma ArtistNamesDefault(actress: string)
    ensures DecodeMovie(JObject(map["artists" := JObject(map["leadActress" := JString(actress)])]))
         == Success(Movie("", "", "", false, 0, "", actress))
  {
    var obj := map["artists" := JObject(map["leadActress" := JString(actress)])];
    assert FirstMisfit(obj, ScalarFields).None? by { FirstScalarMisfit(obj); }
    assert ExpectedArtists(obj["artists"].fields) == Artists("", actress);
    var r := DecodeMovie(JObject(obj));
    assert r.Success?;
    assert r.value.name == "" && r.value.country == "" && r.value.director == "";
    assert r.value.released == false && r.value.duration == 0;
  }

  /** A scalar property of the wrong type aborts the decode before the nested
      container is looked at. */
  lemma WrongScalarTypeFails(b: bool)
    ensures DecodeMovie(JObject(map["duration" := JBool(b)])) == Failure(TypeMismatch(["duration"]))
  {
    var obj := map["duration" := JBool(b)];
    FirstScalarMisfit(obj);
    assert [] + ["duration"] == ["duration"];
    assert DecodeHeader(Keyed([], obj)) == Failure(TypeMismatch(["duration"]));
  }

  /** The document a movie is read back from. */
  function Encode(m: Movie): JValue {
    CodingKeyConformance.Encode(
      CodingKeyConformance.Movie(m.name, m.country, m.director, m.released, m.duration,
                                 Artists(m.leadActor, m.leadActress)))
  }

  /** Every movie is read back unchanged from its document. */
  lemma DecodeEncode(m: Movie)
    ensures DecodeMovie(Encode(m)) == Success(m)
  {
    var cm := CodingKeyConformance.Movie(m.name, m.country, m.director, m.released, m.duration,
                                         Artists(m.leadActor, m.leadActress));
    CodingKeyConformance.DecodeEncode(cm);
    AgreesWithConformancePage(Encode(m));
  }

  /** The page's sample document decodes to Roma with both lead artists. */
  lemma SampleDecodes()
    ensures DecodeMovie(CodingKeyConformance.Document(
              "Roma", "Mexico", "Alfonso Cuarón", true, 135, "Yalitza Aparicio", "Fernando Grediaga"))
         == Success(Movie("Roma", "Mexico", "Alfonso Cuarón", true, 135, "Fernando Grediaga", "Yalitza Aparicio"))
  {
    var doc := CodingKeyConformance.Document(
      "Roma", "Mexico", "Alfonso Cuarón", true, 135, "Yalitza Aparicio", "Fernando Grediaga");
    CodingKeyConformance.SampleDecodes();
    AgreesWithConformancePage(doc);
  }
}
