/** What the two 02 pages share: the `CodingKeys` and `ArtistCodingKeys` tables,
    the five scalar properties read with `try container.decodeIfPresent(...) ??
    default`, and the two artist names read the same way from an artists
    object. */
module MovieFields {
  import opened Wrappers
  import opened Json
  import opened Container

  /** `Movie.CodingKeys`. */
  datatype CodingKey = Name | Country | Director | Released | Duration | ArtistsKey

  /** The raw value of each case: `country` and `director` are aliased, the
      others use their own names. */
  function RawValue(k: CodingKey): string {
    match k
    case Name => "name"
    case Country => "ctryName"
    case Director => "dirName"
    case Released => "released"
    case Duration => "duration"
    case ArtistsKey => "artists"
  }

  /** `CodingKeys(stringValue:)`: the case whose raw value is the wire key, if
      any. */
  function FromStringValue(s: string): (r: Option<CodingKey>)
    ensures r.Some? ==> RawValue(r.value) == s
    ensures r.None? ==> forall k :: RawValue(k) != s
  {
    if s == "name" then Some(Name)
    else if s == "ctryName" then Some(Country)
    else if s == "dirName" then Some(Director)
    else if s == "released" then Some(Released)
    else if s == "duration" then Some(Duration)
    else if s == "artists" then Some(ArtistsKey)
    else None
  }

  /** The table is a bijection between its cases and their raw values. */
  lemma RawValueRoundTrip(k: CodingKey)
    ensures FromStringValue(RawValue(k)) == Some(k)
  {
  }

  /** The property names of the aliased cases are not wire keys. */
  lemma AliasesOnly()
    ensures FromStringValue("country") == None
    ensures FromStringValue("director") == None
    ensures FromStringValue("ctryName") == Some(Country)
    ensures FromStringValue("dirName") == Some(Director)
  {
  }

  /** `ArtistCodingKeys`. */
  datatype ArtistCodingKey = LeadActor | LeadActress

  function ArtistRawValue(k: ArtistCodingKey): string {
    match k
    case LeadActor => "leadActor"
    case LeadActress => "leadActress"
  }

  /** The wire keys of `Movie`. */
  const WireKeys: set<string> := {"name", "ctryName", "dirName", "released", "duration", "artists"}

  /** The two coding-key tables: each gives distinct raw values, `Movie`'s are
      exactly the six wire keys, and the artist keys are the property names. */
  lemma CodingKeyTables()
    ensures forall k :: RawValue(k) in WireKeys
    ensures forall s :: s in WireKeys ==> FromStringValue(s).Some?
    ensures forall a, b :: RawValue(a) == RawValue(b) ==> a == b
    ensures forall a, b :: ArtistRawValue(a) == ArtistRawValue(b) ==> a == b
    ensures ArtistRawValue(LeadActor) == "leadActor" && ArtistRawValue(LeadActress) == "leadActress"
  {
  }

  /** The five scalar properties, in the order the initialisers read them, with
      their declared types. */
  const ScalarFields: seq<(CodingKey, Kind)> :=
    [(Name, StringKind), (Country, StringKind), (Director, StringKind), (Released, BoolKind), (Duration, IntKind)]

  /** Every one of `fields` holds a value a strict read accepts. */
  predicate AllFit(obj: map<string, JValue>, fields: seq<(CodingKey, Kind)>) {
    forall i :: 0 <= i < |fields| ==> Fits(obj, RawValue(fields[i].0), fields[i].1)
  }

  /** The first of `fields`, in order, whose value a strict read rejects. */
  function FirstMisfit(obj: map<string, JValue>, fields: seq<(CodingKey, Kind)>): (r: Option<(CodingKey, Kind)>)
    ensures r.None? <==> AllFit(obj, fields)
    ensures r.Some? ==> RawValue(r.value.0) in obj && !Fits(obj, RawValue(r.value.0), r.value.1)
    ensures r.Some? ==> exists i :: 0 <= i < |fields| && fields[i] == r.value && AllFit(obj, fields[..i])
  {
    if |fields| == 0 then None
    else if !Fits(obj, RawValue(fields[0].0), fields[0].1) then Some(fields[0])
    else
      var r := FirstMisfit(obj, fields[1..]);
      assert forall i :: 1 <= i < |fields| ==> fields[i] == fields[1..][i - 1];
      if r.Some? then
        var i :| 0 <= i < |fields[1..]| && fields[1..][i] == r.value && AllFit(obj, fields[1..][..i]);
        assert fields[i + 1] == r.value;
        assert fields[..i + 1] == [fields[0]] + fields[1..][..i];
        r
      else r
  }

  /** The first misfit among the scalar properties, case by case. */
  lemma FirstScalarMisfit(obj: map<string, JValue>)
    ensures FirstMisfit(obj, ScalarFields) ==
      if !Fits(obj, "name", StringKind) then Some((Name, StringKind))
      else if !Fits(obj, "ctryName", StringKind) then Some((Country, StringKind))
      else if !Fits(obj, "dirName", StringKind) then Some((Director, StringKind))
      else if !Fits(obj, "released", BoolKind) then Some((Released, BoolKind))
      else if !Fits(obj, "duration", IntKind) then Some((Duration, IntKind))
      else None
  {
    var fs0 := ScalarFields;
    var fs1 := [(Country, StringKind), (Director, StringKind), (Released, BoolKind), (Duration, IntKind)];
    var fs2 := [(Director, StringKind), (Released, BoolKind), (Duration, IntKind)];
    var fs3 := [(Released, BoolKind), (Duration, IntKind)];
    var fs4 := [(Duration, IntKind)];
    assert fs0[1..] == fs1 && fs1[1..] == fs2 && fs2[1..] == fs3 && fs3[1..] == fs4 && fs4[1..] == [];
    assert FirstMisfit(obj, fs4) == if !Fits(obj, "duration", IntKind) then Some((Duration, IntKind)) else None;
    assert FirstMisfit(obj, fs3) == if !Fits(obj, "released", BoolKind) then Some((Released, BoolKind)) else FirstMisfit(obj, fs4);
    assert FirstMisfit(obj, fs2) == if !Fits(obj, "dirName", StringKind) then Some((Director, StringKind)) else FirstMisfit(obj, fs3);
    assert FirstMisfit(obj, fs1) == if !Fits(obj, "ctryName", StringKind) then Some((Country, StringKind)) else FirstMisfit(obj, fs2);
  }

  /** The scalar properties of a movie. */
  datatype Header = Header(name: string, country: string, director: string, released: bool, duration: Int64)

  /** The reference reading of the scalar properties, straight from the object:
      each is the value under its wire key when that has the declared type,
      and the default otherwise. */
  function ExpectedHeader(obj: map<string, JValue>): Header {
    Header(
      TextOr(obj, RawValue(Name), ""),
      TextOr(obj, RawValue(Country), ""),
      TextOr(obj, RawValue(Director), ""),
      FlagOr(obj, RawValue(Released), false),
      NumberOr(obj, RawValue(Duration), 0))
  }

  /** The five `try container.decodeIfPresent(T.self, forKey:) ?? default`
      lines. A missing or null value takes its default; a value of another type
      aborts the decode with the misread error of the first such property. */
  function DecodeHeader(c: Keyed): (r: Result<Header, DecodeError>)
    ensures r.Success? <==> FirstMisfit(c.fields, ScalarFields).None?
    ensures r.Success? ==> r.value == ExpectedHeader(c.fields)
    ensures r.Failure? ==>
              var m := FirstMisfit(c.fields, ScalarFields).value;
              r.error == MisreadError(c.path + [RawValue(m.0)], c.fields[RawValue(m.0)], m.1)
  {
    FirstScalarMisfit(c.fields);
    TextRead(c, RawValue(Name));
    TextRead(c, RawValue(Country));
    TextRead(c, RawValue(Director));
    FlagRead(c, RawValue(Released));
    NumberRead(c, RawValue(Duration));
    var name :- StringIfPresent(c, RawValue(Name));
    var country :- StringIfPresent(c, RawValue(Country));
    var director :- StringIfPresent(c, RawValue(Director));
    var released :- BoolIfPresent(c, RawValue(Released));
    var duration :- IntIfPresent(c, RawValue(Duration));
    Success(Header(name.GetOr(""), country.GetOr(""), director.GetOr(""), released.GetOr(false), duration.GetOr(0)))
  }

  /** Only the duration, the one `Int` property, can be corrupted data, and only
      when it holds a number that is not an integer; every other rejected value
      is a type mismatch. */
  lemma HeaderFailureKinds(c: Keyed)
    ensures DecodeHeader(c).Failure? ==> DecodeHeader(c).error.TypeMismatch? || DecodeHeader(c).error.DataCorrupted?
    ensures DecodeHeader(c).Failure? && DecodeHeader(c).error.DataCorrupted? ==>
              DecodeHeader(c).error.path == c.path + ["duration"] && c.fields["duration"].JDouble?
  {
    FirstScalarMisfit(c.fields);
  }

  /** The two names of `Artists`, or the flattened pair of the nested-container
      page. `Artists()` is both empty. */
  datatype Artists = Artists(leadActor: string, leadActress: string)

  const NoArtists := Artists("", "")

  /** An artists object whose names a strict read accepts. */
  predicate ArtistsFit(obj: map<string, JValue>) {
    Fits(obj, ArtistRawValue(LeadActor), StringKind) && Fits(obj, ArtistRawValue(LeadActress), StringKind)
  }

  function ExpectedArtists(obj: map<string, JValue>): Artists {
    Artists(TextOr(obj, ArtistRawValue(LeadActor), ""), TextOr(obj, ArtistRawValue(LeadActress), ""))
  }

  /** The two `try container.decodeIfPresent(String.self, forKey:) ?? ""` lines
      on an artists container: each name independently defaults to "". */
  function DecodeArtistNames(c: Keyed): (r: Result<Artists, DecodeError>)
    ensures r.Success? <==> ArtistsFit(c.fields)
    ensures r.Success? ==> r.value == ExpectedArtists(c.fields)
    ensures r.Failure? && !Fits(c.fields, ArtistRawValue(LeadActor), StringKind) ==>
              r.error == TypeMismatch(c.path + [ArtistRawValue(LeadActor)])
    ensures r.Failure? && Fits(c.fields, ArtistRawValue(LeadActor), StringKind) ==>
              r.error == TypeMismatch(c.path + [ArtistRawValue(LeadActress)])
  {
    TextRead(c, ArtistRawValue(LeadActor));
    TextRead(c, ArtistRawValue(LeadActress));
    var actor :- StringIfPresent(c, ArtistRawValue(LeadActor));
    var actress :- StringIfPresent(c, ArtistRawValue(LeadActress));
    Success(Artists(actor.GetOr(""), actress.GetOr("")))
  }
}
