/**
  The records of types.go and the JSON shape `encoding/json` gives them
  through their struct tags, including the `omitempty` rules of `Project`.
 */
module Types {
  import opened Wrappers

  /** The `{id, name}` shape shared by `Actor`, `Director` and `CastingDirector`. */
  datatype Person = Person(id: string, name: string)

  type Actor = Person

  type Director = Person

  type CastingDirector = Person

  /**
    A film or series. `cast`, `director` and `castingDirector` are meant to be
    IDs of people, but nothing checks that they are.
   */
  datatype Project = Project(
    id: string,
    title: string,
    year: int,
    cast: seq<string>,
    director: string,
    castingDirector: string)

  /** The whole document: four independent collections, each in insertion order. */
  datatype CinemaData = CinemaData(
    projects: seq<Project>,
    actors: seq<Actor>,
    directors: seq<Director>,
    castingDirectors: seq<CastingDirector>)

  /** The JSON values these records are written as and read from. */
  datatype Json =
    | JString(str: string)
    | JNumber(num: int)
    | JArray(items: seq<Json>)
    | JObject(members: seq<Member>)

  /** One `"key": value` pair of a JSON object, in document order. */
  datatype Member = Member(key: string, value: Json)

  function Keys(ms: seq<Member>): (r: seq<string>)
    ensures |r| == |ms| && forall i :: 0 <= i < |ms| ==> r[i] == ms[i].key
  {
    seq(|ms|, i requires 0 <= i < |ms| => ms[i].key)
  }

  lemma KeysAppend(a: seq<Member>, b: seq<Member>)
    ensures Keys(a + b) == Keys(a) + Keys(b)
  {
  }

  /**
    The value stored under `key`, if any. When a key occurs more than once,
    this reads the last occurrence; the encoder never writes a key twice.
   */
  function Lookup(ms: seq<Member>, key: string): (r: Option<Json>)
    ensures r.Some? <==> key in Keys(ms)
    ensures r.Some? ==> Member(key, r.value) in ms
    decreases |ms|
  {
    if ms == [] then None
    else if ms[|ms| - 1].key == key then Some(ms[|ms| - 1].value)
    else
      assert Keys(ms) == Keys(ms[..|ms| - 1]) + [ms[|ms| - 1].key];
      Lookup(ms[..|ms| - 1], key)
  }

  /** Looking up in an object extended by one member: the new member wins on its own key. */
  lemma LookupLast(ms: seq<Member>, m: Member, key: string)
    ensures Lookup(ms + [m], key) == if m.key == key then Some(m.value) else Lookup(ms, key)
  {
    assert (ms + [m])[..|ms|] == ms;
  }

  // ---- Writing ----

  function StringJson(s: string): Json
  {
    JString(s)
  }

  function EncodeEach<T>(xs: seq<T>, encode: T -> Json): seq<Json>
  {
    seq(|xs|, i requires 0 <= i < |xs| => encode(xs[i]))
  }

  /** A person is written with both fields, even when they are empty. */
  function EncodePerson(p: Person): (r: Json)
    ensures r.JObject? && Keys(r.members) == ["id", "name"]
  {
    JObject([Member("id", JString(p.id)), Member("name", JString(p.name))])
  }

  /** The fields written for every project. */
  function FixedMembers(p: Project): seq<Member>
  {
    [Member("id", JString(p.id)), Member("title", JString(p.title)), Member("year", JNumber(p.year))]
  }

  lemma WrittenKeys(fixed: seq<Member>, a: seq<Member>, b: seq<Member>, c: seq<Member>)
    ensures Keys(fixed + a + b + c) == Keys(fixed) + Keys(a) + Keys(b) + Keys(c)
  {
    KeysAppend(fixed, a);
    KeysAppend(fixed + a, b);
    KeysAppend(fixed + a + b, c);
  }

  lemma OmittedKey(key: string, empty: bool, value: Json)
    ensures Keys(OmitEmpty(key, empty, value)) == Present(key, !empty)
  {
  }

  /** The key of an `omitempty` field when it is written, nothing otherwise. */
  function Present(key: string, present: bool): seq<string>
  {
    if present then [key] else []
  }

  /** An `omitempty` field: no member at all when the field is empty. */
  function OmitEmpty(key: string, empty: bool, value: Json): seq<Member>
  {
    if empty then [] else [Member(key, value)]
  }

  /**
    A project is written with `id`, `title` and `year` always, and with `cast`,
    `director` and `castingDirector` only when they are non-empty, in the
    order the struct declares its fields.
   */
  function EncodeProject(p: Project): (r: Json)
    ensures r.JObject?
    ensures Keys(r.members) == ["id", "title", "year"]
      + Present("cast", p.cast != []) + Present("director", p.director != [])
      + Present("castingDirector", p.castingDirector != [])
  {
    var cast := OmitEmpty("cast", p.cast == [], JArray(EncodeEach(p.cast, StringJson)));
    var director := OmitEmpty("director", p.director == [], JString(p.director));
    var castingDirector := OmitEmpty("castingDirector", p.castingDirector == [], JString(p.castingDirector));
    WrittenKeys(FixedMembers(p), cast, director, castingDirector);
    OmittedKey("cast", p.cast == [], JArray(EncodeEach(p.cast, StringJson)));
    OmittedKey("director", p.director == [], JString(p.director));
    OmittedKey("castingDirector", p.castingDirector == [], JString(p.castingDirector));
    assert Keys(FixedMembers(p)) == ["id", "title", "year"];
    JObject(FixedMembers(p) + cast + director + castingDirector)
  }

  /** The document is an object with the four collections under their fixed keys. */
  function EncodeData(d: CinemaData): (r: Json)
    ensures r.JObject? && Keys(r.members) == ["projects", "actors", "directors", "castingDirectors"]
  {
    JObject([
      Member("projects", JArray(EncodeEach(d.projects, EncodeProject))),
      Member("actors", JArray(EncodeEach(d.actors, EncodePerson))),
      Member("directors", JArray(EncodeEach(d.directors, EncodePerson))),
      Member("castingDirectors", JArray(EncodeEach(d.castingDirectors, EncodePerson)))])
  }

  // ---- Reading ----

  /** A string field holds `s`: the member is that string, or it is missing and `s` is `""`. */
  predicate ReadsString(v: Option<Json>, s: string)
  {
    v == Some(JString(s)) || (v == None && s == [])
  }

  /** An integer field holds `n`: the member is that number, or it is missing and `n` is `0`. */
  predicate ReadsInt(v: Option<Json>, n: int)
  {
    v == Some(JNumber(n)) || (v == None && n == 0)
  }

  /** A string field: a missing key reads as `""`; a value of another type is an error. */
  function DecodeString(v: Option<Json>): (r: Option<string>)
    ensures r.Some? <==> v == None || v.value.JString?
    ensures r.Some? ==> ReadsString(v, r.value)
  {
    match v
    case None => Some("")
    case Some(JString(s)) => Some(s)
    case Some(_) => None
  }

  /** An integer field: a missing key reads as `0`; a value of another type is an error. */
  function DecodeInt(v: Option<Json>): (r: Option<int>)
    ensures r.Some? <==> v == None || v.value.JNumber?
    ensures r.Some? ==> ReadsInt(v, r.value)
  {
    match v
    case None => Some(0)
    case Some(JNumber(n)) => Some(n)
    case Some(_) => None
  }

  /** Decodes every item, failing exactly when some item fails. */
  function DecodeEach<T>(items: seq<Json>, decode: Json -> Option<T>): (r: Option<seq<T>>)
    ensures r.Some? ==> |r.value| == |items| && forall i :: 0 <= i < |items| ==> decode(items[i]) == Some(r.value[i])
    ensures r == None <==> exists i :: 0 <= i < |items| && decode(items[i]) == None
    decreases |items|
  {
    if items == [] then Some([])
    else
      var head := decode(items[0]);
      var tail := DecodeEach(items[1..], decode);
      if head.Some? && tail.Some? then Some([head.value] + tail.value)
      else None
  }

  /** An array field: a missing key reads as the empty sequence. */
  function DecodeArray<T>(v: Option<Json>, decode: Json -> Option<T>): (r: Option<seq<T>>)
    ensures v == None ==> r == Some([])
    ensures v.Some? && !v.value.JArray? ==> r == None
  {
    match v
    case None => Some([])
    case Some(JArray(items)) => DecodeEach(items, decode)
    case Some(_) => None
  }

  function StringOf(j: Json): Option<string>
  {
    if j.JString? then Some(j.str) else None
  }

  /**
    A person is read from an object whose `id` and `name` are strings or
    missing; anything else is an error.
   */
  function DecodePerson(j: Json): (r: Option<Person>)
    ensures r.Some? <==>
      j.JObject? && DecodeString(Lookup(j.members, "id")).Some? && DecodeString(Lookup(j.members, "name")).Some?
    ensures r.Some? ==>
      ReadsString(Lookup(j.members, "id"), r.value.id) && ReadsString(Lookup(j.members, "name"), r.value.name)
  {
    if !j.JObject? then None
    else
      var id :- DecodeString(Lookup(j.members, "id"));
      var name :- DecodeString(Lookup(j.members, "name"));
      Some(Person(id, name))
  }

  /**
    A project is read from an object; each field is read by its type, and a
    missing field reads as the zero value.
   */
  function DecodeProject(j: Json): (r: Option<Project>)
    ensures !j.JObject? ==> r == None
    ensures r.Some? ==>
      && ReadsString(Lookup(j.members, "id"), r.value.id)
      && ReadsString(Lookup(j.members, "title"), r.value.title)
      && ReadsInt(Lookup(j.members, "year"), r.value.year)
      && ReadsString(Lookup(j.members, "director"), r.value.director)
      && ReadsString(Lookup(j.members, "castingDirector"), r.value.castingDirector)
    ensures r.Some? ==> DecodeArray(Lookup(j.members, "cast"), StringOf) == Some(r.value.cast)
  {
    if !j.JObject? then None
    else
      var ms := j.members;
      var id :- DecodeString(Lookup(ms, "id"));
      var title :- DecodeString(Lookup(ms, "title"));
      var year :- DecodeInt(Lookup(ms, "year"));
      var cast :- DecodeArray(Lookup(ms, "cast"), StringOf);
      var director :- DecodeString(Lookup(ms, "director"));
      var castingDirector :- DecodeString(Lookup(ms, "castingDirector"));
      Some(Project(id, title, year, cast, director, castingDirector))
  }

  /** The document is read from an object; a missing collection reads as empty. */
  function DecodeData(j: Json): (r: Option<CinemaData>)
    ensures !j.JObject? ==> r == None
    ensures r.Some? && Lookup(j.members, "projects") == None ==> r.value.projects == []
    ensures r.Some? && Lookup(j.members, "actors") == None ==> r.value.actors == []
    ensures r.Some? && Lookup(j.members, "directors") == None ==> r.value.directors == []
    ensures r.Some? && Lookup(j.members, "castingDirectors") == None ==> r.value.castingDirectors == []
    ensures r.Some? ==>
      && DecodeArray(Lookup(j.members, "projects"), DecodeProject) == Some(r.value.projects)
      && DecodeArray(Lookup(j.members, "actors"), DecodePerson) == Some(r.value.actors)
      && DecodeArray(Lookup(j.members, "directors"), DecodePerson) == Some(r.value.directors)
      && DecodeArray(Lookup(j.members, "castingDirectors"), DecodePerson) == Some(r.value.castingDirectors)
  {
    if !j.JObject? then None
    else
      var ms := j.members;
      var projects :- DecodeArray(Lookup(ms, "projects"), DecodeProject);
      var actors :- DecodeArray(Lookup(ms, "actors"), DecodePerson);
      var directors :- DecodeArray(Lookup(ms, "directors"), DecodePerson);
      var castingDirectors :- DecodeArray(Lookup(ms, "castingDirectors"), DecodePerson);
      Some(CinemaData(projects, actors, directors, castingDirectors))
  }

  // ---- What is written, and that reading it gives the records back ----

  /** Looking up a key past an `omitempty` member. */
  lemma LookupOmitEmpty(ms: seq<Member>, key: string, empty: bool, value: Json, k: string)
    ensures Lookup(ms + OmitEmpty(key, empty, value), k)
      == if k == key && !empty then Some(value) else Lookup(ms, k)
  {
    if empty {
      assert ms + [] == ms;
    } else {
      LookupLast(ms, Member(key, value), k);
    }
  }

  /** The first three members of a written project hold its fixed fields and none of the optional ones. */
  lemma FixedFields(p: Project)
    ensures Lookup(FixedMembers(p), "id") == Some(JString(p.id))
    ensures Lookup(FixedMembers(p), "title") == Some(JString(p.title))
    ensures Lookup(FixedMembers(p), "year") == Some(JNumber(p.year))
    ensures Lookup(FixedMembers(p), "cast") == None
    ensures Lookup(FixedMembers(p), "director") == None
    ensures Lookup(FixedMembers(p), "castingDirector") == None
  {
    var fixed := FixedMembers(p);
    assert fixed == [fixed[0], fixed[1]] + [fixed[2]];
    assert [fixed[0], fixed[1]] == [fixed[0]] + [fixed[1]];
    LookupLast([fixed[0], fixed[1]], fixed[2], "id");
    LookupLast([fixed[0]], fixed[1], "id");
    LookupLast([], fixed[0], "id");
    LookupLast([fixed[0], fixed[1]], fixed[2], "title");
    LookupLast([fixed[0]], fixed[1], "title");
    LookupLast([fixed[0], fixed[1]], fixed[2], "year");
  }

  /** Any key of a written project: an optional key holds its field, any other key is looked up in the fixed part. */
  lemma ProjectField(p: Project, k: string)
    ensures Lookup(EncodeProject(p).members, k) == (
      if k == "castingDirector" && p.castingDirector != [] then Some(JString(p.castingDirector))
      else if k == "director" && p.director != [] then Some(JString(p.director))
      else if k == "cast" && p.cast != [] then Some(JArray(EncodeEach(p.cast, StringJson)))
      else Lookup(FixedMembers(p), k))
  {
    var fixed := FixedMembers(p);
    var withCast := fixed + OmitEmpty("cast", p.cast == [], JArray(EncodeEach(p.cast, StringJson)));
    var withDirector := withCast + OmitEmpty("director", p.director == [], JString(p.director));
    LookupOmitEmpty(withDirector, "castingDirector", p.castingDirector == [], JString(p.castingDirector), k);
    LookupOmitEmpty(withCast, "director", p.director == [], JString(p.director), k);
    LookupOmitEmpty(fixed, "cast", p.cast == [], JArray(EncodeEach(p.cast, StringJson)), k);
  }

  /**
    What a written project holds under each of its keys: `id`, `title` and
    `year` always; `cast`, `director` and `castingDirector` are absent exactly
    when the field is empty (`omitempty`) and hold the field otherwise.
   */
  lemma ProjectFields(p: Project)
    ensures Lookup(EncodeProject(p).members, "id") == Some(JString(p.id))
    ensures Lookup(EncodeProject(p).members, "title") == Some(JString(p.title))
    ensures Lookup(EncodeProject(p).members, "year") == Some(JNumber(p.year))
    ensures Lookup(EncodeProject(p).members, "cast")
      == if p.cast == [] then None else Some(JArray(EncodeEach(p.cast, StringJson)))
    ensures Lookup(EncodeProject(p).members, "director")
      == if p.director == [] then None else Some(JString(p.director))
    ensures Lookup(EncodeProject(p).members, "castingDirector")
      == if p.castingDirector == [] then None else Some(JString(p.castingDirector))
  {
    FixedFields(p);
    ProjectField(p, "id");
    ProjectField(p, "title");
    ProjectField(p, "year");
    OptionalFields(p);
  }

  lemma OptionalFields(p: Project)
    ensures Lookup(EncodeProject(p).members, "cast")
      == if p.cast == [] then None else Some(JArray(EncodeEach(p.cast, StringJson)))
    ensures Lookup(EncodeProject(p).members, "director")
      == if p.director == [] then None else Some(JString(p.director))
    ensures Lookup(EncodeProject(p).members, "castingDirector")
      == if p.castingDirector == [] then None else Some(JString(p.castingDirector))
  {
    FixedFields(p);
    ProjectField(p, "cast");
    ProjectField(p, "director");
    ProjectField(p, "castingDirector");
  }

  lemma EachRoundTrip<T>(xs: seq<T>, encode: T -> Json, decode: Json -> Option<T>)
    requires forall i :: 0 <= i < |xs| ==> decode(encode(xs[i])) == Some(xs[i])
    ensures DecodeEach(EncodeEach(xs, encode), decode) == Some(xs)
  {
    var items := EncodeEach(xs, encode);
    assert forall i :: 0 <= i < |items| ==> decode(items[i]) == Some(xs[i]);
    var r := DecodeEach(items, decode);
    assert r.value == xs;
  }

  /** Both fields of a person are always written, empty or not, and read back unchanged. */
  lemma PersonRoundTrip(p: Person)
    ensures Lookup(EncodePerson(p).members, "id") == Some(JString(p.id))
    ensures Lookup(EncodePerson(p).members, "name") == Some(JString(p.name))
    ensures DecodePerson(EncodePerson(p)) == Some(p)
  {
    var ms := EncodePerson(p).members;
    LookupLast([ms[0]], ms[1], "id");
    LookupLast([ms[0]], ms[1], "name");
    LookupLast([], ms[0], "id");
    assert ms == [ms[0]] + [ms[1]];
  }

  /**
    Leaving out an empty optional field loses nothing: reading the missing
    key gives the empty value back.
   */
  lemma ProjectRoundTrip(p: Project)
    ensures DecodeProject(EncodeProject(p)) == Some(p)
  {
    ProjectFields(p);
    CastRoundTrip(p);
    ReadProject(EncodeProject(p).members, p);
  }

  /** The cast reads back as written, the omitted empty cast included. */
  lemma CastRoundTrip(p: Project)
    ensures DecodeArray(Lookup(EncodeProject(p).members, "cast"), StringOf) == Some(p.cast)
  {
    OptionalFields(p);
    if p.cast != [] {
      EachRoundTrip(p.cast, StringJson, StringOf);
    }
  }

  /** An object whose members hold a project's fields, the empty optional ones possibly missing, reads as that project. */
  lemma ReadProject(ms: seq<Member>, p: Project)
    requires Lookup(ms, "id") == Some(JString(p.id))
    requires Lookup(ms, "title") == Some(JString(p.title))
    requires Lookup(ms, "year") == Some(JNumber(p.year))
    requires DecodeArray(Lookup(ms, "cast"), StringOf) == Some(p.cast)
    requires Lookup(ms, "director") == (if p.director == [] then None else Some(JString(p.director)))
    requires Lookup(ms, "castingDirector") == (if p.castingDirector == [] then None else Some(JString(p.castingDirector)))
    ensures DecodeProject(JObject(ms)) == Some(p)
  {
  }

  /** The written document holds each collection under its own key. */
  lemma DataFields(d: CinemaData)
    ensures Lookup(EncodeData(d).members, "projects") == Some(JArray(EncodeEach(d.projects, EncodeProject)))
    ensures Lookup(EncodeData(d).members, "actors") == Some(JArray(EncodeEach(d.actors, EncodePerson)))
    ensures Lookup(EncodeData(d).members, "directors") == Some(JArray(EncodeEach(d.directors, EncodePerson)))
    ensures Lookup(EncodeData(d).members, "castingDirectors") == Some(JArray(EncodeEach(d.castingDirectors, EncodePerson)))
  {
    var ms := EncodeData(d).members;
    assert ms == [ms[0], ms[1], ms[2]] + [ms[3]];
    assert [ms[0], ms[1], ms[2]] == [ms[0], ms[1]] + [ms[2]];
    assert [ms[0], ms[1]] == [ms[0]] + [ms[1]];
    LookupLast([ms[0], ms[1], ms[2]], ms[3], "projects");
    LookupLast([ms[0], ms[1]], ms[2], "projects");
    LookupLast([ms[0]], ms[1], "projects");
    LookupLast([], ms[0], "projects");
    LookupLast([ms[0], ms[1], ms[2]], ms[3], "actors");
    LookupLast([ms[0], ms[1]], ms[2], "actors");
    LookupLast([ms[0]], ms[1], "actors");
    LookupLast([ms[0], ms[1], ms[2]], ms[3], "directors");
    LookupLast([ms[0], ms[1]], ms[2], "directors");
    LookupLast([ms[0], ms[1], ms[2]], ms[3], "castingDirectors");
  }

  /** An object whose members hold the four collections reads as that document. */
  lemma ReadData(ms: seq<Member>, d: CinemaData)
    requires DecodeArray(Lookup(ms, "projects"), DecodeProject) == Some(d.projects)
    requires DecodeArray(Lookup(ms, "actors"), DecodePerson) == Some(d.actors)
    requires DecodeArray(Lookup(ms, "directors"), DecodePerson) == Some(d.directors)
    requires DecodeArray(Lookup(ms, "castingDirectors"), DecodePerson) == Some(d.castingDirectors)
    ensures DecodeData(JObject(ms)) == Some(d)
  {
  }

  /** A written collection of people reads back as the same collection. */
  lemma PeopleRoundTrip(xs: seq<Person>)
    ensures DecodeArray(Some(JArray(EncodeEach(xs, EncodePerson))), DecodePerson) == Some(xs)
  {
    forall i | 0 <= i < |xs|
      ensures DecodePerson(EncodePerson(xs[i])) == Some(xs[i])
    {
      PersonRoundTrip(xs[i]);
    }
    EachRoundTrip(xs, EncodePerson, DecodePerson);
  }

  /** A written collection of projects reads back as the same collection. */
  lemma ProjectsRoundTrip(xs: seq<Project>)
    ensures DecodeArray(Some(JArray(EncodeEach(xs, EncodeProject))), DecodeProject) == Some(xs)
  {
    forall i | 0 <= i < |xs|
      ensures DecodeProject(EncodeProject(xs[i])) == Some(xs[i])
    {
      ProjectRoundTrip(xs[i]);
    }
    EachRoundTrip(xs, EncodeProject, DecodeProject);
  }

  /** Writing the document and reading it back gives the same four collections. */
  lemma DataRoundTrip(d: CinemaData)
    ensures DecodeData(EncodeData(d)) == Some(d)
  {
    ProjectsRoundTrip(d.projects);
    PeopleRoundTrip(d.actors);
    PeopleRoundTrip(d.directors);
    PeopleRoundTrip(d.castingDirectors);
    DataFields(d);
    ReadData(EncodeData(d).members, d);
  }
}
