/**
  The add operations of tui.go once the form has been filled in: choose and
  normalise the ID, validate it, scan the target collection for a duplicate,
  and append the new record. Each operation takes the loaded document and
  returns the document to save, or the error that stops the save.
 */
module Catalog {
  import opened Wrappers
  import opened GoStrings
  import opened Utils
  import opened Types

  /** The three collections of people. */
  datatype PersonKind = ActorKind | DirectorKind | CastingDirectorKind

  function People(d: CinemaData, kind: PersonKind): seq<Person>
  {
    match kind
    case ActorKind => d.actors
    case DirectorKind => d.directors
    case CastingDirectorKind => d.castingDirectors
  }

  /** The document with one collection of people replaced and everything else as it was. */
  function WithPeople(d: CinemaData, kind: PersonKind, people: seq<Person>): (r: CinemaData)
    ensures People(r, kind) == people
    ensures r.projects == d.projects
    ensures forall k :: k != kind ==> People(r, k) == People(d, k)
  {
    match kind
    case ActorKind => d.(actors := people)
    case DirectorKind => d.(directors := people)
    case CastingDirectorKind => d.(castingDirectors := people)
  }

  /** The IDs of a collection of people, in order. */
  function Ids(ps: seq<Person>): (r: seq<string>)
    ensures |r| == |ps|
    ensures forall i :: 0 <= i < |ps| ==> r[i] == ps[i].id
  {
    seq(|ps|, i requires 0 <= i < |ps| => ps[i].id)
  }

  /** The IDs of the projects, in order. */
  function ProjectIds(ps: seq<Project>): (r: seq<string>)
    ensures |r| == |ps|
    ensures forall i :: 0 <= i < |ps| ==> r[i] == ps[i].id
  {
    seq(|ps|, i requires 0 <= i < |ps| => ps[i].id)
  }

  /** The ID an add uses: the typed ID when one was typed, else the name or title; normalised either way. */
  function ChooseID(typed: string, fallback: string): (r: string)
    ensures Canonical(r)
  {
    if typed == [] then NormalizeID(fallback) else NormalizeID(typed)
  }

  /** The duplicate scan, one record after the other: it finds `id` exactly when `id` is among `ids`. */
  function Taken(ids: seq<string>, id: string): (r: bool)
    ensures r <==> id in ids
    decreases |ids|
  {
    if ids == [] then false
    else ids[0] == id || Taken(ids[1..], id)
  }

  /** No two entries of `ids` are equal. */
  predicate UniqueIds(ids: seq<string>)
  {
    forall i, j :: 0 <= i < j < |ids| ==> ids[i] != ids[j]
  }

  /**
    `addActorForm`, `addDirectorForm` and `addCastingDirectorForm` after the
    form: a blank name is refused (the form's own check); the ID is the typed
    one or else derived from the name, normalised; an empty ID is refused; an
    ID already used in the same collection is refused; otherwise the person is
    appended, with the name exactly as typed, and nothing else changes.
   */
  function AddPerson(d: CinemaData, kind: PersonKind, typedId: string, name: string): (r: Result<CinemaData, Error>)
    ensures r == Err(EmptyName) <==> AllIn(name, WhiteSpace)
    ensures r == Err(EmptyID) <==> !AllIn(name, WhiteSpace) && ChooseID(typedId, name) == []
    ensures r == Err(DuplicateID) <==>
      !AllIn(name, WhiteSpace) && ChooseID(typedId, name) != [] && ChooseID(typedId, name) in Ids(People(d, kind))
    ensures r.Ok? || r == Err(EmptyName) || r == Err(EmptyID) || r == Err(DuplicateID)
    ensures r.Ok? ==> People(r.value, kind) == People(d, kind) + [Person(ChooseID(typedId, name), name)]
    ensures r.Ok? ==> r.value.projects == d.projects
    ensures r.Ok? ==> forall k :: k != kind ==> People(r.value, k) == People(d, k)
  {
    if ValidateName(name).Fail? then Err(EmptyName)
    else
      var id := ChooseID(typedId, name);
      match ValidateID(id)
      case Fail(e) => Err(e)
      case Pass =>
        if Taken(Ids(People(d, kind)), id) then Err(DuplicateID)
        else Ok(WithPeople(d, kind, People(d, kind) + [Person(id, name)]))
  }

  /** The successful add of a person of `kind` leaves every other part of the document as it was. */
  lemma AddedOnly(d: CinemaData, kind: PersonKind, typedId: string, name: string)
    requires AddPerson(d, kind, typedId, name).Ok?
    ensures var e := AddPerson(d, kind, typedId, name).value;
      e == WithPeople(d, kind, People(d, kind) + [Person(ChooseID(typedId, name), name)])
  {
    var e := AddPerson(d, kind, typedId, name).value;
    var w := WithPeople(d, kind, People(d, kind) + [Person(ChooseID(typedId, name), name)]);
    assert People(e, ActorKind) == People(w, ActorKind);
    assert People(e, DirectorKind) == People(w, DirectorKind);
    assert People(e, CastingDirectorKind) == People(w, CastingDirectorKind);
  }

  /** `addActorForm`: the actor is appended to the actors, and only there; a duplicate is an actor with the same ID. */
  function AddActor(d: CinemaData, typedId: string, name: string): (r: Result<CinemaData, Error>)
    ensures r.Ok? ==> r.value == d.(actors := d.actors + [Person(ChooseID(typedId, name), name)])
    ensures r == Err(DuplicateID) ==> ChooseID(typedId, name) in Ids(d.actors)
  {
    var r := AddPerson(d, ActorKind, typedId, name);
    if r.Ok? then AddedOnly(d, ActorKind, typedId, name); r else r
  }

  /** `addDirectorForm`: the director is appended to the directors, and only there; a duplicate is a director with the same ID. */
  function AddDirector(d: CinemaData, typedId: string, name: string): (r: Result<CinemaData, Error>)
    ensures r.Ok? ==> r.value == d.(directors := d.directors + [Person(ChooseID(typedId, name), name)])
    ensures r == Err(DuplicateID) ==> ChooseID(typedId, name) in Ids(d.directors)
  {
    var r := AddPerson(d, DirectorKind, typedId, name);
    if r.Ok? then AddedOnly(d, DirectorKind, typedId, name); r else r
  }

  /**
    `addCastingDirectorForm`: the casting director is appended to the casting
    directors, and only there; a duplicate is a casting director with the same ID.
   */
  function AddCastingDirector(d: CinemaData, typedId: string, name: string): (r: Result<CinemaData, Error>)
    ensures r.Ok? ==> r.value == d.(castingDirectors := d.castingDirectors + [Person(ChooseID(typedId, name), name)])
    ensures r == Err(DuplicateID) ==> ChooseID(typedId, name) in Ids(d.castingDirectors)
  {
    var r := AddPerson(d, CastingDirectorKind, typedId, name);
    if r.Ok? then AddedOnly(d, CastingDirectorKind, typedId, name); r else r
  }

  /**
    A director or casting-director reference as stored: trimmed when one was
    typed, empty otherwise. The guard on the empty input changes nothing, so
    the stored value is always the trimmed input.
   */
  function OptionalRef(input: string): (r: string)
    ensures r == TrimSpace(input)
    ensures r == [] <==> AllIn(input, WhiteSpace)
  {
    if input != [] then TrimSpace(input) else []
  }

  /**
    The cast as stored: no cast for an empty input; otherwise the input split
    at every comma, one element more than there are commas, each element
    trimmed and empty elements kept.
   */
  function ParseCast(castStr: string): (r: seq<string>)
    ensures r == [] <==> castStr == []
    ensures castStr != [] ==>
      && |r| == Count(castStr, ',') + 1
      && forall i :: 0 <= i < |r| ==> r[i] == TrimSpace(Split(castStr, ',')[i])
  {
    if castStr != [] then
      var pieces := Split(castStr, ',');
      seq(|pieces|, i requires 0 <= i < |pieces| => TrimSpace(pieces[i]))
    else []
  }

  /** The project record `addProjectForm` builds once the ID is settled. */
  function NewProject(id: string, title: string, year: int, director: string, castingDirector: string, castStr: string): (r: Project)
    ensures r.id == id && r.title == title && r.year == year
    ensures r.director == TrimSpace(director) && r.castingDirector == TrimSpace(castingDirector)
    ensures r.cast == ParseCast(castStr)
  {
    Project(id, title, year, ParseCast(castStr), OptionalRef(director), OptionalRef(castingDirector))
  }

  /**
    `addProjectForm` after the form: a blank title is refused; the ID is the
    typed one or else derived from the title, normalised; an empty ID is
    refused; an ID already used by a project is refused; otherwise the project
    is appended with the title exactly as typed, the references trimmed, the
    cast split, and nothing else changes.
   */
  function AddProject(
    d: CinemaData, typedId: string, title: string, year: int,
    director: string, castingDirector: string, castStr: string): (r: Result<CinemaData, Error>)
    ensures r == Err(EmptyName) <==> AllIn(title, WhiteSpace)
    ensures r == Err(EmptyID) <==> !AllIn(title, WhiteSpace) && ChooseID(typedId, title) == []
    ensures r == Err(DuplicateID) <==>
      !AllIn(title, WhiteSpace) && ChooseID(typedId, title) != [] && ChooseID(typedId, title) in ProjectIds(d.projects)
    ensures r.Ok? || r == Err(EmptyName) || r == Err(EmptyID) || r == Err(DuplicateID)
    ensures r.Ok? ==> r.value == d.(projects := d.projects
      + [NewProject(ChooseID(typedId, title), title, year, director, castingDirector, castStr)])
  {
    if ValidateName(title).Fail? then Err(EmptyName)
    else
      var id := ChooseID(typedId, title);
      match ValidateID(id)
      case Fail(e) => Err(e)
      case Pass =>
        if Taken(ProjectIds(d.projects), id) then Err(DuplicateID)
        else Ok(d.(projects := d.projects + [NewProject(id, title, year, director, castingDirector, castStr)]))
  }

  // ---- What the add operations keep ----

  /** Unique, non-empty, canonical IDs: what every collection holds when only the add operations wrote it. */
  predicate ValidIds(ids: seq<string>)
  {
    && UniqueIds(ids)
    && forall i :: 0 <= i < |ids| ==> ids[i] != [] && Canonical(ids[i])
  }

  /** Valid IDs and no blank name. */
  predicate GoodPeople(ps: seq<Person>)
  {
    ValidIds(Ids(ps)) && forall i :: 0 <= i < |ps| ==> !AllIn(ps[i].name, WhiteSpace)
  }

  /** Valid IDs and no blank title. */
  predicate GoodProjects(ps: seq<Project>)
  {
    ValidIds(ProjectIds(ps)) && forall i :: 0 <= i < |ps| ==> !AllIn(ps[i].title, WhiteSpace)
  }

  /** The document invariant: every collection is good on its own. */
  predicate WellFormed(d: CinemaData)
  {
    GoodProjects(d.projects) && forall k :: GoodPeople(People(d, k))
  }

  /** Appending an ID that is not yet present keeps the IDs unique. */
  lemma UniqueAppend(ids: seq<string>, id: string)
    requires UniqueIds(ids) && id !in ids
    ensures UniqueIds(ids + [id])
  {
    var e := ids + [id];
    forall i, j | 0 <= i < j < |e|
      ensures e[i] != e[j]
    {
      if j == |ids| {
        assert e[i] == ids[i];
      } else {
        assert e[i] == ids[i] && e[j] == ids[j];
      }
    }
  }

  /** Appending a fresh, non-empty canonical ID keeps the IDs valid. */
  lemma ValidIdsAppend(ids: seq<string>, id: string)
    requires ValidIds(ids)
    requires id !in ids && id != [] && Canonical(id)
    ensures ValidIds(ids + [id])
  {
    UniqueAppend(ids, id);
  }

  lemma IdsAppend(ps: seq<Person>, p: Person)
    ensures Ids(ps + [p]) == Ids(ps) + [p.id]
  {
    assert forall i :: 0 <= i < |ps| ==> (ps + [p])[i] == ps[i];
  }

  lemma ProjectIdsAppend(ps: seq<Project>, p: Project)
    ensures ProjectIds(ps + [p]) == ProjectIds(ps) + [p.id]
  {
    assert forall i :: 0 <= i < |ps| ==> (ps + [p])[i] == ps[i];
  }

  /** A person accepted by an add is a good addition to a good collection. */
  lemma GoodPeopleAppend(ps: seq<Person>, p: Person)
    requires GoodPeople(ps)
    requires p.id !in Ids(ps) && p.id != [] && Canonical(p.id) && !AllIn(p.name, WhiteSpace)
    ensures GoodPeople(ps + [p])
  {
    IdsAppend(ps, p);
    ValidIdsAppend(Ids(ps), p.id);
    assert forall i :: 0 <= i < |ps| ==> (ps + [p])[i] == ps[i];
  }

  /** A project accepted by an add is a good addition to good projects. */
  lemma GoodProjectsAppend(ps: seq<Project>, p: Project)
    requires GoodProjects(ps)
    requires p.id !in ProjectIds(ps) && p.id != [] && Canonical(p.id) && !AllIn(p.title, WhiteSpace)
    ensures GoodProjects(ps + [p])
  {
    ProjectIdsAppend(ps, p);
    ValidIdsAppend(ProjectIds(ps), p.id);
    assert forall i :: 0 <= i < |ps| ==> (ps + [p])[i] == ps[i];
  }

  /** Adding a person keeps the document well formed. */
  lemma AddPersonKeepsWellFormed(d: CinemaData, kind: PersonKind, typedId: string, name: string)
    requires WellFormed(d)
    ensures AddPerson(d, kind, typedId, name).Ok? ==> WellFormed(AddPerson(d, kind, typedId, name).value)
  {
    var r := AddPerson(d, kind, typedId, name);
    if r.Ok? {
      var id := ChooseID(typedId, name);
      assert GoodPeople(People(d, kind));
      GoodPeopleAppend(People(d, kind), Person(id, name));
      forall k
        ensures GoodPeople(People(r.value, k))
      {
        if k != kind {
          assert People(r.value, k) == People(d, k);
        }
      }
    }
  }

  /** Appending a good project to a well-formed document keeps it well formed. */
  lemma WellFormedWithProject(d: CinemaData, p: Project)
    requires WellFormed(d)
    requires p.id !in ProjectIds(d.projects) && p.id != [] && Canonical(p.id) && !AllIn(p.title, WhiteSpace)
    ensures WellFormed(d.(projects := d.projects + [p]))
  {
    var e := d.(projects := d.projects + [p]);
    GoodProjectsAppend(d.projects, p);
    forall k
      ensures GoodPeople(People(e, k))
    {
      assert People(e, k) == People(d, k);
    }
  }

  /** Adding a project keeps the document well formed. */
  lemma AddProjectKeepsWellFormed(
    d: CinemaData, typedId: string, title: string, year: int,
    director: string, castingDirector: string, castStr: string, e: CinemaData)
    requires WellFormed(d)
    requires AddProject(d, typedId, title, year, director, castingDirector, castStr) == Ok(e)
    ensures WellFormed(e)
  {
    var p := NewProject(ChooseID(typedId, title), title, year, director, castingDirector, castStr);
    WellFormedWithProject(d, p);
  }

  /** Once a person is added, adding anyone whose ID comes out the same in that collection is a duplicate. */
  lemma AddAgainIsDuplicate(d: CinemaData, kind: PersonKind, typedId: string, name: string, typedId2: string, name2: string)
    requires AddPerson(d, kind, typedId, name).Ok?
    requires ChooseID(typedId2, name2) == ChooseID(typedId, name)
    requires !AllIn(name2, WhiteSpace)
    ensures AddPerson(AddPerson(d, kind, typedId, name).value, kind, typedId2, name2) == Err(DuplicateID)
  {
    var e := AddPerson(d, kind, typedId, name).value;
    var id := ChooseID(typedId, name);
    IdsAppend(People(d, kind), Person(id, name));
    assert Ids(People(e, kind))[|People(d, kind)|] == id;
  }

  /** Once a project is added, adding any project whose ID comes out the same is a duplicate. */
  lemma AddProjectAgainIsDuplicate(
    d: CinemaData, typedId: string, title: string, year: int,
    director: string, castingDirector: string, castStr: string,
    typedId2: string, title2: string, year2: int,
    director2: string, castingDirector2: string, castStr2: string)
    requires AddProject(d, typedId, title, year, director, castingDirector, castStr).Ok?
    requires ChooseID(typedId2, title2) == ChooseID(typedId, title)
    requires !AllIn(title2, WhiteSpace)
    ensures var e := AddProject(d, typedId, title, year, director, castingDirector, castStr).value;
      AddProject(e, typedId2, title2, year2, director2, castingDirector2, castStr2) == Err(DuplicateID)
  {
    var e := AddProject(d, typedId, title, year, director, castingDirector, castStr).value;
    var p := NewProject(ChooseID(typedId, title), title, year, director, castingDirector, castStr);
    ProjectIdsAppend(d.projects, p);
    assert ProjectIds(e.projects)[|d.projects|] == p.id;
  }

  /**
    The duplicate check looks at the target collection only: two documents
    with the same collection of that kind give the same verdict, and an ID
    used in another collection does not stop the add.
   */
  lemma AddPersonSeesOnlyItsCollection(d1: CinemaData, d2: CinemaData, kind: PersonKind, typedId: string, name: string)
    requires People(d1, kind) == People(d2, kind)
    ensures AddPerson(d1, kind, typedId, name).Ok? <==> AddPerson(d2, kind, typedId, name).Ok?
    ensures AddPerson(d1, kind, typedId, name).Err? ==> AddPerson(d1, kind, typedId, name) == AddPerson(d2, kind, typedId, name)
  {
  }

  /**
    The same person can be added to two collections: once added as an actor,
    the same form for a director is accepted as long as no director has the ID.
   */
  lemma ActorThenDirector(d: CinemaData, typedId: string, name: string)
    requires AddActor(d, typedId, name).Ok?
    requires ChooseID(typedId, name) !in Ids(d.directors)
    ensures AddDirector(AddActor(d, typedId, name).value, typedId, name).Ok?
  {
  }

  /** An empty ID stops an add of a person before the document is consulted: every document gets the same refusal. */
  lemma EmptyIdIgnoresData(d1: CinemaData, d2: CinemaData, kind: PersonKind, typedId: string, name: string)
    requires ChooseID(typedId, name) == []
    ensures AddPerson(d1, kind, typedId, name) == AddPerson(d2, kind, typedId, name)
    ensures AddPerson(d1, kind, typedId, name).Err?
  {
  }

  /** An empty ID stops an add of a project before the document is consulted. */
  lemma EmptyProjectIdIgnoresData(
    d1: CinemaData, d2: CinemaData, typedId: string, title: string, year: int,
    director: string, castingDirector: string, castStr: string)
    requires ChooseID(typedId, title) == []
    ensures AddProject(d1, typedId, title, year, director, castingDirector, castStr)
      == AddProject(d2, typedId, title, year, director, castingDirector, castStr)
    ensures AddProject(d1, typedId, title, year, director, castingDirector, castStr).Err?
  {
  }

  /**
    Whatever the loaded document holds, a successful add of a person keeps the
    IDs of its collection unique when they were unique before, because the
    duplicate scan runs over that whole collection.
   */
  lemma AddPersonKeepsUnique(d: CinemaData, kind: PersonKind, typedId: string, name: string, e: CinemaData)
    requires UniqueIds(Ids(People(d, kind)))
    requires AddPerson(d, kind, typedId, name) == Ok(e)
    ensures UniqueIds(Ids(People(e, kind)))
  {
    var p := Person(ChooseID(typedId, name), name);
    IdsAppend(People(d, kind), p);
    UniqueAppend(Ids(People(d, kind)), p.id);
  }

  /** The same for projects: a successful add keeps unique project IDs unique, whatever else the document holds. */
  lemma AddProjectKeepsUnique(
    d: CinemaData, typedId: string, title: string, year: int,
    director: string, castingDirector: string, castStr: string, e: CinemaData)
    requires UniqueIds(ProjectIds(d.projects))
    requires AddProject(d, typedId, title, year, director, castingDirector, castStr) == Ok(e)
    ensures UniqueIds(ProjectIds(e.projects))
  {
    var p := NewProject(ChooseID(typedId, title), title, year, director, castingDirector, castStr);
    ProjectIdsAppend(d.projects, p);
    UniqueAppend(ProjectIds(d.projects), p.id);
  }
}
