# Cinema catalogue: identifier rules and add operations

The cinema CLI keeps one JSON document of projects, actors, directors and
casting directors. This model covers its data-integrity layer:

- the identifier rules of `utils.go`: `validateID`, `normalizeID` and `validateName`;
- the records of `types.go` and how their JSON tags encode and decode;
- what the four add forms of `tui.go` do once the form is filled in. Each one
  settles the ID, validates it, looks for a duplicate in its own collection,
  and appends the new record.

Modules:

- `Wrappers` holds `Option`, `Result` and `Outcome`.
- `GoStrings` models the Go string functions the core uses: `strings.Trim`
  with a one-character cutset, `strings.TrimSpace` and `strings.Split`, with
  `Join` as the inverse of `Split`.
- `Utils` models `utils.go`. It gives a character-level description of a
  canonical ID and shows that `normalizeID` produces one and is idempotent.
  It also proves that the result is the input's alphanumeric words joined by
  single hyphens.
- `Types` models `types.go`. JSON is modelled at the value level: a `Json`
  tree with objects as ordered member lists. The encoder follows the field
  tags, including `omitempty`. The lemmas show that decoding an encoded
  document gives it back.
- `Catalog` models the add operations. Each takes the loaded document and
  returns either the document to save or the error that stops the save. It
  defines the invariant those operations keep: unique, non-empty, canonical
  IDs in every collection.
- `Scenarios` works through concrete inputs.

Departures from the source:

- Go's `strings.ToLower` maps every Unicode letter. The model lowercases `A`–`Z`,
  plus the two non-ASCII runes whose Go lowercase is ASCII: U+0130 becomes `i`
  and U+212A becomes `k`. Every other rune is left as it is. Any other
  lowercase form would lie outside `[a-z0-9-]`, and the next step of
  `normalizeID` deletes it, so the result is the same.
- White space for `strings.TrimSpace` is Go's `unicode.IsSpace` set.
- `validateName` is the validator of the name and title form fields, so the
  form cannot complete with a blank name. The model places that check first
  in each add operation, as the error `EmptyName`.

## Model

| member | source | states |
|---|---|---|
| Utils.MatchesIdPattern | utils.go:14 | the pattern `^[a-z0-9-]+$` matches exactly the non-empty strings whose every character is a lower-case ASCII letter, a digit or a hyphen |
| Utils.ValidateID | utils.go:9-20 | the empty ID fails with EmptyID; a non-empty ID fails with InvalidIDFormat exactly when a character lies outside `[a-z0-9-]`; it passes exactly when the ID is a non-empty slug |
| Utils.ValidateName | utils.go:31-36 | the only failure is EmptyName, and it happens exactly when every character of the name is white space (the empty name included) |
| Utils.LowerChar | utils.go:23 | an upper-case ASCII letter becomes its lower-case letter, a character of `[a-z0-9-]` or a space stays as it is, and the result is a lower-case ASCII letter exactly when the input is one, an upper-case one, U+0130 or U+212A |
| Utils.ToLower | utils.go:23 | the length is kept; each upper-case ASCII letter is lowered in place and each character of `[a-z0-9-]` or space is kept in place |
| Utils.ReplaceSpaces | utils.go:24 | the length is kept; no space remains, each space became a hyphen, and every other character is kept in place |
| Utils.StripNonSlug | utils.go:25 | the filtered string holds only lower-case letters, digits and hyphens and is no longer than the input |
| Utils.StripAppend | utils.go:25 | filtering a concatenation is the concatenation of the filtered parts, so the kept characters stay in input order |
| Utils.StripChar | utils.go:25 | a single character is kept exactly when it is in `[a-z0-9-]` and deleted otherwise; with StripAppend this fixes the filter on every input |
| Utils.CollapseHyphens | utils.go:26 | the collapsed string never has two hyphens in a row, keeps a slug a slug, and keeps a non-empty string non-empty |
| Utils.NormalizeID | utils.go:22-29 | the result is canonical: only `[a-z0-9-]`, no two hyphens in a row, no hyphen at either end |
| Utils.StripKeepsSlug | utils.go:25 | the character filter leaves a string that is already a slug unchanged |
| Utils.CollapseKeepsSingle | utils.go:26 | collapsing hyphen runs leaves a string with no double hyphen unchanged |
| Utils.TrimKeepsUntrimmed | utils.go:27 | trimming hyphens leaves a string with no edge hyphen unchanged |
| Utils.CanonicalIsFixpoint | utils.go:22-29 | a canonical ID normalises to itself |
| Utils.NormalizeIdempotent | utils.go:22-29 | normalising twice gives the same as normalising once |
| Utils.NormalizedIsValid | utils.go:9-29 | a normalised ID passes `validateID` exactly when it is non-empty, and it never fails with InvalidIDFormat |
| Utils.WordsAreAlphanumeric | utils.go:23-26 | every word of the input is non-empty and made only of lower-case letters and digits |
| Utils.CollapseKeepsWords | utils.go:26 | collapsing hyphen runs does not change the hyphen-separated words |
| Utils.TrimLeftKeepsWords | utils.go:27 | removing leading hyphens does not change the hyphen-separated words |
| Utils.TrimRightKeepsWords | utils.go:27 | removing trailing hyphens does not change the hyphen-separated words |
| Utils.CanonicalJoinsItsWords | utils.go:22-29 | a canonical string is its own words joined by single hyphens |
| Utils.NormalizeJoinsWords | utils.go:22-29 | the normalised ID is the input's alphanumeric words, after lowercasing and deleting every other character, joined by single hyphens |
| GoStrings.Trim | utils.go:27 | the trimmed string is no longer than the input and neither starts nor ends with a character of the cutset |
| GoStrings.TrimMiddle | utils.go:27 | the trimmed string is the contiguous middle part of the input |
| GoStrings.TrimOutside | utils.go:27 | every character removed before or after the middle belongs to the cutset |
| GoStrings.TrimEmpty | utils.go:27 | trimming gives the empty string exactly when every character belongs to the cutset |
| GoStrings.TrimKeeps | utils.go:27 | a string with no cutset character at either end is left unchanged |
| GoStrings.SpaceInLatin1 | utils.go:32 | within Latin-1 the white space of `unicode.IsSpace` is exactly tab, line feed, vertical tab, form feed, carriage return, space, U+0085 and U+00A0 |
| GoStrings.TrimSpace | utils.go:32 | the result is empty exactly when the input is all white space, and it neither starts nor ends with white space |
| GoStrings.Split | tui.go:253 | there is one piece more than there are separators |
| GoStrings.SplitPieces | tui.go:253 | no piece contains the separator, and every character of a piece comes from the input |
| GoStrings.JoinSplit | tui.go:253 | joining the pieces with the separator gives back the input |
| GoStrings.SplitWithoutSeparator | tui.go:253 | a string without the separator splits into itself alone |
| GoStrings.SplitAtSeparator | tui.go:253 | splitting `x + sep + y`, with `x` free of the separator, gives `x` followed by the pieces of `y` |
| Types.Lookup | types.go:3-10 | a field is found exactly when its key is among the object's keys, and the value found is one stored under that key |
| Types.LookupLast | types.go:3-10 | in an object extended by one member, that member's key reads its value, so a later duplicate wins; other keys read as before |
| Types.LookupOmitEmpty | types.go:7-9 | an `omitempty` member adds its key only when the value is non-empty, and changes no other key |
| Types.EncodePerson | types.go:12-25 | a person is written as an object with exactly the keys `id` and `name`, in that order |
| Types.EncodeProject | types.go:3-10 | a project is written as an object whose keys are `id`, `title`, `year`, then `cast`, `director` and `castingDirector` each only when that field is non-empty, in declaration order |
| Types.EncodeData | types.go:27-32 | the document is written as an object with exactly the keys `projects`, `actors`, `directors` and `castingDirectors` |
| Types.DecodeString | types.go:4-5 | a string field reads when it is a string or missing, a missing one as the empty string; any other value is an error |
| Types.DecodeInt | types.go:6 | an integer field reads when it is a number or missing, a missing one as zero; any other value is an error |
| Types.DecodeArray | types.go:7 | a missing array reads as empty, and a value that is not an array is an error |
| Types.DecodePerson | types.go:12-25 | a person reads exactly when the value is an object whose `id` and `name` are strings or missing, and each field holds what the object stores, or the empty string when missing |
| Types.DecodeProject | types.go:3-10 | a non-object is an error; a project read from an object holds in each field what the object stores under that key, or the zero value when the key is missing |
| Types.DecodeData | types.go:27-32 | a non-object is an error; each collection of a decoded document is the decoded array under its key, and empty when that key is missing |
| Types.FixedFields | types.go:4-6 | an encoded project always carries `id`, `title` and `year` with the record's values |
| Types.OptionalFields | types.go:7-9 | `cast`, `director` and `castingDirector` appear in an encoded project exactly when they are non-empty, with the record's values |
| Types.ProjectFields | types.go:3-10 | every field of an encoded project reads back as the record's value, a missing optional field included |
| Types.EachRoundTrip | types.go:7 | decoding an array of encoded items gives the items back when each item decodes to itself |
| Types.PersonRoundTrip | types.go:12-25 | an encoded actor, director or casting director decodes to the same record |
| Types.CastRoundTrip | types.go:7 | the cast of an encoded project decodes to the same list, the omitted empty cast included |
| Types.ReadProject | types.go:3-10 | an object whose six fields read as a project's values decodes to that project, an absent optional field reading as empty |
| Types.ProjectRoundTrip | types.go:3-10 | an encoded project decodes to the same record |
| Types.PeopleRoundTrip | types.go:27-32 | an encoded array of people decodes to the same sequence |
| Types.ProjectsRoundTrip | types.go:27-32 | an encoded array of projects decodes to the same sequence |
| Types.DataFields | types.go:27-32 | the encoded document carries the four collections under their JSON names |
| Types.ReadData | types.go:27-32 | an object whose four collections decode to a document's collections decodes to that document |
| Types.DataRoundTrip | types.go:27-32 | an encoded document decodes to the same document |
| Catalog.WithPeople | tui.go:100 | replacing one collection of people leaves the projects and the other two collections as they were |
| Catalog.ChooseID | tui.go:79-83 | the ID an add uses, the typed one or else the one derived from the name, is canonical |
| Catalog.Taken | tui.go:94-98 | the duplicate scan reports a match exactly when the ID is among the collection's IDs |
| Catalog.AddPerson | tui.go:79-100 | a blank name gives EmptyName; an empty settled ID gives EmptyID; an ID already in the same collection gives DuplicateID; there is no other error; on success the person is appended with the name as typed and nothing else changes |
| Catalog.AddedOnly | tui.go:100 | a successful add of a person is the old document with only that collection extended by the new person |
| Catalog.AddActor | tui.go:56-108 | on success the document is the old one with the new actor appended to the actors; a duplicate means an actor already has the ID |
| Catalog.AddDirector | tui.go:110-162 | on success the document is the old one with the new director appended to the directors; a duplicate means a director already has the ID |
| Catalog.AddCastingDirector | tui.go:270-322 | on success the document is the old one with the new casting director appended; a duplicate means a casting director already has the ID |
| Catalog.OptionalRef | tui.go:244-250 | a stored director or casting-director reference is the trimmed input, empty exactly when the input is all white space |
| Catalog.ParseCast | tui.go:252-258 | an empty input gives no cast; otherwise one element more than there are commas, each the trimmed piece between commas, empty pieces kept |
| Catalog.NewProject | tui.go:238-258 | the new project keeps ID, title and year, stores the trimmed references, and stores the parsed cast |
| Catalog.AddProject | tui.go:164-268 | a blank title gives EmptyName; an empty settled ID gives EmptyID; an ID already used by a project gives DuplicateID; there is no other error; on success the new project is appended and nothing else changes |
| Catalog.UniqueAppend | tui.go:94-100 | appending an ID that is not yet present keeps the IDs unique |
| Catalog.ValidIdsAppend | tui.go:94-100 | appending a canonical, non-empty ID that is not yet present keeps the IDs unique, non-empty and canonical |
| Catalog.GoodPeopleAppend | tui.go:94-100 | appending a person with a fresh valid ID and a non-blank name keeps a collection of people well formed |
| Catalog.GoodProjectsAppend | tui.go:232-260 | appending a project with a fresh valid ID and a non-blank title keeps the projects well formed |
| Catalog.AddPersonKeepsUnique | tui.go:94-100 | for any loaded document, a successful add of a person keeps the IDs of its collection unique when they were unique before |
| Catalog.AddProjectKeepsUnique | tui.go:232-260 | for any loaded document, a successful add of a project keeps the project IDs unique when they were unique before |
| Catalog.AddPersonKeepsWellFormed | tui.go:79-100 | a successful add of a person keeps the document well formed: unique, non-empty, canonical IDs and non-blank names in every collection |
| Catalog.WellFormedWithProject | tui.go:260 | a well-formed document extended by a project with a fresh valid ID and a non-blank title is well formed |
| Catalog.AddProjectKeepsWellFormed | tui.go:212-260 | a successful add of a project keeps the document well formed |
| Catalog.AddAgainIsDuplicate | tui.go:94-98 | after a person is added, adding any person whose ID settles to the same value in the same collection gives DuplicateID |
| Catalog.AddProjectAgainIsDuplicate | tui.go:232-236 | after a project is added, adding any project whose ID settles to the same value gives DuplicateID |
| Catalog.AddPersonSeesOnlyItsCollection | tui.go:94-98 | two documents with the same collection of the target kind give the same verdict, and the same error when there is one |
| Catalog.ActorThenDirector | tui.go:148-152 | an actor's ID can still be used for a director, because the duplicate scan looks only at the target collection |
| Catalog.EmptyIdIgnoresData | tui.go:85-87 | an add of a person whose ID settles to empty is refused the same way for every document |
| Catalog.EmptyProjectIdIgnoresData | tui.go:218-220 | an add of a project whose ID settles to empty is refused the same way for every document |
| Scenarios.NormalizeTwoWords | utils.go:22-29 | `Tom Hanks` normalises to `tom-hanks` |
| Scenarios.NormalizeSpacesAndPunctuation | utils.go:22-29 | `-A  b!` normalises to `a-b`: spaces become hyphens, runs collapse, punctuation and edge hyphens go |
| Scenarios.NormalizeDropsTab | utils.go:24-25 | only the ASCII space becomes a hyphen; a tab is deleted, so `a<TAB>b` normalises to `ab` |
| Scenarios.NormalizeNothingLeft | utils.go:22-29 | `!!!` normalises to the empty ID, which fails with EmptyID |
| Scenarios.NormalizeOnlyHyphens | utils.go:26-27 | `---` collapses to one hyphen, which the trim removes |
| Scenarios.ValidateRejectsName | utils.go:14-17 | `Tom Hanks` fails with InvalidIDFormat |
| Scenarios.ValidateAcceptsSlug | utils.go:9-20 | `a-1` passes |
| Scenarios.SplitKeepsEmptyPiece | tui.go:252-258 | `a,,b` splits into `a`, the empty piece, and `b` |
| Scenarios.BlankName | tui.go:69-71 | adding an actor whose name is only white space gives EmptyName |
| Scenarios.BareProjectJson | types.go:7-9 | a project with no cast and no references encodes to its three fixed members only |

## Left out

- `s3.go` is not part of this model. It covers `loadData`, `saveData`, the local file and the S3 sync. The add operations take the loaded document as a parameter and return the document to save. A load or save failure is I/O and is not modelled.
- On an error the source returns before `saveData`, so the stored document stays unchanged. In the model an error carries no document, so there is nothing to save; the unchanged store itself is not modelled.
- The `huh` forms, `runTUI`, the menu, `main.go` and the printed messages are user interface and are not modelled. The error datatype names each distinct error; the message texts are not kept.
- `strconv.Atoi` and the "invalid year" error (tui.go:185-191 and 222-225) are not modelled. The year reaches the model as an already parsed integer. Go's 64-bit `int` range is not modelled, because the year is only stored and never computed with.
- The JSON text layer is not modelled: bytes, escapes, white space and the indentation of `MarshalIndent`. Also left out are `encoding/json`'s case-insensitive key matching on decode, keys that occur twice in one object (the model reads the last occurrence, while `encoding/json` merges a repeated array of objects into the elements it already decoded), `null` values, and the fact that a nil slice marshals as `null` while an empty one marshals as `[]`. Missing keys decode to the zero value, as in Go.
- Utils.NormalizeID: lowercasing covers only the characters that can survive the filter, as explained above. It does not model the full Unicode case mapping, because that mapping cannot change the result.
- Concrete scenarios for the add operations and the JSON round trip are stated as universal lemmas in `Catalog` and `Types`, not as worked literals.
