/**
 * The author document: required `firstName` and `lastName`, optional `bio`
 * and `birthDate`, no unique path. `Validate` is what saving a new document
 * checks; `Apply` is a partial update as `findByIdAndUpdate` performs it.
 */
module AuthorSchema {
  import opened Wrappers
  import opened Api

  /** A stored author. */
  datatype Author = Author(
    firstName: string,
    lastName: string,
    bio: Option<string>,
    birthDate: Option<Date>)

  /** A candidate document handed to `create`: every path may be absent. */
  datatype AuthorDoc = AuthorDoc(
    firstName: Option<string>,
    lastName: Option<string>,
    bio: Option<string>,
    birthDate: Option<Date>)

  /** The fields of an update body; an absent field leaves the stored value alone. */
  datatype AuthorPatch = AuthorPatch(
    firstName: Option<string>,
    lastName: Option<string>,
    bio: Option<string>,
    birthDate: Option<Date>)

  function ToDoc(a: Author): AuthorDoc {
    AuthorDoc(Some(a.firstName), Some(a.lastName), a.bio, a.birthDate)
  }

  function FailingPaths(doc: AuthorDoc): set<string> {
    (if RequiredString(doc.firstName) then {} else {"firstName"}) +
    (if RequiredString(doc.lastName) then {} else {"lastName"})
  }

  /** The schema's validators on a new document. */
  function Validate(doc: AuthorDoc): (r: Result<Author, DbError>)
    ensures r.Ok? <==> RequiredString(doc.firstName) && RequiredString(doc.lastName)
    ensures r.Ok? ==> ToDoc(r.value) == doc
    ensures r.Err? ==> r.error.ValidationFailed? && r.error.paths != {}
    ensures r.Err? ==> ("firstName" in r.error.paths <==> !RequiredString(doc.firstName))
    ensures r.Err? ==> ("lastName" in r.error.paths <==> !RequiredString(doc.lastName))
  {
    var failing := FailingPaths(doc);
    if failing == {} then
      Ok(Author(doc.firstName.value, doc.lastName.value, doc.bio, doc.birthDate))
    else
      assert RequiredString(doc.firstName) ==> "lastName" in failing;
      Err(ValidationFailed(failing))
  }

  /** Every stored author with non-empty names is accepted back unchanged. */
  lemma ValidateToDoc(a: Author)
    requires a.firstName != "" && a.lastName != ""
    ensures Validate(ToDoc(a)) == Ok(a)
  {
  }

  /** `bio` and `birthDate` are optional: leaving them out never causes a rejection. */
  lemma OptionalPathsIrrelevant(doc: AuthorDoc, bio: Option<string>, birthDate: Option<Date>)
    ensures Validate(doc.(bio := bio, birthDate := birthDate)).Ok? == Validate(doc).Ok?
  {
  }

  /** Partial update: the fields present in the patch replace the stored ones. */
  function Apply(a: Author, p: AuthorPatch): (r: Author)
    ensures r.firstName == (if p.firstName.Some? then p.firstName.value else a.firstName)
    ensures r.lastName == (if p.lastName.Some? then p.lastName.value else a.lastName)
    ensures p.bio.None? ==> r.bio == a.bio
    ensures p.bio.Some? ==> r.bio == p.bio
    ensures p.birthDate.None? ==> r.birthDate == a.birthDate
    ensures p.birthDate.Some? ==> r.birthDate == p.birthDate
  {
    Author(
      if p.firstName.Some? then p.firstName.value else a.firstName,
      if p.lastName.Some? then p.lastName.value else a.lastName,
      if p.bio.Some? then p.bio else a.bio,
      if p.birthDate.Some? then p.birthDate else a.birthDate)
  }

  const NoChange: AuthorPatch := AuthorPatch(None, None, None, None)

  /** An empty patch changes nothing, and applying a patch twice is the same as once. */
  lemma ApplyLaws(a: Author, p: AuthorPatch)
    ensures Apply(a, NoChange) == a
    ensures Apply(Apply(a, p), p) == Apply(a, p)
  {
  }
}
