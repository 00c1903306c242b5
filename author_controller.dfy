/**
 * The `/authors` handlers over the author collection. Each handler checks
 * the id's format, looks the author up, answers 400 or 404, and only then
 * writes. `CreateStep`, `FindOneReply`, `UpdateStep` and `RemoveStep` say
 * what one request does to the reply and to the collection; the class
 * `AuthorController` performs the requests in place and is proved to
 * agree with them.
 */
module AuthorHandlers {
  import opened Wrappers
  import opened Api
  import opened AuthorSchema

  type Collection = map<Id, Author>

  /** The reply to one request and the collection after it. */
  datatype Step<+T> = Step(reply: Reply<T>, authors: Collection)

  const CreatedMessage: string := "Author created successfully"
  const NotCreatedMessage: string := "Author not created"
  const ListedMessage: string := "Authors found successfully"
  const FoundMessage: string := "Author found successfully"
  const UpdatedMessage: string := "Author updated successfully"
  const DeletedMessage: string := "Author deleted successfully"
  const NotFoundMessage: string := "Author not found"

  /**
   * `POST /authors`. The new document gets the id `newId`; saving it runs
   * the schema's validators and the `_id` index. A rejected save is not
   * caught, so the handler's "not created" branch is never taken.
   */
  function CreateStep(authors: Collection, doc: AuthorDoc, newId: Id): (o: Step<(Id, Author)>)
    ensures o.reply.Success? <==> Validate(doc).Ok? && newId !in authors
    ensures o.reply.Success? ==>
      && o.authors == authors[newId := Validate(doc).value]
      && o.reply == Success(CreatedMessage, Some((newId, Validate(doc).value)))
      && ToDoc(o.authors[newId]) == doc
    ensures !o.reply.Success? ==> o.reply.Rejected? && o.authors == authors
    ensures o.reply != HttpError(BadRequest, NotCreatedMessage)
  {
    match Validate(doc)
    case Err(e) => Step(Rejected(e), authors)
    case Ok(a) =>
      if newId in authors then Step(Rejected(DuplicateKey("_id")), authors)
      else Step(Success(CreatedMessage, Some((newId, a))), authors[newId := a])
  }

  /** `GET /authors/:id`. */
  function FindOneReply(isValidId: Id -> bool, authors: Collection, id: Id): (r: Reply<Author>)
    ensures !isValidId(id) ==> r == HttpError(BadRequest, InvalidIdMessage)
    ensures isValidId(id) ==> (r.Success? <==> id in authors)
    ensures isValidId(id) && id !in authors ==> r == HttpError(NotFound, NotFoundMessage)
    ensures r.Success? ==> r == Success(FoundMessage, Some(authors[id]))
  {
    if !isValidId(id) then HttpError(BadRequest, InvalidIdMessage)
    else if id !in authors then HttpError(NotFound, NotFoundMessage)
    else Success(FoundMessage, Some(authors[id]))
  }

  /**
   * `PATCH /authors/:id`: existence is checked before the update is issued.
   * The update does not re-run the schema's validators; its reply carries
   * the document the store resolved with (the one before the update).
   */
  function UpdateStep(isValidId: Id -> bool, authors: Collection, id: Id, patch: AuthorPatch): (o: Step<Author>)
    ensures !isValidId(id) ==> o == Step(HttpError(BadRequest, InvalidIdMessage), authors)
    ensures isValidId(id) && id !in authors ==> o == Step(HttpError(NotFound, NotFoundMessage), authors)
    ensures o.reply.Success? <==> isValidId(id) && id in authors
    ensures o.reply.Success? ==>
      && o.reply == Success(UpdatedMessage, Some(authors[id]))
      && o.authors.Keys == authors.Keys
      && o.authors[id] == Apply(authors[id], patch)
      && (forall k :: k in authors && k != id ==> o.authors[k] == authors[k])
  {
    if !isValidId(id) then Step(HttpError(BadRequest, InvalidIdMessage), authors)
    else if id !in authors then Step(HttpError(NotFound, NotFoundMessage), authors)
    else Step(Success(UpdatedMessage, Some(authors[id])), authors[id := Apply(authors[id], patch)])
  }

  /** `DELETE /authors/:id`: the reply carries no data. */
  function RemoveStep(isValidId: Id -> bool, authors: Collection, id: Id): (o: Step<Author>)
    ensures !isValidId(id) ==> o == Step(HttpError(BadRequest, InvalidIdMessage), authors)
    ensures isValidId(id) && id !in authors ==> o == Step(HttpError(NotFound, NotFoundMessage), authors)
    ensures o.reply.Success? <==> isValidId(id) && id in authors
    ensures o.reply.Success? ==>
      && o.reply == Success(DeletedMessage, None)
      && o.authors.Keys == authors.Keys - {id}
      && (forall k :: k in o.authors ==> o.authors[k] == authors[k])
  {
    if !isValidId(id) then Step(HttpError(BadRequest, InvalidIdMessage), authors)
    else if id !in authors then Step(HttpError(NotFound, NotFoundMessage), authors)
    else Step(Success(DeletedMessage, None), authors - {id})
  }

  // ---------------------------------------------------------------------
  // Properties across handlers and requests
  // ---------------------------------------------------------------------

  /**
   * A malformed id is answered with 400 before the collection is consulted:
   * the reply is the same whatever the collection holds, and nothing changes.
   */
  lemma MalformedIdAnsweredFirst(isValidId: Id -> bool, a1: Collection, a2: Collection, id: Id, patch: AuthorPatch)
    requires !isValidId(id)
    ensures FindOneReply(isValidId, a1, id) == FindOneReply(isValidId, a2, id)
    ensures UpdateStep(isValidId, a1, id, patch).reply == UpdateStep(isValidId, a2, id, patch).reply
    ensures RemoveStep(isValidId, a1, id).reply == RemoveStep(isValidId, a2, id).reply
    ensures UpdateStep(isValidId, a1, id, patch).authors == a1 && RemoveStep(isValidId, a1, id).authors == a1
  {
  }

  /** Every failed request leaves the collection as it was. */
  lemma FailuresChangeNothing(isValidId: Id -> bool, authors: Collection, id: Id, doc: AuthorDoc, newId: Id, patch: AuthorPatch)
    ensures !CreateStep(authors, doc, newId).reply.Success? ==> CreateStep(authors, doc, newId).authors == authors
    ensures !UpdateStep(isValidId, authors, id, patch).reply.Success? ==> UpdateStep(isValidId, authors, id, patch).authors == authors
    ensures !RemoveStep(isValidId, authors, id).reply.Success? ==> RemoveStep(isValidId, authors, id).authors == authors
  {
  }

  /** What was created is found under its new id. */
  lemma CreateThenFind(isValidId: Id -> bool, authors: Collection, doc: AuthorDoc, newId: Id)
    requires CreateStep(authors, doc, newId).reply.Success? && isValidId(newId)
    ensures var after := CreateStep(authors, doc, newId).authors;
      FindOneReply(isValidId, after, newId) == Success(FoundMessage, Some(Validate(doc).value))
  {
  }

  /** After an update the author is found with the patched fields. */
  lemma UpdateThenFind(isValidId: Id -> bool, authors: Collection, id: Id, patch: AuthorPatch)
    requires UpdateStep(isValidId, authors, id, patch).reply.Success?
    ensures var after := UpdateStep(isValidId, authors, id, patch).authors;
      FindOneReply(isValidId, after, id) == Success(FoundMessage, Some(Apply(authors[id], patch)))
  {
  }

  /** After a removal the author is not found, and removing again is a 404. */
  lemma RemoveThenFind(isValidId: Id -> bool, authors: Collection, id: Id)
    requires RemoveStep(isValidId, authors, id).reply.Success?
    ensures var after := RemoveStep(isValidId, authors, id).authors;
      && FindOneReply(isValidId, after, id) == HttpError(NotFound, NotFoundMessage)
      && RemoveStep(isValidId, after, id) == Step(HttpError(NotFound, NotFoundMessage), after)
  {
  }

  /** No path is unique: the same document saved twice gives two equal authors. */
  lemma SameAuthorTwice(authors: Collection, doc: AuthorDoc, id1: Id, id2: Id)
    requires Validate(doc).Ok?
    requires id1 !in authors && id2 !in authors && id1 != id2
    ensures var first := CreateStep(authors, doc, id1);
      var second := CreateStep(first.authors, doc, id2);
      && first.reply.Success? && second.reply.Success?
      && second.authors[id1] == second.authors[id2]
      && second.authors.Keys == authors.Keys + {id1, id2}
  {
  }

  /**
   * Create an author, read it, rename it, delete it: each request answers
   * as a client expects. The model also reads the author back after the
   * rename and once more after the deletion, when it is gone.
   */
  lemma Lifecycle(isValidId: Id -> bool, newId: Id)
    requires isValidId(newId)
    ensures
      var doc := AuthorDoc(Some("Test"), Some("Author"), None, None);
      var created := CreateStep(map[], doc, newId);
      var patch := AuthorPatch(Some("Updated Test"), None, None, None);
      var updated := UpdateStep(isValidId, created.authors, newId, patch);
      var removed := RemoveStep(isValidId, updated.authors, newId);
      && created.reply.Success?
      && created.reply.data.value.1.firstName == "Test"
      && created.reply.data.value.1.lastName == "Author"
      && FindOneReply(isValidId, created.authors, newId)
         == Success(FoundMessage, Some(Author("Test", "Author", None, None)))
      && updated.reply.Success? && updated.reply.message == UpdatedMessage
      && FindOneReply(isValidId, updated.authors, newId).data.value.firstName == "Updated Test"
      && removed.reply == Success(DeletedMessage, None)
      && FindOneReply(isValidId, removed.authors, newId) == HttpError(NotFound, NotFoundMessage)
  {
  }

  // ---------------------------------------------------------------------
  // The controller
  // ---------------------------------------------------------------------

  class AuthorController {
    /** `mongoose.Types.ObjectId.isValid`, whose definition is not modelled. */
    const isValidId: Id -> bool
    /** The author collection. */
    var authors: Collection

    constructor (isValidId: Id -> bool)
      ensures this.isValidId == isValidId && authors == map[]
    {
      this.isValidId := isValidId;
      authors := map[];
    }

    method Create(doc: AuthorDoc, newId: Id) returns (r: Reply<(Id, Author)>)
      modifies this
      ensures Step(r, authors) == CreateStep(old(authors), doc, newId)
    {
      var saved := Validate(doc);
      if saved.Err? {
        return Rejected(saved.error);
      }
      if newId in authors {
        return Rejected(DuplicateKey("_id"));
      }
      authors := authors[newId := saved.value];
      r := Success(CreatedMessage, Some((newId, saved.value)));
    }

    /** `GET /authors`: the list is returned even when it is empty. */
    method FindAll() returns (r: Reply<Collection>)
      ensures r == Success(ListedMessage, Some(authors))
    {
      var all := authors;
      r := Success(ListedMessage, Some(all));
    }

    method FindOne(id: Id) returns (r: Reply<Author>)
      ensures r == FindOneReply(isValidId, authors, id)
    {
      if !isValidId(id) {
        return HttpError(BadRequest, InvalidIdMessage);
      }
      if id !in authors {
        return HttpError(NotFound, NotFoundMessage);
      }
      r := Success(FoundMessage, Some(authors[id]));
    }

    method Update(id: Id, patch: AuthorPatch) returns (r: Reply<Author>)
      modifies this
      ensures Step(r, authors) == UpdateStep(isValidId, old(authors), id, patch)
    {
      if !isValidId(id) {
        return HttpError(BadRequest, InvalidIdMessage);
      }
      if id !in authors {
        return HttpError(NotFound, NotFoundMessage);
      }
      var before := authors[id];
      authors := authors[id := Apply(before, patch)];
      r := Success(UpdatedMessage, Some(before));
    }

    method Remove(id: Id) returns (r: Reply<Author>)
      modifies this
      ensures Step(r, authors) == RemoveStep(isValidId, old(authors), id)
    {
      if !isValidId(id) {
        return HttpError(BadRequest, InvalidIdMessage);
      }
      if id !in authors {
        return HttpError(NotFound, NotFoundMessage);
      }
      authors := authors - {id};
      r := Success(DeletedMessage, None);
    }
  }
}
