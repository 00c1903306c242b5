/**
 * The `/books` handlers over the book collection, whose unique index on
 * `isbn` keeps `UniqueIsbns` true across every request. `create` has no
 * guard of its own; `update` issues the update first and answers 404
 * afterwards; `remove` looks the book up first and returns what it deleted.
 */
module BookHandlers {
  import opened Wrappers
  import opened Api
  import opened Isbn
  import opened BookSchema

  type Collection = map<Id, Book>

  /** The reply to one request and the collection after it. */
  datatype Step<+T> = Step(reply: Reply<T>, books: Collection)

  const CreatedMessage: string := "Book created successfully"
  const ListedMessage: string := "Books found successfully"
  const FoundMessage: string := "Book found successfully"
  const UpdatedMessage: string := "Book updated successfully"
  const DeletedMessage: string := "Book deleted successfully"
  const NotFoundMessage: string := "Book not found"

  /**
   * `POST /books`: save the document under `newId`. The schema's validators
   * run first, then the unique indexes on `_id` and `isbn`.
   */
  function CreateStep(books: Collection, doc: BookDoc, newId: Id): (o: Step<(Id, Book)>)
    ensures UniqueIsbns(books) ==> UniqueIsbns(o.books)
    ensures o.reply.Success? <==>
      Validate(doc).Ok? && newId !in books && !IsbnTakenByOther(books, Validate(doc).value.isbn, newId)
    ensures o.reply.Success? ==>
      && o.books == books[newId := Validate(doc).value]
      && o.reply == Success(CreatedMessage, Some((newId, Validate(doc).value)))
      && ValidIsbn(o.books[newId].isbn)
    ensures !o.reply.Success? ==> o.reply.Rejected? && o.books == books
  {
    match Validate(doc)
    case Err(e) => Step(Rejected(e), books)
    case Ok(b) =>
      if newId in books then Step(Rejected(DuplicateKey("_id")), books)
      else if IsbnTakenByOther(books, b.isbn, newId) then Step(Rejected(DuplicateKey("isbn")), books)
      else
        assert UniqueIsbns(books) ==> UniqueIsbns(books[newId := b]) by {
          if UniqueIsbns(books) {
            UniqueAfterPut(books, newId, b);
          }
        }
        Step(Success(CreatedMessage, Some((newId, b))), books[newId := b])
  }

  /** `GET /books/:id`. */
  function FindOneReply(isValidId: Id -> bool, books: Collection, id: Id): (r: Reply<Book>)
    ensures !isValidId(id) ==> r == HttpError(BadRequest, InvalidIdMessage)
    ensures isValidId(id) ==> (r.Success? <==> id in books)
    ensures isValidId(id) && id !in books ==> r == HttpError(NotFound, NotFoundMessage)
    ensures r.Success? ==> r == Success(FoundMessage, Some(books[id]))
  {
    if !isValidId(id) then HttpError(BadRequest, InvalidIdMessage)
    else if id !in books then HttpError(NotFound, NotFoundMessage)
    else Success(FoundMessage, Some(books[id]))
  }

  /**
   * `PATCH /books/:id`: the update is issued first and a null result is
   * answered with 404 afterwards. Only the unique index is enforced on an
   * update; the schema's validators are not re-run.
   */
  function UpdateStep(isValidId: Id -> bool, books: Collection, id: Id, patch: BookPatch): (o: Step<Book>)
    ensures UniqueIsbns(books) ==> UniqueIsbns(o.books)
    ensures !isValidId(id) ==> o == Step(HttpError(BadRequest, InvalidIdMessage), books)
    ensures isValidId(id) && id !in books ==> o == Step(HttpError(NotFound, NotFoundMessage), books)
    ensures o.reply.Success? <==>
      isValidId(id) && id in books && !IsbnTakenByOther(books, PatchedIsbn(books[id], patch), id)
    ensures o.reply.Success? ==>
      && o.reply == Success(UpdatedMessage, Some(books[id]))
      && o.books.Keys == books.Keys
      && o.books[id] == Apply(books[id], patch)
      && (forall k :: k in books && k != id ==> o.books[k] == books[k])
    ensures isValidId(id) && id in books && IsbnTakenByOther(books, PatchedIsbn(books[id], patch), id) ==>
      o == Step(Rejected(DuplicateKey("isbn")), books)
    ensures !o.reply.Success? ==> o.books == books
  {
    if !isValidId(id) then Step(HttpError(BadRequest, InvalidIdMessage), books)
    // the update itself: rejected by the unique index, or resolved with null for an unknown id
    else if id in books && IsbnTakenByOther(books, PatchedIsbn(books[id], patch), id) then
      Step(Rejected(DuplicateKey("isbn")), books)
    else if id !in books then Step(HttpError(NotFound, NotFoundMessage), books)
    else
      var b := Apply(books[id], patch);
      assert UniqueIsbns(books) ==> UniqueIsbns(books[id := b]) by {
        if UniqueIsbns(books) {
          UniqueAfterPut(books, id, b);
        }
      }
      Step(Success(UpdatedMessage, Some(books[id])), books[id := b])
  }

  /** `DELETE /books/:id`: the reply carries the deleted book. */
  function RemoveStep(isValidId: Id -> bool, books: Collection, id: Id): (o: Step<Book>)
    ensures UniqueIsbns(books) ==> UniqueIsbns(o.books)
    ensures !isValidId(id) ==> o == Step(HttpError(BadRequest, InvalidIdMessage), books)
    ensures isValidId(id) && id !in books ==> o == Step(HttpError(NotFound, NotFoundMessage), books)
    ensures o.reply.Success? <==> isValidId(id) && id in books
    ensures o.reply.Success? ==>
      && o.reply == Success(DeletedMessage, Some(books[id]))
      && o.books.Keys == books.Keys - {id}
      && (forall k :: k in o.books ==> o.books[k] == books[k])
  {
    if !isValidId(id) then Step(HttpError(BadRequest, InvalidIdMessage), books)
    else if id !in books then Step(HttpError(NotFound, NotFoundMessage), books)
    else Step(Success(DeletedMessage, Some(books[id])), books - {id})
  }

  // ---------------------------------------------------------------------
  // Properties across handlers and requests
  // ---------------------------------------------------------------------

  /**
   * A malformed id is answered with 400 before the collection is consulted:
   * the reply is the same whatever the collection holds, and nothing changes.
   */
  lemma MalformedIdAnsweredFirst(isValidId: Id -> bool, b1: Collection, b2: Collection, id: Id, patch: BookPatch)
    requires !isValidId(id)
    ensures FindOneReply(isValidId, b1, id) == FindOneReply(isValidId, b2, id)
    ensures UpdateStep(isValidId, b1, id, patch).reply == UpdateStep(isValidId, b2, id, patch).reply
    ensures RemoveStep(isValidId, b1, id).reply == RemoveStep(isValidId, b2, id).reply
    ensures UpdateStep(isValidId, b1, id, patch).books == b1 && RemoveStep(isValidId, b1, id).books == b1
  {
  }

  /** What was created is found under its new id. */
  lemma CreateThenFind(isValidId: Id -> bool, books: Collection, doc: BookDoc, newId: Id)
    requires CreateStep(books, doc, newId).reply.Success? && isValidId(newId)
    ensures var after := CreateStep(books, doc, newId).books;
      FindOneReply(isValidId, after, newId) == Success(FoundMessage, Some(Validate(doc).value))
  {
  }

  /** After an update the book is found with the patched fields. */
  lemma UpdateThenFind(isValidId: Id -> bool, books: Collection, id: Id, patch: BookPatch)
    requires UpdateStep(isValidId, books, id, patch).reply.Success?
    ensures var after := UpdateStep(isValidId, books, id, patch).books;
      FindOneReply(isValidId, after, id) == Success(FoundMessage, Some(Apply(books[id], patch)))
  {
  }

  /** After a removal the book is not found, and removing again is a 404. */
  lemma RemoveThenFind(isValidId: Id -> bool, books: Collection, id: Id)
    requires RemoveStep(isValidId, books, id).reply.Success?
    ensures var after := RemoveStep(isValidId, books, id).books;
      && FindOneReply(isValidId, after, id) == HttpError(NotFound, NotFoundMessage)
      && RemoveStep(isValidId, after, id) == Step(HttpError(NotFound, NotFoundMessage), after)
  {
  }

  /**
   * Once a book is stored, creating another with the same ISBN fails and
   * leaves the collection as the first create left it.
   */
  lemma SecondCreateSameIsbnFails(books: Collection, d1: BookDoc, id1: Id, d2: BookDoc, id2: Id)
    requires CreateStep(books, d1, id1).reply.Success?
    requires d2.isbn == d1.isbn
    ensures var after := CreateStep(books, d1, id1).books;
      && !CreateStep(after, d2, id2).reply.Success?
      && CreateStep(after, d2, id2).books == after
  {
    var after := CreateStep(books, d1, id1).books;
    if Validate(d2).Ok? && id2 != id1 {
      assert after[id1].isbn == Validate(d2).value.isbn;
      assert IsbnTakenByOther(after, Validate(d2).value.isbn, id2);
    }
  }

  /** The ISBN the end-to-end test sends, whatever its random three-digit prefix, is accepted. */
  lemma EndToEndIsbnAccepted(prefix: string)
    requires |prefix| == 3 && AllDigits(prefix)
    ensures ValidIsbn(prefix + "-0-00-000000-0")
  {
    var gs := [prefix, "0", "00", "000000", "0"];
    assert Join(gs[4..]) == "0";
    assert Join(gs[3..]) == "000000-0";
    assert Join(gs[2..]) == "00-000000-0";
    assert Join(gs[1..]) == "0-00-000000-0";
    assert Join(gs) == prefix + "-0-00-000000-0";
    assert GroupsFit(gs, IsbnGroups) by {
      forall j | 1 <= j < 5 ensures Fits(gs[j], IsbnGroups[j]) {
        assert AllDigits(gs[j]);
      }
    }
    AcceptsGroups(gs);
  }

  /**
   * Because an update does not re-run the schema's validators, a body that
   * reaches the handler can store a book that a create would reject: here
   * an empty title, an ISBN that fails the expression and a genre outside
   * the enum.
   */
  lemma UpdateSkipsSchemaChecks(isValidId: Id -> bool, id: Id, stored: Book)
    requires isValidId(id)
    ensures
      var patch := BookPatch(Some(""), Some("n/a"), None, Some("Horror"), None);
      var o := UpdateStep(isValidId, map[id := stored], id, patch);
      && o.reply.Success?
      && Validate(ToDoc(o.books[id])).Err?
  {
    RejectsForeignChar("n/a", 0);
  }

  // ---------------------------------------------------------------------
  // The controller
  // ---------------------------------------------------------------------

  class BookController {
    /** `mongoose.Types.ObjectId.isValid`, whose definition is not modelled. */
    const isValidId: Id -> bool
    /** The book collection. */
    var books: Collection

    /** The unique index on `isbn`. */
    ghost predicate Valid()
      reads this
    {
      UniqueIsbns(books)
    }

    constructor (isValidId: Id -> bool)
      ensures Valid()
      ensures this.isValidId == isValidId && books == map[]
    {
      this.isValidId := isValidId;
      books := map[];
    }

    method Create(doc: BookDoc, newId: Id) returns (r: Reply<(Id, Book)>)
      requires Valid()
      modifies this
      ensures Valid()
      ensures Step(r, books) == CreateStep(old(books), doc, newId)
    {
      var saved := Validate(doc);
      if saved.Err? {
        return Rejected(saved.error);
      }
      var book := saved.value;
      if newId in books {
        return Rejected(DuplicateKey("_id"));
      }
      if IsbnTakenByOther(books, book.isbn, newId) {
        return Rejected(DuplicateKey("isbn"));
      }
      UniqueAfterPut(books, newId, book);
      books := books[newId := book];
      r := Success(CreatedMessage, Some((newId, book)));
    }

    /** `GET /books`: every stored book, unfiltered. */
    method FindAll() returns (r: Reply<Collection>)
      ensures r == Success(ListedMessage, Some(books))
    {
      var all := books;
      r := Success(ListedMessage, Some(all));
    }

    method FindOne(id: Id) returns (r: Reply<Book>)
      ensures r == FindOneReply(isValidId, books, id)
    {
      if !isValidId(id) {
        return HttpError(BadRequest, InvalidIdMessage);
      }
      if id !in books {
        return HttpError(NotFound, NotFoundMessage);
      }
      r := Success(FoundMessage, Some(books[id]));
    }

    method Update(id: Id, patch: BookPatch) returns (r: Reply<Book>)
      requires Valid()
      modifies this
      ensures Valid()
      ensures Step(r, books) == UpdateStep(isValidId, old(books), id, patch)
    {
      if !isValidId(id) {
        return HttpError(BadRequest, InvalidIdMessage);
      }
      // findByIdAndUpdate: null for an unknown id, a rejection on a duplicate ISBN
      var updated: Option<Book> := None;
      if id in books {
        var patched := Apply(books[id], patch);
        if IsbnTakenByOther(books, patched.isbn, id) {
          return Rejected(DuplicateKey("isbn"));
        }
        updated := Some(books[id]);
        UniqueAfterPut(books, id, patched);
        books := books[id := patched];
      }
      if updated.None? {
        return HttpError(NotFound, NotFoundMessage);
      }
      r := Success(UpdatedMessage, updated);
    }

    method Remove(id: Id) returns (r: Reply<Book>)
      requires Valid()
      modifies this
      ensures Valid()
      ensures Step(r, books) == RemoveStep(isValidId, old(books), id)
    {
      if !isValidId(id) {
        return HttpError(BadRequest, InvalidIdMessage);
      }
      if id !in books {
        return HttpError(NotFound, NotFoundMessage);
      }
      var deleted := books[id];
      books := books - {id};
      r := Success(DeletedMessage, Some(deleted));
    }
  }
}
