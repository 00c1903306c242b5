/**
 * The book document: required `title`, `isbn` and `author`; `isbn` must
 * match the ISBN expression and is covered by a unique index; an optional
 * `genre` must be one of three names.
 */
module BookSchema {
  import opened Wrappers
  import opened Api
  import opened Isbn

  /** A stored book; `author` is the id of an author document. */
  datatype Book = Book(
    title: string,
    isbn: string,
    publishedDate: Option<Date>,
    genre: Option<string>,
    author: Id)

  /** A candidate document handed to `save`: every path may be absent. */
  datatype BookDoc = BookDoc(
    title: Option<string>,
    isbn: Option<string>,
    publishedDate: Option<Date>,
    genre: Option<string>,
    author: Option<Id>)

  /** The fields of an update body; an absent field leaves the stored value alone. */
  datatype BookPatch = BookPatch(
    title: Option<string>,
    isbn: Option<string>,
    publishedDate: Option<Date>,
    genre: Option<string>,
    author: Option<Id>)

  /** The `enum` of the `genre` path. */
  const Genres: set<string> := {"Fantasy", "Science Fiction", "Thriller"}

  /** An enum validator lets an absent value through. */
  predicate GenreAllowed(g: Option<string>) {
    g.None? || g.value in Genres
  }

  /** `required`, then `match`: the pattern is only tried on a present, non-empty value. */
  predicate IsbnAccepted(v: Option<string>) {
    RequiredString(v) && ValidIsbn(v.value)
  }

  function ToDoc(b: Book): BookDoc {
    BookDoc(Some(b.title), Some(b.isbn), b.publishedDate, b.genre, Some(b.author))
  }

  /** The paths whose validators reject the document, as Mongoose reports them. */
  function FailingPaths(doc: BookDoc): (r: set<string>)
    ensures r == {} <==>
      RequiredString(doc.title) && IsbnAccepted(doc.isbn) && GenreAllowed(doc.genre) && doc.author.Some?
    ensures "genre" in r <==> !GenreAllowed(doc.genre)
    ensures "isbn" in r <==> !IsbnAccepted(doc.isbn)
    ensures "title" in r <==> !RequiredString(doc.title)
    ensures "author" in r <==> doc.author.None?
  {
    assert "title" != "genre" by { assert "title"[0] != "genre"[0]; }
    (if RequiredString(doc.title) then {} else {"title"}) +
    (if IsbnAccepted(doc.isbn) then {} else {"isbn"}) +
    (if GenreAllowed(doc.genre) then {} else {"genre"}) +
    (if doc.author.Some? then {} else {"author"})
  }

  /** The schema's validators on a new document. */
  function Validate(doc: BookDoc): (r: Result<Book, DbError>)
    ensures r.Ok? <==>
      RequiredString(doc.title) && IsbnAccepted(doc.isbn) && GenreAllowed(doc.genre) && doc.author.Some?
    ensures r.Ok? ==> ToDoc(r.value) == doc && IsbnShape(r.value.isbn)
    ensures r.Err? ==> r.error.ValidationFailed? && r.error.paths != {}
    ensures r.Err? ==> ("genre" in r.error.paths <==> !GenreAllowed(doc.genre))
    ensures r.Err? ==> ("isbn" in r.error.paths <==> !IsbnAccepted(doc.isbn))
  {
    var failing := FailingPaths(doc);
    if failing == {} then
      assert IsbnAccepted(doc.isbn);
      ValidIsbnIffShape(doc.isbn.value);
      Ok(Book(doc.title.value, doc.isbn.value, doc.publishedDate, doc.genre, doc.author.value))
    else
      Err(ValidationFailed(failing))
  }

  /** Every stored book that satisfies the validators is accepted back unchanged. */
  lemma ValidateToDoc(b: Book)
    requires b.title != "" && b.isbn != "" && ValidIsbn(b.isbn) && GenreAllowed(b.genre)
    ensures Validate(ToDoc(b)) == Ok(b)
  {
  }

  /** A missing or empty title, a missing ISBN or a missing author reference is rejected. */
  lemma RequiredPathsEnforced(doc: BookDoc)
    requires doc.title.None? || doc.title == Some("") || doc.isbn.None? || doc.author.None?
    ensures Validate(doc).Err?
  {
  }

  /** A genre outside the three names is rejected, whatever the other paths hold. */
  lemma UnknownGenreRejected(doc: BookDoc)
    requires doc.genre.Some? && doc.genre.value !in Genres
    ensures Validate(doc) == Err(ValidationFailed(FailingPaths(doc)))
    ensures "genre" in FailingPaths(doc)
  {
  }

  /** Partial update: the fields present in the patch replace the stored ones. */
  function Apply(b: Book, p: BookPatch): (r: Book)
    ensures r.title == (if p.title.Some? then p.title.value else b.title)
    ensures r.isbn == PatchedIsbn(b, p)
    ensures p.publishedDate.None? ==> r.publishedDate == b.publishedDate
    ensures p.publishedDate.Some? ==> r.publishedDate == p.publishedDate
    ensures p.genre.None? ==> r.genre == b.genre
    ensures p.genre.Some? ==> r.genre == p.genre
    ensures r.author == (if p.author.Some? then p.author.value else b.author)
  {
    Book(
      if p.title.Some? then p.title.value else b.title,
      if p.isbn.Some? then p.isbn.value else b.isbn,
      if p.publishedDate.Some? then p.publishedDate else b.publishedDate,
      if p.genre.Some? then p.genre else b.genre,
      if p.author.Some? then p.author.value else b.author)
  }

  /** The ISBN a patched book ends up with. */
  function PatchedIsbn(b: Book, p: BookPatch): string {
    if p.isbn.Some? then p.isbn.value else b.isbn
  }

  // ---------------------------------------------------------------------
  // The unique index on `isbn`
  // ---------------------------------------------------------------------

  /** No two stored books share an ISBN. */
  ghost predicate UniqueIsbns(books: map<Id, Book>) {
    forall a, b :: a in books && b in books && a != b ==> books[a].isbn != books[b].isbn
  }

  /** Some stored book other than `except` has this ISBN. */
  predicate IsbnTakenByOther(books: map<Id, Book>, isbn: string, except: Id) {
    exists k :: k in books && k != except && books[k].isbn == isbn
  }

  /** Adding a book whose ISBN no other stored book has keeps the index unique. */
  lemma UniqueAfterPut(books: map<Id, Book>, id: Id, b: Book)
    requires UniqueIsbns(books)
    requires !IsbnTakenByOther(books, b.isbn, id)
    ensures UniqueIsbns(books[id := b])
  {
    var after := books[id := b];
    forall x, y | x in after && y in after && x != y
      ensures after[x].isbn != after[y].isbn
    {
      if x == id {
        assert !(y in books && y != id && books[y].isbn == b.isbn);
      } else if y == id {
        assert !(x in books && x != id && books[x].isbn == b.isbn);
      }
    }
  }
}
