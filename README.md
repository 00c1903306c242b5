# Book Management System: record validation and handler dispatch

A Dafny model of the part of the Book Management System REST API that holds
logic of its own. The rest is NestJS and Mongoose wiring.

- **The ISBN check.** The book DTO and the book schema use the same anchored
  regular expression `^\d{3}-\d{1,5}-\d{1,7}-\d{1,7}-\d{1}$`.
  - `Isbn.Matches` models it as a sequence of atoms matched with
    backtracking.
  - `Isbn.IsbnShape` is an independent definition: split the string at its
    hyphens and require five groups of ASCII digits with lengths 3, 1–5,
    1–7, 1–7 and 1.
  - The model proves the two agree, derives the hyphen count, the length
    range and the alphabet of an accepted ISBN, and proves a single-pass
    scanner (`Isbn.ScanIsbn`) equal to both.
- **Field rules.**
  - The author schema requires `firstName` and `lastName`.
  - The book schema requires `title`, `isbn` and `author`. It matches
    `isbn` against the expression and limits `genre` to three names.
  - The create-book DTO has its own class-validator rules.
  - Mongoose's `required` on a String path also rejects the empty string,
    and the model follows that.
- **The unique index on `isbn`.** `BookSchema.UniqueIsbns` holds of the
  book collection. Every book request preserves it, and it is the invariant
  of `BookHandlers.BookController`.
- **Handler dispatch.**
  - The classes `AuthorHandlers.AuthorController` and
    `BookHandlers.BookController` hold their collection as a
    `map<Id, record>`. Their methods return the reply envelope
    (`Api.Reply`): the success envelope, the `HttpException` (400 `Invalid
    ID`, 404 `… not found`), or a store rejection that propagates.
  - Each method is proved equal to a step function (`CreateStep`,
    `FindOneReply`, `UpdateStep`, `RemoveStep`). The lemmas about sequences
    of requests are stated over those functions.
  - The author `update` checks that the author exists before it updates.
    The book `update` issues the update and answers 404 afterwards. Both
    leave the collection unchanged on an unknown id.

`mongoose.Types.ObjectId.isValid` is the `isValidId` field of each
controller, an arbitrary `Id -> bool`. The id Mongoose would generate for a
new document is the parameter `newId`. Dates are the opaque `Api.Date`. The
ISO-8601 test behind `@IsDateString` is the parameter `isDateString`.

Two branches of the author handlers can never fire in the model:
- `create`'s `if (!author)`. `Model.create` resolves to the saved document
  or rejects. `AuthorHandlers.CreateStep` proves that the reply is never
  400 `Author not created`.
- `findAll`'s `if (!authors)`. `find()` resolves to an array, which is
  truthy even when empty. `AuthorController.FindAll` always succeeds.

The code has no pagination, search, author-existence check on book
creation or ISBN pre-check, and the model follows the code. Where the unit and
end-to-end tests expect something the handlers do not do (a paginated
listing, an `Authors fetched successfully` message, a `PATCH` reply
without data), the model follows the handlers as well.

## Model

| member | source | states |
|---|---|---|
| `Isbn.MatchBounds` | src/book/dto/create-book.dto.ts:11 | `Isbn.Matches` is the anchored expression, as a sequence of `\d{min,max}` runs and literal characters matched with backtracking; a match is never shorter than the pattern's fewest characters nor longer than its most |
| `Isbn.RunBounds` | src/book/dto/create-book.dto.ts:11 | `Isbn.MatchRun` is a `\d{min,max}` run followed by the rest of the pattern, which either stops or takes one more digit; it takes between `min` and `max` digits more than the rest does |
| `Isbn.ValidIsbn` | src/book/dto/create-book.dto.ts:11 | the ISBN expression, which the schema's `match` (src/book/book.schema.ts:14) repeats; any string it accepts has 11 to 27 characters, so it is never empty |
| `Isbn.ValidIsbnIffShape` | src/book/dto/create-book.dto.ts:11 | the expression accepts a string exactly when it is five hyphen-separated groups of ASCII digits with lengths 3, 1–5, 1–7, 1–7, 1 |
| `Isbn.HyphenatedSound` | src/book/dto/create-book.dto.ts:11 | any match of `\d{..}-…-\d{..}` splits at its hyphens into digit groups within the bounds |
| `Isbn.HyphenatedComplete` | src/book/dto/create-book.dto.ts:11 | every string whose hyphen-separated groups are digits within the bounds matches, despite the backtracking |
| `Isbn.AcceptsGroups` | src/book/dto/create-book.dto.ts:11 | joining five digit groups of admissible lengths with hyphens always gives an accepted ISBN |
| `Isbn.IsbnLayout` | src/book/dto/create-book.dto.ts:11 | an accepted ISBN has exactly four hyphens and 11 to 27 characters |
| `Isbn.IsbnAlphabet` | src/book/dto/create-book.dto.ts:11 | an accepted ISBN contains only `0`–`9` and `-` |
| `Isbn.RejectsForeignChar` | src/book/dto/create-book.dto.ts:11 | one character other than a digit or hyphen anywhere (an `X` check digit, a space, surrounding text) makes the string rejected |
| `Isbn.HyphenlessRejected` | src/book/dto/create-book.dto.ts:11 | a string with no hyphen, such as 13 bare digits, is rejected |
| `Isbn.LongCheckDigitRejected` | src/book/dto/create-book.dto.ts:11 | `978-3-16-148410-00` is rejected: the last group is exactly one digit |
| `Isbn.ExampleAccepted` | src/book/dto/create-book.dto.ts:12 | the example in the error message, `978-3-16-148410-0`, is accepted |
| `Isbn.ScanIsbn` | src/book/dto/create-book.dto.ts:11 | a one-pass scan that tracks the group index and length returns exactly the expression's verdict |
| `Isbn.Split` | src/book/book.schema.ts:14 | splitting at hyphens gives at least one group, and no group contains a hyphen |
| `Isbn.JoinSplit` | src/book/book.schema.ts:14 | rejoining the groups with hyphens gives back the original string |
| `Isbn.SplitJoin` | src/book/book.schema.ts:14 | splitting hyphen-free groups joined by hyphens gives back the groups |
| `AuthorSchema.Validate` | src/author/author.schema.ts:5-18 | a new author is accepted iff `firstName` and `lastName` are present and non-empty; the failing paths are reported; an accepted document is stored field for field |
| `AuthorSchema.ValidateToDoc` | src/author/author.schema.ts:5-18 | a stored author with non-empty names validates back to itself |
| `AuthorSchema.OptionalPathsIrrelevant` | src/author/author.schema.ts:13-17 | whether `bio` and `birthDate` are present never decides acceptance |
| `AuthorSchema.Apply` | src/author/author.service.ts:27 | the partial update `findByIdAndUpdate` performs: each field the patch carries replaces the stored one, every other field keeps its value |
| `AuthorSchema.ApplyLaws` | src/author/author.service.ts:26-28 | a partial update with no fields changes nothing; applying the same patch twice equals applying it once |
| `BookSchema.Validate` | src/book/book.schema.ts:6-26 | a new book is accepted iff title is non-empty, isbn is non-empty and matches the expression, genre is absent or one of three names, and author is present; an accepted book has the five-group ISBN shape and is stored field for field |
| `BookSchema.FailingPaths` | src/book/book.schema.ts:6-26 | the paths a rejected document is reported under: none exactly when every validator passes; `title` exactly when it is missing or empty; `isbn` exactly when it is missing, empty or does not match; `genre` exactly when the enum rejects it; `author` exactly when the reference is missing |
| `BookSchema.ValidateToDoc` | src/book/book.schema.ts:6-26 | a stored book that satisfies the validators validates back to itself |
| `BookSchema.RequiredPathsEnforced` | src/book/book.schema.ts:7-25 | a missing or empty title, a missing isbn, or a missing author reference is rejected |
| `BookSchema.UnknownGenreRejected` | src/book/book.schema.ts:21 | a genre outside `Fantasy`, `Science Fiction`, `Thriller` is rejected with `genre` among the failing paths |
| `BookSchema.Apply` | src/book/book.service.ts:25 | the partial update `findByIdAndUpdate` performs: each field the patch carries replaces the stored one, every other field keeps its value; the resulting ISBN is the one the unique-index check is made on (`PatchedIsbn`) |
| `BookSchema.UniqueAfterPut` | src/book/book.schema.ts:13 | storing a book whose ISBN no other book holds keeps ISBNs unique |
| `CreateBookDto.FailingProperties` | src/book/dto/create-book.dto.ts:5-25 | the properties whose decorators reject the body: `title` fails unless it is a non-empty string; `isbn` passes exactly when it is a string the ISBN expression accepts, since `@IsString` and `@IsNotEmpty` add nothing then; `publishedDate` passes exactly when it is missing, null or a string the date check accepts; `genre` fails only when present and not a string; `authorId` fails when missing, null or empty |
| `CreateBookDto.Passes` | src/book/dto/create-book.dto.ts:5-25 | a body passes exactly when it has a non-empty string title, an accepted ISBN string, a `publishedDate` that is missing, null or an accepted date string, a genre that is a string, missing or null, and a non-empty `authorId` |
| `CreateBookDto.TitleRequired` | src/book/dto/create-book.dto.ts:5-7 | a missing, null, empty or non-string title fails validation |
| `CreateBookDto.AuthorIdRequired` | src/book/dto/create-book.dto.ts:24-25 | a missing, null or empty `authorId` fails validation |
| `CreateBookDto.IsbnAcceptedDownstream` | src/book/dto/create-book.dto.ts:9-14 | an ISBN that passes the DTO also passes the schema's required and pattern checks, and has the five-group shape |
| `CreateBookDto.OptionalPropertiesMayBeAbsent` | src/book/dto/create-book.dto.ts:16-22 | removing `publishedDate` and `genre` from a valid body keeps it valid |
| `CreateBookDto.GenreCheckedOnlyAtSave` | src/book/dto/create-book.dto.ts:20-22 | in a passing body, `genre` can be replaced by any string and the body still passes; with a string outside the three enum names, every document carrying that genre is rejected by the schema at save |
| `AuthorHandlers.CreateStep` | src/author/author.controller.ts:11-23 | create succeeds iff the document validates and the id is new; on success exactly that author is added and returned with `Author created successfully`; on failure the rejection propagates and nothing changes; the reply is never 400 `Author not created` |
| `AuthorHandlers.FindOneReply` | src/author/author.controller.ts:38-52 | malformed id gives 400 `Invalid ID`; a valid unknown id gives 404 `Author not found`; otherwise the stored author with `Author found successfully` |
| `AuthorHandlers.UpdateStep` | src/author/author.controller.ts:54-69 | 400 on a malformed id and 404 on an unknown one, both without change; otherwise only that author changes, to the patched record, and the reply carries the author as it was before the update (`findByIdAndUpdate`'s default) |
| `AuthorHandlers.RemoveStep` | src/author/author.controller.ts:71-85 | 400/404 without change; otherwise exactly that id is removed and the reply is `Author deleted successfully` with no data |
| `AuthorHandlers.MalformedIdAnsweredFirst` | src/author/author.controller.ts:38-85 | for a malformed id, findOne, update and remove give the same reply whatever the collection holds, and change nothing |
| `AuthorHandlers.FailuresChangeNothing` | src/author/author.controller.ts:11-85 | every request that does not succeed leaves the author collection unchanged |
| `AuthorHandlers.CreateThenFind` | src/author/author.controller.ts:11-52 | an author just created is found under its new id |
| `AuthorHandlers.UpdateThenFind` | src/author/author.controller.ts:38-69 | after a successful update, findOne returns the patched author |
| `AuthorHandlers.RemoveThenFind` | src/author/author.controller.ts:38-85 | after a successful remove, findOne and a second remove both give 404 |
| `AuthorHandlers.SameAuthorTwice` | src/author/author.schema.ts:5-18 | with no unique path, the same author document can be created twice under two ids |
| `AuthorHandlers.Lifecycle` | test/author.e2e-spec.ts:6-78 | the end-to-end scenario: creating `Test Author` succeeds with both names, reading it by id gives that author, renaming to `Updated Test` succeeds, and deleting answers with no data. Beyond the test, the model reads the renamed author back and finds it gone after the deletion |
| `AuthorHandlers.AuthorController.constructor` | src/author/author.controller.ts:8-9 | a new controller starts with an empty collection |
| `AuthorHandlers.AuthorController.Create` | src/author/author.controller.ts:11-23 | reply and new collection are those of `CreateStep` |
| `AuthorHandlers.AuthorController.FindAll` | src/author/author.controller.ts:25-36 | always succeeds with every stored author, also when there are none |
| `AuthorHandlers.AuthorController.FindOne` | src/author/author.controller.ts:38-52 | reply is that of `FindOneReply` |
| `AuthorHandlers.AuthorController.Update` | src/author/author.controller.ts:54-69 | reply and new collection are those of `UpdateStep` |
| `AuthorHandlers.AuthorController.Remove` | src/author/author.controller.ts:71-85 | reply and new collection are those of `RemoveStep` |
| `BookHandlers.CreateStep` | src/book/book.controller.ts:12-20 | create succeeds iff the document validates, the id is new and no stored book has its ISBN; on success exactly that book is added and returned with `Book created successfully`; otherwise the rejection propagates and nothing changes; ISBN uniqueness is preserved |
| `BookHandlers.FindOneReply` | src/book/book.controller.ts:32-46 | malformed id gives 400 `Invalid ID`; a valid unknown id gives 404 `Book not found`; otherwise the stored book with `Book found successfully` |
| `BookHandlers.UpdateStep` | src/book/book.controller.ts:48-62 | 400 on a malformed id, 404 on an unknown id, a duplicate-key rejection when the patched ISBN belongs to another book, each without change; otherwise only that book changes, to the patched record, and the reply carries the book as it was before; ISBN uniqueness is preserved |
| `BookHandlers.RemoveStep` | src/book/book.controller.ts:64-79 | 400/404 without change; otherwise exactly that id is removed and the deleted book is returned with `Book deleted successfully` |
| `BookHandlers.MalformedIdAnsweredFirst` | src/book/book.controller.ts:32-79 | for a malformed id, findOne, update and remove give the same reply whatever the collection holds, and change nothing |
| `BookHandlers.CreateThenFind` | src/book/book.controller.ts:12-46 | a book just created is found under its new id |
| `BookHandlers.UpdateThenFind` | src/book/book.controller.ts:32-62 | after a successful update, findOne returns the patched book |
| `BookHandlers.RemoveThenFind` | src/book/book.controller.ts:32-79 | after a successful remove, findOne and a second remove both give 404 |
| `BookHandlers.SecondCreateSameIsbnFails` | src/book/book.schema.ts:13 | once a book is stored, creating another with the same ISBN fails and leaves the collection as it was |
| `BookHandlers.EndToEndIsbnAccepted` | test/book.e2espec.ts:24 | the ISBN the end-to-end test sends, any three digits followed by `-0-00-000000-0`, is accepted |
| `BookHandlers.UpdateSkipsSchemaChecks` | src/book/book.service.ts:24-26 | a body that reaches the handler can store an empty title, a non-ISBN and an unknown genre, which a create would reject, because the update does not re-run the schema's validators |
| `BookHandlers.BookController.constructor` | src/book/book.controller.ts:9-10 | a new controller starts with an empty collection, which has unique ISBNs |
| `BookHandlers.BookController.Create` | src/book/book.controller.ts:12-20 | reply and new collection are those of `CreateStep`; ISBNs stay unique |
| `BookHandlers.BookController.FindAll` | src/book/book.controller.ts:22-30 | always succeeds with every stored book, unfiltered |
| `BookHandlers.BookController.FindOne` | src/book/book.controller.ts:32-46 | reply is that of `FindOneReply` |
| `BookHandlers.BookController.Update` | src/book/book.controller.ts:48-62 | reply and new collection are those of `UpdateStep`; ISBNs stay unique |
| `BookHandlers.BookController.Remove` | src/book/book.controller.ts:64-79 | reply and new collection are those of `RemoveStep`; ISBNs stay unique |

## Left out

- Pagination, search, genre and author filters are not modelled. The
  handlers and services call `find()` without arguments
  (src/author/author.service.ts:16-18, src/book/book.service.ts:16-18).
  Tests that expect a paginated listing (src/author/author.controller.spec.ts:64-71,
  test/author.e2e-spec.ts:24-37) are not followed.
- No author-existence check or ISBN pre-check is modelled on book creation,
  because the code has none. A duplicate ISBN is caught only by the unique
  index, as a rejection that the handler does not translate into a 4xx reply.
- The DTO's `authorId` is not linked to the schema's `author` path. The book
  record carries an explicit `author` reference, and `BookHandlers.CreateStep`
  takes the document as saved (`BookDoc`). How Mongoose would turn a body
  with `authorId` into one without `author` depends on its strict-mode
  handling, which is not part of this model. Nothing is proved about the
  linkage.
- Status codes for rejections are not modelled. A rejected save or update
  (validation failure, duplicate key) is `Api.Rejected`. Which HTTP status
  the framework then sends is not modelled.
- The internals of `ObjectId.isValid`, id generation and timestamps are
  parameters or left out (`isValidId`, `newId`). A generated id that
  collides with a stored one is modelled as a duplicate-key rejection.
- Dates are opaque. The `@IsDateString` check is the parameter
  `isDateString`. Mongoose's casting of strings to dates, numbers to strings
  and so on is not modelled: documents arrive already typed.
- Update bodies are modelled as optional fields: an absent field leaves the
  stored value alone. An explicit `null`, which would unset a path, is not
  modelled. `UpdateAuthorDto`, `UpdateBookDto` and `CreateAuthorDto` are not
  part of this model, so their validation is not modelled.
- The `ValidationPipe`'s `whitelist`/`forbidNonWhitelisted` handling of
  unknown body properties (src/main.ts:7-13) is not modelled.
- Records are stored in a map, so the order in which `find()` lists them is
  not modelled.
- Concurrency is not modelled. Each request runs to completion before the
  next one starts.
- AuthorHandlers.CreateStep: the `Author not created` branch
  (src/author/author.controller.ts:14-16) is never taken. `Model.create`
  resolves to the saved document or rejects. The unit tests that mock the
  service to resolve `null` (src/author/author.controller.spec.ts:51-54)
  have no counterpart in the model.
- AuthorHandlers.AuthorController.FindAll: the `Authors not found` branch
  (src/author/author.controller.ts:28-30) is never taken. `find()` resolves
  to an array, and an empty array is truthy.
- AuthorHandlers.FindOneReply, AuthorHandlers.UpdateStep,
  AuthorHandlers.RemoveStep, BookHandlers.FindOneReply,
  BookHandlers.UpdateStep, BookHandlers.RemoveStep: collections are keyed by
  the `:id` string as given. Mongoose casts it to an ObjectId first
  (src/author/author.service.ts:22,27,32, src/book/book.service.ts:21,25,29),
  so two spellings of one id that differ only in hex letter case reach the
  same document there. The model treats them as different ids, and the
  lookup finds nothing.
