/**
 * The request body of `POST /books` and its class-validator rules, checked
 * before the handler runs: `title` and `isbn` are non-empty strings, `isbn`
 * matches the ISBN expression, `publishedDate` (optional) is a date string,
 * `genre` (optional) is any string, `authorId` is not empty.
 */
module CreateBookDto {
  import opened Wrappers
  import opened Isbn
  import BookSchema

  /** A property of the JSON body. */
  datatype Json = Missing | Null | Str(s: string) | OtherValue  // OtherValue: number, boolean, object or array

  datatype CreateBookDto = CreateBookDto(
    title: Json,
    isbn: Json,
    publishedDate: Json,
    genre: Json,
    authorId: Json)

  predicate IsString(v: Json) {
    v.Str?
  }

  /** `@IsNotEmpty`: not '', not null, not undefined. */
  predicate IsNotEmpty(v: Json) {
    v != Missing && v != Null && v != Str("")
  }

  /** `@IsOptional`: a null or undefined property skips the property's other validators. */
  predicate Skipped(v: Json) {
    v == Missing || v == Null
  }

  /** `@Matches` with the ISBN expression: a string that the expression accepts. */
  predicate MatchesIsbn(v: Json) {
    v.Str? && ValidIsbn(v.s)
  }

  /** The properties of the body, as class-validator names them in its errors. */
  datatype Property = TitleProperty | IsbnProperty | PublishedDateProperty | GenreProperty | AuthorIdProperty

  const AllProperties: set<Property> :=
    {TitleProperty, IsbnProperty, PublishedDateProperty, GenreProperty, AuthorIdProperty}

  /**
   * The decorators of one property reject the body. `isDateString` stands
   * for class-validator's ISO 8601 check behind `@IsDateString`.
   */
  predicate Fails(dto: CreateBookDto, isDateString: string -> bool, p: Property) {
    match p
    case TitleProperty => !(IsString(dto.title) && IsNotEmpty(dto.title))
    case IsbnProperty => !(IsString(dto.isbn) && IsNotEmpty(dto.isbn) && MatchesIsbn(dto.isbn))
    case PublishedDateProperty =>
      !(Skipped(dto.publishedDate) || (dto.publishedDate.Str? && isDateString(dto.publishedDate.s)))
    case GenreProperty => !(Skipped(dto.genre) || IsString(dto.genre))
    case AuthorIdProperty => !IsNotEmpty(dto.authorId)
  }

  /** The properties that fail validation. */
  function FailingProperties(dto: CreateBookDto, isDateString: string -> bool): (r: set<Property>)
    ensures r <= AllProperties
    ensures TitleProperty !in r <==> dto.title.Str? && dto.title.s != ""
    // a string the expression accepts is never empty: `@Matches` alone decides
    ensures IsbnProperty !in r <==> MatchesIsbn(dto.isbn)
    ensures PublishedDateProperty !in r <==>
      Skipped(dto.publishedDate) || (dto.publishedDate.Str? && isDateString(dto.publishedDate.s))
    ensures GenreProperty in r <==> dto.genre == OtherValue
    ensures AuthorIdProperty !in r <==> IsNotEmpty(dto.authorId)
  {
    set p | p in AllProperties && Fails(dto, isDateString, p)
  }

  /** The body passes the pipe and reaches the handler. */
  predicate Passes(dto: CreateBookDto, isDateString: string -> bool)
    ensures Passes(dto, isDateString) <==>
      && dto.title.Str? && dto.title.s != ""
      && dto.isbn.Str? && ValidIsbn(dto.isbn.s)
      && (Skipped(dto.publishedDate) || (dto.publishedDate.Str? && isDateString(dto.publishedDate.s)))
      && dto.genre != OtherValue
      && IsNotEmpty(dto.authorId)
  {
    FailingProperties(dto, isDateString) == {}
  }

  /** A missing, null or empty `title` fails, as does one that is not a string. */
  lemma TitleRequired(dto: CreateBookDto, isDateString: string -> bool)
    requires !dto.title.Str? || dto.title.s == ""
    ensures TitleProperty in FailingProperties(dto, isDateString)
    ensures !Passes(dto, isDateString)
  {
  }

  /** A missing, null or empty `authorId` fails. */
  lemma AuthorIdRequired(dto: CreateBookDto, isDateString: string -> bool)
    requires dto.authorId in {Missing, Null, Str("")}
    ensures AuthorIdProperty in FailingProperties(dto, isDateString)
    ensures !Passes(dto, isDateString)
  {
  }

  /**
   * A body whose ISBN passes the DTO passes the schema's ISBN check too
   * (both use the same expression), and has the five-group shape.
   */
  lemma IsbnAcceptedDownstream(dto: CreateBookDto, isDateString: string -> bool)
    requires IsbnProperty !in FailingProperties(dto, isDateString)
    ensures dto.isbn.Str? && BookSchema.IsbnAccepted(Some(dto.isbn.s))
    ensures IsbnShape(dto.isbn.s)
  {
    ValidIsbnIffShape(dto.isbn.s);
  }

  /** `publishedDate` and `genre` may be left out of an otherwise valid body. */
  lemma OptionalPropertiesMayBeAbsent(dto: CreateBookDto, isDateString: string -> bool)
    requires Passes(dto, isDateString)
    ensures Passes(dto.(publishedDate := Missing, genre := Missing), isDateString)
  {
  }

  /**
   * The DTO takes any string as `genre`, while the schema takes only the
   * three enum names: a genre outside them passes the DTO and is rejected
   * at save.
   */
  lemma GenreCheckedOnlyAtSave(dto: CreateBookDto, isDateString: string -> bool, g: string)
    requires Passes(dto, isDateString)
    ensures Passes(dto.(genre := Str(g)), isDateString)
    ensures g !in BookSchema.Genres ==>
      forall doc: BookSchema.BookDoc :: doc.genre == Some(g) ==> BookSchema.Validate(doc).Err?
  {
  }
}
