/**
 * The book serializer: how a request body becomes the validated fields of a
 * book, or the list of every field that failed.
 *
 * `id`, `user` and `creationDate` are read-only: they may appear in a body
 * but validation never looks at them, so the validated input has no place
 * for them. `validate_isbn` returns its argument unchanged; nothing here
 * trims, strips or normalises a value.
 */
module Serializers {
  import opened Wrappers
  import opened Strings
  import opened Models

  /** The value a field has in a JSON request body: missing, `null`, or a string. */
  datatype Json = Absent | Null | Str(s: string)

  /** A request body for the book endpoints, one entry per model field. */
  datatype Payload = Payload(
    id: Json,
    user: Json,
    title: Json,
    author: Json,
    publishedDate: Json,
    isbn: Json,
    creationDate: Json)

  /** The writable fields, in declaration order. */
  datatype Field = Title | Author | PublishedDate | Isbn

  /** Why a field was refused. */
  datatype Reason =
    | Required        // the field is missing
    | NotNull         // the field is null but not nullable
    | Blank           // the field is the empty string but may not be blank
    | TooLong(limit: nat)
    | NullCharacter   // "Null characters are not allowed."
    | InvalidDate
    | InvalidIsbn     // "ISBN must be a 10 or 13 digit integer"

  datatype FieldError = FieldError(field: Field, reason: Reason)

  /** An optional field either left out of the body or given a value. */
  datatype Presence<+T> = Omitted | Given(value: T)

  /** The outcome of validating one field. */
  datatype Checked<+T> = Accepted(value: T) | Rejected(reason: Reason)

  /** The validated, writable part of a book. */
  datatype BookInput = BookInput(
    title: string,
    author: string,
    publishedDate: Presence<Option<string>>,
    isbn: Presence<Option<string>>)

  datatype Validation = Valid(input: BookInput) | Invalid(errors: seq<FieldError>)

  // ---------------------------------------------------------------- dates

  /** The decimal value of a string of ASCII digits. */
  function DigitsValue(s: string): nat
    requires AllDigits(s)
  {
    if s == [] then 0 else DigitsValue(s[..|s| - 1]) * 10 + (s[|s| - 1] as int - '0' as int)
  }

  predicate IsLeapYear(y: int) {
    y % 4 == 0 && (y % 100 != 0 || y % 400 == 0)
  }

  function DaysInMonth(y: int, m: int): int {
    if m == 2 then (if IsLeapYear(y) then 29 else 28)
    else if m == 4 || m == 6 || m == 9 || m == 11 then 30
    else 31
  }

  /** `s` is a calendar date written YYYY-MM-DD (year 1 to 9999). */
  predicate IsIsoDate(s: string) {
    && |s| == 10 && s[4] == '-' && s[7] == '-'
    && AllDigits(s[..4]) && AllDigits(s[5..7]) && AllDigits(s[8..])
    && 1 <= DigitsValue(s[..4])
    && 1 <= DigitsValue(s[5..7]) <= 12
    && 1 <= DigitsValue(s[8..]) <= DaysInMonth(DigitsValue(s[..4]), DigitsValue(s[5..7]))
  }

  // ---------------------------------------------------------------- isbn

  /**
   * The regular expression `^\d{10}(\d{3})?$`, read piece by piece: ten
   * digits, then either the end or three more digits and the end.
   */
  predicate MatchesIsbnPattern(s: string) {
    && |s| >= 10 && AllDigits(s[..10])
    && (s[10..] == "" || (|s[10..]| == 3 && AllDigits(s[10..])))
  }

  /** Exactly 10 or exactly 13 ASCII digits, and nothing else. */
  predicate IsIsbnDigits(s: string) {
    (|s| == 10 || |s| == 13) && AllDigits(s)
  }

  /** The pattern admits 10 or 13 digits and no other length. */
  lemma IsbnPatternMeaning(s: string)
    ensures MatchesIsbnPattern(s) <==> IsIsbnDigits(s)
  {
    if |s| >= 10 {
      assert s == s[..10] + s[10..];
      assert AllDigits(s) <==> AllDigits(s[..10]) && AllDigits(s[10..]) by {
        if AllDigits(s[..10]) && AllDigits(s[10..]) {
          forall i | 0 <= i < |s| ensures IsAsciiDigit(s[i]) {
            if i < 10 { assert s[i] == s[..10][i]; } else { assert s[i] == s[10..][i - 10]; }
          }
        }
      }
    }
  }

  /**
   * `BookSerializer.validate_isbn`: a present, non-empty value that does not
   * match the pattern is refused; anything else is returned as it came.
   */
  function ValidateIsbn(value: Option<string>): (r: Checked<Option<string>>)
    ensures r.Accepted? <==> value.None? || value.value == "" || IsIsbnDigits(value.value)
    ensures r.Accepted? ==> r.value == value
    ensures r.Rejected? ==> r.reason == InvalidIsbn
  {
    match value
    case None => Accepted(value)
    case Some(s) =>
      IsbnPatternMeaning(s);
      if s != "" && !MatchesIsbnPattern(s) then Rejected(InvalidIsbn) else Accepted(value)
  }

  // ---------------------------------------------------------------- fields

  /** The character text fields refuse. */
  const NUL: char := '\0'

  /**
   * A required, non-blank, non-null text field of at most `maxLength`
   * characters. Like every text field of the framework, it refuses a value
   * that contains the NUL character.
   */
  function CheckText(v: Json, maxLength: nat): (r: Checked<string>)
    ensures r.Accepted? <==> v.Str? && 0 < |v.s| <= maxLength && NUL !in v.s
    ensures r.Accepted? ==> r.value == v.s
    ensures v.Str? && 0 < |v.s| <= maxLength && NUL in v.s ==> r == Rejected(NullCharacter)
  {
    match v
    case Absent => Rejected(Required)
    case Null => Rejected(NotNull)
    case Str(s) =>
      if s == "" then Rejected(Blank)
      else if |s| > maxLength then Rejected(TooLong(maxLength))
      else if NUL in s then Rejected(NullCharacter)
      else Accepted(s)
  }

  /** What an optional field contributes when it is accepted as given. */
  function Supplied(v: Json): Presence<Option<string>> {
    match v
    case Absent => Omitted
    case Null => Given(None)
    case Str(s) => Given(Some(s))
  }

  /** The optional, nullable `published_date` field. */
  function CheckDate(v: Json): (r: Checked<Presence<Option<string>>>)
    ensures r.Accepted? <==> !v.Str? || IsIsoDate(v.s)
    ensures r.Accepted? ==> r.value == Supplied(v)
  {
    match v
    case Str(s) => if IsIsoDate(s) then Accepted(Supplied(v)) else Rejected(InvalidDate)
    case _ => Accepted(Supplied(v))
  }

  /**
   * The optional, nullable, blank-allowed `isbn` field: the column's length
   * limit and the NUL rule of text fields are checked first, then
   * `validate_isbn` runs on the value (an omitted field is skipped and never
   * reaches `validate_isbn`).
   */
  function CheckIsbn(v: Json): (r: Checked<Presence<Option<string>>>)
    ensures r.Accepted? <==> !v.Str? || v.s == "" || IsIsbnDigits(v.s)
    ensures r.Accepted? ==> r.value == Supplied(v)
    ensures v.Str? && |v.s| <= MAX_ISBN_LENGTH && NUL in v.s ==> r == Rejected(NullCharacter)
  {
    match v
    case Absent => Accepted(Omitted)
    case Null => AsGiven(ValidateIsbn(None))
    case Str(s) =>
      if |s| > MAX_ISBN_LENGTH then Rejected(TooLong(MAX_ISBN_LENGTH))
      else if NUL in s then
        assert !IsAsciiDigit(NUL);
        Rejected(NullCharacter)
      else AsGiven(ValidateIsbn(Some(s)))
  }

  /** Marks an accepted value as given. */
  function AsGiven<T>(c: Checked<T>): Checked<Presence<T>> {
    match c
    case Accepted(x) => Accepted(Given(x))
    case Rejected(e) => Rejected(e)
  }

  // ---------------------------------------------------------------- record

  /** Reference definition: the field `f` of `p` satisfies its rule. */
  predicate Accepts(p: Payload, f: Field) {
    match f
    case Title => p.title.Str? && 0 < |p.title.s| <= MAX_TITLE_LENGTH && NUL !in p.title.s
    case Author => p.author.Str? && 0 < |p.author.s| <= MAX_AUTHOR_LENGTH && NUL !in p.author.s
    case PublishedDate => !p.publishedDate.Str? || IsIsoDate(p.publishedDate.s)
    case Isbn => !p.isbn.Str? || p.isbn.s == "" || IsIsbnDigits(p.isbn.s)
  }

  /** The fields a validation result reports as failing. */
  function Faulty(r: Validation): set<Field> {
    if r.Valid? then {} else set e | e in r.errors :: e.field
  }

  function ErrorsOf<T>(f: Field, c: Checked<T>): seq<FieldError> {
    if c.Rejected? then [FieldError(f, c.reason)] else []
  }

  /**
   * `is_valid()` of the serializer: every writable field is checked, and
   * either all pass and the validated input is returned, or every field
   * that failed is reported, in declaration order.
   */
  function Validate(p: Payload): (r: Validation)
    ensures forall f: Field :: f in Faulty(r) <==> !Accepts(p, f)
    ensures r.Invalid? ==> |r.errors| > 0
    ensures r.Valid? ==> p.title == Str(r.input.title) && p.author == Str(r.input.author)
    ensures r.Valid? ==> r.input.publishedDate == Supplied(p.publishedDate)
    ensures r.Valid? ==> r.input.isbn == Supplied(p.isbn)
  {
    var title := CheckText(p.title, MAX_TITLE_LENGTH);
    var author := CheckText(p.author, MAX_AUTHOR_LENGTH);
    var date := CheckDate(p.publishedDate);
    var isbn := CheckIsbn(p.isbn);
    if title.Accepted? && author.Accepted? && date.Accepted? && isbn.Accepted? then
      Valid(BookInput(title.value, author.value, date.value, isbn.value))
    else
      Invalid(ErrorsOf(Title, title) + ErrorsOf(Author, author)
              + ErrorsOf(PublishedDate, date) + ErrorsOf(Isbn, isbn))
  }

  /** Validation reads only the writable fields: read-only ones can be anything. */
  lemma ReadOnlyFieldsIgnored(p: Payload, id: Json, user: Json, creationDate: Json)
    ensures Validate(p.(id := id, user := user, creationDate := creationDate)) == Validate(p)
  {
  }

  // ---------------------------------------------------------------- saving

  /** A field the model stores: what was given, or the column default (null). */
  function Initial<T>(v: Presence<Option<T>>): Option<T> {
    if v.Given? then v.value else None
  }

  /** A field on a full update: what was given, or the current value. */
  function Replace<T>(current: T, v: Presence<T>): T {
    if v.Given? then v.value else current
  }

  /**
   * The row `serializer.save(user=owner)` inserts: the validated fields, the
   * owner passed by the view and the clock reading as creation date.
   */
  function NewBook(id: nat, owner: nat, input: BookInput, now: int): Book {
    Book(id, owner, input.title, input.author, Initial(input.publishedDate), Initial(input.isbn), now)
  }

  /** The row after a full update with validated input `input`. */
  function Revised(b: Book, input: BookInput): Book {
    b.(title := input.title, author := input.author,
       publishedDate := Replace(b.publishedDate, input.publishedDate),
       isbn := Replace(b.isbn, input.isbn))
  }

  /**
   * `after` is `before` fully updated with `input`: the given fields are
   * replaced, the id, owner and creation date are kept. What becomes of an
   * optional field the input omits is left open.
   */
  predicate UpdatedWith(before: Book, input: BookInput, after: Book) {
    && after.id == before.id
    && after.owner == before.owner
    && after.creationDate == before.creationDate
    && after.title == input.title
    && after.author == input.author
    && (input.publishedDate.Given? ==> after.publishedDate == input.publishedDate.value)
    && (input.isbn.Given? ==> after.isbn == input.isbn.value)
  }

  /** What every stored book satisfies: the column rules and the field validators. */
  predicate Storable(b: Book) {
    && FitsColumns(b)
    && NUL !in b.title && NUL !in b.author
    && (b.publishedDate.Some? ==> IsIsoDate(b.publishedDate.value))
    && (b.isbn.Some? ==> b.isbn.value == "" || IsIsbnDigits(b.isbn.value))
  }

  /** A book built from validated input is storable, whatever the id, owner and clock. */
  lemma NewBookStorable(p: Payload, id: nat, owner: nat, now: int)
    requires Validate(p).Valid?
    ensures Storable(NewBook(id, owner, Validate(p).input, now))
  {
    assert Accepts(p, Title) && Accepts(p, Author) && Accepts(p, PublishedDate) && Accepts(p, Isbn);
  }

  /** A full update with validated input keeps a storable book storable. */
  lemma RevisedStorable(b: Book, p: Payload)
    requires Storable(b) && Validate(p).Valid?
    ensures Storable(Revised(b, Validate(p).input))
  {
    assert Accepts(p, Title) && Accepts(p, Author) && Accepts(p, PublishedDate) && Accepts(p, Isbn);
  }

  // ---------------------------------------------------------------- examples

  /** The isbn values the tests use. */
  lemma IsbnExamples()
    ensures ValidateIsbn(Some("1234567890")).Accepted?
    ensures ValidateIsbn(Some("1234567890123")).Accepted?
    ensures ValidateIsbn(Some("0987654321098")).Accepted?
    ensures ValidateIsbn(Some("1234")).Rejected?
    ensures ValidateIsbn(Some("12345678901")).Rejected?
    ensures ValidateIsbn(Some("123456789012")).Rejected?
    ensures ValidateIsbn(Some("invalid-isbn")).Rejected?
    ensures ValidateIsbn(Some("")) == Accepted(Some(""))
    ensures ValidateIsbn(None) == Accepted(None)
  {
    assert !IsAsciiDigit("invalid-isbn"[0]);
  }

  /** The value of a two-digit string, digit by digit. */
  lemma TwoDigitsValue(s: string)
    requires |s| == 2 && AllDigits(s)
    ensures DigitsValue(s) == (s[0] as int - '0' as int) * 10 + (s[1] as int - '0' as int)
  {
    OneDigitValue(s[..1]);
    assert DigitsValue(s) == DigitsValue(s[..1]) * 10 + (s[1] as int - '0' as int);
  }

  /** The value of a one-digit string. */
  lemma OneDigitValue(s: string)
    requires |s| == 1 && AllDigits(s)
    ensures DigitsValue(s) == s[0] as int - '0' as int
  {
    assert s[..0] == [];
    assert DigitsValue(s) == DigitsValue(s[..0]) * 10 + (s[0] as int - '0' as int);
  }

  /** The value of a four-digit string, digit by digit. */
  lemma FourDigitsValue(s: string)
    requires |s| == 4 && AllDigits(s)
    ensures DigitsValue(s) == (s[0] as int - '0' as int) * 1000 + (s[1] as int - '0' as int) * 100
                            + (s[2] as int - '0' as int) * 10 + (s[3] as int - '0' as int)
  {
    var three := s[..3];
    TwoDigitsValue(three[..2]);
    assert DigitsValue(three) == DigitsValue(three[..2]) * 10 + (s[2] as int - '0' as int);
    assert DigitsValue(s) == DigitsValue(three) * 10 + (s[3] as int - '0' as int);
  }

  /** A title with a NUL character in it is refused, and so is the whole body. */
  lemma NullCharacterExample()
    ensures CheckText(Str("a\0b"), MAX_TITLE_LENGTH) == Rejected(NullCharacter)
    ensures Validate(Payload(Absent, Absent, Str("a\0b"), Str("Author One"), Absent, Absent, Absent))
         == Invalid([FieldError(Title, NullCharacter)])
  {
    assert "a\0b"[1] == NUL;
    assert NUL !in "Author One";
  }

  /** The date values the tests use. */
  lemma DateExamples()
    ensures IsIsoDate("2021-01-01") && IsIsoDate("2021-02-01")
    ensures !IsIsoDate("invalid-date-format") && !IsIsoDate("invalid-date")
  {
    var jan, feb := "2021-01-01", "2021-02-01";
    TwoDigitsValue(jan[5..7]);
    TwoDigitsValue(jan[8..]);
    FourDigitsValue(jan[..4]);
    TwoDigitsValue(feb[5..7]);
    TwoDigitsValue(feb[8..]);
    FourDigitsValue(feb[..4]);
    assert !IsAsciiDigit("invalid-date"[0]);
  }

  /** A body with no title, no author, a bad date and a bad isbn reports all four. */
  lemma EveryBadFieldReported()
    ensures Validate(Payload(Absent, Absent, Absent, Absent, Str("invalid-date-format"), Str("invalid-isbn"), Absent))
         == Invalid([FieldError(Title, Required), FieldError(Author, Required),
                     FieldError(PublishedDate, InvalidDate), FieldError(Isbn, InvalidIsbn)])
  {
    assert !IsAsciiDigit("invalid-isbn"[0]);
  }
}
