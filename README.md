# Book manager: a Dafny model

The book manager is a small Django REST service. A client registers a
username and password and gets back an API key. It then sends
`Authorization: Api-Key <key>` with each request to list, create, read,
update and delete its own books. This project models what the service
decides beneath the framework:

- how a book's fields are validated (the `Book` model's columns and the
  serializer's `validate_isbn`);
- how the `Authorization` header is read twice. First the `HasAPIKey`
  permission reads its own key and checks it is in the key table. Then the
  view cuts out its key and resolves it, first to a key name and then to
  the user with that username;
- how every book operation is scoped to that user;
- how registration creates a user and a key named after it.

Modules, one per concern:

| file | module | models |
|---|---|---|
| `wrappers.dfy` | `Wrappers` | `Option`, for Python's `None` |
| `strings.dfy` | `Strings` | Python's `startswith`, `find`, `split` and `join` |
| `models.dfy` | `Models` | the `User` and `Book` records, column limits |
| `serializers.dfy` | `Serializers` | field validation, the isbn pattern, the date format, the rows `save()` writes |
| `credentials.dfy` | `Credentials` | the permission's header parser, `_get_api_key`, key→name→user resolution, fresh secrets |
| `service.dfy` | `Service` | class `Store` (key, user and book tables), the book endpoints, registration, cascade delete |
| `scenarios.dfy` | `Scenarios` | clients of `Store` that replay what the Django test cases check |

The database is the class `Store`. Its fields are:

- `keys`: secret ↦ key name;
- `users`: username ↦ user;
- `books`: id ↦ book;
- `nextBookId` and `nextUserId`: the next ids to hand out.

Its invariant `Valid()` says that:

- every secret in the key table is non-empty and free of spaces, as issued keys are;
- usernames and user ids are unique;
- every book is stored under its own id;
- every book satisfies the field rules;
- every book belongs to exactly one existing user.

Every method keeps `Valid()`. List and retrieve are pure lookups, so they are
functions that read the store. Create, update, delete, user deletion, key
issuing and registration are methods. Their postconditions state the whole
new state and the answer. Answers are datatypes:

- `Outcome`: `Ok`, `BadRequest` with the failing fields, `NotFound`,
  `Unauthorized` (the permission refused the request) or `InvalidKey` (the
  view raised its `ValueError` about the key or its user);
- `Registration`: `Registered` with id, username, email and key in clear, or
  `Refused` with the source's message.

Two things outside the program are given as inputs. The server clock is the
parameter `now` of `Store.Create`. The key generator's randomness is a
nondeterministic choice of a secret that is unused, not empty and has no
space (`Store.IssueKey`).

Three behaviours of the code are worth stating plainly:

- `validate_isbn` strips no prefix and normalises nothing. An accepted value
  is stored exactly as sent, so `"ISBN 1234567890"` is refused.
- There is no key revocation.
- A missing, malformed or unknown key is refused by the permission before
  the view runs. The view's `ValueError` is reached only by a header the
  permission accepts but the view's own parse or user lookup rejects: the
  keyword in another case, or a key whose name is no username.

## Model

| member | source | states |
|---|---|---|
| `Strings.Find` | bookmanager/books/views.py:17 | the index returned is an occurrence of the separator with no earlier one; `None` exactly when it does not occur |
| `Strings.JoinSplit` | bookmanager/books/views.py:17 | joining the pieces of `split` with the separator gives back the original string |
| `Strings.Split` | bookmanager/books/views.py:17 | the first piece of `split` is the text before the first occurrence of the separator (all of it when there is none); there is more than one piece exactly when the separator occurs |
| `Strings.SplitLeadingSeparator` | bookmanager/books/views.py:16-17 | splitting a string that starts with the separator gives `""` followed by the pieces of the rest, so `[1]` exists |
| `Strings.FirstPieceUnique` | bookmanager/books/views.py:17 | the text before the first occurrence is determined uniquely |
| `Serializers.IsbnPatternMeaning` | bookmanager/books/serializers.py:15 | `^\d{10}(\d{3})?$` matches exactly the strings of 10 or 13 ASCII digits: no other length, no other character |
| `Serializers.ValidateIsbn` | bookmanager/books/serializers.py:13-17 | accepts exactly `None`, `""` and 10- or 13-digit strings; an accepted value is returned unchanged, so validating it again gives the same answer; a refusal carries the isbn error |
| `Serializers.CheckText` | bookmanager/books/models.py:8-9 | title and author are accepted exactly when present, not null, not empty, at most 255 characters and free of NUL characters, and are kept as sent; a NUL character in an otherwise good value is reported as such |
| `Serializers.CheckDate` | bookmanager/books/models.py:10 | `published_date` is optional and nullable; a given string is accepted exactly when it is a YYYY-MM-DD calendar date |
| `Serializers.CheckIsbn` | bookmanager/books/models.py:11 | `isbn` is optional, nullable and may be blank; a value longer than 13 characters, one with a NUL character, or one `validate_isbn` refuses is an error; an omitted one never reaches `validate_isbn` |
| `Serializers.Validate` | bookmanager/books/serializers.py:5-17 | the fields reported as failing are exactly the fields whose rule fails, so every bad field is named; a valid body yields its values unchanged |
| `Serializers.ReadOnlyFieldsIgnored` | bookmanager/books/serializers.py:10 | what a body says about `id`, `user` and `creation_date` never changes the validation result |
| `Serializers.NewBookStorable` | bookmanager/books/models.py:5-12 | a row built from validated input satisfies every column and field rule, whatever id, owner and clock |
| `Serializers.RevisedStorable` | bookmanager/books/models.py:5-12 | a full update with validated input keeps a book within the column and field rules |
| `Serializers.IsbnExamples` | bookmanager/books/serializers.py:15-17 | the tests' isbn values: 10 and 13 digits accepted; 4, 11 and 12 digits and `"invalid-isbn"` refused; `None` and `""` returned unchanged |
| `Serializers.NullCharacterExample` | bookmanager/books/models.py:8 | a title `"a\0b"` is refused for its NUL character, and the body naming it is refused for that field alone |
| `Serializers.DateExamples` | bookmanager/books/tests.py:252-274 | `"2021-01-01"` and `"2021-02-01"` are dates; `"invalid-date-format"` and `"invalid-date"` are not |
| `Serializers.EveryBadFieldReported` | bookmanager/books/tests.py:79-93 | a body missing title and author with a bad date and a bad isbn is refused naming all four fields, in order |
| `Credentials.ApiKey` | bookmanager/books/views.py:13-20 | a key is returned exactly when the header is present and starts with `"Api-Key "`, case and space included; it is the text after the scheme up to any second occurrence of the scheme |
| `Credentials.ApiKeyOfPlainSecret` | bookmanager/books/views.py:16-18 | a header `"Api-Key " + secret` yields the whole secret when the secret does not contain the scheme |
| `Credentials.ApiKeyTruncatedAtSecondScheme` | bookmanager/books/views.py:17 | the view's parse cuts a key at a second `"Api-Key "`: only the part before it is returned (the permission refuses such a header first, see `Credentials.SecondSchemeRefused`) |
| `Credentials.HeadersWithoutSchemeRefused` | bookmanager/books/views.py:16-20 | the view refuses a missing header, an empty one, another scheme, another case and a missing space |
| `Credentials.PermissionKey` | bookmanager/books/views.py:11 | the permission reads a key exactly when the header has the keyword, in any case of its letters, followed by a space; the key is all of the rest |
| `Credentials.HasApiKey` | bookmanager/books/views.py:11 | the permission passes exactly when the header is the keyword in any case of its letters, a space, and a non-empty key that is in the key table |
| `Credentials.EmptyKeyRefused` | bookmanager/books/views.py:11 | the bare `"Api-Key "` gives the parser an empty key, which the permission refuses whatever the key table holds |
| `Credentials.PermissionKeyOfScheme` | bookmanager/books/views.py:11 | a header written with the view's scheme gives the permission everything after it |
| `Credentials.HeadersRefusedByPermission` | bookmanager/books/views.py:11 | the permission refuses a missing header, an empty one, another scheme and a missing space |
| `Credentials.SecondSchemeRefused` | bookmanager/books/views.py:11-17 | in a table of space-free secrets, a header whose key contains a second scheme never passes the permission |
| `Credentials.LowerCaseKeywordPassesOnlyPermission` | bookmanager/books/views.py:11-20 | `"api-key " + secret` with a listed secret passes the permission but not the view's case-sensitive parse, so the view raises |
| `Credentials.PermissionAndViewAgree` | bookmanager/books/views.py:11-18 | in a table of space-free secrets, a header that passes the permission and the view's parse names the same key to both |
| `Credentials.Resolve` | bookmanager/books/views.py:26-35 | resolves exactly when the view's key is in the key table and its name is a username, and then to that user; an unknown secret and a name that matches no username give the same failure |
| `Credentials.IssuedKeyResolves` | bookmanager/api_auth/views.py:40 | a secret without spaces, recorded under a username that is in the user table, sent with `Api-Key `, passes the permission and resolves to that user |
| `Credentials.FreshSecretExists` | bookmanager/api_auth/views.py:40 | however many keys exist, a secret that is unused, not empty and has no space is available |
| `Service.WithoutOwner` | bookmanager/books/models.py:6 | keeps exactly the books not owned by the given user, unchanged |
| `Service.Store.List` | bookmanager/books/views.py:11-35 | `Unauthorized` exactly when the permission refuses; `InvalidKey` exactly when it passes but the view's key does not resolve; otherwise exactly the books whose owner is the user the key names |
| `Service.Store.Retrieve` | bookmanager/books/views.py:11-35 | finds a book exactly when the list endpoint would list it; a missing id and another user's id give the same `NotFound` |
| `Service.Store.TruncatedKeyRefused` | bookmanager/books/views.py:11-17 | a header with a second scheme after the key is `Unauthorized` at the list endpoint |
| `Service.Store.OthersBooksInvisible` | bookmanager/books/tests.py:115-130 | another user's book is `NotFound` and absent from the list |
| `Service.Store.NoBooksEmptyList` | bookmanager/books/tests.py:148-154 | a user without books gets an empty list, not an error |
| `Service.Store.Create` | bookmanager/books/views.py:11-46 | the permission first (`Unauthorized`), then the body (`BadRequest`), then the user lookup (`InvalidKey`); the stored book is `NewBook` of the validated input, as `serializer.save(user=user)` writes it: the next id, the resolved user as owner and the clock as creation date, whatever the body says about them; any failure leaves the store unchanged |
| `Service.Store.Update` | bookmanager/books/views.py:11-35 | the permission's refusal gives `Unauthorized`, an unresolvable view key `InvalidKey`, another user's or a missing book `NotFound`, all before validation; success stores a book that is `UpdatedWith` the validated input (the method builds it with `Revised`): the given fields are replaced and id, owner and creation date are kept; any failure leaves the books unchanged |
| `Service.Store.Delete` | bookmanager/books/views.py:11-35 | only the caller's own book is removed; another user's or a missing book gives `NotFound` and leaves the books unchanged |
| `Service.Store.DeleteUser` | bookmanager/books/models.py:6 | deleting a user removes exactly that user's books, in cascade; the user's keys no longer resolve to anyone of that name |
| `Service.Store.IssueKey` | bookmanager/api_auth/views.py:40 | records one new, previously unused, non-empty, space-free secret under the given name and changes nothing else |
| `Service.Store.Register` | bookmanager/api_auth/views.py:16-51 | a missing or empty username or password is refused first, then a taken username, both with the source's messages and tables unchanged; otherwise exactly one user and one key named after the username are added, the answer echoes id, username, email (`""` when absent) and the key, and that key passes the permission and resolves to the new user; usernames stay unique |

## Left out

- HTTP transport, routing and status codes. Answers are datatype cases. The
  view's `ValueError` is an unhandled exception in the code; the model
  answers `InvalidKey` for it.
- `rest_framework_api_key` internals: how keys are generated at random, hashed,
  looked up by prefix, revoked and expired. The key table is a map from secret
  to name, and issuing a key picks any unused secret without a space.
- `HasAPIKey` permission (bookmanager/books/views.py:11): the library is not
  part of this model, and no version of it is pinned. `PermissionKey` follows
  the parser of its current releases: cut at the first space, compare the
  keyword without case, keep all the rest. Older releases parse differently.
  Unicode case folding of the keyword beyond ASCII letters, a custom key
  header setting, and expiry and revocation of keys are not modelled.
- Password hashing: the password is only checked for being non-empty and is
  not stored.
- Django's `normalize_email`, for an email that contains `@`, strips
  surrounding whitespace and lower-cases the domain part, rebuilding the
  address from the stripped parts. The model keeps only its `None` becomes
  `""` rule and echoes any other email as sent; Unicode case folding is not
  available.
- Date parsing: a published date is valid when it is a YYYY-MM-DD calendar
  date. Other formats Django's parser might accept are not modelled.
- Regex and field quirks: Python's `\d` matching non-ASCII digits, `$`
  accepting a trailing newline, and the trimming of surrounding whitespace
  in text fields.
- Serializers.CheckText: the framework also refuses lone surrogate code
  points in text. Dafny's `char` is a Unicode scalar value, so such strings
  cannot be written and the rule is not modelled.
- Non-string JSON values: numbers, booleans and lists in a body are outside
  the `Json` type, so the framework's coercion of numbers to strings is not
  modelled.
- Several error messages for one field: every field reports one reason.
- `Book.__str__` (bookmanager/books/models.py:14-15): presentation only.
- Service.Store.Update: leaves open what a full update does to an optional
  field the body omits. The framework decides it and the code does not show
  it. The body of the method keeps the stored value; the contract does not
  promise it.
- Service.Store.List: returns the caller's books as a map from id to book.
  The order of the query set is not modelled.
- PATCH partial updates, the framework's default behaviour.
- Concurrency: every operation is atomic. The code has no locking of its
  own, so races between registrations, or between an update and a delete,
  are not modelled.
- Service.Store.Register: usernames are assumed to be NFKC-normal already.
  `create_user` normalises the username it stores and echoes. The key is
  still named with the raw text. For a username such as `"ﬁ"` (U+FB01) the
  source stores `"fi"`, and the key then matches no username. The model
  stores the raw text and proves the key resolves.
- Database integrity errors. None of these paths is in the model, which
  answers `Registered` instead:
  - The unique constraint on usernames. With the normalisation above, a name
    whose normal form is taken passes the duplicate check and then fails at
    the constraint.
  - Column lengths that neither `create_user` nor `create_key` checks:
    `User.username` is at most 150 characters and `APIKey.name` at most 50.
    On a backend that enforces text column lengths, a username of 51 to 150
    characters creates the user and then fails in `create_key`, and a longer
    one fails in `create_user`. Whether these fail depends on the backend.
- `tests/test_api.py` and `tests/usage_example.py`: scripts that drive a live
  server. They serve only as evidence of intended behaviour.
