/**
 * The behaviour the Django test cases check, replayed against the model:
 * each method below is a client of the store that asserts what the tests
 * assert, from the contracts alone.
 */
module Scenarios {
  import opened Wrappers
  import opened Serializers
  import opened Credentials
  import opened Service

  /** A request body that sets only the writable fields. */
  function Body(title: Json, author: Json, publishedDate: Json, isbn: Json): Payload {
    Payload(Absent, Absent, title, author, publishedDate, isbn, Absent)
  }

  /** The tests' set-up: two registered users, each with the header that carries their key. */
  method RegisterTwo() returns (store: Store, header1: Option<string>, header2: Option<string>)
    ensures fresh(store) && store.Valid() && store.books == map[]
    ensures HasApiKey(store.keys, header1) && HasApiKey(store.keys, header2)
    ensures Resolve(store.keys, store.users, header1).Some? && Resolve(store.keys, store.users, header1).value.id == 1
    ensures Resolve(store.keys, store.users, header2).Some? && Resolve(store.keys, store.users, header2).value.id == 2
  {
    store := new Store();
    var one := store.Register(Some("username1"), Some("user1@example.com"), Some("password"));
    var two := store.Register(Some("username2"), Some("user2@example.com"), Some("password"));
    assert one.Registered? && two.Registered?;
    IssuedKeyResolves(store.keys, store.users, one.apiKey);
    header1 := Some(SCHEME + one.apiKey);
    header2 := Some(SCHEME + two.apiKey);
  }

  /** A valid body with a 13-digit isbn, as the tests send it. */
  lemma ValidBody()
    ensures Validate(Body(Str("User1's Book"), Str("Author One"), Str("2021-01-01"), Str("1234567890123"))).Valid?
  {
    DateExamples();
    IsbnExamples();
    assert NUL !in "User1's Book" && NUL !in "Author One";
  }

  /** The first user creates a book and finds it; the second user's list stays empty. */
  method OwnerCreatesAndRetrieves(now: int) {
    var store, header1, header2 := RegisterTwo();
    store.NoBooksEmptyList(header2);
    assert store.List(header2) == Ok(map[]);
    var body := Body(Str("User1's Book"), Str("Author One"), Str("2021-01-01"), Str("1234567890123"));
    ValidBody();
    var created := store.Create(header1, body, now);
    assert created.Ok? && created.value.owner == 1 && created.value.creationDate == now;
    assert store.Retrieve(header1, created.value.id) == Ok(created.value);
  }

  /** The second user gets NotFound on retrieve, update and delete, and the book stays. */
  method OthersGetNotFound(now: int) {
    var store, header1, header2 := RegisterTwo();
    var body := Body(Str("User1's Book"), Str("Author One"), Str("2021-01-01"), Str("1234567890123"));
    ValidBody();
    var created := store.Create(header1, body, now);
    assert created.Ok?;
    var id := created.value.id;
    store.OthersBooksInvisible(header2, id);
    var updated := store.Update(header2, id, body);
    assert updated == NotFound;
    var deleted := store.Delete(header2, id);
    assert deleted == NotFound;
    assert id in store.books && store.books[id] == created.value;
  }

  /** The owner of a book can delete it. */
  method OwnerDeletes(now: int) {
    var store, header1, header2 := RegisterTwo();
    var body := Body(Str("User1's Book"), Str("Author One"), Str("2021-01-01"), Str("1234567890123"));
    ValidBody();
    var created := store.Create(header1, body, now);
    assert created.Ok?;
    var deleted := store.Delete(header1, created.value.id);
    assert deleted == Ok(()) && store.books == map[];
  }

  /** A request without a header, or with an unknown key, is refused before anything is stored. */
  method MissingOrUnknownKeyRefused(now: int) {
    var store := new Store();
    var one := store.Register(Some("username1"), None, Some("password"));
    assert one.Registered?;
    DateExamples();
    IsbnExamples();
    var body := Body(Str("Book Without API Key"), Str("Author Two"), Str("2021-01-01"), Str("1234567890123"));
    var r := store.Create(None, body, now);
    assert r == Unauthorized && store.books == map[];
    assert PermissionKey(Some("Bearer abc")) == None by { HeadersRefusedByPermission(); }
    assert store.List(Some("Bearer abc")) == Unauthorized;
  }

  /** The keyword in lower case gets past the permission, and then the view raises. */
  method LowerCaseKeywordFailsInView() {
    var store := new Store();
    var one := store.Register(Some("username1"), None, Some("password"));
    assert one.Registered?;
    LowerCaseKeywordPassesOnlyPermission(store.keys, store.users, one.apiKey);
    assert store.List(Some("api-key " + one.apiKey)) == InvalidKey;
  }

  /** A body with every field wrong is refused with all four fields named. */
  method InvalidBodyReportsEveryField(now: int) {
    var store := new Store();
    var one := store.Register(Some("username1"), None, Some("password"));
    assert one.Registered?;
    IssuedKeyResolves(store.keys, store.users, one.apiKey);
    var body := Body(Absent, Absent, Str("invalid-date-format"), Str("invalid-isbn"));
    EveryBadFieldReported();
    var r := store.Create(Some(SCHEME + one.apiKey), body, now);
    assert r.BadRequest?;
    assert Faulty(Validate(body)) == {Title, Author, PublishedDate, Isbn};
    assert store.books == map[];
  }

  /** The registration endpoint's answers, in the order its tests check them. */
  method RegistrationAnswers() {
    var store := new Store();
    var r := store.Register(Some(""), Some("invalid@example.com"), Some("securepassword123"));
    assert r == Refused(REQUIRED_MESSAGE) && store.users == map[];
    r := store.Register(Some("testuser"), Some("testuser@example.com"), Some("securepassword123"));
    assert r.Registered? && r.username == "testuser" && r.email == "testuser@example.com";
    assert store.keys[r.apiKey] == "testuser";
    var again := store.Register(Some("testuser"), Some("testuser@example.com"), Some("securepassword123"));
    assert again == Refused(DUPLICATE_MESSAGE);
    var noEmail := store.Register(Some("incompleteuser"), None, Some("securepassword123"));
    assert noEmail.Registered? && noEmail.email == "";
  }
}
