/**
 * The service's state and its operations: the book endpoints, which see
 * only the caller's own books, and the registration endpoint, which creates
 * a user together with a key named after it.
 */
module Service {
  import opened Wrappers
  import opened Strings
  import opened Models
  import opened Serializers
  import opened Credentials

  /**
   * What a book endpoint answers: `Unauthorized` when the `HasAPIKey`
   * permission refuses the request, `InvalidKey` when the view itself raises
   * its `ValueError` about the key or its user.
   */
  datatype Outcome<+T> =
    | Ok(value: T)
    | BadRequest(errors: seq<FieldError>)
    | NotFound
    | Unauthorized
    | InvalidKey

  const REQUIRED_MESSAGE: string := "Username and password are required."
  const DUPLICATE_MESSAGE: string := "Username already exists."

  /** What the registration endpoint answers. */
  datatype Registration =
    | Registered(id: nat, username: string, email: string, apiKey: string)
    | Refused(message: string)

  /** Python's falsiness of an optional string: `None` and `""`. */
  predicate Falsy(v: Option<string>) {
    v.None? || v.value == ""
  }

  /** The email Django stores: an absent one becomes `""`. */
  function EmailOrEmpty(email: Option<string>): string {
    if email.Some? then email.value else ""
  }

  /** Some user in `users` has the id `uid`. */
  ghost predicate HasUser(users: map<string, User>, uid: nat) {
    exists n :: n in users && users[n].id == uid
  }

  /** The books of `books` not owned by the user with id `uid`. */
  function WithoutOwner(books: map<nat, Book>, uid: nat): (r: map<nat, Book>)
    ensures forall id :: id in r <==> id in books && books[id].owner != uid
    ensures forall id :: id in r ==> r[id] == books[id]
  {
    map id | id in books && books[id].owner != uid :: books[id]
  }

  /**
   * The database: the key table (secret to key name), the user table
   * (username to user), the book table (id to book) and the next ids the
   * database will hand out.
   */
  class Store {
    var keys: map<string, string>
    var users: map<string, User>
    var books: map<nat, Book>
    var nextBookId: nat
    var nextUserId: nat

    /**
     * Usernames and user ids are unique; every book is stored under its own
     * id, satisfies the field rules and belongs to exactly one existing user.
     */
    ghost predicate Valid()
      reads this
    {
      && 0 < nextBookId && 0 < nextUserId
      && SpaceFree(keys)
      && (forall n :: n in users ==> users[n].username == n && 0 < users[n].id < nextUserId)
      && (forall n, m :: n in users && m in users && users[n].id == users[m].id ==> n == m)
      && (forall i :: i in books ==>
            && books[i].id == i && 0 < i < nextBookId
            && Storable(books[i])
            && HasUser(users, books[i].owner))
    }

    constructor ()
      ensures Valid()
      ensures keys == map[] && users == map[] && books == map[]
      ensures nextBookId == 1 && nextUserId == 1
    {
      keys, users, books := map[], map[], map[];
      nextBookId, nextUserId := 1, 1;
    }

    // ------------------------------------------------------------ reading

    /**
     * The list endpoint: the permission first, then `get_queryset`, which
     * yields exactly the books of the user the view's key names (possibly
     * none).
     */
    function List(header: Option<string>): (r: Outcome<map<nat, Book>>)
      reads this
      ensures r.Ok? || r.Unauthorized? || r.InvalidKey?
      ensures r.Unauthorized? <==> !HasApiKey(keys, header)
      ensures r.InvalidKey? <==> HasApiKey(keys, header) && Resolve(keys, users, header).None?
      ensures r.Ok? ==> forall id :: id in r.value <==>
                id in books && books[id].owner == Resolve(keys, users, header).value.id
      ensures r.Ok? ==> forall id :: id in r.value ==> r.value[id] == books[id]
    {
      if !HasApiKey(keys, header) then Unauthorized
      else
        match Resolve(keys, users, header)
        case None => InvalidKey
        case Some(u) => Ok(map id | id in books && books[id].owner == u.id :: books[id])
    }

    /**
     * The retrieve endpoint (`get_object` over `get_queryset`): a book is
     * found only among the caller's own books; an id that does not exist and
     * an id owned by someone else give the same `NotFound`.
     */
    function Retrieve(header: Option<string>, id: nat): (r: Outcome<Book>)
      reads this
      ensures r.Ok? || r.NotFound? || r.Unauthorized? || r.InvalidKey?
      ensures r.Unauthorized? <==> List(header).Unauthorized?
      ensures r.InvalidKey? <==> List(header).InvalidKey?
      ensures r.Ok? <==> List(header).Ok? && id in List(header).value
      ensures r.Ok? ==> r.value == books[id]
    {
      if !HasApiKey(keys, header) then Unauthorized
      else
        match Resolve(keys, users, header)
        case None => InvalidKey
        case Some(u) => if id in books && books[id].owner == u.id then Ok(books[id]) else NotFound
    }

    /** Another user's book is neither listed nor found. */
    lemma OthersBooksInvisible(header: Option<string>, id: nat)
      requires id in books
      requires HasApiKey(keys, header)
      requires Resolve(keys, users, header).Some?
      requires Resolve(keys, users, header).value.id != books[id].owner
      ensures Retrieve(header, id) == NotFound
      ensures List(header).Ok? && id !in List(header).value
    {
    }

    /** A user who owns no book gets an empty list, not an error. */
    lemma NoBooksEmptyList(header: Option<string>)
      requires HasApiKey(keys, header)
      requires Resolve(keys, users, header).Some?
      requires forall id :: id in books ==> books[id].owner != Resolve(keys, users, header).value.id
      ensures List(header) == Ok(map[])
    {
      assert List(header).value.Keys == {};
    }

    /**
     * A header whose key is cut short by a second scheme is refused by the
     * permission before the view could read the shorter key.
     */
    lemma TruncatedKeyRefused(a: string, b: string)
      requires Valid()
      ensures List(Some(SCHEME + a + SCHEME + b)) == Unauthorized
    {
      SecondSchemeRefused(keys, a, b);
    }

    // ------------------------------------------------------------ writing

    /**
     * The create endpoint: the permission check on the key, then
     * validation, then `perform_create`, which resolves the user and saves
     * the book with that user as owner and the clock reading `now` as
     * creation date, whatever the body says about either.
     */
    method Create(header: Option<string>, payload: Payload, now: int) returns (r: Outcome<Book>)
      requires Valid()
      modifies this
      ensures Valid()
      ensures keys == old(keys) && users == old(users) && nextUserId == old(nextUserId)
      ensures !HasApiKey(keys, header) ==> r == Unauthorized
      ensures HasApiKey(keys, header) && Validate(payload).Invalid? ==> r == BadRequest(Validate(payload).errors)
      ensures HasApiKey(keys, header) && Validate(payload).Valid? && Resolve(keys, users, header).None? ==>
                r == InvalidKey
      ensures HasApiKey(keys, header) && Validate(payload).Valid? && Resolve(keys, users, header).Some? ==>
                && r.Ok?
                && r.value.owner == Resolve(keys, users, header).value.id
                && r.value.creationDate == now
                && r.value == NewBook(old(nextBookId), r.value.owner, Validate(payload).input, now)
                && old(nextBookId) !in old(books)
                && books == old(books)[old(nextBookId) := r.value]
                && nextBookId == old(nextBookId) + 1
      ensures !r.Ok? ==> books == old(books) && nextBookId == old(nextBookId)
    {
      if !HasApiKey(keys, header) {
        return Unauthorized;
      }
      var v := Validate(payload);
      if v.Invalid? {
        return BadRequest(v.errors);
      }
      var owner := Resolve(keys, users, header);
      if owner.None? {
        return InvalidKey;
      }
      var book := NewBook(nextBookId, owner.value.id, v.input, now);
      NewBookStorable(payload, nextBookId, owner.value.id, now);
      assert HasUser(users, book.owner) by {
        assert users[keys[ApiKey(header).value]].id == book.owner;
      }
      books := books[nextBookId := book];
      nextBookId := nextBookId + 1;
      r := Ok(book);
    }

    /**
     * The full-update endpoint: the book is looked up among the caller's
     * own books first, then the body is validated, then the given fields
     * replace the stored ones; id, owner and creation date never change.
     */
    method Update(header: Option<string>, id: nat, payload: Payload) returns (r: Outcome<Book>)
      requires Valid()
      modifies this
      ensures Valid()
      ensures keys == old(keys) && users == old(users)
      ensures nextBookId == old(nextBookId) && nextUserId == old(nextUserId)
      ensures old(Retrieve(header, id)).Unauthorized? ==> r == Unauthorized
      ensures old(Retrieve(header, id)).InvalidKey? ==> r == InvalidKey
      ensures old(Retrieve(header, id)).NotFound? ==> r == NotFound
      ensures old(Retrieve(header, id)).Ok? && Validate(payload).Invalid? ==>
                r == BadRequest(Validate(payload).errors)
      ensures old(Retrieve(header, id)).Ok? && Validate(payload).Valid? ==>
                && r.Ok?
                && UpdatedWith(old(books)[id], Validate(payload).input, r.value)
                && books == old(books)[id := r.value]
      ensures !r.Ok? ==> books == old(books)
    {
      var found := Retrieve(header, id);
      if found.Unauthorized? {
        return Unauthorized;
      } else if found.InvalidKey? {
        return InvalidKey;
      } else if found.NotFound? {
        return NotFound;
      }
      var v := Validate(payload);
      if v.Invalid? {
        return BadRequest(v.errors);
      }
      var book := Revised(found.value, v.input);
      RevisedStorable(found.value, payload);
      books := books[id := book];
      r := Ok(book);
    }

    /** The delete endpoint: only one of the caller's own books can be removed. */
    method Delete(header: Option<string>, id: nat) returns (r: Outcome<()>)
      requires Valid()
      modifies this
      ensures Valid()
      ensures keys == old(keys) && users == old(users)
      ensures nextBookId == old(nextBookId) && nextUserId == old(nextUserId)
      ensures old(Retrieve(header, id)).Unauthorized? ==> r == Unauthorized
      ensures old(Retrieve(header, id)).InvalidKey? ==> r == InvalidKey
      ensures old(Retrieve(header, id)).NotFound? ==> r == NotFound
      ensures old(Retrieve(header, id)).Ok? ==> r == Ok(()) && books == old(books) - {id}
      ensures !r.Ok? ==> books == old(books)
    {
      var found := Retrieve(header, id);
      if found.Unauthorized? {
        r := Unauthorized;
      } else if found.InvalidKey? {
        r := InvalidKey;
      } else if found.NotFound? {
        r := NotFound;
      } else {
        books := books - {id};
        r := Ok(());
      }
    }

    /**
     * Deleting a user deletes, in cascade, every book that user owns; the
     * user's keys stay in the key table but no longer resolve.
     */
    method DeleteUser(username: string)
      requires Valid()
      modifies this
      ensures Valid()
      ensures keys == old(keys)
      ensures nextBookId == old(nextBookId) && nextUserId == old(nextUserId)
      ensures users == old(users) - {username}
      ensures username !in old(users) ==> books == old(books)
      ensures username in old(users) ==> books == WithoutOwner(old(books), old(users)[username].id)
      ensures forall h :: Resolve(keys, users, h).Some? ==> Resolve(keys, users, h).value.username != username
    {
      if username in users {
        var uid := users[username].id;
        var kept := WithoutOwner(books, uid);
        var others := users - {username};
        forall id | id in kept
          ensures HasUser(others, kept[id].owner)
        {
          var n :| n in users && users[n].id == kept[id].owner;
          assert n != username;
          assert n in others;
        }
        books := kept;
        users := others;
      }
    }

    /**
     * `APIKey.objects.create_key(name=...)`: picks a secret not yet in the
     * key table (one without a space, as generated keys are) and records it
     * under `name`.
     */
    method IssueKey(name: string) returns (secret: string)
      requires Valid()
      modifies this
      ensures Valid()
      ensures secret !in old(keys) && secret != "" && ' ' !in secret
      ensures keys == old(keys)[secret := name]
      ensures users == old(users) && books == old(books)
      ensures nextBookId == old(nextBookId) && nextUserId == old(nextUserId)
    {
      FreshSecretExists(keys.Keys);
      secret :| secret !in keys && secret != "" && ' ' !in secret;
      keys := keys[secret := name];
    }

    /**
     * `CreateUserAPIView.post`: refuse a missing or empty username or
     * password, then refuse a taken username, then create the user, then
     * issue a key named after the username. The answer echoes the user and
     * the key in clear, and that key resolves back to the new user.
     */
    method Register(username: Option<string>, email: Option<string>, password: Option<string>)
      returns (r: Registration)
      requires Valid()
      modifies this
      ensures Valid()
      ensures books == old(books) && nextBookId == old(nextBookId)
      ensures Falsy(username) || Falsy(password) ==> r == Refused(REQUIRED_MESSAGE)
      ensures !Falsy(username) && !Falsy(password) && username.value in old(users) ==>
                r == Refused(DUPLICATE_MESSAGE)
      ensures r.Refused? ==> users == old(users) && keys == old(keys) && nextUserId == old(nextUserId)
      ensures !Falsy(username) && !Falsy(password) && username.value !in old(users) ==>
                && r.Registered?
                && r.id == old(nextUserId) && r.username == username.value && r.email == EmailOrEmpty(email)
                && users == old(users)[r.username := User(r.id, r.username, r.email)]
                && nextUserId == old(nextUserId) + 1
                && r.apiKey !in old(keys) && r.apiKey != "" && ' ' !in r.apiKey
                && keys == old(keys)[r.apiKey := r.username]
                && HasApiKey(keys, Some(SCHEME + r.apiKey))
                && Resolve(keys, users, Some(SCHEME + r.apiKey)) == Some(users[r.username])
    {
      if Falsy(username) || Falsy(password) {
        return Refused(REQUIRED_MESSAGE);
      }
      var name := username.value;
      if name in users {
        return Refused(DUPLICATE_MESSAGE);
      }
      var user := User(nextUserId, name, EmailOrEmpty(email));
      forall i | i in books
        ensures HasUser(users[name := user], books[i].owner)
      {
        var n :| n in users && users[n].id == books[i].owner;
        assert n in users[name := user] && users[name := user][n].id == books[i].owner;
      }
      users := users[name := user];
      nextUserId := nextUserId + 1;
      var secret := IssueKey(name);
      IssuedKeyResolves(keys, users, secret);
      r := Registered(user.id, user.username, user.email, secret);
    }
  }
}
