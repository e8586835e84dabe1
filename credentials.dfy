/**
 * How a request's `Authorization` header names a user. The header is read
 * twice, by two different parsers: the `HasAPIKey` permission reads a key
 * and checks it is in the key table; the view's `_get_api_key` cuts out its
 * own key, looks it up in the key table (secret to key name), and looks the
 * key's name up as a username in the user table.
 */
module Credentials {
  import opened Wrappers
  import opened Strings
  import opened Models

  /** The scheme the view requires the header to start with, case and space included. */
  const SCHEME: string := "Api-Key "

  /** The keyword the permission expects in front of the first space, in any case. */
  const KEYWORD: string := "Api-Key"

  /**
   * `BookViewSet._get_api_key`: for a header that starts with the scheme,
   * the text `header.split(SCHEME)[1]`, which is what follows the scheme up
   * to a second occurrence of it; for any other header, or none, an error.
   */
  function ApiKey(header: Option<string>): (key: Option<string>)
    ensures key.Some? <==> header.Some? && StartsWith(header.value, SCHEME)
    ensures key.Some? ==> FirstPiece(header.value[|SCHEME|..], SCHEME, key.value)
  {
    if header.Some? && StartsWith(header.value, SCHEME) then
      var h := header.value;
      assert h == SCHEME + h[|SCHEME|..];
      SplitLeadingSeparator(SCHEME, h[|SCHEME|..]);
      Some(Split(h, SCHEME)[1])
    else
      None
  }

  /** A secret that does not contain the scheme comes back whole. */
  lemma ApiKeyOfPlainSecret(secret: string)
    requires !Contains(secret, SCHEME)
    ensures ApiKey(Some(SCHEME + secret)) == Some(secret)
  {
    var h := SCHEME + secret;
    assert h[..|SCHEME|] == SCHEME;
    assert h[|SCHEME|..] == secret;
    assert FirstPiece(secret, SCHEME, secret);
    FirstPieceUnique(secret, SCHEME, ApiKey(Some(h)).value, secret);
  }

  /** A second occurrence of the scheme cuts the key short. */
  lemma ApiKeyTruncatedAtSecondScheme(a: string, b: string)
    requires !Contains(a, SCHEME)
    ensures ApiKey(Some(SCHEME + a + SCHEME + b)) == Some(a)
  {
    var h := SCHEME + a + SCHEME + b;
    var rest := a + SCHEME + b;
    assert h[..|SCHEME|] == SCHEME;
    assert h[|SCHEME|..] == rest;
    forall j: nat | j < |a|
      ensures !OccursAt(rest, SCHEME, j)
    {
      if j + |SCHEME| <= |a| {
        assert rest[j..j + |SCHEME|] == a[j..j + |SCHEME|];
        assert !OccursAt(a, SCHEME, j);
      } else {
        // the occurrence would put its first letter 'A' inside the scheme's tail
        var d := |a| - j;
        assert 0 < d < |SCHEME|;
        assert rest[|a|] == 'A';
        assert SCHEME[d] != 'A';
        assert rest[j..j + |SCHEME|][d] == rest[|a|];
      }
    }
    assert rest[|a|..|a| + |SCHEME|] == SCHEME;
    assert FirstPiece(rest, SCHEME, a);
    FirstPieceUnique(rest, SCHEME, ApiKey(Some(h)).value, a);
  }

  /** Headers that do not start exactly with the scheme are refused by the view. */
  lemma HeadersWithoutSchemeRefused()
    ensures ApiKey(None) == None
    ensures ApiKey(Some("")) == None
    ensures ApiKey(Some("Bearer abc")) == None
    ensures ApiKey(Some("api-key abc")) == None
    ensures ApiKey(Some("Api-Keyabc")) == None
  {
    assert "Bearer abc"[0] != SCHEME[0];
    assert "api-key abc"[0] != SCHEME[0];
    assert "Api-Keyabc"[7] != SCHEME[7];
  }

  /** `c.lower()` for an ASCII letter; any other character is kept. */
  function AsciiLower(c: char): char {
    if 'A' <= c <= 'Z' then (c as int + 32) as char else c
  }

  function LowerAscii(s: string): string {
    seq(|s|, i requires 0 <= i < |s| => AsciiLower(s[i]))
  }

  /**
   * The key the `HasAPIKey` permission reads: the header is cut at its
   * first space (`partition(" ")`), the part in front must be the keyword
   * up to the case of its letters, and the key is all the rest, further
   * occurrences of the scheme included.
   */
  function PermissionKey(header: Option<string>): (key: Option<string>)
    ensures key.Some? <==>
              && header.Some? && |header.value| > |KEYWORD| && header.value[|KEYWORD|] == ' '
              && LowerAscii(header.value[..|KEYWORD|]) == LowerAscii(KEYWORD)
    ensures key.Some? ==> key.value == header.value[|KEYWORD| + 1..]
  {
    if header.None? || header.value == "" then None
    else
      var h := header.value;
      FirstSpaceAfterKeyword(h);
      match Find(h, " ")
      case None => None
      case Some(i) =>
        if LowerAscii(h[..i]) == LowerAscii(KEYWORD) then Some(h[i + 1..]) else None
  }

  /** The first space of `h` ends a keyword exactly when it sits right after one. */
  lemma FirstSpaceAfterKeyword(h: string)
    ensures (Find(h, " ").Some? && LowerAscii(h[..Find(h, " ").value]) == LowerAscii(KEYWORD))
            <==> (|h| > |KEYWORD| && h[|KEYWORD|] == ' ' && LowerAscii(h[..|KEYWORD|]) == LowerAscii(KEYWORD))
    ensures Find(h, " ").Some? && LowerAscii(h[..Find(h, " ").value]) == LowerAscii(KEYWORD)
            ==> Find(h, " ").value == |KEYWORD|
  {
    var n := |KEYWORD|;
    var lowered := LowerAscii(KEYWORD);
    assert forall i :: 0 <= i < n ==> lowered[i] != ' ';
    if Find(h, " ").Some? {
      var i := Find(h, " ").value;
      assert h[i..i + 1] == " ";
      if LowerAscii(h[..i]) == lowered {
        assert |LowerAscii(h[..i])| == i;
      }
    }
    if |h| > n && h[n] == ' ' && LowerAscii(h[..n]) == lowered {
      forall j: nat | j < n
        ensures !OccursAt(h, " ", j)
      {
        assert LowerAscii(h[..n])[j] == AsciiLower(h[j]);
        assert h[j..j + 1][0] == h[j];
      }
      assert OccursAt(h, " ", n) by { assert h[n..n + 1] == [h[n]]; }
    }
  }

  /** A header written with the view's scheme gives the permission all of its rest. */
  lemma PermissionKeyOfScheme(rest: string)
    ensures PermissionKey(Some(SCHEME + rest)) == Some(rest)
  {
    var h := SCHEME + rest;
    assert h[..|KEYWORD|] == KEYWORD;
    assert h[|KEYWORD|] == ' ';
    assert h[|KEYWORD| + 1..] == rest;
  }

  /** Headers the permission refuses. */
  lemma HeadersRefusedByPermission()
    ensures PermissionKey(None) == None
    ensures PermissionKey(Some("")) == None
    ensures PermissionKey(Some("Bearer abc")) == None
    ensures PermissionKey(Some("Api-Keyabc")) == None
  {
    assert LowerAscii("Bearer abc"[..|KEYWORD|])[0] == 'b';
    assert "Api-Keyabc"[|KEYWORD|] != ' ';
  }

  /**
   * The permission check: the key it reads is not empty and is in the key
   * table (revocation and expiry are not modelled).
   */
  predicate HasApiKey(keys: map<string, string>, header: Option<string>)
    ensures HasApiKey(keys, header) <==>
              && header.Some? && |header.value| > |KEYWORD| + 1 && header.value[|KEYWORD|] == ' '
              && LowerAscii(header.value[..|KEYWORD|]) == LowerAscii(KEYWORD)
              && header.value[|KEYWORD| + 1..] in keys
  {
    PermissionKey(header).Some? && PermissionKey(header).value != "" && PermissionKey(header).value in keys
  }

  /** The bare scheme gives the parser an empty key, which the permission refuses whatever the table. */
  lemma EmptyKeyRefused(keys: map<string, string>)
    ensures PermissionKey(Some(SCHEME)) == Some("")
    ensures !HasApiKey(keys, Some(SCHEME))
  {
    PermissionKeyOfScheme("");
    assert SCHEME + "" == SCHEME;
  }

  /** Every secret in the table is non-empty and free of spaces, as issued keys are. */
  predicate SpaceFree(keys: map<string, string>) {
    forall s :: s in keys ==> s != "" && ' ' !in s
  }

  /**
   * A second occurrence of the scheme in the header never gets past the
   * permission of a table of space-free secrets, although the view on its
   * own would cut the key short (`ApiKeyTruncatedAtSecondScheme`).
   */
  lemma SecondSchemeRefused(keys: map<string, string>, a: string, b: string)
    requires SpaceFree(keys)
    ensures !HasApiKey(keys, Some(SCHEME + a + SCHEME + b))
  {
    var rest := a + SCHEME + b;
    assert SCHEME + a + SCHEME + b == SCHEME + rest;
    PermissionKeyOfScheme(rest);
    assert rest[|a| + 7] == ' ';
  }

  /**
   * The keyword in lower case passes the permission but not the view's
   * case-sensitive parse: the view raises its `ValueError`.
   */
  lemma LowerCaseKeywordPassesOnlyPermission(keys: map<string, string>, users: map<string, User>, secret: string)
    requires secret in keys && secret != ""
    ensures HasApiKey(keys, Some("api-key " + secret))
    ensures Resolve(keys, users, Some("api-key " + secret)).None?
  {
    var h := "api-key " + secret;
    assert h[..|KEYWORD|] == "api-key";
    assert LowerAscii("api-key") == LowerAscii(KEYWORD);
    assert h[|KEYWORD|] == ' ';
    assert h[|KEYWORD| + 1..] == secret;
    assert h[0] != SCHEME[0];
  }

  /**
   * For a table of space-free secrets, a header that passes the permission
   * and the view's parse names the same key to both.
   */
  lemma PermissionAndViewAgree(keys: map<string, string>, header: Option<string>)
    requires SpaceFree(keys)
    requires HasApiKey(keys, header) && ApiKey(header).Some?
    ensures ApiKey(header) == PermissionKey(header)
  {
    var h := header.value;
    var rest := h[|SCHEME|..];
    assert h == SCHEME + rest;
    PermissionKeyOfScheme(rest);
    AbsentCharRulesOut(rest, SCHEME, 7);
    ApiKeyOfPlainSecret(rest);
  }

  /**
   * The lookup chain of `get_queryset` and `perform_create` on the view's
   * key: secret to key name, key name to the user with that username. A
   * key missing from the table and a name that is no username give the
   * same `None`.
   */
  function Resolve(keys: map<string, string>, users: map<string, User>, header: Option<string>): (u: Option<User>)
    ensures u.Some? <==> ApiKey(header).Some? && ApiKey(header).value in keys && keys[ApiKey(header).value] in users
    ensures u.Some? ==> u.value == users[keys[ApiKey(header).value]]
  {
    match ApiKey(header)
    case None => None
    case Some(secret) =>
      if secret in keys && keys[secret] in users then Some(users[keys[secret]]) else None
  }

  /**
   * A space-free key named after a user, presented under the scheme, passes
   * the permission and resolves to that user.
   */
  lemma IssuedKeyResolves(keys: map<string, string>, users: map<string, User>, secret: string)
    requires secret in keys && keys[secret] in users
    requires secret != "" && ' ' !in secret
    ensures HasApiKey(keys, Some(SCHEME + secret))
    ensures Resolve(keys, users, Some(SCHEME + secret)) == Some(users[keys[secret]])
  {
    AbsentCharRulesOut(secret, SCHEME, 7);
    ApiKeyOfPlainSecret(secret);
    PermissionKeyOfScheme(secret);
  }

  /** Some string is free to serve as a new secret: unused, not empty, and without a space. */
  lemma FreshSecretExists(used: set<string>)
    ensures exists s: string :: s !in used && s != "" && ' ' !in s
  {
    var n := LongerThanAll(used);
    var s := seq(n + 1, _ => 'k');
    assert s !in used && s != "";
  }

  /** A length that no string of `used` reaches. */
  lemma LongerThanAll(used: set<string>) returns (n: nat)
    ensures forall s :: s in used ==> |s| < n
  {
    if used == {} {
      n := 0;
    } else {
      var x :| x in used;
      var m := LongerThanAll(used - {x});
      n := if |x| < m then m else |x| + 1;
    }
  }
}
