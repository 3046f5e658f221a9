/** HTTP Basic authentication (`BasicAuth`): a chain of stages, each of which
    answers None on input it cannot use, so that `current_user` gives up as
    soon as any stage does. The header arrives as an optional string (None
    stands for a missing header as well as for a value that is not a string);
    the user records and the password check are parameters: `users` is the
    stored list in storage order, `emailOf` reads a user's email and
    `passwordOk` is the user's password check. */
module BasicAuth {
  import opened Wrappers
  import opened Bytes
  import Base64
  import Utf8

  /** The scheme prefix, compared case-sensitively and with one space. */
  const PREFIX: string := "Basic "

  /** `extract_base64_authorization_header`: the text after `Basic `. */
  function ExtractBase64AuthorizationHeader(header: Option<string>): (r: Option<string>)
    ensures r.Some? <==> header.Some? && PREFIX <= header.value
    ensures r.Some? ==> header.value == PREFIX + r.value
  {
    if header.None? then None
    else if !(PREFIX <= header.value) then None
    else Some(header.value[|PREFIX|..])
  }

  /** `decode_base64_authorization_header`: base 64, then UTF-8; None when
      either decoding fails. The text returned is the one whose UTF-8 octets
      the token spells, and when the token spells the UTF-8 octets of some
      text, that text is returned. */
  function DecodeBase64AuthorizationHeader(token: Option<string>): (r: Option<string>)
    ensures r.Some? ==> token.Some? && Base64.Decode(token.value) == Some(Utf8.Encode(r.value))
    ensures token.Some? && Base64.Decode(token.value).Some? ==>
      forall s :: Utf8.Encode(s) == Base64.Decode(token.value).value ==> r == Some(s)
  {
    if token.None? then None
    else match Base64.Decode(token.value)
      case None => None
      case Some(octets) =>
        var text := Utf8.Decode(octets);
        assert text.Some? ==> Utf8.Encode(text.value) == octets by {
          if text.Some? { Utf8.EncodeDecode(octets); }
        }
        assert forall s :: Utf8.Encode(s) == octets ==> text == Some(s) by {
          forall s | Utf8.Encode(s) == octets ensures text == Some(s) {
            Utf8.DecodeEncode(s);
          }
        }
        text
  }

  /** The index of the first `:` in `s`. */
  function FirstColon(s: string): (i: nat)
    requires ':' in s
    ensures i < |s| && s[i] == ':' && ':' !in s[..i]
  {
    if s[0] == ':' then 0
    else
      assert ':' in s[1..] by {
        var k :| 0 <= k < |s| && s[k] == ':';
        assert s[1..][k - 1] == ':';
      }
      var j := FirstColon(s[1..]);
      assert s[..j + 1] == [s[0]] + s[1..][..j];
      1 + j
  }

  /** `extract_user_credentials`: the text split at its first `:`, or
      (None, None) when there is no text or no `:` in it. */
  function ExtractUserCredentials(decoded: Option<string>): (r: (Option<string>, Option<string>))
    ensures r.0.Some? <==> decoded.Some? && ':' in decoded.value
    ensures r.1.Some? <==> r.0.Some?
    ensures r.0.Some? ==> ':' !in r.0.value && r.0.value + ":" + r.1.value == decoded.value
  {
    if decoded.None? || ':' !in decoded.value then (None, None)
    else
      var s := decoded.value;
      var i := FirstColon(s);
      assert s[..i] + ":" + s[i + 1..] == s by {
        assert s == s[..i] + [s[i]] + s[i + 1..];
      }
      (Some(s[..i]), Some(s[i + 1..]))
  }

  /** `User.search({"email": email})`: the users with that email, in
      storage order. */
  function Search<U>(users: seq<U>, emailOf: U -> string, email: string): seq<U>
  {
    if users == [] then []
    else if emailOf(users[0]) == email then [users[0]] + Search(users[1..], emailOf, email)
    else Search(users[1..], emailOf, email)
  }

  /** The position of the first user with the email, as an independent
      statement of what the search finds first. */
  function FirstWithEmail<U>(users: seq<U>, emailOf: U -> string, email: string): (r: Option<nat>)
    ensures r.Some? ==> r.value < |users| && emailOf(users[r.value]) == email
    ensures r.Some? ==> forall j :: 0 <= j < r.value ==> emailOf(users[j]) != email
    ensures r.None? ==> forall j :: 0 <= j < |users| ==> emailOf(users[j]) != email
  {
    if users == [] then None
    else if emailOf(users[0]) == email then Some(0)
    else match FirstWithEmail(users[1..], emailOf, email)
      case None => None
      case Some(i) => Some(i + 1)
  }

  /** The search is empty exactly when no user has the email, and otherwise
      starts with the first user that has it. */
  lemma {:induction false} SearchStartsWithFirst<U>(users: seq<U>, emailOf: U -> string, email: string)
    ensures Search(users, emailOf, email) == [] <==> FirstWithEmail(users, emailOf, email).None?
    ensures Search(users, emailOf, email) != [] ==>
      Search(users, emailOf, email)[0] == users[FirstWithEmail(users, emailOf, email).value]
  {
    if users != [] && emailOf(users[0]) != email {
      SearchStartsWithFirst(users[1..], emailOf, email);
    }
  }

  /** `user_object_from_credentials`: the first user with the email, if the
      password check accepts the password for that user. */
  function UserObjectFromCredentials<U>(email: Option<string>, password: Option<string>,
                                        users: seq<U>, emailOf: U -> string, passwordOk: (U, string) -> bool): (r: Option<U>)
    ensures r.Some? <==>
      email.Some? && password.Some? && FirstWithEmail(users, emailOf, email.value).Some?
      && passwordOk(users[FirstWithEmail(users, emailOf, email.value).value], password.value)
    ensures r.Some? ==> r.value == users[FirstWithEmail(users, emailOf, email.value).value]
  {
    if email.None? || password.None? then None
    else
      var found := Search(users, emailOf, email.value);
      SearchStartsWithFirst(users, emailOf, email.value);
      if found == [] then None
      else if !passwordOk(found[0], password.value) then None
      else Some(found[0])
  }

  /** The decoded octets carry the credentials `email:password`, the email
      holding no `:`. */
  ghost predicate Carries(octets: seq<Byte>, email: string, password: string)
  {
    ':' !in email && octets == Utf8.Encode(email + ":" + password)
  }

  /** `current_user`: the stages in order, giving up at the first None. A
      user comes back only for a `Basic ` header whose token decodes to
      credentials naming that user's email and a password its check accepts. */
  function CurrentUser<U>(header: Option<string>, users: seq<U>,
                          emailOf: U -> string, passwordOk: (U, string) -> bool): (r: Option<U>)
    ensures r.Some? ==>
      header.Some? && PREFIX <= header.value
      && Base64.Decode(header.value[|PREFIX|..]).Some?
      && exists email, password ::
           Carries(Base64.Decode(header.value[|PREFIX|..]).value, email, password)
           && emailOf(r.value) == email && passwordOk(r.value, password)
  {
    if header.None? then None
    else
      var token := ExtractBase64AuthorizationHeader(header);
      if token.None? then None
      else
        var decoded := DecodeBase64AuthorizationHeader(token);
        if decoded.None? then None
        else
          var (email, password) := ExtractUserCredentials(decoded);
          if email.None? || password.None? then None
          else
            var r := UserObjectFromCredentials(email, password, users, emailOf, passwordOk);
            assert r.Some? ==> Carries(Base64.Decode(token.value).value, email.value, password.value);
            r
  }

  /** The header a client sends for `email:password`. */
  function BasicHeader(email: string, password: string): string
  {
    PREFIX + Base64.Encode(Utf8.Encode(email + ":" + password))
  }

  /** A header built from credentials reaches the user lookup with exactly
      those credentials, whatever they are: an empty email or password is
      looked up like any other, and the password may hold `:`. */
  lemma CurrentUserOfBasicHeader<U>(email: string, password: string, users: seq<U>,
                                    emailOf: U -> string, passwordOk: (U, string) -> bool)
    requires ':' !in email
    ensures CurrentUser(Some(BasicHeader(email, password)), users, emailOf, passwordOk)
         == UserObjectFromCredentials(Some(email), Some(password), users, emailOf, passwordOk)
  {
    var text := email + ":" + password;
    var token := Base64.Encode(Utf8.Encode(text));
    assert (PREFIX + token)[|PREFIX|..] == token;
    Base64.DecodeEncode(Utf8.Encode(text));
    Utf8.DecodeEncode(text);
    SplitAtFirstColon(email, password);
  }

  /** Splitting `email:password` gives back the two parts when the email
      holds no `:`. */
  lemma SplitAtFirstColon(email: string, password: string)
    requires ':' !in email
    ensures ExtractUserCredentials(Some(email + ":" + password)) == (Some(email), Some(password))
  {
    var s := email + ":" + password;
    var i := FirstColon(s);
    assert forall k :: 0 <= k < |email| ==> s[k] == email[k];
    assert forall k :: |email| < k <= |s| ==> s[..k][|email|] == ':';
    assert s[..i] == email;
    assert s[i + 1..] == password;
  }

  /** Any header that does not start with `Basic ` authenticates nobody. */
  lemma OtherSchemesRejected<U>(header: string, users: seq<U>,
                                emailOf: U -> string, passwordOk: (U, string) -> bool)
    requires !(PREFIX <= header)
    ensures CurrentUser(Some(header), users, emailOf, passwordOk) == None
  {
  }

  /** The scheme name is compared case-sensitively: `"basic "` is refused,
      as are a bearer token and the empty header. */
  lemma ExtractExamples()
    ensures ExtractBase64AuthorizationHeader(Some("Basic dXNlcjpwYXNz")) == Some("dXNlcjpwYXNz")
    ensures ExtractBase64AuthorizationHeader(Some("Basic ")) == Some("")
    ensures ExtractBase64AuthorizationHeader(Some("basic dXNlcjpwYXNz")) == None
    ensures ExtractBase64AuthorizationHeader(Some("Bearer xyz")) == None
    ensures ExtractBase64AuthorizationHeader(Some("")) == None
    ensures ExtractBase64AuthorizationHeader(None) == None
  {
    assert !(PREFIX <= "basic dXNlcjpwYXNz") by { assert "basic dXNlcjpwYXNz"[0] != PREFIX[0]; }
    assert !(PREFIX <= "Bearer xyz") by { assert "Bearer xyz"[1] != PREFIX[1]; }
  }

  /** The lookup never looks past the first user with the email: when that
      user's password check fails, a later user with the same email and a
      passing check is not tried. */
  lemma OnlyFirstUserTried<U>(users: seq<U>, emailOf: U -> string, passwordOk: (U, string) -> bool,
                              email: string, password: string, i: nat, j: nat)
    requires i < j < |users|
    requires emailOf(users[i]) == email && emailOf(users[j]) == email
    requires forall k :: 0 <= k < i ==> emailOf(users[k]) != email
    requires !passwordOk(users[i], password) && passwordOk(users[j], password)
    ensures UserObjectFromCredentials(Some(email), Some(password), users, emailOf, passwordOk) == None
  {
  }

  /** `user:pass` travels as `dXNlcjpwYXNz`, and decodes back. */
  lemma DecodeExample()
    ensures DecodeBase64AuthorizationHeader(Some("dXNlcjpwYXNz")) == Some("user:pass")
  {
    var text := "user:pass";
    ExampleToken();
    Base64.DecodeEncode(Utf8.Encode(text));
    Utf8.DecodeEncode(text);
  }

  /** `user:pass` splits into the email `user` and the password `pass`. */
  lemma SplitExample()
    ensures ExtractUserCredentials(Some("user:pass")) == (Some("user"), Some("pass"))
  {
    SplitAtFirstColon("user", "pass");
    assert "user" + ":" + "pass" == "user:pass";
  }

  lemma ExampleToken()
    ensures Base64.Encode(Utf8.Encode("user:pass")) == "dXNlcjpwYXNz"
  {
    ExampleOctets();
    ExampleGroups();
    Base64.EncodeTriple(117, 115, 101, 29, 23, 13, 37);
    Base64.EncodeTriple(114, 58, 112, 28, 35, 41, 48);
    Base64.EncodeTriple(97, 115, 115, 24, 23, 13, 51);
    ExampleChars();
  }

  lemma ExampleGroups()
    ensures Base64.Encode([117, 115, 101, 114, 58, 112, 97, 115, 115])
         == Base64.Encode([117, 115, 101]) + (Base64.Encode([114, 58, 112]) + Base64.Encode([97, 115, 115]))
  {
    var octets: seq<Byte> := [117, 115, 101, 114, 58, 112, 97, 115, 115];
    var rest: seq<Byte> := [114, 58, 112, 97, 115, 115];
    Base64.EncodeGroups(octets);
    assert octets[..3] == [117, 115, 101] && octets[3..] == rest;
    Base64.EncodeGroups(rest);
    assert rest[..3] == [114, 58, 112] && rest[3..] == [97, 115, 115];
  }

  lemma ExampleChars()
    ensures [Base64.CharOf(29), Base64.CharOf(23), Base64.CharOf(13), Base64.CharOf(37)]
          + ([Base64.CharOf(28), Base64.CharOf(35), Base64.CharOf(41), Base64.CharOf(48)]
          + [Base64.CharOf(24), Base64.CharOf(23), Base64.CharOf(13), Base64.CharOf(51)])
         == "dXNlcjpwYXNz"
  {
  }

  lemma ExampleOctets()
    ensures Utf8.Encode("user:pass") == [117, 115, 101, 114, 58, 112, 97, 115, 115]
  {
    Utf8.EncodeAscii("user:pass");
  }
}
