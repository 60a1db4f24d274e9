/** Sign-up and log-in (server/routes/auth.js). A user is identified by the
    e-mail address given at sign-up: the profile record is keyed
    (email, "USER#Profile") and holds the password's bcrypt digest.

    bcrypt is symbolic: hashing a password with a salt yields
    `Digest(salt, Secret(password))`, where the secret is the part of the
    password bcrypt keys on, and comparing a password against a digest
    succeeds exactly when their secrets agree. The token is `Token(email)`:
    the userId claim is all the model keeps of it. */
module Auth {
  import opened Common
  import opened Json
  import opened Store
  import opened Http
  import Uri

  /** bcrypt keys on at most this many bytes. */
  const MaxKeyBytes: nat := 72

  /** The bytes bcrypt keys on: the password's UTF-8 bytes and a closing NUL
      (bcryptjs appends it for the "$2a$" and "$2b$" salts its `genSalt`
      makes), cut to the first 72. */
  function Secret(password: string): (key: seq<int>)
    ensures |key| <= MaxKeyBytes
  {
    var bytes := Uri.Utf8Of(password) + [0];
    if |bytes| <= MaxKeyBytes then bytes else bytes[..MaxKeyBytes]
  }

  /** `bcrypt.hash(password, salt)`; `None` is a throw (a password that is
      not a string). */
  function Hash(password: Value, salt: nat): (h: Option<Value>)
    ensures h.Some? <==> password.Str?
    ensures h.Some? ==> h.value == Digest(salt, Secret(password.s))
  {
    if password.Str? then Some(Digest(salt, Secret(password.s))) else None
  }

  /** The salt header bcryptjs checks before hashing with the first 29
      characters of a 60-character hash: "$2", then "$" or a revision a, b
      or y followed by "$", and no character above '$' where the "$" after
      the two-digit rounds belongs. */
  predicate SaltHeader(h: string)
    requires |h| == 60
  {
    && h[0] == '$' && h[1] == '2'
    && if h[2] == '$' then h[5] <= '$'
       else (h[2] == 'a' || h[2] == 'b' || h[2] == 'y') && h[3] == '$' && h[6] <= '$'
  }

  /** `bcrypt.compare(password, hash)`: `None` is a throw, `Some(false)` a
      mismatch. An argument that is not a string throws. A string hash that
      is not 60 characters long never matches; a 60-character one with a
      malformed salt header throws, and any other one is not a digest this
      system made and does not match. */
  function Compare(password: Value, hash: Option<Value>): (r: Option<bool>)
    ensures r.None? <==> || !password.Str? || hash.None? || hash.value.Num? || hash.value.Bool?
                         || (hash.value.Str? && |hash.value.s| == 60 && !SaltHeader(hash.value.s))
    ensures r == Some(true) <==> password.Str? && hash.Some? && hash.value.Digest? && hash.value.key == Secret(password.s)
  {
    if !password.Str? || hash.None? then None
    else match hash.value
      case Digest(_, key) => Some(key == Secret(password.s))
      case Str(h) => if |h| != 60 || SaltHeader(h) then Some(false) else None
      case _ => None
  }

  /** A password matches the digest made from it, whatever the salt, and
      another password matches it exactly when their secrets agree. */
  lemma CompareHash(password: Value, other: Value, salt: nat)
    requires password.Str? && other.Str?
    ensures Compare(password, Hash(password, salt)) == Some(true)
    ensures Compare(other, Hash(password, salt)) == Some(Secret(other.s) == Secret(password.s))
  {
  }

  /** Only the first 72 bytes of a long password count: another password
      with the same first 72 bytes has the same secret, whatever follows. */
  lemma LongPasswordsShareSecret(password: string, other: string)
    requires |Uri.Utf8Of(password)| >= MaxKeyBytes && |Uri.Utf8Of(other)| >= MaxKeyBytes
    requires Uri.Utf8Of(password)[..MaxKeyBytes] == Uri.Utf8Of(other)[..MaxKeyBytes]
    ensures Secret(password) == Secret(other)
  {
    var p := Uri.Utf8Of(password);
    var o := Uri.Utf8Of(other);
    assert (p + [0])[..MaxKeyBytes] == p[..MaxKeyBytes];
    assert (o + [0])[..MaxKeyBytes] == o[..MaxKeyBytes];
  }

  /** Passwords shorter than 72 bytes are keyed on whole: distinct ones have
      distinct secrets. */
  lemma ShortPasswordsDiffer(password: string, other: string)
    requires |Uri.Utf8Of(password)| < MaxKeyBytes && |Uri.Utf8Of(other)| < MaxKeyBytes
    requires password != other
    ensures Secret(password) != Secret(other)
  {
    var p := Uri.Utf8Of(password);
    var o := Uri.Utf8Of(other);
    if Secret(password) == Secret(other) {
      assert p + [0] == o + [0];
      assert p == (p + [0])[..|p|];
      assert |p| == |o|;
      assert o == (o + [0])[..|o|];
      Uri.Utf8Injective(password, other);
    }
  }

  /** `!email || !password` */
  predicate MissingCredentials(body: Object) {
    !Truthy(Field(body, "email")) || !Truthy(Field(body, "password"))
  }

  /** The profile record sign-up stores. */
  function ProfileItem(email: string, digest: Value, createdAt: string): (item: Item)
    ensures HasKey(item, ProfileKey(email))
    ensures Field(item, "PasswordHash") == Some(digest) && Field(item, "CreatedAt") == Some(Str(createdAt))
  {
    KeyAttributes(ProfileKey(email))["PasswordHash" := digest]["CreatedAt" := Str(createdAt)]
  }

  /** POST /auth/signup. Missing credentials give 400; an existing profile
      gives 400 "User already exists" and leaves the table unchanged;
      otherwise exactly one profile record is added, keyed by the e-mail,
      holding the digest of the password, and the answer is 201 with a token
      whose claim is the e-mail. An e-mail that is not a string is not a
      valid key and a password that is not a string cannot be hashed: both
      throw, as does an outage, and give 500. */
  method Signup(table: Table, body: Object, salt: nat, createdAt: string, outage: bool) returns (resp: Response)
    requires table.Valid()
    modifies table
    ensures table.Valid()
    ensures MissingCredentials(body) ==>
              resp == Error(400, "Email and password are required") && table.items == old(table.items)
    ensures !MissingCredentials(body) && (outage || !body["email"].Str?) ==>
              resp == Error(500, "Server error during signup") && table.items == old(table.items)
    ensures !MissingCredentials(body) && !outage && body["email"].Str? ==>
              var email := body["email"].s;
              if ProfileKey(email) in old(table.items) then
                resp == Error(400, "User already exists") && table.items == old(table.items)
              else if !body["password"].Str? then
                resp == Error(500, "Server error during signup") && table.items == old(table.items)
              else
                && table.items == old(table.items)[ProfileKey(email) := ProfileItem(email, Digest(salt, Secret(body["password"].s)), createdAt)]
                && resp == Response(201, SessionBody(Token(email), email))
  {
    if MissingCredentials(body) {
      return Error(400, "Email and password are required");
    }
    var email := body["email"];
    var password := body["password"];
    if outage || !email.Str? {
      return Error(500, "Server error during signup");
    }
    var existing := table.Get(ProfileKey(email.s));
    if existing.Some? {
      return Error(400, "User already exists");
    }
    var digest := Hash(password, salt);
    if digest.None? {
      return Error(500, "Server error during signup");
    }
    table.Put(ProfileKey(email.s), ProfileItem(email.s, digest.value, createdAt));
    return Response(201, SessionBody(Token(email.s), email.s));
  }

  /** POST /auth/login. It only reads the table. Missing credentials give
      400; an unknown e-mail and a wrong password give the same 400
      "Invalid credentials"; a matching password gives 200 with a token
      whose claim is the e-mail. A stored hash that is missing or not a
      string makes the comparison throw, which gives 500. */
  method Login(table: Table, body: Object, outage: bool) returns (resp: Response)
    ensures MissingCredentials(body) ==> resp == Error(400, "Email and password are required")
    ensures !MissingCredentials(body) && (outage || !body["email"].Str?) ==> resp == Error(500, "Server error during login")
    ensures !MissingCredentials(body) && !outage && body["email"].Str? ==>
              var email := body["email"].s;
              var check := if ProfileKey(email) in table.items
                           then Compare(body["password"], Field(table.items[ProfileKey(email)], "PasswordHash"))
                           else Some(false);
              && (check == Some(false) ==> resp == Error(400, "Invalid credentials"))
              && (check.None? ==> resp == Error(500, "Server error during login"))
              && (check == Some(true) ==> resp == Response(200, SessionBody(Token(email), email)))
  {
    if MissingCredentials(body) {
      return Error(400, "Email and password are required");
    }
    var email := body["email"];
    var password := body["password"];
    if outage || !email.Str? {
      return Error(500, "Server error during login");
    }
    var profile := table.Get(ProfileKey(email.s));
    if profile.None? {
      return Error(400, "Invalid credentials");
    }
    var valid := Compare(password, Field(profile.value, "PasswordHash"));
    if valid.None? {
      return Error(500, "Server error during login");
    }
    if !valid.value {
      return Error(400, "Invalid credentials");
    }
    return Response(200, SessionBody(Token(email.s), email.s));
  }

  /** A successful sign-up followed by a log-in with the same credentials
      issues a token for the same user. A log-in with another password is
      refused with the same answer as an unknown e-mail, unless the two
      passwords share their secret (the first 72 bytes of long passwords),
      in which case it is let in. */
  method SignupThenLogin(table: Table, email: string, password: string, other: string, salt: nat, createdAt: string)
    returns (signup: Response, login: Response, wrong: Response)
    requires table.Valid() && email != "" && password != "" && other != ""
    requires ProfileKey(email) !in table.items
    modifies table
    ensures signup == Response(201, SessionBody(Token(email), email))
    ensures login == Response(200, SessionBody(Token(email), email))
    ensures wrong == if Secret(other) == Secret(password) then Response(200, SessionBody(Token(email), email))
                     else Error(400, "Invalid credentials")
  {
    signup := Signup(table, map["email" := Str(email), "password" := Str(password)], salt, createdAt, false);
    login := Login(table, map["email" := Str(email), "password" := Str(password)], false);
    wrong := Login(table, map["email" := Str(email), "password" := Str(other)], false);
  }
}
