/** The authentication workflow (src/auth/auth.service.ts): registration
    with a hashed password, login, and token issue; plus the request body
    constraints of `RegisterDto` (dist/main.js). Password hashing is an
    abstract capability with one law, as is token signing (module Jwt). */
module Auth {
  import opened Common
  import opened Users
  import opened Jwt

  /** `bcrypt.hash(password, 10)`: the cost factor. */
  const SaltRounds: nat := 10

  const InvalidCredentials: string := "Invalid credentials"

  /** The hashing library as a capability: `hash(password, rounds, salt)`
      (the salt is the library's own randomness, taken as an input) and
      `compare(password, hash)`. */
  datatype Hasher = Hasher(
    hash: (string, nat, nat) -> string,
    compare: (string, string) -> bool)

  /** The one law assumed of the library: a password matches its own hash. */
  ghost predicate LawfulHasher(h: Hasher) {
    forall p, rounds, salt :: h.compare(p, h.hash(p, rounds, salt))
  }

  datatype RegisterDto = RegisterDto(email: string, password: string, fullname: string)

  datatype LoginDto = LoginDto(email: string, password: string)

  /** The user as the auth routes return it: no password. */
  datatype UserView = UserView(id: int, email: string, fullname: string, createdAt: nat)

  datatype AuthResponse = AuthResponse(user: UserView, token: string)

  /** The position of the first `c` in `s`. */
  function IndexOf(s: string, c: char): (i: nat)
    requires c in s
    ensures i < |s| && s[i] == c && c !in s[..i]
  {
    if s[0] == c then 0
    else
      assert c in s[1..] by {
        var k :| 0 <= k < |s| && s[k] == c;
        assert s[1..][k - 1] == c;
      }
      var j := IndexOf(s[1..], c);
      assert s[..j + 1] == [s[0]] + s[1..][..j];
      j + 1
  }

  /** A domain: at least one inner dot, not at either end. */
  predicate IsDomain(d: string) {
    |d| >= 3 && d[0] != '.' && d[|d| - 1] != '.' && '.' in d
  }

  /** `@IsEmail()`, reduced to the shape local@domain: exactly one `@`,
      a non-empty local part, and a dotted domain. */
  predicate IsEmail(s: string) {
    '@' in s && 0 < IndexOf(s, '@') && '@' !in s[IndexOf(s, '@') + 1..] && IsDomain(s[IndexOf(s, '@') + 1..])
  }

  /** The shape, stated on the two parts: a string split at its first `@`
      is an address iff the local part is non-empty and the rest is a
      domain with no further `@`. */
  lemma IsEmailSplit(local: string, domain: string)
    requires '@' !in local
    ensures IsEmail(local + "@" + domain) <==> local != [] && '@' !in domain && IsDomain(domain)
  {
    var s := local + "@" + domain;
    assert s[|local|] == '@';
    assert s[|local| + 1..] == domain;
  }

  /** No `@`, no address. */
  lemma NoAtSignNoEmail(s: string)
    requires '@' !in s
    ensures !IsEmail(s)
  {
  }

  /** `@MinLength(6)` on the password. */
  const MinPasswordLength: nat := 6

  /** The properties `RegisterDto` declares; with `forbidNonWhitelisted`
      any other property is itself a violation. */
  const RegisterFields: set<string> := {"email", "password", "fullname"}

  /** Names of the properties that fail validation: the declared ones whose
      constraint fails (none is optional), and every undeclared one. */
  function RegisterViolations(body: Body): (fields: set<string>)
    ensures "email" in fields <==> !("email" in body && body["email"].JString? && IsEmail(body["email"].s))
    ensures "password" in fields <==>
              !("password" in body && body["password"].JString? && |body["password"].s| >= MinPasswordLength)
    ensures "fullname" in fields <==> !("fullname" in body && body["fullname"].JString?)
    ensures forall f :: f !in RegisterFields ==> (f in fields <==> f in body)
  {
    (if "email" in body && body["email"].JString? && IsEmail(body["email"].s) then {} else {"email"})
    + (if "password" in body && body["password"].JString? && |body["password"].s| >= MinPasswordLength
       then {} else {"password"})
    + (if "fullname" in body && body["fullname"].JString? then {} else {"fullname"})
    + (body.Keys - RegisterFields)
  }

  /** The validation pipe in front of `register`: a body that fails any
      constraint never reaches the service. */
  function ValidateRegister(body: Body): (r: Result<RegisterDto>)
    ensures r.Ok? <==> "email" in body && body["email"].JString? && IsEmail(body["email"].s)
                       && "password" in body && body["password"].JString?
                       && |body["password"].s| >= MinPasswordLength
                       && "fullname" in body && body["fullname"].JString?
                       && body.Keys <= RegisterFields
    ensures r.Ok? ==> body["email"] == JString(r.value.email) && body["password"] == JString(r.value.password)
                      && body["fullname"] == JString(r.value.fullname)
    ensures r.Err? ==> r.error == ValidationFailure(RegisterViolations(body)) && r.error.fields != {}
  {
    var violations := RegisterViolations(body);
    if violations != {} then Err(ValidationFailure(violations))
    else
      assert forall f :: f in body ==> f in RegisterFields;
      Ok(RegisterDto(body["email"].s, body["password"].s, body["fullname"].s))
  }

  /** An address with no `@` is not accepted. */
  lemma NoAtSignRejected(password: string, fullname: string)
    ensures ValidateRegister(map["email" := JString("someone.example.com"), "password" := JString(password),
                                 "fullname" := JString(fullname)]).Err?
  {
    NoAtSignNoEmail("someone.example.com");
  }

  /** The returned user: id, email, full name and creation time. */
  function View(u: User): (v: UserView)
    ensures v.id == u.id && v.email == u.email && v.fullname == u.fullname && v.createdAt == u.createdAt
  {
    UserView(u.id, u.email, u.fullname, u.createdAt)
  }

  /** The claims of `generateToken`, with the issue time the signer adds and
      the expiry that `expiresIn: '24h'` sets. */
  function TokenPayload(u: User, now: nat): (p: Payload)
    ensures p.sub == u.id && p.email == u.email && p.fullname == u.fullname
    ensures p.iat == now && p.exp == now + ExpiresInSeconds
  {
    Payload(u.id, u.email, u.fullname, now, now + ExpiresInSeconds)
  }

  /** `generateToken`: sign the claims with `JWT_SECRET`, or the fallback
      key; under the configured key the token decodes to those claims. */
  function GenerateToken(s: Signer, jwtSecret: Option<string>, u: User, now: nat): (token: string)
    ensures LawfulSigner(s) ==> s.decode(token, SecretOf(jwtSecret)) == Some(TokenPayload(u, now))
  {
    s.sign(TokenPayload(u, now), SecretOf(jwtSecret))
  }

  /** A token issued for a user is accepted by the guard, under the same
      configuration (set or unset), until 24 hours have passed, and the guard
      then identifies exactly that user. */
  lemma TokenRoundTrip(s: Signer, jwtSecret: Option<string>, u: User, issuedAt: nat, now: nat)
    requires LawfulSigner(s)
    ensures Authenticate(s, jwtSecret, GenerateToken(s, jwtSecret, u, issuedAt), now).Ok? <==>
              now < issuedAt + ExpiresInSeconds
    ensures Authenticate(s, jwtSecret, GenerateToken(s, jwtSecret, u, issuedAt), now).Ok? ==>
              Authenticate(s, jwtSecret, GenerateToken(s, jwtSecret, u, issuedAt), now).value
                == AuthUser(u.id, u.email, u.fullname)
  {
  }

  /** The credential check of `login`: the single row with the email, whose
      stored hash the password matches. Both failures give the same error. */
  function CheckCredentials(h: Hasher, rows: seq<User>, email: string, password: string): (r: Result<User>)
    ensures r.Ok? ==> r.value in rows && r.value.email == email && h.compare(password, r.value.password)
    ensures r.Err? ==> r.error == Unauthorized(InvalidCredentials)
    ensures EmailLookup(rows, email).None? ==> r.Err?
    ensures EmailLookup(rows, email).Some? ==>
              (r.Ok? <==> h.compare(password, EmailLookup(rows, email).value.password))
  {
    match EmailLookup(rows, email)
    case None => Err(Unauthorized(InvalidCredentials))
    case Some(u) => if h.compare(password, u.password) then Ok(u) else Err(Unauthorized(InvalidCredentials))
  }

  /** With unique emails, login succeeds exactly when some user has the
      email and a stored hash the password matches. */
  lemma CheckCredentialsComplete(h: Hasher, rows: seq<User>, email: string, password: string)
    requires UniqueEmails(rows)
    ensures CheckCredentials(h, rows, email, password).Ok? <==>
              exists u :: u in rows && u.email == email && h.compare(password, u.password)
  {
    EmailLookupComplete(rows, email);
    if exists u :: u in rows && u.email == email && h.compare(password, u.password) {
      var u :| u in rows && u.email == email && h.compare(password, u.password);
      var found := EmailLookup(rows, email).value;
      var i :| 0 <= i < |rows| && rows[i] == u;
      var j :| 0 <= j < |rows| && rows[j] == found;
      assert rows[i].email == rows[j].email;
    }
  }

  /** The row `register` appends: the store's id and creation time, the
      hash of the password, the other fields copied. */
  function RegisteredRow(h: Hasher, dto: RegisterDto, id: int, salt: nat, createdAt: nat): (u: User)
    ensures u.password == h.hash(dto.password, SaltRounds, salt)
    ensures u.id == id && u.email == dto.email && u.fullname == dto.fullname && u.createdAt == createdAt
  {
    User(id, dto.email, h.hash(dto.password, SaltRounds, salt), dto.fullname, createdAt)
  }

  /** A user who has just registered can log in with the same password. */
  lemma RegisteredUserCanLogIn(h: Hasher, rows: seq<User>, dto: RegisterDto, id: int, salt: nat, createdAt: nat)
    requires LawfulHasher(h)
    requires forall v :: v in rows ==> v.email != dto.email
    ensures CheckCredentials(h, rows + [RegisteredRow(h, dto, id, salt, createdAt)], dto.email, dto.password)
              == Ok(RegisteredRow(h, dto, id, salt, createdAt))
  {
    var u := RegisteredRow(h, dto, id, salt, createdAt);
    WithEmailAppend(rows, [u], dto.email);
    WithEmailNone(rows, dto.email);
    assert WithEmail([u], dto.email) == [u] + WithEmail([], dto.email);
    assert h.compare(dto.password, h.hash(dto.password, SaltRounds, salt));
  }

  class AuthService {
    const users: UserService
    const hasher: Hasher
    const signer: Signer
    /** The `JWT_SECRET` configuration entry, if set. */
    const jwtSecret: Option<string>

    ghost predicate Valid()
      reads this, users
    {
      users.Valid() && LawfulHasher(hasher) && LawfulSigner(signer)
    }

    constructor (users: UserService, hasher: Hasher, signer: Signer, jwtSecret: Option<string>)
      requires users.Valid() && LawfulHasher(hasher) && LawfulSigner(signer)
      ensures this.users == users && this.hasher == hasher && this.signer == signer
      ensures this.jwtSecret == jwtSecret && Valid()
    {
      this.users := users;
      this.hasher := hasher;
      this.signer := signer;
      this.jwtSecret := jwtSecret;
    }

    /** The body both routes return for a user, with a token issued at `now`. */
    function Respond(u: User, now: nat): (a: AuthResponse)
      ensures a.user == View(u)
      ensures a.token == GenerateToken(signer, jwtSecret, u, now)
    {
      AuthResponse(View(u), GenerateToken(signer, jwtSecret, u, now))
    }

    /** Reject a taken email; otherwise store the user with the hash of the
        password and answer with a token. `salt` is the hashing library's
        randomness, `createdAt` the store's clock, `now` the signer's. */
    method Register(dto: RegisterDto, salt: nat, createdAt: nat, now: nat) returns (r: Result<AuthResponse>)
      requires Valid()
      modifies users
      ensures Valid()
      ensures (exists v :: v in old(users.rows) && v.email == dto.email) ==>
                r == Err(Conflict(EmailTakenMessage))
                && users.rows == old(users.rows) && users.nextId == old(users.nextId)
      ensures (forall v :: v in old(users.rows) ==> v.email != dto.email) ==>
                users.rows == old(users.rows) + [RegisteredRow(hasher, dto, old(users.nextId), salt, createdAt)]
                && r == Ok(Respond(RegisteredRow(hasher, dto, old(users.nextId), salt, createdAt), now))
    {
      var existing := users.FindByEmail(dto.email);
      if existing.Some? {
        r := Err(Conflict(EmailTakenMessage));
        return;
      }
      var hashed := hasher.hash(dto.password, SaltRounds, salt);
      var created := users.Create(CreateUserDto(dto.email, hashed, dto.fullname), createdAt);
      assert created.Ok?;
      r := Ok(Respond(created.value, now));
    }

    /** Look the user up and compare the password with the stored hash; an
        unknown email and a wrong password give the same error. */
    method Login(dto: LoginDto, now: nat) returns (r: Result<AuthResponse>)
      requires Valid()
      ensures r.Ok? <==> exists u :: u in users.rows && u.email == dto.email && hasher.compare(dto.password, u.password)
      ensures r.Ok? ==> exists u :: u in users.rows && u.email == dto.email && r.value == Respond(u, now)
      ensures r.Err? ==> r.error == Unauthorized(InvalidCredentials)
      ensures r.Ok? <==> CheckCredentials(hasher, users.rows, dto.email, dto.password).Ok?
      ensures r.Ok? ==> r.value == Respond(CheckCredentials(hasher, users.rows, dto.email, dto.password).value, now)
    {
      CheckCredentialsComplete(hasher, users.rows, dto.email, dto.password);
      match CheckCredentials(hasher, users.rows, dto.email, dto.password)
      case Err(e) =>
        r := Err(e);
      case Ok(user) =>
        r := Ok(Respond(user, now));
    }
  }
}
