/**
 * routes/auth.js: sign-up, log-in, the current-user lookup and log-out.
 * Users are keyed by their normalized e-mail. Password hashing and
 * comparison (bcrypt) and token signing (jsonwebtoken) are parameters.
 */
module Auth {
  import opened Wrappers
  import opened Text
  import opened Js
  import opened Sql
  import opened Validators
  import opened RequireAuth

  /** A row of `users`. */
  datatype User = User(id: UserId, email: string, passwordHash: string)

  /** What a response shows of a user: its id and e-mail, never the hash. */
  datatype PublicUser = PublicUser(id: UserId, email: string)

  function Public(u: User): (p: PublicUser) {
    PublicUser(u.id, u.email)
  }

  /** `bcrypt.hash(password, 10)`, with the salt this call happens to draw. */
  type Hasher = string -> string

  /** `bcrypt.compare(password, hash)`. */
  type Comparer = (string, string) -> bool

  /** `jwt.sign({ userId }, secret, { expiresIn: "7d" })`. */
  type Signer = (UserId, string) -> string

  const FieldsRequired := "Email and password are required"
  const UserCreated := "User created successfully"
  const EmailExists := "Email already exists"
  const SignupFailed := "Signup failed"
  const InvalidCredentials := "Invalid email or password"
  const LoginFailed := "Login failed"
  const LoginSuccessful := "Login successful"
  const UserNotFound := "User not found"
  const LoggedOut := "Logged out"

  /** The JSON bodies of the four routes. */
  datatype Body =
    | Error(error: string)                           // { error }
    | Message(message: string)                       // { message }
    | WithUser(message: string, user: PublicUser)    // { message, user }
    | Profile(user: PublicUser)                      // { user }

  /** What a response does to the `token` cookie. */
  datatype CookieChange = Keep | SetToken(token: string) | ClearToken

  datatype Reply = Reply(status: nat, body: Body, cookie: CookieChange)

  // ---------------------------------------------------------------- e-mail normalization

  /**
   * `cleanTrimmedString(email).toLowerCase()`: a non-string becomes "", and
   * the result has no surrounding whitespace and no upper-case ASCII letter.
   */
  function NormalizeEmail(v: JsValue): (e: string)
    ensures !v.Str? ==> e == ""
    ensures e == [] || (!IsWhiteSpace(e[0]) && !IsWhiteSpace(e[|e| - 1]))
    ensures forall k :: 0 <= k < |e| ==> !('A' <= e[k] <= 'Z')
    ensures |e| == |CleanTrimmedString(v)|
  {
    ToLowerCase(CleanTrimmedString(v))
  }

  /** An e-mail that is already normalized is its own normal form. */
  lemma NormalizeEmailIdempotent(v: JsValue)
    ensures NormalizeEmail(Str(NormalizeEmail(v))) == NormalizeEmail(v)
  {
    var e := NormalizeEmail(v);
    StripNoOp(e, IsWhiteSpace, IsWhiteSpace);
    assert CleanTrimmedString(Str(e)) == e;
    assert ToLowerAscii(e) == e;
  }

  /**
   * Surrounding whitespace and the case of ASCII letters do not matter: a
   * padded address normalizes to its core in lower case.
   */
  lemma NormalizeIgnoresPaddingAndCase(pre: string, s: string, post: string)
    requires forall k :: 0 <= k < |pre| ==> IsWhiteSpace(pre[k])
    requires forall k :: 0 <= k < |post| ==> IsWhiteSpace(post[k])
    requires s != [] && !IsWhiteSpace(s[0]) && !IsWhiteSpace(s[|s| - 1])
    ensures NormalizeEmail(Str(pre + s + post)) == ToLowerAscii(s)
  {
    StripPadded(pre, s, post, IsWhiteSpace);
  }

  /** `" Test@Email.com "` and `"test@email.com"` name the same account. */
  lemma TestEmailExample(padded: string, plain: string)
    requires padded == " Test@Email.com " && plain == "test@email.com"
    ensures NormalizeEmail(Str(padded)) == plain
    ensures NormalizeEmail(Str(plain)) == plain
  {
    PaddedTestEmail(padded, "Test@Email.com", plain);
    PlainTestEmail(plain);
  }

  lemma PaddedTestEmail(padded: string, core: string, plain: string)
    requires padded == " " + core + " " && core == "Test@Email.com" && plain == "test@email.com"
    ensures NormalizeEmail(Str(padded)) == plain
  {
    NormalizeIgnoresPaddingAndCase(" ", core, " ");
    LowerTestEmail(core, plain);
  }

  lemma PlainTestEmail(plain: string)
    requires plain == "test@email.com"
    ensures NormalizeEmail(Str(plain)) == plain
  {
    assert plain[0] == 't' && plain[|plain| - 1] == 'm';
    StripNoOp(plain, IsWhiteSpace, IsWhiteSpace);
    ToLowerAsciiNoUpper(plain);
  }

  lemma LowerTestEmail(core: string, plain: string)
    requires core == "Test@Email.com" && plain == "test@email.com"
    ensures ToLowerAscii(core) == plain
  {
    assert LowerChar('T') == 't' && LowerChar('E') == 'e';
  }

  // ---------------------------------------------------------------- the users table

  /** The `UNIQUE` constraint on `users.email`. */
  predicate UniqueEmails(users: seq<User>) {
    forall i, j :: 0 <= i < j < |users| ==> users[i].email != users[j].email
  }

  /** The primary key `users.id`. */
  predicate UniqueUserIds(users: seq<User>) {
    forall i, j :: 0 <= i < j < |users| ==> users[i].id != users[j].id
  }

  function EmailFilter(email: string): (keep: User -> bool) {
    (u: User) => u.email == email
  }

  function IdFilter(id: UserId): (keep: User -> bool) {
    (u: User) => u.id == id
  }

  /** `SELECT ... FROM users WHERE email = $1` and then `rows[0]`, if any. */
  function FindByEmail(users: seq<User>, email: string): (r: Option<User>)
    ensures r.Some? ==> r.value in users && r.value.email == email
    ensures r.None? <==> forall u :: u in users ==> u.email != email
  {
    var found := Where(users, EmailFilter(email));
    if found == [] then None
    else
      assert found[0] in found;
      Some(found[0])
  }

  /** `SELECT id, email FROM users WHERE id = $1` and then `rows[0]`, if any. */
  function FindById(users: seq<User>, id: UserId): (r: Option<User>)
    ensures r.Some? ==> r.value in users && r.value.id == id
    ensures r.None? <==> forall u :: u in users ==> u.id != id
  {
    var found := Where(users, IdFilter(id));
    if found == [] then None
    else
      assert found[0] in found;
      Some(found[0])
  }

  /** Under the `UNIQUE` constraint the row found by e-mail is the one with that e-mail. */
  lemma FindByEmailIsTheUser(users: seq<User>, u: User)
    requires UniqueEmails(users) && u in users
    ensures FindByEmail(users, u.email) == Some(u)
  {
    var r := FindByEmail(users, u.email).value;
    var i :| 0 <= i < |users| && users[i] == u;
    var j :| 0 <= j < |users| && users[j] == r;
    if i < j {
      assert users[i].email != users[j].email;
    } else if j < i {
      assert users[j].email != users[i].email;
    }
  }

  /** Under the primary key the row found by id is the one with that id. */
  lemma FindByIdIsTheUser(users: seq<User>, u: User)
    requires UniqueUserIds(users) && u in users
    ensures FindById(users, u.id) == Some(u)
  {
    var r := FindById(users, u.id).value;
    var i :| 0 <= i < |users| && users[i] == u;
    var j :| 0 <= j < |users| && users[j] == r;
    if i < j {
      assert users[i].id != users[j].id;
    } else if j < i {
      assert users[j].id != users[i].id;
    }
  }

  /** Appending a user with a new e-mail keeps the constraint. */
  lemma AppendKeepsUniqueEmails(users: seq<User>, u: User)
    requires UniqueEmails(users) && forall v :: v in users ==> v.email != u.email
    ensures UniqueEmails(users + [u])
  {
    var s := users + [u];
    forall i, j | 0 <= i < j < |s| ensures s[i].email != s[j].email {
      if j == |users| {
        assert s[i] in users;
      } else {
        assert s[i] == users[i] && s[j] == users[j];
      }
    }
  }

  /** Appending a user with a new id keeps the key. */
  lemma AppendKeepsUniqueUserIds(users: seq<User>, u: User)
    requires UniqueUserIds(users) && forall v :: v in users ==> v.id != u.id
    ensures UniqueUserIds(users + [u])
  {
    var s := users + [u];
    forall i, j | 0 <= i < j < |s| ensures s[i].id != s[j].id {
      if j == |users| {
        assert s[i] in users;
      } else {
        assert s[i] == users[i] && s[j] == users[j];
      }
    }
  }

  // ---------------------------------------------------------------- login and /me

  /**
   * POST /login. Missing fields are a 400 before the table is read; an
   * unknown e-mail and a wrong password give the same 400; a truthy
   * non-string password makes `bcrypt.compare` throw, a 500, but only once a
   * user was found. Success sets the `token` cookie to a token for that
   * user's id.
   */
  function Login(users: seq<User>, email: JsValue, password: JsValue, compare: Comparer, sign: Signer, gate: Gate): (r: Reply)
    ensures r.status == 200 || r.status == 400 || r.status == 500
    ensures r.status != 200 ==> r.cookie == Keep
    ensures r.body == Error(FieldsRequired) <==> NormalizeEmail(email) == "" || !Truthy(password)
    ensures r.body == Error(FieldsRequired) ==> r.status == 400
    ensures r.status == 400 ==> r.body == Error(FieldsRequired) || r.body == Error(InvalidCredentials)
    ensures r.status == 500 <==>
      && NormalizeEmail(email) != "" && Truthy(password) && !password.Str?
      && exists u :: u in users && u.email == NormalizeEmail(email)
    ensures r.status == 500 ==> r.body == Error(LoginFailed)
    ensures r.status == 200 ==>
      && password.Str? && password.s != ""
      && exists u ::
           && u in users && u.email == NormalizeEmail(email) != "" && compare(password.s, u.passwordHash)
           && r == Reply(200, WithUser(LoginSuccessful, Public(u)), SetToken(sign(u.id, gate.secret)))
  {
    var e := NormalizeEmail(email);
    if e == "" || !Truthy(password) then Reply(400, Error(FieldsRequired), Keep)
    else
      match FindByEmail(users, e)
      case None => Reply(400, Error(InvalidCredentials), Keep)
      case Some(u) =>
        if !password.Str? then Reply(500, Error(LoginFailed), Keep)
        else if !compare(password.s, u.passwordHash) then Reply(400, Error(InvalidCredentials), Keep)
        else Reply(200, WithUser(LoginSuccessful, Public(u)), SetToken(sign(u.id, gate.secret)))
  }

  /** The success path of `Login`, for the user the e-mail finds. */
  lemma LoginAs(users: seq<User>, email: JsValue, password: string, u: User, compare: Comparer, sign: Signer, gate: Gate)
    requires NormalizeEmail(email) != "" && password != ""
    requires FindByEmail(users, NormalizeEmail(email)) == Some(u) && compare(password, u.passwordHash)
    ensures Login(users, email, Str(password), compare, sign, gate)
         == Reply(200, WithUser(LoginSuccessful, Public(u)), SetToken(sign(u.id, gate.secret)))
  {
    assert Truthy(Str(password));
  }

  /**
   * Under the `UNIQUE` constraint, login succeeds exactly when the
   * normalized e-mail belongs to a user whose stored hash matches the
   * password; the reply then shows that user and carries a token for it.
   */
  lemma LoginSucceedsIff(users: seq<User>, email: string, password: string, compare: Comparer, sign: Signer, gate: Gate, u: User)
    requires UniqueEmails(users) && u in users && u.email == NormalizeEmail(Str(email))
    ensures Login(users, Str(email), Str(password), compare, sign, gate).status == 200
      <==> u.email != "" && password != "" && compare(password, u.passwordHash)
    ensures Login(users, Str(email), Str(password), compare, sign, gate).status == 200 ==>
      Login(users, Str(email), Str(password), compare, sign, gate)
        == Reply(200, WithUser(LoginSuccessful, Public(u)), SetToken(sign(u.id, gate.secret)))
  {
    FindByEmailIsTheUser(users, u);
  }

  /** An e-mail nobody has is refused with the same reply as a wrong password. */
  lemma LoginUnknownEmail(users: seq<User>, email: JsValue, password: JsValue, compare: Comparer, sign: Signer, gate: Gate)
    requires NormalizeEmail(email) != "" && Truthy(password)
    requires forall u :: u in users ==> u.email != NormalizeEmail(email)
    ensures Login(users, email, password, compare, sign, gate) == Reply(400, Error(InvalidCredentials), Keep)
  {
  }

  /**
   * Once the fields are present, every refusal with 400 is the same reply:
   * the response does not reveal whether the e-mail or the password was wrong.
   */
  lemma LoginFailureIsUniform(users: seq<User>, e1: JsValue, p1: JsValue, e2: JsValue, p2: JsValue,
                              compare: Comparer, sign: Signer, gate: Gate)
    requires NormalizeEmail(e1) != "" && Truthy(p1) && NormalizeEmail(e2) != "" && Truthy(p2)
    requires Login(users, e1, p1, compare, sign, gate).status == 400
    requires Login(users, e2, p2, compare, sign, gate).status == 400
    ensures Login(users, e1, p1, compare, sign, gate) == Login(users, e2, p2, compare, sign, gate)
         == Reply(400, Error(InvalidCredentials), Keep)
  {
  }

  /**
   * The token a successful login sets passes the gate as the logged-in user,
   * provided the token library verifies what it signed with the same secret.
   */
  lemma LoginTokenPassesGate(users: seq<User>, email: JsValue, password: JsValue, compare: Comparer,
                             sign: Signer, gate: Gate, verify: Verifier)
    requires forall id :: sign(id, gate.secret) != "" && verify(sign(id, gate.secret), gate.secret) == Some(id)
    requires Login(users, email, password, compare, sign, gate).status == 200
    ensures var r := Login(users, email, password, compare, sign, gate);
      && r.body.WithUser? && r.cookie.SetToken?
      && Decide(gate, Str(r.cookie.token), verify) == Proceed(r.body.user.id)
  {
    var r := Login(users, email, password, compare, sign, gate);
    var u :| u in users && u.email == NormalizeEmail(email) != "" && password.Str? && compare(password.s, u.passwordHash)
      && r == Reply(200, WithUser(LoginSuccessful, Public(u)), SetToken(sign(u.id, gate.secret)));
    assert verify(sign(u.id, gate.secret), gate.secret) == Some(u.id);
  }

  /**
   * GET /me behind the gate: the caller's id and e-mail, or 404 when no user
   * has the id.
   */
  function Me(users: seq<User>, userId: UserId): (r: Reply)
    ensures r.cookie == Keep
    ensures r.status == 200 <==> exists u :: u in users && u.id == userId
    ensures r.status == 200 ==> exists u :: u in users && u.id == userId && r.body == Profile(Public(u))
    ensures r.status != 200 ==> r == Reply(404, Error(UserNotFound), Keep)
  {
    match FindById(users, userId)
    case None => Reply(404, Error(UserNotFound), Keep)
    case Some(u) => Reply(200, Profile(Public(u)), Keep)
  }

  /** After logging in, /me with the issued token reports the same user. */
  lemma LoginThenMe(users: seq<User>, email: JsValue, password: JsValue, compare: Comparer,
                    sign: Signer, gate: Gate, verify: Verifier)
    requires UniqueUserIds(users)
    requires forall id :: sign(id, gate.secret) != "" && verify(sign(id, gate.secret), gate.secret) == Some(id)
    requires Login(users, email, password, compare, sign, gate).status == 200
    ensures var r := Login(users, email, password, compare, sign, gate);
      && r.body.WithUser? && r.cookie.SetToken?
      && Decide(gate, Str(r.cookie.token), verify).Proceed?
      && Me(users, Decide(gate, Str(r.cookie.token), verify).userId) == Reply(200, Profile(r.body.user), Keep)
  {
    var r := Login(users, email, password, compare, sign, gate);
    LoginTokenPassesGate(users, email, password, compare, sign, gate, verify);
    var u :| u in users && u.email == NormalizeEmail(email) != "" && password.Str? && compare(password.s, u.passwordHash)
      && r == Reply(200, WithUser(LoginSuccessful, Public(u)), SetToken(sign(u.id, gate.secret)));
    FindByIdIsTheUser(users, u);
  }

  /**
   * Signing up with one spelling of an address and logging in with another
   * that normalizes the same way succeeds, for the new user, when `compare`
   * accepts the password against the hash `hash` stored for it.
   */
  lemma SignupThenLogin(users: seq<User>, id: UserId, signupEmail: JsValue, loginEmail: JsValue, password: string,
                        hash: Hasher, compare: Comparer, sign: Signer, gate: Gate)
    requires UniqueEmails(users)
    requires forall u :: u in users ==> u.email != NormalizeEmail(signupEmail)
    requires NormalizeEmail(loginEmail) == NormalizeEmail(signupEmail) != "" && password != ""
    requires compare(password, hash(password))
    ensures Login(users + [User(id, NormalizeEmail(signupEmail), hash(password))], loginEmail, Str(password), compare, sign, gate)
         == Reply(200, WithUser(LoginSuccessful, PublicUser(id, NormalizeEmail(signupEmail))), SetToken(sign(id, gate.secret)))
  {
    var u := User(id, NormalizeEmail(signupEmail), hash(password));
    AppendKeepsUniqueEmails(users, u);
    FindByEmailIsTheUser(users + [u], u);
    LoginAs(users + [u], loginEmail, password, u, compare, sign, gate);
  }

  /** `" Test@Email.com "` signed up can log in as `"test@email.com"`. */
  lemma PaddedSignupLogsIn(users: seq<User>, id: UserId, password: string, hash: Hasher, compare: Comparer,
                           sign: Signer, gate: Gate)
    requires UniqueEmails(users) && forall u :: u in users ==> u.email != "test@email.com"
    requires password != "" && compare(password, hash(password))
    ensures Login(users + [User(id, NormalizeEmail(Str(" Test@Email.com ")), hash(password))],
                  Str("test@email.com"), Str(password), compare, sign, gate).status == 200
  {
    TestEmailExample(" Test@Email.com ", "test@email.com");
    SignupThenLogin(users, id, Str(" Test@Email.com "), Str("test@email.com"), password, hash, compare, sign, gate);
  }

  // ---------------------------------------------------------------- signup

  class UserStore {
    /** The rows of `users`, in storage order. */
    var users: seq<User>
    /** The next value the `id` sequence hands out. */
    var nextId: int

    ghost predicate Valid()
      reads this
    {
      && nextId >= 1
      && UniqueEmails(users)
      && UniqueUserIds(users)
      && forall u :: u in users ==> 1 <= u.id < nextId && u.email != ""
    }

    constructor ()
      ensures Valid() && users == [] && nextId == 1
    {
      users, nextId := [], 1;
    }

    /**
     * POST /signup. Missing fields are a 400 and a truthy non-string password
     * makes `bcrypt.hash` throw, a 500; neither touches the table. Otherwise
     * the insert draws an id from the sequence; an e-mail already present
     * violates the `UNIQUE` constraint, a 400 with the table unchanged (the
     * drawn id is not given back), and a new one adds exactly one row.
     */
    method Signup(email: JsValue, password: JsValue, hash: Hasher) returns (reply: Reply)
      requires Valid()
      modifies this
      ensures Valid()
      ensures NormalizeEmail(email) == "" || !Truthy(password) ==>
        && reply == Reply(400, Error(FieldsRequired), Keep)
        && users == old(users) && nextId == old(nextId)
      ensures NormalizeEmail(email) != "" && Truthy(password) && !password.Str? ==>
        && reply == Reply(500, Error(SignupFailed), Keep)
        && users == old(users) && nextId == old(nextId)
      ensures NormalizeEmail(email) != "" && password.Str? && password.s != ""
              && (exists u :: u in old(users) && u.email == NormalizeEmail(email)) ==>
        && reply == Reply(400, Message(EmailExists), Keep)
        && users == old(users) && nextId == old(nextId) + 1
      ensures NormalizeEmail(email) != "" && password.Str? && password.s != ""
              && (forall u :: u in old(users) ==> u.email != NormalizeEmail(email)) ==>
        && users == old(users) + [User(old(nextId), NormalizeEmail(email), hash(password.s))]
        && nextId == old(nextId) + 1
        && reply == Reply(201, WithUser(UserCreated, PublicUser(old(nextId), NormalizeEmail(email))), Keep)
    {
      var e := NormalizeEmail(email);
      if e == "" || !Truthy(password) {
        return Reply(400, Error(FieldsRequired), Keep);
      }
      if !password.Str? {
        return Reply(500, Error(SignupFailed), Keep);
      }
      var hashed := hash(password.s);
      var id := nextId;
      nextId := nextId + 1;
      if FindByEmail(users, e).Some? {
        return Reply(400, Message(EmailExists), Keep);
      }
      var u := User(id, e, hashed);
      AppendKeepsUniqueEmails(users, u);
      AppendKeepsUniqueUserIds(users, u);
      users := users + [u];
      reply := Reply(201, WithUser(UserCreated, PublicUser(id, e)), Keep);
    }

    /** POST /logout: clears the cookie and changes nothing on the server. */
    method Logout() returns (reply: Reply)
      ensures reply == Reply(200, Message(LoggedOut), ClearToken)
      ensures users == old(users) && nextId == old(nextId)
    {
      reply := Reply(200, Message(LoggedOut), ClearToken);
    }
  }
}
