/** Signup and login over the `users` collection. bcrypt's hash and compare
    and the token signer are function parameters; the database chooses the
    new user's id and creation time, which are parameters too. */
module AuthController {
  import opened Common
  import opened UserModel

  datatype SignupBody = SignupBody(name: string, email: string, password: string, role: Option<string>)

  /** The user object a successful login returns: no password. */
  datatype SessionUser = SessionUser(id: UserId, name: string, email: string, role: string)

  datatype Session = Session(token: string, user: SessionUser)

  const INVALID_LOGIN := "Invalid login credentials"

  /** signup: 400 when the email is taken, else create the user, with the
      role 'user' when the body names none, and answer 201 with its id. */
  function Signup(us: seq<User>, body: SignupBody, hash: string -> string, newId: UserId, createdAt: int)
    : (seq<User>, Response<UserId>)
  {
    if FindByEmail(us, body.email).Some? then (us, Message(BAD_REQUEST, "User already exists"))
    else
      var role := if body.role.Some? then body.role.value else DEFAULT_ROLE;
      (CreateUser(us, body.name, body.email, body.password, Some(role), hash, newId, createdAt),
       Json(CREATED, newId))
  }

  /** login: 401 for an unknown email and for a wrong password alike, else
      a signed token and the user's public fields. */
  function Login(us: seq<User>, email: string, password: string,
                 compare: (string, string) -> bool, sign: User -> string): Response<Session>
  {
    match FindByEmail(us, email)
    case None => Message(UNAUTHORIZED, INVALID_LOGIN)
    case Some(u) =>
      if !compare(password, u.password) then Message(UNAUTHORIZED, INVALID_LOGIN)
      else Json(OK, Session(sign(u), SessionUser(u.id, u.name, u.email, u.role)))
  }

  // ---------------------------------------------------------------------
  // Properties

  /** A taken email is refused with nothing written; a free one adds
      exactly one user with the hashed password and the defaulted role,
      and since the email was free, emails stay distinct. */
  lemma SignupSpec(us: seq<User>, body: SignupBody, hash: string -> string, newId: UserId, createdAt: int)
    ensures var (after, reply) := Signup(us, body, hash, newId, createdAt);
            && (reply.status == BAD_REQUEST <==> exists j :: 0 <= j < |us| && us[j].email == body.email)
            && (reply.status == BAD_REQUEST ==> after == us && reply == Message(BAD_REQUEST, "User already exists"))
            && (reply.status != BAD_REQUEST ==>
                  && reply == Json(CREATED, newId)
                  && |after| == |us| + 1 && after[..|us|] == us
                  && after[|us|] == User(newId, createdAt, body.name, body.email, hash(body.password),
                                         if body.role.Some? then body.role.value else "user"))
            && (DistinctEmails(us) ==> DistinctEmails(after))
  {
    var role := if body.role.Some? then body.role.value else DEFAULT_ROLE;
    CreateUserSpec(us, body.name, body.email, body.password, Some(role), hash, newId, createdAt);
    var found := FindByEmail(us, body.email);
    if found.Some? {
      var k :| 0 <= k < |us| && us[k] == found.value;
    }
  }

  /** Signing up twice with one email: the second attempt is refused and
      the collection holds the first user only. */
  lemma SignupTwice(us: seq<User>, first: SignupBody, second: SignupBody, hash: string -> string,
                    id1: UserId, id2: UserId, t1: int, t2: int)
    requires FindByEmail(us, first.email).None? && second.email == first.email
    ensures var (once, _) := Signup(us, first, hash, id1, t1);
            Signup(once, second, hash, id2, t2) == (once, Message(BAD_REQUEST, "User already exists"))
  {
    var (once, _) := Signup(us, first, hash, id1, t1);
    SignupSpec(us, first, hash, id1, t1);
    assert once[|us|].email == second.email;
  }

  /** login never tells an unknown email from a wrong password: both get
      the same 401. A 200 is given exactly for a known email whose stored
      hash matches, and carries that user's public fields and the token
      signed for that user. */
  lemma LoginSpec(us: seq<User>, email: string, password: string,
                  compare: (string, string) -> bool, sign: User -> string)
    ensures var reply := Login(us, email, password, compare, sign);
            var found := FindByEmail(us, email);
            && (found.None? ==> reply == Message(UNAUTHORIZED, INVALID_LOGIN))
            && (found.Some? && !compare(password, found.value.password) ==> reply == Message(UNAUTHORIZED, INVALID_LOGIN))
            && (reply.status == OK <==> found.Some? && compare(password, found.value.password))
            && (reply.status == OK ==>
                  && reply.Json?
                  && reply.body.token == sign(found.value)
                  && found.value in us && found.value.email == email
                  && reply.body.user == SessionUser(found.value.id, found.value.name, email, found.value.role))
            && reply.status in {OK, UNAUTHORIZED}
  {
  }

  /** After a signup, logging in with the same email and the password the
      hash was made from succeeds for the new user, given a free email
      and a compare that accepts a password against its own hash. */
  lemma SignupThenLogin(us: seq<User>, body: SignupBody, hash: string -> string, newId: UserId, createdAt: int,
                        compare: (string, string) -> bool, sign: User -> string)
    requires FindByEmail(us, body.email).None?
    requires compare(body.password, hash(body.password))
    ensures var (after, _) := Signup(us, body, hash, newId, createdAt);
            var reply := Login(after, body.email, body.password, compare, sign);
            reply.Json? && reply.status == OK && reply.body.user.id == newId
  {
    var (after, _) := Signup(us, body, hash, newId, createdAt);
    SignupSpec(us, body, hash, newId, createdAt);
    FindByEmailAppend(us, after[|us|], body.email);
    assert after == us + [after[|us|]];
  }

  lemma {:induction false} FindByEmailAppend(us: seq<User>, u: User, email: string)
    requires FindByEmail(us, email).None? && u.email == email
    ensures FindByEmail(us + [u], email) == Some(u)
  {
    if us != [] {
      assert (us + [u])[1..] == us[1..] + [u];
      FindByEmailAppend(us[1..], u, email);
    } else {
      assert us + [u] == [u];
    }
  }
}
