/** The stand-alone signup server: users kept in a module-level array that
    the handler pushes onto, ids handed out as the array's length plus one.
    The array is the field `users` of `UserStore`; bcrypt's hash and the
    token signer (with the server's fixed secret) are function
    parameters. */
module LegacySignup {
  import opened Common

  datatype LegacyUser = LegacyUser(id: int, email: string, fullName: string, password: string)

  /** The user object of the reply: no password. */
  datatype PublicUser = PublicUser(id: int, email: string, fullName: string)

  datatype Session = Session(token: string, user: PublicUser)

  datatype SignupRequest = SignupRequest(email: string, password: string, fullName: string)

  const EMAIL_IN_USE := "Email er allerede i brug"

  /** `users.find(u => u.email === email)` */
  function FindEmail(users: seq<LegacyUser>, email: string): (r: Option<LegacyUser>)
    ensures r.Some? ==> r.value in users && r.value.email == email
    ensures r.None? <==> forall j :: 0 <= j < |users| ==> users[j].email != email
  {
    if users == [] then None
    else if users[0].email == email then Some(users[0])
    else FindEmail(users[1..], email)
  }

  /** What the handler keeps true of the array: the user at position `i`
      has id `i + 1`, and no email occurs twice. */
  predicate WellFormed(users: seq<LegacyUser>)
  {
    && (forall i :: 0 <= i < |users| ==> users[i].id == i + 1)
    && (forall i, j :: 0 <= i < j < |users| ==> users[i].email != users[j].email)
  }

  /** The array after one signup request. */
  function SignedUp(users: seq<LegacyUser>, req: SignupRequest, hash: string -> string): seq<LegacyUser>
  {
    if FindEmail(users, req.email).Some? then users
    else users + [LegacyUser(|users| + 1, req.email, req.fullName, hash(req.password))]
  }

  /** The array after a series of signup requests, one after another. */
  function SignedUpAll(users: seq<LegacyUser>, reqs: seq<SignupRequest>, hash: string -> string): seq<LegacyUser>
    decreases |reqs|
  {
    if reqs == [] then users else SignedUpAll(SignedUp(users, reqs[0], hash), reqs[1..], hash)
  }

  /** One signup keeps the array well formed: a new user gets the next id
      and a fresh email, a known email adds nothing. */
  lemma SignedUpKeepsWellFormed(users: seq<LegacyUser>, req: SignupRequest, hash: string -> string)
    requires WellFormed(users)
    ensures WellFormed(SignedUp(users, req, hash))
    ensures |SignedUp(users, req, hash)| <= |users| + 1
    ensures SignedUp(users, req, hash)[..|users|] == users
    ensures exists j :: 0 <= j < |SignedUp(users, req, hash)| && SignedUp(users, req, hash)[j].email == req.email
  {
    var after := SignedUp(users, req, hash);
    assert after[..|users|] == users;
    var found := FindEmail(users, req.email);
    if found.Some? {
      var k :| 0 <= k < |users| && users[k] == found.value;
    } else {
      assert after[|users|].email == req.email;
    }
  }

  /** Any series of signups keeps the array well formed, never removes or
      changes a user, and leaves every requested email registered. */
  lemma {:induction false} SignedUpAllKeepsWellFormed(users: seq<LegacyUser>, reqs: seq<SignupRequest>,
                                                      hash: string -> string)
    requires WellFormed(users)
    ensures var after := SignedUpAll(users, reqs, hash);
            && WellFormed(after)
            && |users| <= |after| <= |users| + |reqs|
            && after[..|users|] == users
            && forall k :: 0 <= k < |reqs| ==> exists j :: 0 <= j < |after| && after[j].email == reqs[k].email
    decreases |reqs|
  {
    if reqs != [] {
      var next := SignedUp(users, reqs[0], hash);
      SignedUpKeepsWellFormed(users, reqs[0], hash);
      SignedUpAllKeepsWellFormed(next, reqs[1..], hash);
      var after := SignedUpAll(next, reqs[1..], hash);
      assert after[..|next|] == next;
      assert after[..|users|] == next[..|users|];
      forall k | 0 <= k < |reqs| ensures exists j :: 0 <= j < |after| && after[j].email == reqs[k].email {
        if k == 0 {
          var j :| 0 <= j < |next| && next[j].email == reqs[0].email;
          assert after[j] == next[j];
        } else {
          assert reqs[k] == reqs[1..][k - 1];
        }
      }
    }
  }

  /** The module-level `users` array with the signup handler. */
  class UserStore {
    var users: seq<LegacyUser>

    ghost predicate Valid()
      reads this
    {
      WellFormed(users)
    }

    constructor ()
      ensures Valid() && users == []
    {
      users := [];
    }

    /** POST /api/signup: refuse a known email; otherwise store the user
        with the next id and the hashed password, and answer 201 with a
        token for that id and the user without the password. */
    method Signup(email: string, password: string, fullName: string,
                  hash: string -> string, sign: int -> string) returns (reply: Response<Session>)
      requires Valid()
      modifies this
      ensures Valid()
      ensures users == SignedUp(old(users), SignupRequest(email, password, fullName), hash)
      ensures FindEmail(old(users), email).Some? ==> reply == Message(BAD_REQUEST, EMAIL_IN_USE)
      ensures FindEmail(old(users), email).None? ==>
                var id := |old(users)| + 1;
                reply == Json(CREATED, Session(sign(id), PublicUser(id, email, fullName)))
    {
      SignedUpKeepsWellFormed(users, SignupRequest(email, password, fullName), hash);
      if FindEmail(users, email).Some? {
        return Message(BAD_REQUEST, EMAIL_IN_USE);
      }
      var hashedPassword := hash(password);
      var user := LegacyUser(|users| + 1, email, fullName, hashedPassword);
      users := users + [user];
      var token := sign(user.id);
      reply := Json(CREATED, Session(token, PublicUser(user.id, user.email, user.fullName)));
    }
  }
}
