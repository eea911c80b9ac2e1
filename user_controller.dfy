/** The profile request handlers of the signed-in user, whose id is the
    `id` claim of the verified token. bcrypt's compare and hash are the
    function parameters `compare` and `hash`. */
module UserController {
  import opened Common
  import opened UserModel
  import Recipes = RecipeModel

  /** The fields updateProfile reads from the request body. */
  datatype ProfileBody = ProfileBody(
    name: string,
    email: string,
    currentPassword: Option<string>,
    newPassword: Option<string>)

  /** getProfile: 404 when the token's user is gone, else the user without
      the password. */
  function GetProfile(us: seq<User>, userId: UserId): Response<PublicUser>
  {
    match FindById(us, userId)
    case None => Message(NOT_FOUND, "User not found")
    case Some(u) => Json(OK, WithoutPassword(u))
  }

  /** The `$set` document: the name and email, and the new password's
      hash on a password change. */
  function ProfileUpdate(body: ProfileBody, hash: string -> string): UserUpdate
  {
    UserUpdate(body.name, body.email, if Truthy(body.newPassword) then Some(hash(body.newPassword.value)) else None)
  }

  /** updateProfile, guard by guard: the user must exist; a changed email
      must not belong to another user; a password change needs the current
      password (bcrypt throws on a missing one, which the handler answers
      with 500). Then the update, and the re-read user without its
      password (destructuring a vanished user would throw, answered with
      500). */
  function UpdateProfile(us: seq<User>, userId: UserId, body: ProfileBody,
                         compare: (string, string) -> bool, hash: string -> string)
    : (seq<User>, Response<PublicUser>)
  {
    match FindById(us, userId)
    case None => (us, Message(NOT_FOUND, "User not found"))
    case Some(u) =>
      var taken := body.email != u.email && FindByEmail(us, body.email).Some?
                   && FindByEmail(us, body.email).value.id != userId;
      if taken then (us, Message(BAD_REQUEST, "Email is already in use"))
      else if Truthy(body.newPassword) && body.currentPassword.None? then (us, Message(SERVER_ERROR, "Server error"))
      else if Truthy(body.newPassword) && !compare(body.currentPassword.value, u.password) then
        (us, Message(BAD_REQUEST, "Current password is incorrect"))
      else
        var (after, _) := UpdateUser(us, userId, ProfileUpdate(body, hash));
        match FindById(after, userId)
        case None => (after, Message(SERVER_ERROR, "Server error"))
        case Some(v) => (after, Json(OK, WithoutPassword(v)))
  }

  /** getUserRecipes: the recipes the user created. */
  function GetUserRecipes(rs: seq<Recipes.Recipe>, userId: UserId): Response<seq<Recipes.Recipe>>
  {
    Json(OK, Recipes.FindByUser(rs, userId))
  }

  // ---------------------------------------------------------------------
  // Properties

  /** getProfile finds the token's user and never exposes a password: the
      reply is 404 exactly when no user has the id, and otherwise that
      user's public fields. */
  lemma GetProfileSpec(us: seq<User>, userId: UserId)
    ensures var reply := GetProfile(us, userId);
            && (reply.status == NOT_FOUND <==> forall j :: 0 <= j < |us| ==> us[j].id != userId)
            && (reply.status != NOT_FOUND ==>
                  && reply.Json? && reply.status == OK
                  && exists j :: 0 <= j < |us| && us[j].id == userId && reply.body == WithoutPassword(us[j]))
  {
    var i := IndexOfId(us, userId);
    if i != -1 {
      assert us[i].id == userId;
    }
  }

  /** getUserRecipes returns every recipe the user created and no other. */
  lemma GetUserRecipesSpec(rs: seq<Recipes.Recipe>, userId: UserId)
    ensures var reply := GetUserRecipes(rs, userId);
            && reply.Json? && reply.status == OK
            && forall r :: r in reply.body <==> r in rs && r.createdBy == userId
  {
  }

  /** The refusals of updateProfile in their order: 404 exactly for a
      missing user, "Email is already in use" exactly when a changed email
      belongs to another user, "Current password is incorrect" only for a
      password change whose current password does not match, and a 500 only
      for a password change without a current password. */
  lemma UpdateProfileRefusals(us: seq<User>, userId: UserId, body: ProfileBody,
                              compare: (string, string) -> bool, hash: string -> string)
    requires DistinctIds(us)
    ensures var (after, reply) := UpdateProfile(us, userId, body, compare, hash);
            var i := IndexOfId(us, userId);
            && (reply.status == NOT_FOUND <==> i == -1)
            && (reply == Message(BAD_REQUEST, "Email is already in use") <==>
                  i != -1 && body.email != us[i].email
                  && exists j :: 0 <= j < |us| && us[j].email == body.email && us[j].id != userId)
            && (reply == Message(BAD_REQUEST, "Current password is incorrect") ==>
                  i != -1 && Truthy(body.newPassword) && body.currentPassword.Some?
                  && !compare(body.currentPassword.value, us[i].password))
  {
    var i := IndexOfId(us, userId);
    if i != -1 {
      var found := FindByEmail(us, body.email);
      if body.email != us[i].email {
        if found.Some? {
          var k :| 0 <= k < |us| && us[k] == found.value;
        } else {
          assert forall j :: 0 <= j < |us| ==> us[j].email != body.email;
        }
      }
    }
  }

  /** What updateProfile writes: only a 200 changes the collection; it
      gives the user the new name and email, the new password's hash on a
      password change or the old password otherwise, leaves every other user
      alone, and replies with the updated user without its password. The
      500 after the update never happens. */
  lemma UpdateProfileWrites(us: seq<User>, userId: UserId, body: ProfileBody,
                            compare: (string, string) -> bool, hash: string -> string)
    requires DistinctIds(us)
    ensures var (after, reply) := UpdateProfile(us, userId, body, compare, hash);
            var i := IndexOfId(us, userId);
            && (reply.status != OK ==> after == us)
            && (reply.status == OK ==>
                  && i != -1
                  && |after| == |us|
                  && after[i] == us[i].(name := body.name, email := body.email,
                                        password := if Truthy(body.newPassword) then hash(body.newPassword.value)
                                                    else us[i].password)
                  && (forall j :: 0 <= j < |us| && j != i ==> after[j] == us[j])
                  && reply == Json(OK, WithoutPassword(after[i])))
            && (i != -1 && reply.status == SERVER_ERROR ==> Truthy(body.newPassword) && body.currentPassword.None?)
  {
    var i := IndexOfId(us, userId);
    if i != -1 {
      var data := ProfileUpdate(body, hash);
      UpdateUserSpec(us, userId, data);
      var (after, _) := UpdateUser(us, userId, data);
      assert after[i].id == userId;
      assert FindById(after, userId) == Some(after[i]);
    }
  }

  /** The email guard is passed: the user exists, and a changed email
      belongs to no other user. */
  predicate EmailCheckPassed(us: seq<User>, userId: UserId, email: string)
  {
    var i := IndexOfId(us, userId);
    && i != -1
    && !(email != us[i].email && exists j :: 0 <= j < |us| && us[j].email == email && us[j].id != userId)
  }

  /** The password guard, in both directions: past the user and email
      checks, a password change without a current password gives the 500
      of bcrypt's throw and one with a mismatching current password gives
      "Current password is incorrect", both writing nothing; and a 200 is
      given exactly when the checks pass and a password change, if any,
      comes with a matching current password. */
  lemma UpdateProfilePasswordCheck(us: seq<User>, userId: UserId, body: ProfileBody,
                                   compare: (string, string) -> bool, hash: string -> string)
    requires DistinctIds(us)
    ensures var (after, reply) := UpdateProfile(us, userId, body, compare, hash);
            var i := IndexOfId(us, userId);
            var passed := EmailCheckPassed(us, userId, body.email);
            && (passed && Truthy(body.newPassword) && body.currentPassword.None? ==>
                  reply == Message(SERVER_ERROR, "Server error") && after == us)
            && (passed && Truthy(body.newPassword) && body.currentPassword.Some?
                && !compare(body.currentPassword.value, us[i].password) ==>
                  reply == Message(BAD_REQUEST, "Current password is incorrect") && after == us)
            && (reply.status == OK <==>
                  passed && (!Truthy(body.newPassword)
                             || (body.currentPassword.Some? && compare(body.currentPassword.value, us[i].password))))
  {
    UpdateProfileRefusals(us, userId, body, compare, hash);
    UpdateProfileWrites(us, userId, body, compare, hash);
  }

  /** Keeping one's email skips the uniqueness check entirely: even when
      another user already holds the same email, the reply is never "Email
      is already in use". */
  lemma UnchangedEmailSkipsCheck(us: seq<User>, userId: UserId, body: ProfileBody,
                                 compare: (string, string) -> bool, hash: string -> string)
    requires FindById(us, userId).Some? && body.email == FindById(us, userId).value.email
    ensures UpdateProfile(us, userId, body, compare, hash).1 != Message(BAD_REQUEST, "Email is already in use")
  {
  }

  /** A successful update keeps emails distinct: a changed email was held
      by no one, an unchanged one was the user's own. */
  lemma UpdateProfileKeepsEmailsDistinct(us: seq<User>, userId: UserId, body: ProfileBody,
                                         compare: (string, string) -> bool, hash: string -> string)
    requires DistinctIds(us) && DistinctEmails(us)
    ensures DistinctEmails(UpdateProfile(us, userId, body, compare, hash).0)
  {
    UpdateProfileRefusals(us, userId, body, compare, hash);
    UpdateProfileWrites(us, userId, body, compare, hash);
    var (after, reply) := UpdateProfile(us, userId, body, compare, hash);
    if reply.status == OK {
      var i := IndexOfId(us, userId);
      forall a, b | 0 <= a < b < |after| ensures after[a].email != after[b].email {
        if a == i || b == i {
          var other := if a == i then b else a;
          if body.email != us[i].email {
            assert !(exists j :: 0 <= j < |us| && us[j].email == body.email && us[j].id != userId);
            assert us[other].id != userId;
          }
        }
      }
    }
  }
}
