/** The administrator's routes, which work on the `users` and `recipes`
    collections directly: the user list without passwords, the overview
    counts with the newest user, the users with their recipe counts, and
    the deletion of a user together with that user's recipes. The
    administrator is the `id` claim of the verified token, which is a
    canonical (lower-case) id. */
module AdminRoutes {
  import opened Common
  import Users = UserModel
  import Recipes = RecipeModel

  type User = Users.User
  type Recipe = Recipes.Recipe

  /** GET /api/admin/users: every user, in collection order, with the
      `password` field projected away. */
  function ListUsers(us: seq<User>): (r: seq<Users.PublicUser>)
    ensures |r| == |us|
    ensures forall i :: 0 <= i < |us| ==>
              r[i].id == us[i].id && r[i].name == us[i].name && r[i].email == us[i].email
              && r[i].role == us[i].role && r[i].createdAt == us[i].createdAt
  {
    seq(|us|, i requires 0 <= i < |us| => Users.WithoutPassword(us[i]))
  }

  // ---------------------------------------------------------------------
  // overview

  datatype LatestUser = LatestUser(name: string, email: string, createdAt: int)

  /** The overview body; `latestUser` is absent when there are no users. */
  datatype Overview = Overview(totalUsers: nat, totalRecipes: nat, latestUser: Option<LatestUser>)

  /** The position of the element a stable newest-first sort puts first:
      the first user carrying the greatest creation time, or -1 for no
      users. */
  function LatestIndex(us: seq<User>): (i: int)
    ensures -1 <= i < |us|
    ensures i == -1 <==> us == []
    ensures i >= 0 ==> (forall j :: 0 <= j < |us| ==> us[j].createdAt <= us[i].createdAt)
                       && (forall j :: 0 <= j < i ==> us[j].createdAt < us[i].createdAt)
  {
    if us == [] then -1
    else
      var k := LatestIndex(us[1..]);
      if k == -1 || us[0].createdAt >= us[k + 1].createdAt then 0 else k + 1
  }

  /** GET /api/admin/overview */
  function GetOverview(us: seq<User>, rs: seq<Recipe>): Response<Overview>
  {
    var i := LatestIndex(us);
    Json(OK, Overview(|us|, |rs|,
                      if i == -1 then None else Some(LatestUser(us[i].name, us[i].email, us[i].createdAt))))
  }

  /** The overview counts every user and every recipe, and its latest user
      is a user whom no other user postdates, present exactly when there
      is a user. */
  lemma GetOverviewSpec(us: seq<User>, rs: seq<Recipe>)
    ensures var reply := GetOverview(us, rs);
            && reply.Json? && reply.status == OK
            && reply.body.totalUsers == |us| && reply.body.totalRecipes == |rs|
            && (reply.body.latestUser.None? <==> us == [])
            && (reply.body.latestUser.Some? ==>
                  var l := reply.body.latestUser.value;
                  && (exists j :: 0 <= j < |us| && us[j].name == l.name && us[j].email == l.email
                                  && us[j].createdAt == l.createdAt)
                  && forall j :: 0 <= j < |us| ==> us[j].createdAt <= l.createdAt)
  {
    var i := LatestIndex(us);
    if i != -1 {
      assert us[i].createdAt == GetOverview(us, rs).body.latestUser.value.createdAt;
    }
  }

  // ---------------------------------------------------------------------
  // users-with-recipes

  datatype UserSummary = UserSummary(id: Users.UserId, name: string, email: string, role: string, recipeCount: nat)

  /** The number of recipes whose `createdBy` is the user's id: the
      length of the user's own recipe list. */
  function RecipeCount(rs: seq<Recipe>, userId: Users.UserId): (n: nat)
    ensures n <= |rs|
  {
    |Recipes.FindByUser(rs, userId)|
  }

  /** GET /api/admin/users-with-recipes: one summary per user, in
      collection order. */
  function UsersWithRecipes(us: seq<User>, rs: seq<Recipe>): (r: seq<UserSummary>)
    ensures |r| == |us|
    ensures forall i :: 0 <= i < |us| ==>
              r[i] == UserSummary(us[i].id, us[i].name, us[i].email, us[i].role, RecipeCount(rs, us[i].id))
  {
    seq(|us|, i requires 0 <= i < |us| =>
              UserSummary(us[i].id, us[i].name, us[i].email, us[i].role, RecipeCount(rs, us[i].id)))
  }

  /** A user's recipe count is 0 exactly when no recipe names the user as
      its creator, and every recipe that does is on the user's list. */
  lemma RecipeCountZero(rs: seq<Recipe>, userId: Users.UserId)
    ensures RecipeCount(rs, userId) == 0 <==> forall j :: 0 <= j < |rs| ==> rs[j].createdBy != userId
    ensures forall j :: 0 <= j < |rs| && rs[j].createdBy == userId ==> rs[j] in Recipes.FindByUser(rs, userId)
  {
    var mine := Recipes.FindByUser(rs, userId);
    if |mine| != 0 {
      assert mine[0] in rs && mine[0].createdBy == userId;
      var j :| 0 <= j < |rs| && rs[j] == mine[0];
      assert rs[j].createdBy == userId;
    } else {
      forall j | 0 <= j < |rs| ensures rs[j].createdBy != userId {
        assert rs[j] !in mine;
      }
    }
  }

  // ---------------------------------------------------------------------
  // delete a user

  const DELETED := "User and their recipes deleted successfully"

  /** The collections after a delete answered 200: the user with that id
      gone, and every recipe it created gone. */
  function WithoutUser(us: seq<User>, rs: seq<Recipe>, i: int, owner: Users.UserId): (seq<User>, seq<Recipe>)
    requires 0 <= i < |us|
  {
    (us[..i] + us[i + 1..], Filter(rs, (r: Recipe) => r.createdBy != owner))
  }

  /** DELETE /api/admin/users/:id as written: the self-check compares the
      raw `:id` with the administrator's id, the user deletion matches the
      parsed id, and the recipe deletion matches the raw `:id` again. */
  function DeleteUserAsWritten(us: seq<User>, rs: seq<Recipe>, id: string, idValid: bool, adminId: Users.UserId)
    : (seq<User>, seq<Recipe>, Reply)
  {
    if !idValid then (us, rs, Message(BAD_REQUEST, "Invalid user ID"))
    else if adminId == id then (us, rs, Message(FORBIDDEN, "You cannot delete your own admin account"))
    else
      var i := Users.IndexOfId(us, Canonical(id));
      if i == -1 then (us, rs, Message(NOT_FOUND, "User not found or already deleted"))
      else
        var (us', rs') := WithoutUser(us, rs, i, id);
        (us', rs', Message(OK, DELETED))
  }

  /** DELETE /api/admin/users/:id with every comparison made on the parsed
      id, which is what the guard and `deleteMany` evidently mean. */
  function DeleteUser(us: seq<User>, rs: seq<Recipe>, id: string, idValid: bool, adminId: Users.UserId)
    : (seq<User>, seq<Recipe>, Reply)
  {
    if !idValid then (us, rs, Message(BAD_REQUEST, "Invalid user ID"))
    else if adminId == Canonical(id) then (us, rs, Message(FORBIDDEN, "You cannot delete your own admin account"))
    else
      var i := Users.IndexOfId(us, Canonical(id));
      if i == -1 then (us, rs, Message(NOT_FOUND, "User not found or already deleted"))
      else
        var (us', rs') := WithoutUser(us, rs, i, Canonical(id));
        (us', rs', Message(OK, DELETED))
  }

  /** The handler as written: an invalid id and then the raw `:id` equal
      to the administrator's id are refused, and then an unknown parsed
      id, in that order, with nothing written; otherwise the one user with
      the parsed id goes, the others stay in order, and the recipes left
      are exactly those whose `createdBy` is not the raw `:id`. */
  lemma DeleteUserAsWrittenSpec(us: seq<User>, rs: seq<Recipe>, id: string, idValid: bool, adminId: Users.UserId)
    ensures var (us', rs', reply) := DeleteUserAsWritten(us, rs, id, idValid, adminId);
            var i := Users.IndexOfId(us, Canonical(id));
            && (reply.status == BAD_REQUEST <==> !idValid)
            && (reply.status == FORBIDDEN <==> idValid && adminId == id)
            && (reply.status == NOT_FOUND <==> idValid && adminId != id && i == -1)
            && (reply.status == OK <==> idValid && adminId != id && i != -1)
            && (reply.status != OK ==> us' == us && rs' == rs)
            && (reply.status == OK ==>
                  && us' == us[..i] + us[i + 1..]
                  && us[i].id == Canonical(id)
                  && (forall r :: r in rs' <==> r in rs && r.createdBy != id))
  {
  }

  const ADMIN_ID := "aaaaaaaaaaaaaaaaaaaaaaaa"
  const ADMIN_ID_UPPER := "AAAAAAAAAAAAAAAAAAAAAAAA"

  /** The administrator spells their own id in upper case: the route
      accepts it, deletes the administrator's account and leaves the
      administrator's recipes behind, owned by no user. */
  lemma SelfDeleteByUpperCase(admin: User, recipe: Recipe)
    requires admin.id == ADMIN_ID && recipe.createdBy == ADMIN_ID
    ensures var (us', rs', reply) := DeleteUserAsWritten([admin], [recipe], ADMIN_ID_UPPER, true, ADMIN_ID);
            && reply.status == OK
            && us' == []
            && rs' == [recipe]
  {
    assert Canonical(ADMIN_ID_UPPER) == ADMIN_ID;
    assert ADMIN_ID != ADMIN_ID_UPPER by { assert ADMIN_ID[0] != ADMIN_ID_UPPER[0]; }
    assert Filter([recipe], (r: Recipe) => r.createdBy != ADMIN_ID_UPPER)
           == [recipe] + Filter([], (r: Recipe) => r.createdBy != ADMIN_ID_UPPER);
  }

  /** Deleting another user through the upper-case spelling of that
      user's id removes the account but none of its recipes. */
  lemma OrphanRecipesByUpperCase(user: User, recipe: Recipe)
    requires user.id == "bbbbbbbbbbbbbbbbbbbbbbbb" && recipe.createdBy == user.id
    ensures var (us', rs', reply) := DeleteUserAsWritten([user], [recipe], "BBBBBBBBBBBBBBBBBBBBBBBB", true, ADMIN_ID);
            && reply.status == OK
            && us' == []
            && rs' == [recipe]
  {
    var raw := "BBBBBBBBBBBBBBBBBBBBBBBB";
    assert Canonical(raw) == user.id;
    assert ADMIN_ID != raw by { assert ADMIN_ID[0] != raw[0]; }
    assert Filter([recipe], (r: Recipe) => r.createdBy != raw)
           == [recipe] + Filter([], (r: Recipe) => r.createdBy != raw);
  }

  /** The administrator's own account survives every delete request, in
      any spelling of its id. */
  lemma DeleteUserKeepsAdmin(us: seq<User>, rs: seq<Recipe>, id: string, idValid: bool, adminId: Users.UserId)
    requires Users.FindById(us, adminId).Some?
    ensures Users.FindById(DeleteUser(us, rs, id, idValid, adminId).0, adminId).Some?
  {
    var (us', rs', reply) := DeleteUser(us, rs, id, idValid, adminId);
    var a := Users.IndexOfId(us, adminId);
    if reply.status == OK {
      var i := Users.IndexOfId(us, Canonical(id));
      assert a != i;
      if a < i {
        assert us'[a] == us[a];
      } else {
        assert us'[a - 1] == us[a];
      }
    }
  }

  /** An invalid id, the administrator's own id and an unknown id are
      refused, in that order, and leave both collections alone; otherwise
      the one user with that id goes, the others stay in order, and the
      recipes left are exactly those the user did not create. */
  lemma DeleteUserSpec(us: seq<User>, rs: seq<Recipe>, id: string, idValid: bool, adminId: Users.UserId)
    ensures var (us', rs', reply) := DeleteUser(us, rs, id, idValid, adminId);
            var i := Users.IndexOfId(us, Canonical(id));
            && (reply.status == BAD_REQUEST <==> !idValid)
            && (reply.status == FORBIDDEN <==> idValid && adminId == Canonical(id))
            && (reply.status == NOT_FOUND <==> idValid && adminId != Canonical(id) && i == -1)
            && (reply.status == OK <==> idValid && adminId != Canonical(id) && i != -1)
            && (reply.status != OK ==> us' == us && rs' == rs)
            && (reply.status == OK ==>
                  && us' == us[..i] + us[i + 1..]
                  && us[i].id == Canonical(id)
                  && (forall r :: r in rs' <==> r in rs && r.createdBy != Canonical(id))
                  && RecipeCount(rs', Canonical(id)) == 0)
  {
    var (us', rs', reply) := DeleteUser(us, rs, id, idValid, adminId);
    if reply.status == OK {
      RecipeCountZero(rs', Canonical(id));
      forall j | 0 <= j < |rs'| ensures rs'[j].createdBy != Canonical(id) {
        assert rs'[j] in rs';
      }
    }
  }

  /** After a successful delete the users-with-recipes list drops that
      user and every other user keeps its recipe count. */
  lemma DeleteUserKeepsOtherCounts(us: seq<User>, rs: seq<Recipe>, id: string, idValid: bool, adminId: Users.UserId,
                                   other: Users.UserId)
    requires DeleteUser(us, rs, id, idValid, adminId).2.status == OK
    requires other != Canonical(id)
    ensures RecipeCount(DeleteUser(us, rs, id, idValid, adminId).1, other) == RecipeCount(rs, other)
  {
    var rs' := DeleteUser(us, rs, id, idValid, adminId).1;
    var keep := (r: Recipe) => r.createdBy != Canonical(id);
    assert rs' == Filter(rs, keep);
    var mine := (r: Recipe) => r.createdBy == other;
    assert multiset(Recipes.FindByUser(rs', other)) == multiset(Recipes.FindByUser(rs, other));
    assert |multiset(Recipes.FindByUser(rs', other))| == |Recipes.FindByUser(rs', other)|;
  }
}
