/** The recipe request handlers: each checks its guards in a fixed order
    (a valid id, an existing recipe, the requester owns it) and only then
    writes. A handler is a function from the collection and the request to
    the reply and the collection afterwards. `ObjectId.isValid(id)` is the
    parameter `idValid`; the requester is the `id` claim of the verified
    token; the id of a new document and the clock are parameters. */
module RecipeController {
  import opened Common
  import Recipes = RecipeModel

  type Recipe = Recipes.Recipe
  type RecipeId = Recipes.RecipeId
  type UserId = Recipes.UserId

  /** The fields createRecipe reads from the request body; an absent
      field is `None`. An empty list is present (and truthy). */
  datatype CreateBody = CreateBody(
    title: Option<string>,
    ingredients: Option<seq<string>>,
    steps: Option<seq<string>>,
    imageUrl: Option<string>)

  /** createRecipe: 400 when the title is falsy or the ingredients or the
      steps are missing; otherwise insert the recipe, owned by the
      requester and stamped `now`, and answer 201 with the new id. */
  function CreateRecipe(rs: seq<Recipe>, body: CreateBody, requester: UserId, now: int, newId: RecipeId)
    : (seq<Recipe>, Response<RecipeId>)
  {
    if !Truthy(body.title) || body.ingredients.None? || body.steps.None? then
      (rs, Message(BAD_REQUEST, "Missing required fields"))
    else
      var data := Recipes.RecipeData(body.title.value, body.ingredients.value, body.steps.value,
                                     if Truthy(body.imageUrl) then body.imageUrl else None,
                                     requester, now);
      (Recipes.CreateRecipe(rs, data, newId), Json(CREATED, newId))
  }

  /** getRecipeById: 400 for an invalid id, 404 for a missing recipe, else
      the recipe. */
  function GetRecipeById(rs: seq<Recipe>, id: string, idValid: bool): Response<Recipe>
  {
    if !idValid then Message(BAD_REQUEST, "Invalid recipe ID")
    else match Recipes.FindById(rs, Canonical(id))
      case None => Message(NOT_FOUND, "Recipe not found")
      case Some(r) => Json(OK, r)
  }

  /** updateRecipe: the guards, then `$set` of the body; 500 when the write
      modified nothing. */
  function UpdateRecipe(rs: seq<Recipe>, id: string, idValid: bool, requester: UserId, update: Recipes.RecipeUpdate)
    : (seq<Recipe>, Reply)
  {
    if !idValid then (rs, Message(BAD_REQUEST, "Invalid recipe ID"))
    else match Recipes.FindById(rs, Canonical(id))
      case None => (rs, Message(NOT_FOUND, "Recipe not found"))
      case Some(r) =>
        if r.createdBy != requester then (rs, Message(FORBIDDEN, "Not authorized to update this recipe"))
        else
          var w := Recipes.UpdateRecipe(rs, Canonical(id), update);
          if w.count == 0 then (w.recipes, Message(SERVER_ERROR, "Update failed"))
          else (w.recipes, Message(OK, "Recipe updated"))
  }

  /** deleteRecipe: the guards, then `deleteOne`; 500 when nothing was
      deleted. */
  function DeleteRecipe(rs: seq<Recipe>, id: string, idValid: bool, requester: UserId): (seq<Recipe>, Reply)
  {
    if !idValid then (rs, Message(BAD_REQUEST, "Invalid recipe ID"))
    else match Recipes.FindById(rs, Canonical(id))
      case None => (rs, Message(NOT_FOUND, "Recipe not found"))
      case Some(r) =>
        if r.createdBy != requester then (rs, Message(FORBIDDEN, "Not authorized to delete this recipe"))
        else
          var w := Recipes.DeleteRecipe(rs, Canonical(id));
          if w.count == 0 then (w.recipes, Message(SERVER_ERROR, "Delete failed"))
          else (w.recipes, Message(OK, "Recipe deleted"))
  }

  // ---------------------------------------------------------------------
  // Properties

  /** A body without a truthy title, or without ingredients or steps, is
      refused and nothing is written; any other body creates exactly one
      recipe, owned by the requester, with no favourites and a `null`
      image unless a truthy image URL was given. */
  lemma CreateRecipeSpec(rs: seq<Recipe>, body: CreateBody, requester: UserId, now: int, newId: RecipeId)
    requires Recipes.FindById(rs, newId).None?
    ensures var (after, reply) := CreateRecipe(rs, body, requester, now, newId);
            && (reply.status == BAD_REQUEST <==> (!Truthy(body.title) || body.ingredients.None? || body.steps.None?))
            && (reply.status == BAD_REQUEST ==> after == rs && reply.Message?)
            && (reply.status != BAD_REQUEST ==>
                  && reply == Json(CREATED, newId)
                  && |after| == |rs| + 1 && after[..|rs|] == rs
                  && Recipes.FindById(after, newId).Some?
                  && var r := Recipes.FindById(after, newId).value;
                     && Some(r.title) == body.title
                     && Some(r.ingredients) == body.ingredients
                     && Some(r.steps) == body.steps
                     && r.imageUrl == (if Truthy(body.imageUrl) then body.imageUrl else None)
                     && r.createdBy == requester && r.createdAt == now
                     && r.favoritesCount == 0 && r.favoritedBy == [])
  {
    if Truthy(body.title) && body.ingredients.Some? && body.steps.Some? {
      var data := Recipes.RecipeData(body.title.value, body.ingredients.value, body.steps.value,
                                     if Truthy(body.imageUrl) then body.imageUrl else None,
                                     requester, now);
      Recipes.CreateRecipeSpec(rs, data, newId);
    }
  }

  /** getRecipeById answers 400 exactly for an invalid id, whatever the
      collection holds; 404 exactly when no recipe has the id; and
      otherwise the one recipe with that id. */
  lemma GetRecipeByIdSpec(rs: seq<Recipe>, id: string, idValid: bool)
    ensures var reply := GetRecipeById(rs, id, idValid);
            && (reply.status == BAD_REQUEST <==> !idValid)
            && (reply.status == NOT_FOUND <==> idValid && forall j :: 0 <= j < |rs| ==> rs[j].id != Canonical(id))
            && (reply.status == OK ==> reply.Json? && reply.body in rs && reply.body.id == Canonical(id))
            && reply.status in {BAD_REQUEST, NOT_FOUND, OK}
  {
  }

  /** updateRecipe writes only when it answers 200 or 500, and then only
      when the id is valid, the recipe exists and the requester owns it;
      a 200 means that one recipe now carries the update and nothing else
      changed; a 500 means the update changed nothing. */
  lemma UpdateRecipeSpec(rs: seq<Recipe>, id: string, idValid: bool, requester: UserId, update: Recipes.RecipeUpdate)
    ensures var (after, reply) := UpdateRecipe(rs, id, idValid, requester, update);
            var i := Recipes.IndexOf(rs, Canonical(id));
            && (reply.status == BAD_REQUEST <==> !idValid)
            && (reply.status == NOT_FOUND <==> idValid && i == -1)
            && (reply.status == FORBIDDEN <==> idValid && i != -1 && rs[i].createdBy != requester)
            && (reply.status !in {OK, SERVER_ERROR} ==> after == rs)
            && (reply.status in {OK, SERVER_ERROR} ==> idValid && i != -1 && rs[i].createdBy == requester)
            && (reply.status == SERVER_ERROR <==> after == rs && idValid && i != -1 && rs[i].createdBy == requester)
            && (reply.status == OK ==>
                  && |after| == |rs|
                  && after[i] == Recipes.ApplyUpdate(rs[i], update) && after[i] != rs[i]
                  && forall j :: 0 <= j < |rs| && j != i ==> after[j] == rs[j])
  {
    var i := Recipes.IndexOf(rs, Canonical(id));
    if idValid && i != -1 && rs[i].createdBy == requester {
      var (after, reply) := UpdateRecipe(rs, id, idValid, requester, update);
      if reply.status == OK {
        assert after[i] == Recipes.ApplyUpdate(rs[i], update) != rs[i];
        assert after != rs;
      }
    }
  }

  /** A requester who does not own the recipe is refused with 403 and the
      collection is left exactly as it was, for any update body. */
  lemma UpdateByNonOwnerChangesNothing(rs: seq<Recipe>, id: string, requester: UserId, update: Recipes.RecipeUpdate)
    requires Recipes.FindById(rs, Canonical(id)).Some?
    requires Recipes.FindById(rs, Canonical(id)).value.createdBy != requester
    ensures UpdateRecipe(rs, id, true, requester, update)
              == (rs, Message(FORBIDDEN, "Not authorized to update this recipe"))
  {
  }

  /** An update whose fields equal the stored ones writes nothing, and the
      handler reports it as a failure. */
  lemma UpdateWithSameValuesFails(rs: seq<Recipe>, id: string, requester: UserId, update: Recipes.RecipeUpdate)
    requires Recipes.FindById(rs, Canonical(id)).Some?
    requires Recipes.FindById(rs, Canonical(id)).value.createdBy == requester
    requires Recipes.ApplyUpdate(Recipes.FindById(rs, Canonical(id)).value, update)
               == Recipes.FindById(rs, Canonical(id)).value
    ensures UpdateRecipe(rs, id, true, requester, update) == (rs, Message(SERVER_ERROR, "Update failed"))
  {
    var i := Recipes.IndexOf(rs, Canonical(id));
    assert rs[i := rs[i]] == rs;
  }

  /** deleteRecipe never answers 500: once the guards pass the recipe is
      there and `deleteOne` removes it. A 200 removes exactly that recipe and
      keeps the rest in order; every other reply leaves the collection
      alone. */
  lemma DeleteRecipeSpec(rs: seq<Recipe>, id: string, idValid: bool, requester: UserId)
    ensures var (after, reply) := DeleteRecipe(rs, id, idValid, requester);
            var i := Recipes.IndexOf(rs, Canonical(id));
            && reply.status != SERVER_ERROR
            && (reply.status == BAD_REQUEST <==> !idValid)
            && (reply.status == NOT_FOUND <==> idValid && i == -1)
            && (reply.status == FORBIDDEN <==> idValid && i != -1 && rs[i].createdBy != requester)
            && (reply.status == OK <==> idValid && i != -1 && rs[i].createdBy == requester)
            && (reply.status != OK ==> after == rs)
            && (reply.status == OK ==>
                  && after == rs[..i] + rs[i + 1..]
                  && multiset(after) + multiset{rs[i]} == multiset(rs))
  {
    var i := Recipes.IndexOf(rs, Canonical(id));
    if i != -1 {
      assert rs == rs[..i] + [rs[i]] + rs[i + 1..];
    }
  }

  /** With distinct ids a deleted recipe can no longer be found. */
  lemma DeletedRecipeIsGone(rs: seq<Recipe>, id: string, requester: UserId)
    requires Recipes.DistinctIds(rs)
    requires DeleteRecipe(rs, id, true, requester).1.status == OK
    ensures Recipes.FindById(DeleteRecipe(rs, id, true, requester).0, Canonical(id)).None?
    ensures Recipes.DistinctIds(DeleteRecipe(rs, id, true, requester).0)
  {
    var i := Recipes.IndexOf(rs, Canonical(id));
    var after := DeleteRecipe(rs, id, true, requester).0;
    assert after == rs[..i] + rs[i + 1..];
    forall j | 0 <= j < |after| ensures after[j].id != Canonical(id) {
      if j < i { assert after[j] == rs[j]; } else { assert after[j] == rs[j + 1]; }
    }
    forall a, b | 0 <= a < b < |after| ensures after[a].id != after[b].id {
      var a' := if a < i then a else a + 1;
      var b' := if b < i then b else b + 1;
      assert after[a] == rs[a'] && after[b] == rs[b'];
    }
  }
}
