/** The recipe document model over the `recipes` collection. The collection
    is the sequence of its documents in natural (insertion) order; a
    document is found by its `_id`, written here as the ObjectId's string. */
module RecipeModel {
  import opened Common

  type RecipeId = string
  type UserId = string

  datatype Recipe = Recipe(
    id: RecipeId,
    title: string,
    ingredients: seq<string>,
    steps: seq<string>,
    imageUrl: Option<string>,
    createdBy: UserId,
    createdAt: int,
    favoritesCount: int,
    favoritedBy: seq<UserId>)

  /** The record `createRecipe` receives; its one caller builds it from
      these six fields. */
  datatype RecipeData = RecipeData(
    title: string,
    ingredients: seq<string>,
    steps: seq<string>,
    imageUrl: Option<string>,
    createdBy: UserId,
    createdAt: int)

  /** The body of an update, applied with `$set`: every field the body
      names is overwritten, whatever it is. */
  datatype RecipeUpdate = RecipeUpdate(
    title: Option<string>,
    ingredients: Option<seq<string>>,
    steps: Option<seq<string>>,
    imageUrl: Option<Option<string>>,
    createdBy: Option<UserId>,
    createdAt: Option<int>,
    favoritesCount: Option<int>,
    favoritedBy: Option<seq<UserId>>)

  /** The collection after a write, and the write's `modifiedCount` or
      `deletedCount`. */
  datatype Write = Write(recipes: seq<Recipe>, count: nat)

  /** The page `getRecipes` returns with its `pagination` object. */
  datatype RecipePage = RecipePage(recipes: seq<Recipe>, total: nat, page: int, limit: int, pages: int)

  const DEFAULT_PAGE := 1
  const DEFAULT_LIMIT := 10

  predicate DistinctIds(rs: seq<Recipe>)
  {
    forall i, j :: 0 <= i < j < |rs| ==> rs[i].id != rs[j].id
  }

  /** The position of the first document with `_id` equal to `id`, or -1. */
  function IndexOf(rs: seq<Recipe>, id: RecipeId): (i: int)
    ensures -1 <= i < |rs|
    ensures i >= 0 ==> rs[i].id == id && forall j :: 0 <= j < i ==> rs[j].id != id
    ensures i == -1 ==> forall j :: 0 <= j < |rs| ==> rs[j].id != id
  {
    if rs == [] then -1
    else if rs[0].id == id then 0
    else
      var k := IndexOf(rs[1..], id);
      if k == -1 then -1 else k + 1
  }

  /** `findOne({ _id })`: the document, or `null`. */
  function FindById(rs: seq<Recipe>, id: RecipeId): Option<Recipe>
  {
    var i := IndexOf(rs, id);
    if i == -1 then None else Some(rs[i])
  }

  /** `updateOne({ _id }, update)` with `f` the document update: the
      collection afterwards and `modifiedCount`, which is 1 only when a
      document matched and actually changed. */
  function UpdateById(rs: seq<Recipe>, id: RecipeId, f: Recipe -> Recipe): Write
  {
    var i := IndexOf(rs, id);
    if i == -1 then Write(rs, 0)
    else Write(rs[i := f(rs[i])], if f(rs[i]) == rs[i] then 0 else 1)
  }

  /** `deleteOne({ _id })`: the collection afterwards and `deletedCount`. */
  function DeleteById(rs: seq<Recipe>, id: RecipeId): Write
  {
    var i := IndexOf(rs, id);
    if i == -1 then Write(rs, 0) else Write(rs[..i] + rs[i + 1..], 1)
  }

  /** The document `createRecipe` inserts: the input's fields with no
      favourites yet. */
  function NewRecipe(data: RecipeData, id: RecipeId): Recipe
  {
    Recipe(id, data.title, data.ingredients, data.steps, data.imageUrl,
           data.createdBy, data.createdAt, 0, [])
  }

  /** createRecipe: insert the new document; the database chooses the id
      (`newId`), which `insertedId` reports back. */
  function CreateRecipe(rs: seq<Recipe>, data: RecipeData, newId: RecipeId): seq<Recipe>
  {
    rs + [NewRecipe(data, newId)]
  }

  /** `$set: updateData` applied to one document. */
  function ApplyUpdate(r: Recipe, u: RecipeUpdate): Recipe
  {
    Recipe(
      r.id,
      if u.title.Some? then u.title.value else r.title,
      if u.ingredients.Some? then u.ingredients.value else r.ingredients,
      if u.steps.Some? then u.steps.value else r.steps,
      if u.imageUrl.Some? then u.imageUrl.value else r.imageUrl,
      if u.createdBy.Some? then u.createdBy.value else r.createdBy,
      if u.createdAt.Some? then u.createdAt.value else r.createdAt,
      if u.favoritesCount.Some? then u.favoritesCount.value else r.favoritesCount,
      if u.favoritedBy.Some? then u.favoritedBy.value else r.favoritedBy)
  }

  /** updateRecipe: the collection and `modifiedCount`. */
  function UpdateRecipe(rs: seq<Recipe>, id: RecipeId, u: RecipeUpdate): Write
  {
    UpdateById(rs, id, r => ApplyUpdate(r, u))
  }

  /** deleteRecipe: the collection and `deletedCount`. */
  function DeleteRecipe(rs: seq<Recipe>, id: RecipeId): Write
  {
    DeleteById(rs, id)
  }

  /** `$inc: { favoritesCount: 1 }` for the action 'add', `-1` for any
      other action. */
  function CountStep(action: string): int
  {
    if action == "add" then 1 else -1
  }

  /** updateFavoritesCount: `new ObjectId(id)` throws on an id that does
      not parse (`idValid` false); otherwise the update on the parsed id,
      giving the collection and `modifiedCount > 0`. */
  function UpdateFavoritesCount(rs: seq<Recipe>, id: string, action: string, idValid: bool)
    : Outcome<(seq<Recipe>, bool)>
  {
    if !idValid then Throws
    else
      var w := UpdateById(rs, Canonical(id), (r: Recipe) => r.(favoritesCount := r.favoritesCount + CountStep(action)));
      Returns((w.recipes, w.count > 0))
  }

  /** `$addToSet`: append `u` unless it is already there. */
  function AddToSet(xs: seq<UserId>, u: UserId): seq<UserId>
  {
    if u in xs then xs else xs + [u]
  }

  /** `$pull`: remove every occurrence of `u`. */
  function Pull(xs: seq<UserId>, u: UserId): seq<UserId>
  {
    Filter(xs, x => x != u)
  }

  /** The update `updateFavoritesByUser` applies to its document. */
  function FavoriteUpdate(r: Recipe, userId: UserId, action: string): Recipe
  {
    if action == "add" then
      r.(favoritedBy := AddToSet(r.favoritedBy, userId), favoritesCount := r.favoritesCount + 1)
    else
      r.(favoritedBy := Pull(r.favoritedBy, userId), favoritesCount := r.favoritesCount - 1)
  }

  /** updateFavoritesByUser: throws on a recipe id that does not parse;
      otherwise the update on the parsed id, giving the collection and
      `modifiedCount > 0`. */
  function UpdateFavoritesByUser(rs: seq<Recipe>, recipeId: string, userId: UserId, action: string, idValid: bool)
    : Outcome<(seq<Recipe>, bool)>
  {
    if !idValid then Throws
    else
      var w := UpdateById(rs, Canonical(recipeId), r => FavoriteUpdate(r, userId, action));
      Returns((w.recipes, w.count > 0))
  }

  /** An element of the list `findByIds` receives, which is passed to `$in`
      unconverted. `$in` compares BSON values, type included: the ObjectId
      whose string is `hex` matches the document with that `_id`, and a
      string matches no document, since every `_id` is an ObjectId. */
  datatype ListedId = ObjectIdOf(hex: RecipeId) | IdString(s: string)

  /** findByIds: `[]` for a missing or empty id list, else the documents
      whose ObjectId is in the list (`$in`), in collection order. */
  function FindByIds(rs: seq<Recipe>, recipeIds: Option<seq<ListedId>>): seq<Recipe>
  {
    if recipeIds.None? || |recipeIds.value| == 0 then []
    else Filter(rs, (r: Recipe) => ObjectIdOf(r.id) in recipeIds.value)
  }

  /** findByUser: `find({ createdBy: userId })`. */
  function FindByUser(rs: seq<Recipe>, userId: UserId): seq<Recipe>
  {
    Filter(rs, (r: Recipe) => r.createdBy == userId)
  }

  /** getRecipeOwner: throws on an id that does not parse; otherwise the
      owner of the recipe with the parsed id, or `null` when it is
      missing. */
  function GetRecipeOwner(rs: seq<Recipe>, recipeId: string, idValid: bool): Outcome<Option<UserId>>
  {
    if !idValid then Throws
    else match FindById(rs, Canonical(recipeId))
      case None => Returns(None)
      case Some(r) => Returns(Some(r.createdBy))
  }

  // ---------------------------------------------------------------------
  // getRecipes

  predicate SortedByNewest(rs: seq<Recipe>)
  {
    forall i, j :: 0 <= i < j < |rs| ==> rs[i].createdAt >= rs[j].createdAt
  }

  function InsertByNewest(x: Recipe, rs: seq<Recipe>): (r: seq<Recipe>)
    requires SortedByNewest(rs)
    ensures |r| == |rs| + 1
    ensures r[0] == x || (rs != [] && r[0] == rs[0])
    ensures SortedByNewest(r)
    ensures multiset(r) == multiset(rs) + multiset{x}
  {
    if rs == [] || x.createdAt >= rs[0].createdAt then [x] + rs
    else
      assert rs == [rs[0]] + rs[1..];
      [rs[0]] + InsertByNewest(x, rs[1..])
  }

  /** `.sort({ createdAt: -1 })`: newest first; documents created at the
      same instant keep their collection order. */
  function SortByNewest(rs: seq<Recipe>): (r: seq<Recipe>)
    ensures |r| == |rs|
    ensures SortedByNewest(r)
    ensures multiset(r) == multiset(rs)
  {
    if rs == [] then []
    else
      assert rs == [rs[0]] + rs[1..];
      InsertByNewest(rs[0], SortByNewest(rs[1..]))
  }

  /** `Math.ceil(total / limit)` for a positive limit. */
  function CeilDiv(total: nat, limit: int): int
    requires limit > 0
  {
    (total + limit - 1) / limit
  }

  /** `.skip(skip).limit(limit)` on an already ordered result. */
  function Window(rs: seq<Recipe>, skip: nat, limit: nat): seq<Recipe>
  {
    if skip >= |rs| then []
    else if skip + limit >= |rs| then rs[skip..]
    else rs[skip..skip + limit]
  }

  /** `(page - 1) * limit` for a page and a limit of at least 1. */
  function SkipOf(page: int, limit: int): nat
    requires page >= 1 && limit >= 1
  {
    assert (page - 1) * limit >= 0 by { assert page - 1 >= 0 && limit >= 1; }
    (page - 1) * limit
  }

  /** The documents a filter selects; the empty filter `{}` selects all. */
  function Matching(rs: seq<Recipe>, filter: Option<Recipe -> bool>): seq<Recipe>
  {
    if filter.Some? then Filter(rs, filter.value) else rs
  }

  /** getRecipes with its defaults: page 1, limit 10, the empty filter. */
  function GetRecipes(rs: seq<Recipe>, page: Option<int>, limit: Option<int>,
                      filter: Option<Recipe -> bool>): (r: RecipePage)
    requires page.None? || page.value >= 1
    requires limit.None? || limit.value >= 1
    ensures r.page >= 1 && r.limit >= 1
  {
    var p := if page.Some? then page.value else DEFAULT_PAGE;
    var l := if limit.Some? then limit.value else DEFAULT_LIMIT;
    var matching := Matching(rs, filter);
    RecipePage(Window(SortByNewest(matching), SkipOf(p, l), l), |matching|, p, l, CeilDiv(|matching|, l))
  }

  // ---------------------------------------------------------------------
  // Properties

  /** A created recipe is found by its new id with the input's fields, no
      favourites and the count 0; the documents already there stay. */
  lemma CreateRecipeSpec(rs: seq<Recipe>, data: RecipeData, newId: RecipeId)
    requires FindById(rs, newId).None?
    ensures var after := CreateRecipe(rs, data, newId);
            && |after| == |rs| + 1
            && after[..|rs|] == rs
            && FindById(after, newId).Some?
            && var r := FindById(after, newId).value;
               && r.title == data.title && r.ingredients == data.ingredients
               && r.steps == data.steps && r.imageUrl == data.imageUrl
               && r.createdBy == data.createdBy && r.createdAt == data.createdAt
               && r.favoritesCount == 0 && r.favoritedBy == []
    ensures DistinctIds(rs) ==> DistinctIds(CreateRecipe(rs, data, newId))
  {
    var after := CreateRecipe(rs, data, newId);
    assert after[..|rs|] == rs;
    assert after[|rs|].id == newId;
  }

  /** The page count is the ceiling of total/limit: the pages cover every
      record and the last page is not empty. */
  lemma CeilDivSpec(total: nat, limit: int)
    requires limit > 0
    ensures var pages := CeilDiv(total, limit);
            && pages >= 0
            && pages * limit >= total
            && (total > 0 ==> (pages - 1) * limit < total)
            && (total == 0 ==> pages == 0)
  {
    var pages := CeilDiv(total, limit);
    var rem := (total + limit - 1) % limit;
    assert total + limit - 1 == pages * limit + rem;
    assert 0 <= rem < limit;
    assert (pages - 1) * limit == pages * limit - limit;
  }

  /** The window is the `limit` records after the first `skip`, or fewer
      at the end, and keeps the order. */
  lemma WindowSpec(rs: seq<Recipe>, skip: nat, limit: nat)
    ensures var w := Window(rs, skip, limit);
            && |w| <= limit
            && (skip >= |rs| ==> w == [])
            && (skip < |rs| ==> |w| == (if skip + limit <= |rs| then limit else |rs| - skip)
                                && w == rs[skip..skip + |w|])
            && (forall x :: x in w ==> x in rs)
            && (SortedByNewest(rs) ==> SortedByNewest(w))
  {
  }

  /** getRecipes reports the defaulted page and limit, counts every
      matching record in `total`, and `pages` is the ceiling of
      total/limit: the pages cover all records and the last one is not
      empty. */
  lemma GetRecipesPagination(rs: seq<Recipe>, page: Option<int>, limit: Option<int>,
                             filter: Option<Recipe -> bool>)
    requires page.None? || page.value >= 1
    requires limit.None? || limit.value >= 1
    ensures var r := GetRecipes(rs, page, limit, filter);
            && r.page == (if page.Some? then page.value else 1)
            && r.limit == (if limit.Some? then limit.value else 10)
            && r.total == |Matching(rs, filter)|
            && r.pages * r.limit >= r.total
            && (r.total > 0 ==> (r.pages - 1) * r.limit < r.total)
            && (r.total == 0 ==> r.pages == 0)
  {
    var r := GetRecipes(rs, page, limit, filter);
    CeilDivSpec(r.total, r.limit);
  }

  /** getRecipes returns `limit` records, or fewer on the last page, or
      none past the end. */
  lemma GetRecipesPageSize(rs: seq<Recipe>, page: Option<int>, limit: Option<int>,
                           filter: Option<Recipe -> bool>)
    requires page.None? || page.value >= 1
    requires limit.None? || limit.value >= 1
    ensures var r := GetRecipes(rs, page, limit, filter);
            var skip := SkipOf(r.page, r.limit);
            && |r.recipes| <= r.limit
            && (skip >= r.total ==> r.recipes == [])
            && (skip < r.total ==>
                  |r.recipes| == (if skip + r.limit <= r.total then r.limit else r.total - skip))
  {
    var r := GetRecipes(rs, page, limit, filter);
    WindowSpec(SortByNewest(Matching(rs, filter)), SkipOf(r.page, r.limit), r.limit);
  }

  /** The records getRecipes returns are those that follow the first
      `(page-1)*limit` matching records in newest-first order. */
  lemma GetRecipesWindow(rs: seq<Recipe>, page: Option<int>, limit: Option<int>,
                         filter: Option<Recipe -> bool>)
    requires page.None? || page.value >= 1
    requires limit.None? || limit.value >= 1
    ensures var r := GetRecipes(rs, page, limit, filter);
            var skip := SkipOf(r.page, r.limit);
            var sorted := SortByNewest(Matching(rs, filter));
            skip < |sorted| ==> skip + |r.recipes| <= |sorted| && r.recipes == sorted[skip..skip + |r.recipes|]
  {
    var r := GetRecipes(rs, page, limit, filter);
    var sorted := SortByNewest(Matching(rs, filter));
    WindowSlice(sorted, SkipOf(r.page, r.limit), r.limit);
    assert r.recipes == Window(sorted, SkipOf(r.page, r.limit), r.limit);
  }

  lemma WindowSlice(rs: seq<Recipe>, skip: nat, limit: nat)
    ensures var w := Window(rs, skip, limit);
            skip < |rs| ==> skip + |w| <= |rs| && w == rs[skip..skip + |w|]
  {
  }

  /** Every recipe getRecipes returns is in the collection and matches the
      filter, and the page is ordered newest first. */
  lemma GetRecipesOrder(rs: seq<Recipe>, page: Option<int>, limit: Option<int>,
                        filter: Option<Recipe -> bool>)
    requires page.None? || page.value >= 1
    requires limit.None? || limit.value >= 1
    ensures var r := GetRecipes(rs, page, limit, filter);
            && SortedByNewest(r.recipes)
            && (forall x :: x in r.recipes ==> x in rs && (filter.Some? ==> filter.value(x)))
  {
    var r := GetRecipes(rs, page, limit, filter);
    var matching := Matching(rs, filter);
    var sorted := SortByNewest(matching);
    WindowSpec(sorted, SkipOf(r.page, r.limit), r.limit);
    forall x | x in r.recipes ensures x in rs && (filter.Some? ==> filter.value(x)) {
      assert x in multiset(sorted);
      assert x in matching;
    }
  }

  /** `$addToSet` with `$inc`: the user ends up in `favoritedBy` exactly
      once if they were absent and the list is unchanged if they were
      present, yet the count always grows by one. */
  lemma FavoriteAddSpec(r: Recipe, userId: UserId)
    ensures var after := FavoriteUpdate(r, userId, "add");
            && userId in after.favoritedBy
            && (userId in r.favoritedBy ==> after.favoritedBy == r.favoritedBy)
            && (userId !in r.favoritedBy ==>
                  after.favoritedBy == r.favoritedBy + [userId]
                  && multiset(after.favoritedBy)[userId] == 1)
            && after.favoritesCount == r.favoritesCount + 1
            && after.(favoritedBy := r.favoritedBy, favoritesCount := r.favoritesCount) == r
  {
    if userId !in r.favoritedBy {
      assert multiset(r.favoritedBy)[userId] == 0;
    }
  }

  /** `$pull` with `$inc`: every occurrence of the user is gone, the other
      entries stay, and the count always drops by one. */
  lemma FavoriteRemoveSpec(r: Recipe, userId: UserId, action: string)
    requires action != "add"
    ensures var after := FavoriteUpdate(r, userId, action);
            && userId !in after.favoritedBy
            && (forall x :: x != userId ==> multiset(after.favoritedBy)[x] == multiset(r.favoritedBy)[x])
            && (userId !in r.favoritedBy ==> after.favoritedBy == r.favoritedBy)
            && after.favoritesCount == r.favoritesCount - 1
            && after.(favoritedBy := r.favoritedBy, favoritesCount := r.favoritesCount) == r
  {
    if userId !in r.favoritedBy {
      FilterKeepsAll(r.favoritedBy, userId);
    }
  }

  lemma {:induction false} FilterKeepsAll(xs: seq<UserId>, u: UserId)
    requires u !in xs
    ensures Filter(xs, x => x != u) == xs
  {
    if xs != [] {
      FilterKeepsAll(xs[1..], u);
      assert xs == [xs[0]] + xs[1..];
    }
  }

  /** The count is not tied to the list: a repeated 'add' (or a 'remove'
      of a user who never favourited) moves the count but not the list,
      so a document whose count matched its list no longer does. */
  lemma FavoritesCountDrifts(r: Recipe, userId: UserId, action: string)
    requires |r.favoritedBy| == r.favoritesCount
    requires action == "add" ==> userId in r.favoritedBy
    requires action != "add" ==> userId !in r.favoritedBy
    ensures var after := FavoriteUpdate(r, userId, action);
            |after.favoritedBy| != after.favoritesCount
  {
    if action != "add" {
      FilterKeepsAll(r.favoritedBy, userId);
    }
  }

  /** updateFavoritesCount throws exactly on an id that does not parse.
      Otherwise, on the recipe with the parsed id, in any spelling, the
      count moves by +1 for 'add' and by -1 for every other action, nothing
      else changes, and the result is true exactly when that recipe
      exists. */
  lemma UpdateFavoritesCountSpec(rs: seq<Recipe>, id: string, action: string, idValid: bool)
    ensures var out := UpdateFavoritesCount(rs, id, action, idValid);
            && (out.Throws? <==> !idValid)
            && (out.Returns? ==>
                  var (after, ok) := out.value;
                  var i := IndexOf(rs, Canonical(id));
                  && ok == (i != -1)
                  && |after| == |rs|
                  && (i == -1 ==> after == rs)
                  && (i != -1 ==>
                        && rs[i].id == Canonical(id)
                        && after[i] == rs[i].(favoritesCount := rs[i].favoritesCount + (if action == "add" then 1 else -1))
                        && forall j :: 0 <= j < |rs| && j != i ==> after[j] == rs[j]))
  {
  }

  /** updateFavoritesByUser throws exactly on a recipe id that does not
      parse. Otherwise it changes only the recipe with the parsed id,
      applies the favourite update to it, and reports true exactly when
      that recipe exists. */
  lemma UpdateFavoritesByUserSpec(rs: seq<Recipe>, recipeId: string, userId: UserId, action: string, idValid: bool)
    ensures var out := UpdateFavoritesByUser(rs, recipeId, userId, action, idValid);
            && (out.Throws? <==> !idValid)
            && (out.Returns? ==>
                  var (after, ok) := out.value;
                  var i := IndexOf(rs, Canonical(recipeId));
                  && ok == (i != -1)
                  && |after| == |rs|
                  && (i == -1 ==> after == rs)
                  && (i != -1 ==>
                        && rs[i].id == Canonical(recipeId)
                        && after[i] == FavoriteUpdate(rs[i], userId, action)
                        && forall j :: 0 <= j < |rs| && j != i ==> after[j] == rs[j]))
  {
    var i := IndexOf(rs, Canonical(recipeId));
    if idValid && i != -1 {
      assert FavoriteUpdate(rs[i], userId, action).favoritesCount != rs[i].favoritesCount;
    }
  }

  /** findByIds of a missing or empty list is `[]`; otherwise it returns
      the documents whose ObjectId is listed, each once per occurrence, and
      a list holding only strings finds nothing. */
  lemma FindByIdsSpec(rs: seq<Recipe>, recipeIds: Option<seq<ListedId>>)
    ensures (recipeIds.None? || recipeIds.value == []) ==> FindByIds(rs, recipeIds) == []
    ensures recipeIds.Some? && recipeIds.value != [] ==>
              forall x :: x in FindByIds(rs, recipeIds) <==> x in rs && ObjectIdOf(x.id) in recipeIds.value
    ensures recipeIds.Some? && (forall k :: 0 <= k < |recipeIds.value| ==> recipeIds.value[k].IdString?) ==>
              FindByIds(rs, recipeIds) == []
  {
    var found := FindByIds(rs, recipeIds);
    if recipeIds.Some? && found != [] {
      assert found[0] in found;
      assert ObjectIdOf(found[0].id) in recipeIds.value;
    }
  }

  /** findByIds keeps collection order: the documents found in a
      collection are those found in its first part followed by those found
      in the rest. */
  lemma FindByIdsKeepsOrder(a: seq<Recipe>, b: seq<Recipe>, recipeIds: Option<seq<ListedId>>)
    ensures FindByIds(a + b, recipeIds) == FindByIds(a, recipeIds) + FindByIds(b, recipeIds)
  {
    if recipeIds.Some? && |recipeIds.value| != 0 {
      FilterAppend(a, b, (r: Recipe) => ObjectIdOf(r.id) in recipeIds.value);
    }
  }

  /** getRecipeOwner throws exactly on an id that does not parse.
      Otherwise it is `null` exactly when no recipe has the parsed id, and
      the owner of that recipe otherwise, so every spelling of an id finds
      the same owner. */
  lemma GetRecipeOwnerSpec(rs: seq<Recipe>, recipeId: string, idValid: bool)
    ensures var out := GetRecipeOwner(rs, recipeId, idValid);
            && (out.Throws? <==> !idValid)
            && (out.Returns? ==>
                  && (out.value.None? <==> forall j :: 0 <= j < |rs| ==> rs[j].id != Canonical(recipeId))
                  && (out.value.Some? ==>
                        exists j :: 0 <= j < |rs| && rs[j].id == Canonical(recipeId) && rs[j].createdBy == out.value.value))
  {
    var i := IndexOf(rs, Canonical(recipeId));
    if idValid && i != -1 {
      assert rs[i].id == Canonical(recipeId);
    }
  }
}
