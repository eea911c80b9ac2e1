# GoFood core, modelled in Dafny

GoFood is a recipe-sharing web application: a Svelte client, and an
Express server over MongoDB with Socket.io for live notifications. This
project models the sequential logic underneath that glue and proves what
each piece promises:

- the client's notification store, a state of `{ items, unreadCount }`
  changed by add, mark-as-read, mark-all-as-read and remove
  (`notifications.dfy`, a class whose methods apply pure transitions);
- the server's socket registry, a `Map` from user id to socket id with its
  `register` and `disconnect` handlers (`sockets_util.dfy`, a class over
  the map's entries in insertion order, with the disconnect scan as a
  loop);
- the recipe and user document models over their collections: creation
  defaults, lookups, `$set` updates, the favourites updates, `findByIds`,
  the owner lookup and the paged, newest-first `getRecipes`
  (`recipe_model.dfy`, `user_model.dfy`);
- the request handlers as fixed-order guard chains that map the request
  and the collections to an HTTP reply and the collections afterwards:
  recipes (`recipe_controller.dfy`), profiles (`user_controller.dfy`),
  signup and login (`auth_controller.dfy`), and the administrator's
  routes (`admin_routes.dfy`);
- the stand-alone signup server over an in-memory users array
  (`legacy_signup.dfy`, a class whose method appends to it).

A collection is the sequence of its documents in natural order. A
document's `_id` is the ObjectId's hexadecimal string, and a user's
`createdAt` is the time the ObjectId carries. A handler is atomic: it
reads the collections, decides, and writes, with nothing in between.
These stand for the foreign calls and are parameters:

- `ObjectId.isValid(id)` is `idValid`; where a model function parses an
  id itself, `idValid` false is the id on which `new ObjectId(id)` throws,
  and the function's result is `Throws`;
- `new ObjectId(id)` is `Common.Canonical`, the id's hexadecimal digits
  in lower case;
- bcrypt's `hash` and `compare` are `hash` and `compare`;
- the JWT signer is `sign`;
- the id the database gives a new document is `newId`;
- the clock is `now`, `createdAt` or `timestamp`.

The `register` handler has no guard on the user id, so `undefined` and
`null` become keys like any other (`SocketsUtil.RegisterUndefined`).

## Model

| member | source | states |
|---|---|---|
| Notifications.LoadFromStorage | client/src/stores/notifications.js:4-16 | a parsed stored state is used as it is; no window, no item or unparsable text gives the empty state, which is consistent |
| Notifications.CountUnread | client/src/stores/notifications.js:59 | the recount is at most the number of items, and is 0 exactly when every item is read |
| Notifications.AddedSpec | client/src/stores/notifications.js:33-42 | the new unread item comes first, the old items follow in order, the counter grows by exactly one, and a consistent state stays consistent |
| Notifications.MarkedAsReadAlreadyRead | client/src/stores/notifications.js:51 | marking an already read item returns the same state |
| Notifications.MarkedAsReadUnread | client/src/stores/notifications.js:54-61 | an unread item in range becomes read, all other items are unchanged, and the counter is the recount, one less than before |
| Notifications.MarkedAsReadOutOfRange | client/src/stores/notifications.js:54-61 | an index naming no item leaves the items alone and only recounts |
| Notifications.MarkedAsReadConsistent | client/src/stores/notifications.js:45-65 | markAsRead keeps a consistent state consistent, and leaves every state consistent except in the already-read case |
| Notifications.AllMarkedAsReadSpec | client/src/stores/notifications.js:68-75 | length, messages and timestamps are kept, every item is read, the counter is 0 and that is the true count |
| Notifications.CountUnreadAfterRead | client/src/stores/notifications.js:55-59 | marking one item read lowers the unread count by one exactly when it was unread |
| Notifications.CountUnreadAfterRemove | client/src/stores/notifications.js:80-81 | removing one item lowers the unread count by one exactly when it was unread |
| Notifications.RemovedInRange | client/src/stores/notifications.js:78-86 | an index in range drops exactly that item, keeps the rest in order, and recounts |
| Notifications.RemovedOutOfRange | client/src/stores/notifications.js:80-81 | an index naming no item keeps every item and only recounts |
| Notifications.NotificationStore.constructor | client/src/stores/notifications.js:19 | the store starts from the stored state or the empty one |
| Notifications.NotificationStore.AddNotification | client/src/stores/notifications.js:33-42 | the state becomes the added state, and consistency is kept |
| Notifications.NotificationStore.MarkAsRead | client/src/stores/notifications.js:45-65 | the state becomes the marked state, and consistency is kept |
| Notifications.NotificationStore.MarkAllAsRead | client/src/stores/notifications.js:68-75 | the state becomes the all-read state, which is consistent with counter 0 |
| Notifications.NotificationStore.RemoveNotification | client/src/stores/notifications.js:78-86 | the state becomes the state with the item removed, which is consistent |
| SocketsUtil.KeyIndex | server/utils/socketsUtil.js:4 | the position of a key is its first occurrence, or -1 when no entry has it |
| SocketsUtil.SetShape | server/utils/socketsUtil.js:18 | `set` replaces a present key's entry in place and appends an absent key at the end |
| SocketsUtil.SetAsMap | server/utils/socketsUtil.js:18 | as a finite map, register sends the user to the socket and leaves every other key as it was |
| SocketsUtil.SetLookup | server/utils/socketsUtil.js:18 | after register the user's lookup gives the socket, and every other key's lookup is unchanged |
| SocketsUtil.SetKeepsDistinct | server/utils/socketsUtil.js:18 | register never duplicates a key |
| SocketsUtil.KeyCountSet | server/utils/socketsUtil.js:18 | after register the user has exactly one entry |
| SocketsUtil.RegisterTwice | server/utils/socketsUtil.js:4-18 | registering from s1 then s2 equals registering from s2 alone: the last write wins, with one entry for the user |
| SocketsUtil.RegisterUndefined | server/utils/socketsUtil.js:17-18 | without a guard, an undefined user id becomes a key that lookups find |
| SocketsUtil.SocketIndex | server/utils/socketsUtil.js:23-24 | the first entry, in insertion order, whose value is the socket, or -1 when there is none |
| SocketsUtil.RemoveFirstSocketKeepsOthers | server/utils/socketsUtil.js:23-28 | at most one entry goes, it holds the socket, and every entry holding a different socket stays |
| SocketsUtil.RemoveAbsentSocket | server/utils/socketsUtil.js:23-28 | disconnecting a socket no entry holds leaves the map unchanged |
| SocketsUtil.KeepsDistinctWithout | server/utils/socketsUtil.js:25 | deleting an entry keeps the keys distinct |
| SocketsUtil.SocketRegistry.constructor | server/utils/socketsUtil.js:4 | the registry starts empty |
| SocketsUtil.SocketRegistry.Register | server/utils/socketsUtil.js:17-20 | the entries become the set entries; the user's lookup gives this socket, and the finite map is updated at that key only |
| SocketsUtil.SocketRegistry.Disconnect | server/utils/socketsUtil.js:22-30 | the loop leaves exactly the entries without the first one holding this socket, and keys stay distinct |
| RecipeModel.IndexOf | server/models/Recipe.js:16-18 | `findOne({ _id })` finds the first document with the id, or reports that none has it |
| RecipeModel.CreateRecipeSpec | server/models/Recipe.js:6-10 | the new document is found by its id with the input fields, count 0 and no favourites; older documents stay and ids stay distinct |
| RecipeModel.CeilDivSpec | server/models/Recipe.js:85 | `pages` is the ceiling of total/limit: pages*limit covers total, the last page is not empty, and no records means no pages |
| RecipeModel.WindowSpec | server/models/Recipe.js:73-74 | skip-then-limit yields at most limit records, the records right after the first `skip`, in order |
| RecipeModel.InsertByNewest | server/models/Recipe.js:72 | inserting into a newest-first list keeps it newest first and adds exactly that record |
| RecipeModel.SortByNewest | server/models/Recipe.js:72 | the sort is newest first and a permutation of its input |
| RecipeModel.GetRecipesPagination | server/models/Recipe.js:69-87 | defaults page 1 and limit 10; total counts every matching record; pages is the ceiling of total/limit |
| RecipeModel.GetRecipesPageSize | server/models/Recipe.js:70-75 | a page holds limit records, or fewer on the last page, or none past the end |
| RecipeModel.GetRecipesWindow | server/models/Recipe.js:70-75 | the page is the newest-first matches after the first (page-1)*limit |
| RecipeModel.GetRecipesOrder | server/models/Recipe.js:71-72 | every returned record is in the collection and matches the filter, newest first |
| RecipeModel.FavoriteAddSpec | server/models/Recipe.js:55 | 'add' puts the user in favoritedBy once without duplicating, yet always adds 1 to the count; nothing else changes |
| RecipeModel.FavoriteRemoveSpec | server/models/Recipe.js:55 | any other action removes every occurrence of the user, keeps the others, and always subtracts 1 |
| RecipeModel.FavoritesCountDrifts | server/models/Recipe.js:55 | a repeated add, or a remove of an absent user, makes a count that matched the list no longer match it |
| RecipeModel.UpdateFavoritesCountSpec | server/models/Recipe.js:45-52 | throws exactly on an id that does not parse; otherwise +1 for 'add' and -1 for any other action on the recipe with the parsed id only, and true exactly when it exists |
| RecipeModel.UpdateFavoritesByUserSpec | server/models/Recipe.js:54-61 | throws exactly on an id that does not parse; otherwise the favourite update is applied to the recipe with the parsed id only, and the result is true exactly when it exists |
| RecipeModel.FindByIdsSpec | server/models/Recipe.js:24-30 | a missing or empty id list gives []; otherwise exactly the documents whose ObjectId is listed, and a list of strings finds nothing |
| RecipeModel.FindByIdsKeepsOrder | server/models/Recipe.js:27-29 | the documents found come in collection order |
| RecipeModel.GetRecipeOwnerSpec | server/models/Recipe.js:90-93 | throws exactly on an id that does not parse; otherwise `null` exactly when no recipe has the parsed id, and that recipe's owner otherwise |
| UserModel.WithoutPassword | server/controllers/userController.js:21 | every field but the password is carried over |
| UserModel.IndexOfId | server/models/User.js:18-20 | the first user with the id, or -1 when none has it |
| UserModel.FindByEmail | server/models/User.js:14-16 | a user found has that email; none is found exactly when no user has it |
| UserModel.UpdateUserSpec | server/models/User.js:22-28 | the `$set` gives the user the new name and email, keeps the password unless given one, and changes no one else |
| UserModel.CreateUserSpec | server/models/User.js:7-12 | one user is appended with the hashed password and the role, 'user' by default; a fresh id and a fresh email keep both distinct |
| RecipeController.CreateRecipeSpec | server/controllers/recipeController.js:7-25 | a falsy title or missing ingredients or steps gives 400 with nothing written; otherwise 201 and one recipe owned by the requester, stamped now, with image null unless a truthy URL was given |
| RecipeController.GetRecipeByIdSpec | server/controllers/recipeController.js:33-44 | 400 exactly for an invalid id, whatever the collection; 404 exactly when no recipe has the id; otherwise that recipe |
| RecipeController.UpdateRecipeSpec | server/controllers/recipeController.js:46-65 | 400, 404, 403 in that order without writing; 500 exactly when the owner's update changes nothing; 200 applies the update to that recipe only |
| RecipeController.UpdateByNonOwnerChangesNothing | server/controllers/recipeController.js:57-59 | a non-owner's update is refused with 403 and the collection is unchanged |
| RecipeController.UpdateWithSameValuesFails | server/controllers/recipeController.js:61-62 | an owner's update equal to the stored fields writes nothing and is answered with "Update failed" |
| RecipeController.DeleteRecipeSpec | server/controllers/recipeController.js:67-85 | the same guard order; 500 never happens; 200 removes exactly that recipe and keeps the rest in order; any other reply writes nothing |
| RecipeController.DeletedRecipeIsGone | server/controllers/recipeController.js:81-84 | with distinct ids, a deleted recipe is no longer found and ids stay distinct |
| AdminRoutes.ListUsers | server/routes/adminRoutes.js:10-13 | one entry per user in order, with every field but the password |
| AdminRoutes.LatestIndex | server/routes/adminRoutes.js:24-30 | the user a stable newest-first sort puts first: no user is newer, no earlier user is as new, and -1 for no users |
| AdminRoutes.GetOverviewSpec | server/routes/adminRoutes.js:15-41 | the counts are the collection sizes; the latest user is present exactly when there are users, is one of them, and none is newer |
| AdminRoutes.RecipeCount | server/routes/adminRoutes.js:49 | a user's count is at most the number of recipes |
| AdminRoutes.UsersWithRecipes | server/routes/adminRoutes.js:43-64 | one summary per user, in order, with the user's fields and recipe count |
| AdminRoutes.RecipeCountZero | server/routes/adminRoutes.js:49-55 | the count is 0 exactly when no recipe names the user as creator, and every recipe that does is counted |
| AdminRoutes.DeleteUserAsWrittenSpec | server/routes/adminRoutes.js:66-89 | as written: 400, 403 for the raw administrator id, 404 for an unknown parsed id, in that order and writing nothing; 200 removes the user with the parsed id only and exactly the recipes whose creator is the raw `:id` |
| AdminRoutes.SelfDeleteByUpperCase | server/routes/adminRoutes.js:74-86 | as written, the administrator's id in upper case passes the self-check, deletes the administrator and keeps the administrator's recipes |
| AdminRoutes.OrphanRecipesByUpperCase | server/routes/adminRoutes.js:79-86 | as written, a user deleted by an upper-case id leaves all that user's recipes behind |
| AdminRoutes.DeleteUserSpec | server/routes/adminRoutes.js:66-89 | 400, 403 for the administrator's own id, 404 for an unknown id, in that order and writing nothing; 200 removes that user only and exactly the recipes it created |
| AdminRoutes.DeleteUserKeepsAdmin | server/routes/adminRoutes.js:73-76 | the administrator's own account survives every delete request, in any spelling of its id |
| AdminRoutes.DeleteUserKeepsOtherCounts | server/routes/adminRoutes.js:86 | after a delete every other user keeps its recipe count |
| UserController.GetProfileSpec | server/controllers/userController.js:11-27 | 404 exactly when no user has the token's id; otherwise that user without the password |
| UserController.UpdateProfileRefusals | server/controllers/userController.js:30-58 | 404 exactly for a missing user; "Email is already in use" exactly when a changed email belongs to another user; "Current password is incorrect" only for a password change with a mismatching current password |
| UserController.UpdateProfilePasswordCheck | server/controllers/userController.js:52-78 | past the user and email checks, a password change with no current password gives 500 and one with a mismatching current password gives "Current password is incorrect", both writing nothing; 200 exactly when the checks pass and any password change has a matching current password |
| UserController.UpdateProfileWrites | server/controllers/userController.js:48-78 | only a 200 writes, setting name, email and the new hash or the old password, touching no one else, and replying with the updated user without password; the 500 after the update never happens |
| UserController.UnchangedEmailSkipsCheck | server/controllers/userController.js:42 | keeping one's email is never refused as already in use, even when another user holds it |
| UserController.UpdateProfileKeepsEmailsDistinct | server/controllers/userController.js:42-65 | a profile update keeps the users' emails distinct |
| UserController.GetUserRecipesSpec | server/controllers/userController.js:82-94 | exactly the recipes the requester created |
| AuthController.SignupSpec | server/controllers/authController.js:8-16 | a taken email gives 400 with nothing written; otherwise 201 and one new user with the hashed password and role 'user' by default; emails stay distinct |
| AuthController.SignupTwice | server/controllers/authController.js:11-12 | a second signup with the same email is refused and the first user alone is stored |
| AuthController.LoginSpec | server/controllers/authController.js:18-36 | an unknown email and a wrong password get the same 401; 200 exactly for a known email with a matching password, with the token and id, name, email and role |
| AuthController.SignupThenLogin | server/controllers/authController.js:8-36 | a fresh signup followed by a login with the same credentials succeeds for the new user |
| LegacySignup.FindEmail | server/index.js:28 | a user found has that email; none is found exactly when no user has it |
| LegacySignup.SignedUpKeepsWellFormed | server/index.js:28-42 | one signup keeps ids 1..n and emails distinct, changes no existing user, and leaves the email registered |
| LegacySignup.SignedUpAllKeepsWellFormed | server/index.js:28-42 | any series of signups keeps ids 1..n and emails distinct, never changes a user, and registers every requested email |
| LegacySignup.UserStore.constructor | server/index.js:20 | the store starts empty |
| LegacySignup.UserStore.Signup | server/index.js:23-60 | a known email gives 400 with no change; otherwise the user is appended with the next id and the hashed password, and 201 carries the token and the user without password |
| Common.Filter | server/models/Recipe.js:55 | `filter` and `$pull` keep exactly the elements that pass, each as often as before |
| Common.FilterAppend | server/models/Recipe.js:55 | `filter` keeps the input's order: filtering a concatenation concatenates the filtered parts |
| Common.CanonicalSpec | server/routes/adminRoutes.js:79 | parsing an id keeps its length; a canonical id parses to itself; an id is canonical exactly when it has no upper-case hex letter |

## Findings

| source | as written | input that shows it | evidently intended | confidence | as-written member | corrected member |
|---|---|---|---|---|---|---|
| server/routes/adminRoutes.js:74 | the self-delete guard compares the raw `:id` string with the administrator's id, while `deleteOne` matches the parsed ObjectId | the administrator sends their own id in upper-case hex, e.g. `AAAAAAAAAAAAAAAAAAAAAAAA` for `aaaaaaaaaaaaaaaaaaaaaaaa`: the guard passes and the account is deleted | compare the parsed id, so no spelling of the administrator's id gets past the guard | not executed; relies on `ObjectId.isValid` accepting upper-case hex and `new ObjectId` lower-casing it | AdminRoutes.SelfDeleteByUpperCase | AdminRoutes.DeleteUserKeepsAdmin |
| server/routes/adminRoutes.js:86 | `deleteMany({ createdBy: id })` uses the raw `:id`, while `createdBy` holds the canonical lower-case id | deleting user `bbbbbbbbbbbbbbbbbbbbbbbb` as `BBBBBBBBBBBBBBBBBBBBBBBB`: the user goes, their recipes stay | delete the recipes of the user actually deleted | not executed; same assumption about ObjectId parsing | AdminRoutes.OrphanRecipesByUpperCase | AdminRoutes.DeleteUserSpec |

`AdminRoutes.DeleteUserAsWritten` is the handler as written. `AdminRoutes.DeleteUser`
is the corrected handler: it makes every comparison on the parsed id.

## Left out

- Database access is modelled as values. Each collection is a sequence that a handler reads and returns changed. Driver calls, connection setup and database errors are not modelled.
- Errors thrown by the database, and the generic 500 replies of the `catch` blocks that follow them, are not modelled. The 500 replies that come from a code path are modelled: an update that modified nothing, a missing current password that bcrypt refuses, and a vanished user after an update.
- Concurrency is not modelled. Each handler runs as one atomic step. In the real server other requests can interleave at every `await`. For example, two simultaneous signups with one email can both pass the duplicate check in `server/index.js`.
- The following are parameters with no behaviour of their own: bcrypt's hash and compare, JWT signing, `ObjectId.isValid`, ObjectId generation, `getTimestamp`, and the clock.
- `Common.Canonical` models only the 24-digit hexadecimal form of an id. The 12-byte string form that `ObjectId` also accepts is not modelled.
- localStorage, JSON (de)serialisation, the Svelte `subscribe` mechanics and the `unreadCount`/`items` getters of the notification store are left out. A notification's timestamp is a parameter.
- Socket.io server construction, CORS, console logging and client socket wiring are transport plumbing and are not modelled. No room or dispatch logic exists in the registry, so none is modelled.
- `getAllRecipes` is not modelled. It is a plain `find({})`, and it lies outside the guard chains and pagination this project models.
- Request bodies are typed. Absent fields are `None`. Field values of the wrong JSON type are not modelled:
  - a non-array `ingredients` or `steps`;
  - a missing `password` in signup or login (bcrypt would throw there, and those handlers have no `catch`);
  - a missing `name` or `email` in updateProfile.
- RecipeModel.GetRecipes: requires a page and a limit of at least 1 when given. A page below 1 gives a negative skip. A limit of 0 means no limit to MongoDB, and `pages` becomes `Infinity`, or `NaN` when there are no records. The model does not follow either case.
- RecipeModel.SortByNewest: recipes with equal `createdAt` keep their collection order. MongoDB leaves the order of ties unspecified, so this contract is more specific than the database's.
- RecipeModel.CreateRecipeSpec: the controller never passes favourites fields, so the model's input record has none. The source's spread order, where the defaults overwrite any given values, is therefore not exercised.
- RecipeModel.ApplyUpdate: the `$set` body of updateRecipe is the whole request body, so it may name any key. The model represents only the eight known fields, and lets a body overwrite each of them, `createdBy` included. It does not represent `_id`: changing `_id` makes MongoDB fail.
- RecipeModel.ApplyUpdate: `$set` also writes keys the document does not have. An owner's body such as `{ "description": "x" }` changes the document and is answered 200 "Recipe updated". The model cannot express such a body; its nearest input, an update naming no known field, is answered 500 "Update failed".
- UserModel.CreateUserSpec: the role is either absent, which gives 'user', or a string. An explicit `null` role, which the source would store as `null`, is not modelled.
- LegacySignup.UserStore.Signup: the request's password is a string. A missing or non-string password makes `bcrypt.hash` throw, and the handler's `catch` answers 500 "Der skete en fejl ved oprettelse af bruger" without storing the user. That error path is not modelled.
- SocketsUtil.UserKey: a registered user id is `undefined`, `null`, a string or an integer. Booleans, fractional numbers and objects, which a client could also send, are not represented.
- `RecipeModel.ListedId`: an element of the `findByIds` list is an ObjectId or a string. Other BSON values in that list are not represented.
- SocketsUtil.SocketRegistry.Disconnect: the source's `for … of` over `entries()` is modelled as an index loop over the entry sequence. A `Map` deletion during iteration is not modelled beyond the single deletion followed by `break`.
