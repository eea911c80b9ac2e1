/** The user document model over the `users` collection, which the
    controllers call: lookups by email and by id, the `$set` update, and
    user creation with a hashed password. The collection is the sequence of
    its documents in natural order; a document's `_id` is written as the
    ObjectId's string, and `createdAt` stands for the creation time the
    ObjectId carries (`_id.getTimestamp()`). bcrypt's hash is a function
    parameter. */
module UserModel {
  import opened Common

  type UserId = string

  datatype User = User(id: UserId, createdAt: int, name: string, email: string, password: string, role: string)

  /** A user document without its `password` field: what
      `const { password, ...userData } = user` and the projection
      `{ password: 0 }` leave. */
  datatype PublicUser = PublicUser(id: UserId, createdAt: int, name: string, email: string, role: string)

  /** The `$set` document of a profile update: `{ name, email }` and, on a
      password change, `password`. */
  datatype UserUpdate = UserUpdate(name: string, email: string, password: Option<string>)

  const DEFAULT_ROLE := "user"

  function WithoutPassword(u: User): (p: PublicUser)
    ensures p.id == u.id && p.createdAt == u.createdAt && p.name == u.name
    ensures p.email == u.email && p.role == u.role
  {
    PublicUser(u.id, u.createdAt, u.name, u.email, u.role)
  }

  predicate DistinctIds(us: seq<User>)
  {
    forall i, j :: 0 <= i < j < |us| ==> us[i].id != us[j].id
  }

  /** No two documents share an email: what signup's duplicate check and
      updateProfile's "already in use" check are there to keep. */
  predicate DistinctEmails(us: seq<User>)
  {
    forall i, j :: 0 <= i < j < |us| ==> us[i].email != us[j].email
  }

  /** The position of the first document with `_id` equal to `id`, or -1. */
  function IndexOfId(us: seq<User>, id: UserId): (i: int)
    ensures -1 <= i < |us|
    ensures i >= 0 ==> us[i].id == id && forall j :: 0 <= j < i ==> us[j].id != id
    ensures i == -1 ==> forall j :: 0 <= j < |us| ==> us[j].id != id
  {
    if us == [] then -1
    else if us[0].id == id then 0
    else
      var k := IndexOfId(us[1..], id);
      if k == -1 then -1 else k + 1
  }

  /** findById: `findOne({ _id })`. */
  function FindById(us: seq<User>, id: UserId): Option<User>
  {
    var i := IndexOfId(us, id);
    if i == -1 then None else Some(us[i])
  }

  /** findByEmail: `findOne({ email })`, the first document in natural
      order with that email, or `null`. */
  function FindByEmail(us: seq<User>, email: string): (r: Option<User>)
    ensures r.Some? ==> r.value in us && r.value.email == email
    ensures r.None? <==> forall j :: 0 <= j < |us| ==> us[j].email != email
  {
    if us == [] then None
    else if us[0].email == email then Some(us[0])
    else FindByEmail(us[1..], email)
  }

  /** The document after `$set: data`. */
  function ApplyUserUpdate(u: User, data: UserUpdate): User
  {
    u.(name := data.name, email := data.email,
       password := if data.password.Some? then data.password.value else u.password)
  }

  /** updateUser: the collection afterwards and `modifiedCount > 0`. */
  function UpdateUser(us: seq<User>, id: UserId, data: UserUpdate): (seq<User>, bool)
  {
    var i := IndexOfId(us, id);
    if i == -1 then (us, false)
    else
      var u := ApplyUserUpdate(us[i], data);
      (us[i := u], u != us[i])
  }

  /** createUser: hash the password and insert `{ name, email, password,
      role }`, with role 'user' when none is given; the database chooses
      the new id and the creation time. */
  function CreateUser(us: seq<User>, name: string, email: string, password: string, role: Option<string>,
                      hash: string -> string, newId: UserId, createdAt: int): seq<User>
  {
    us + [User(newId, createdAt, name, email, hash(password),
               if role.Some? then role.value else DEFAULT_ROLE)]
  }

  /** After updateUser the document has the new name and email, keeps its
      password unless the update carries one, and no other document
      changes. */
  lemma UpdateUserSpec(us: seq<User>, id: UserId, data: UserUpdate)
    requires DistinctIds(us)
    ensures var (after, _) := UpdateUser(us, id, data);
            && |after| == |us|
            && DistinctIds(after)
            && (FindById(us, id).None? ==> after == us)
            && (FindById(us, id).Some? ==>
                  var was := FindById(us, id).value;
                  && FindById(after, id) == Some(was.(name := data.name, email := data.email,
                                                      password := if data.password.Some? then data.password.value else was.password))
                  && forall j :: 0 <= j < |us| && us[j].id != id ==> after[j] == us[j])
  {
    var (after, _) := UpdateUser(us, id, data);
    var i := IndexOfId(us, id);
    if i != -1 {
      assert after[i].id == id;
    }
  }

  /** createUser appends exactly one document carrying the hashed password
      and the given role, or 'user' when none is given; the documents
      already there stay, and a fresh id and a fresh email keep ids and
      emails distinct. */
  lemma CreateUserSpec(us: seq<User>, name: string, email: string, password: string, role: Option<string>,
                       hash: string -> string, newId: UserId, createdAt: int)
    ensures var after := CreateUser(us, name, email, password, role, hash, newId, createdAt);
            && |after| == |us| + 1 && after[..|us|] == us
            && after[|us|].id == newId && after[|us|].email == email && after[|us|].name == name
            && after[|us|].password == hash(password)
            && after[|us|].role == (if role.Some? then role.value else "user")
            && (FindById(us, newId).None? && DistinctIds(us) ==> DistinctIds(after))
            && (FindByEmail(us, email).None? && DistinctEmails(us) ==> DistinctEmails(after))
  {
    var after := CreateUser(us, name, email, password, role, hash, newId, createdAt);
    assert after[..|us|] == us;
  }
}
