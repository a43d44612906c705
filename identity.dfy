/**
 * Roles and users in server/index.js: the `authorize` route gate, and the
 * rules of user creation, partial update and deletion (the `/users`
 * routes), as functions on the `users` table. Password hashing is a
 * constructor standing for bcrypt.
 */
module Identity {
  import opened Results
  import opened Sequences
  import opened Text

  const Admin: string := "admin"
  const DataManager: string := "data_manager"
  const Reader: string := "reader"

  /** The roles user creation accepts. */
  const ValidRoles: seq<string> := [Admin, DataManager, Reader]

  /** The roles allowed by each gated route. */
  const CorrectionRoles: seq<string> := [DataManager, Reader]
  const CatalogRoles: seq<string> := [DataManager, Admin]
  const UserRoles: seq<string> := [Admin]

  /** `authorize(roles)`: the request passes iff the user's role is listed. */
  function Authorize(roles: seq<string>, role: string): (pass: bool)
    ensures pass <==> exists i :: 0 <= i < |roles| && roles[i] == role
  {
    role in roles
  }

  /**
   * The gates of the routes: corrections admit data managers and readers
   * (not admins), the meter catalog data managers and admins, the user
   * routes admins only.
   */
  lemma RouteGates(role: string)
    ensures Authorize(CorrectionRoles, role) <==> role == DataManager || role == Reader
    ensures Authorize(CatalogRoles, role) <==> role == DataManager || role == Admin
    ensures Authorize(UserRoles, role) <==> role == Admin
  {
    if Authorize(CorrectionRoles, role) {
      var i :| 0 <= i < |CorrectionRoles| && CorrectionRoles[i] == role;
    }
    if Authorize(CatalogRoles, role) {
      var i :| 0 <= i < |CatalogRoles| && CatalogRoles[i] == role;
    }
    if Authorize(UserRoles, role) {
      var i :| 0 <= i < |UserRoles| && UserRoles[i] == role;
    }
  }

  /** A stored password: the hash of the plain text (bcrypt stands behind it). */
  datatype Secret = Hashed(plain: string)

  /** A row of `users`. */
  datatype User = User(id: int, username: string, secret: Secret, role: string)

  /** `WHERE id = id` on the users */
  function HasUserId(id: int): User -> bool
  {
    (u: User) => u.id == id
  }

  /** `WHERE username = name` */
  predicate Taken(users: seq<User>, name: string)
  {
    exists i :: 0 <= i < |users| && users[i].username == name
  }

  /**
   * POST /users: required fields first (400), then a duplicate username
   * (409), then the role (400); otherwise the user is created.
   */
  function CreateVerdict(users: seq<User>, username: Option<string>, password: Option<string>, role: Option<string>): (o: Outcome)
    ensures o == Ok <==>
      Truthy(username) && Truthy(password) && Truthy(role) &&
      !Taken(users, username.value) && role.value in ValidRoles
    ensures !Truthy(username) || !Truthy(password) || !Truthy(role) ==> o == Invalid
    ensures Truthy(username) && Truthy(password) && Truthy(role) && Taken(users, username.value) ==> o == Conflict
    ensures (Truthy(username) && Truthy(password) && Truthy(role) && !Taken(users, username.value) &&
             role.value !in ValidRoles) ==>
      o == Invalid
    ensures o in {Ok, Invalid, Conflict}
  {
    if !Truthy(username) || !Truthy(password) || !Truthy(role) then Invalid
    else if Taken(users, username.value) then Conflict
    else if role.value !in ValidRoles then Invalid
    else Ok
  }

  /** The users table after a successful creation: the new user, with its password hashed, at the end. */
  function CreatedUsers(users: seq<User>, username: string, password: string, role: string, freshId: int): (r: seq<User>)
    ensures |r| == |users| + 1 && r[..|users|] == users
    ensures r[|users|] == User(freshId, username, Hashed(password), role)
  {
    users + [User(freshId, username, Hashed(password), role)]
  }

  /** A created user's name is taken afterwards, so creating it again is a conflict. */
  lemma CreateThenConflict(users: seq<User>, username: string, password: string, role: string, freshId: int,
                           password2: string, role2: string)
    requires username != "" && password2 != "" && role2 != ""
    ensures CreateVerdict(CreatedUsers(users, username, password, role, freshId),
                          Some(username), Some(password2), Some(role2)) == Conflict
  {
    var r := CreatedUsers(users, username, password, role, freshId);
    assert r[|users|].username == username;
  }

  /**
   * The `updates` object of PUT /users/:id: each truthy field, the password
   * hashed. Neither the role nor the uniqueness of the name is checked.
   */
  function Patch(username: Option<string>, role: Option<string>, password: Option<string>): User -> User
  {
    (u: User) => u.(username := if Truthy(username) then username.value else u.username,
                    role := if Truthy(role) then role.value else u.role,
                    secret := if Truthy(password) then Hashed(password.value) else u.secret)
  }

  /** PUT /users/:id: an unknown id is 404, an empty update 400. */
  function UpdateVerdict(users: seq<User>, id: int, username: Option<string>, role: Option<string>, password: Option<string>): (o: Outcome)
    ensures o == NotFound <==> forall i :: 0 <= i < |users| ==> users[i].id != id
    ensures o == Invalid <==> FindFirst(users, HasUserId(id)).Some? && !Truthy(username) && !Truthy(role) && !Truthy(password)
    ensures o == Ok <==> FindFirst(users, HasUserId(id)).Some? && (Truthy(username) || Truthy(role) || Truthy(password))
  {
    if FindFirst(users, HasUserId(id)).None? then NotFound
    else if !Truthy(username) && !Truthy(role) && !Truthy(password) then Invalid
    else Ok
  }

  /** `UPDATE users SET updates WHERE id = id` */
  function UpdatedUsers(users: seq<User>, id: int, username: Option<string>, role: Option<string>, password: Option<string>): seq<User>
  {
    UpdateWhere(users, HasUserId(id), Patch(username, role, password))
  }

  /**
   * A partial update sets exactly the supplied fields of the user with that
   * id, keeps the others and its id, and touches no other user; the new
   * role is stored whether or not it is a valid role.
   */
  lemma UpdateEffect(users: seq<User>, id: int, username: Option<string>, role: Option<string>, password: Option<string>)
    ensures var r := UpdatedUsers(users, id, username, role, password);
      && |r| == |users|
      && (forall i :: 0 <= i < |users| && users[i].id != id ==> r[i] == users[i])
      && (forall i :: 0 <= i < |users| && users[i].id == id ==>
            && r[i].id == id
            && r[i].username == (if Truthy(username) then username.value else users[i].username)
            && r[i].role == (if Truthy(role) then role.value else users[i].role)
            && r[i].secret == (if Truthy(password) then Hashed(password.value) else users[i].secret))
  {
  }

  /** An update of an existing user that supplies no field, or only empty ones, is rejected. */
  lemma EmptyUpdateRejected(users: seq<User>, id: int)
    requires exists i :: 0 <= i < |users| && users[i].id == id
    ensures UpdateVerdict(users, id, None, None, None) == Invalid
    ensures UpdateVerdict(users, id, Some(""), Some(""), Some("")) == Invalid
  {
  }

  /** DELETE /users/:id: 404 iff no user has that id. */
  function DeleteVerdict(users: seq<User>, id: int): (o: Outcome)
    ensures o == NotFound <==> forall i :: 0 <= i < |users| ==> users[i].id != id
    ensures o == Ok <==> exists i :: 0 <= i < |users| && users[i].id == id
  {
    if FindFirst(users, HasUserId(id)).None? then NotFound else Ok
  }

  /** `DELETE FROM users WHERE id = id`: no user with that id is left, every other user is. */
  function DeletedUsers(users: seq<User>, id: int): (r: seq<User>)
    ensures forall u :: u in r <==> u in users && u.id != id
  {
    DeleteWhere(users, HasUserId(id))
  }
}
