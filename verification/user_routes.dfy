/**
  The server's user endpoints. Users are rows in insertion order; lookups by
  username or id return the first matching row. Passwords are stored as the
  image of a hash function supplied by the caller, and no reply carries them.
 */
module UserRoutes {

  import opened Common
  import opened Entities
  import opened Ordering
  import opened Text

  /** A user as it is sent back: every field except the password. */
  datatype PublicUser = PublicUser(
    id: Id,
    username: string,
    role: Role,
    createdAt: Millis,
    createdBy: Option<string>)

  /** The user as replied: putting the password back gives the stored row. */
  function Sanitize(u: User): (r: PublicUser)
    ensures WithPassword(r, u.password) == u
  {
    PublicUser(u.id, u.username, u.role, u.createdAt, u.createdBy)
  }

  function WithPassword(p: PublicUser, password: string): User
  {
    User(p.id, p.username, password, p.role, p.createdAt, p.createdBy)
  }

  /** The reply carries nothing of the password: users that differ only in it look alike. */
  lemma SanitizeHidesPassword(u: User, password: string)
    ensures Sanitize(u.(password := password)) == Sanitize(u)
    ensures u.password != password ==> u.(password := password) != u
  {
  }

  /** The position of the first row that satisfies f. */
  function FirstIndex(users: seq<User>, f: User -> bool): (r: Option<nat>)
    ensures r.None? <==> forall i :: 0 <= i < |users| ==> !f(users[i])
    ensures r.Some? ==> r.value < |users| && f(users[r.value]) &&
                        forall j :: 0 <= j < r.value ==> !f(users[j])
  {
    if users == [] then None
    else if f(users[0]) then Some(0)
    else
      match FirstIndex(users[1..], f)
      case None => None
      case Some(k) => Some(k + 1)
  }

  /** The first row that satisfies f, as the query builder's `.get()` returns it. */
  function FirstMatch(users: seq<User>, f: User -> bool): (r: Option<User>)
    ensures r.None? <==> forall i :: 0 <= i < |users| ==> !f(users[i])
    ensures r.Some? ==> r.value in users && f(r.value)
    ensures r.Some? ==> r.value == users[FirstIndex(users, f).value]
  {
    match FirstIndex(users, f)
    case None => None
    case Some(i) => Some(users[i])
  }

  function FindByUsername(users: seq<User>, name: string): Option<User>
  {
    FirstMatch(users, (u: User) => u.username == name)
  }

  function FindById(users: seq<User>, id: Id): Option<User>
  {
    FirstMatch(users, (u: User) => u.id == id)
  }

  ghost predicate UniqueUsernames(users: seq<User>)
  {
    forall i, j :: 0 <= i < j < |users| ==> users[i].username != users[j].username
  }

  ghost predicate UniqueIds(users: seq<User>)
  {
    forall i, j :: 0 <= i < j < |users| ==> users[i].id != users[j].id
  }

  /** The user table invariant: the primary key and the unique username hold. */
  ghost predicate UsersWellFormed(users: seq<User>)
  {
    UniqueIds(users) && UniqueUsernames(users)
  }

  /** `role` defaults to standard; any string other than the two role names is invalid. */
  function ParseRole(role: Option<string>): (r: Option<Role>)
    ensures role.None? ==> r == Some(DefaultRole)
    ensures r == Some(Admin) <==> role == Some("admin")
    ensures r.None? <==> role.Some? && role.value != "admin" && role.value != "standard"
  {
    match role
    case None => Some(DefaultRole)
    case Some(s) =>
      if s == "admin" then Some(Admin)
      else if s == "standard" then Some(Standard)
      else None
  }

  datatype UserInput = UserInput(
    username: string,
    password: string,
    role: Option<string>,
    createdBy: Option<string>)

  predicate ValidUserInput(input: UserInput)
  {
    Utf16Length(input.username) >= 1 && Utf16Length(input.password) >= 6 && ParseRole(input.role).Some?
  }

  /**
    POST /: validates the body, refuses a taken username with 409, stores the
    hash of the password and answers with the sanitised user. The reply has
    the creation instant to the millisecond; the row keeps whole seconds.
   */
  function Create(users: seq<User>, input: UserInput, newId: Id, now: Millis,
                  hash: string -> string): (r: Step<seq<User>, PublicUser>)
    ensures !ValidUserInput(input) ==> r == Step(Fail(400), users)
    ensures ValidUserInput(input) && FindByUsername(users, input.username).Some? ==> r == Step(Fail(409), users)
    ensures ValidUserInput(input) && FindByUsername(users, input.username).None? && FindById(users, newId).Some? ==>
      r == Step(Fail(500), users)
    ensures ValidUserInput(input) && FindByUsername(users, input.username).None? && FindById(users, newId).None? ==>
      && r.reply.Ok? && r.reply.status == 201
      && |r.state| == |users| + 1
      && r.state[..|users|] == users
      && var u := r.state[|users|];
      && r.reply.value == Sanitize(u).(createdAt := now)
      && u.id == newId
      && u.username == input.username
      && u.password == hash(input.password)
      && u.createdAt == Stored(now)
      && (input.role.None? ==> u.role == Standard)
      && (u.role == Admin <==> input.role == Some("admin"))
      && (u.createdBy.None? <==> (input.createdBy.None? || input.createdBy == Some("")))
      && (u.createdBy.Some? ==> u.createdBy == input.createdBy)
  {
    if !ValidUserInput(input) then Step(Fail(400), users)
    else if FindByUsername(users, input.username).Some? then Step(Fail(409), users)
    else if FindById(users, newId).Some? then Step(Fail(500), users)
    else
      var createdBy := if input.createdBy == Some("") then None else input.createdBy;
      var u := User(newId, input.username, hash(input.password), ParseRole(input.role).value, Stored(now), createdBy);
      Step(Ok(201, Sanitize(u).(createdAt := now)), users + [u])
  }

  /**
    The password length is counted in UTF-16 code units: three characters
    outside the Basic Multilingual Plane make a valid six-unit password.
   */
  lemma SupplementaryPasswordAccepted()
    ensures ValidUserInput(UserInput("a", "\U{1F600}\U{1F600}\U{1F600}", None, None))
  {
    var p := "\U{1F600}\U{1F600}\U{1F600}";
    assert p[..2][..1] == p[..1];
    assert Utf16Length(p[..1]) == 2;
    assert Utf16Length(p[..2]) == 4;
  }

  /** POST /login: succeeds with the sanitised user when the password's hash matches. */
  function Login(users: seq<User>, username: string, password: string, hash: string -> string): (r: Reply<PublicUser>)
    ensures |username| == 0 || |password| == 0 ==> r == Fail(400)
    ensures |username| > 0 && |password| > 0 ==>
      (r.Ok? <==> exists u :: u in users && u.username == username && u.password == hash(password) &&
                              FindByUsername(users, username) == Some(u))
    ensures r.Ok? ==>
      r.status == 200 && FindByUsername(users, username).Some? && r.value == Sanitize(FindByUsername(users, username).value)
    ensures r.Fail? && |username| > 0 && |password| > 0 ==> r.status == 401
  {
    if |username| == 0 || |password| == 0 then Fail(400)
    else
      match FindByUsername(users, username)
      case None => Fail(401)
      case Some(u) => if u.password != hash(password) then Fail(401) else Ok(200, Sanitize(u))
  }

  /** With unique usernames, login succeeds exactly for the owner's password (up to the hash). */
  lemma LoginMatchesStoredHash(users: seq<User>, username: string, password: string, hash: string -> string)
    requires UniqueUsernames(users)
    requires |username| > 0 && |password| > 0
    ensures Login(users, username, password, hash).Ok? <==>
      exists i :: 0 <= i < |users| && users[i].username == username && users[i].password == hash(password)
  {
    var f := (u: User) => u.username == username;
    if exists i :: 0 <= i < |users| && users[i].username == username && users[i].password == hash(password) {
      var i :| 0 <= i < |users| && users[i].username == username && users[i].password == hash(password);
      assert !(forall k :: 0 <= k < |users| ==> !f(users[k]));
      var k := FirstIndex(users, f).value;
      assert k == i;
    }
  }

  /** A user just created can log in with the same password. */
  lemma CreateThenLogin(users: seq<User>, input: UserInput, newId: Id, now: Millis, hash: string -> string)
    requires UniqueUsernames(users)
    requires Create(users, input, newId, now, hash).reply.Ok?
    ensures UniqueUsernames(Create(users, input, newId, now, hash).state)
    ensures Login(Create(users, input, newId, now, hash).state, input.username, input.password, hash).Ok?
  {
    var s := Create(users, input, newId, now, hash).state;
    CreatePreservesWellFormedParts(users, input, newId, now, hash);
    LoginMatchesStoredHash(s, input.username, input.password, hash);
    assert s[|users|].username == input.username;
  }

  lemma CreatePreservesWellFormedParts(users: seq<User>, input: UserInput, newId: Id, now: Millis, hash: string -> string)
    ensures UniqueUsernames(users) ==> UniqueUsernames(Create(users, input, newId, now, hash).state)
    ensures UniqueIds(users) ==> UniqueIds(Create(users, input, newId, now, hash).state)
  {
    var r := Create(users, input, newId, now, hash);
    if r.reply.Ok? {
      var byName := (u: User) => u.username == input.username;
      var byId := (u: User) => u.id == newId;
      assert forall i :: 0 <= i < |users| ==> !byName(users[i]);
      assert forall i :: 0 <= i < |users| ==> !byId(users[i]);
      assert r.state == users + [r.state[|users|]];
    }
  }

  /** The roles of the rows, in order. */
  function Roles(users: seq<User>): (r: seq<Role>)
    ensures |r| == |users|
    ensures forall i :: 0 <= i < |users| ==> r[i] == users[i].role
  {
    seq(|users|, i requires 0 <= i < |users| => users[i].role)
  }

  function AdminCount(users: seq<User>): (n: nat)
    ensures n <= |users|
    ensures n == 0 <==> forall i :: 0 <= i < |users| ==> users[i].role != Admin
  {
    if users == [] then 0
    else (if users[0].role == Admin then 1 else 0) + AdminCount(users[1..])
  }

  /** The admin count is exactly the number of rows whose role is admin. */
  lemma {:induction false} AdminCountIsMultiplicity(users: seq<User>)
    ensures AdminCount(users) == multiset(Roles(users))[Admin]
  {
    if users != [] {
      assert Roles(users) == [users[0].role] + Roles(users[1..]);
      AdminCountIsMultiplicity(users[1..]);
    }
  }

  function WithoutId(users: seq<User>, id: Id): (r: seq<User>)
    ensures forall u :: u in r <==> u in users && u.id != id
  {
    if users == [] then []
    else if users[0].id == id then WithoutId(users[1..], id)
    else [users[0]] + WithoutId(users[1..], id)
  }

  /**
    DELETE /:id: 404 for an unknown id; the last admin cannot be deleted (400);
    otherwise the row is removed.
   */
  function Delete(users: seq<User>, id: Id): (r: Step<seq<User>, ()>)
    ensures FindById(users, id).None? ==> r == Step(Fail(404), users)
    ensures FindById(users, id).Some? && FindById(users, id).value.role == Admin && AdminCount(users) <= 1 ==>
      r == Step(Fail(400), users)
    ensures FindById(users, id).Some? && !(FindById(users, id).value.role == Admin && AdminCount(users) <= 1) ==>
      r == Step(Ok(204, ()), WithoutId(users, id))
    ensures r.reply.Ok? ==> r.reply.status == 204 && forall u :: u in r.state <==> u in users && u.id != id
  {
    match FindById(users, id)
    case None => Step(Fail(404), users)
    case Some(u) =>
      if u.role == Admin && AdminCount(users) <= 1 then Step(Fail(400), users)
      else Step(Ok(204, ()), WithoutId(users, id))
  }

  /** Removing a row that is not an admin, or one of several admins, keeps an admin. */
  lemma {:induction false} WithoutIdKeepsAdmin(users: seq<User>, id: Id)
    requires UniqueIds(users)
    requires AdminCount(users) >= 1
    requires forall i :: 0 <= i < |users| && users[i].id == id ==> users[i].role != Admin || AdminCount(users) >= 2
    ensures AdminCount(WithoutId(users, id)) >= 1
  {
    if users[0].id == id {
      assert users == [users[0]] + users[1..];
      var rest := users[1..];
      assert forall i :: 0 <= i < |rest| ==> rest[i].id != id;
      WithoutIdUnchanged(rest, id);
    } else if users[0].role == Admin {
      assert users[0] in WithoutId(users, id);
      var k :| 0 <= k < |WithoutId(users, id)| && WithoutId(users, id)[k] == users[0];
    } else {
      var rest := users[1..];
      assert AdminCount(rest) == AdminCount(users);
      WithoutIdKeepsAdmin(rest, id);
    }
  }

  lemma {:induction false} WithoutIdUnchanged(users: seq<User>, id: Id)
    requires forall i :: 0 <= i < |users| ==> users[i].id != id
    ensures WithoutId(users, id) == users
  {
    if users != [] {
      WithoutIdUnchanged(users[1..], id);
    }
  }

  /** Deleting a user never leaves the system without an admin when it had one. */
  lemma DeleteKeepsAnAdmin(users: seq<User>, id: Id)
    requires UniqueIds(users)
    requires AdminCount(users) >= 1
    ensures AdminCount(Delete(users, id).state) >= 1
  {
    var r := Delete(users, id);
    if r.reply.Ok? {
      forall i | 0 <= i < |users| && users[i].id == id
        ensures users[i].role != Admin || AdminCount(users) >= 2
      {
        var k := FirstIndex(users, (u: User) => u.id == id).value;
        assert k == i;
      }
      WithoutIdKeepsAdmin(users, id);
    }
  }

  function CreatedAtOf(u: PublicUser): int
  {
    u.createdAt
  }

  function SanitizeAll(users: seq<User>): (r: seq<PublicUser>)
    ensures |r| == |users|
    ensures forall i :: 0 <= i < |r| ==> r[i] == Sanitize(users[i])
  {
    seq(|users|, i requires 0 <= i < |users| => Sanitize(users[i]))
  }

  /** GET /: every user without the password, newest first. */
  function List(users: seq<User>): (r: seq<PublicUser>)
    ensures SortedDesc(r, CreatedAtOf)
    ensures multiset(r) == multiset(SanitizeAll(users))
  {
    SortDesc(SanitizeAll(users), CreatedAtOf)
  }

  /** GET /:id: the sanitised user, or 404. */
  function Get(users: seq<User>, id: Id): (r: Reply<PublicUser>)
    ensures r.Fail? <==> forall i :: 0 <= i < |users| ==> users[i].id != id
    ensures r.Fail? ==> r.status == 404
    ensures r.Ok? ==> r.status == 200 && exists u :: u in users && u.id == id && r.value == Sanitize(u)
  {
    match FindById(users, id)
    case None => Fail(404)
    case Some(u) => Ok(200, Sanitize(u))
  }
}
