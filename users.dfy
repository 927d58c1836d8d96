/** users.ts: creating users behind an opaque password hash, the filtered
    listing, lookups, and the active flag. */
module UserHandlers {
  import opened Types
  import opened Tables
  import opened Store

  /** The row createUser inserts: the input's columns with the password
      replaced by its hash, `is_active` defaulted to true, no last login. */
  function NewUser(t: Table<User>, input: UserInput, passwordHash: string, now: Timestamp): (r: User)
    ensures r.id == t.nextId && r.isActive && r.lastLogin.None? && r.createdAt == now
    ensures r.passwordHash == passwordHash
    ensures r.username == input.username && r.email == input.email && r.fullName == input.fullName
    ensures r.nip == input.nip && r.role == input.role && r.schoolId == input.schoolId
    ensures r.regionId == input.regionId && r.level == input.level
  {
    User(t.nextId, input.username, input.email, passwordHash, input.fullName, input.nip, input.role,
         input.schoolId, input.regionId, input.level, true, None, now)
  }

  /** createUser, with the password hash a function supplied by the caller;
      the only thing assumed of it is that it does not return the password,
      so that the stored hash is not the plaintext follows from that
      assumption rather than from anything the handler does. */
  method CreateUser(db: Db, input: UserInput, hash: string -> string, now: Timestamp) returns (r: User)
    requires hash(input.password) != input.password
    modifies db`users
    ensures r == NewUser(old(db.users), input, hash(input.password), now)
    ensures r.passwordHash != input.password
    ensures db.users == Insert(old(db.users), r)
  {
    var passwordHash := hash(input.password);
    r := NewUser(db.users, input, passwordHash, now);
    InsertKeepsIds(db.users, r, UserKey);
    db.users := Insert(db.users, r);
  }

  /** One entry of getUsers' condition list. */
  datatype UserCondition =
    | RoleIs(role: Role)
    | RegionIs(regionId: Id)
    | SchoolIs(schoolId: Id)
    | ActiveIs(isActive: bool)

  predicate Holds(c: UserCondition, u: User) {
    match c
    case RoleIs(role) => u.role == role
    case RegionIs(regionId) => u.regionId == Some(regionId)
    case SchoolIs(schoolId) => u.schoolId == Some(schoolId)
    case ActiveIs(isActive) => u.isActive == isActive
  }

  /** The condition list in the source's order. Every role is a non-empty
      string and so truthy; the two ids count only when truthy (null and 0
      are not); the active flag counts whenever it is given. */
  function Conditions(q: UsersQuery): seq<UserCondition> {
    (if q.role.Some? then [RoleIs(q.role.value)] else [])
    + (if Truthy(q.regionId) then [RegionIs(q.regionId.value)] else [])
    + (if Truthy(q.schoolId) then [SchoolIs(q.schoolId.value)] else [])
    + (if q.isActive.Some? then [ActiveIs(q.isActive.value)] else [])
  }

  /** What the query asks for, filter by filter. */
  predicate Matches(q: UsersQuery, u: User) {
    && (q.role.Some? ==> u.role == q.role.value)
    && (Truthy(q.regionId) ==> u.regionId == q.regionId)
    && (Truthy(q.schoolId) ==> u.schoolId == q.schoolId)
    && (q.isActive.Some? ==> u.isActive == q.isActive.value)
  }

  /** The conjunction of the condition list is the query's meaning. */
  lemma ConditionsMeanMatches(q: UsersQuery, u: User)
    ensures AllOf(Conditions(q), Holds, u) <==> Matches(q, u)
  {
    var ro := if q.role.Some? then [RoleIs(q.role.value)] else [];
    var re := if Truthy(q.regionId) then [RegionIs(q.regionId.value)] else [];
    var sc := if Truthy(q.schoolId) then [SchoolIs(q.schoolId.value)] else [];
    var ac := if q.isActive.Some? then [ActiveIs(q.isActive.value)] else [];
    assert Conditions(q) == ro + re + sc + ac;
    assert AllOf(ro, Holds, u) <==> (q.role.Some? ==> u.role == q.role.value) by {
      if q.role.Some? { assert ro[0] == RoleIs(q.role.value); }
    }
    assert AllOf(re, Holds, u) <==> (Truthy(q.regionId) ==> u.regionId == q.regionId) by {
      if Truthy(q.regionId) { assert re[0] == RegionIs(q.regionId.value); }
    }
    assert AllOf(sc, Holds, u) <==> (Truthy(q.schoolId) ==> u.schoolId == q.schoolId) by {
      if Truthy(q.schoolId) { assert sc[0] == SchoolIs(q.schoolId.value); }
    }
    assert AllOf(ac, Holds, u) <==> (q.isActive.Some? ==> u.isActive == q.isActive.value) by {
      if q.isActive.Some? { assert ac[0] == ActiveIs(q.isActive.value); }
    }
    AllOfConcat(ro + re + sc, ac, Holds, u);
    AllOfConcat(ro + re, sc, Holds, u);
    AllOfConcat(ro, re, Holds, u);
  }

  /** getUsers: with no condition every user, otherwise those meeting every
      condition; in both cases exactly the matching ones. */
  function GetUsers(db: Db, q: UsersQuery): (r: seq<User>)
    reads db
    ensures forall u :: u in r <==> u in db.users.rows && Matches(q, u)
    ensures forall u :: multiset(r)[u] == if Matches(q, u) then multiset(db.users.rows)[u] else 0
  {
    var cs := Conditions(q);
    assert forall u :: AllOf(cs, Holds, u) <==> Matches(q, u) by {
      forall u ensures AllOf(cs, Holds, u) <==> Matches(q, u) { ConditionsMeanMatches(q, u); }
    }
    var p := (u: User) => AllOf(cs, Holds, u);
    FilterCounts(db.users.rows, p);
    if |cs| > 0 then Filter(db.users.rows, p)
    else db.users.rows
  }

  /** Without filters the listing is the whole table, in table order. */
  lemma NoQueryListsAll(db: Db)
    ensures GetUsers(db, UsersQuery(None, None, None, None)) == db.users.rows
  {
  }

  /** A region or school id of 0 filters nothing, while `is_active = false` does filter. */
  lemma ZeroIdsIgnored(db: Db, q: UsersQuery)
    ensures GetUsers(db, q.(regionId := Some(0))) == GetUsers(db, q.(regionId := None))
    ensures GetUsers(db, q.(schoolId := Some(0))) == GetUsers(db, q.(schoolId := None))
    ensures forall u :: u in GetUsers(db, q.(isActive := Some(false))) ==> !u.isActive
  {
  }

  /** getUserById: the user with the id, or null. */
  function GetUserById(db: Db, id: Id): (r: Option<User>)
    reads db
    ensures r.None? <==> forall u :: u in db.users.rows ==> u.id != id
    ensures r.Some? ==> r.value in db.users.rows && r.value.id == id
  {
    FindUser(db.users.rows, id)
  }

  /** getUsersByRole: all and only the users holding the role. */
  function GetUsersByRole(db: Db, role: Role): (r: seq<User>)
    reads db
    ensures forall u :: u in r <==> u in db.users.rows && u.role == role
    ensures forall u :: multiset(r)[u] == if u.role == role then multiset(db.users.rows)[u] else 0
  {
    var p := (u: User) => u.role == role;
    FilterCounts(db.users.rows, p);
    Filter(db.users.rows, p)
  }

  /** After the update, the lookup by id finds a row with the new flag. */
  lemma UpdatedUserFound(before: seq<User>, after: seq<User>, id: Id, isActive: bool)
    requires |after| == |before|
    requires forall i :: 0 <= i < |before| ==>
      after[i] == if before[i].id == id then before[i].(isActive := isActive) else before[i]
    requires exists i :: 0 <= i < |before| && before[i].id == id
    ensures FindUser(after, id).Some? && FindUser(after, id).value.isActive == isActive
  {
  }

  /** updateUserStatus's update: every row with the id takes the flag; the
      result says whether any row did. */
  function SetActive(t: Table<User>, id: Id, isActive: bool): (r: Outcome<bool, User>)
    ensures r.result <==> exists i :: 0 <= i < |t.rows| && t.rows[i].id == id
    ensures r.table.nextId == t.nextId && |r.table.rows| == |t.rows|
    ensures forall i :: 0 <= i < |t.rows| ==>
      r.table.rows[i] == if t.rows[i].id == id then t.rows[i].(isActive := isActive) else t.rows[i]
    ensures r.result ==> FindUser(r.table.rows, id).Some? && FindUser(r.table.rows, id).value.isActive == isActive
    ensures !r.result ==> r.table == t
    ensures IdsValid(t, UserKey) ==> IdsValid(r.table, UserKey)
  {
    var found := exists i :: 0 <= i < |t.rows| && t.rows[i].id == id;
    var rows := UpdateWhere(t.rows, (u: User) => u.id == id, (u: User) => u.(isActive := isActive));
    assert forall i :: 0 <= i < |rows| ==> UserKey(rows[i]) == UserKey(t.rows[i]);
    assert found ==> FindUser(rows, id).Some? && FindUser(rows, id).value.isActive == isActive by {
      if found { UpdatedUserFound(t.rows, rows, id, isActive); }
    }
    assert !found ==> rows == t.rows;
    assert IdsValid(t, UserKey) ==> IdsValid(Table(rows, t.nextId), UserKey) by {
      if IdsValid(t, UserKey) { SameKeysKeepIds(t, rows, UserKey); }
    }
    Outcome(found, Table(rows, t.nextId))
  }

  method UpdateUserStatus(db: Db, id: Id, isActive: bool) returns (r: bool)
    modifies db`users
    ensures Outcome(r, db.users) == SetActive(old(db.users), id, isActive)
  {
    var updated := SetActive(db.users, id, isActive);
    db.users := updated.table;
    r := updated.result;
  }
}
