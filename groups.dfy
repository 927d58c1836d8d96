/** groups.ts: creating groups and the membership ledger (add if absent,
    remove, set the admin flag), with the group and member queries. */
module GroupHandlers {
  import opened Types
  import opened Tables
  import opened Store
  import AttendanceHandlers

  /** The membership row is for this (group, user) pair. */
  predicate SamePair(m: Membership, groupId: Id, userId: Id) {
    m.groupId == groupId && m.userId == userId
  }

  /** The membership row is for some other pair. */
  predicate OtherPair(m: Membership, groupId: Id, userId: Id) {
    !SamePair(m, groupId, userId)
  }

  predicate HasMembership(rows: seq<Membership>, groupId: Id, userId: Id) {
    exists i :: 0 <= i < |rows| && SamePair(rows[i], groupId, userId)
  }

  ghost predicate ExactlyOneMembership(rows: seq<Membership>, groupId: Id, userId: Id) {
    exists i :: 0 <= i < |rows| && SamePair(rows[i], groupId, userId) &&
      forall j :: 0 <= j < |rows| && SamePair(rows[j], groupId, userId) ==> j == i
  }

  lemma UniqueHasOne(rows: seq<Membership>, groupId: Id, userId: Id)
    requires UniqueMemberships(rows) && HasMembership(rows, groupId, userId)
    ensures ExactlyOneMembership(rows, groupId, userId)
  {
    var i :| 0 <= i < |rows| && SamePair(rows[i], groupId, userId);
    forall j | 0 <= j < |rows| && SamePair(rows[j], groupId, userId) ensures j == i {
      assert j < i ==> DistinctMemberships(rows[j], rows[i]);
      assert i < j ==> DistinctMemberships(rows[i], rows[j]);
    }
  }

  /** The row createGroup inserts: the input's columns, `is_active` defaulted
      to true and `created_at` to `now`. */
  function NewGroup(t: Table<Group>, input: GroupInput, now: Timestamp): (r: Group)
    ensures r.id == t.nextId && r.isActive && r.createdAt == now
    ensures r.name == input.name && r.groupType == input.groupType && r.level == input.level
    ensures r.regionId == input.regionId && r.subjectId == input.subjectId && r.description == input.description
  {
    Group(t.nextId, input.name, input.groupType, input.level, input.regionId,
          input.subjectId, input.description, true, now)
  }

  /** The row addGroupMember inserts, `joined_at` defaulted to `now`. */
  function NewMembership(t: Table<Membership>, groupId: Id, userId: Id, isAdmin: bool, now: Timestamp): Membership {
    Membership(t.nextId, groupId, userId, isAdmin, now)
  }

  /** addGroupMember as a function of the membership table: false and no
      write when the pair is already there, otherwise one insert and true. */
  function AddMember(t: Table<Membership>, groupId: Id, userId: Id, isAdmin: bool, now: Timestamp): (r: Outcome<bool, Membership>)
    ensures r.result <==> !HasMembership(t.rows, groupId, userId)
    ensures !r.result ==> r.table == t
    ensures r.result ==> r.table == Insert(t, Membership(t.nextId, groupId, userId, isAdmin, now))
    ensures HasMembership(r.table.rows, groupId, userId)
    ensures UniqueMemberships(t.rows) ==>
      UniqueMemberships(r.table.rows) && ExactlyOneMembership(r.table.rows, groupId, userId)
    ensures IdsValid(t, MembershipKey) ==> IdsValid(r.table, MembershipKey)
  {
    if HasMembership(t.rows, groupId, userId) then
      assert UniqueMemberships(t.rows) ==> ExactlyOneMembership(t.rows, groupId, userId) by {
        if UniqueMemberships(t.rows) { UniqueHasOne(t.rows, groupId, userId); }
      }
      Outcome(false, t)
    else
      var written := Insert(t, NewMembership(t, groupId, userId, isAdmin, now));
      var rows := written.rows;
      assert SamePair(rows[|t.rows|], groupId, userId);
      assert UniqueMemberships(t.rows) ==> UniqueMemberships(rows) && ExactlyOneMembership(rows, groupId, userId) by {
        if UniqueMemberships(t.rows) {
          forall i, j | 0 <= i < j < |rows| ensures DistinctMemberships(rows[i], rows[j]) {
            if j < |t.rows| {
              assert DistinctMemberships(t.rows[i], t.rows[j]);
            } else {
              assert !SamePair(t.rows[i], groupId, userId);
            }
          }
          UniqueHasOne(rows, groupId, userId);
        }
      }
      Outcome(true, written)
  }

  /** Adding the same pair again reports false and leaves the table as the first call left it. */
  lemma AddMemberTwice(t: Table<Membership>, groupId: Id, userId: Id, admin1: bool, admin2: bool,
                       now1: Timestamp, now2: Timestamp)
    ensures var once := AddMember(t, groupId, userId, admin1, now1);
      AddMember(once.table, groupId, userId, admin2, now2) == Outcome(false, once.table)
  {
  }

  /** removeGroupMember's delete: every row of the pair goes, the others stay in order. */
  function RemoveMember(t: Table<Membership>, groupId: Id, userId: Id): (r: Table<Membership>)
    ensures !HasMembership(r.rows, groupId, userId)
    ensures forall m :: m in r.rows <==> m in t.rows && OtherPair(m, groupId, userId)
    ensures forall m :: OtherPair(m, groupId, userId) ==> multiset(r.rows)[m] == multiset(t.rows)[m]
    ensures r.nextId == t.nextId
    ensures UniqueMemberships(t.rows) ==> UniqueMemberships(r.rows)
    ensures IdsValid(t, MembershipKey) ==> IdsValid(r, MembershipKey)
  {
    var p := (m: Membership) => OtherPair(m, groupId, userId);
    var rows := Filter(t.rows, p);
    FilterCounts(t.rows, p);
    assert !HasMembership(rows, groupId, userId) by {
      forall i | 0 <= i < |rows| ensures !SamePair(rows[i], groupId, userId) {
        assert rows[i] in rows;
      }
    }
    assert UniqueMemberships(t.rows) ==> UniqueMemberships(rows) by {
      if UniqueMemberships(t.rows) { FilterKeepsPairwise(t.rows, p, DistinctMemberships); }
    }
    assert IdsValid(t, MembershipKey) ==> IdsValid(Table(rows, t.nextId), MembershipKey) by {
      if IdsValid(t, MembershipKey) { FilterKeepsIds(t, p, MembershipKey); }
    }
    Table(rows, t.nextId)
  }

  /** Removing a member who was just added gives back the rows as they were. */
  lemma AddThenRemove(t: Table<Membership>, groupId: Id, userId: Id, isAdmin: bool, now: Timestamp)
    requires !HasMembership(t.rows, groupId, userId)
    ensures RemoveMember(AddMember(t, groupId, userId, isAdmin, now).table, groupId, userId).rows == t.rows
  {
    var p := (m: Membership) => OtherPair(m, groupId, userId);
    FilterAll(t.rows, p);
    FilterAppend(t.rows, NewMembership(t, groupId, userId, isAdmin, now), p);
  }

  /** setGroupAdmin's update: the rows of the pair get the flag, nothing else
      changes, and without such a row the table is untouched. */
  function SetAdmin(t: Table<Membership>, groupId: Id, userId: Id, isAdmin: bool): (r: Table<Membership>)
    ensures r.nextId == t.nextId && |r.rows| == |t.rows|
    ensures forall i :: 0 <= i < |t.rows| && SamePair(t.rows[i], groupId, userId) ==> r.rows[i] == t.rows[i].(isAdmin := isAdmin)
    ensures forall i :: 0 <= i < |t.rows| && OtherPair(t.rows[i], groupId, userId) ==> r.rows[i] == t.rows[i]
    ensures !HasMembership(t.rows, groupId, userId) ==> r == t
    ensures UniqueMemberships(t.rows) ==> UniqueMemberships(r.rows)
    ensures IdsValid(t, MembershipKey) ==> IdsValid(r, MembershipKey)
  {
    var rows := UpdateWhere(t.rows, (m: Membership) => SamePair(m, groupId, userId), (m: Membership) => m.(isAdmin := isAdmin));
    assert !HasMembership(t.rows, groupId, userId) ==> rows == t.rows;
    assert UniqueMemberships(t.rows) ==> UniqueMemberships(rows) by {
      if UniqueMemberships(t.rows) {
        forall i, j | 0 <= i < j < |rows| ensures DistinctMemberships(rows[i], rows[j]) {
          assert DistinctMemberships(t.rows[i], t.rows[j]);
        }
      }
    }
    Table(rows, t.nextId)
  }

  /** Setting the flag on an existing member makes them an admin of the group,
      which is what recording attendance for the group's activities asks of
      the recorder; clearing it on a unique membership takes that away. */
  lemma SetAdminDecidesRecorder(t: Table<Membership>, groupId: Id, userId: Id)
    requires HasMembership(t.rows, groupId, userId)
    ensures AttendanceHandlers.IsGroupAdmin(SetAdmin(t, groupId, userId, true).rows, groupId, userId)
    ensures UniqueMemberships(t.rows) ==>
      !AttendanceHandlers.IsGroupAdmin(SetAdmin(t, groupId, userId, false).rows, groupId, userId)
  {
  }

  method CreateGroup(db: Db, input: GroupInput, now: Timestamp) returns (r: Group)
    modifies db`groups
    ensures r == NewGroup(old(db.groups), input, now)
    ensures db.groups == Insert(old(db.groups), r)
  {
    r := NewGroup(db.groups, input, now);
    InsertKeepsIds(db.groups, r, GroupKey);
    db.groups := Insert(db.groups, r);
  }

  method AddGroupMember(db: Db, groupId: Id, userId: Id, isAdmin: bool, now: Timestamp) returns (r: bool)
    modifies db`members
    ensures Outcome(r, db.members) == AddMember(old(db.members), groupId, userId, isAdmin, now)
  {
    if HasMembership(db.members.rows, groupId, userId) {
      return false;
    }
    var row := NewMembership(db.members, groupId, userId, isAdmin, now);
    assert Insert(db.members, row) == AddMember(db.members, groupId, userId, isAdmin, now).table;
    db.members := Insert(db.members, row);
    r := true;
  }

  method RemoveGroupMember(db: Db, groupId: Id, userId: Id) returns (r: bool)
    modifies db`members
    ensures r && db.members == RemoveMember(old(db.members), groupId, userId)
  {
    db.members := RemoveMember(db.members, groupId, userId);
    r := true;
  }

  method SetGroupAdmin(db: Db, groupId: Id, userId: Id, isAdmin: bool) returns (r: bool)
    modifies db`members
    ensures r && db.members == SetAdmin(old(db.members), groupId, userId, isAdmin)
  {
    db.members := SetAdmin(db.members, groupId, userId, isAdmin);
    r := true;
  }

  /** getGroups: all and only the active groups. */
  function GetGroups(db: Db): (r: seq<Group>)
    reads db
    ensures forall g :: g in r <==> g in db.groups.rows && g.isActive
    ensures forall g :: multiset(r)[g] == if g.isActive then multiset(db.groups.rows)[g] else 0
  {
    var p := (g: Group) => g.isActive;
    FilterCounts(db.groups.rows, p);
    Filter(db.groups.rows, p)
  }

  /** getGroupById: the group with the id, or null when there is none. */
  function GetGroupById(db: Db, id: Id): (r: Option<Group>)
    reads db
    ensures r.None? <==> forall g :: g in db.groups.rows ==> g.id != id
    ensures r.Some? ==> r.value in db.groups.rows && r.value.id == id
  {
    FindGroup(db.groups.rows, id)
  }

  /** A row of getGroupMembers: the membership's columns and the user's name, email and role. */
  datatype MemberEntry = MemberEntry(
    id: Id, groupId: Id, userId: Id, isAdmin: bool, joinedAt: Timestamp,
    userFullName: string, userEmail: string, userRole: Role)

  /** The inner join of one membership with its user. */
  function MemberEntryOf(users: seq<User>, m: Membership): Option<MemberEntry> {
    match FindUser(users, m.userId)
    case None => None
    case Some(user) => Some(MemberEntry(m.id, m.groupId, m.userId, m.isAdmin, m.joinedAt, user.fullName, user.email, user.role))
  }

  /** getGroupMembers: one entry per membership of the group whose user
      exists, carrying that user's name, email and role. */
  function GetGroupMembers(db: Db, groupId: Id): (r: seq<MemberEntry>)
    reads db
    ensures forall e :: e in r ==>
      (exists m :: m in db.members.rows && m.id == e.id && e.groupId == groupId && m.userId == e.userId &&
         MemberEntryOf(db.users.rows, m) == Some(e))
    ensures forall m :: (m in db.members.rows && m.groupId == groupId && FindUser(db.users.rows, m.userId).Some?) ==>
      MemberEntryOf(db.users.rows, m).Some? && MemberEntryOf(db.users.rows, m).value in r
    ensures var users := db.users.rows;
      var kept := Filter(db.members.rows, (m: Membership) => m.groupId == groupId && MemberEntryOf(users, m).Some?);
      |r| == |kept| && forall i :: 0 <= i < |r| ==> MemberEntryOf(users, kept[i]) == Some(r[i])
  {
    var users := db.users.rows;
    var f := (m: Membership) => if m.groupId == groupId then MemberEntryOf(users, m) else None;
    FilterMapByRows(db.members.rows, f,
      (m: Membership) => m.groupId == groupId && MemberEntryOf(users, m).Some?,
      (x: Membership) => MemberEntryOf(users, x));
    FilterMapMembers(db.members.rows, f);
    FilterMap(db.members.rows, f)
  }
}
