/** activities.ts: creating activities, the filtered listing, status
    updates, and the upcoming activities of a member's groups. */
module ActivityHandlers {
  import opened Types
  import opened Tables
  import opened Store
  import GroupHandlers

  /** The row createActivity inserts: the input's columns, `status` defaulted
      to draft (the input has no status), `created_at` to `now`. */
  function NewActivity(t: Table<Activity>, input: ActivityInput, now: Timestamp): (r: Activity)
    ensures r.id == t.nextId && r.status == Draft && r.createdAt == now
    ensures r.groupId == input.groupId && r.title == input.title && r.description == input.description
    ensures r.activityDate == input.activityDate && r.startTime == input.startTime && r.endTime == input.endTime
    ensures r.location == input.location && r.speaker == input.speaker
    ensures r.fundingSource == input.fundingSource && r.createdBy == input.createdBy
  {
    Activity(t.nextId, input.groupId, input.title, input.description, input.activityDate,
             input.startTime, input.endTime, input.location, input.speaker, input.fundingSource,
             Draft, input.createdBy, now)
  }

  method CreateActivity(db: Db, input: ActivityInput, now: Timestamp) returns (r: Activity)
    modifies db`activities
    ensures r == NewActivity(old(db.activities), input, now)
    ensures db.activities == Insert(old(db.activities), r)
  {
    r := NewActivity(db.activities, input, now);
    InsertKeepsIds(db.activities, r, ActivityKey);
    db.activities := Insert(db.activities, r);
  }

  /** One entry of getActivities' condition list. */
  datatype Condition =
    | GroupIs(groupId: Id)
    | StatusIs(status: ActivityStatus)
    | OnOrAfter(from: Timestamp)
    | OnOrBefore(to: Timestamp)

  predicate Holds(c: Condition, a: Activity) {
    match c
    case GroupIs(g) => a.groupId == g
    case StatusIs(s) => a.status == s
    case OnOrAfter(from) => a.activityDate >= from
    case OnOrBefore(to) => a.activityDate <= to
  }

  /** The condition list, pushed in the source's order, one entry per supplied filter. */
  function Conditions(q: ActivitiesQuery): seq<Condition> {
    (if q.groupId.Some? then [GroupIs(q.groupId.value)] else [])
    + (if q.status.Some? then [StatusIs(q.status.value)] else [])
    + (if q.dateFrom.Some? then [OnOrAfter(q.dateFrom.value)] else [])
    + (if q.dateTo.Some? then [OnOrBefore(q.dateTo.value)] else [])
  }

  /** What the query asks for, filter by filter: every supplied filter holds,
      and the date bounds are inclusive. */
  predicate Matches(q: ActivitiesQuery, a: Activity) {
    && (q.groupId.Some? ==> a.groupId == q.groupId.value)
    && (q.status.Some? ==> a.status == q.status.value)
    && (q.dateFrom.Some? ==> q.dateFrom.value <= a.activityDate)
    && (q.dateTo.Some? ==> a.activityDate <= q.dateTo.value)
  }

  /** The conjunction of the condition list is the query's meaning. */
  lemma ConditionsMeanMatches(q: ActivitiesQuery, a: Activity)
    ensures AllOf(Conditions(q), Holds, a) <==> Matches(q, a)
  {
    var g := if q.groupId.Some? then [GroupIs(q.groupId.value)] else [];
    var s := if q.status.Some? then [StatusIs(q.status.value)] else [];
    var f := if q.dateFrom.Some? then [OnOrAfter(q.dateFrom.value)] else [];
    var t := if q.dateTo.Some? then [OnOrBefore(q.dateTo.value)] else [];
    assert Conditions(q) == g + s + f + t;
    assert AllOf(g, Holds, a) <==> (q.groupId.Some? ==> a.groupId == q.groupId.value) by {
      if q.groupId.Some? { assert g[0] == GroupIs(q.groupId.value); }
    }
    assert AllOf(s, Holds, a) <==> (q.status.Some? ==> a.status == q.status.value) by {
      if q.status.Some? { assert s[0] == StatusIs(q.status.value); }
    }
    assert AllOf(f, Holds, a) <==> (q.dateFrom.Some? ==> q.dateFrom.value <= a.activityDate) by {
      if q.dateFrom.Some? { assert f[0] == OnOrAfter(q.dateFrom.value); }
    }
    assert AllOf(t, Holds, a) <==> (q.dateTo.Some? ==> a.activityDate <= q.dateTo.value) by {
      if q.dateTo.Some? { assert t[0] == OnOrBefore(q.dateTo.value); }
    }
    AllOfConcat(g + s + f, t, Holds, a);
    AllOfConcat(g + s, f, Holds, a);
    AllOfConcat(g, s, Holds, a);
  }

  /** getActivities: with no condition every activity, otherwise those
      meeting every condition; in both cases exactly the matching ones. */
  function GetActivities(db: Db, q: ActivitiesQuery): (r: seq<Activity>)
    reads db
    ensures forall a :: a in r <==> a in db.activities.rows && Matches(q, a)
    ensures forall a :: multiset(r)[a] == if Matches(q, a) then multiset(db.activities.rows)[a] else 0
  {
    var cs := Conditions(q);
    assert forall a :: AllOf(cs, Holds, a) <==> Matches(q, a) by {
      forall a ensures AllOf(cs, Holds, a) <==> Matches(q, a) { ConditionsMeanMatches(q, a); }
    }
    var p := (a: Activity) => AllOf(cs, Holds, a);
    FilterCounts(db.activities.rows, p);
    if |cs| > 0 then Filter(db.activities.rows, p)
    else db.activities.rows
  }

  /** Without filters the listing is the whole table, in table order. */
  lemma NoQueryListsAll(db: Db)
    ensures GetActivities(db, ActivitiesQuery(None, None, None, None)) == db.activities.rows
  {
  }

  /** getActivityById: the activity with the id, or null. */
  function GetActivityById(db: Db, id: Id): (r: Option<Activity>)
    reads db
    ensures r.None? <==> forall a :: a in db.activities.rows ==> a.id != id
    ensures r.Some? ==> r.value in db.activities.rows && r.value.id == id
  {
    FindActivity(db.activities.rows, id)
  }

  /** getActivitiesByGroup: all and only the group's activities. */
  function GetActivitiesByGroup(db: Db, groupId: Id): (r: seq<Activity>)
    reads db
    ensures forall a :: a in r <==> a in db.activities.rows && a.groupId == groupId
    ensures forall a :: multiset(r)[a] == if a.groupId == groupId then multiset(db.activities.rows)[a] else 0
  {
    var p := (a: Activity) => a.groupId == groupId;
    FilterCounts(db.activities.rows, p);
    Filter(db.activities.rows, p)
  }

  /** After the update, the lookup by id finds a row with the new status. */
  lemma UpdatedActivityFound(before: seq<Activity>, after: seq<Activity>, id: Id, status: ActivityStatus)
    requires |after| == |before|
    requires forall i :: 0 <= i < |before| ==>
      after[i] == if before[i].id == id then before[i].(status := status) else before[i]
    requires exists i :: 0 <= i < |before| && before[i].id == id
    ensures FindActivity(after, id).Some? && FindActivity(after, id).value.status == status
  {
  }

  /** updateActivityStatus's update: every row with the id takes the status,
      whatever it had before; the result says whether any row did. */
  function SetStatus(t: Table<Activity>, id: Id, status: ActivityStatus): (r: Outcome<bool, Activity>)
    ensures r.result <==> exists i :: 0 <= i < |t.rows| && t.rows[i].id == id
    ensures r.table.nextId == t.nextId && |r.table.rows| == |t.rows|
    ensures forall i :: 0 <= i < |t.rows| ==>
      r.table.rows[i] == if t.rows[i].id == id then t.rows[i].(status := status) else t.rows[i]
    ensures r.result ==> FindActivity(r.table.rows, id).Some? && FindActivity(r.table.rows, id).value.status == status
    ensures !r.result ==> r.table == t
    ensures IdsValid(t, ActivityKey) ==> IdsValid(r.table, ActivityKey)
  {
    var found := exists i :: 0 <= i < |t.rows| && t.rows[i].id == id;
    var rows := UpdateWhere(t.rows, (a: Activity) => a.id == id, (a: Activity) => a.(status := status));
    assert forall i :: 0 <= i < |rows| ==> ActivityKey(rows[i]) == ActivityKey(t.rows[i]);
    assert found ==> FindActivity(rows, id).Some? && FindActivity(rows, id).value.status == status by {
      if found { UpdatedActivityFound(t.rows, rows, id, status); }
    }
    assert !found ==> rows == t.rows;
    assert IdsValid(t, ActivityKey) ==> IdsValid(Table(rows, t.nextId), ActivityKey) by {
      if IdsValid(t, ActivityKey) { SameKeysKeepIds(t, rows, ActivityKey); }
    }
    Outcome(found, Table(rows, t.nextId))
  }

  /** No lifecycle rule: a completed activity can be put back to draft, or into any other status. */
  lemma AnyStatusReachable(t: Table<Activity>, id: Id, before: ActivityStatus, after: ActivityStatus)
    requires FindActivity(t.rows, id).Some? && FindActivity(t.rows, id).value.status == before
    ensures SetStatus(t, id, after).result
    ensures FindActivity(SetStatus(t, id, after).table.rows, id).value.status == after
  {
  }

  method UpdateActivityStatus(db: Db, id: Id, status: ActivityStatus) returns (r: bool)
    modifies db`activities
    ensures Outcome(r, db.activities) == SetStatus(old(db.activities), id, status)
  {
    var updated := SetStatus(db.activities, id, status);
    db.activities := updated.table;
    r := updated.result;
  }

  /** The membership rows of this user in this group. */
  function MembershipCount(members: seq<Membership>, groupId: Id, userId: Id): (r: nat)
    ensures r > 0 <==> GroupHandlers.HasMembership(members, groupId, userId)
  {
    var p := (m: Membership) => GroupHandlers.SamePair(m, groupId, userId);
    var matching := Filter(members, p);
    assert GroupHandlers.HasMembership(members, groupId, userId) ==> |matching| > 0 by {
      if GroupHandlers.HasMembership(members, groupId, userId) {
        var i :| 0 <= i < |members| && GroupHandlers.SamePair(members[i], groupId, userId);
        assert members[i] in matching;
      }
    }
    assert !GroupHandlers.HasMembership(members, groupId, userId) ==> |matching| == 0 by {
      if !GroupHandlers.HasMembership(members, groupId, userId) { FilterNone(members, p); }
    }
    |matching|
  }

  /** getUpcomingActivities: the inner join of the activities dated `now` or
      later with the user's memberships on the group; an activity appears
      once per membership of the user in its group, whatever its status. */
  function Upcoming(activities: seq<Activity>, members: seq<Membership>, userId: Id, now: Timestamp): (r: seq<Activity>)
    ensures forall a :: a in r <==>
      a in activities && a.activityDate >= now && GroupHandlers.HasMembership(members, a.groupId, userId)
  {
    if activities == [] then []
    else
      var a := activities[0];
      assert forall x :: x in activities <==> x == a || x in activities[1..];
      (if a.activityDate >= now then Repeat(a, MembershipCount(members, a.groupId, userId)) else [])
      + Upcoming(activities[1..], members, userId, now)
  }

  /** Whether the activity is upcoming for the user. */
  predicate UpcomingFor(members: seq<Membership>, userId: Id, now: Timestamp, a: Activity) {
    a.activityDate >= now && GroupHandlers.HasMembership(members, a.groupId, userId)
  }

  lemma {:induction false} UniqueCountAtMostOne(members: seq<Membership>, groupId: Id, userId: Id)
    requires UniqueMemberships(members)
    ensures MembershipCount(members, groupId, userId) <= 1
  {
    var p := (m: Membership) => GroupHandlers.SamePair(m, groupId, userId);
    if members != [] {
      var rest := members[1..];
      assert UniqueMemberships(rest) by {
        forall i, j | 0 <= i < j < |rest| ensures DistinctMemberships(rest[i], rest[j]) {
          assert DistinctMemberships(members[i + 1], members[j + 1]);
        }
      }
      if p(members[0]) {
        forall i | 0 <= i < |rest| ensures !p(rest[i]) {
          assert DistinctMemberships(members[0], members[i + 1]);
        }
        FilterNone(rest, p);
      } else {
        UniqueCountAtMostOne(rest, groupId, userId);
      }
    }
  }

  /** Under unique memberships an activity contributes itself once to the
      join when it is upcoming for the user, and nothing otherwise. */
  lemma UpcomingHead(members: seq<Membership>, userId: Id, now: Timestamp, a: Activity)
    requires UniqueMemberships(members)
    ensures (if a.activityDate >= now then Repeat(a, MembershipCount(members, a.groupId, userId)) else [])
      == (if UpcomingFor(members, userId, now, a) then [a] else [])
  {
    UniqueCountAtMostOne(members, a.groupId, userId);
  }

  /** With at most one membership per (group, user) — the invariant the
      membership ledger keeps — the join lists each upcoming activity of the
      user's groups exactly once, in table order. */
  lemma {:induction false} UpcomingUnderUniqueMemberships(activities: seq<Activity>, members: seq<Membership>, userId: Id, now: Timestamp)
    requires UniqueMemberships(members)
    ensures Upcoming(activities, members, userId, now) == Filter(activities, (a: Activity) => UpcomingFor(members, userId, now, a))
  {
    var p := (a: Activity) => UpcomingFor(members, userId, now, a);
    if activities != [] {
      var a := activities[0];
      var rest := activities[1..];
      UpcomingHead(members, userId, now, a);
      UpcomingUnderUniqueMemberships(rest, members, userId, now);
      assert Upcoming(activities, members, userId, now) == (if p(a) then [a] else []) + Upcoming(rest, members, userId, now);
      assert Filter(activities, p) == (if p(a) then [a] else []) + Filter(rest, p);
    }
  }

  function GetUpcomingActivities(db: Db, userId: Id, now: Timestamp): (r: seq<Activity>)
    reads db
    ensures forall a :: a in r <==> a in db.activities.rows && UpcomingFor(db.members.rows, userId, now, a)
  {
    Upcoming(db.activities.rows, db.members.rows, userId, now)
  }
}
