/** The entity store: every table of the schema as a field of one object,
    with the invariant the handlers keep, and the by-id lookups they share. */
module Store {
  import opened Types
  import opened Tables

  // The id column of each row type, as a function value for `IdsValid`.
  function RegionKey(r: Region): Id { r.id }
  function SchoolKey(r: School): Id { r.id }
  function SubjectKey(r: Subject): Id { r.id }
  function AcademicYearKey(r: AcademicYear): Id { r.id }
  function UserKey(r: User): Id { r.id }
  function GroupKey(r: Group): Id { r.id }
  function MembershipKey(r: Membership): Id { r.id }
  function ActivityKey(r: Activity): Id { r.id }
  function AttendanceKey(r: Attendance): Id { r.id }
  function DocumentKey(r: Document): Id { r.id }
  function ReportKey(r: SupervisionReport): Id { r.id }
  function SupervisionKey(r: Supervision): Id { r.id }
  function AnnouncementKey(r: Announcement): Id { r.id }

  /** Two membership rows are for different (group, user) pairs. */
  function DistinctMemberships(a: Membership, b: Membership): bool {
    !(a.groupId == b.groupId && a.userId == b.userId)
  }

  /** Two attendance rows are for different (activity, user) pairs. */
  function DistinctAttendance(a: Attendance, b: Attendance): bool {
    !(a.activityId == b.activityId && a.userId == b.userId)
  }

  /** Two assignment rows are for different (supervisor, school) pairs. */
  function DistinctSupervisions(a: Supervision, b: Supervision): bool {
    !(a.supervisorId == b.supervisorId && a.schoolId == b.schoolId)
  }

  /** At most one membership per (group, user). The schema has no such
      constraint; the check-then-insert of addGroupMember keeps it. */
  ghost predicate UniqueMemberships(rows: seq<Membership>) {
    Pairwise(rows, DistinctMemberships)
  }

  /** At most one attendance row per (activity, user), kept by the upsert. */
  ghost predicate UniqueAttendance(rows: seq<Attendance>) {
    Pairwise(rows, DistinctAttendance)
  }

  /** At most one assignment per (supervisor, school), kept by the idempotent assign. */
  ghost predicate UniqueSupervisions(rows: seq<Supervision>) {
    Pairwise(rows, DistinctSupervisions)
  }

  // Each table of the store is a subset type carrying the invariant the
  // handlers keep: a valid serial key and, for the three tables written by
  // check-then-insert or upsert, at most one row per natural pair.

  type RegionTable = t: Table<Region> | IdsValid(t, RegionKey) witness Empty()
  type SchoolTable = t: Table<School> | IdsValid(t, SchoolKey) witness Empty()
  type SubjectTable = t: Table<Subject> | IdsValid(t, SubjectKey) witness Empty()
  type AcademicYearTable = t: Table<AcademicYear> | IdsValid(t, AcademicYearKey) witness Empty()
  type UserTable = t: Table<User> | IdsValid(t, UserKey) witness Empty()
  type GroupTable = t: Table<Group> | IdsValid(t, GroupKey) witness Empty()
  type MembershipTable = t: Table<Membership> | IdsValid(t, MembershipKey) && UniqueMemberships(t.rows) witness Empty()
  type ActivityTable = t: Table<Activity> | IdsValid(t, ActivityKey) witness Empty()
  type AttendanceTable = t: Table<Attendance> | IdsValid(t, AttendanceKey) && UniqueAttendance(t.rows) witness Empty()
  type DocumentTable = t: Table<Document> | IdsValid(t, DocumentKey) witness Empty()
  type SupervisionReportTable = t: Table<SupervisionReport> | IdsValid(t, ReportKey) witness Empty()
  type SupervisionTable = t: Table<Supervision> | IdsValid(t, SupervisionKey) && UniqueSupervisions(t.rows) witness Empty()
  type AnnouncementTable = t: Table<Announcement> | IdsValid(t, AnnouncementKey) witness Empty()

  class Db {
    var regions: RegionTable
    var schools: SchoolTable
    var subjects: SubjectTable
    var academicYears: AcademicYearTable
    var users: UserTable
    var groups: GroupTable
    var members: MembershipTable
    var activities: ActivityTable
    var attendance: AttendanceTable
    var documents: DocumentTable
    var reports: SupervisionReportTable
    var supervisions: SupervisionTable
    var announcements: AnnouncementTable

    /** Every table is empty and every serial is at 1. */
    ghost predicate IsEmpty()
      reads this
    {
      && regions.rows == [] && schools.rows == [] && subjects.rows == [] && academicYears.rows == []
      && users.rows == [] && groups.rows == [] && members.rows == [] && activities.rows == []
      && attendance.rows == [] && documents.rows == [] && reports.rows == [] && supervisions.rows == []
      && announcements.rows == []
      && regions.nextId == 1 && schools.nextId == 1 && subjects.nextId == 1 && academicYears.nextId == 1
      && users.nextId == 1 && groups.nextId == 1 && members.nextId == 1 && activities.nextId == 1
      && attendance.nextId == 1 && documents.nextId == 1 && reports.nextId == 1 && supervisions.nextId == 1
      && announcements.nextId == 1
    }

    /** A fresh store. */
    constructor ()
      ensures IsEmpty()
    {
      var r, sc, su, ay, us, gr, me, ac, at, dc, rp, sv, an := EmptyTables();
      regions, schools, subjects, academicYears, users, groups, members,
        activities, attendance, documents, reports, supervisions, announcements :=
        r, sc, su, ay, us, gr, me, ac, at, dc, rp, sv, an;
    }

    /** One empty table of each kind. */
    static method EmptyTables() returns (
        regions: RegionTable, schools: SchoolTable, subjects: SubjectTable, academicYears: AcademicYearTable,
        users: UserTable, groups: GroupTable, members: MembershipTable, activities: ActivityTable,
        attendance: AttendanceTable, documents: DocumentTable, reports: SupervisionReportTable,
        supervisions: SupervisionTable, announcements: AnnouncementTable)
      ensures regions.rows == [] && schools.rows == [] && subjects.rows == [] && academicYears.rows == []
      ensures users.rows == [] && groups.rows == [] && members.rows == [] && activities.rows == []
      ensures attendance.rows == [] && documents.rows == [] && reports.rows == [] && supervisions.rows == []
      ensures announcements.rows == []
      ensures regions.nextId == 1 && schools.nextId == 1 && subjects.nextId == 1 && academicYears.nextId == 1
      ensures users.nextId == 1 && groups.nextId == 1 && members.nextId == 1 && activities.nextId == 1
      ensures attendance.nextId == 1 && documents.nextId == 1 && reports.nextId == 1 && supervisions.nextId == 1
      ensures announcements.nextId == 1
    {
      regions, schools, subjects, academicYears := Empty(), Empty(), Empty(), Empty();
      users, groups, members, activities := Empty(), Empty(), Empty(), Empty();
      attendance, documents, reports, supervisions := Empty(), Empty(), Empty(), Empty();
      announcements := Empty();
    }
  }

  // Lookups by primary key: the first row with the id, or none.

  function FindRegion(rows: seq<Region>, id: Id): (r: Option<Region>)
    ensures r.None? <==> forall i :: 0 <= i < |rows| ==> rows[i].id != id
    ensures r.Some? ==> r.value in rows && r.value.id == id
  {
    First(rows, (x: Region) => x.id == id)
  }

  function FindSchool(rows: seq<School>, id: Id): (r: Option<School>)
    ensures r.None? <==> forall i :: 0 <= i < |rows| ==> rows[i].id != id
    ensures r.Some? ==> r.value in rows && r.value.id == id
  {
    First(rows, (x: School) => x.id == id)
  }

  function FindUser(rows: seq<User>, id: Id): (r: Option<User>)
    ensures r.None? <==> forall i :: 0 <= i < |rows| ==> rows[i].id != id
    ensures r.Some? ==> r.value in rows && r.value.id == id
  {
    First(rows, (x: User) => x.id == id)
  }

  function FindGroup(rows: seq<Group>, id: Id): (r: Option<Group>)
    ensures r.None? <==> forall i :: 0 <= i < |rows| ==> rows[i].id != id
    ensures r.Some? ==> r.value in rows && r.value.id == id
  {
    First(rows, (x: Group) => x.id == id)
  }

  function FindActivity(rows: seq<Activity>, id: Id): (r: Option<Activity>)
    ensures r.None? <==> forall i :: 0 <= i < |rows| ==> rows[i].id != id
    ensures r.Some? ==> r.value in rows && r.value.id == id
  {
    First(rows, (x: Activity) => x.id == id)
  }

  function FindDocument(rows: seq<Document>, id: Id): (r: Option<Document>)
    ensures r.None? <==> forall i :: 0 <= i < |rows| ==> rows[i].id != id
    ensures r.Some? ==> r.value in rows && r.value.id == id
  {
    First(rows, (x: Document) => x.id == id)
  }

  function FindAnnouncement(rows: seq<Announcement>, id: Id): (r: Option<Announcement>)
    ensures r.None? <==> forall i :: 0 <= i < |rows| ==> rows[i].id != id
    ensures r.Some? ==> r.value in rows && r.value.id == id
  {
    First(rows, (x: Announcement) => x.id == id)
  }
}
