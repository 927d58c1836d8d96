/** supervision.ts: the ledger of school assignments, the reports a
    supervisor files about an assigned school, and three queries. */
module SupervisionHandlers {
  import opened Types
  import opened Tables
  import opened Store

  /** The roles the supervisor checks accept. */
  predicate IsSupervisorRole(role: Role) {
    role == PengawasSekolah || role == PengawasBina || role == KepalaBidang
  }

  /** The row assigns this school to this supervisor. */
  predicate SamePair(s: Supervision, supervisorId: Id, schoolId: Id) {
    s.supervisorId == supervisorId && s.schoolId == schoolId
  }

  /** The row does not assign this school to this supervisor. */
  predicate OtherPair(s: Supervision, supervisorId: Id, schoolId: Id) {
    !SamePair(s, supervisorId, schoolId)
  }

  predicate HasAssignment(rows: seq<Supervision>, supervisorId: Id, schoolId: Id) {
    exists i :: 0 <= i < |rows| && SamePair(rows[i], supervisorId, schoolId)
  }

  ghost predicate ExactlyOneAssignment(rows: seq<Supervision>, supervisorId: Id, schoolId: Id) {
    exists i :: 0 <= i < |rows| && SamePair(rows[i], supervisorId, schoolId) &&
      forall j :: 0 <= j < |rows| && SamePair(rows[j], supervisorId, schoolId) ==> j == i
  }

  /** The three checks both writing operations open with, in their order:
      the supervisor exists, holds a supervisor role, and the school exists.
      The result is the first that fails, if any. */
  function CheckSupervisor(users: seq<User>, schools: seq<School>, supervisorId: Id, schoolId: Id): (r: Option<Error>)
    ensures r == Some(SupervisorNotFound) <==> forall i :: 0 <= i < |users| ==> users[i].id != supervisorId
    ensures r == Some(NotSupervisorRole) <==>
      FindUser(users, supervisorId).Some? && !IsSupervisorRole(FindUser(users, supervisorId).value.role)
    ensures r == Some(SchoolNotFound) <==>
      && FindUser(users, supervisorId).Some? && IsSupervisorRole(FindUser(users, supervisorId).value.role)
      && forall i :: 0 <= i < |schools| ==> schools[i].id != schoolId
    ensures r.None? <==>
      && FindUser(users, supervisorId).Some? && IsSupervisorRole(FindUser(users, supervisorId).value.role)
      && FindSchool(schools, schoolId).Some?
  {
    match FindUser(users, supervisorId)
    case None => Some(SupervisorNotFound)
    case Some(supervisor) =>
      if !IsSupervisorRole(supervisor.role) then Some(NotSupervisorRole)
      else if FindSchool(schools, schoolId).None? then Some(SchoolNotFound)
      else None
  }

  lemma UniqueHasOne(rows: seq<Supervision>, supervisorId: Id, schoolId: Id)
    requires UniqueSupervisions(rows) && HasAssignment(rows, supervisorId, schoolId)
    ensures ExactlyOneAssignment(rows, supervisorId, schoolId)
  {
    var i :| 0 <= i < |rows| && SamePair(rows[i], supervisorId, schoolId);
    forall j | 0 <= j < |rows| && SamePair(rows[j], supervisorId, schoolId) ensures j == i {
      assert j < i ==> DistinctSupervisions(rows[j], rows[i]);
      assert i < j ==> DistinctSupervisions(rows[i], rows[j]);
    }
  }

  /** The insert of a new assignment keeps the pairs unique. */
  lemma InsertKeepsUnique(t: Table<Supervision>, supervisorId: Id, schoolId: Id, now: Timestamp)
    requires UniqueSupervisions(t.rows) && !HasAssignment(t.rows, supervisorId, schoolId)
    ensures UniqueSupervisions(Insert(t, Supervision(t.nextId, supervisorId, schoolId, now)).rows)
    ensures ExactlyOneAssignment(Insert(t, Supervision(t.nextId, supervisorId, schoolId, now)).rows, supervisorId, schoolId)
  {
    var rows := Insert(t, Supervision(t.nextId, supervisorId, schoolId, now)).rows;
    forall i, j | 0 <= i < j < |rows| ensures DistinctSupervisions(rows[i], rows[j]) {
      if j < |t.rows| {
        assert DistinctSupervisions(t.rows[i], t.rows[j]);
      } else {
        assert !SamePair(t.rows[i], supervisorId, schoolId);
      }
    }
    assert SamePair(rows[|t.rows|], supervisorId, schoolId);
    UniqueHasOne(rows, supervisorId, schoolId);
  }

  /** assignSchoolToSupervisor as a function of the tables it reads and writes. */
  function Assign(users: seq<User>, schools: seq<School>, t: Table<Supervision>,
                  supervisorId: Id, schoolId: Id, now: Timestamp): (r: Outcome<Result<bool, Error>, Supervision>)
    ensures CheckSupervisor(users, schools, supervisorId, schoolId).Some? ==>
      r == Outcome(Failure(CheckSupervisor(users, schools, supervisorId, schoolId).value), t)
    ensures CheckSupervisor(users, schools, supervisorId, schoolId).None? ==> r.result == Success(true)
    // an existing assignment: nothing is written
    ensures HasAssignment(t.rows, supervisorId, schoolId) ==> r.table == t
    // otherwise exactly one row, stamped with `now`
    ensures CheckSupervisor(users, schools, supervisorId, schoolId).None? && !HasAssignment(t.rows, supervisorId, schoolId) ==>
      r.table == Insert(t, Supervision(t.nextId, supervisorId, schoolId, now))
    ensures UniqueSupervisions(t.rows) ==> UniqueSupervisions(r.table.rows)
    ensures UniqueSupervisions(t.rows) && r.result.Success? ==> ExactlyOneAssignment(r.table.rows, supervisorId, schoolId)
    ensures IdsValid(t, SupervisionKey) ==> IdsValid(r.table, SupervisionKey)
  {
    match CheckSupervisor(users, schools, supervisorId, schoolId)
    case Some(e) => Outcome(Failure(e), t)
    case None =>
      if HasAssignment(t.rows, supervisorId, schoolId) then
        assert UniqueSupervisions(t.rows) ==> ExactlyOneAssignment(t.rows, supervisorId, schoolId) by {
          if UniqueSupervisions(t.rows) { UniqueHasOne(t.rows, supervisorId, schoolId); }
        }
        Outcome(Success(true), t)
      else
        var row := Supervision(t.nextId, supervisorId, schoolId, now);
        assert UniqueSupervisions(t.rows) ==>
          UniqueSupervisions(Insert(t, row).rows) && ExactlyOneAssignment(Insert(t, row).rows, supervisorId, schoolId) by {
          if UniqueSupervisions(t.rows) { InsertKeepsUnique(t, supervisorId, schoolId, now); }
        }
        Outcome(Success(true), Insert(t, row))
  }

  /** Assigning twice is assigning once: the second call succeeds and writes nothing. */
  lemma AssignIdempotent(users: seq<User>, schools: seq<School>, t: Table<Supervision>,
                         supervisorId: Id, schoolId: Id, now1: Timestamp, now2: Timestamp)
    ensures var once := Assign(users, schools, t, supervisorId, schoolId, now1);
      Assign(users, schools, once.table, supervisorId, schoolId, now2) == once
  {
    var once := Assign(users, schools, t, supervisorId, schoolId, now1);
    if once.result.Success? && !HasAssignment(t.rows, supervisorId, schoolId) {
      assert SamePair(once.table.rows[|t.rows|], supervisorId, schoolId);
    }
  }

  /** removeSchoolSupervision's delete: every row of the pair goes, the others stay in order. */
  function Remove(t: Table<Supervision>, supervisorId: Id, schoolId: Id): (r: Table<Supervision>)
    ensures !HasAssignment(r.rows, supervisorId, schoolId)
    ensures forall s :: s in r.rows <==> s in t.rows && OtherPair(s, supervisorId, schoolId)
    ensures forall s :: OtherPair(s, supervisorId, schoolId) ==> multiset(r.rows)[s] == multiset(t.rows)[s]
    ensures r.nextId == t.nextId
    ensures UniqueSupervisions(t.rows) ==> UniqueSupervisions(r.rows)
    ensures IdsValid(t, SupervisionKey) ==> IdsValid(r, SupervisionKey)
  {
    var p := (s: Supervision) => OtherPair(s, supervisorId, schoolId);
    var rows := Filter(t.rows, p);
    FilterCounts(t.rows, p);
    assert !HasAssignment(rows, supervisorId, schoolId) by {
      forall i | 0 <= i < |rows| ensures !SamePair(rows[i], supervisorId, schoolId) {
        assert rows[i] in rows;
      }
    }
    assert UniqueSupervisions(t.rows) ==> UniqueSupervisions(rows) by {
      if UniqueSupervisions(t.rows) { FilterKeepsPairwise(t.rows, p, DistinctSupervisions); }
    }
    assert IdsValid(t, SupervisionKey) ==> IdsValid(Table(rows, t.nextId), SupervisionKey) by {
      if IdsValid(t, SupervisionKey) { FilterKeepsIds(t, p, SupervisionKey); }
    }
    Table(rows, t.nextId)
  }

  /** Removing a fresh assignment gives back the rows as they were before it. */
  lemma AssignThenRemove(users: seq<User>, schools: seq<School>, t: Table<Supervision>,
                         supervisorId: Id, schoolId: Id, now: Timestamp)
    requires !HasAssignment(t.rows, supervisorId, schoolId)
    ensures Remove(Assign(users, schools, t, supervisorId, schoolId, now).table, supervisorId, schoolId).rows == t.rows
  {
    var p := (s: Supervision) => OtherPair(s, supervisorId, schoolId);
    FilterAll(t.rows, p);
    if CheckSupervisor(users, schools, supervisorId, schoolId).None? {
      FilterAppend(t.rows, Supervision(t.nextId, supervisorId, schoolId, now), p);
    }
  }

  /** The report row the insert writes: the next id, the input's fields, `created_at = now`. */
  function NewReport(t: Table<SupervisionReport>, input: ReportInput, now: Timestamp): SupervisionReport {
    SupervisionReport(t.nextId, input.supervisorId, input.schoolId, input.visitDate, input.title,
                      input.description, input.filePath, input.fileName, now)
  }

  /** createSupervisionReport as a function of the tables it reads and writes:
      the three supervisor checks, then the assignment check, then one insert. */
  function Report(users: seq<User>, schools: seq<School>, assignments: seq<Supervision>,
                  t: Table<SupervisionReport>, input: ReportInput, now: Timestamp): (r: Outcome<Result<SupervisionReport, Error>, SupervisionReport>)
    ensures CheckSupervisor(users, schools, input.supervisorId, input.schoolId).Some? ==>
      r == Outcome(Failure(CheckSupervisor(users, schools, input.supervisorId, input.schoolId).value), t)
    ensures (CheckSupervisor(users, schools, input.supervisorId, input.schoolId).None? &&
      !HasAssignment(assignments, input.supervisorId, input.schoolId)) ==> r == Outcome(Failure(NoAuthority), t)
    ensures r.result.Success? <==>
      CheckSupervisor(users, schools, input.supervisorId, input.schoolId).None? &&
      HasAssignment(assignments, input.supervisorId, input.schoolId)
    ensures r.result.Success? ==>
      && r.table == Insert(t, r.result.value)
      && r.result.value.id == t.nextId && r.result.value.createdAt == now
      && r.result.value.supervisorId == input.supervisorId && r.result.value.schoolId == input.schoolId
      && r.result.value.visitDate == input.visitDate && r.result.value.title == input.title
      && r.result.value.description == input.description
      && r.result.value.filePath == input.filePath && r.result.value.fileName == input.fileName
  {
    match CheckSupervisor(users, schools, input.supervisorId, input.schoolId)
    case Some(e) => Outcome(Failure(e), t)
    case None =>
      if !HasAssignment(assignments, input.supervisorId, input.schoolId) then Outcome(Failure(NoAuthority), t)
      else
        var row := NewReport(t, input, now);
        Outcome(Success(row), Insert(t, row))
  }

  /** A successful assignment gives the supervisor authority to report on the school. */
  lemma AssignGrantsAuthority(users: seq<User>, schools: seq<School>, assignments: Table<Supervision>,
                              t: Table<SupervisionReport>, input: ReportInput, now1: Timestamp, now2: Timestamp)
    requires Assign(users, schools, assignments, input.supervisorId, input.schoolId, now1).result.Success?
    ensures Report(users, schools, Assign(users, schools, assignments, input.supervisorId, input.schoolId, now1).table.rows,
                   t, input, now2).result.Success?
  {
    var after := Assign(users, schools, assignments, input.supervisorId, input.schoolId, now1).table.rows;
    if !HasAssignment(assignments.rows, input.supervisorId, input.schoolId) {
      assert SamePair(after[|assignments.rows|], input.supervisorId, input.schoolId);
    }
  }

  /** After the assignment is removed, a report on the school is refused for want of authority. */
  lemma RemoveRevokesAuthority(users: seq<User>, schools: seq<School>, assignments: Table<Supervision>,
                               t: Table<SupervisionReport>, input: ReportInput, now: Timestamp)
    requires CheckSupervisor(users, schools, input.supervisorId, input.schoolId).None?
    ensures Report(users, schools, Remove(assignments, input.supervisorId, input.schoolId).rows, t, input, now)
         == Outcome(Failure(NoAuthority), t)
  {
  }

  /** The supervisor and school lookups both writing operations open with. */
  method CheckSupervisorRefs(db: Db, supervisorId: Id, schoolId: Id) returns (e: Option<Error>)
    ensures e == CheckSupervisor(db.users.rows, db.schools.rows, supervisorId, schoolId)
  {
    var supervisor := FindUser(db.users.rows, supervisorId);
    if supervisor.None? {
      return Some(SupervisorNotFound);
    }
    if !IsSupervisorRole(supervisor.value.role) {
      return Some(NotSupervisorRole);
    }
    var school := FindSchool(db.schools.rows, schoolId);
    if school.None? {
      return Some(SchoolNotFound);
    }
    return None;
  }

  method AssignSchoolToSupervisor(db: Db, supervisorId: Id, schoolId: Id, now: Timestamp) returns (r: Result<bool, Error>)
    modifies db`supervisions
    ensures Outcome(r, db.supervisions) == Assign(db.users.rows, db.schools.rows, old(db.supervisions), supervisorId, schoolId, now)
  {
    var refusal := CheckSupervisorRefs(db, supervisorId, schoolId);
    if refusal.Some? {
      return Failure(refusal.value);
    }
    if HasAssignment(db.supervisions.rows, supervisorId, schoolId) {
      return Success(true);
    }
    var row := Supervision(db.supervisions.nextId, supervisorId, schoolId, now);
    assert Insert(db.supervisions, row) == Assign(db.users.rows, db.schools.rows, db.supervisions, supervisorId, schoolId, now).table;
    db.supervisions := Insert(db.supervisions, row);
    r := Success(true);
  }

  method RemoveSchoolSupervision(db: Db, supervisorId: Id, schoolId: Id) returns (r: bool)
    modifies db`supervisions
    ensures r && db.supervisions == Remove(old(db.supervisions), supervisorId, schoolId)
  {
    db.supervisions := Remove(db.supervisions, supervisorId, schoolId);
    r := true;
  }

  method CreateSupervisionReport(db: Db, input: ReportInput, now: Timestamp) returns (r: Result<SupervisionReport, Error>)
    modifies db`reports
    ensures Outcome(r, db.reports) == Report(db.users.rows, db.schools.rows, db.supervisions.rows, old(db.reports), input, now)
  {
    var refusal := CheckSupervisorRefs(db, input.supervisorId, input.schoolId);
    if refusal.Some? {
      return Failure(refusal.value);
    }
    if !HasAssignment(db.supervisions.rows, input.supervisorId, input.schoolId) {
      return Failure(NoAuthority);
    }
    var row := NewReport(db.reports, input, now);
    InsertKeepsIds(db.reports, row, ReportKey);
    db.reports := Insert(db.reports, row);
    r := Success(row);
  }

  /** getSupervisionReportsBySupervisor: all and only that supervisor's reports. */
  function GetReportsBySupervisor(db: Db, supervisorId: Id): (r: seq<SupervisionReport>)
    reads db
    ensures forall x :: x in r <==> x in db.reports.rows && x.supervisorId == supervisorId
    ensures forall x :: multiset(r)[x] == if x.supervisorId == supervisorId then multiset(db.reports.rows)[x] else 0
  {
    var p := (x: SupervisionReport) => x.supervisorId == supervisorId;
    FilterCounts(db.reports.rows, p);
    Filter(db.reports.rows, p)
  }

  /** getSupervisionReportsBySchool: all and only the reports on that school. */
  function GetReportsBySchool(db: Db, schoolId: Id): (r: seq<SupervisionReport>)
    reads db
    ensures forall x :: x in r <==> x in db.reports.rows && x.schoolId == schoolId
    ensures forall x :: multiset(r)[x] == if x.schoolId == schoolId then multiset(db.reports.rows)[x] else 0
  {
    var p := (x: SupervisionReport) => x.schoolId == schoolId;
    FilterCounts(db.reports.rows, p);
    Filter(db.reports.rows, p)
  }

  /** A row of getSupervisedSchools: the school's columns and the assignment's date. */
  datatype SupervisedSchool = SupervisedSchool(
    id: Id, name: string, npsn: string, address: string, level: EducationLevel,
    regionId: Id, assignedAt: Timestamp, createdAt: Timestamp)

  /** The inner join of one assignment with its school. */
  function SupervisedSchoolOf(schools: seq<School>, s: Supervision): Option<SupervisedSchool> {
    match FindSchool(schools, s.schoolId)
    case None => None
    case Some(school) =>
      Some(SupervisedSchool(school.id, school.name, school.npsn, school.address, school.level,
                            school.regionId, s.assignedAt, school.createdAt))
  }

  /** getSupervisedSchools: one entry per assignment of the supervisor whose
      school exists, with that school's columns and the assignment date. */
  function GetSupervisedSchools(db: Db, supervisorId: Id): (r: seq<SupervisedSchool>)
    reads db
    ensures forall e :: e in r ==>
      (exists s :: s in db.supervisions.rows && s.supervisorId == supervisorId && s.schoolId == e.id &&
         s.assignedAt == e.assignedAt && SupervisedSchoolOf(db.schools.rows, s) == Some(e))
    ensures forall s :: (s in db.supervisions.rows && s.supervisorId == supervisorId &&
      FindSchool(db.schools.rows, s.schoolId).Some?) ==>
      SupervisedSchoolOf(db.schools.rows, s).Some? && SupervisedSchoolOf(db.schools.rows, s).value in r
    ensures var schools := db.schools.rows;
      var kept := Filter(db.supervisions.rows,
        (s: Supervision) => s.supervisorId == supervisorId && SupervisedSchoolOf(schools, s).Some?);
      |r| == |kept| && forall i :: 0 <= i < |r| ==> SupervisedSchoolOf(schools, kept[i]) == Some(r[i])
  {
    var schools := db.schools.rows;
    var f := (s: Supervision) => if s.supervisorId == supervisorId then SupervisedSchoolOf(schools, s) else None;
    FilterMapByRows(db.supervisions.rows, f,
      (s: Supervision) => s.supervisorId == supervisorId && SupervisedSchoolOf(schools, s).Some?,
      (x: Supervision) => SupervisedSchoolOf(schools, x));
    FilterMapMembers(db.supervisions.rows, f);
    FilterMap(db.supervisions.rows, f)
  }
}
