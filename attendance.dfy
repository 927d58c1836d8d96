/** attendance.ts: recording attendance with an admin check and an upsert
    keyed by (activity, user), the batch variant, and three queries. */
module AttendanceHandlers {
  import opened Types
  import opened Tables
  import opened Store

  /** The row is for this (activity, user) pair. */
  predicate SamePair(a: Attendance, activityId: Id, userId: Id) {
    a.activityId == activityId && a.userId == userId
  }

  /** Some row is for this (activity, user) pair. */
  predicate HasRecord(rows: seq<Attendance>, activityId: Id, userId: Id) {
    exists i :: 0 <= i < |rows| && SamePair(rows[i], activityId, userId)
  }

  /** Exactly one row is for this (activity, user) pair. */
  ghost predicate ExactlyOneRecord(rows: seq<Attendance>, activityId: Id, userId: Id) {
    exists i :: 0 <= i < |rows| && SamePair(rows[i], activityId, userId) &&
      forall j :: 0 <= j < |rows| && SamePair(rows[j], activityId, userId) ==> j == i
  }

  /** The row holds what the input asked to record, stamped at `now`. */
  predicate Recorded(a: Attendance, input: AttendanceInput, now: Timestamp) {
    && SamePair(a, input.activityId, input.userId)
    && a.isPresent == input.isPresent
    && a.notes == input.notes
    && a.recordedBy == input.recordedBy
    && a.recordedAt == now
  }

  /** A membership of the group with `is_admin` set. */
  predicate IsGroupAdmin(members: seq<Membership>, groupId: Id, userId: Id) {
    exists i :: 0 <= i < |members| &&
      members[i].groupId == groupId && members[i].userId == userId && members[i].isAdmin
  }

  /** The check both recording operations make: the activity must exist and
      the recorder must be an admin member of the activity's group. The
      users table is not consulted, so no role bypasses it. On success the
      result is the activity's group. */
  function Authorize(activities: seq<Activity>, members: seq<Membership>, activityId: Id, recorder: Id): (r: Result<Id, Error>)
    ensures r == Failure(ActivityNotFound) <==> forall i :: 0 <= i < |activities| ==> activities[i].id != activityId
    ensures r.Failure? ==> r.error == ActivityNotFound || r.error == RecorderNotAdmin
    ensures r.Success? <==>
      FindActivity(activities, activityId).Some? &&
      IsGroupAdmin(members, FindActivity(activities, activityId).value.groupId, recorder)
    ensures r.Success? ==> r.value == FindActivity(activities, activityId).value.groupId
  {
    match FindActivity(activities, activityId)
    case None => Failure(ActivityNotFound)
    case Some(activity) =>
      if IsGroupAdmin(members, activity.groupId, recorder) then Success(activity.groupId)
      else Failure(RecorderNotAdmin)
  }

  /** `select ... where activity_id = a and user_id = u`, first row. */
  function FindRecord(rows: seq<Attendance>, activityId: Id, userId: Id): (r: Option<Attendance>)
    ensures r.None? <==> !HasRecord(rows, activityId, userId)
    ensures r.Some? ==> r.value in rows && SamePair(r.value, activityId, userId)
  {
    First(rows, (a: Attendance) => SamePair(a, activityId, userId))
  }

  /** The update branch: every row of the pair gets the input's presence,
      notes and recorder and `recorded_at := now`; other rows, the order and
      every id stay. */
  function OverwriteRecords(rows: seq<Attendance>, input: AttendanceInput, now: Timestamp): (r: seq<Attendance>)
    ensures |r| == |rows|
    ensures forall i :: 0 <= i < |rows| ==> r[i].id == rows[i].id && SamePair(r[i], rows[i].activityId, rows[i].userId)
    ensures forall i :: 0 <= i < |rows| && SamePair(rows[i], input.activityId, input.userId) ==> Recorded(r[i], input, now)
    ensures forall i :: 0 <= i < |rows| && !SamePair(rows[i], input.activityId, input.userId) ==> r[i] == rows[i]
  {
    UpdateWhere(rows,
      (a: Attendance) => SamePair(a, input.activityId, input.userId),
      (a: Attendance) => a.(isPresent := input.isPresent, notes := input.notes,
                            recordedBy := input.recordedBy, recordedAt := now))
  }

  /** The insert branch's row: the next serial id and `recorded_at` defaulted to `now`. */
  function NewRecord(t: Table<Attendance>, input: AttendanceInput, now: Timestamp): (r: Attendance)
    ensures Recorded(r, input, now) && r.id == t.nextId
  {
    Attendance(t.nextId, input.activityId, input.userId, input.isPresent, input.notes, input.recordedBy, now)
  }

  lemma UniqueHasOne(rows: seq<Attendance>, activityId: Id, userId: Id)
    requires UniqueAttendance(rows) && HasRecord(rows, activityId, userId)
    ensures ExactlyOneRecord(rows, activityId, userId)
  {
    var i :| 0 <= i < |rows| && SamePair(rows[i], activityId, userId);
    forall j | 0 <= j < |rows| && SamePair(rows[j], activityId, userId) ensures j == i {
      assert j < i ==> DistinctAttendance(rows[j], rows[i]);
      assert i < j ==> DistinctAttendance(rows[i], rows[j]);
    }
  }

  /** The update branch keeps the pairs unique and the pair's row single. */
  lemma OverwriteKeepsUnique(rows: seq<Attendance>, input: AttendanceInput, now: Timestamp)
    requires UniqueAttendance(rows) && HasRecord(rows, input.activityId, input.userId)
    ensures UniqueAttendance(OverwriteRecords(rows, input, now))
    ensures ExactlyOneRecord(OverwriteRecords(rows, input, now), input.activityId, input.userId)
  {
    var written := OverwriteRecords(rows, input, now);
    forall i, j | 0 <= i < j < |written| ensures DistinctAttendance(written[i], written[j]) {
      assert DistinctAttendance(rows[i], rows[j]);
    }
    var i :| 0 <= i < |rows| && SamePair(rows[i], input.activityId, input.userId);
    assert SamePair(written[i], input.activityId, input.userId);
    UniqueHasOne(written, input.activityId, input.userId);
  }

  /** The insert branch keeps the pairs unique and the pair's row single. */
  lemma AppendKeepsUnique(rows: seq<Attendance>, row: Attendance)
    requires UniqueAttendance(rows) && !HasRecord(rows, row.activityId, row.userId)
    ensures UniqueAttendance(rows + [row])
    ensures ExactlyOneRecord(rows + [row], row.activityId, row.userId)
  {
    var written := rows + [row];
    forall i, j | 0 <= i < j < |written| ensures DistinctAttendance(written[i], written[j]) {
      if j < |rows| {
        assert DistinctAttendance(rows[i], rows[j]);
      } else {
        assert !SamePair(rows[i], row.activityId, row.userId);
      }
    }
    assert SamePair(written[|rows|], row.activityId, row.userId);
    UniqueHasOne(written, row.activityId, row.userId);
  }

  /** The write half of recordAttendance: update the pair's row if there is
      one, insert otherwise; the result is the row as written. */
  function Upsert(t: Table<Attendance>, input: AttendanceInput, now: Timestamp): (r: (Attendance, Table<Attendance>))
    // update branch: same size, same serial, same ids
    ensures HasRecord(t.rows, input.activityId, input.userId) ==>
      && r.1.nextId == t.nextId && |r.1.rows| == |t.rows|
      && forall i :: 0 <= i < |t.rows| ==> r.1.rows[i].id == t.rows[i].id
    // insert branch: exactly one new row, last, with the next id
    ensures !HasRecord(t.rows, input.activityId, input.userId) ==>
      r.1.rows == t.rows + [r.0] && r.1.nextId == t.nextId + 1 && r.0.id == t.nextId
    // both branches
    ensures Recorded(r.0, input, now) && r.0 in r.1.rows
    ensures forall i :: 0 <= i < |r.1.rows| && SamePair(r.1.rows[i], input.activityId, input.userId) ==>
      Recorded(r.1.rows[i], input, now)
    ensures forall i :: 0 <= i < |t.rows| && !SamePair(t.rows[i], input.activityId, input.userId) ==>
      r.1.rows[i] == t.rows[i]
    ensures UniqueAttendance(t.rows) ==>
      UniqueAttendance(r.1.rows) && ExactlyOneRecord(r.1.rows, input.activityId, input.userId)
    ensures IdsValid(t, AttendanceKey) ==> IdsValid(r.1, AttendanceKey)
  {
    if HasRecord(t.rows, input.activityId, input.userId) then
      var rows := OverwriteRecords(t.rows, input, now);
      assert HasRecord(rows, input.activityId, input.userId);
      var row := FindRecord(rows, input.activityId, input.userId).value;
      assert UniqueAttendance(t.rows) ==>
        UniqueAttendance(rows) && ExactlyOneRecord(rows, input.activityId, input.userId) by {
        if UniqueAttendance(t.rows) { OverwriteKeepsUnique(t.rows, input, now); }
      }
      assert IdsValid(t, AttendanceKey) ==> IdsValid(Table(rows, t.nextId), AttendanceKey) by {
        if IdsValid(t, AttendanceKey) {
          assert forall i :: 0 <= i < |rows| ==> AttendanceKey(rows[i]) == AttendanceKey(t.rows[i]);
          SameKeysKeepIds(t, rows, AttendanceKey);
        }
      }
      (row, Table(rows, t.nextId))
    else
      var row := NewRecord(t, input, now);
      assert UniqueAttendance(t.rows) ==>
        UniqueAttendance(t.rows + [row]) && ExactlyOneRecord(t.rows + [row], input.activityId, input.userId) by {
        if UniqueAttendance(t.rows) { AppendKeepsUnique(t.rows, row); }
      }
      assert IdsValid(t, AttendanceKey) ==> IdsValid(Insert(t, row), AttendanceKey) by {
        if IdsValid(t, AttendanceKey) { InsertKeepsIds(t, row, AttendanceKey); }
      }
      (row, Insert(t, row))
  }

  /** The outcome of one recording: the result and the attendance table after it. */
  type Recording = Outcome<Result<Attendance, Error>, Attendance>

  /** recordAttendance as a function of the tables it reads and writes. */
  function Record(activities: seq<Activity>, members: seq<Membership>, t: Table<Attendance>,
                  input: AttendanceInput, now: Timestamp): (r: Recording)
    ensures r.result.Failure? <==> Authorize(activities, members, input.activityId, input.recordedBy).Failure?
    ensures r.result.Failure? ==>
      r.result.error == Authorize(activities, members, input.activityId, input.recordedBy).error && r.table == t
    ensures r.result.Success? ==> Recorded(r.result.value, input, now) && r.result.value in r.table.rows
    ensures r.result.Success? ==> (r.result.value, r.table) == Upsert(t, input, now)
    ensures UniqueAttendance(t.rows) ==> UniqueAttendance(r.table.rows)
    ensures IdsValid(t, AttendanceKey) ==> IdsValid(r.table, AttendanceKey)
  {
    match Authorize(activities, members, input.activityId, input.recordedBy)
    case Failure(e) => Outcome(Failure(e), t)
    case Success(_) =>
      var (row, written) := Upsert(t, input, now);
      Outcome(Success(row), written)
  }

  /** After a successful recording the pair's lookup finds the row just written. */
  lemma RecordedRowIsFound(activities: seq<Activity>, members: seq<Membership>, t: Table<Attendance>,
                           input: AttendanceInput, now: Timestamp)
    requires UniqueAttendance(t.rows)
    requires Record(activities, members, t, input, now).result.Success?
    ensures var w := Record(activities, members, t, input, now);
      FindRecord(w.table.rows, input.activityId, input.userId) == Some(w.result.value)
  {
  }

  /** A second recording for the same pair by the same recorder overwrites
      the row written by the first: the table does not grow, the pair still
      has exactly one row, it keeps its id and holds the second call's values. */
  lemma SecondRecordOverwrites(activities: seq<Activity>, members: seq<Membership>, t: Table<Attendance>,
                               first: AttendanceInput, second: AttendanceInput, now1: Timestamp, now2: Timestamp)
    requires UniqueAttendance(t.rows)
    requires second.activityId == first.activityId && second.userId == first.userId
    requires second.recordedBy == first.recordedBy
    requires Record(activities, members, t, first, now1).result.Success?
    ensures var w1 := Record(activities, members, t, first, now1);
      var w2 := Record(activities, members, w1.table, second, now2);
      && w2.result.Success?
      && |w2.table.rows| == |w1.table.rows|
      && ExactlyOneRecord(w2.table.rows, first.activityId, first.userId)
      && Recorded(w2.result.value, second, now2)
      && w2.result.value.id == w1.result.value.id
  {
  }

  /** Every record of the batch names this activity and this recorder. */
  predicate AllFor(records: seq<AttendanceInput>, activityId: Id, recorder: Id) {
    forall i :: 0 <= i < |records| ==> records[i].activityId == activityId && records[i].recordedBy == recorder
  }

  /** The batch agrees with its first record on activity and recorder. */
  predicate Consistent(records: seq<AttendanceInput>)
    requires records != []
  {
    AllFor(records, records[0].activityId, records[0].recordedBy)
  }

  /** The outcome of a batch: the result and the attendance table after it. */
  type BatchOutcome = Outcome<Result<bool, Error>, Attendance>

  /** The check recordAttendance makes of one record. */
  function AuthorizeRecord(activities: seq<Activity>, members: seq<Membership>, x: AttendanceInput): Result<Id, Error> {
    Authorize(activities, members, x.activityId, x.recordedBy)
  }

  /** Every record of the batch passes the check. */
  predicate AllPass(activities: seq<Activity>, members: seq<Membership>, records: seq<AttendanceInput>) {
    forall j :: 0 <= j < |records| ==> AuthorizeRecord(activities, members, records[j]).Success?
  }

  /** A batch passes exactly when its first record and the rest pass. */
  lemma AllPassTail(activities: seq<Activity>, members: seq<Membership>, records: seq<AttendanceInput>)
    requires records != []
    ensures AllPass(activities, members, records) <==>
      AuthorizeRecord(activities, members, records[0]).Success? && AllPass(activities, members, records[1..])
  {
    assert forall j :: 1 <= j < |records| ==> records[j] == records[1..][j - 1];
  }

  /** Record `k` is the first of the batch that fails the check. */
  predicate FailsFirstAt(activities: seq<Activity>, members: seq<Membership>, records: seq<AttendanceInput>, k: int) {
    && 0 <= k < |records|
    && AuthorizeRecord(activities, members, records[k]).Failure?
    && forall j :: 0 <= j < k ==> AuthorizeRecord(activities, members, records[j]).Success?
  }

  /** The loop of bulkRecordAttendance: recordAttendance on each record in
      input order. It succeeds exactly when every record passes the check,
      and then the table holds every upsert in order; otherwise the first
      record that fails the check ends the loop with its error, and the
      upserts of the records before it stay. */
  function RecordEach(activities: seq<Activity>, members: seq<Membership>, t: Table<Attendance>,
                      records: seq<AttendanceInput>, now: Timestamp): (r: BatchOutcome)
    ensures r.result.Success? <==> AllPass(activities, members, records)
    ensures r.result.Success? ==> r.result.value && r.table == UpsertAll(t, records, now)
    ensures r.result.Failure? ==>
      exists k :: FailsFirstAt(activities, members, records, k) &&
                  r.result.error == AuthorizeRecord(activities, members, records[k]).error &&
                  r.table == UpsertAll(t, records[..k], now)
    ensures UniqueAttendance(t.rows) ==> UniqueAttendance(r.table.rows)
    ensures IdsValid(t, AttendanceKey) ==> IdsValid(r.table, AttendanceKey)
    decreases |records|
  {
    if records == [] then Outcome(Success(true), t)
    else
      var w := Record(activities, members, t, records[0], now);
      if w.result.Failure? then
        assert FailsFirstAt(activities, members, records, 0) && records[..0] == [];
        Outcome(Failure(w.result.error), w.table)
      else
        var rest := RecordEach(activities, members, w.table, records[1..], now);
        AllPassTail(activities, members, records);
        if rest.result.Failure? then
          var k :| FailsFirstAt(activities, members, records[1..], k) &&
            rest.result.error == AuthorizeRecord(activities, members, records[1..][k]).error &&
            rest.table == UpsertAll(w.table, records[1..][..k], now);
          FailsFirstShift(activities, members, records, k);
          UpsertAllPrefixStep(t, records, k, now);
          rest
        else rest
  }

  /** A record that passes the check in front of a batch moves that batch's first failure one place on. */
  lemma FailsFirstShift(activities: seq<Activity>, members: seq<Membership>, records: seq<AttendanceInput>, k: int)
    requires records != [] && AuthorizeRecord(activities, members, records[0]).Success?
    requires FailsFirstAt(activities, members, records[1..], k)
    ensures FailsFirstAt(activities, members, records, k + 1)
  {
    assert forall j :: 1 <= j < |records| ==> records[j] == records[1..][j - 1];
  }

  /** The upserts of the first `k + 1` records are the first one's and then those of the next `k`. */
  lemma UpsertAllPrefixStep(t: Table<Attendance>, records: seq<AttendanceInput>, k: nat, now: Timestamp)
    requires k < |records|
    ensures UpsertAll(t, records[..k + 1], now) == UpsertAll(Upsert(t, records[0], now).1, records[1..][..k], now)
  {
    assert records[..k + 1][0] == records[0] && records[..k + 1][1..] == records[1..][..k];
  }

  /** The write halves alone, applied in order. */
  function UpsertAll(t: Table<Attendance>, records: seq<AttendanceInput>, now: Timestamp): Table<Attendance>
    decreases |records|
  {
    if records == [] then t else UpsertAll(Upsert(t, records[0], now).1, records[1..], now)
  }

  /** Once the shared (activity, recorder) pair passes the check, no record of
      the batch can fail it, and the loop amounts to the upserts in order. */
  lemma {:induction false} AuthorizedRecordsAllSucceed(activities: seq<Activity>, members: seq<Membership>,
      t: Table<Attendance>, records: seq<AttendanceInput>, now: Timestamp, activityId: Id, recorder: Id)
    requires AllFor(records, activityId, recorder)
    requires Authorize(activities, members, activityId, recorder).Success?
    ensures RecordEach(activities, members, t, records, now).result == Success(true)
    ensures RecordEach(activities, members, t, records, now).table == UpsertAll(t, records, now)
    decreases |records|
  {
    if records != [] {
      var w := Record(activities, members, t, records[0], now);
      assert w.table == Upsert(t, records[0], now).1;
      assert AllFor(records[1..], activityId, recorder) by {
        forall i | 0 <= i < |records[1..]| ensures records[1..][i].activityId == activityId && records[1..][i].recordedBy == recorder {
          assert records[1..][i] == records[i + 1];
        }
      }
      AuthorizedRecordsAllSucceed(activities, members, w.table, records[1..], now, activityId, recorder);
    }
  }

  /** One turn of the loop: an authorized record succeeds with its upsert, and the rest follows. */
  lemma RecordEachStep(activities: seq<Activity>, members: seq<Membership>, t: Table<Attendance>,
                       records: seq<AttendanceInput>, i: nat, now: Timestamp, activityId: Id, recorder: Id)
    requires i < |records|
    requires AllFor(records, activityId, recorder)
    requires Authorize(activities, members, activityId, recorder).Success?
    ensures Record(activities, members, t, records[i], now).result.Success?
    ensures Record(activities, members, t, records[i], now).table == Upsert(t, records[i], now).1
    ensures UpsertAll(t, records[i..], now) == UpsertAll(Upsert(t, records[i], now).1, records[i + 1..], now)
  {
  }

  /** bulkRecordAttendance as a function of the tables it reads and writes. */
  function BulkRecord(activities: seq<Activity>, members: seq<Membership>, t: Table<Attendance>,
                      records: seq<AttendanceInput>, now: Timestamp): (r: BatchOutcome)
    ensures records == [] ==> r == Outcome(Success(true), t)
    ensures records != [] && !Consistent(records) ==> r == Outcome(Failure(InconsistentBatch), t)
    ensures r.result.Success? <==>
      records == [] ||
      (Consistent(records) && Authorize(activities, members, records[0].activityId, records[0].recordedBy).Success?)
    ensures r.result.Success? ==> r.result.value && r.table == UpsertAll(t, records, now)
    ensures r.result.Failure? ==> r.table == t
    ensures UniqueAttendance(t.rows) ==> UniqueAttendance(r.table.rows)
    ensures IdsValid(t, AttendanceKey) ==> IdsValid(r.table, AttendanceKey)
  {
    if records == [] then Outcome(Success(true), t)
    else if !Consistent(records) then Outcome(Failure(InconsistentBatch), t)
    else
      match Authorize(activities, members, records[0].activityId, records[0].recordedBy)
      case Failure(e) => Outcome(Failure(e), t)
      case Success(_) =>
        AuthorizedRecordsAllSucceed(activities, members, t, records, now, records[0].activityId, records[0].recordedBy);
        RecordEach(activities, members, t, records, now)
  }

  /** The admin check both recording operations make. */
  method AuthorizeRecorder(db: Db, activityId: Id, recorder: Id) returns (r: Result<Id, Error>)
    ensures r == Authorize(db.activities.rows, db.members.rows, activityId, recorder)
  {
    var activity := FindActivity(db.activities.rows, activityId);
    if activity.None? {
      return Failure(ActivityNotFound);
    }
    var groupId := activity.value.groupId;
    if !IsGroupAdmin(db.members.rows, groupId, recorder) {
      return Failure(RecorderNotAdmin);
    }
    return Success(groupId);
  }

  /** The select-then-update-or-insert on (activity, user). */
  method UpsertRecord(db: Db, input: AttendanceInput, now: Timestamp) returns (r: Attendance)
    modifies db`attendance
    ensures (r, db.attendance) == Upsert(old(db.attendance), input, now)
  {
    if HasRecord(db.attendance.rows, input.activityId, input.userId) {
      var rows := OverwriteRecords(db.attendance.rows, input, now);
      assert HasRecord(rows, input.activityId, input.userId);
      assert Table(rows, db.attendance.nextId) == Upsert(db.attendance, input, now).1;
      db.attendance := Table(rows, db.attendance.nextId);
      r := FindRecord(rows, input.activityId, input.userId).value;
    } else {
      r := NewRecord(db.attendance, input, now);
      assert Insert(db.attendance, r) == Upsert(db.attendance, input, now).1;
      db.attendance := Insert(db.attendance, r);
    }
  }

  method RecordAttendance(db: Db, input: AttendanceInput, now: Timestamp) returns (r: Result<Attendance, Error>)
    modifies db`attendance
    ensures Outcome(r, db.attendance) == Record(db.activities.rows, db.members.rows, old(db.attendance), input, now)
    ensures r.Failure? ==> db.attendance == old(db.attendance)
    ensures r.Success? ==> ExactlyOneRecord(db.attendance.rows, input.activityId, input.userId)
  {
    var auth := AuthorizeRecorder(db, input.activityId, input.recordedBy);
    if auth.Failure? {
      return Failure(auth.error);
    }
    var row := UpsertRecord(db, input, now);
    r := Success(row);
  }

  /** The loop of bulkRecordAttendance, run once the batch has passed its checks. */
  method RecordAll(db: Db, records: seq<AttendanceInput>, now: Timestamp, ghost activityId: Id, ghost recorder: Id)
    requires AllFor(records, activityId, recorder)
    requires Authorize(db.activities.rows, db.members.rows, activityId, recorder).Success?
    modifies db`attendance
    ensures db.attendance == UpsertAll(old(db.attendance), records, now)
  {
    var i := 0;
    while i < |records|
      invariant 0 <= i <= |records|
      invariant UpsertAll(db.attendance, records[i..], now) == UpsertAll(old(db.attendance), records, now)
    {
      RecordEachStep(db.activities.rows, db.members.rows, db.attendance, records, i, now, activityId, recorder);
      var _ := RecordAttendance(db, records[i], now);
      i := i + 1;
    }
    assert records[i..] == [];
    assert db.attendance == UpsertAll(db.attendance, records[i..], now);
  }

  /** bulkRecordAttendance's checks on a non-empty batch: one activity and
      one recorder throughout, then the admin check on them. */
  method CheckBatch(db: Db, records: seq<AttendanceInput>, now: Timestamp) returns (e: Option<Error>)
    requires records != []
    ensures e.Some? <==> BulkRecord(db.activities.rows, db.members.rows, db.attendance, records, now).result.Failure?
    ensures e.Some? ==> BulkRecord(db.activities.rows, db.members.rows, db.attendance, records, now).result.error == e.value
  {
    var activityId, recordedBy := records[0].activityId, records[0].recordedBy;
    var isConsistent := forall i :: 0 <= i < |records| ==>
      records[i].activityId == activityId && records[i].recordedBy == recordedBy;
    if !isConsistent {
      return Some(InconsistentBatch);
    }
    var auth := AuthorizeRecorder(db, activityId, recordedBy);
    if auth.Failure? {
      return Some(auth.error);
    }
    return None;
  }

  method BulkRecordAttendance(db: Db, records: seq<AttendanceInput>, now: Timestamp) returns (r: Result<bool, Error>)
    modifies db`attendance
    ensures Outcome(r, db.attendance) == BulkRecord(db.activities.rows, db.members.rows, old(db.attendance), records, now)
  {
    if |records| == 0 {
      return Success(true);
    }
    var refusal := CheckBatch(db, records, now);
    if refusal.Some? {
      return Failure(refusal.value);
    }
    ghost var activityId, recordedBy := records[0].activityId, records[0].recordedBy;
    assert AllFor(records, activityId, recordedBy);
    assert BulkRecord(db.activities.rows, db.members.rows, db.attendance, records, now)
      == Outcome(Success(true), UpsertAll(db.attendance, records, now));
    RecordAll(db, records, now, activityId, recordedBy);
    r := Success(true);
  }

  /** getAttendanceByActivity: all and only the rows of the activity. */
  function GetAttendanceByActivity(db: Db, activityId: Id): (r: seq<Attendance>)
    reads db
    ensures forall a :: a in r <==> a in db.attendance.rows && a.activityId == activityId
    ensures forall a :: multiset(r)[a] == if a.activityId == activityId then multiset(db.attendance.rows)[a] else 0
  {
    var p := (a: Attendance) => a.activityId == activityId;
    FilterCounts(db.attendance.rows, p);
    Filter(db.attendance.rows, p)
  }

  /** getAttendanceByUser: null exactly when the (user, activity) pair has no row. */
  function GetAttendanceByUser(db: Db, userId: Id, activityId: Id): (r: Option<Attendance>)
    reads db
    ensures r.None? <==> forall a :: a in db.attendance.rows ==> !SamePair(a, activityId, userId)
    ensures r.Some? ==> r.value in db.attendance.rows && SamePair(r.value, activityId, userId)
  {
    FindRecord(db.attendance.rows, activityId, userId)
  }

  /** A row of the attendance history: attendance joined with its activity and the activity's group. */
  datatype HistoryEntry = HistoryEntry(
    id: Id, activityId: Id, isPresent: bool, notes: Option<string>, recordedAt: Timestamp,
    activityTitle: string, activityDate: Timestamp, groupName: string)

  /** The inner join of one attendance row: none when its activity or that activity's group is missing. */
  function HistoryEntryOf(activities: seq<Activity>, groups: seq<Group>, a: Attendance): Option<HistoryEntry> {
    match FindActivity(activities, a.activityId)
    case None => None
    case Some(activity) =>
      match FindGroup(groups, activity.groupId)
      case None => None
      case Some(group) =>
        Some(HistoryEntry(a.id, a.activityId, a.isPresent, a.notes, a.recordedAt,
                          activity.title, activity.activityDate, group.name))
  }

  /** getUserAttendanceHistory: one entry per attendance row of the user whose
      activity and group exist, carrying the row's own fields and the joined
      title, date and group name. */
  function GetUserAttendanceHistory(db: Db, userId: Id): (r: seq<HistoryEntry>)
    reads db
    ensures forall e :: e in r ==>
      (exists a :: a in db.attendance.rows && a.userId == userId && a.id == e.id &&
         HistoryEntryOf(db.activities.rows, db.groups.rows, a) == Some(e))
    ensures forall a :: (a in db.attendance.rows && a.userId == userId &&
      HistoryEntryOf(db.activities.rows, db.groups.rows, a).Some?) ==>
      HistoryEntryOf(db.activities.rows, db.groups.rows, a).value in r
    ensures var activities, groups := db.activities.rows, db.groups.rows;
      var kept := Filter(db.attendance.rows,
        (a: Attendance) => a.userId == userId && HistoryEntryOf(activities, groups, a).Some?);
      |r| == |kept| && forall i :: 0 <= i < |r| ==> HistoryEntryOf(activities, groups, kept[i]) == Some(r[i])
  {
    var activities, groups := db.activities.rows, db.groups.rows;
    var f := (a: Attendance) => if a.userId == userId then HistoryEntryOf(activities, groups, a) else None;
    FilterMapByRows(db.attendance.rows, f,
      (a: Attendance) => a.userId == userId && HistoryEntryOf(activities, groups, a).Some?,
      (x: Attendance) => HistoryEntryOf(activities, groups, x));
    FilterMapMembers(db.attendance.rows, f);
    FilterMap(db.attendance.rows, f)
  }
}
