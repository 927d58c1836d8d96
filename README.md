# Teacher-working-group server handlers, modelled in Dafny

The system is a back office for teacher working groups (MGMP and MKKS) and
school supervision in a provincial education office. Its server exposes
handlers. Each handler is a sequence of existence and permission checks,
followed by at most one write to a relational store. This project models
those handlers and proves what they promise.

The store is the class `Store.Db`. It has one field per table of the schema.
Every table is a `Tables.Table<T>`: its rows in insertion order and the next
value of its serial key. Each field's subset type keeps that table's
invariants:

- the serial ids are valid;
- for memberships, attendance and supervision assignments, at most one row
  per natural pair.

The schema declares no unique constraint on those pairs. That uniqueness is
kept only by the handlers' check-then-write logic, and the model proves it
once for each write.

Every writing handler is a method, for example
`AttendanceHandlers.RecordAttendance`. Its frame names the one table it may
change. Its `ensures` ties the result and the new table to a pure function
of the old state, such as `AttendanceHandlers.Record`. The lemmas and the
function's own contract state the properties:

- error precedence;
- what is written;
- what stays unchanged;
- idempotence and round trips;
- how operations interact, for example that assigning a school is what
  authorizes a supervision report.

The read-only handlers are functions on the store. Their contracts
characterise the listing both ways. A select-where states membership and
multiplicity. An inner join states membership and one entry per joined row,
in table order.

Files:

| file | module | contents |
|---|---|---|
| `types.dfy` | `Types` | the schema's enums, the row and input records, and the error messages |
| `tables.dfy` | `Tables` | tables as values and the query shapes (filter, first match, update-where, join-and-project) with their lemmas |
| `store.dfy` | `Store` | the table invariants, the class `Db` and the lookups by id |
| `attendance.dfy` | `AttendanceHandlers` | attendance |
| `supervision.dfy` | `SupervisionHandlers` | supervision |
| `groups.dfy` | `GroupHandlers` | groups |
| `documents.dfy` | `DocumentHandlers` | documents |
| `activities.dfy` | `ActivityHandlers` | activities |
| `users.dfy` | `UserHandlers` | users |
| `announcements.dfy` | `AnnouncementHandlers` | announcements |
| `master_data.dfy` | `MasterDataHandlers` | regions, schools, subjects and academic years |

## Model

| member | source | states |
|---|---|---|
| Store.Db.constructor | server/src/db/schema.ts:24-161 | A fresh store: every table is empty and every serial starts at 1. |
| AttendanceHandlers.Authorize | server/src/handlers/attendance.ts:10-35 | The result is "Activity not found" exactly when no activity has the id. It succeeds exactly when the activity exists and the recorder holds an `is_admin` membership in that activity's group, and it then yields that group. Otherwise it is "Recorder must be an admin of the group". No role bypasses the check. |
| AttendanceHandlers.AuthorizeRecorder | server/src/handlers/attendance.ts:10-35 | The two lookups compute exactly `Authorize` on the store. |
| AttendanceHandlers.FindRecord | server/src/handlers/attendance.ts:38-44 | Null exactly when no row exists for the (activity, user) pair. Otherwise it returns a row of that pair. |
| AttendanceHandlers.OverwriteRecords | server/src/handlers/attendance.ts:47-61 | The update keeps the number of rows, every row's id and every row's pair. Each row of the input's pair then holds the input's presence, notes and recorder, with `recorded_at = now`. Every other row is unchanged. |
| AttendanceHandlers.NewRecord | server/src/handlers/attendance.ts:62-73 | The inserted row takes the next serial id and the input's values, and `recorded_at` defaults to `now`. |
| AttendanceHandlers.UniqueHasOne | server/src/handlers/attendance.ts:38-47 | Under pair uniqueness, a pair that has a row has exactly one. |
| AttendanceHandlers.OverwriteKeepsUnique | server/src/handlers/attendance.ts:47-61 | The update branch keeps pair uniqueness and leaves exactly one row for the pair. |
| AttendanceHandlers.AppendKeepsUnique | server/src/handlers/attendance.ts:62-73 | Inserting a row for an absent pair keeps uniqueness, and the pair then has exactly one row. |
| AttendanceHandlers.Upsert | server/src/handlers/attendance.ts:37-76 | Update branch: same size, same serial, same ids. Insert branch: exactly one new row, last, with the next id. In both branches, the pair's rows and the returned row record the input at `now`, other pairs' rows are unchanged, and uniqueness and valid ids are preserved. |
| AttendanceHandlers.UpsertRecord | server/src/handlers/attendance.ts:37-76 | The method's result and new attendance table are exactly `Upsert` of the old table. |
| AttendanceHandlers.Record | server/src/handlers/attendance.ts:7-81 | Fails exactly when `Authorize` fails, with `Authorize`'s error, and then leaves the table unchanged. On success, the returned row records the input and is in the table, and the row and table are exactly those of `Upsert`. Uniqueness and ids are preserved. |
| AttendanceHandlers.RecordAttendance | server/src/handlers/attendance.ts:7-81 | The method computes `Record`. A failure writes nothing. A success leaves exactly one row for the pair. Only the attendance table may change. |
| AttendanceHandlers.RecordedRowIsFound | server/src/handlers/attendance.ts:38-76 | After a successful recording, the pair's lookup returns the row just written. |
| AttendanceHandlers.SecondRecordOverwrites | server/src/handlers/attendance.ts:38-76 | A second recording for the same pair by the same recorder succeeds without growing the table. The pair keeps exactly one row, with the same id and the second call's values. |
| AttendanceHandlers.RecordEach | server/src/handlers/attendance.ts:186-188 | The loop applies recordAttendance in input order. It succeeds exactly when every record passes the check, and then returns `true` with the table holding every upsert in order (`UpsertAll`). Otherwise there is a first record that fails the check: the loop returns its error, and the table holds the upserts of the records before it. It preserves uniqueness and ids. |
| AttendanceHandlers.AuthorizedRecordsAllSucceed | server/src/handlers/attendance.ts:146-188 | Once the shared (activity, recorder) pair is authorized, every record of a consistent batch succeeds. The loop's effect is then the upserts in order. |
| AttendanceHandlers.RecordEachStep | server/src/handlers/attendance.ts:186-188 | One turn of the loop: an authorized record succeeds with exactly its upsert. |
| AttendanceHandlers.BulkRecord | server/src/handlers/attendance.ts:139-195 | An empty batch gives `true` and no write. An inconsistent batch fails before any lookup and writes nothing. Success happens exactly when the batch is empty, or consistent and authorized, and the effect is then the upserts in order. Every failure leaves the table unchanged. Uniqueness and ids are preserved. |
| AttendanceHandlers.CheckBatch | server/src/handlers/attendance.ts:146-183 | The consistency and admin checks refuse exactly the non-empty batches that `BulkRecord` refuses, with the same error. |
| AttendanceHandlers.RecordAll | server/src/handlers/attendance.ts:186-188 | The loop over an authorized batch leaves the attendance table equal to the upserts in order. |
| AttendanceHandlers.BulkRecordAttendance | server/src/handlers/attendance.ts:139-195 | The method computes `BulkRecord`, changing only the attendance table. |
| AttendanceHandlers.GetAttendanceByActivity | server/src/handlers/attendance.ts:83-95 | All and only the rows of the activity, each as often as in the table. |
| AttendanceHandlers.GetAttendanceByUser | server/src/handlers/attendance.ts:122-137 | Null exactly when the (user, activity) pair has no row. Otherwise it returns a row of that pair. |
| AttendanceHandlers.GetUserAttendanceHistory | server/src/handlers/attendance.ts:97-120 | Every entry comes from one of the user's attendance rows joined with its activity and that activity's group. Every such row whose activity and group exist yields its entry. There is exactly one entry per such row, in table order. |
| SupervisionHandlers.CheckSupervisor | server/src/handlers/supervision.ts:98-120 | The checks run in this order: supervisor missing, then role outside {pengawas_sekolah, pengawas_bina, kepala_bidang}, then school missing. Each error is stated as an if-and-only-if, and no error happens exactly when all three pass. |
| SupervisionHandlers.CheckSupervisorRefs | server/src/handlers/supervision.ts:98-120 | The lookups compute exactly `CheckSupervisor` on the store. |
| SupervisionHandlers.UniqueHasOne | server/src/handlers/supervision.ts:122-133 | Under pair uniqueness, an assigned pair has exactly one row. |
| SupervisionHandlers.InsertKeepsUnique | server/src/handlers/supervision.ts:135-141 | Inserting an absent pair keeps uniqueness and leaves exactly one row for it. |
| SupervisionHandlers.Assign | server/src/handlers/supervision.ts:96-148 | A failed check returns its error and writes nothing. Otherwise the result is `true`. An existing assignment writes nothing. A new one inserts exactly one row stamped `now`. Uniqueness and ids are preserved, and after success the pair has exactly one row. |
| SupervisionHandlers.AssignIdempotent | server/src/handlers/supervision.ts:122-143 | Assigning twice is assigning once: the second call returns what the first did and writes nothing. |
| SupervisionHandlers.AssignSchoolToSupervisor | server/src/handlers/supervision.ts:96-148 | The method computes `Assign`, changing only the assignment table. |
| SupervisionHandlers.Remove | server/src/handlers/supervision.ts:174-188 | No row for the pair remains. Every other assignment stays, as often as before. The serial is kept, and uniqueness and ids are preserved. |
| SupervisionHandlers.RemoveSchoolSupervision | server/src/handlers/supervision.ts:174-188 | It always returns `true`, and the table becomes `Remove` of the old one. |
| SupervisionHandlers.AssignThenRemove | server/src/handlers/supervision.ts:96-188 | Removing a fresh assignment restores the rows as they were before it. |
| SupervisionHandlers.Report | server/src/handlers/supervision.ts:8-66 | The three checks' errors come first, then "does not have authority" when the pair is unassigned, and no failure writes anything. Success happens exactly when the checks pass and the assignment exists. It then appends exactly one report with the next id, `created_at = now` and every input field. |
| SupervisionHandlers.CreateSupervisionReport | server/src/handlers/supervision.ts:8-66 | The method computes `Report`. It changes only the report table, so the assignments are untouched. |
| SupervisionHandlers.AssignGrantsAuthority | server/src/handlers/supervision.ts:34-45 | After a successful assignment, a report on that school by that supervisor succeeds. |
| SupervisionHandlers.RemoveRevokesAuthority | server/src/handlers/supervision.ts:34-45 | Once the assignment is removed, a report whose other checks pass fails with "does not have authority" and writes nothing. |
| SupervisionHandlers.GetReportsBySupervisor | server/src/handlers/supervision.ts:68-80 | All and only the supervisor's reports, each as often as in the table. |
| SupervisionHandlers.GetReportsBySchool | server/src/handlers/supervision.ts:82-94 | All and only the reports on the school, each as often as in the table. |
| SupervisionHandlers.GetSupervisedSchools | server/src/handlers/supervision.ts:150-172 | Every entry comes from an assignment of the supervisor joined with its school, and carries the school's id and `assigned_at`. Every assignment whose school exists yields its entry. There is exactly one entry per such assignment, in table order. |
| GroupHandlers.UniqueHasOne | server/src/handlers/groups.ts:59-69 | Under pair uniqueness, a (group, user) pair with a membership has exactly one. |
| GroupHandlers.NewGroup | server/src/handlers/groups.ts:9-21 | The new group carries the input's columns, the next id, `created_at = now` and `is_active = true`. |
| GroupHandlers.CreateGroup | server/src/handlers/groups.ts:7-26 | It returns `NewGroup` and appends it to the groups table, changing nothing else. |
| GroupHandlers.AddMember | server/src/handlers/groups.ts:56-84 | It returns `true` exactly when the pair had no membership, and then inserts exactly one row with the given flag. Otherwise it returns `false` and writes nothing. Afterwards the pair always has a membership. Uniqueness and ids are preserved. |
| GroupHandlers.AddMemberTwice | server/src/handlers/groups.ts:59-69 | A second add of the same pair returns `false` and leaves the table as the first left it. |
| GroupHandlers.AddGroupMember | server/src/handlers/groups.ts:56-84 | The method computes `AddMember`, changing only the membership table. |
| GroupHandlers.RemoveMember | server/src/handlers/groups.ts:88-93 | No row for the pair remains. Every other membership stays, as often as before. Uniqueness and ids are preserved. |
| GroupHandlers.AddThenRemove | server/src/handlers/groups.ts:56-100 | Removing a member who was just added restores the rows. |
| GroupHandlers.RemoveGroupMember | server/src/handlers/groups.ts:86-100 | It always returns `true`, and the table becomes `RemoveMember` of the old one. |
| GroupHandlers.SetAdmin | server/src/handlers/groups.ts:128-134 | Exactly the rows of the pair take the flag, and all other rows and the size are kept. Without a membership nothing changes. Uniqueness and ids are preserved. |
| GroupHandlers.SetAdminDecidesRecorder | server/src/handlers/groups.ts:128-134 | Setting the flag makes the member an admin of the group, as attendance recording requires. Clearing it on a unique membership removes that right. |
| GroupHandlers.SetGroupAdmin | server/src/handlers/groups.ts:126-141 | It always returns `true`, and the table becomes `SetAdmin` of the old one. |
| GroupHandlers.GetGroups | server/src/handlers/groups.ts:28-40 | All and only the active groups, each as often as in the table. |
| GroupHandlers.GetGroupById | server/src/handlers/groups.ts:42-54 | Null exactly when no group has the id. Otherwise it returns a group with that id. |
| GroupHandlers.GetGroupMembers | server/src/handlers/groups.ts:102-124 | Every entry comes from a membership of the group joined with its user. Every membership whose user exists yields its entry. There is exactly one entry per such membership, in table order. |
| Tables.FilterMapMembers | server/src/handlers/groups.ts:114-116 | A partial per-row map over a table yields exactly the images of the rows it is defined on, the inner join's membership half. |
| Tables.FilterMapByRows | server/src/handlers/groups.ts:114-116 | The partial map yields one result per row it is defined on, in table order, and that result is the joined row for that row: an inner join neither drops nor repeats a left row with a match. |
| DocumentHandlers.CheckUpload | server/src/handlers/documents.ts:10-53 | The checks, each stated as an if-and-only-if in this order: the uploader is missing; the truthy `user_id` is missing; the truthy `activity_id` is missing; the truthy `group_id` is missing. No error happens exactly when all four pass. |
| DocumentHandlers.CheckUploadRefs | server/src/handlers/documents.ts:10-53 | The lookups compute exactly `CheckUpload` on the store. |
| DocumentHandlers.NewDocument | server/src/handlers/documents.ts:56-73 | The new row carries every input column, the next id and `created_at = now`. |
| DocumentHandlers.Upload | server/src/handlers/documents.ts:7-78 | A failed check returns its error and writes nothing. Success happens exactly when all checks pass, and then appends exactly one document carrying every input field. The database's 32-bit integer range is not part of the checks (see "Left out"). |
| DocumentHandlers.UploadDocument | server/src/handlers/documents.ts:7-78 | The method computes `Upload`, changing only the document table. Like `Upload`, it leaves out the 32-bit integer range (see "Left out"). |
| DocumentHandlers.DeleteRefusal | server/src/handlers/documents.ts:155-178 | The refusals, each an if-and-only-if: "User not found" for an unknown caller; otherwise "Document not found"; otherwise "Permission denied" unless the caller is the document's `user_id` or `uploaded_by`. |
| DocumentHandlers.CheckDeletion | server/src/handlers/documents.ts:155-178 | The lookups compute exactly `DeleteRefusal` on the store. |
| DocumentHandlers.Delete | server/src/handlers/documents.ts:152-190 | A refusal returns its error and writes nothing. Success happens exactly when there is no refusal. It then returns `true`, removes the rows with the id and keeps every other row and the serial. Ids stay valid. |
| DocumentHandlers.DeleteDocument | server/src/handlers/documents.ts:152-190 | The method computes `Delete`, changing only the document table. |
| DocumentHandlers.UploadThenDelete | server/src/handlers/documents.ts:7-190 | The uploader may delete the document they just uploaded, and doing so restores the rows as they were. |
| DocumentHandlers.GetDocumentById | server/src/handlers/documents.ts:192-204 | Null exactly when no document has the id. Otherwise it returns a document with that id, so it is null after a successful delete. |
| DocumentHandlers.GetDocumentsByUser | server/src/handlers/documents.ts:80-102 | "User not found" exactly when the user is missing. Otherwise it returns all and only the documents whose `user_id` is the user, each as often as it occurs in the table. |
| DocumentHandlers.GetDocumentsByActivity | server/src/handlers/documents.ts:104-126 | "Activity not found" exactly when the activity is missing. Otherwise it returns all and only that activity's documents, each as often as it occurs in the table. |
| DocumentHandlers.GetDocumentsByGroup | server/src/handlers/documents.ts:128-150 | "Group not found" exactly when the group is missing. Otherwise it returns all and only that group's documents, each as often as it occurs in the table. |
| ActivityHandlers.NewActivity | server/src/handlers/activities.ts:10-22 | The new row carries the input's columns, the next id and `created_at = now`, with its status `draft` whatever the input holds. |
| ActivityHandlers.CreateActivity | server/src/handlers/activities.ts:7-31 | It returns `NewActivity` and appends it, changing nothing else. |
| Tables.AllOfConcat | server/src/handlers/activities.ts:54-57 | Conditions pushed one list after another hold together exactly when each list holds, as the `and(...conditions)` of getActivities and getUsers requires. |
| ActivityHandlers.ConditionsMeanMatches | server/src/handlers/activities.ts:35-57 | The pushed condition list holds exactly when every supplied filter holds, with inclusive date bounds. |
| ActivityHandlers.GetActivities | server/src/handlers/activities.ts:33-68 | All and only the activities meeting every supplied filter, each as often as in the table. |
| ActivityHandlers.NoQueryListsAll | server/src/handlers/activities.ts:54-61 | With no filter, the whole table in table order. |
| ActivityHandlers.GetActivityById | server/src/handlers/activities.ts:70-82 | Null exactly when no activity has the id. Otherwise it returns an activity with that id. |
| ActivityHandlers.GetActivitiesByGroup | server/src/handlers/activities.ts:135-147 | All and only the group's activities, each as often as in the table. |
| ActivityHandlers.UpdatedActivityFound | server/src/handlers/activities.ts:86-90 | After the update, the lookup by id finds a row with the new status. |
| ActivityHandlers.SetStatus | server/src/handlers/activities.ts:84-97 | It returns `true` exactly when some row has the id. Exactly those rows take the new status, and every other row is kept. Without a match nothing changes. Ids stay valid. |
| ActivityHandlers.AnyStatusReachable | server/src/handlers/activities.ts:84-97 | There is no lifecycle rule: an existing activity can move from any status to any other. |
| ActivityHandlers.UpdateActivityStatus | server/src/handlers/activities.ts:84-97 | The method computes `SetStatus`, changing only the activity table. |
| ActivityHandlers.MembershipCount | server/src/handlers/activities.ts:119-122 | The count of the user's memberships in the group is positive exactly when a membership exists. |
| ActivityHandlers.Upcoming | server/src/handlers/activities.ts:99-133 | An activity appears exactly when it is dated `now` or later and the user has a membership in its group, whatever its status. |
| ActivityHandlers.UniqueCountAtMostOne | server/src/handlers/activities.ts:119-122 | Under unique memberships, the join matches an activity at most once. |
| ActivityHandlers.UpcomingHead | server/src/handlers/activities.ts:119-125 | Under unique memberships, one activity contributes itself once when upcoming for the user, and nothing otherwise. |
| ActivityHandlers.UpcomingUnderUniqueMemberships | server/src/handlers/activities.ts:99-133 | Under unique memberships, the join is the filter of the upcoming activities of the user's groups, in table order, each once. |
| ActivityHandlers.GetUpcomingActivities | server/src/handlers/activities.ts:99-133 | All and only the activities of the user's groups dated `now` or later. |
| UserHandlers.NewUser | server/src/handlers/users.ts:13-24 | The new row carries the input's columns, the given hash in place of the password, the next id, `is_active = true` and no last login. |
| UserHandlers.CreateUser | server/src/handlers/users.ts:7-33 | It returns `NewUser` with the hash of the password and appends it. The stored hash is not the plaintext password, which follows from the assumption on the supplied hash. |
| UserHandlers.ConditionsMeanMatches | server/src/handlers/users.ts:40-56 | The pushed condition list holds exactly when every applied filter holds. Role and ids apply only when truthy, and `is_active` applies whenever given. |
| UserHandlers.GetUsers | server/src/handlers/users.ts:35-69 | All and only the users meeting every applied filter, each as often as in the table. |
| UserHandlers.NoQueryListsAll | server/src/handlers/users.ts:59-63 | With no filter, the whole table in table order. |
| UserHandlers.ZeroIdsIgnored | server/src/handlers/users.ts:46-56 | A region or school id of 0 filters nothing, while `is_active = false` does filter. |
| UserHandlers.GetUserById | server/src/handlers/users.ts:71-83 | Null exactly when no user has the id. Otherwise it returns a user with that id. |
| UserHandlers.GetUsersByRole | server/src/handlers/users.ts:99-111 | All and only the users holding the role, each as often as in the table. |
| UserHandlers.UpdatedUserFound | server/src/handlers/users.ts:87-90 | After the update, the lookup by id finds a row with the new flag. |
| UserHandlers.SetActive | server/src/handlers/users.ts:85-97 | It returns `true` exactly when some row has the id. Exactly those rows take the new flag, and every other row is kept. Without a match nothing changes. Ids stay valid. |
| UserHandlers.UpdateUserStatus | server/src/handlers/users.ts:85-97 | The method computes `SetActive`, changing only the user table. |
| AnnouncementHandlers.NewAnnouncement | server/src/handlers/announcements.ts:9-16 | The new row carries title, content and author, the next id, `created_at = now` and `is_active = true`. |
| AnnouncementHandlers.CreateAnnouncement | server/src/handlers/announcements.ts:7-23 | It returns `NewAnnouncement` and appends it, changing nothing else. |
| AnnouncementHandlers.CreatedIsActive | server/src/handlers/announcements.ts:7-37 | A new announcement is listed among the active ones. |
| AnnouncementHandlers.GetActiveAnnouncements | server/src/handlers/announcements.ts:25-37 | All and only the active announcements, each as often as in the table. |
| AnnouncementHandlers.GetAllAnnouncements | server/src/handlers/announcements.ts:39-50 | Every announcement, active or not, in table order. |
| Store.FindAnnouncement | server/src/handlers/announcements.ts:54-60 | Null exactly when no row has the id. Otherwise it returns a row with that id. |
| AnnouncementHandlers.UpdatedAnnouncementFound | server/src/handlers/announcements.ts:54-58 | After the update, the lookup by id finds a row with the new flag. |
| AnnouncementHandlers.SetActive | server/src/handlers/announcements.ts:52-65 | It returns `true` exactly when some row has the id. Exactly those rows take the flag, and every other row is kept. Without a match nothing changes. Ids stay valid. |
| AnnouncementHandlers.DeactivatedNotListed | server/src/handlers/announcements.ts:25-65 | After deactivation no announcement with the id is listed as active. After reactivation it is listed again. |
| AnnouncementHandlers.UpdateAnnouncementStatus | server/src/handlers/announcements.ts:52-65 | The method computes `SetActive`, changing only the announcement table. |
| AnnouncementHandlers.DeleteById | server/src/handlers/announcements.ts:67-79 | It returns `true` exactly when some row had the id. No row with the id remains, and every other row stays, each as often as before. Without a match nothing changes. Ids stay valid. |
| AnnouncementHandlers.DeleteTwice | server/src/handlers/announcements.ts:67-79 | A second delete of the same id returns `false` and changes nothing. |
| AnnouncementHandlers.CreateThenDelete | server/src/handlers/announcements.ts:7-79 | Deleting a just-created announcement by its id returns `true` and restores the rows. |
| AnnouncementHandlers.DeleteAnnouncement | server/src/handlers/announcements.ts:67-79 | The method computes `DeleteById`, changing only the announcement table. |
| MasterDataHandlers.GetRegions | server/src/handlers/master_data.ts:7-18 | Every region, in insertion order. |
| MasterDataHandlers.GetAcademicYears | server/src/handlers/master_data.ts:54-65 | Every academic year, in insertion order. |
| MasterDataHandlers.GetSchools | server/src/handlers/master_data.ts:20-35 | With a region id (0 included), all and only that region's schools, each as often as in the table. Otherwise every school. |
| MasterDataHandlers.GetSubjects | server/src/handlers/master_data.ts:37-52 | With a level, all and only that level's subjects, each as often as in the table. Otherwise every subject. |
| MasterDataHandlers.CreateRegion | server/src/handlers/master_data.ts:67-82 | It appends one region with the given name and code, the next id and `created_at = now`. There is no precondition. |
| MasterDataHandlers.CreateSubject | server/src/handlers/master_data.ts:114-130 | It appends one subject with the given fields, the next id and `created_at = now`. There is no precondition. |
| MasterDataHandlers.NewSchool | server/src/handlers/master_data.ts:84-112 | It fails exactly when no region has the id, with the region-not-found error for that id, and inserts nothing. Otherwise it appends one school with the given fields and region. |
| MasterDataHandlers.RegionMessage | server/src/handlers/master_data.ts:92-93 | For every id, the refusal reads "Region with id ", the id's rendering, " does not exist". For an id of 0 or more the rendering is a non-empty string of digits that `DecimalValue` reads back as the id. For a negative id it is a minus sign followed by such a string for the id's magnitude. |
| Types.NatToStringReadsBack | server/src/handlers/master_data.ts:93 | The decimal rendering the message uses is a non-empty string of digits, with no leading zero unless the number is 0, and `DecimalValue` reads it back as the number. |
| MasterDataHandlers.CreatedRegionAcceptsSchools | server/src/handlers/master_data.ts:67-112 | A school can be created in a region just created. |
| MasterDataHandlers.CreateSchool | server/src/handlers/master_data.ts:84-112 | The method computes `NewSchool`, changing only the school table. |

## Left out

- SQL and drizzle mechanics: query building, `returning()`, `rowCount`, a
  column list chosen in a `select`. A `select` without an ordering is
  modelled as table order. That is the order the handlers' callers observe
  on a fresh table, but the database does not promise it.
- Concurrency and transactions. Each handler is one sequential step. The
  check-then-write paths of attendance, membership and supervision are not
  atomic in the source, and interleavings are not modelled.
- `console.error` logging and the catch-and-rethrow wrappers. A thrown
  error is a `Failure` value.
- The clock: `new Date()` and the `defaultNow()` column defaults read one
  `now` parameter per call. A batch recording uses the same `now` for every
  record.
- CreateUser: `Bun.password.hash` is a function parameter. The only thing
  assumed of it is that it does not return the password given.
- String-to-enum casts (`status as any`, `role as any`, `level as
  EducationLevel`) become enum-typed parameters. A string outside the enum
  would be a database error; that path is not modelled.
- Numbers are unbounded integers. The database's `serial` and `integer`
  columns are 32-bit, and the handlers pass `z.number()` inputs straight to
  them. An id, a reference or a `file_size` outside the 32-bit range, or a
  number with a fraction, is a database error in the source. In the model
  it is an ordinary value, and that error path is not modelled.
- Upload: for a `file_size` of 2^31 or more, or an out-of-range or
  fractional id, the source's insert fails after every check has passed,
  while `Upload` succeeds. Its "success exactly when all checks pass" holds
  only for inputs in the 32-bit integer range.
- UploadDocument: computes `Upload`, so it has the same gap for
  out-of-range `file_size` values and ids.
- AddMember: the default `isAdmin = false` of addGroupMember is left to
  the caller. The model takes the flag explicitly.
- BulkRecord: the partial-failure path of the loop (earlier writes kept)
  is modelled by `RecordEach`. It is unreachable in bulkRecordAttendance,
  because every record shares the activity and recorder that passed the
  check before the loop.
- Upcoming: the inner join yields an activity once per membership of the
  user in its group. The "each activity once" form holds only under unique
  memberships, which the membership ledger keeps.
- Activity lifecycle rules, a super-admin bypass for attendance, and a
  scope resolver do not exist in the handlers. None is modelled.
- auth.ts, dashboard.ts and index.ts are not part of this model: SHA-256,
  hand-rolled tokens, placeholder statistics and HTTP wiring. Neither are
  the client and the validation schemas.
- The constructor and the state-changing methods are specified with `old`
  and frames. Their contracts tie each method to the pure function that
  carries the proved properties.
