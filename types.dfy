/** The enums, row types and input records of the relational schema.
    Ids are integers (serial primary keys start at 1), timestamps are
    milliseconds since the epoch, text columns are strings and nullable
    columns are `Option`s. */
module Types {

  type Id = int
  type Timestamp = int

  datatype Option<+T> = None | Some(value: T)

  datatype Result<+T, +E> = Success(value: T) | Failure(error: E)

  /** `user_role`: the eight roles, in declaration order. */
  datatype Role =
    | SuperAdmin | KepalaCabdin | KepalaBidang | PengawasBina
    | PengawasSekolah | AdminGrup | Guru | KepalaSekolah

  /** `group_type` */
  datatype GroupType = Mgmp | Mkks

  /** `education_level` */
  datatype EducationLevel = Sd | Smp | Sma | Smk

  /** `activity_status` */
  datatype ActivityStatus = Draft | Published | Ongoing | Completed | Cancelled

  /** `document_type` */
  datatype DocumentType =
    | PelatihanSertifikat | Workshop | Seminar | PendidikanFormal
    | Penelitian | KaryaIlmiah | OtherDocument

  /** `funding_source` */
  datatype FundingSource = Apbd | Apbn | Swadaya | Sponsor | OtherFunding

  // Rows, one datatype per table, with the columns in declaration order.

  datatype Region = Region(id: Id, name: string, code: string, createdAt: Timestamp)

  datatype School = School(
    id: Id, name: string, npsn: string, address: string,
    level: EducationLevel, regionId: Id, createdAt: Timestamp)

  datatype Subject = Subject(
    id: Id, name: string, code: string, level: EducationLevel, createdAt: Timestamp)

  datatype AcademicYear = AcademicYear(
    id: Id, year: string, startDate: Timestamp, endDate: Timestamp,
    isActive: bool, createdAt: Timestamp)

  datatype User = User(
    id: Id, username: string, email: string, passwordHash: string,
    fullName: string, nip: Option<string>, role: Role,
    schoolId: Option<Id>, regionId: Option<Id>, level: Option<EducationLevel>,
    isActive: bool, lastLogin: Option<Timestamp>, createdAt: Timestamp)

  datatype Group = Group(
    id: Id, name: string, groupType: GroupType, level: EducationLevel,
    regionId: Id, subjectId: Option<Id>, description: Option<string>,
    isActive: bool, createdAt: Timestamp)

  datatype Membership = Membership(
    id: Id, groupId: Id, userId: Id, isAdmin: bool, joinedAt: Timestamp)

  datatype Activity = Activity(
    id: Id, groupId: Id, title: string, description: Option<string>,
    activityDate: Timestamp, startTime: string, endTime: string,
    location: string, speaker: Option<string>, fundingSource: FundingSource,
    status: ActivityStatus, createdBy: Id, createdAt: Timestamp)

  datatype Attendance = Attendance(
    id: Id, activityId: Id, userId: Id, isPresent: bool,
    notes: Option<string>, recordedBy: Id, recordedAt: Timestamp)

  datatype Document = Document(
    id: Id, userId: Option<Id>, activityId: Option<Id>, groupId: Option<Id>,
    title: string, description: Option<string>, filePath: string,
    fileName: string, fileSize: int, mimeType: string,
    documentType: DocumentType, uploadedBy: Id, createdAt: Timestamp)

  datatype SupervisionReport = SupervisionReport(
    id: Id, supervisorId: Id, schoolId: Id, visitDate: Timestamp,
    title: string, description: Option<string>, filePath: string,
    fileName: string, createdAt: Timestamp)

  /** A row of `school_supervision`: the assignment of a school to a supervisor. */
  datatype Supervision = Supervision(
    id: Id, supervisorId: Id, schoolId: Id, assignedAt: Timestamp)

  datatype Announcement = Announcement(
    id: Id, title: string, content: string, isActive: bool,
    createdBy: Id, createdAt: Timestamp)

  // Inputs of the create operations.

  datatype UserInput = UserInput(
    username: string, email: string, password: string, fullName: string,
    nip: Option<string>, role: Role, schoolId: Option<Id>,
    regionId: Option<Id>, level: Option<EducationLevel>)

  datatype GroupInput = GroupInput(
    name: string, groupType: GroupType, level: EducationLevel, regionId: Id,
    subjectId: Option<Id>, description: Option<string>)

  datatype ActivityInput = ActivityInput(
    groupId: Id, title: string, description: Option<string>,
    activityDate: Timestamp, startTime: string, endTime: string,
    location: string, speaker: Option<string>, fundingSource: FundingSource,
    createdBy: Id)

  datatype AttendanceInput = AttendanceInput(
    activityId: Id, userId: Id, isPresent: bool, notes: Option<string>, recordedBy: Id)

  datatype DocumentInput = DocumentInput(
    userId: Option<Id>, activityId: Option<Id>, groupId: Option<Id>,
    title: string, description: Option<string>, filePath: string,
    fileName: string, fileSize: int, mimeType: string,
    documentType: DocumentType, uploadedBy: Id)

  datatype ReportInput = ReportInput(
    supervisorId: Id, schoolId: Id, visitDate: Timestamp, title: string,
    description: Option<string>, filePath: string, fileName: string)

  datatype AnnouncementInput = AnnouncementInput(title: string, content: string, createdBy: Id)

  // Optional filters of the list queries; an absent field is `None`.

  datatype UsersQuery = UsersQuery(
    role: Option<Role>, regionId: Option<Id>, schoolId: Option<Id>, isActive: Option<bool>)

  datatype ActivitiesQuery = ActivitiesQuery(
    groupId: Option<Id>, status: Option<ActivityStatus>,
    dateFrom: Option<Timestamp>, dateTo: Option<Timestamp>)

  /** JavaScript truthiness of a nullable numeric id: null and 0 are falsy. */
  predicate Truthy(x: Option<Id>) {
    x.Some? && x.value != 0
  }

  /** The errors the handlers throw, one per distinct message. */
  datatype Error =
    | ActivityNotFound
    | RecorderNotAdmin
    | InconsistentBatch
    | SupervisorNotFound
    | NotSupervisorRole
    | SchoolNotFound
    | NoAuthority
    | UploaderNotFound
    | UserNotFound
    | GroupNotFound
    | DocumentNotFound
    | PermissionDenied
    | RegionNotFound(regionId: Id)

  /** The message each error carries. */
  function Message(e: Error): string {
    match e
    case ActivityNotFound => "Activity not found"
    case RecorderNotAdmin => "Recorder must be an admin of the group"
    case InconsistentBatch => "All attendance records must belong to the same activity and recorder"
    case SupervisorNotFound => "Supervisor not found"
    case NotSupervisorRole => "User does not have supervisor role"
    case SchoolNotFound => "School not found"
    case NoAuthority => "Supervisor does not have authority over this school"
    case UploaderNotFound => "Uploader user not found"
    case UserNotFound => "User not found"
    case GroupNotFound => "Group not found"
    case DocumentNotFound => "Document not found"
    case PermissionDenied => "Permission denied: You can only delete your own documents"
    case RegionNotFound(id) => "Region with id " + IntToString(id) + " does not exist"
  }

  /** Decimal rendering of an integer, as a template literal renders it. */
  function IntToString(n: int): string {
    if n < 0 then "-" + NatToString(-n) else NatToString(n)
  }

  function NatToString(n: nat): string {
    if n < 10 then [DigitChar(n)] else NatToString(n / 10) + [DigitChar(n % 10)]
  }

  function DigitChar(d: nat): char
    requires d < 10
  {
    "0123456789"[d]
  }

  /** The digit character of `d` is a digit whose distance from '0' is `d`. */
  lemma DigitCharValue(d: nat)
    requires d < 10
    ensures IsDigit(DigitChar(d)) && DigitChar(d) as int - '0' as int == d
  {
    assert "0123456789" == ['0', '1', '2', '3', '4', '5', '6', '7', '8', '9'];
    if d == 0 {} else if d == 1 {} else if d == 2 {} else if d == 3 {} else if d == 4 {}
    else if d == 5 {} else if d == 6 {} else if d == 7 {} else if d == 8 {}
  }

  predicate IsDigit(c: char) {
    '0' <= c <= '9'
  }

  /** A non-empty string of decimal digits. */
  predicate IsDecimal(s: string) {
    s != [] && forall i :: 0 <= i < |s| ==> IsDigit(s[i])
  }

  /** The number a string of decimal digits denotes, read most significant digit first. */
  function DecimalValue(s: string): int {
    if s == [] then 0 else DecimalValue(s[..|s| - 1]) * 10 + (s[|s| - 1] as int - '0' as int)
  }

  /** The rendering of a natural number is a non-empty string of digits,
      without a leading zero unless the number is zero, and reads back as
      that number. */
  lemma {:induction false} NatToStringReadsBack(n: nat)
    ensures var s := NatToString(n);
      && IsDecimal(s)
      && (s[0] == '0' ==> n == 0)
      && DecimalValue(s) == n
  {
    DigitCharValue(n % 10);
    if n >= 10 {
      NatToStringReadsBack(n / 10);
      var s := NatToString(n);
      assert s[..|s| - 1] == NatToString(n / 10);
    }
  }
}
