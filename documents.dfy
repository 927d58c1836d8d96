/** documents.ts: uploads with referential checks in a fixed order, deletion
    by the owner or the uploader only, and the per-entity listings. */
module DocumentHandlers {
  import opened Types
  import opened Tables
  import opened Store

  /** An optional reference passes when it is falsy or names an existing row. */
  predicate UserRefOk(users: seq<User>, ref: Option<Id>) {
    !Truthy(ref) || FindUser(users, ref.value).Some?
  }

  predicate ActivityRefOk(activities: seq<Activity>, ref: Option<Id>) {
    !Truthy(ref) || FindActivity(activities, ref.value).Some?
  }

  predicate GroupRefOk(groups: seq<Group>, ref: Option<Id>) {
    !Truthy(ref) || FindGroup(groups, ref.value).Some?
  }

  /** uploadDocument's checks in their order: the uploader, then `user_id`,
      `activity_id` and `group_id`, each only when truthy. The result is the
      first that fails, if any. */
  function CheckUpload(users: seq<User>, activities: seq<Activity>, groups: seq<Group>, input: DocumentInput): (r: Option<Error>)
    ensures r == Some(UploaderNotFound) <==> FindUser(users, input.uploadedBy).None?
    ensures r == Some(UserNotFound) <==>
      FindUser(users, input.uploadedBy).Some? && !UserRefOk(users, input.userId)
    ensures r == Some(ActivityNotFound) <==>
      && FindUser(users, input.uploadedBy).Some? && UserRefOk(users, input.userId)
      && !ActivityRefOk(activities, input.activityId)
    ensures r == Some(GroupNotFound) <==>
      && FindUser(users, input.uploadedBy).Some? && UserRefOk(users, input.userId)
      && ActivityRefOk(activities, input.activityId) && !GroupRefOk(groups, input.groupId)
    ensures r.None? <==>
      && FindUser(users, input.uploadedBy).Some? && UserRefOk(users, input.userId)
      && ActivityRefOk(activities, input.activityId) && GroupRefOk(groups, input.groupId)
  {
    if FindUser(users, input.uploadedBy).None? then Some(UploaderNotFound)
    else if !UserRefOk(users, input.userId) then Some(UserNotFound)
    else if !ActivityRefOk(activities, input.activityId) then Some(ActivityNotFound)
    else if !GroupRefOk(groups, input.groupId) then Some(GroupNotFound)
    else None
  }

  /** The document carries every input column as given. */
  predicate Carries(d: Document, input: DocumentInput) {
    && d.userId == input.userId && d.activityId == input.activityId && d.groupId == input.groupId
    && d.title == input.title && d.description == input.description
    && d.filePath == input.filePath && d.fileName == input.fileName
    && d.fileSize == input.fileSize && d.mimeType == input.mimeType
    && d.documentType == input.documentType && d.uploadedBy == input.uploadedBy
  }

  /** The row the insert writes: the next id, the input's columns, `created_at = now`. */
  function NewDocument(t: Table<Document>, input: DocumentInput, now: Timestamp): (r: Document)
    ensures Carries(r, input) && r.id == t.nextId && r.createdAt == now
  {
    Document(t.nextId, input.userId, input.activityId, input.groupId, input.title, input.description,
             input.filePath, input.fileName, input.fileSize, input.mimeType, input.documentType,
             input.uploadedBy, now)
  }

  /** uploadDocument as a function of the tables it reads and writes. */
  function Upload(users: seq<User>, activities: seq<Activity>, groups: seq<Group>,
                  t: Table<Document>, input: DocumentInput, now: Timestamp): (r: Outcome<Result<Document, Error>, Document>)
    ensures CheckUpload(users, activities, groups, input).Some? ==>
      r == Outcome(Failure(CheckUpload(users, activities, groups, input).value), t)
    ensures r.result.Success? <==> CheckUpload(users, activities, groups, input).None?
    ensures r.result.Success? ==>
      && r.table == Insert(t, r.result.value)
      && Carries(r.result.value, input) && r.result.value.id == t.nextId && r.result.value.createdAt == now
  {
    match CheckUpload(users, activities, groups, input)
    case Some(e) => Outcome(Failure(e), t)
    case None =>
      var row := NewDocument(t, input, now);
      Outcome(Success(row), Insert(t, row))
  }

  /** The caller owns the document or uploaded it. */
  predicate MayDelete(d: Document, caller: Id) {
    d.userId == Some(caller) || d.uploadedBy == caller
  }

  /** The document does not have the id. */
  predicate OtherDocument(d: Document, id: Id) {
    d.id != id
  }

  /** deleteDocument's checks in their order: the caller must exist, then
      the document, then the caller must own or have uploaded it. */
  function DeleteRefusal(users: seq<User>, rows: seq<Document>, id: Id, caller: Id): (r: Option<Error>)
    ensures r == Some(UserNotFound) <==> FindUser(users, caller).None?
    ensures r == Some(DocumentNotFound) <==> FindUser(users, caller).Some? && FindDocument(rows, id).None?
    ensures r == Some(PermissionDenied) <==>
      FindUser(users, caller).Some? && FindDocument(rows, id).Some? && !MayDelete(FindDocument(rows, id).value, caller)
    ensures r.None? <==>
      FindUser(users, caller).Some? && FindDocument(rows, id).Some? && MayDelete(FindDocument(rows, id).value, caller)
  {
    if FindUser(users, caller).None? then Some(UserNotFound)
    else if FindDocument(rows, id).None? then Some(DocumentNotFound)
    else if !MayDelete(FindDocument(rows, id).value, caller) then Some(PermissionDenied)
    else None
  }

  /** deleteDocument as a function of the tables it reads and writes: a
      refusal leaves the table as it was; otherwise the rows with the id are
      removed and every other row stays. */
  function Delete(users: seq<User>, t: Table<Document>, id: Id, caller: Id): (r: Outcome<Result<bool, Error>, Document>)
    ensures DeleteRefusal(users, t.rows, id, caller).Some? ==>
      r == Outcome(Failure(DeleteRefusal(users, t.rows, id, caller).value), t)
    ensures r.result.Success? <==> DeleteRefusal(users, t.rows, id, caller).None?
    ensures r.result.Success? ==>
      && r.result.value
      && FindDocument(r.table.rows, id).None?
      && (forall d :: d in r.table.rows <==> d in t.rows && d.id != id)
      && r.table.nextId == t.nextId
    ensures IdsValid(t, DocumentKey) ==> IdsValid(r.table, DocumentKey)
  {
    match DeleteRefusal(users, t.rows, id, caller)
    case Some(e) => Outcome(Failure(e), t)
    case None =>
      var p := (d: Document) => OtherDocument(d, id);
      var rows := Filter(t.rows, p);
      assert IdsValid(t, DocumentKey) ==> IdsValid(Table(rows, t.nextId), DocumentKey) by {
        if IdsValid(t, DocumentKey) { FilterKeepsIds(t, p, DocumentKey); }
      }
      Outcome(Success(true), Table(rows, t.nextId))
  }

  /** The uploader can take back what they uploaded: deleting the new
      document right after a successful upload succeeds and leaves the rows
      as they were before the upload. */
  lemma UploadThenDelete(users: seq<User>, activities: seq<Activity>, groups: seq<Group>,
                         t: Table<Document>, input: DocumentInput, now: Timestamp)
    requires IdsValid(t, DocumentKey)
    requires Upload(users, activities, groups, t, input, now).result.Success?
    ensures var up := Upload(users, activities, groups, t, input, now);
      var del := Delete(users, up.table, up.result.value.id, input.uploadedBy);
      del.result == Success(true) && del.table.rows == t.rows
  {
    var up := Upload(users, activities, groups, t, input, now);
    var doc := up.result.value;
    assert up.table.rows == t.rows + [doc];
    assert FindDocument(up.table.rows, doc.id) == Some(doc) by {
      forall i | 0 <= i < |t.rows| ensures t.rows[i].id != doc.id {
        assert DocumentKey(t.rows[i]) < t.nextId;
      }
      assert (t.rows + [doc])[|t.rows|] == doc;
    }
    var p := (d: Document) => OtherDocument(d, doc.id);
    forall i | 0 <= i < |t.rows| ensures p(t.rows[i]) {
      assert DocumentKey(t.rows[i]) < t.nextId;
    }
    FilterAll(t.rows, p);
    FilterAppend(t.rows, doc, p);
  }

  /** uploadDocument's lookups, in their order. */
  method CheckUploadRefs(db: Db, input: DocumentInput) returns (e: Option<Error>)
    ensures e == CheckUpload(db.users.rows, db.activities.rows, db.groups.rows, input)
  {
    if FindUser(db.users.rows, input.uploadedBy).None? {
      return Some(UploaderNotFound);
    }
    if Truthy(input.userId) && FindUser(db.users.rows, input.userId.value).None? {
      return Some(UserNotFound);
    }
    if Truthy(input.activityId) && FindActivity(db.activities.rows, input.activityId.value).None? {
      return Some(ActivityNotFound);
    }
    if Truthy(input.groupId) && FindGroup(db.groups.rows, input.groupId.value).None? {
      return Some(GroupNotFound);
    }
    return None;
  }

  method UploadDocument(db: Db, input: DocumentInput, now: Timestamp) returns (r: Result<Document, Error>)
    modifies db`documents
    ensures Outcome(r, db.documents) == Upload(db.users.rows, db.activities.rows, db.groups.rows, old(db.documents), input, now)
  {
    var failure := CheckUploadRefs(db, input);
    if failure.Some? {
      return Failure(failure.value);
    }
    var row := NewDocument(db.documents, input, now);
    InsertKeepsIds(db.documents, row, DocumentKey);
    db.documents := Insert(db.documents, row);
    r := Success(row);
  }

  /** deleteDocument's lookups, in their order. */
  method CheckDeletion(db: Db, id: Id, userId: Id) returns (e: Option<Error>)
    ensures e == DeleteRefusal(db.users.rows, db.documents.rows, id, userId)
  {
    if FindUser(db.users.rows, userId).None? {
      return Some(UserNotFound);
    }
    var document := FindDocument(db.documents.rows, id);
    if document.None? {
      return Some(DocumentNotFound);
    }
    var doc := document.value;
    if doc.userId != Some(userId) && doc.uploadedBy != userId {
      return Some(PermissionDenied);
    }
    return None;
  }

  method DeleteDocument(db: Db, id: Id, userId: Id) returns (r: Result<bool, Error>)
    modifies db`documents
    ensures Outcome(r, db.documents) == Delete(db.users.rows, old(db.documents), id, userId)
  {
    var refusal := CheckDeletion(db, id, userId);
    if refusal.Some? {
      return Failure(refusal.value);
    }
    var p := (d: Document) => OtherDocument(d, id);
    var rows := Filter(db.documents.rows, p);
    assert Table(rows, db.documents.nextId) == Delete(db.users.rows, db.documents, id, userId).table;
    FilterKeepsIds(db.documents, p, DocumentKey);
    db.documents := Table(rows, db.documents.nextId);
    r := Success(true);
  }

  /** getDocumentById: the document with the id, or null. */
  function GetDocumentById(db: Db, id: Id): (r: Option<Document>)
    reads db
    ensures r.None? <==> forall d :: d in db.documents.rows ==> d.id != id
    ensures r.Some? ==> r.value in db.documents.rows && r.value.id == id
  {
    FindDocument(db.documents.rows, id)
  }

  /** getDocumentsByUser: "User not found" for an unknown user, otherwise
      all and only the documents whose `user_id` is the user. */
  function GetDocumentsByUser(db: Db, userId: Id): (r: Result<seq<Document>, Error>)
    reads db
    ensures r.Failure? <==> FindUser(db.users.rows, userId).None?
    ensures r.Failure? ==> r.error == UserNotFound
    ensures r.Success? ==> forall d :: d in r.value <==> d in db.documents.rows && d.userId == Some(userId)
    ensures r.Success? ==>
      forall d :: multiset(r.value)[d] == if d.userId == Some(userId) then multiset(db.documents.rows)[d] else 0
  {
    if FindUser(db.users.rows, userId).None? then Failure(UserNotFound)
    else
      var p := (d: Document) => d.userId == Some(userId);
      FilterCounts(db.documents.rows, p);
      Success(Filter(db.documents.rows, p))
  }

  /** getDocumentsByActivity: "Activity not found" for an unknown activity,
      otherwise all and only the documents attached to it. */
  function GetDocumentsByActivity(db: Db, activityId: Id): (r: Result<seq<Document>, Error>)
    reads db
    ensures r.Failure? <==> FindActivity(db.activities.rows, activityId).None?
    ensures r.Failure? ==> r.error == ActivityNotFound
    ensures r.Success? ==> forall d :: d in r.value <==> d in db.documents.rows && d.activityId == Some(activityId)
    ensures r.Success? ==>
      forall d :: multiset(r.value)[d] == if d.activityId == Some(activityId) then multiset(db.documents.rows)[d] else 0
  {
    if FindActivity(db.activities.rows, activityId).None? then Failure(ActivityNotFound)
    else
      var p := (d: Document) => d.activityId == Some(activityId);
      FilterCounts(db.documents.rows, p);
      Success(Filter(db.documents.rows, p))
  }

  /** getDocumentsByGroup: "Group not found" for an unknown group, otherwise
      all and only the documents attached to it. */
  function GetDocumentsByGroup(db: Db, groupId: Id): (r: Result<seq<Document>, Error>)
    reads db
    ensures r.Failure? <==> FindGroup(db.groups.rows, groupId).None?
    ensures r.Failure? ==> r.error == GroupNotFound
    ensures r.Success? ==> forall d :: d in r.value <==> d in db.documents.rows && d.groupId == Some(groupId)
    ensures r.Success? ==>
      forall d :: multiset(r.value)[d] == if d.groupId == Some(groupId) then multiset(db.documents.rows)[d] else 0
  {
    if FindGroup(db.groups.rows, groupId).None? then Failure(GroupNotFound)
    else
      var p := (d: Document) => d.groupId == Some(groupId);
      FilterCounts(db.documents.rows, p);
      Success(Filter(db.documents.rows, p))
  }
}
