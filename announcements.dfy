/** announcements.ts: creating announcements, the two listings, the active
    flag and deletion by id. */
module AnnouncementHandlers {
  import opened Types
  import opened Tables
  import opened Store

  /** The row createAnnouncement inserts: `is_active` defaults to true. */
  function NewAnnouncement(t: Table<Announcement>, input: AnnouncementInput, now: Timestamp): (r: Announcement)
    ensures r.id == t.nextId && r.isActive && r.createdAt == now
    ensures r.title == input.title && r.content == input.content && r.createdBy == input.createdBy
  {
    Announcement(t.nextId, input.title, input.content, true, input.createdBy, now)
  }

  method CreateAnnouncement(db: Db, input: AnnouncementInput, now: Timestamp) returns (r: Announcement)
    modifies db`announcements
    ensures r == NewAnnouncement(old(db.announcements), input, now)
    ensures db.announcements == Insert(old(db.announcements), r)
  {
    r := NewAnnouncement(db.announcements, input, now);
    InsertKeepsIds(db.announcements, r, AnnouncementKey);
    db.announcements := Insert(db.announcements, r);
  }

  /** getActiveAnnouncements: all and only the active announcements. */
  function GetActiveAnnouncements(db: Db): (r: seq<Announcement>)
    reads db
    ensures forall a :: a in r <==> a in db.announcements.rows && a.isActive
    ensures forall a :: multiset(r)[a] == if a.isActive then multiset(db.announcements.rows)[a] else 0
  {
    var p := (a: Announcement) => a.isActive;
    FilterCounts(db.announcements.rows, p);
    Filter(db.announcements.rows, p)
  }

  /** getAllAnnouncements: every announcement, active or not. */
  function GetAllAnnouncements(db: Db): (r: seq<Announcement>)
    reads db
    ensures r == db.announcements.rows
  {
    db.announcements.rows
  }

  /** A new announcement is listed among the active ones. */
  lemma CreatedIsActive(db: Db, input: AnnouncementInput, now: Timestamp)
    ensures var a := NewAnnouncement(db.announcements, input, now);
      a in Filter(Insert(db.announcements, a).rows, (x: Announcement) => x.isActive)
  {
  }

  /** After the update, the lookup by id finds a row with the new flag. */
  lemma UpdatedAnnouncementFound(before: seq<Announcement>, after: seq<Announcement>, id: Id, isActive: bool)
    requires |after| == |before|
    requires forall i :: 0 <= i < |before| ==>
      after[i] == if before[i].id == id then before[i].(isActive := isActive) else before[i]
    requires exists i :: 0 <= i < |before| && before[i].id == id
    ensures FindAnnouncement(after, id).Some? && FindAnnouncement(after, id).value.isActive == isActive
  {
  }

  /** updateAnnouncementStatus's update: every row with the id takes the
      flag; the result says whether any row did. */
  function SetActive(t: Table<Announcement>, id: Id, isActive: bool): (r: Outcome<bool, Announcement>)
    ensures r.result <==> exists i :: 0 <= i < |t.rows| && t.rows[i].id == id
    ensures r.table.nextId == t.nextId && |r.table.rows| == |t.rows|
    ensures forall i :: 0 <= i < |t.rows| ==>
      r.table.rows[i] == if t.rows[i].id == id then t.rows[i].(isActive := isActive) else t.rows[i]
    ensures r.result ==> FindAnnouncement(r.table.rows, id).Some? && FindAnnouncement(r.table.rows, id).value.isActive == isActive
    ensures !r.result ==> r.table == t
    ensures IdsValid(t, AnnouncementKey) ==> IdsValid(r.table, AnnouncementKey)
  {
    var found := exists i :: 0 <= i < |t.rows| && t.rows[i].id == id;
    var rows := UpdateWhere(t.rows, (a: Announcement) => a.id == id, (a: Announcement) => a.(isActive := isActive));
    assert forall i :: 0 <= i < |rows| ==> AnnouncementKey(rows[i]) == AnnouncementKey(t.rows[i]);
    assert found ==> FindAnnouncement(rows, id).Some? && FindAnnouncement(rows, id).value.isActive == isActive by {
      if found { UpdatedAnnouncementFound(t.rows, rows, id, isActive); }
    }
    assert !found ==> rows == t.rows;
    assert IdsValid(t, AnnouncementKey) ==> IdsValid(Table(rows, t.nextId), AnnouncementKey) by {
      if IdsValid(t, AnnouncementKey) { SameKeysKeepIds(t, rows, AnnouncementKey); }
    }
    Outcome(found, Table(rows, t.nextId))
  }

  /** Deactivating hides an announcement from the active listing, and
      reactivating lists it again. */
  lemma DeactivatedNotListed(t: Table<Announcement>, id: Id, isActive: bool)
    ensures forall a :: (a in Filter(SetActive(t, id, isActive).table.rows, (x: Announcement) => x.isActive) && a.id == id)
                        ==> isActive
    ensures SetActive(t, id, isActive).result && isActive
      ==> FindAnnouncement(SetActive(t, id, isActive).table.rows, id).value
          in Filter(SetActive(t, id, isActive).table.rows, (x: Announcement) => x.isActive)
  {
  }

  method UpdateAnnouncementStatus(db: Db, id: Id, isActive: bool) returns (r: bool)
    modifies db`announcements
    ensures Outcome(r, db.announcements) == SetActive(old(db.announcements), id, isActive)
  {
    var updated := SetActive(db.announcements, id, isActive);
    db.announcements := updated.table;
    r := updated.result;
  }

  /** deleteAnnouncement's delete: every row with the id goes, every other
      row stays; the result says whether any row went. */
  function DeleteById(t: Table<Announcement>, id: Id): (r: Outcome<bool, Announcement>)
    ensures r.result <==> exists i :: 0 <= i < |t.rows| && t.rows[i].id == id
    ensures FindAnnouncement(r.table.rows, id).None?
    ensures forall a :: a in r.table.rows <==> a in t.rows && a.id != id
    ensures forall a: Announcement :: a.id != id ==> multiset(r.table.rows)[a] == multiset(t.rows)[a]
    ensures r.table.nextId == t.nextId
    ensures !r.result ==> r.table == t
    ensures IdsValid(t, AnnouncementKey) ==> IdsValid(r.table, AnnouncementKey)
  {
    var found := exists i :: 0 <= i < |t.rows| && t.rows[i].id == id;
    var p := (a: Announcement) => a.id != id;
    var rows := Filter(t.rows, p);
    FilterCounts(t.rows, p);
    assert forall i :: 0 <= i < |rows| ==> rows[i].id != id by {
      forall i | 0 <= i < |rows| ensures rows[i].id != id { assert rows[i] in rows; }
    }
    assert !found ==> rows == t.rows by {
      if !found { FilterAll(t.rows, p); }
    }
    assert IdsValid(t, AnnouncementKey) ==> IdsValid(Table(rows, t.nextId), AnnouncementKey) by {
      if IdsValid(t, AnnouncementKey) { FilterKeepsIds(t, p, AnnouncementKey); }
    }
    Outcome(found, Table(rows, t.nextId))
  }

  /** Deleting twice: the second delete finds nothing and changes nothing. */
  lemma DeleteTwice(t: Table<Announcement>, id: Id)
    ensures var once := DeleteById(t, id).table;
      !DeleteById(once, id).result && DeleteById(once, id).table == once
  {
  }

  /** Creating an announcement and deleting it by its id restores the rows. */
  lemma {:induction false} CreateThenDelete(t: Table<Announcement>, input: AnnouncementInput, now: Timestamp)
    requires IdsValid(t, AnnouncementKey)
    ensures var a := NewAnnouncement(t, input, now);
      var r := DeleteById(Insert(t, a), a.id);
      r.result && r.table.rows == t.rows
  {
    var a := NewAnnouncement(t, input, now);
    var p := (x: Announcement) => x.id != a.id;
    assert Insert(t, a).rows == t.rows + [a];
    assert Insert(t, a).rows[|t.rows|] == a;
    FilterAppend(t.rows, a, p);
    assert forall i :: 0 <= i < |t.rows| ==> p(t.rows[i]) by {
      forall i | 0 <= i < |t.rows| ensures p(t.rows[i]) { assert t.rows[i] in t.rows; }
    }
    FilterAll(t.rows, p);
  }

  method DeleteAnnouncement(db: Db, id: Id) returns (r: bool)
    modifies db`announcements
    ensures Outcome(r, db.announcements) == DeleteById(old(db.announcements), id)
  {
    var deleted := DeleteById(db.announcements, id);
    db.announcements := deleted.table;
    r := deleted.result;
  }
}
