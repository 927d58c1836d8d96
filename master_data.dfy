/** master_data.ts: regions, schools, subjects and academic years; the only
    check is that a new school's region exists. */
module MasterDataHandlers {
  import opened Types
  import opened Tables
  import opened Store

  /** getRegions: every region, in insertion order. */
  function GetRegions(db: Db): (r: seq<Region>)
    reads db
    ensures r == db.regions.rows
  {
    db.regions.rows
  }

  /** getAcademicYears: every academic year, in insertion order. */
  function GetAcademicYears(db: Db): (r: seq<AcademicYear>)
    reads db
    ensures r == db.academicYears.rows
  {
    db.academicYears.rows
  }

  /** getSchools: the schools of the region when one is given (0 included),
      otherwise every school. */
  function GetSchools(db: Db, regionId: Option<Id>): (r: seq<School>)
    reads db
    ensures regionId.None? ==> r == db.schools.rows
    ensures forall s :: s in r <==> s in db.schools.rows && (regionId.Some? ==> s.regionId == regionId.value)
    ensures regionId.Some? ==> forall s :: multiset(r)[s] == if s.regionId == regionId.value then multiset(db.schools.rows)[s] else 0
  {
    match regionId
    case None => db.schools.rows
    case Some(id) =>
      var p := (s: School) => s.regionId == id;
      FilterCounts(db.schools.rows, p);
      Filter(db.schools.rows, p)
  }

  /** getSubjects: the subjects of the level when a (non-empty) level is
      given, otherwise every subject. */
  function GetSubjects(db: Db, level: Option<EducationLevel>): (r: seq<Subject>)
    reads db
    ensures level.None? ==> r == db.subjects.rows
    ensures forall s :: s in r <==> s in db.subjects.rows && (level.Some? ==> s.level == level.value)
    ensures level.Some? ==> forall s :: multiset(r)[s] == if s.level == level.value then multiset(db.subjects.rows)[s] else 0
  {
    match level
    case None => db.subjects.rows
    case Some(l) =>
      var p := (s: Subject) => s.level == l;
      FilterCounts(db.subjects.rows, p);
      Filter(db.subjects.rows, p)
  }

  method CreateRegion(db: Db, name: string, code: string, now: Timestamp) returns (r: Region)
    modifies db`regions
    ensures r == Region(old(db.regions).nextId, name, code, now)
    ensures db.regions == Insert(old(db.regions), r)
  {
    r := Region(db.regions.nextId, name, code, now);
    InsertKeepsIds(db.regions, r, RegionKey);
    db.regions := Insert(db.regions, r);
  }

  method CreateSubject(db: Db, name: string, code: string, level: EducationLevel, now: Timestamp) returns (r: Subject)
    modifies db`subjects
    ensures r == Subject(old(db.subjects).nextId, name, code, level, now)
    ensures db.subjects == Insert(old(db.subjects), r)
  {
    r := Subject(db.subjects.nextId, name, code, level, now);
    InsertKeepsIds(db.subjects, r, SubjectKey);
    db.subjects := Insert(db.subjects, r);
  }

  /** createSchool as a function of the tables it reads and writes: refused
      with the region's id in the message when the region is missing,
      otherwise one insert carrying the given columns. */
  function NewSchool(regions: seq<Region>, t: Table<School>, name: string, npsn: string, address: string,
                     level: EducationLevel, regionId: Id, now: Timestamp): (r: Outcome<Result<School, Error>, School>)
    ensures r.result.Failure? <==> forall i :: 0 <= i < |regions| ==> regions[i].id != regionId
    ensures r.result.Failure? ==> r.result.error == RegionNotFound(regionId) && r.table == t
    ensures r.result.Success? ==>
      && r.result.value == School(t.nextId, name, npsn, address, level, regionId, now)
      && r.table == Insert(t, r.result.value)
  {
    if FindRegion(regions, regionId).None? then Outcome(Failure(RegionNotFound(regionId)), t)
    else
      var row := School(t.nextId, name, npsn, address, level, regionId, now);
      Outcome(Success(row), Insert(t, row))
  }

  /** The refusal names the missing region: between the fixed words stands
      the id in decimal, with a minus sign when it is negative. */
  lemma RegionMessage(id: Id)
    ensures Message(RegionNotFound(id)) == "Region with id " + IntToString(id) + " does not exist"
    ensures id >= 0 ==> IsDecimal(IntToString(id)) && DecimalValue(IntToString(id)) == id
    ensures id < 0 ==> var s := IntToString(id);
      s != [] && s[0] == '-' && IsDecimal(s[1..]) && DecimalValue(s[1..]) == -id
  {
    if id < 0 {
      NatToStringReadsBack(-id);
      assert IntToString(id)[1..] == NatToString(-id);
    } else {
      NatToStringReadsBack(id);
    }
  }

  /** A region just created can hold schools. */
  lemma CreatedRegionAcceptsSchools(regions: Table<Region>, t: Table<School>, rname: string, code: string,
                                    name: string, npsn: string, address: string, level: EducationLevel,
                                    now1: Timestamp, now2: Timestamp)
    ensures var region := Region(regions.nextId, rname, code, now1);
      NewSchool(Insert(regions, region).rows, t, name, npsn, address, level, region.id, now2).result.Success?
  {
    var region := Region(regions.nextId, rname, code, now1);
    assert Insert(regions, region).rows[|regions.rows|] == region;
  }

  method CreateSchool(db: Db, name: string, npsn: string, address: string, level: EducationLevel,
                      regionId: Id, now: Timestamp) returns (r: Result<School, Error>)
    modifies db`schools
    ensures Outcome(r, db.schools) == NewSchool(db.regions.rows, old(db.schools), name, npsn, address, level, regionId, now)
  {
    var regionExists := FindRegion(db.regions.rows, regionId);
    if regionExists.None? {
      return Failure(RegionNotFound(regionId));
    }
    var row := School(db.schools.nextId, name, npsn, address, level, regionId, now);
    InsertKeepsIds(db.schools, row, SchoolKey);
    db.schools := Insert(db.schools, row);
    r := Success(row);
  }
}
