/** The server's store: the SQLite tables the handlers of the core read and
    write, held in one object whose fields the handlers update. */
module StudentStore {
  import opened Js
  import opened RequestRules
  import opened StoreTables
  import opened ClassListing

  /** A statement refused by a NOT NULL column; the handler answers 500. */
  datatype StoreError = NotNullViolation

  /** Why a student create or update was refused. */
  datatype StudentError = PhoneRejected(reason: PhoneError) | StoreFailed(cause: StoreError)

  /** The NOT NULL text columns of `students` all receive a value. */
  predicate StudentColumnsGiven(form: StudentForm)
  {
    form.firstName.Some? && form.lastName.Some? && form.studentNumber.Some?
  }

  /** The row the create handler inserts; `is_active` takes its default 1. */
  function NewStudent(id: int, form: StudentForm, upload: Option<string>): StudentRow
    requires StudentColumnsGiven(form)
  {
    StudentRow(id, upload, form.firstName.value, form.lastName.value, form.classId, form.educationYearId,
               Some(true), ProfileOf(form))
  }

  /** A database file as the server finds it when it opens it. */
  datatype Database = Database(years: seq<YearRow>, students: seq<StudentRow>,
                               mothers: seq<ParentRow>, fathers: seq<ParentRow>,
                               announcements: seq<AnnouncementRow>, events: seq<EventRow>,
                               nextYearId: int, nextStudentId: int, nextMotherId: int, nextFatherId: int,
                               parentsKeyed: bool)

  /** What SQLite guarantees of any database file: keys in order and below
      their AUTOINCREMENT counters, and the UNIQUE constraints that exist. */
  predicate WellFormed(db: Database)
  {
    YearIdsIncreasing(db.years) && YearIdsBelow(db.years, db.nextYearId) && LabelsUnique(db.years) &&
    StudentIdsIncreasing(db.students) && StudentIdsBelow(db.students, db.nextStudentId) &&
    ParentIdsIncreasing(db.mothers) && ParentIdsBelow(db.mothers, db.nextMotherId) &&
    ParentIdsIncreasing(db.fathers) && ParentIdsBelow(db.fathers, db.nextFatherId) &&
    AnnouncementIdsIncreasing(db.announcements) && EventIdsIncreasing(db.events) &&
    (db.parentsKeyed ==> OnePerStudent(db.mothers) && OnePerStudent(db.fathers))
  }

  // ---------------------------------------------------------------------
  // The handlers' effect on a database
  // ---------------------------------------------------------------------

  /** `initDatabase` once the tables exist: the default year is seeded and
      each parent table keeps one row per student. */
  function Initialized(db: Database): Database
  {
    db.(years := SeedYear(db.years, db.nextYearId, DefaultYear),
        nextYearId := NextIdAfterSeed(db.years, db.nextYearId, DefaultYear),
        mothers := Deduplicated(db.mothers),
        fathers := Deduplicated(db.fathers))
  }

  /** After start-up the default year exists exactly once and every student
      has at most one mother and one father row; a second start changes
      nothing. */
  lemma InitializedSpec(db: Database)
    requires WellFormed(db)
    ensures var d := Initialized(db);
            WellFormed(d) && CountLabel(d.years, DefaultYear) == 1 &&
            OnePerStudent(d.mothers) && OnePerStudent(d.fathers)
    ensures Initialized(Initialized(db)) == Initialized(db)
  {
    SeedYearSpec(db.years, db.nextYearId, DefaultYear);
    DeduplicatedSpec(db.mothers);
    DeduplicatedBelow(db.mothers, db.nextMotherId);
    DeduplicatedIdempotent(db.mothers);
    DeduplicatedSpec(db.fathers);
    DeduplicatedBelow(db.fathers, db.nextFatherId);
    DeduplicatedIdempotent(db.fathers);
  }

  /** The reply of the create handler: the mother's phone is checked, then
      the father's, then the NOT NULL columns; success reports the new id. */
  function CreateResult(db: Database, form: StudentForm): (r: Result<int, StudentError>)
    ensures r.Ok? <==> CheckParentPhones(form.mother.phone, form.father.phone).None? && StudentColumnsGiven(form)
    ensures r.Ok? ==> r.value == db.nextStudentId
    ensures CheckParentPhones(form.mother.phone, form.father.phone).Some? ==>
              r == Err(PhoneRejected(CheckParentPhones(form.mother.phone, form.father.phone).value))
    ensures CheckParentPhones(form.mother.phone, form.father.phone).None? && !StudentColumnsGiven(form) ==>
              r == Err(StoreFailed(NotNullViolation))
  {
    var check := CheckParentPhones(form.mother.phone, form.father.phone);
    if check.Some? then Err(PhoneRejected(check.value))
    else if !StudentColumnsGiven(form) then Err(StoreFailed(NotNullViolation))
    else Ok(db.nextStudentId)
  }

  /** The database after a successful create. */
  function Created(db: Database, form: StudentForm, upload: Option<string>): Database
    requires StudentColumnsGiven(form)
  {
    var id := db.nextStudentId;
    db.(students := db.students + [NewStudent(id, form, upload)],
        nextStudentId := id + 1,
        mothers := ParentOnCreate(db.mothers, id, form.mother, db.nextMotherId, db.parentsKeyed),
        nextMotherId := NextIdAfterCreate(db.mothers, id, form.mother, db.nextMotherId, db.parentsKeyed),
        fathers := ParentOnCreate(db.fathers, id, form.father, db.nextFatherId, db.parentsKeyed),
        nextFatherId := NextIdAfterCreate(db.fathers, id, form.father, db.nextFatherId, db.parentsKeyed))
  }

  /** A create keeps the database well formed. */
  lemma CreatedWellFormed(db: Database, form: StudentForm, upload: Option<string>)
    requires WellFormed(db) && StudentColumnsGiven(form)
    ensures WellFormed(Created(db, form, upload))
  {
    var id := db.nextStudentId;
    AppendStudentSpec(db.students, NewStudent(id, form, upload));
    ParentOnCreateSpec(db.mothers, id, form.mother, db.nextMotherId, db.parentsKeyed);
    ParentOnCreateSpec(db.fathers, id, form.father, db.nextFatherId, db.parentsKeyed);
  }

  /** After a create the new id reads back the submitted student and, for an
      id no parent row points at yet, the submitted parents (none for an
      empty name); no other student's parent record changes. */
  lemma CreatedReadsBack(db: Database, form: StudentForm, upload: Option<string>)
    requires WellFormed(db) && StudentColumnsGiven(form)
    ensures var d, id := Created(db, form, upload), db.nextStudentId;
            StudentOf(d.students, id) == Some(NewStudent(id, form, upload)) &&
            (id !in Owners(db.mothers) ==>
               ParentOf(d.mothers, id) ==
                 if Filled(form.mother.name) then Some(ParentRow(db.nextMotherId, id, form.mother.name.value, ContactOf(form.mother)))
                 else None) &&
            (id !in Owners(db.fathers) ==>
               ParentOf(d.fathers, id) ==
                 if Filled(form.father.name) then Some(ParentRow(db.nextFatherId, id, form.father.name.value, ContactOf(form.father)))
                 else None)
    ensures forall other :: other != db.nextStudentId ==>
              ParentOf(Created(db, form, upload).mothers, other) == ParentOf(db.mothers, other) &&
              ParentOf(Created(db, form, upload).fathers, other) == ParentOf(db.fathers, other)
  {
    var id := db.nextStudentId;
    AppendStudentSpec(db.students, NewStudent(id, form, upload));
    ParentOnCreateSpec(db.mothers, id, form.mother, db.nextMotherId, db.parentsKeyed);
    ParentOnCreateSpec(db.fathers, id, form.father, db.nextFatherId, db.parentsKeyed);
  }

  /** A parent row left behind for the new id, by an earlier update aimed
      at an id no student had yet, is what the new student reads back: a
      keyed table refuses the insert, and an unkeyed one keeps the older
      row first. */
  lemma CreatedKeepsEarlierParents(db: Database, form: StudentForm, upload: Option<string>)
    requires WellFormed(db) && StudentColumnsGiven(form)
    ensures db.nextStudentId in Owners(db.mothers) ==>
              ParentOf(Created(db, form, upload).mothers, db.nextStudentId) == ParentOf(db.mothers, db.nextStudentId)
    ensures db.nextStudentId in Owners(db.fathers) ==>
              ParentOf(Created(db, form, upload).fathers, db.nextStudentId) == ParentOf(db.fathers, db.nextStudentId)
  {
    var id := db.nextStudentId;
    ParentOnCreateSpec(db.mothers, id, form.mother, db.nextMotherId, db.parentsKeyed);
    ParentOnCreateSpec(db.fathers, id, form.father, db.nextFatherId, db.parentsKeyed);
  }

  /** The reply of the update handler: the phone checks, then NOT NULL, which
      only a row that exists can violate. */
  function UpdateResult(db: Database, studentId: int, form: StudentForm): (r: Result<(), StudentError>)
    ensures r.Ok? <==>
              CheckParentPhones(form.mother.phone, form.father.phone).None? &&
              (StudentOf(db.students, studentId).None? || StudentColumnsGiven(form))
    ensures CheckParentPhones(form.mother.phone, form.father.phone).Some? ==>
              r == Err(PhoneRejected(CheckParentPhones(form.mother.phone, form.father.phone).value))
    ensures CheckParentPhones(form.mother.phone, form.father.phone).None? &&
            StudentOf(db.students, studentId).Some? && !StudentColumnsGiven(form) ==>
              r == Err(StoreFailed(NotNullViolation))
  {
    var check := CheckParentPhones(form.mother.phone, form.father.phone);
    if check.Some? then Err(PhoneRejected(check.value))
    else if StudentOf(db.students, studentId).Some? && !StudentColumnsGiven(form) then Err(StoreFailed(NotNullViolation))
    else Ok(())
  }

  /** The database after a successful update. */
  function Updated(db: Database, studentId: int, form: StudentForm, upload: Option<string>): Database
  {
    db.(students := if StudentColumnsGiven(form) then UpdateStudentRows(db.students, studentId, form, upload) else db.students,
        mothers := UpsertParent(db.mothers, studentId, form.mother, db.nextMotherId),
        nextMotherId := NextIdAfterUpsert(db.mothers, studentId, form.mother, db.nextMotherId),
        fathers := UpsertParent(db.fathers, studentId, form.father, db.nextFatherId),
        nextFatherId := NextIdAfterUpsert(db.fathers, studentId, form.father, db.nextFatherId))
  }

  /** An update keeps the database well formed. */
  lemma UpdatedWellFormed(db: Database, studentId: int, form: StudentForm, upload: Option<string>)
    requires WellFormed(db)
    ensures WellFormed(Updated(db, studentId, form, upload))
  {
    if StudentColumnsGiven(form) {
      UpdateStudentRowsSpec(db.students, studentId, form, upload, db.nextStudentId);
    }
    UpsertKeepsTable(db.mothers, studentId, form.mother, db.nextMotherId);
    UpsertKeepsTable(db.fathers, studentId, form.father, db.nextFatherId);
  }

  /** After an update the student reads back as updated, or nothing changes
      when there is no such student. */
  lemma UpdatedStudentReadsBack(db: Database, studentId: int, form: StudentForm, upload: Option<string>)
    requires WellFormed(db) && UpdateResult(db, studentId, form).Ok?
    ensures StudentOf(db.students, studentId).Some? ==>
              StudentOf(Updated(db, studentId, form, upload).students, studentId) ==
                Some(UpdatedStudent(StudentOf(db.students, studentId).value, form, upload))
    ensures StudentOf(db.students, studentId).None? ==>
              Updated(db, studentId, form, upload).students == db.students
    ensures forall other :: other != studentId ==>
              StudentOf(Updated(db, studentId, form, upload).students, other) == StudentOf(db.students, other)
  {
    if StudentOf(db.students, studentId).Some? {
      UpdateStudentRowsSpec(db.students, studentId, form, upload, db.nextStudentId);
    } else {
      StudentOfMissingUnchanged(db.students, studentId, form, upload);
    }
  }

  /** After an update each parent record reads back as submitted, or as
      absent for an empty name, and no other student's parent record
      changes. */
  lemma UpdatedParentsReadBack(db: Database, studentId: int, form: StudentForm, upload: Option<string>)
    ensures var m := ParentOf(Updated(db, studentId, form, upload).mothers, studentId);
            if Filled(form.mother.name) then m.Some? && m.value.name == form.mother.name.value && m.value.contact == ContactOf(form.mother)
            else m.None?
    ensures var f := ParentOf(Updated(db, studentId, form, upload).fathers, studentId);
            if Filled(form.father.name) then f.Some? && f.value.name == form.father.name.value && f.value.contact == ContactOf(form.father)
            else f.None?
    ensures forall other :: other != studentId ==>
              ParentOf(Updated(db, studentId, form, upload).mothers, other) == ParentOf(db.mothers, other) &&
              ParentOf(Updated(db, studentId, form, upload).fathers, other) == ParentOf(db.fathers, other)
  {
    UpsertThenRead(db.mothers, studentId, form.mother, db.nextMotherId);
    UpsertThenRead(db.fathers, studentId, form.father, db.nextFatherId);
  }

  /** An update addressed to an id without a row changes no student. */
  lemma StudentOfMissingUnchanged(rows: seq<StudentRow>, studentId: int, form: StudentForm, upload: Option<string>)
    requires StudentOf(rows, studentId).None?
    ensures StudentColumnsGiven(form) ==> UpdateStudentRows(rows, studentId, form, upload) == rows
  {
    if StudentColumnsGiven(form) {
      var r := UpdateStudentRows(rows, studentId, form, upload);
      forall i | 0 <= i < |rows| ensures r[i] == rows[i] {
        assert StudentKeys(rows)[i] == rows[i].id;
      }
    }
  }

  class Store {
    var years: seq<YearRow>
    var students: seq<StudentRow>
    var mothers: seq<ParentRow>
    var fathers: seq<ParentRow>
    var announcements: seq<AnnouncementRow>
    var events: seq<EventRow>
    // the AUTOINCREMENT counters of the tables that gain rows
    var nextYearId: int
    var nextStudentId: int
    var nextMotherId: int
    var nextFatherId: int
    /** Whether the parent tables carry UNIQUE(student_id); a file made by an
        earlier schema may not. */
    const parentsKeyed: bool

    function Contents(): Database
      reads this
    {
      Database(years, students, mothers, fathers, announcements, events,
               nextYearId, nextStudentId, nextMotherId, nextFatherId, parentsKeyed)
    }

    ghost predicate Valid()
      reads this
    {
      WellFormed(Contents())
    }

    /** Open a database file. */
    constructor Open(db: Database)
      requires WellFormed(db)
      ensures Valid() && Contents() == db
    {
      years, students, mothers, fathers := db.years, db.students, db.mothers, db.fathers;
      announcements, events := db.announcements, db.events;
      nextYearId, nextStudentId, nextMotherId, nextFatherId := db.nextYearId, db.nextStudentId, db.nextMotherId, db.nextFatherId;
      parentsKeyed := db.parentsKeyed;
    }

    /** `initDatabase`, after the tables exist: seed the default education
        year, then delete the duplicate parent rows. */
    method InitDatabase()
      modifies this
      requires Valid()
      ensures Valid()
      ensures Contents() == Initialized(old(Contents()))
    {
      InitializedSpec(Contents());
      var seeded := SeedYear(years, nextYearId, DefaultYear);
      nextYearId := NextIdAfterSeed(years, nextYearId, DefaultYear);
      years := seeded;
      mothers := Deduplicated(mothers);
      fathers := Deduplicated(fathers);
    }

    /** `POST /api/students/transfer`: validate, then run the prepared update
        once per submitted id; the reported count is the number of submitted
        ids, whether or not each matched a student. */
    method Transfer(req: TransferRequest) returns (r: Result<nat, TransferError>)
      modifies this`students
      requires Valid()
      ensures Valid()
      ensures ValidateTransfer(req).Err? ==> r == Err(ValidateTransfer(req).error) && students == old(students)
      ensures ValidateTransfer(req).Ok? ==>
                var plan := ValidateTransfer(req).value;
                r == Ok(|plan.ids|) && students == TransferAll(old(students), plan.ids, plan.classId, plan.yearId)
      ensures r.Ok? ==>
                |students| == |old(students)| &&
                forall i :: 0 <= i < |students| ==>
                  students[i] == if Addressed(req.studentIds.items, old(students)[i].id)
                                 then Moved(old(students)[i], req.targetClassId.value, req.targetYearId.value)
                                 else old(students)[i]
    {
      var v := ValidateTransfer(req);
      if v.Err? {
        return Err(v.error);
      }
      var plan := v.value;
      for k := 0 to |plan.ids|
        invariant students == TransferAll(old(students), plan.ids[..k], plan.classId, plan.yearId)
      {
        assert plan.ids[..k + 1][..k] == plan.ids[..k];
        students := TransferOne(students, plan.ids[k], plan.classId, plan.yearId);
      }
      assert plan.ids[..|plan.ids|] == plan.ids;
      TransferAllEffect(old(students), plan.ids, plan.classId, plan.yearId);
      r := Ok(|plan.ids|);
    }

    /** `POST /api/students`: the phone checks, the student insert (refused
        when a NOT NULL column is missing), then one insert per parent whose
        name is filled. The result is the new student's id. */
    method CreateStudent(form: StudentForm, upload: Option<string>) returns (r: Result<int, StudentError>)
      modifies this
      requires Valid()
      ensures Valid()
      ensures r == CreateResult(old(Contents()), form)
      ensures r.Err? ==> unchanged(this)
      ensures r.Ok? ==> Contents() == Created(old(Contents()), form, upload)
    {
      var check := CheckParentPhones(form.mother.phone, form.father.phone);
      if check.Some? {
        return Err(PhoneRejected(check.value));
      }
      if !StudentColumnsGiven(form) {
        return Err(StoreFailed(NotNullViolation));
      }
      ghost var after := Created(Contents(), form, upload);
      CreatedWellFormed(Contents(), form, upload);
      var id := nextStudentId;
      students := students + [NewStudent(id, form, upload)];
      nextStudentId := id + 1;
      var m := ParentOnCreate(mothers, id, form.mother, nextMotherId, parentsKeyed);
      nextMotherId := NextIdAfterCreate(mothers, id, form.mother, nextMotherId, parentsKeyed);
      mothers := m;
      var f := ParentOnCreate(fathers, id, form.father, nextFatherId, parentsKeyed);
      nextFatherId := NextIdAfterCreate(fathers, id, form.father, nextFatherId, parentsKeyed);
      fathers := f;
      assert Contents() == after;
      r := Ok(id);
    }

    /** `PUT /api/students/:studentId`: the phone checks, the student update
        (the photo only with an upload), then the upsert of the mother's and
        then the father's record. */
    method UpdateStudent(studentId: int, form: StudentForm, upload: Option<string>) returns (r: Result<(), StudentError>)
      modifies this
      requires Valid()
      ensures Valid()
      ensures r == UpdateResult(old(Contents()), studentId, form)
      ensures r.Err? ==> unchanged(this)
      ensures r.Ok? ==> Contents() == Updated(old(Contents()), studentId, form, upload)
    {
      var check := CheckParentPhones(form.mother.phone, form.father.phone);
      if check.Some? {
        return Err(PhoneRejected(check.value));
      }
      if StudentOf(students, studentId).Some? && !StudentColumnsGiven(form) {
        return Err(StoreFailed(NotNullViolation));
      }
      UpdatedWellFormed(Contents(), studentId, form, upload);
      if StudentColumnsGiven(form) {
        students := UpdateStudentRows(students, studentId, form, upload);
      }
      var m := UpsertParent(mothers, studentId, form.mother, nextMotherId);
      nextMotherId := NextIdAfterUpsert(mothers, studentId, form.mother, nextMotherId);
      mothers := m;
      var f := UpsertParent(fathers, studentId, form.father, nextFatherId);
      nextFatherId := NextIdAfterUpsert(fathers, studentId, form.father, nextFatherId);
      fathers := f;
      r := Ok(());
    }

    /** `PUT /api/announcements/:id`: `is_shared` is coerced strictly; the
        result is the number of changed rows. */
    method UpdateAnnouncement(id: int, title: Option<string>, eventDate: Option<string>, isShared: JsValue,
                              sharedDate: Option<string>, notes: Option<string>) returns (r: Result<nat, StoreError>)
      modifies this`announcements
      requires Valid()
      ensures Valid()
      ensures r.Err? <==> id in old(AnnouncementKeys(announcements)) && title.None?
      ensures r.Err? ==> r.error == NotNullViolation && announcements == old(announcements)
      ensures r.Ok? ==> r.value == if id in old(AnnouncementKeys(announcements)) then 1 else 0
      ensures r.Ok? && title.Some? ==>
                announcements == UpdateAnnouncementRows(old(announcements), id, title.value, eventDate,
                                                        IsSharedFlag(isShared), sharedDate, notes)
      ensures r.Ok? && title.None? ==> announcements == old(announcements)
    {
      var found := id in AnnouncementKeys(announcements);
      if found && title.None? {
        return Err(NotNullViolation);
      }
      if title.Some? {
        announcements := UpdateAnnouncementRows(announcements, id, title.value, eventDate, IsSharedFlag(isShared), sharedDate, notes);
      }
      r := Ok(if found then 1 else 0);
    }

    /** `PUT /api/guidance-events/:id`: the attachment is replaced only when
        a file is uploaded; the result is the number of changed rows. */
    method UpdateEvent(id: int, date: Option<string>, eventName: Option<string>, description: Option<string>,
                       upload: Option<string>) returns (r: Result<nat, StoreError>)
      modifies this`events
      requires Valid()
      ensures Valid()
      ensures r.Err? <==> id in old(EventKeys(events)) && (date.None? || eventName.None?)
      ensures r.Err? ==> r.error == NotNullViolation && events == old(events)
      ensures r.Ok? ==> r.value == if id in old(EventKeys(events)) then 1 else 0
      ensures r.Ok? && date.Some? && eventName.Some? ==>
                events == UpdateEventRows(old(events), id, date.value, eventName.value, description, upload)
      ensures r.Ok? && (date.None? || eventName.None?) ==> events == old(events)
    {
      var found := id in EventKeys(events);
      if found && (date.None? || eventName.None?) {
        return Err(NotNullViolation);
      }
      if date.Some? && eventName.Some? {
        events := UpdateEventRows(events, id, date.value, eventName.value, description, upload);
      }
      r := Ok(if found then 1 else 0);
    }

    /** `GET /api/students/:classId`. */
    function ListClass(classId: int): (r: seq<ListedStudent>)
      reads this
      ensures SortedByName(r)
      ensures multiset(r) == multiset(Joined(students, mothers, fathers, classId))
      ensures OnePerStudent(mothers) && OnePerStudent(fathers) ==>
                multiset(r) == multiset(OneRowEach(students, mothers, fathers, classId))
    {
      ClassListSpec(students, mothers, fathers, classId);
      ClassList(students, mothers, fathers, classId)
    }
  }
}
