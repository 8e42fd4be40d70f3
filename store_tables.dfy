/** The rows of the server's SQLite tables and the effect of the handlers'
    SQL statements on them. A table is the sequence of its rows in rowid
    order, which for these tables is the order of their `id` primary keys. */
module StoreTables {
  import opened Js

  // ---------------------------------------------------------------------
  // Rows
  // ---------------------------------------------------------------------

  /** `education_years`: `year` is UNIQUE, `is_active` defaults to 1. */
  datatype YearRow = YearRow(id: int, year: string, isActive: bool)

  /** The columns of `students` that the handlers only copy. */
  datatype Profile = Profile(studentNumber: string, birthDate: Option<string>, healthInfo: Option<string>,
                             parentsTogether: Option<string>, isBilsem: Option<string>,
                             specialConditions: Option<string>)

  /** `students`; `None` is SQL NULL. */
  datatype StudentRow = StudentRow(id: int, photo: Option<string>, firstName: string, lastName: string,
                                   classId: Option<int>, educationYearId: Option<int>,
                                   isActive: Option<bool>, profile: Profile)

  /** `is_guardian` as written by `x_is_guardian || 0`: the submitted text
      when it is non-empty, otherwise the integer 0. */
  datatype GuardianFlag = NotGuardian | GuardianText(text: string)

  datatype ParentContact = ParentContact(phone: Option<string>, email: Option<string>, job: Option<string>,
                                         workAddress: Option<string>, address: Option<string>,
                                         isGuardian: GuardianFlag)

  /** A row of `mother_info` or of `father_info`. */
  datatype ParentRow = ParentRow(id: int, studentId: int, name: string, contact: ParentContact)

  /** `announcements`. */
  datatype AnnouncementRow = AnnouncementRow(id: int, classId: int, educationYearId: int, title: string,
                                             eventDate: Option<string>, isShared: bool,
                                             sharedDate: Option<string>, notes: Option<string>)

  /** `guidance_events`. */
  datatype EventRow = EventRow(id: int, planId: int, date: string, eventName: string,
                               description: Option<string>, filePath: Option<string>)

  // ---------------------------------------------------------------------
  // Submitted forms (multipart fields: absent or text)
  // ---------------------------------------------------------------------

  /** The `mother_*` or `father_*` fields of a student form. */
  datatype ParentForm = ParentForm(name: Option<string>, phone: Option<string>, email: Option<string>,
                                   job: Option<string>, workAddress: Option<string>,
                                   address: Option<string>, isGuardian: Option<string>)

  /** The fields of the student create and update forms. The two reference
      fields are integers once bound to their INTEGER columns. */
  datatype StudentForm = StudentForm(firstName: Option<string>, lastName: Option<string>,
                                     studentNumber: Option<string>, birthDate: Option<string>,
                                     healthInfo: Option<string>, parentsTogether: Option<string>,
                                     isBilsem: Option<string>, specialConditions: Option<string>,
                                     classId: Option<int>, educationYearId: Option<int>,
                                     isActive: Option<bool>, mother: ParentForm, father: ParentForm)

  // ---------------------------------------------------------------------
  // Keys
  // ---------------------------------------------------------------------

  predicate YearIdsIncreasing(rows: seq<YearRow>)
  {
    forall i, j :: 0 <= i < j < |rows| ==> rows[i].id < rows[j].id
  }

  predicate YearIdsBelow(rows: seq<YearRow>, next: int)
  {
    forall i :: 0 <= i < |rows| ==> rows[i].id < next
  }

  predicate StudentIdsIncreasing(rows: seq<StudentRow>)
  {
    forall i, j :: 0 <= i < j < |rows| ==> rows[i].id < rows[j].id
  }

  predicate StudentIdsBelow(rows: seq<StudentRow>, next: int)
  {
    forall i :: 0 <= i < |rows| ==> rows[i].id < next
  }

  predicate ParentIdsIncreasing(rows: seq<ParentRow>)
  {
    forall i, j :: 0 <= i < j < |rows| ==> rows[i].id < rows[j].id
  }

  predicate ParentIdsBelow(rows: seq<ParentRow>, next: int)
  {
    forall i :: 0 <= i < |rows| ==> rows[i].id < next
  }

  predicate AnnouncementIdsIncreasing(rows: seq<AnnouncementRow>)
  {
    forall i, j :: 0 <= i < j < |rows| ==> rows[i].id < rows[j].id
  }

  predicate EventIdsIncreasing(rows: seq<EventRow>)
  {
    forall i, j :: 0 <= i < j < |rows| ==> rows[i].id < rows[j].id
  }

  /** The `student_id` column of a parent table. */
  function Owners(rows: seq<ParentRow>): (r: seq<int>)
    ensures |r| == |rows| && forall i :: 0 <= i < |rows| ==> r[i] == rows[i].studentId
  {
    seq(|rows|, i requires 0 <= i < |rows| => rows[i].studentId)
  }

  /** At most one row per student: what UNIQUE(student_id) demands. */
  predicate OnePerStudent(rows: seq<ParentRow>)
  {
    forall i, j :: 0 <= i < j < |rows| ==> rows[i].studentId != rows[j].studentId
  }

  /** The `year` column of `education_years`. */
  function Labels(rows: seq<YearRow>): (r: seq<string>)
    ensures |r| == |rows| && forall i :: 0 <= i < |rows| ==> r[i] == rows[i].year
  {
    seq(|rows|, i requires 0 <= i < |rows| => rows[i].year)
  }

  predicate LabelsUnique(rows: seq<YearRow>)
  {
    forall i, j :: 0 <= i < j < |rows| ==> rows[i].year != rows[j].year
  }

  // ---------------------------------------------------------------------
  // Batch transfer
  // ---------------------------------------------------------------------

  function Moved(s: StudentRow, classId: int, yearId: int): StudentRow
  {
    s.(classId := Some(classId), educationYearId := Some(yearId))
  }

  /** A digit as its character. */
  function DigitChar(d: nat): char
    requires d < 10
  {
    "0123456789"[d]
  }

  /** The decimal text of a natural number, as SQLite writes an INTEGER. */
  function DecimalDigits(n: nat): (r: string)
    ensures |r| >= 1 && IsDigit(r[0])
    ensures n >= 10 ==> |r| >= 2
    decreases n
  {
    if n < 10 then [DigitChar(n)] else DecimalDigits(n / 10) + [DigitChar(n % 10)]
  }

  function DecimalText(n: int): string
  {
    if n < 0 then "-" + DecimalDigits(-n) else DecimalDigits(n)
  }

  /** `WHERE id = ?` for the value node-sqlite3 binds from a JSON value. The
      bound value has no affinity and `id` is an INTEGER PRIMARY KEY, so the
      comparison applies NUMERIC affinity to it: a number compares as
      itself, `true` and `false` are bound as 1 and 0, and a text matches
      the id it spells; `null` matches nothing. */
  predicate BoundIdMatches(v: JsValue, id: int)
  {
    match v
    case Number(n) => n == id
    case Bool(b) => id == (if b then 1 else 0)
    case Str(s) => s == DecimalText(id)
    case _ => false
  }

  /** Different natural numbers have different decimal texts. */
  lemma {:induction false} DecimalDigitsInjective(a: nat, b: nat)
    requires DecimalDigits(a) == DecimalDigits(b)
    ensures a == b
    decreases a
  {
    var da, db := DecimalDigits(a), DecimalDigits(b);
    if a >= 10 && b >= 10 {
      assert da[..|da| - 1] == DecimalDigits(a / 10);
      assert db[..|db| - 1] == DecimalDigits(b / 10);
      DecimalDigitsInjective(a / 10, b / 10);
      assert "0123456789"[a % 10] == da[|da| - 1] == db[|db| - 1] == "0123456789"[b % 10];
    } else if a < 10 && b < 10 {
      assert "0123456789"[a] == da[0] == db[0] == "0123456789"[b];
    }
  }

  /** A bound value addresses at most one key: every value the request can
      carry names one student at most. */
  lemma BoundIdMatchesOne(v: JsValue, a: int, b: int)
    requires BoundIdMatches(v, a) && BoundIdMatches(v, b)
    ensures a == b
  {
    if v.Str? {
      var ta, tb := DecimalText(a), DecimalText(b);
      if a < 0 && b < 0 {
        assert ta[1..] == DecimalDigits(-a) && tb[1..] == DecimalDigits(-b);
        DecimalDigitsInjective(-a, -b);
      } else if a >= 0 && b >= 0 {
        DecimalDigitsInjective(a, b);
      }
    }
  }

  /** A key sent as its decimal text, such as `"5"`, moves the same row
      as the number itself. */
  lemma TextIdAddressesKey(rows: seq<StudentRow>, i: int, classId: int, yearId: int)
    requires 0 <= i < |rows|
    ensures TransferOne(rows, Str(DecimalText(rows[i].id)), classId, yearId)[i] == Moved(rows[i], classId, yearId)
    ensures TransferOne(rows, Str(DecimalText(rows[i].id)), classId, yearId)[i] ==
            TransferOne(rows, Number(rows[i].id), classId, yearId)[i]
  {
  }

  /** Some submitted value addresses the key. */
  predicate Addressed(ids: seq<JsValue>, id: int)
  {
    exists k :: 0 <= k < |ids| && BoundIdMatches(ids[k], id)
  }

  /** One `UPDATE students SET class_id = ?, education_year_id = ? WHERE id = ?`:
      only the two target columns of the addressed row change, no key
      changes and no row is added or removed. */
  function TransferOne(rows: seq<StudentRow>, studentId: JsValue, classId: int, yearId: int): (r: seq<StudentRow>)
    ensures StudentKeys(r) == StudentKeys(rows)
    ensures forall i :: 0 <= i < |rows| ==>
              r[i].(classId := rows[i].classId, educationYearId := rows[i].educationYearId) == rows[i]
    ensures forall i :: 0 <= i < |rows| && BoundIdMatches(studentId, rows[i].id) ==>
              r[i].classId == Some(classId) && r[i].educationYearId == Some(yearId)
    ensures forall i :: 0 <= i < |rows| && !BoundIdMatches(studentId, rows[i].id) ==> r[i] == rows[i]
  {
    var r := seq(|rows|, i requires 0 <= i < |rows| =>
                   if BoundIdMatches(studentId, rows[i].id) then Moved(rows[i], classId, yearId) else rows[i]);
    assert StudentKeys(r) == StudentKeys(rows);
    r
  }

  /** The prepared statement run once per submitted id, in list order. */
  function TransferAll(rows: seq<StudentRow>, ids: seq<JsValue>, classId: int, yearId: int): seq<StudentRow>
    decreases |ids|
  {
    if ids == [] then rows
    else TransferOne(TransferAll(rows, ids[..|ids| - 1], classId, yearId), ids[|ids| - 1], classId, yearId)
  }

  /** After the batch, every student addressed by a submitted value has the
      target class and year and is otherwise unchanged; every other student
      is unchanged; no row is added or removed. */
  lemma {:induction false} TransferAllEffect(rows: seq<StudentRow>, ids: seq<JsValue>, classId: int, yearId: int)
    ensures |TransferAll(rows, ids, classId, yearId)| == |rows|
    ensures forall i :: 0 <= i < |rows| ==>
              TransferAll(rows, ids, classId, yearId)[i] ==
                if Addressed(ids, rows[i].id) then Moved(rows[i], classId, yearId) else rows[i]
    decreases |ids|
  {
    if ids != [] {
      var front := ids[..|ids| - 1];
      var last := ids[|ids| - 1];
      TransferAllEffect(rows, front, classId, yearId);
      var mid := TransferAll(rows, front, classId, yearId);
      assert StudentKeys(TransferOne(mid, last, classId, yearId)) == StudentKeys(mid);
      forall i | 0 <= i < |rows|
        ensures TransferAll(rows, ids, classId, yearId)[i] ==
                  if Addressed(ids, rows[i].id) then Moved(rows[i], classId, yearId) else rows[i]
      {
        assert StudentKeys(mid)[i] == mid[i].id == rows[i].id;
        if Addressed(front, rows[i].id) {
          var k :| 0 <= k < |front| && BoundIdMatches(front[k], rows[i].id);
          assert ids[k] == front[k];
        }
        if BoundIdMatches(last, rows[i].id) {
          assert ids[|ids| - 1] == last;
        }
        if Addressed(ids, rows[i].id) {
          var k :| 0 <= k < |ids| && BoundIdMatches(ids[k], rows[i].id);
          if k < |ids| - 1 {
            assert front[k] == ids[k];
          }
        }
      }
    }
  }

  // ---------------------------------------------------------------------
  // Parent records
  // ---------------------------------------------------------------------

  /** The contact columns written from a form; `is_guardian` is `x || 0`. */
  function ContactOf(f: ParentForm): ParentContact
  {
    ParentContact(f.phone, f.email, f.job, f.workAddress, f.address,
                  if Filled(f.isGuardian) then GuardianText(f.isGuardian.value) else NotGuardian)
  }

  /** `UPDATE x_info SET name = ?, ... WHERE student_id = ?`. */
  function OverwriteFor(rows: seq<ParentRow>, studentId: int, name: string, contact: ParentContact): (r: seq<ParentRow>)
    ensures |r| == |rows|
    ensures forall i :: 0 <= i < |rows| ==>
              r[i] == if rows[i].studentId == studentId then rows[i].(name := name, contact := contact) else rows[i]
  {
    if rows == [] then []
    else [if rows[0].studentId == studentId then rows[0].(name := name, contact := contact) else rows[0]]
         + OverwriteFor(rows[1..], studentId, name, contact)
  }

  /** `DELETE FROM x_info WHERE student_id = ?`. */
  function DeleteFor(rows: seq<ParentRow>, studentId: int): (r: seq<ParentRow>)
    ensures forall p :: p in r <==> p in rows && p.studentId != studentId
    ensures studentId !in Owners(r)
    ensures |r| <= |rows|
  {
    if rows == [] then []
    else (if rows[0].studentId == studentId then [] else [rows[0]]) + DeleteFor(rows[1..], studentId)
  }

  /** Deleting keeps the surviving rows in key order. */
  lemma {:induction false} DeleteForIncreasing(rows: seq<ParentRow>, studentId: int)
    requires ParentIdsIncreasing(rows)
    ensures ParentIdsIncreasing(DeleteFor(rows, studentId))
  {
    if rows != [] {
      TailIncreasing(rows);
      DeleteForIncreasing(rows[1..], studentId);
      var rest := DeleteFor(rows[1..], studentId);
      if rows[0].studentId != studentId {
        assert DeleteFor(rows, studentId) == [rows[0]] + rest;
        assert forall j :: 0 <= j < |rest| ==> rows[0].id < rest[j].id by {
          forall j | 0 <= j < |rest| ensures rows[0].id < rest[j].id {
            assert rest[j] in rest;
            HeadKeyBelowTail(rows, rest[j]);
          }
        }
        ConsIncreasing(rows[0], rest);
      } else {
        assert DeleteFor(rows, studentId) == rest;
      }
    }
  }

  lemma TailIncreasing(rows: seq<ParentRow>)
    requires ParentIdsIncreasing(rows) && rows != []
    ensures ParentIdsIncreasing(rows[1..])
  {
    forall i, j | 0 <= i < j < |rows[1..]| ensures rows[1..][i].id < rows[1..][j].id {
      assert rows[1..][i] == rows[i + 1] && rows[1..][j] == rows[j + 1];
    }
  }

  lemma ConsIncreasing(x: ParentRow, rest: seq<ParentRow>)
    requires ParentIdsIncreasing(rest)
    requires forall j :: 0 <= j < |rest| ==> x.id < rest[j].id
    ensures ParentIdsIncreasing([x] + rest)
  {
    var r := [x] + rest;
    forall i, j | 0 <= i < j < |r| ensures r[i].id < r[j].id {
      assert r[j] == rest[j - 1];
      if i > 0 {
        assert r[i] == rest[i - 1];
      }
    }
  }

  /** In a table with keys in order, the first row's key is below the key
      of every later row. */
  lemma HeadKeyBelowTail(rows: seq<ParentRow>, p: ParentRow)
    requires ParentIdsIncreasing(rows) && rows != [] && p in rows[1..]
    ensures rows[0].id < p.id
  {
    var k :| 0 <= k < |rows[1..]| && rows[1..][k] == p;
    assert rows[k + 1] == p;
  }

  /** Deleting keeps at most one row per student. */
  lemma {:induction false} DeleteForOnePerStudent(rows: seq<ParentRow>, studentId: int)
    requires OnePerStudent(rows)
    ensures OnePerStudent(DeleteFor(rows, studentId))
  {
    if rows != [] {
      assert OnePerStudent(rows[1..]) by {
        forall i, j | 0 <= i < j < |rows[1..]| ensures rows[1..][i].studentId != rows[1..][j].studentId {
          assert rows[1..][i] == rows[i + 1] && rows[1..][j] == rows[j + 1];
        }
      }
      DeleteForOnePerStudent(rows[1..], studentId);
      var rest := DeleteFor(rows[1..], studentId);
      if rows[0].studentId != studentId {
        var r := [rows[0]] + rest;
        forall j | 0 < j < |r| ensures rows[0].studentId != r[j].studentId {
          assert r[j] == rest[j - 1];
          assert rest[j - 1] in rows[1..];
        }
      }
    }
  }

  /** What a student-detail read sees of a parent table: the student's row,
      or NULL columns when there is none (the first row when several). */
  function ParentOf(rows: seq<ParentRow>, studentId: int): (r: Option<ParentRow>)
    ensures r.Some? ==> r.value in rows && r.value.studentId == studentId
    ensures r.None? <==> studentId !in Owners(rows)
  {
    if rows == [] then None
    else if rows[0].studentId == studentId then Some(rows[0])
    else
      assert Owners(rows) == [rows[0].studentId] + Owners(rows[1..]);
      ParentOf(rows[1..], studentId)
  }

  /** The update handler's "upsert by presence": a filled name overwrites the
      student's rows when there are any and inserts one row otherwise; an
      empty or absent name deletes the student's rows. */
  function UpsertParent(rows: seq<ParentRow>, studentId: int, form: ParentForm, nextId: int): seq<ParentRow>
  {
    if Filled(form.name) then
      if studentId in Owners(rows) then OverwriteFor(rows, studentId, form.name.value, ContactOf(form))
      else rows + [ParentRow(nextId, studentId, form.name.value, ContactOf(form))]
    else DeleteFor(rows, studentId)
  }

  /** The AUTOINCREMENT counter after `UpsertParent`. */
  function NextIdAfterUpsert(rows: seq<ParentRow>, studentId: int, form: ParentForm, nextId: int): int
  {
    if Filled(form.name) && studentId !in Owners(rows) then nextId + 1 else nextId
  }

  /** The three cases of the upsert, each with what it leaves alone. */
  lemma UpsertByPresence(rows: seq<ParentRow>, studentId: int, form: ParentForm, nextId: int)
    ensures Filled(form.name) && studentId in Owners(rows) ==>
              var r := UpsertParent(rows, studentId, form, nextId);
              |r| == |rows| &&
              forall i :: 0 <= i < |rows| ==>
                r[i].id == rows[i].id && r[i].studentId == rows[i].studentId &&
                (rows[i].studentId == studentId ==> r[i].name == form.name.value && r[i].contact == ContactOf(form)) &&
                (rows[i].studentId != studentId ==> r[i] == rows[i])
    ensures Filled(form.name) && studentId !in Owners(rows) ==>
              UpsertParent(rows, studentId, form, nextId) ==
                rows + [ParentRow(nextId, studentId, form.name.value, ContactOf(form))]
    ensures !Filled(form.name) ==>
              studentId !in Owners(UpsertParent(rows, studentId, form, nextId)) &&
              forall p :: p in UpsertParent(rows, studentId, form, nextId) <==> p in rows && p.studentId != studentId
  {
  }

  /** After the upsert, a read of the student's record shows the submitted
      name and contact when the name was filled and nothing otherwise; the
      records of every other student read as before. */
  lemma {:induction false} UpsertThenRead(rows: seq<ParentRow>, studentId: int, form: ParentForm, nextId: int)
    ensures var p := ParentOf(UpsertParent(rows, studentId, form, nextId), studentId);
            if Filled(form.name) then p.Some? && p.value.name == form.name.value && p.value.contact == ContactOf(form)
            else p.None?
    ensures forall other :: other != studentId ==>
              ParentOf(UpsertParent(rows, studentId, form, nextId), other) == ParentOf(rows, other)
  {
    if Filled(form.name) {
      var name, contact := form.name.value, ContactOf(form);
      if studentId in Owners(rows) {
        OverwriteRead(rows, studentId, name, contact);
      } else {
        var added := ParentRow(nextId, studentId, name, contact);
        AppendRead(rows, added);
      }
    } else {
      forall other | other != studentId
        ensures ParentOf(DeleteFor(rows, studentId), other) == ParentOf(rows, other)
      {
        DeleteRead(rows, studentId, other);
      }
    }
  }

  lemma {:induction false} OverwriteRead(rows: seq<ParentRow>, studentId: int, name: string, contact: ParentContact)
    ensures var p := ParentOf(OverwriteFor(rows, studentId, name, contact), studentId);
            studentId in Owners(rows) ==> p.Some? && p.value.name == name && p.value.contact == contact
    ensures forall other :: other != studentId ==>
              ParentOf(OverwriteFor(rows, studentId, name, contact), other) == ParentOf(rows, other)
  {
    if rows != [] {
      var r := OverwriteFor(rows, studentId, name, contact);
      assert r[1..] == OverwriteFor(rows[1..], studentId, name, contact);
      assert Owners(rows) == [rows[0].studentId] + Owners(rows[1..]);
      OverwriteRead(rows[1..], studentId, name, contact);
    }
  }

  lemma {:induction false} AppendRead(rows: seq<ParentRow>, added: ParentRow)
    ensures added.studentId !in Owners(rows) ==> ParentOf(rows + [added], added.studentId) == Some(added)
    ensures added.studentId in Owners(rows) ==> ParentOf(rows + [added], added.studentId) == ParentOf(rows, added.studentId)
    ensures forall other :: other != added.studentId ==> ParentOf(rows + [added], other) == ParentOf(rows, other)
  {
    if rows == [] {
      assert [] + [added] == [added];
    } else {
      assert (rows + [added])[1..] == rows[1..] + [added];
      assert Owners(rows) == [rows[0].studentId] + Owners(rows[1..]);
      AppendRead(rows[1..], added);
    }
  }

  lemma {:induction false} DeleteRead(rows: seq<ParentRow>, studentId: int, other: int)
    requires other != studentId
    ensures ParentOf(DeleteFor(rows, studentId), other) == ParentOf(rows, other)
  {
    if rows != [] {
      var rest := DeleteFor(rows[1..], studentId);
      DeleteRead(rows[1..], studentId, other);
      if rows[0].studentId == studentId {
        assert DeleteFor(rows, studentId) == rest;
      } else {
        var r := [rows[0]] + rest;
        assert DeleteFor(rows, studentId) == r;
        assert r[0] == rows[0] && r[1..] == rest;
      }
    }
  }

  /** The upsert keeps the table's keys in order and below the counter, and
      keeps at most one row per student. */
  lemma UpsertKeepsTable(rows: seq<ParentRow>, studentId: int, form: ParentForm, nextId: int)
    requires ParentIdsIncreasing(rows) && ParentIdsBelow(rows, nextId)
    ensures var r := UpsertParent(rows, studentId, form, nextId);
            var next := NextIdAfterUpsert(rows, studentId, form, nextId);
            ParentIdsIncreasing(r) && ParentIdsBelow(r, next) && nextId <= next
    ensures OnePerStudent(rows) ==> OnePerStudent(UpsertParent(rows, studentId, form, nextId))
  {
    if !Filled(form.name) {
      DeleteForIncreasing(rows, studentId);
      var r := DeleteFor(rows, studentId);
      forall i | 0 <= i < |r| ensures r[i].id < nextId {
        assert r[i] in rows;
      }
      if OnePerStudent(rows) {
        DeleteForOnePerStudent(rows, studentId);
      }
    }
  }

  /** `INSERT INTO x_info (student_id, ...)` for a new student. Where the
      table carries UNIQUE(student_id), a second row for the student is
      refused; the statement has no callback, so that failure is not handled. */
  function InsertParent(rows: seq<ParentRow>, row: ParentRow, keyed: bool): seq<ParentRow>
  {
    if keyed && row.studentId in Owners(rows) then rows else rows + [row]
  }

  /** The create handler's parent insert: only for a filled name. */
  function ParentOnCreate(rows: seq<ParentRow>, studentId: int, form: ParentForm, nextId: int, keyed: bool): seq<ParentRow>
  {
    if Filled(form.name) then InsertParent(rows, ParentRow(nextId, studentId, form.name.value, ContactOf(form)), keyed)
    else rows
  }

  /** The AUTOINCREMENT counter after `ParentOnCreate`; a refused insert
      does not advance it. */
  function NextIdAfterCreate(rows: seq<ParentRow>, studentId: int, form: ParentForm, nextId: int, keyed: bool): int
  {
    if Filled(form.name) && !(keyed && studentId in Owners(rows)) then nextId + 1 else nextId
  }

  /** The create-time insert keeps the table's keys in order and below the
      counter, keeps a keyed table at one row per student, gives a student
      without rows exactly the submitted record (or none for an empty name),
      and leaves every other student's record as it was. */
  lemma ParentOnCreateSpec(rows: seq<ParentRow>, studentId: int, form: ParentForm, nextId: int, keyed: bool)
    requires ParentIdsIncreasing(rows) && ParentIdsBelow(rows, nextId)
    ensures var r := ParentOnCreate(rows, studentId, form, nextId, keyed);
            var next := NextIdAfterCreate(rows, studentId, form, nextId, keyed);
            ParentIdsIncreasing(r) && ParentIdsBelow(r, next) && nextId <= next
    ensures keyed && OnePerStudent(rows) ==> OnePerStudent(ParentOnCreate(rows, studentId, form, nextId, keyed))
    ensures studentId !in Owners(rows) ==>
              ParentOf(ParentOnCreate(rows, studentId, form, nextId, keyed), studentId) ==
                if Filled(form.name) then Some(ParentRow(nextId, studentId, form.name.value, ContactOf(form))) else None
    ensures forall other :: other != studentId ==>
              ParentOf(ParentOnCreate(rows, studentId, form, nextId, keyed), other) == ParentOf(rows, other)
    ensures studentId in Owners(rows) ==>
              ParentOf(ParentOnCreate(rows, studentId, form, nextId, keyed), studentId) == ParentOf(rows, studentId)
  {
    if Filled(form.name) {
      var row := ParentRow(nextId, studentId, form.name.value, ContactOf(form));
      AppendRead(rows, row);
    }
  }

  /** The `id` column of `students`. */
  function StudentKeys(rows: seq<StudentRow>): (r: seq<int>)
    ensures |r| == |rows| && forall i :: 0 <= i < |rows| ==> r[i] == rows[i].id
  {
    seq(|rows|, i requires 0 <= i < |rows| => rows[i].id)
  }

  /** The `id` column of `announcements`. */
  function AnnouncementKeys(rows: seq<AnnouncementRow>): (r: seq<int>)
    ensures |r| == |rows| && forall i :: 0 <= i < |rows| ==> r[i] == rows[i].id
  {
    seq(|rows|, i requires 0 <= i < |rows| => rows[i].id)
  }

  /** The `id` column of `guidance_events`. */
  function EventKeys(rows: seq<EventRow>): (r: seq<int>)
    ensures |r| == |rows| && forall i :: 0 <= i < |rows| ==> r[i] == rows[i].id
  {
    seq(|rows|, i requires 0 <= i < |rows| => rows[i].id)
  }

  /** `SELECT s.* FROM students s WHERE s.id = ?`. */
  function StudentOf(rows: seq<StudentRow>, studentId: int): (r: Option<StudentRow>)
    ensures r.Some? ==> r.value in rows && r.value.id == studentId
    ensures r.None? <==> studentId !in StudentKeys(rows)
  {
    if rows == [] then None
    else if rows[0].id == studentId then Some(rows[0])
    else
      assert StudentKeys(rows) == [rows[0].id] + StudentKeys(rows[1..]);
      StudentOf(rows[1..], studentId)
  }

  /** With keys in order, a row's id reads back that row. */
  lemma {:induction false} StudentOfAt(rows: seq<StudentRow>, k: int)
    requires StudentIdsIncreasing(rows) && 0 <= k < |rows|
    ensures StudentOf(rows, rows[k].id) == Some(rows[k])
  {
    if k > 0 {
      assert StudentIdsIncreasing(rows[1..]) by {
        forall i, j | 0 <= i < j < |rows[1..]| ensures rows[1..][i].id < rows[1..][j].id {
          assert rows[1..][i] == rows[i + 1] && rows[1..][j] == rows[j + 1];
        }
      }
      StudentOfAt(rows[1..], k - 1);
    }
  }

  /** An update leaves the keys as they were, and the addressed student, if
      there is one, reads back as the updated row. */
  lemma UpdateStudentRowsSpec(rows: seq<StudentRow>, studentId: int, form: StudentForm, upload: Option<string>, next: int)
    requires form.firstName.Some? && form.lastName.Some? && form.studentNumber.Some?
    requires StudentIdsIncreasing(rows) && StudentIdsBelow(rows, next)
    ensures var r := UpdateStudentRows(rows, studentId, form, upload);
            StudentIdsIncreasing(r) && StudentIdsBelow(r, next) && StudentKeys(r) == StudentKeys(rows)
    ensures StudentOf(rows, studentId).Some? ==>
              StudentOf(UpdateStudentRows(rows, studentId, form, upload), studentId) ==
                Some(UpdatedStudent(StudentOf(rows, studentId).value, form, upload))
    ensures forall i :: 0 <= i < |rows| && rows[i].id != studentId ==>
              UpdateStudentRows(rows, studentId, form, upload)[i] == rows[i]
    ensures forall other :: other != studentId ==>
              StudentOf(UpdateStudentRows(rows, studentId, form, upload), other) == StudentOf(rows, other)
  {
    var r := UpdateStudentRows(rows, studentId, form, upload);
    assert forall i :: 0 <= i < |rows| ==> r[i].id == rows[i].id;
    assert StudentKeys(r) == StudentKeys(rows);
    if StudentOf(rows, studentId).Some? {
      var x := StudentOf(rows, studentId).value;
      var k :| 0 <= k < |rows| && rows[k] == x;
      StudentOfAt(r, k);
    }
    forall other | other != studentId
      ensures StudentOf(r, other) == StudentOf(rows, other)
    {
      SameRowSameLookup(rows, r, other);
    }
  }

  /** Two tables with the same keys in order, which agree on the row with
      a given key, give the same lookup for that key. */
  lemma SameRowSameLookup(rows: seq<StudentRow>, r: seq<StudentRow>, key: int)
    requires StudentIdsIncreasing(rows) && StudentKeys(r) == StudentKeys(rows)
    requires forall i :: 0 <= i < |rows| && rows[i].id == key ==> r[i] == rows[i]
    ensures StudentOf(r, key) == StudentOf(rows, key)
  {
    if key in StudentKeys(rows) {
      var k :| 0 <= k < |rows| && StudentKeys(rows)[k] == key;
      assert StudentKeys(r)[k] == r[k].id;
      assert StudentIdsIncreasing(r) by {
        forall i, j | 0 <= i < j < |r| ensures r[i].id < r[j].id {
          assert StudentKeys(r)[i] == r[i].id && StudentKeys(r)[j] == r[j].id;
        }
      }
      StudentOfAt(rows, k);
      StudentOfAt(r, k);
    }
  }

  /** Appending a row with a fresh, larger id keeps the keys in order, and
      the new id then reads back exactly the appended row. */
  lemma AppendStudentSpec(rows: seq<StudentRow>, row: StudentRow)
    requires StudentIdsIncreasing(rows) && StudentIdsBelow(rows, row.id)
    ensures StudentIdsIncreasing(rows + [row]) && StudentIdsBelow(rows + [row], row.id + 1)
    ensures StudentOf(rows + [row], row.id) == Some(row)
  {
    assert row.id !in StudentKeys(rows);
    StudentOfAppend(rows, row);
  }

  lemma {:induction false} StudentOfAppend(rows: seq<StudentRow>, row: StudentRow)
    requires row.id !in StudentKeys(rows)
    ensures StudentOf(rows + [row], row.id) == Some(row)
  {
    if rows == [] {
      assert [] + [row] == [row];
    } else {
      assert (rows + [row])[1..] == rows[1..] + [row];
      assert StudentKeys(rows) == [rows[0].id] + StudentKeys(rows[1..]);
      StudentOfAppend(rows[1..], row);
    }
  }

  // ---------------------------------------------------------------------
  // Start-up repair: keep the smallest-id row per student
  // ---------------------------------------------------------------------

  /** `r` has the smallest id among the rows of `all` for its student. */
  predicate HoldsMinId(all: seq<ParentRow>, r: ParentRow)
  {
    forall q :: q in all && q.studentId == r.studentId ==> r.id <= q.id
  }

  /** The rows of `rows` that hold the minimum id of their student in `all`. */
  function KeepMinRows(rows: seq<ParentRow>, all: seq<ParentRow>): (r: seq<ParentRow>)
    ensures forall p :: p in r <==> p in rows && HoldsMinId(all, p)
  {
    if rows == [] then []
    else (if HoldsMinId(all, rows[0]) then [rows[0]] else []) + KeepMinRows(rows[1..], all)
  }

  /** `DELETE FROM x_info WHERE id NOT IN (SELECT MIN(id) FROM x_info GROUP BY student_id)`. */
  function Deduplicated(rows: seq<ParentRow>): seq<ParentRow>
  {
    KeepMinRows(rows, rows)
  }

  lemma {:induction false} KeepMinRowsIncreasing(rows: seq<ParentRow>, all: seq<ParentRow>)
    requires ParentIdsIncreasing(rows)
    ensures ParentIdsIncreasing(KeepMinRows(rows, all))
  {
    if rows != [] {
      assert ParentIdsIncreasing(rows[1..]) by {
        forall i, j | 0 <= i < j < |rows[1..]| ensures rows[1..][i].id < rows[1..][j].id {
          assert rows[1..][i] == rows[i + 1] && rows[1..][j] == rows[j + 1];
        }
      }
      KeepMinRowsIncreasing(rows[1..], all);
      var rest := KeepMinRows(rows[1..], all);
      if HoldsMinId(all, rows[0]) {
        var r := [rows[0]] + rest;
        forall j | 0 < j < |r| ensures rows[0].id < r[j].id {
          assert r[j] == rest[j - 1];
          assert rest[j - 1] in rows[1..];
        }
      }
    }
  }

  /** The row with the smallest id of a student that has rows. */
  function MinRowFor(rows: seq<ParentRow>, studentId: int): (r: ParentRow)
    requires studentId in Owners(rows)
    ensures r in rows && r.studentId == studentId && HoldsMinId(rows, r)
  {
    assert Owners(rows) == [rows[0].studentId] + Owners(rows[1..]);
    if rows[0].studentId == studentId && (studentId !in Owners(rows[1..]) || rows[0].id <= MinRowFor(rows[1..], studentId).id) then
      assert forall q :: q in rows ==> q == rows[0] || q in rows[1..];
      rows[0]
    else
      var m := MinRowFor(rows[1..], studentId);
      assert forall q :: q in rows ==> q == rows[0] || q in rows[1..];
      m
  }

  /** After the repair each student has at most one row, the survivor is
      the row with the smallest id, and no student loses all its rows. */
  lemma DeduplicatedSpec(rows: seq<ParentRow>)
    requires ParentIdsIncreasing(rows)
    ensures OnePerStudent(Deduplicated(rows))
    ensures ParentIdsIncreasing(Deduplicated(rows))
    ensures forall p :: p in Deduplicated(rows) <==> p in rows && HoldsMinId(rows, p)
    ensures forall s :: s in Owners(rows) <==> s in Owners(Deduplicated(rows))
  {
    var d := Deduplicated(rows);
    KeepMinRowsIncreasing(rows, rows);
    forall i, j | 0 <= i < j < |d| ensures d[i].studentId != d[j].studentId {
      assert d[i] in d && d[j] in d;
      assert d[i] in rows && HoldsMinId(rows, d[j]);
      assert d[i].id < d[j].id;
    }
    forall s | s in Owners(rows) ensures s in Owners(d) {
      var m := MinRowFor(rows, s);
      assert m in d;
      var k :| 0 <= k < |d| && d[k] == m;
      assert Owners(d)[k] == s;
    }
    forall s | s in Owners(d) ensures s in Owners(rows) {
      var k :| 0 <= k < |d| && Owners(d)[k] == s;
      assert d[k] in rows;
      var i :| 0 <= i < |rows| && rows[i] == d[k];
      assert Owners(rows)[i] == s;
    }
  }

  /** The repair only removes rows, so every key stays below the counter. */
  lemma DeduplicatedBelow(rows: seq<ParentRow>, next: int)
    requires ParentIdsBelow(rows, next)
    ensures ParentIdsBelow(Deduplicated(rows), next)
  {
    var d := Deduplicated(rows);
    forall i | 0 <= i < |d| ensures d[i].id < next {
      assert d[i] in d;
    }
  }

  /** A table that already has one row per student is left as it is, so
      running the repair again changes nothing. */
  lemma DeduplicatedIdempotent(rows: seq<ParentRow>)
    requires ParentIdsIncreasing(rows)
    ensures Deduplicated(Deduplicated(rows)) == Deduplicated(rows)
  {
    DeduplicatedSpec(rows);
    KeepUniqueUnchanged(Deduplicated(rows));
  }

  lemma KeepUniqueUnchanged(rows: seq<ParentRow>)
    requires OnePerStudent(rows)
    ensures Deduplicated(rows) == rows
  {
    forall p | p in rows ensures HoldsMinId(rows, p) {
      forall q | q in rows && q.studentId == p.studentId ensures p.id <= q.id {
        var i :| 0 <= i < |rows| && rows[i] == p;
        var j :| 0 <= j < |rows| && rows[j] == q;
        assert i == j;
      }
    }
    KeepAllWhenAllMin(rows, rows);
  }

  lemma {:induction false} KeepAllWhenAllMin(rows: seq<ParentRow>, all: seq<ParentRow>)
    requires forall p :: p in rows ==> HoldsMinId(all, p)
    ensures KeepMinRows(rows, all) == rows
  {
    if rows != [] {
      assert rows[0] in rows;
      assert forall p :: p in rows[1..] ==> p in rows;
      KeepAllWhenAllMin(rows[1..], all);
    }
  }

  // ---------------------------------------------------------------------
  // Start-up seed of the default education year
  // ---------------------------------------------------------------------

  const DefaultYear: string := "2025-2026"

  /** `INSERT OR IGNORE INTO education_years (year) VALUES (?)`: ignored when
      the UNIQUE `year` already holds the yearLabel. */
  function SeedYear(rows: seq<YearRow>, nextId: int, yearLabel: string): seq<YearRow>
  {
    if yearLabel in Labels(rows) then rows else rows + [YearRow(nextId, yearLabel, true)]
  }

  function NextIdAfterSeed(rows: seq<YearRow>, nextId: int, yearLabel: string): int
  {
    if yearLabel in Labels(rows) then nextId else nextId + 1
  }

  /** The number of rows carrying a yearLabel. */
  function CountLabel(rows: seq<YearRow>, yearLabel: string): nat
  {
    if rows == [] then 0
    else (if rows[0].year == yearLabel then 1 else 0) + CountLabel(rows[1..], yearLabel)
  }

  lemma {:induction false} CountLabelUnique(rows: seq<YearRow>, yearLabel: string)
    requires LabelsUnique(rows)
    ensures CountLabel(rows, yearLabel) == if yearLabel in Labels(rows) then 1 else 0
  {
    if rows != [] {
      assert LabelsUnique(rows[1..]) by {
        forall i, j | 0 <= i < j < |rows[1..]| ensures rows[1..][i].year != rows[1..][j].year {
          assert rows[1..][i] == rows[i + 1] && rows[1..][j] == rows[j + 1];
        }
      }
      CountLabelUnique(rows[1..], yearLabel);
      assert Labels(rows) == [rows[0].year] + Labels(rows[1..]);
      if rows[0].year == yearLabel {
        assert yearLabel !in Labels(rows[1..]);
      }
    }
  }

  /** Seeding leaves exactly one row with the yearLabel whether or not it was
      there, keeps labels unique and keys in order, and a second seeding
      changes nothing. */
  lemma SeedYearSpec(rows: seq<YearRow>, nextId: int, yearLabel: string)
    requires LabelsUnique(rows) && YearIdsIncreasing(rows) && YearIdsBelow(rows, nextId)
    ensures var r := SeedYear(rows, nextId, yearLabel);
            var next := NextIdAfterSeed(rows, nextId, yearLabel);
            CountLabel(r, yearLabel) == 1 && LabelsUnique(r) &&
            YearIdsIncreasing(r) && YearIdsBelow(r, next) &&
            SeedYear(r, next, yearLabel) == r && NextIdAfterSeed(r, next, yearLabel) == next
  {
    var r := SeedYear(rows, nextId, yearLabel);
    if yearLabel !in Labels(rows) {
      assert Labels(r) == Labels(rows) + [yearLabel];
    }
    assert yearLabel in Labels(r);
    CountLabelUnique(r, yearLabel);
  }

  // ---------------------------------------------------------------------
  // Conditional overwrites
  // ---------------------------------------------------------------------

  /** The row a student update writes: every column from the form except
      `photo`, which changes only when a file is uploaded. */
  function UpdatedStudent(s: StudentRow, form: StudentForm, upload: Option<string>): StudentRow
    requires form.firstName.Some? && form.lastName.Some? && form.studentNumber.Some?
  {
    StudentRow(s.id, if upload.Some? then upload else s.photo,
               form.firstName.value, form.lastName.value, form.classId, form.educationYearId,
               form.isActive, ProfileOf(form))
  }

  function ProfileOf(form: StudentForm): Profile
    requires form.studentNumber.Some?
  {
    Profile(form.studentNumber.value, form.birthDate, form.healthInfo, form.parentsTogether,
            form.isBilsem, form.specialConditions)
  }

  /** `UPDATE students SET ... WHERE id = ?`. */
  function UpdateStudentRows(rows: seq<StudentRow>, studentId: int, form: StudentForm, upload: Option<string>): seq<StudentRow>
    requires form.firstName.Some? && form.lastName.Some? && form.studentNumber.Some?
  {
    seq(|rows|, i requires 0 <= i < |rows| =>
          if rows[i].id == studentId then UpdatedStudent(rows[i], form, upload) else rows[i])
  }

  /** A student's photo is replaced exactly when a file is uploaded. */
  lemma PhotoOnlyWithUpload(s: StudentRow, form: StudentForm, upload: Option<string>)
    requires form.firstName.Some? && form.lastName.Some? && form.studentNumber.Some?
    ensures UpdatedStudent(s, form, upload).photo == s.photo <==> upload.None? || upload == s.photo
    ensures UpdatedStudent(s, form, upload).id == s.id
  {
  }

  /** `UPDATE guidance_events SET date = ?, event_name = ?, description = ?
      [, file_path = ?] WHERE id = ?`. */
  function UpdatedEvent(e: EventRow, date: string, eventName: string, description: Option<string>,
                        upload: Option<string>): EventRow
  {
    EventRow(e.id, e.planId, date, eventName, description, if upload.Some? then upload else e.filePath)
  }

  function UpdateEventRows(rows: seq<EventRow>, id: int, date: string, eventName: string,
                           description: Option<string>, upload: Option<string>): (r: seq<EventRow>)
    ensures EventKeys(r) == EventKeys(rows)
    ensures forall i :: 0 <= i < |rows| ==> r[i].planId == rows[i].planId
    ensures forall i :: 0 <= i < |rows| && rows[i].id == id ==>
              r[i].date == date && r[i].eventName == eventName && r[i].description == description
    ensures forall i :: 0 <= i < |rows| && rows[i].id != id ==> r[i] == rows[i]
  {
    var r := seq(|rows|, i requires 0 <= i < |rows| =>
                   if rows[i].id == id then UpdatedEvent(rows[i], date, eventName, description, upload) else rows[i]);
    assert EventKeys(r) == EventKeys(rows);
    r
  }

  /** Without an upload no event's attachment changes; with one, only the
      addressed event's does, and to the uploaded file. */
  lemma EventFileOnlyWithUpload(rows: seq<EventRow>, id: int, date: string, eventName: string,
                                description: Option<string>, upload: Option<string>)
    ensures var r := UpdateEventRows(rows, id, date, eventName, description, upload);
            forall i :: 0 <= i < |rows| ==>
              r[i].filePath == if rows[i].id == id && upload.Some? then upload else rows[i].filePath
  {
  }

  /** `UPDATE announcements SET title = ?, event_date = ?, is_shared = ?,
      shared_date = ?, notes = ? WHERE id = ?`. */
  function UpdateAnnouncementRows(rows: seq<AnnouncementRow>, id: int, title: string, eventDate: Option<string>,
                                  isShared: bool, sharedDate: Option<string>, notes: Option<string>): (r: seq<AnnouncementRow>)
    ensures AnnouncementKeys(r) == AnnouncementKeys(rows)
    ensures forall i :: 0 <= i < |rows| ==>
              r[i].classId == rows[i].classId && r[i].educationYearId == rows[i].educationYearId
    ensures forall i :: 0 <= i < |rows| && rows[i].id == id ==>
              r[i].title == title && r[i].eventDate == eventDate && r[i].isShared == isShared &&
              r[i].sharedDate == sharedDate && r[i].notes == notes
    ensures forall i :: 0 <= i < |rows| && rows[i].id != id ==> r[i] == rows[i]
  {
    var r := seq(|rows|, i requires 0 <= i < |rows| =>
                   if rows[i].id == id
                   then rows[i].(title := title, eventDate := eventDate, isShared := isShared,
                                 sharedDate := sharedDate, notes := notes)
                   else rows[i]);
    assert AnnouncementKeys(r) == AnnouncementKeys(rows);
    r
  }
}
