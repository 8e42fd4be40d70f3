/** The class roster query: the active students of a class, each joined with
    its mother's and father's contact rows, ordered by last name and then
    first name. */
module ClassListing {
  import opened Js
  import opened StoreTables

  /** One result row: the student's columns and the joined parent columns,
      NULL when the join found no parent row. */
  datatype ListedStudent = ListedStudent(student: StudentRow,
                                         motherName: Option<string>, motherPhone: Option<string>,
                                         motherEmail: Option<string>,
                                         fatherName: Option<string>, fatherPhone: Option<string>,
                                         fatherEmail: Option<string>)

  function NameOf(p: Option<ParentRow>): Option<string>
  {
    if p.Some? then Some(p.value.name) else None
  }

  function PhoneOf(p: Option<ParentRow>): Option<string>
  {
    if p.Some? then p.value.contact.phone else None
  }

  function EmailOf(p: Option<ParentRow>): Option<string>
  {
    if p.Some? then p.value.contact.email else None
  }

  function Listed(s: StudentRow, m: Option<ParentRow>, f: Option<ParentRow>): ListedStudent
  {
    ListedStudent(s, NameOf(m), PhoneOf(m), EmailOf(m), NameOf(f), PhoneOf(f), EmailOf(f))
  }

  /** `WHERE s.class_id = ? AND s.is_active = 1`. */
  predicate Listable(s: StudentRow, classId: int)
  {
    s.classId == Some(classId) && s.isActive == Some(true)
  }

  // ---------------------------------------------------------------------
  // The LEFT JOINs
  // ---------------------------------------------------------------------

  /** The rows of a parent table that belong to a student, in table order. */
  function RowsFor(rows: seq<ParentRow>, studentId: int): (r: seq<ParentRow>)
    ensures forall p :: p in r <==> p in rows && p.studentId == studentId
  {
    if rows == [] then []
    else (if rows[0].studentId == studentId then [rows[0]] else []) + RowsFor(rows[1..], studentId)
  }

  /** What a LEFT JOIN pairs a student with: each of its rows, or a single
      row of NULLs when it has none. */
  function Partners(rows: seq<ParentRow>, studentId: int): (r: seq<Option<ParentRow>>)
    ensures r != []
    ensures forall x :: x in r <==>
              if studentId in Owners(rows) then x.Some? && x.value in rows && x.value.studentId == studentId
              else x == None
  {
    var own := RowsFor(rows, studentId);
    if own == [] then
      [None]
    else
      assert studentId in Owners(rows) by {
        assert own[0] in rows;
        var i :| 0 <= i < |rows| && rows[i] == own[0];
        assert Owners(rows)[i] == studentId;
      }
      Somes(own)
  }

  /** Each row, as a present join partner. */
  function Somes(rows: seq<ParentRow>): (r: seq<Option<ParentRow>>)
    ensures |r| == |rows|
    ensures forall x :: x in r <==> x.Some? && x.value in rows
  {
    if rows == [] then []
    else
      assert forall p :: p in rows <==> p == rows[0] || p in rows[1..];
      [Some(rows[0])] + Somes(rows[1..])
  }

  /** The joined rows of one student: every mother partner with every father
      partner. */
  function JoinStudent(s: StudentRow, ms: seq<Option<ParentRow>>, fs: seq<Option<ParentRow>>): (r: seq<ListedStudent>)
    ensures forall l :: l in r <==> exists m, f :: m in ms && f in fs && l == Listed(s, m, f)
  {
    if ms == [] then []
    else
      assert forall m :: m in ms <==> m == ms[0] || m in ms[1..];
      WithEachFather(s, ms[0], fs) + JoinStudent(s, ms[1..], fs)
  }

  /** One mother partner with every father partner. */
  function WithEachFather(s: StudentRow, m: Option<ParentRow>, fs: seq<Option<ParentRow>>): (r: seq<ListedStudent>)
    ensures forall l :: l in r <==> exists f :: f in fs && l == Listed(s, m, f)
  {
    if fs == [] then []
    else
      assert forall f :: f in fs <==> f == fs[0] || f in fs[1..];
      [Listed(s, m, fs[0])] + WithEachFather(s, m, fs[1..])
  }

  /** The joined rows of the students that pass the filter, in table order. */
  function Joined(students: seq<StudentRow>, mothers: seq<ParentRow>, fathers: seq<ParentRow>, classId: int): seq<ListedStudent>
  {
    if students == [] then []
    else
      var s := students[0];
      (if Listable(s, classId) then JoinStudent(s, Partners(mothers, s.id), Partners(fathers, s.id)) else [])
      + Joined(students[1..], mothers, fathers, classId)
  }

  /** A row is in the join exactly when it pairs a listable student with one
      of its mother partners and one of its father partners. */
  lemma {:induction false} JoinedMembers(students: seq<StudentRow>, mothers: seq<ParentRow>, fathers: seq<ParentRow>,
                                         classId: int, l: ListedStudent)
    ensures l in Joined(students, mothers, fathers, classId) <==>
              exists s, m, f :: s in students && Listable(s, classId) &&
                                m in Partners(mothers, s.id) && f in Partners(fathers, s.id) && l == Listed(s, m, f)
  {
    if students != [] {
      JoinedMembers(students[1..], mothers, fathers, classId, l);
      assert forall s :: s in students <==> s == students[0] || s in students[1..];
    }
  }

  // ---------------------------------------------------------------------
  // With one parent row per student
  // ---------------------------------------------------------------------

  /** With at most one row per student, a student's rows are its first row
      or nothing. */
  lemma {:induction false} RowsForOne(rows: seq<ParentRow>, studentId: int)
    requires OnePerStudent(rows)
    ensures RowsFor(rows, studentId) == if ParentOf(rows, studentId).Some? then [ParentOf(rows, studentId).value] else []
  {
    if rows != [] {
      assert OnePerStudent(rows[1..]) by {
        forall i, j | 0 <= i < j < |rows[1..]| ensures rows[1..][i].studentId != rows[1..][j].studentId {
          assert rows[1..][i] == rows[i + 1] && rows[1..][j] == rows[j + 1];
        }
      }
      RowsForOne(rows[1..], studentId);
    }
  }

  lemma PartnersOne(rows: seq<ParentRow>, studentId: int)
    requires OnePerStudent(rows)
    ensures Partners(rows, studentId) == [ParentOf(rows, studentId)]
  {
    RowsForOne(rows, studentId);
  }

  /** The roster one row per student expects: each listable student with its
      mother and father record, in table order. */
  function OneRowEach(students: seq<StudentRow>, mothers: seq<ParentRow>, fathers: seq<ParentRow>, classId: int): (r: seq<ListedStudent>)
    ensures |r| <= |students|
  {
    if students == [] then []
    else
      var s := students[0];
      (if Listable(s, classId) then [Listed(s, ParentOf(mothers, s.id), ParentOf(fathers, s.id))] else [])
      + OneRowEach(students[1..], mothers, fathers, classId)
  }

  /** Once the parent tables hold one row per student, the join returns one
      row per listable student and no more. */
  lemma {:induction false} JoinedOneRowEach(students: seq<StudentRow>, mothers: seq<ParentRow>, fathers: seq<ParentRow>, classId: int)
    requires OnePerStudent(mothers) && OnePerStudent(fathers)
    ensures Joined(students, mothers, fathers, classId) == OneRowEach(students, mothers, fathers, classId)
  {
    if students != [] {
      var s := students[0];
      JoinedOneRowEach(students[1..], mothers, fathers, classId);
      PartnersOne(mothers, s.id);
      PartnersOne(fathers, s.id);
      var m, f := ParentOf(mothers, s.id), ParentOf(fathers, s.id);
      var ms, fs := Partners(mothers, s.id), Partners(fathers, s.id);
      assert ms[1..] == [] && fs[1..] == [];
      assert WithEachFather(s, m, fs) == [Listed(s, m, f)] + WithEachFather(s, m, fs[1..]);
      assert JoinStudent(s, ms[1..], fs) == [];
      assert JoinStudent(s, ms, fs) == [Listed(s, m, f)];
    }
  }

  // ---------------------------------------------------------------------
  // ORDER BY s.last_name, s.first_name
  // ---------------------------------------------------------------------

  /** SQLite's BINARY collation: code point by code point, and a proper
      prefix first. */
  predicate LexLeq(a: string, b: string)
  {
    if a == [] then true
    else if b == [] then false
    else if a[0] < b[0] then true
    else if a[0] > b[0] then false
    else LexLeq(a[1..], b[1..])
  }

  lemma {:induction false} LexLeqTotal(a: string, b: string)
    ensures LexLeq(a, b) || LexLeq(b, a)
  {
    if a != [] && b != [] && a[0] == b[0] {
      LexLeqTotal(a[1..], b[1..]);
    }
  }

  lemma {:induction false} LexLeqReflexive(a: string)
    ensures LexLeq(a, a)
  {
    if a != [] {
      LexLeqReflexive(a[1..]);
    }
  }

  lemma {:induction false} LexLeqAntisymmetric(a: string, b: string)
    requires LexLeq(a, b) && LexLeq(b, a)
    ensures a == b
  {
    if a != [] && b != [] {
      LexLeqAntisymmetric(a[1..], b[1..]);
      assert a == [a[0]] + a[1..] && b == [b[0]] + b[1..];
    }
  }

  lemma {:induction false} LexLeqTransitive(a: string, b: string, c: string)
    requires LexLeq(a, b) && LexLeq(b, c)
    ensures LexLeq(a, c)
  {
    if a != [] && b != [] && c != [] && a[0] == b[0] == c[0] {
      LexLeqTransitive(a[1..], b[1..], c[1..]);
    }
  }

  /** `x` may come before `y`: a smaller last name, or the same last name
      and a first name that is not larger. */
  predicate NameLeq(x: ListedStudent, y: ListedStudent)
  {
    var a, b := x.student, y.student;
    (LexLeq(a.lastName, b.lastName) && a.lastName != b.lastName) ||
    (a.lastName == b.lastName && LexLeq(a.firstName, b.firstName))
  }

  lemma NameLeqTotal(x: ListedStudent, y: ListedStudent)
    ensures NameLeq(x, y) || NameLeq(y, x)
  {
    LexLeqTotal(x.student.lastName, y.student.lastName);
    LexLeqTotal(x.student.firstName, y.student.firstName);
  }

  lemma NameLeqTransitive(x: ListedStudent, y: ListedStudent, z: ListedStudent)
    requires NameLeq(x, y) && NameLeq(y, z)
    ensures NameLeq(x, z)
  {
    var a, b, c := x.student, y.student, z.student;
    LexLeqReflexive(a.lastName);
    LexLeqReflexive(b.lastName);
    LexLeqTransitive(a.lastName, b.lastName, c.lastName);
    if a.lastName == c.lastName {
      LexLeqAntisymmetric(a.lastName, b.lastName);
      LexLeqTransitive(a.firstName, b.firstName, c.firstName);
    }
  }

  predicate SortedByName(xs: seq<ListedStudent>)
  {
    forall i, j :: 0 <= i < j < |xs| ==> NameLeq(xs[i], xs[j])
  }

  /** Insert one row after the rows that may come before it. */
  function InsertByName(x: ListedStudent, xs: seq<ListedStudent>): seq<ListedStudent>
  {
    if xs == [] then [x]
    else if NameLeq(x, xs[0]) then [x] + xs
    else [xs[0]] + InsertByName(x, xs[1..])
  }

  lemma {:induction false} InsertByNameSpec(x: ListedStudent, xs: seq<ListedStudent>)
    requires SortedByName(xs)
    ensures multiset(InsertByName(x, xs)) == multiset(xs) + multiset{x}
    ensures SortedByName(InsertByName(x, xs))
  {
    if xs != [] {
      assert xs == [xs[0]] + xs[1..];
      if NameLeq(x, xs[0]) {
        var r := [x] + xs;
        forall j | 0 < j < |r| ensures NameLeq(x, r[j]) {
          if j > 1 {
            NameLeqTransitive(x, xs[0], xs[j - 1]);
          }
        }
      } else {
        NameLeqTotal(x, xs[0]);
        assert SortedByName(xs[1..]) by {
          forall i, j | 0 <= i < j < |xs[1..]| ensures NameLeq(xs[1..][i], xs[1..][j]) {
            assert xs[1..][i] == xs[i + 1] && xs[1..][j] == xs[j + 1];
          }
        }
        InsertByNameSpec(x, xs[1..]);
        var rest := InsertByName(x, xs[1..]);
        var r := [xs[0]] + rest;
        forall j | 0 < j < |r| ensures NameLeq(xs[0], r[j]) {
          assert r[j] in multiset(rest);
          assert r[j] == x || r[j] in xs[1..];
        }
      }
    }
  }

  /** Insertion sort by name. */
  function SortByName(xs: seq<ListedStudent>): seq<ListedStudent>
  {
    if xs == [] then [] else InsertByName(xs[0], SortByName(xs[1..]))
  }

  /** The sort orders the rows by name and neither loses nor adds one. */
  lemma {:induction false} SortByNameSpec(xs: seq<ListedStudent>)
    ensures SortedByName(SortByName(xs))
    ensures multiset(SortByName(xs)) == multiset(xs)
  {
    if xs != [] {
      SortByNameSpec(xs[1..]);
      InsertByNameSpec(xs[0], SortByName(xs[1..]));
      assert xs == [xs[0]] + xs[1..];
    }
  }

  /** `GET /api/students/:classId`. */
  function ClassList(students: seq<StudentRow>, mothers: seq<ParentRow>, fathers: seq<ParentRow>, classId: int): seq<ListedStudent>
  {
    SortByName(Joined(students, mothers, fathers, classId))
  }

  /** The roster is ordered by name, is the join's rows with their
      multiplicities, and holds a row exactly for the listable students and
      their parent partners; with one parent row per student it holds one
      row per listable student, carrying that student's parent records. */
  lemma ClassListSpec(students: seq<StudentRow>, mothers: seq<ParentRow>, fathers: seq<ParentRow>, classId: int)
    ensures var r := ClassList(students, mothers, fathers, classId);
            SortedByName(r) && multiset(r) == multiset(Joined(students, mothers, fathers, classId))
    ensures forall l :: l in ClassList(students, mothers, fathers, classId) <==>
              (exists s, m, f :: s in students && Listable(s, classId) &&
                                 m in Partners(mothers, s.id) && f in Partners(fathers, s.id) && l == Listed(s, m, f))
    ensures OnePerStudent(mothers) && OnePerStudent(fathers) ==>
              multiset(ClassList(students, mothers, fathers, classId)) == multiset(OneRowEach(students, mothers, fathers, classId))
  {
    var j := Joined(students, mothers, fathers, classId);
    SortByNameSpec(j);
    forall l ensures l in ClassList(students, mothers, fathers, classId) <==> l in j {
      assert l in ClassList(students, mothers, fathers, classId) <==> l in multiset(ClassList(students, mothers, fathers, classId));
      assert l in j <==> l in multiset(j);
    }
    forall l
      ensures l in j <==>
                (exists s, m, f :: s in students && Listable(s, classId) &&
                                   m in Partners(mothers, s.id) && f in Partners(fathers, s.id) && l == Listed(s, m, f))
    {
      JoinedMembers(students, mothers, fathers, classId, l);
    }
    if OnePerStudent(mothers) && OnePerStudent(fathers) {
      JoinedOneRowEach(students, mothers, fathers, classId);
    }
  }

  /** A student of the class who is active appears in the roster, and an
      inactive student or one of another class never does. */
  lemma ListedIffListable(students: seq<StudentRow>, mothers: seq<ParentRow>, fathers: seq<ParentRow>,
                          classId: int, s: StudentRow)
    requires s in students
    ensures (exists l :: l in ClassList(students, mothers, fathers, classId) && l.student == s) <==> Listable(s, classId)
  {
    ClassListSpec(students, mothers, fathers, classId);
    if Listable(s, classId) {
      var m := Partners(mothers, s.id)[0];
      var f := Partners(fathers, s.id)[0];
      assert m in Partners(mothers, s.id) && f in Partners(fathers, s.id);
      assert Listed(s, m, f) in ClassList(students, mothers, fathers, classId);
    }
  }
}
