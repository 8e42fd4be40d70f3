/** The transfer screen: the teacher picks students of the current class,
    a target education year and a target class, and sends one batch
    transfer request. Loading data and sending the request are done by the
    browser; here they are parameters of the methods. */
module TransferScreen {
  import opened Js
  import opened Sequences
  import RequestRules

  datatype ClassStudent = ClassStudent(id: int, firstName: string, lastName: string, studentNumber: string)

  datatype TargetClass = TargetClass(id: int, name: string, educationYearId: int)

  datatype TargetYear = TargetYear(id: int, year: string, isActive: bool)

  /** `students.map(s => s.id)`. */
  function StudentIds(students: seq<ClassStudent>): seq<int>
  {
    seq(|students|, i requires 0 <= i < |students| => students[i].id)
  }

  // ---------------------------------------------------------------------
  // Selecting students
  // ---------------------------------------------------------------------

  /** `prev.filter(id => id !== studentId)`. */
  function Without(selection: seq<int>, studentId: int): seq<int>
  {
    if selection == [] then []
    else (if selection[0] == studentId then [] else [selection[0]]) + Without(selection[1..], studentId)
  }

  /** The filter drops every occurrence of the id and keeps every other
      occurrence of every other id, in the original order. */
  lemma {:induction false} WithoutSpec(selection: seq<int>, studentId: int)
    ensures forall x :: multiset(Without(selection, studentId))[x] ==
                        if x == studentId then 0 else multiset(selection)[x]
    ensures IsSubsequence(Without(selection, studentId), selection)
  {
    if selection != [] {
      var rest := Without(selection[1..], studentId);
      WithoutSpec(selection[1..], studentId);
      assert selection == [selection[0]] + selection[1..];
      assert multiset(selection) == multiset([selection[0]]) + multiset(selection[1..]);
      if selection[0] == studentId {
        assert Without(selection, studentId) == rest;
        assert rest != [] ==> rest[0] != selection[0] by {
          if rest != [] {
            assert rest[0] in multiset(rest);
          }
        }
      } else {
        assert Without(selection, studentId) == [selection[0]] + rest;
        assert ([selection[0]] + rest)[1..] == rest;
      }
    }
  }

  lemma {:induction false} WithoutAppend(a: seq<int>, b: seq<int>, studentId: int)
    ensures Without(a + b, studentId) == Without(a, studentId) + Without(b, studentId)
  {
    if a == [] {
      assert a + b == b;
    } else {
      assert (a + b)[0] == a[0];
      assert (a + b)[1..] == a[1..] + b;
      WithoutAppend(a[1..], b, studentId);
    }
  }

  lemma {:induction false} WithoutAbsent(selection: seq<int>, studentId: int)
    requires studentId !in selection
    ensures Without(selection, studentId) == selection
  {
    if selection != [] {
      assert selection[0] != studentId;
      assert studentId !in selection[1..];
      WithoutAbsent(selection[1..], studentId);
    }
  }

  /** `handleStudentSelect`: a selected id is unselected, any other id is
      appended. */
  function Toggled(selection: seq<int>, studentId: int): seq<int>
  {
    if studentId in selection then Without(selection, studentId) else selection + [studentId]
  }

  /** Toggling an id that is selected removes every occurrence of it and
      keeps the other ids with their multiplicities and order. */
  lemma ToggleSelectedRemoves(selection: seq<int>, studentId: int)
    requires studentId in selection
    ensures studentId !in Toggled(selection, studentId)
    ensures forall x :: x != studentId ==> multiset(Toggled(selection, studentId))[x] == multiset(selection)[x]
    ensures IsSubsequence(Toggled(selection, studentId), selection)
    ensures |Toggled(selection, studentId)| < |selection|
  {
    WithoutSpec(selection, studentId);
    WithoutShorter(selection, studentId);
    assert multiset(Toggled(selection, studentId))[studentId] == 0;
  }

  lemma {:induction false} WithoutShorter(selection: seq<int>, studentId: int)
    ensures |Without(selection, studentId)| <= |selection|
    ensures studentId in selection ==> |Without(selection, studentId)| < |selection|
  {
    if selection != [] {
      WithoutShorter(selection[1..], studentId);
      assert studentId in selection && selection[0] != studentId ==> studentId in selection[1..];
    }
  }

  /** Toggling an id that is not selected, then toggling it again, gives
      back the original selection. */
  lemma ToggleTwiceRestores(selection: seq<int>, studentId: int)
    requires studentId !in selection
    ensures Toggled(selection, studentId) == selection + [studentId]
    ensures Toggled(Toggled(selection, studentId), studentId) == selection
  {
    WithoutAppend(selection, [studentId], studentId);
    WithoutAbsent(selection, studentId);
  }

  /** A selection without repeated ids keeps that property under toggling. */
  lemma ToggleKeepsDistinct(selection: seq<int>, studentId: int)
    requires Distinct(selection)
    ensures Distinct(Toggled(selection, studentId))
  {
    if studentId in selection {
      WithoutDistinct(selection, studentId);
    }
  }

  lemma {:induction false} WithoutDistinct(selection: seq<int>, studentId: int)
    requires Distinct(selection)
    ensures Distinct(Without(selection, studentId))
  {
    if selection != [] {
      var rest := Without(selection[1..], studentId);
      assert Distinct(selection[1..]) by {
        forall i, j | 0 <= i < j < |selection[1..]| ensures selection[1..][i] != selection[1..][j] {
          assert selection[1..][i] == selection[i + 1] && selection[1..][j] == selection[j + 1];
        }
      }
      WithoutDistinct(selection[1..], studentId);
      WithoutSpec(selection[1..], studentId);
      assert selection[0] !in selection[1..];
      assert multiset(selection[1..])[selection[0]] == 0;
      assert selection[0] !in rest by {
        assert multiset(rest)[selection[0]] == 0;
      }
    }
  }

  /** `handleSelectAll`: when as many ids are selected as there are
      students, the selection is cleared; otherwise every student of the
      list is selected, in list order. */
  function SelectAllResult(selection: seq<int>, students: seq<ClassStudent>): (r: seq<int>)
    ensures |selection| == |students| ==> r == []
    ensures |selection| != |students| ==>
              |r| == |students| && forall i :: 0 <= i < |r| ==> r[i] == students[i].id
  {
    if |selection| == |students| then [] else StudentIds(students)
  }

  /** Pressing "select all" on a partial selection selects everybody, and
      pressing it again clears the selection. */
  lemma SelectAllThenClear(selection: seq<int>, students: seq<ClassStudent>)
    requires |selection| != |students|
    ensures forall s :: s in students ==> s.id in SelectAllResult(selection, students)
    ensures SelectAllResult(SelectAllResult(selection, students), students) == []
  {
    var r := SelectAllResult(selection, students);
    forall s | s in students ensures s.id in r {
      var i :| 0 <= i < |students| && students[i] == s;
      assert r[i] == s.id;
    }
  }

  // ---------------------------------------------------------------------
  // The target and the request
  // ---------------------------------------------------------------------

  /** `xs.find(p)`: the index of the first element satisfying `p`. */
  function FindFirst<T>(xs: seq<T>, p: T -> bool): (r: Option<nat>)
    ensures r.Some? ==> r.value < |xs| && p(xs[r.value]) &&
                        forall j :: 0 <= j < r.value ==> !p(xs[j])
    ensures r.None? ==> forall j :: 0 <= j < |xs| ==> !p(xs[j])
  {
    if xs == [] then None
    else if p(xs[0]) then Some(0)
    else
      match FindFirst(xs[1..], p)
      case None => None
      case Some(k) => Some(k + 1)
  }

  /** `getTargetClassName`: the chosen class and year as "name (year)", or
      the empty text unless both are found among the loaded ones. */
  function TargetClassName(classes: seq<TargetClass>, years: seq<TargetYear>,
                           targetClassId: Option<int>, targetYearId: Option<int>): (r: string)
    ensures r == "" <==>
              (forall c :: c in classes ==> Some(c.id) != targetClassId) ||
              (forall y :: y in years ==> Some(y.id) != targetYearId)
    ensures r != "" ==>
              exists i, j :: 0 <= i < |classes| && 0 <= j < |years| &&
                Some(classes[i].id) == targetClassId && Some(years[j].id) == targetYearId &&
                (forall k :: 0 <= k < i ==> Some(classes[k].id) != targetClassId) &&
                (forall k :: 0 <= k < j ==> Some(years[k].id) != targetYearId) &&
                r == classes[i].name + " (" + years[j].year + ")"
  {
    var c := FindFirst(classes, (c: TargetClass) => Some(c.id) == targetClassId);
    var y := FindFirst(years, (y: TargetYear) => Some(y.id) == targetYearId);
    if c.Some? && y.Some? then
      var r := classes[c.value].name + " (" + years[y.value].year + ")";
      assert r[|classes[c.value].name|] == ' ';
      r
    else ""
  }

  /** The early return of `handleTransfer` is not taken. */
  predicate CanTransfer(selection: seq<int>, targetClassId: Option<int>, targetYearId: Option<int>)
  {
    FilledId(targetClassId) && FilledId(targetYearId) && |selection| != 0
  }

  /** The JSON body `handleTransfer` posts. */
  function RequestBody(selection: seq<int>, targetClassId: Option<int>, targetYearId: Option<int>): RequestRules.TransferRequest
  {
    RequestRules.TransferRequest(
      Array(seq(|selection|, i requires 0 <= i < |selection| => Number(selection[i]))),
      targetClassId, targetYearId)
  }

  /** The screen's guard is exactly the server's validation: every request
      the screen sends passes it, and every state it refuses to send from
      would be rejected by it. */
  lemma GuardMatchesServer(selection: seq<int>, targetClassId: Option<int>, targetYearId: Option<int>)
    ensures RequestRules.ValidateTransfer(RequestBody(selection, targetClassId, targetYearId)).Ok?
            <==> CanTransfer(selection, targetClassId, targetYearId)
    ensures CanTransfer(selection, targetClassId, targetYearId) ==>
              RequestRules.ValidateTransfer(RequestBody(selection, targetClassId, targetYearId)).value ==
              RequestRules.TransferPlan(RequestBody(selection, targetClassId, targetYearId).studentIds.items,
                                        targetClassId.value, targetYearId.value)
  {
  }

  /** How the request ended: `response.ok`, an error response, or a thrown
      `fetch`. */
  datatype TransferOutcome = Succeeded | Refused | Failed

  class TransferView {
    var students: seq<ClassStudent>
    var targetClasses: seq<TargetClass>
    var targetYears: seq<TargetYear>
    var selected: seq<int>
    var targetClassId: Option<int>
    var targetYearId: Option<int>
    var showConfirm: bool

    /** The screen once the class list and the years have been loaded. */
    constructor (students: seq<ClassStudent>, years: seq<TargetYear>)
      ensures this.students == students && targetYears == years && targetClasses == []
      ensures selected == [] && targetClassId == None && targetYearId == None && !showConfirm
    {
      this.students := students;
      targetYears := years;
      targetClasses := [];
      selected := [];
      targetClassId := None;
      targetYearId := None;
      showConfirm := false;
    }

    /** `handleStudentSelect`. */
    method SelectStudent(studentId: int)
      modifies this`selected
      ensures selected == Toggled(old(selected), studentId)
    {
      if studentId in selected {
        selected := Without(selected, studentId);
      } else {
        selected := selected + [studentId];
      }
    }

    /** `handleSelectAll`. */
    method SelectAll()
      modifies this`selected
      ensures selected == SelectAllResult(old(selected), students)
    {
      if |selected| == |students| {
        selected := [];
      } else {
        selected := StudentIds(students);
      }
    }

    /** `handleYearChange`: a new year forgets the chosen class. The class
        list of the new year arrives later, through `TargetClassesLoaded`. */
    method ChangeYear(yearId: int)
      modifies this`targetYearId, this`targetClassId
      ensures targetYearId == Some(yearId) && targetClassId == None
      ensures !CanTransfer(selected, targetClassId, targetYearId)
    {
      targetYearId := Some(yearId);
      targetClassId := None;
    }

    /** The class drop-down: `setTargetClassId(Number(value))`. */
    method ChooseClass(classId: int)
      modifies this`targetClassId
      ensures targetClassId == Some(classId)
    {
      targetClassId := Some(classId);
    }

    /** `fetchTargetClasses` delivering its result. */
    method TargetClassesLoaded(classes: seq<TargetClass>)
      modifies this`targetClasses
      ensures targetClasses == classes
    {
      targetClasses := classes;
    }

    /** The "transfer" button opening the confirmation dialog. */
    method AskConfirmation()
      modifies this`showConfirm
      ensures showConfirm
    {
      showConfirm := true;
    }

    /** The dialog's "cancel" button. */
    method CancelConfirmation()
      modifies this`showConfirm
      ensures !showConfirm
    {
      showConfirm := false;
    }

    /** `getTargetClassName` over the loaded lists. */
    method TargetName() returns (name: string)
      ensures name == TargetClassName(targetClasses, targetYears, targetClassId, targetYearId)
      ensures name == "" <==>
                (forall c :: c in targetClasses ==> Some(c.id) != targetClassId) ||
                (forall y :: y in targetYears ==> Some(y.id) != targetYearId)
    {
      name := TargetClassName(targetClasses, targetYears, targetClassId, targetYearId);
    }

    /** `handleTransfer`: nothing is sent unless both targets are set and a
        student is selected; after a successful response the selection and
        both targets are reset and the dialog is closed, after a failure
        nothing changes. */
    method HandleTransfer(outcome: TransferOutcome) returns (request: Option<RequestRules.TransferRequest>)
      modifies this`selected, this`targetClassId, this`targetYearId, this`showConfirm
      ensures request.None? <==> !CanTransfer(old(selected), old(targetClassId), old(targetYearId))
      ensures request.Some? ==>
                request.value == RequestBody(old(selected), old(targetClassId), old(targetYearId))
      ensures request.Some? && outcome == Succeeded ==>
                selected == [] && targetClassId == None && targetYearId == None && !showConfirm
      ensures request.None? || outcome != Succeeded ==>
                selected == old(selected) && targetClassId == old(targetClassId) &&
                targetYearId == old(targetYearId) && showConfirm == old(showConfirm)
    {
      if !FilledId(targetClassId) || !FilledId(targetYearId) || |selected| == 0 {
        return None;
      }
      request := Some(RequestBody(selected, targetClassId, targetYearId));
      if outcome == Succeeded {
        selected := [];
        targetClassId := None;
        targetYearId := None;
        showConfirm := false;
      }
    }
  }
}
