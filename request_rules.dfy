/** The request checks of the server's handlers that are plain expressions
    over their inputs: the parent-phone pattern, the `is_shared` coercion
    and the validation of a batch transfer. */
module RequestRules {
  import opened Js

  // ---------------------------------------------------------------------
  // Parent phone numbers: /^[0-9+\s\-\(\)]*$/
  // ---------------------------------------------------------------------

  /** One character of the bracket class `[0-9+\s\-\(\)]`. */
  predicate PhoneChar(c: char)
  {
    IsDigit(c) || c == '+' || IsWhitespace(c) || c == '-' || c == '(' || c == ')'
  }

  /** The anchored pattern, matched left to right: `^` then the starred
      class consumes one character at a time, and `$` closes at the end. */
  function MatchesPhonePattern(s: string): bool
  {
    if s == [] then true
    else PhoneChar(s[0]) && MatchesPhonePattern(s[1..])
  }

  /** Every character of `s` belongs to the class. */
  predicate AllPhoneChars(s: string)
  {
    forall i :: 0 <= i < |s| ==> PhoneChar(s[i])
  }

  /** The pattern matches exactly the strings made only of class characters. */
  lemma {:induction false} PhonePatternExact(s: string)
    ensures MatchesPhonePattern(s) <==> AllPhoneChars(s)
  {
    if s != [] {
      PhonePatternExact(s[1..]);
      assert forall i :: 1 <= i < |s| ==> s[i] == s[1..][i - 1];
    }
  }

  datatype PhoneError = MotherPhoneInvalid | FatherPhoneInvalid

  /** The guard `phone && !phoneRegex.test(phone)` is false. */
  predicate PhoneAccepted(phone: Option<string>)
  {
    !Filled(phone) || MatchesPhonePattern(phone.value)
  }

  /** The two checks that open the create and update handlers: the mother's
      phone is checked first, then the father's; an absent or empty phone is
      never checked. */
  function CheckParentPhones(motherPhone: Option<string>, fatherPhone: Option<string>): (r: Option<PhoneError>)
    ensures r == Some(MotherPhoneInvalid) <==>
              Filled(motherPhone) && !AllPhoneChars(motherPhone.value)
    ensures r == Some(FatherPhoneInvalid) <==>
              (!Filled(motherPhone) || AllPhoneChars(motherPhone.value)) &&
              Filled(fatherPhone) && !AllPhoneChars(fatherPhone.value)
    ensures r == None <==>
              (!Filled(motherPhone) || AllPhoneChars(motherPhone.value)) &&
              (!Filled(fatherPhone) || AllPhoneChars(fatherPhone.value))
  {
    var m := if motherPhone.Some? then motherPhone.value else "";
    var f := if fatherPhone.Some? then fatherPhone.value else "";
    PhonePatternExact(m);
    PhonePatternExact(f);
    if !PhoneAccepted(motherPhone) then Some(MotherPhoneInvalid)
    else if !PhoneAccepted(fatherPhone) then Some(FatherPhoneInvalid)
    else None
  }

  predicate IsLetter(c: char)
  {
    'a' <= c <= 'z' || 'A' <= c <= 'Z'
  }

  /** A mother's phone holding a letter is refused with the mother's
      message, whatever the father's phone. */
  lemma LetterInPhoneRejected(mother: string, father: Option<string>, i: int)
    requires 0 <= i < |mother| && IsLetter(mother[i])
    ensures CheckParentPhones(Some(mother), father) == Some(MotherPhoneInvalid)
  {
    assert !PhoneChar(mother[i]);
  }

  /** A father's phone holding a letter is refused with the father's
      message once the mother's phone passes. */
  lemma LetterInFatherPhoneRejected(mother: Option<string>, father: string, j: int)
    requires PhoneAccepted(mother)
    requires 0 <= j < |father| && IsLetter(father[j])
    ensures CheckParentPhones(mother, Some(father)) == Some(FatherPhoneInvalid)
  {
    assert !PhoneChar(father[j]);
    if Filled(mother) {
      PhonePatternExact(mother.value);
    }
  }

  // ---------------------------------------------------------------------
  // Announcement `is_shared` coercion
  // ---------------------------------------------------------------------

  /** `is_shared === true || is_shared === 1 || is_shared === 'true'`:
      strict equality, so truthy values such as `"1"` or `2` do not share. */
  function IsSharedFlag(v: JsValue): (r: bool)
    ensures r <==> v == Bool(true) || v == Number(1) || v == Str("true")
    ensures r ==> Truthy(v)
  {
    match v
    case Bool(b) => b
    case Number(n) => n == 1
    case Str(s) => s == "true"
    case _ => false
  }

  // ---------------------------------------------------------------------
  // Batch transfer validation
  // ---------------------------------------------------------------------

  /** The JSON body of POST /api/students/transfer. The targets are numbers
      or `null`/absent. */
  datatype TransferRequest = TransferRequest(studentIds: JsValue, targetClassId: Option<int>, targetYearId: Option<int>)

  datatype TransferError = StudentIdsRequired | TargetRequired

  /** What a validated request asks the store to do. */
  datatype TransferPlan = TransferPlan(ids: seq<JsValue>, classId: int, yearId: int)

  /** The two checks made before any row is touched, in source order. */
  function ValidateTransfer(req: TransferRequest): (r: Result<TransferPlan, TransferError>)
    ensures r == Err(StudentIdsRequired) <==>
              !(req.studentIds.Array? && req.studentIds.items != [])
    ensures r == Err(TargetRequired) <==>
              req.studentIds.Array? && req.studentIds.items != [] &&
              !(FilledId(req.targetClassId) && FilledId(req.targetYearId))
    ensures r.Ok? ==>
              r.value.ids == req.studentIds.items && r.value.ids != [] &&
              req.targetClassId == Some(r.value.classId) && r.value.classId != 0 &&
              req.targetYearId == Some(r.value.yearId) && r.value.yearId != 0
  {
    var ids := req.studentIds;
    if !Truthy(ids) || !ids.Array? || |ids.items| == 0 then Err(StudentIdsRequired)
    else if !FilledId(req.targetClassId) || !FilledId(req.targetYearId) then Err(TargetRequired)
    else Ok(TransferPlan(ids.items, req.targetClassId.value, req.targetYearId.value))
  }
}
