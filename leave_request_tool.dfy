/**
 * The leave-request tool of the MCP server (`LeaveRequestTool`): a lookup of
 * the leave days recorded for an employee, and a leave request that checks its
 * required text fields and formats a confirmation sentence.
 */
module LeaveRequestTool {
  import opened Wrappers
  import opened DotNetText

  /** What a call of the tool can throw. */
  datatype Fault = NullReference

  // ---------------------------------------------------------------- GetLeaveRecordAmount

  /**
   * `GetLeaveRecordAmount(employeeName)`: 5 days for "david", 8 for "eric",
   * 3 for anyone else, comparing lower-cased names. A null name makes
   * `ToLower` throw.
   */
  function GetLeaveRecordAmount(employeeName: NullableString): (r: Result<int, Fault>)
    ensures r.Failure? <==> employeeName.None?
    ensures r.Success? ==> r.value in {3, 5, 8}
    ensures r.Success? ==> (r.value == 5 <==> EqualsIgnoringCase(employeeName.value, "david"))
    ensures r.Success? ==> (r.value == 8 <==> EqualsIgnoringCase(employeeName.value, "eric"))
  {
    match employeeName
    case None => Failure(NullReference)
    case Some(name) =>
      if ToLower(name) == "david" then Success(5)
      else if ToLower(name) == "eric" then Success(8)
      else Success(3)
  }

  /** Names that differ only in letter case get the same answer. */
  lemma AmountIgnoresCase(a: string, b: string)
    requires EqualsIgnoringCase(a, b)
    ensures GetLeaveRecordAmount(Some(a)) == GetLeaveRecordAmount(Some(b))
  {
  }

  /** Any name other than "david" and "eric" in some casing, the empty name included, gets 3. */
  lemma AmountDefault(name: string)
    requires !EqualsIgnoringCase(name, "david") && !EqualsIgnoringCase(name, "eric")
    ensures GetLeaveRecordAmount(Some(name)) == Success(3)
  {
  }

  lemma AmountExamples()
    ensures GetLeaveRecordAmount(Some("David")) == Success(5)
    ensures GetLeaveRecordAmount(Some("DAVID")) == Success(5)
    ensures GetLeaveRecordAmount(Some("eRiC")) == Success(8)
    ensures GetLeaveRecordAmount(Some("")) == Success(3)
    ensures GetLeaveRecordAmount(Some("david ")) == Success(3)
    ensures GetLeaveRecordAmount(None) == Failure(NullReference)
  {
  }

  // ---------------------------------------------------------------- LeaveRequest

  /** The answer to a request with a missing field. */
  const FailureMessage: string := "請假失敗，請確認所有必填欄位已填寫。"

  /** The literal texts of the confirmation, in the order they appear. */
  const RequestedWord: string := " 請假 "
  const DaysWord: string := " 天，從 "
  const ReasonSeparator: string := " 開始，事由為 "
  const DeputyWord: string := "，代理人 "

  /** At least one of the four required text fields is null or empty. */
  predicate MissingRequiredField(
    startDate: NullableString, reason: NullableString,
    deputy: NullableString, requester: NullableString)
  {
    IsNullOrEmpty(startDate) || IsNullOrEmpty(reason) || IsNullOrEmpty(deputy) || IsNullOrEmpty(requester)
  }

  /**
   * The segments of the interpolated confirmation string: nine segments,
   * holes and literals alternating, starting and ending with a hole.
   */
  function ConfirmationTemplate(
    startDate: string, days: Int32, reason: string, deputy: string, requester: string): (t: seq<Segment>)
    ensures |t| == 9
    ensures forall k :: 0 <= k < |t| ==> (t[k].Hole? <==> k % 2 == 0)
  {
    [ Hole(requester), Literal(RequestedWord), Hole(IntToDecimal(days as int)), Literal(DaysWord),
      Hole(startDate), Literal(ReasonSeparator), Hole(reason), Literal(DeputyWord), Hole(deputy) ]
  }

  /** The part of a confirmation that follows the day count. */
  function AfterDays(startDate: string, reason: string, deputy: string): string {
    DaysWord + (startDate + (ReasonSeparator + (reason + (DeputyWord + deputy))))
  }

  /** The confirmation, written out as one concatenation. */
  lemma ConfirmationSpelledOut(
    startDate: string, days: Int32, reason: string, deputy: string, requester: string)
    ensures Interpolate(ConfirmationTemplate(startDate, days, reason, deputy, requester))
         == requester + (RequestedWord + (IntToDecimal(days as int) + AfterDays(startDate, reason, deputy)))
  {
    var t := ConfirmationTemplate(startDate, days, reason, deputy, requester);
    var n := IntToDecimal(days as int);
    assert t[9..] == [];
    InterpolateFrom(t, 8);
    assert Interpolate(t[8..]) == deputy;
    InterpolateFrom(t, 7);
    InterpolateFrom(t, 6);
    assert Interpolate(t[6..]) == reason + (DeputyWord + deputy);
    InterpolateFrom(t, 5);
    InterpolateFrom(t, 4);
    assert Interpolate(t[4..]) == startDate + (ReasonSeparator + (reason + (DeputyWord + deputy)));
    InterpolateFrom(t, 3);
    assert Interpolate(t[3..]) == AfterDays(startDate, reason, deputy);
    InterpolateFrom(t, 2);
    assert Interpolate(t[2..]) == n + AfterDays(startDate, reason, deputy);
    InterpolateFrom(t, 1);
    InterpolateFrom(t, 0);
    assert t[0..] == t;
  }

  /**
   * `LeaveRequest(請假起始日期, 天數, 請假事由, 代理人, 請假者姓名)`: the failure
   * message when a required text field is null or empty, the confirmation
   * otherwise. The day count is not checked.
   */
  function LeaveRequest(
    startDate: NullableString, days: Int32, reason: NullableString,
    deputy: NullableString, requester: NullableString): (r: string)
    ensures r == FailureMessage <==> MissingRequiredField(startDate, reason, deputy, requester)
    ensures !MissingRequiredField(startDate, reason, deputy, requester) ==>
      r == requester.value + (RequestedWord + (IntToDecimal(days as int)
             + AfterDays(startDate.value, reason.value, deputy.value)))
  {
    if MissingRequiredField(startDate, reason, deputy, requester) then FailureMessage
    else
      ConfirmationSpelledOut(startDate.value, days, reason.value, deputy.value, requester.value);
      ConfirmationNotFailure(startDate.value, days, reason.value, deputy.value, requester.value);
      Interpolate(ConfirmationTemplate(startDate.value, days, reason.value, deputy.value, requester.value))
  }

  /** The failure message does not contain the separator every confirmation carries. */
  lemma FailureLacksSeparator()
    ensures !Contains(FailureMessage, ReasonSeparator)
  {
    assert forall j :: 0 <= j < |FailureMessage| ==> FailureMessage[j] != ReasonSeparator[1];
    forall i | 0 <= i <= |FailureMessage| - |ReasonSeparator|
      ensures !OccursAt(FailureMessage, ReasonSeparator, i)
    {
      assert FailureMessage[i..i + |ReasonSeparator|][1] != ReasonSeparator[1];
    }
  }

  /** Every confirmation carries the separator, the sixth segment of the template. */
  lemma ConfirmationHasSeparator(
    startDate: string, days: Int32, reason: string, deputy: string, requester: string)
    ensures Contains(Interpolate(ConfirmationTemplate(startDate, days, reason, deputy, requester)), ReasonSeparator)
  {
    var t := ConfirmationTemplate(startDate, days, reason, deputy, requester);
    InterpolateContains(t, 5);
  }

  lemma ConfirmationNotFailure(
    startDate: string, days: Int32, reason: string, deputy: string, requester: string)
    ensures Interpolate(ConfirmationTemplate(startDate, days, reason, deputy, requester)) != FailureMessage
  {
    ConfirmationHasSeparator(startDate, days, reason, deputy, requester);
    FailureLacksSeparator();
  }

  /** A caller tells the two outcomes apart by looking for the separator. */
  predicate IsConfirmation(response: string) {
    Contains(response, ReasonSeparator)
  }

  lemma OutcomeDistinguishable(
    startDate: NullableString, days: Int32, reason: NullableString,
    deputy: NullableString, requester: NullableString)
    ensures IsConfirmation(LeaveRequest(startDate, days, reason, deputy, requester))
        <==> !MissingRequiredField(startDate, reason, deputy, requester)
  {
    if MissingRequiredField(startDate, reason, deputy, requester) {
      FailureLacksSeparator();
    } else {
      ConfirmationHasSeparator(startDate.value, days, reason.value, deputy.value, requester.value);
    }
  }

  /**
   * The day count is never validated: zero or a negative count still gives a
   * confirmation, and the count appears in it as written, right after the requester.
   */
  lemma DaysNotValidated(
    startDate: NullableString, days: Int32, reason: NullableString,
    deputy: NullableString, requester: NullableString)
    requires !MissingRequiredField(startDate, reason, deputy, requester)
    ensures LeaveRequest(startDate, days, reason, deputy, requester) != FailureMessage
    ensures OccursAt(LeaveRequest(startDate, days, reason, deputy, requester),
                     IntToDecimal(days as int), |requester.value| + |RequestedWord|)
  {
  }

  /**
   * The day count can be read back from a confirmation: two requests that
   * differ only in the count give different confirmations.
   */
  lemma DaysRecoverable(
    startDate: NullableString, d1: Int32, d2: Int32, reason: NullableString,
    deputy: NullableString, requester: NullableString)
    requires !MissingRequiredField(startDate, reason, deputy, requester)
    requires LeaveRequest(startDate, d1, reason, deputy, requester)
          == LeaveRequest(startDate, d2, reason, deputy, requester)
    ensures d1 == d2
  {
    var n1, n2 := IntToDecimal(d1 as int), IntToDecimal(d2 as int);
    var rest := AfterDays(startDate.value, reason.value, deputy.value);
    CancelPrefix(requester.value, RequestedWord + (n1 + rest), RequestedWord + (n2 + rest));
    CancelPrefix(RequestedWord, n1 + rest, n2 + rest);
    assert rest[0] == ' ';
    assert n1 == (n1 + rest)[..|n1|];
    assert n2 == (n2 + rest)[..|n2|];
    IntToDecimalInjective(d1 as int, d2 as int);
  }

  /** Equal strings with a common prefix have equal remainders. */
  lemma CancelPrefix(a: string, x: string, y: string)
    requires a + x == a + y
    ensures x == y
  {
    assert x == (a + x)[|a|..];
    assert y == (a + y)[|a|..];
  }
}
