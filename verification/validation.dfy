/**
 The checks the generate button runs before building a timer, in order,
 stopping at the first that fails.
 */
module Validation {
  import opened Results
  import opened TimeFields

  /** Which rule rejected the range; the alert text itself is not modelled. */
  datatype ValidationError =
    | OutOfRange
    | StartFullyDisabled
    | EndFullyDisabled
    | BothHourMinuteDisabled

  /** The validation chain of the click handler. A range is accepted exactly when
      both endpoints pass the range check, neither is fully disabled, and the two
      do not both have hours and minutes disabled. */
  function Validate(start: TimeSpec, end: TimeSpec): (r: Outcome<ValidationError>)
    ensures r == Pass <==>
      && CheckTimeValidity(start) && CheckTimeValidity(end)
      && !FullyDisabled(start) && !FullyDisabled(end)
      && !(HourMinuteDisabled(start) && HourMinuteDisabled(end))
  {
    if !CheckTimeValidity(start) || !CheckTimeValidity(end) then Fail(OutOfRange)
    else if FullyDisabled(start) then Fail(StartFullyDisabled)
    else if FullyDisabled(end) then Fail(EndFullyDisabled)
    else if HourMinuteDisabled(start) && HourMinuteDisabled(end) then Fail(BothHourMinuteDisabled)
    else Pass
  }

  /** One rule of the chain: whether it holds, and the error it reports if not. */
  datatype Check = Check(holds: bool, error: ValidationError)

  /** The rules in the order the handler tries them. */
  ghost function Checks(start: TimeSpec, end: TimeSpec): seq<Check> {
    [ Check(CheckTimeValidity(start) && CheckTimeValidity(end), OutOfRange),
      Check(!FullyDisabled(start), StartFullyDisabled),
      Check(!FullyDisabled(end), EndFullyDisabled),
      Check(!(HourMinuteDisabled(start) && HourMinuteDisabled(end)), BothHourMinuteDisabled) ]
  }

  /** Reference semantics of a short-circuit chain: the first failing rule decides. */
  ghost function FirstFailure(cs: seq<Check>): Outcome<ValidationError> {
    if |cs| == 0 then Pass
    else if !cs[0].holds then Fail(cs[0].error)
    else FirstFailure(cs[1..])
  }

  /** A chain passes iff every rule holds, and otherwise reports the error of the
      earliest rule that fails. */
  lemma {:induction false} FirstFailureSpec(cs: seq<Check>)
    ensures FirstFailure(cs) == Pass <==> forall k :: 0 <= k < |cs| ==> cs[k].holds
    ensures forall i :: 0 <= i < |cs| && !cs[i].holds && (forall j :: 0 <= j < i ==> cs[j].holds)
              ==> FirstFailure(cs) == Fail(cs[i].error)
  {
    if |cs| > 0 {
      FirstFailureSpec(cs[1..]);
      if cs[0].holds {
        forall i | 0 < i < |cs| && !cs[i].holds && (forall j :: 0 <= j < i ==> cs[j].holds)
          ensures FirstFailure(cs) == Fail(cs[i].error)
        {
          assert cs[1..][i - 1] == cs[i];
          forall j | 0 <= j < i - 1
            ensures cs[1..][j].holds
          {
            assert cs[j + 1].holds;
          }
        }
        forall k | 0 < k < |cs|
          ensures cs[k].holds == cs[1..][k - 1].holds
        {
        }
      }
    }
  }

  /** `Validate` is the short-circuit chain over `Checks`, rule by rule. */
  lemma ValidateIsFirstFailure(start: TimeSpec, end: TimeSpec)
    ensures Validate(start, end) == FirstFailure(Checks(start, end))
  {
    var cs := Checks(start, end);
    var c1, c2, c3 := cs[1..], cs[2..], cs[3..];
    assert c1[1..] == c2 && c2[1..] == c3 && |c3[1..]| == 0;
    assert FirstFailure(c3) == if cs[3].holds then Pass else Fail(cs[3].error);
    assert FirstFailure(c2) == if cs[2].holds then FirstFailure(c3) else Fail(cs[2].error);
    assert FirstFailure(c1) == if cs[1].holds then FirstFailure(c2) else Fail(cs[1].error);
  }

  /** `Validate` reports the error of the first rule, in handler order, that fails,
      and passes only when all four rules hold. */
  lemma ValidateReportsFirstFailure(start: TimeSpec, end: TimeSpec, i: nat)
    requires i < 4
    requires !Checks(start, end)[i].holds
    requires forall j :: 0 <= j < i ==> Checks(start, end)[j].holds
    ensures Validate(start, end) == Fail(Checks(start, end)[i].error)
  {
    var cs := Checks(start, end);
    FirstFailureSpec(cs);
    ValidateIsFirstFailure(start, end);
  }

  /** An accepted range leaves the generator something to show: each endpoint has an
      enabled field, and hours or minutes is enabled on at least one endpoint. */
  lemma AcceptedRangeIsDisplayable(start: TimeSpec, end: TimeSpec)
    requires Validate(start, end) == Pass
    ensures exists k :: 0 <= k < 3 && FieldsOf(start)[k].Mag?
    ensures exists k :: 0 <= k < 3 && FieldsOf(end)[k].Mag?
    ensures start.hours.Mag? || start.minutes.Mag? || end.hours.Mag? || end.minutes.Mag?
  {
    if start.hours.Mag? { assert FieldsOf(start)[0].Mag?; }
    else if start.minutes.Mag? { assert FieldsOf(start)[1].Mag?; }
    else { assert FieldsOf(start)[2].Mag?; }
    if end.hours.Mag? { assert FieldsOf(end)[0].Mag?; }
    else if end.minutes.Mag? { assert FieldsOf(end)[1].Mag?; }
    else { assert FieldsOf(end)[2].Mag?; }
  }

  /** An hours value of 100 on either endpoint is rejected as out of range, whatever
      the other fields hold. */
  lemma HundredHoursRejected(start: TimeSpec, end: TimeSpec)
    requires start.hours == Mag(100) || end.hours == Mag(100)
    ensures Validate(start, end) == Fail(OutOfRange)
  {
  }

  /** Hours and minutes disabled on both endpoints is rejected even when both
      have seconds enabled and in range. */
  lemma SecondsOnlyRangeRejected(s1: int, s2: int)
    requires 0 <= s1 <= 59 && 0 <= s2 <= 59
    ensures Validate(TimeSpec(Disabled, Disabled, Mag(s1)), TimeSpec(Disabled, Disabled, Mag(s2)))
              == Fail(BothHourMinuteDisabled)
  {
  }
}
