/**
 One endpoint of a timer range: hours, minutes and seconds, each either a
 number or disabled (the `'-'` the UI produces for a ticked checkbox).
 */
module TimeFields {

  /** A number typed into a field, or the disabled marker. */
  datatype Field = Mag(n: int) | Disabled

  datatype TimeSpec = TimeSpec(hours: Field, minutes: Field, seconds: Field)

  const MaxHours: int := 99
  const MaxMinutes: int := 59
  const MaxSecondsField: int := 59
  /** The largest elapsed time an in-range endpoint can denote: 99:59:59. */
  const MaxTotalSeconds: int := 359999

  /** The three fields in display order: hours, minutes, seconds. */
  function FieldsOf(t: TimeSpec): seq<Field> {
    [t.hours, t.minutes, t.seconds]
  }

  /** The bound each field of `FieldsOf` is checked against, in the same order. */
  const Bounds: seq<int> := [MaxHours, MaxMinutes, MaxSecondsField]

  /** The declared meaning of a valid field: a number in 0..hi, or disabled. */
  ghost predicate InBounds(f: Field, hi: int) {
    f.Mag? ==> 0 <= f.n <= hi
  }

  /** One line of the range check. A disabled field parses to NaN, against which
      both comparisons are false, so it never rejects. */
  predicate FieldRejected(f: Field, hi: int) {
    match f
    case Disabled => false
    case Mag(n) => n < 0 || n > hi
  }

  /** The range check on one endpoint; it accepts exactly when every enabled
      field lies within its bound. */
  function CheckTimeValidity(t: TimeSpec): (ok: bool)
    ensures ok <==> forall k :: 0 <= k < 3 ==> InBounds(FieldsOf(t)[k], Bounds[k])
  {
    if FieldRejected(t.hours, MaxHours) then
      assert !InBounds(FieldsOf(t)[0], Bounds[0]);
      false
    else if FieldRejected(t.minutes, MaxMinutes) then
      assert !InBounds(FieldsOf(t)[1], Bounds[1]);
      false
    else if FieldRejected(t.seconds, MaxSecondsField) then
      assert !InBounds(FieldsOf(t)[2], Bounds[2]);
      false
    else true
  }

  /** `parseInt(field, 10) || 0`: a disabled field contributes zero, so numerically
      it cannot be told apart from an enabled zero. */
  function Contribution(f: Field): (r: int)
    ensures r == 0 <==> f == Disabled || f == Mag(0)
    ensures InBounds(f, MaxHours) ==> 0 <= r <= MaxHours
  {
    match f
    case Mag(n) => n
    case Disabled => 0
  }

  /** `timeToSeconds`: the elapsed seconds an endpoint denotes. */
  function ToSeconds(t: TimeSpec): (r: int)
    ensures CheckTimeValidity(t) ==> 0 <= r <= MaxTotalSeconds
  {
    Contribution(t.hours) * 3600 + Contribution(t.minutes) * 60 + Contribution(t.seconds)
  }

  /** All three fields disabled (`'-'`); such an endpoint denotes zero seconds. */
  function FullyDisabled(t: TimeSpec): (r: bool)
    ensures r <==> FieldsOf(t) == [Disabled, Disabled, Disabled]
    ensures r ==> ToSeconds(t) == 0
  {
    t.hours.Disabled? && t.minutes.Disabled? && t.seconds.Disabled?
  }

  /** Hours and minutes both disabled; only the seconds field then counts. */
  function HourMinuteDisabled(t: TimeSpec): (r: bool)
    ensures r <==> FieldsOf(t)[..2] == [Disabled, Disabled]
    ensures r ==> ToSeconds(t) == Contribution(t.seconds)
    ensures FullyDisabled(t) ==> r
  {
    assert FieldsOf(t)[..2] == [t.hours, t.minutes];
    t.hours.Disabled? && t.minutes.Disabled?
  }

  /** Replaces field `k` (0 hours, 1 minutes, 2 seconds) by the disabled marker. */
  function DisableField(t: TimeSpec, k: nat): TimeSpec
    requires k < 3
  {
    if k == 0 then t.(hours := Disabled)
    else if k == 1 then t.(minutes := Disabled)
    else t.(seconds := Disabled)
  }

  /** Disabling a field never makes an accepted endpoint rejected, and a field whose
      number is zero denotes the same elapsed time whether enabled or disabled. */
  lemma DisablingKeepsValidity(t: TimeSpec, k: nat)
    requires k < 3
    ensures CheckTimeValidity(t) ==> CheckTimeValidity(DisableField(t, k))
    ensures FieldsOf(t)[k] == Mag(0) ==> ToSeconds(DisableField(t, k)) == ToSeconds(t)
  {
    var d := DisableField(t, k);
    if CheckTimeValidity(t) {
      forall j | 0 <= j < 3
        ensures InBounds(FieldsOf(d)[j], Bounds[j])
      {
        assert InBounds(FieldsOf(t)[j], Bounds[j]);
      }
    }
  }
}
