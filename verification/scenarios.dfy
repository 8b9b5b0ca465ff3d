/** Worked ranges, evaluated through the model. */
module Scenarios {
  import opened Results
  import opened TimeFields
  import opened Digits
  import opened Validation
  import opened Keyframes

  /** The endpoints of the worked ranges. */
  const OneMinute := TimeSpec(Mag(0), Mag(1), Mag(0))
  const Midnight := TimeSpec(Mag(0), Mag(0), Mag(0))
  const NoHoursZero := TimeSpec(Disabled, Mag(0), Mag(0))
  const NoHoursFive := TimeSpec(Disabled, Mag(0), Mag(5))
  const FiveSeconds := TimeSpec(Mag(0), Mag(0), Mag(5))

  lemma PadSmall()
    ensures Pad2(0) == "00" && Pad2(1) == "01" && Pad2(5) == "05"
  {
    assert Decimal(0) == "0" && Decimal(1) == "1" && Decimal(5) == "5";
  }

  lemma JoinThree(a: string, b: string, c: string)
    ensures Parts.Join([a, b, c]) == a + ":" + b + ":" + c
  {
    assert [Parts.Sep] == ":";
    assert [b, c][1..] == [c];
    assert Parts.Join([b, c]) == b + ":" + c;
    assert [a, b, c][1..] == [b, c];
    assert Parts.Join([a, b, c]) == a + ":" + (b + ":" + c);
  }

  /** Sixty seconds with every field enabled shows as "00:01:00". */
  lemma MinuteString()
    ensures Format(OneMinute, 60) == "00:01:00"
  {
    assert Decompose(60) == Clock(0, 1, 0);
    PadsSelect(OneMinute, Clock(0, 1, 0));
    PadSmall();
    JoinThree("00", "01", "00");
  }

  /** Zero with every field enabled shows as "00:00:00". */
  lemma ZeroString()
    ensures Format(OneMinute, 0) == "00:00:00"
  {
    assert Decompose(0) == Clock(0, 0, 0);
    PadsSelect(OneMinute, Clock(0, 0, 0));
    PadSmall();
    JoinThree("00", "00", "00");
  }

  /** 00:01:00 down to 00:00:00 is accepted and counts down over 61 keyframes,
      the last at tick 1200. */
  lemma OneMinuteCountdownShape()
    ensures Validate(OneMinute, Midnight) == Pass
    ensures Step(OneMinute, Midnight) == -1
    ensures |Generate(OneMinute, Midnight).text.keyframes| == 61
    ensures Generate(OneMinute, Midnight).text.keyframes[60].tick == 1200
  {
    assert ToSeconds(OneMinute) == 60 && ToSeconds(Midnight) == 0;
  }

  /** The countdown's first keyframe shows "00:01:00" and its last "00:00:00". */
  lemma OneMinuteCountdownValues()
    ensures Generate(OneMinute, Midnight).text.keyframes[0].value == "00:01:00"
    ensures Generate(OneMinute, Midnight).text.keyframes[60].value == "00:00:00"
  {
    assert ToSeconds(OneMinute) == 60 && ToSeconds(Midnight) == 0;
    CurrentEndpoints(OneMinute, Midnight);
    GenerateFrame(OneMinute, Midnight, 0);
    GenerateFrame(OneMinute, Midnight, 60);
    MinuteString();
    ZeroString();
  }

  /** Zero seconds shown with minutes and seconds only: "00:00". */
  lemma ZeroMinuteSecondString()
    ensures Format(NoHoursZero, 0) == "00:00"
  {
    assert Decompose(0) == Clock(0, 0, 0);
    PadsSelect(NoHoursZero, Clock(0, 0, 0));
    PadSmall();
    JoinTwo("00", "00");
  }

  /** Five seconds shown with minutes and seconds only: "00:05". */
  lemma FiveMinuteSecondString()
    ensures Format(NoHoursZero, 5) == "00:05"
  {
    assert Decompose(5) == Clock(0, 0, 5);
    PadsSelect(NoHoursZero, Clock(0, 0, 5));
    PadSmall();
    JoinTwo("00", "05");
  }

  lemma JoinTwo(a: string, b: string)
    ensures Parts.Join([a, b]) == a + ":" + b
  {
    assert [Parts.Sep] == ":";
    assert [a, b][1..] == [b];
  }

  /** --:00:00 up to --:00:05 is accepted, with the end's hours disabled or
      enabled at zero, and gives six keyframes of two parts each (MM:SS). */
  lemma FiveSecondsUpShape(end: TimeSpec)
    requires end == NoHoursFive || end == FiveSeconds
    ensures Validate(NoHoursZero, end) == Pass
    ensures |Generate(NoHoursZero, end).text.keyframes| == 6
    ensures forall i :: 0 <= i < 6 ==> |Parts.Split(Generate(NoHoursZero, end).text.keyframes[i].value)| == 2
  {
    assert ToSeconds(NoHoursZero) == 0 && ToSeconds(end) == 5;
    forall i | 0 <= i < 6
      ensures |Parts.Split(Generate(NoHoursZero, end).text.keyframes[i].value)| == 2
    {
      KeyframeValueDecodes(NoHoursZero, end, i);
    }
  }

  /** The count-up's first keyframe shows "00:00" and its last "00:05". */
  lemma FiveSecondsUpValues()
    ensures Generate(NoHoursZero, FiveSeconds).text.keyframes[0].value == "00:00"
    ensures Generate(NoHoursZero, FiveSeconds).text.keyframes[5].value == "00:05"
  {
    assert ToSeconds(NoHoursZero) == 0 && ToSeconds(FiveSeconds) == 5;
    CurrentEndpoints(NoHoursZero, FiveSeconds);
    GenerateFrame(NoHoursZero, FiveSeconds, 0);
    GenerateFrame(NoHoursZero, FiveSeconds, 5);
    ZeroMinuteSecondString();
    FiveMinuteSecondString();
  }

  /** Enabling hours on the end endpoint (at zero) leaves the count-up unchanged:
      only the start endpoint's flags decide what is shown. */
  lemma FiveSecondsUpEndFlags()
    ensures Generate(NoHoursZero, NoHoursFive) == Generate(NoHoursZero, FiveSeconds)
  {
    assert ToSeconds(NoHoursFive) == ToSeconds(FiveSeconds);
    EndFlagsIgnored(NoHoursZero, NoHoursFive, FiveSeconds);
  }
}
