/**
 `generateTimer`: turns a validated start/end pair into the keyframe document
 the timer consumer reads, one keyframe per second of the range.
 */
module Keyframes {
  import opened Results
  import opened TimeFields
  import opened Digits
  import opened Parts
  import opened Validation

  /** Ticks advance by this much per keyframe. */
  const TickStep: int := 20
  /** The fixed `interp` tag of every keyframe. */
  const Interp: string := "linear"
  /** The fixed `type` tag of the text track. */
  const TrackType: string := "string"

  /** One sample; `duration` is the constant 0.0 the consumer expects. */
  datatype Keyframe = Keyframe(duration: real, interp: string, tick: int, value: string)

  /** `text`: the ordered keyframes and the track's `type`. */
  datatype TextTrack = TextTrack(keyframes: seq<Keyframe>, valueType: string)

  datatype TimerDocument = TimerDocument(text: TextTrack)

  /** Hours, minutes and seconds of an elapsed time. */
  datatype Clock = Clock(h: nat, m: nat, s: nat)

  /** `Math.floor(c / 3600)`, `Math.floor((c % 3600) / 60)`, `c % 60` for `c >= 0`,
      where JavaScript's operators agree with Dafny's. */
  function Decompose(c: nat): (k: Clock)
    ensures k.h * 3600 + k.m * 60 + k.s == c
    ensures k.m < 60 && k.s < 60
    ensures c <= MaxTotalSeconds ==> k.h <= MaxHours
  {
    Clock(c / 3600, (c % 3600) / 60, c % 60)
  }

  /** A clock reading is determined by its total: minutes and seconds below 60
      leave only one way to split an elapsed time. */
  lemma DecomposeUnique(c: nat, h: nat, m: nat, s: nat)
    requires m < 60 && s < 60
    requires h * 3600 + m * 60 + s == c
    ensures Decompose(c) == Clock(h, m, s)
  {
    var k := Decompose(c);
    assert m * 60 + s < 3600;
    assert k.m * 60 + k.s < 3600;
  }

  /** The numbers an endpoint shows, in display order: only its enabled fields. */
  ghost function EnabledMagnitudes(t: TimeSpec): seq<int> {
    (if t.hours.Mag? then [t.hours.n] else [])
    + (if t.minutes.Mag? then [t.minutes.n] else [])
    + (if t.seconds.Mag? then [t.seconds.n] else [])
  }

  /** The components of `k` that `start` keeps on display, in the order hours,
      minutes, seconds. Only the start endpoint's flags are consulted. */
  function Select(start: TimeSpec, k: Clock): (r: seq<nat>)
    ensures |r| == EnabledCount(start)
    ensures start.hours.Mag? ==> r[0] == k.h
    ensures start.minutes.Mag? ==> r[if start.hours.Mag? then 1 else 0] == k.m
    ensures start.seconds.Mag? ==> r[|r| - 1] == k.s
  {
    (if start.hours.Mag? then [k.h] else [])
    + (if start.minutes.Mag? then [k.m] else [])
    + (if start.seconds.Mag? then [k.s] else [])
  }

  ghost function EnabledCount(t: TimeSpec): nat {
    (if t.hours.Mag? then 1 else 0) + (if t.minutes.Mag? then 1 else 0) + (if t.seconds.Mag? then 1 else 0)
  }

  /** Each number zero-padded to width two. */
  function Pads(xs: seq<nat>): seq<string> {
    seq(|xs|, k requires 0 <= k < |xs| => Pad2(xs[k]))
  }

  lemma PadsSnoc(xs: seq<nat>, x: nat)
    ensures Pads(xs + [x]) == Pads(xs) + [Pad2(x)]
  {
  }

  ghost function TwoWide(ps: seq<string>): bool {
    forall k :: 0 <= k < |ps| ==> |ps[k]| == 2
  }

  lemma {:induction false} TotalLengthTwoWide(ps: seq<string>)
    requires TwoWide(ps)
    ensures TotalLength(ps) == 2 * |ps|
  {
    if |ps| > 0 {
      TotalLengthTwoWide(ps[1..]);
    }
  }

  /** The displayed string of elapsed time `c`: `parts.join(':')`. A fully disabled
      start shows nothing; `FormatLength` gives the width otherwise. */
  function Format(start: TimeSpec, c: nat): (r: string)
    ensures FullyDisabled(start) ==> r == ""
  {
    Join(Pads(Select(start, Decompose(c))))
  }

  /** For a time an in-range endpoint can denote, the display holds one two-digit
      part per enabled field with a `:` between neighbours. */
  lemma FormatLength(start: TimeSpec, c: nat)
    requires c <= MaxTotalSeconds
    requires !FullyDisabled(start)
    ensures |Format(start, c)| == 3 * EnabledCount(start) - 1
  {
    var k := Decompose(c);
    var xs := Select(start, k);
    assert k.h < 100 && k.m < 100 && k.s < 100;
    assert forall j :: 0 <= j < |xs| ==> xs[j] < 100;
    PadsShape(xs);
    assert TwoWide(Pads(xs));
    TotalLengthTwoWide(Pads(xs));
  }

  /** Parses every part; `None` as soon as one is not a number. */
  ghost function ParseParts(ps: seq<string>): Option<seq<nat>> {
    if |ps| == 0 then Some([])
    else
      match ParseField(ps[0])
      case None => None
      case Some(x) =>
        match ParseParts(ps[1..])
        case None => None
        case Some(xs) => Some([x] + xs)
  }

  /** Reads a keyframe value back into its numbers. */
  ghost function DecodeValue(v: string): Option<seq<nat>> {
    ParseParts(Split(v))
  }

  /** A list of parts parses to `xs` when each part parses to the matching number. */
  lemma {:induction false} ParsePartsEach(ps: seq<string>, xs: seq<nat>)
    requires |ps| == |xs|
    requires forall k :: 0 <= k < |ps| ==> ParseField(ps[k]) == Some(xs[k])
    ensures ParseParts(ps) == Some(xs)
  {
    if |ps| > 0 {
      ParsePartsEach(ps[1..], xs[1..]);
      assert [xs[0]] + xs[1..] == xs;
    }
  }

  lemma PadsParse(xs: seq<nat>)
    ensures ParseParts(Pads(xs)) == Some(xs)
  {
    var ps := Pads(xs);
    forall k | 0 <= k < |ps|
      ensures ParseField(ps[k]) == Some(xs[k])
    {
      Pad2RoundTrip(xs[k]);
    }
    ParsePartsEach(ps, xs);
  }

  /** Each padded part is digits only, so free of separators, and two wide below 100. */
  lemma PadsShape(xs: seq<nat>)
    ensures forall k :: 0 <= k < |xs| ==> AllDigits(Pads(xs)[k]) && Sep !in Pads(xs)[k]
    ensures forall k :: 0 <= k < |xs| ==> (xs[k] < 100 <==> |Pads(xs)[k]| == 2)
  {
    forall k | 0 <= k < |xs|
      ensures AllDigits(Pads(xs)[k]) && Sep !in Pads(xs)[k]
      ensures xs[k] < 100 <==> |Pads(xs)[k]| == 2
    {
      Pad2RoundTrip(xs[k]);
    }
  }

  /** A displayed time splits into exactly the start endpoint's enabled fields, each
      two digits wide, which parse back to the matching components of `c`. */
  lemma FormatDecodes(start: TimeSpec, c: nat)
    requires c <= MaxTotalSeconds
    requires !FullyDisabled(start)
    ensures |Split(Format(start, c))| == EnabledCount(start)
    ensures forall k :: 0 <= k < |Split(Format(start, c))| ==>
              |Split(Format(start, c))[k]| == 2 && AllDigits(Split(Format(start, c))[k])
    ensures DecodeValue(Format(start, c)) == Some(Select(start, Decompose(c)))
  {
    var k := Decompose(c);
    var xs := Select(start, k);
    assert k.h < 100 && k.m < 100 && k.s < 100;
    JoinPadsDecodes(xs);
  }

  /** Numbers below 100, padded and joined, split back into their two-digit parts
      and parse back to themselves. */
  lemma JoinPadsDecodes(xs: seq<nat>)
    requires |xs| >= 1
    requires forall j :: 0 <= j < |xs| ==> xs[j] < 100
    ensures Split(Join(Pads(xs))) == Pads(xs)
    ensures forall k :: 0 <= k < |xs| ==> |Pads(xs)[k]| == 2 && AllDigits(Pads(xs)[k])
    ensures DecodeValue(Join(Pads(xs))) == Some(xs)
  {
    PadsParse(xs);
    PadsShape(xs);
    SplitJoin(Pads(xs));
  }

  function Abs(x: int): nat {
    if x < 0 then -x else x
  }

  /** `Math.abs(startTotalSeconds - endTotalSeconds)`: the distance between the
      endpoints, never more than an in-range endpoint can denote. */
  function Duration(start: TimeSpec, end: TimeSpec): (r: nat)
    ensures r == ToSeconds(start) - ToSeconds(end) || r == ToSeconds(end) - ToSeconds(start)
    ensures CheckTimeValidity(start) && CheckTimeValidity(end) ==> r <= MaxTotalSeconds
  {
    Abs(ToSeconds(start) - ToSeconds(end))
  }

  /** `-1` when counting down, `1` otherwise (also when the endpoints coincide). */
  function Step(start: TimeSpec, end: TimeSpec): (r: int)
    ensures r == 1 || r == -1
    ensures r == -1 <==> ToSeconds(start) > ToSeconds(end)
  {
    if ToSeconds(start) > ToSeconds(end) then -1 else 1
  }

  /** The elapsed time keyframe `i` shows: `i` seconds on from the start, in the
      direction of `Step` (see `CurrentIsStartPlusStep`). It lies between the two
      endpoints, so within what an in-range endpoint can denote. */
  function Current(start: TimeSpec, end: TimeSpec, i: nat): (c: int)
    requires CheckTimeValidity(start) && CheckTimeValidity(end)
    requires i <= Duration(start, end)
    ensures ToSeconds(start) <= c <= ToSeconds(end) || ToSeconds(end) <= c <= ToSeconds(start)
    ensures 0 <= c <= MaxTotalSeconds
  {
    if ToSeconds(start) > ToSeconds(end) then ToSeconds(start) - i else ToSeconds(start) + i
  }

  /** The keyframe pushed on iteration `i`: fixed tags, tick `20 * i`, and an empty
      value when the start shows no field. `KeyframeValueDecodes` reads the value
      back otherwise. */
  function Frame(start: TimeSpec, end: TimeSpec, i: nat): (r: Keyframe)
    requires CheckTimeValidity(start) && CheckTimeValidity(end)
    requires i <= Duration(start, end)
    ensures r.tick == 20 * i && r.interp == "linear" && r.duration == 0.0
    ensures FullyDisabled(start) ==> r.value == ""
  {
    Keyframe(0.0, Interp, i * TickStep, Format(start, Current(start, end, i)))
  }

  /** `generateTimer`: one keyframe per second from start to end inclusive, ticks
      0, 20, 40, ... in order. */
  function Generate(start: TimeSpec, end: TimeSpec): (doc: TimerDocument)
    requires CheckTimeValidity(start) && CheckTimeValidity(end)
    ensures |doc.text.keyframes| == Abs(ToSeconds(start) - ToSeconds(end)) + 1
    ensures doc.text.valueType == "string"
    ensures forall i :: 0 <= i < |doc.text.keyframes| ==>
              && doc.text.keyframes[i].tick == 20 * i
              && doc.text.keyframes[i].interp == "linear"
              && doc.text.keyframes[i].duration == 0.0
    ensures forall i, j :: 0 <= i < j < |doc.text.keyframes| ==>
              doc.text.keyframes[i].tick < doc.text.keyframes[j].tick
  {
    var n := Duration(start, end) + 1;
    TimerDocument(TextTrack(seq(n, i requires 0 <= i < n => Frame(start, end, i)), TrackType))
  }

  /** Keyframe `i` of the document shows `Current(start, end, i)`. */
  lemma GenerateFrame(start: TimeSpec, end: TimeSpec, i: nat)
    requires CheckTimeValidity(start) && CheckTimeValidity(end)
    requires i <= Duration(start, end)
    ensures Generate(start, end).text.keyframes[i].value == Format(start, Current(start, end, i))
  {
  }

  /** `Current` is the source's `startTotalSeconds + i * step`. */
  lemma CurrentIsStartPlusStep(start: TimeSpec, end: TimeSpec, i: nat)
    requires CheckTimeValidity(start) && CheckTimeValidity(end)
    requires i <= Duration(start, end)
    ensures Current(start, end, i) == ToSeconds(start) + i * Step(start, end)
  {
  }

  /** The shown elapsed time starts at the start endpoint, ends at the end endpoint,
      and moves strictly in the direction of `Step` in between. */
  lemma CountsTowardEnd(start: TimeSpec, end: TimeSpec, i: nat, j: nat)
    requires CheckTimeValidity(start) && CheckTimeValidity(end)
    requires i < j <= Duration(start, end)
    ensures ToSeconds(start) > ToSeconds(end) ==> Current(start, end, i) > Current(start, end, j)
    ensures ToSeconds(start) <= ToSeconds(end) ==> Current(start, end, i) < Current(start, end, j)
    ensures Current(start, end, j) - Current(start, end, i) == (j - i) * Step(start, end)
  {
  }

  lemma CurrentEndpoints(start: TimeSpec, end: TimeSpec)
    requires CheckTimeValidity(start) && CheckTimeValidity(end)
    ensures Current(start, end, 0) == ToSeconds(start)
    ensures Current(start, end, Duration(start, end)) == ToSeconds(end)
  {
  }

  /** `timeToSeconds` and `Decompose` are inverse on in-range endpoints: a disabled
      field reads back as zero, an enabled one as its own number. */
  lemma DecomposeToSeconds(t: TimeSpec)
    requires CheckTimeValidity(t)
    ensures Decompose(ToSeconds(t)) ==
      Clock(Contribution(t.hours), Contribution(t.minutes), Contribution(t.seconds))
  {
    assert InBounds(FieldsOf(t)[0], Bounds[0]);
    assert InBounds(FieldsOf(t)[1], Bounds[1]);
    assert InBounds(FieldsOf(t)[2], Bounds[2]);
    DecomposeUnique(ToSeconds(t), Contribution(t.hours), Contribution(t.minutes), Contribution(t.seconds));
  }

  /** Every keyframe value consists of exactly the start endpoint's enabled fields,
      two digits each, and reads back as those components of the time it shows;
      the end endpoint's flags play no part. */
  lemma KeyframeValueDecodes(start: TimeSpec, end: TimeSpec, i: nat)
    requires CheckTimeValidity(start) && CheckTimeValidity(end)
    requires !FullyDisabled(start)
    requires i <= Duration(start, end)
    ensures var v := Generate(start, end).text.keyframes[i].value;
      && |Split(v)| == EnabledCount(start)
      && (forall k :: 0 <= k < |Split(v)| ==> |Split(v)[k]| == 2)
      && DecodeValue(v) == Some(Select(start, Decompose(Current(start, end, i))))
  {
    GenerateFrame(start, end, i);
    FormatDecodes(start, Current(start, end, i));
  }

  /** The first keyframe shows the start endpoint's own enabled fields, zero-padded,
      and reads back as exactly those numbers. */
  lemma FirstKeyframeShowsStart(start: TimeSpec, end: TimeSpec)
    requires CheckTimeValidity(start) && CheckTimeValidity(end)
    requires !FullyDisabled(start)
    ensures Generate(start, end).text.keyframes[0].tick == 0
    ensures DecodeValue(Generate(start, end).text.keyframes[0].value) == Some(EnabledMagnitudes(start))
  {
    CurrentEndpoints(start, end);
    DecomposeToSeconds(start);
    FormatDecodes(start, ToSeconds(start));
  }

  /** The last keyframe shows the end endpoint's time, through the start endpoint's
      fields. */
  lemma LastKeyframeShowsEnd(start: TimeSpec, end: TimeSpec)
    requires CheckTimeValidity(start) && CheckTimeValidity(end)
    requires !FullyDisabled(start)
    ensures var kfs := Generate(start, end).text.keyframes;
      && kfs[|kfs| - 1].tick == 20 * Duration(start, end)
      && DecodeValue(kfs[|kfs| - 1].value) == Some(Select(start, Decompose(ToSeconds(end))))
  {
    CurrentEndpoints(start, end);
    FormatDecodes(start, ToSeconds(end));
  }

  /** Endpoints with the same elapsed time give a single keyframe at tick 0 showing
      the start endpoint. */
  lemma EqualEndpointsSingleKeyframe(start: TimeSpec, end: TimeSpec)
    requires CheckTimeValidity(start) && CheckTimeValidity(end)
    requires ToSeconds(start) == ToSeconds(end)
    ensures |Generate(start, end).text.keyframes| == 1
    ensures Generate(start, end).text.keyframes[0] ==
      Keyframe(0.0, "linear", 0, Format(start, ToSeconds(start)))
  {
  }

  /** The end endpoint matters only through its elapsed time: its disabled flags
      never change the document. */
  lemma EndFlagsIgnored(start: TimeSpec, end1: TimeSpec, end2: TimeSpec)
    requires CheckTimeValidity(start) && CheckTimeValidity(end1) && CheckTimeValidity(end2)
    requires ToSeconds(end1) == ToSeconds(end2)
    ensures Generate(start, end1) == Generate(start, end2)
  {
    var a, b := Generate(start, end1).text.keyframes, Generate(start, end2).text.keyframes;
    forall i | 0 <= i < |a|
      ensures a[i] == b[i]
    {
      assert Current(start, end1, i) == Current(start, end2, i);
    }
  }

  /** The padded parts of a selection, one optional part per field. */
  lemma PadsSelect(start: TimeSpec, k: Clock)
    ensures Pads(Select(start, k)) ==
      (if start.hours.Mag? then [Pad2(k.h)] else [])
      + (if start.minutes.Mag? then [Pad2(k.m)] else [])
      + (if start.seconds.Mag? then [Pad2(k.s)] else [])
  {
  }

  /** The three conditional pushes of `generateTimer`, as written: push the
      zero-padded text of each field the start endpoint enables, in display order. */
  method PushEnabledParts(start: TimeSpec, h: nat, m: nat, s: nat) returns (parts: seq<string>)
    ensures parts == Pads(Select(start, Clock(h, m, s)))
  {
    ghost var hs: seq<string> := if start.hours.Mag? then [Pad2(h)] else [];
    ghost var ms: seq<string> := if start.minutes.Mag? then [Pad2(m)] else [];
    ghost var ss: seq<string> := if start.seconds.Mag? then [Pad2(s)] else [];
    parts := [];
    if !start.hours.Disabled? {
      parts := parts + [Pad2(h)];
    }
    assert parts == hs;
    if !start.minutes.Disabled? {
      parts := parts + [Pad2(m)];
    }
    assert parts == hs + ms;
    if !start.seconds.Disabled? {
      parts := parts + [Pad2(s)];
    }
    assert parts == hs + ms + ss;
    PadsSelect(start, Clock(h, m, s));
  }

  /** Lines building one keyframe's string, as written: split the elapsed time,
      push the enabled fields' padded text, then join. It yields `Format`. */
  method BuildTimeString(start: TimeSpec, currentTotalSeconds: nat) returns (timeString: string)
    ensures timeString == Format(start, currentTotalSeconds)
  {
    var h: nat := currentTotalSeconds / 3600;
    var m: nat := (currentTotalSeconds % 3600) / 60;
    var s: nat := currentTotalSeconds % 60;
    assert Clock(h, m, s) == Decompose(currentTotalSeconds);
    var parts := PushEnabledParts(start, h, m, s);
    timeString := Join(parts);
  }

  /** `startTotalSeconds + i * step` with a step of one second either way: `i`
      seconds down from the start or `i` seconds up. */
  method Elapsed(startTotalSeconds: int, i: nat, step: int) returns (c: int)
    requires step == 1 || step == -1
    ensures step == -1 ==> c == startTotalSeconds - i
    ensures step == 1 ==> c == startTotalSeconds + i
  {
    c := startTotalSeconds + i * step;
  }

  /** A keyframe with the loop's tick and string for iteration `i` is `Frame`. */
  lemma FrameOfParts(start: TimeSpec, end: TimeSpec, i: nat, tick: int, timeString: string)
    requires CheckTimeValidity(start) && CheckTimeValidity(end)
    requires i <= Duration(start, end)
    requires tick == i * TickStep
    requires timeString == Format(start, Current(start, end, i))
    ensures Keyframe(0.0, Interp, tick, timeString) == Frame(start, end, i)
  {
  }

  /** Appending the next frame keeps every index holding its own frame. */
  lemma AppendFrame(start: TimeSpec, end: TimeSpec, keyframes: seq<Keyframe>, frame: Keyframe)
    requires CheckTimeValidity(start) && CheckTimeValidity(end)
    requires |keyframes| <= Duration(start, end)
    requires forall k :: 0 <= k < |keyframes| ==> keyframes[k] == Frame(start, end, k)
    requires frame == Frame(start, end, |keyframes|)
    ensures forall k :: 0 <= k < |keyframes| + 1 ==> (keyframes + [frame])[k] == Frame(start, end, k)
  {
  }

  /** A list holding frame `k` at each index `k <= Duration` is the document's list. */
  lemma FramesMakeDocument(start: TimeSpec, end: TimeSpec, keyframes: seq<Keyframe>)
    requires CheckTimeValidity(start) && CheckTimeValidity(end)
    requires |keyframes| == Duration(start, end) + 1
    requires forall k :: 0 <= k < |keyframes| ==> keyframes[k] == Frame(start, end, k)
    ensures keyframes == Generate(start, end).text.keyframes
  {
  }

  /** The loop of `generateTimer`, step by step: it builds the same document as
      `Generate`. */
  method GenerateTimer(start: TimeSpec, end: TimeSpec) returns (doc: TimerDocument)
    requires CheckTimeValidity(start) && CheckTimeValidity(end)
    ensures doc == Generate(start, end)
  {
    var startTotalSeconds := ToSeconds(start);
    var endTotalSeconds := ToSeconds(end);
    var keyframes: seq<Keyframe> := [];
    var tick := 0;
    var duration := Abs(startTotalSeconds - endTotalSeconds);
    var step := if startTotalSeconds > endTotalSeconds then -1 else 1;
    var i := 0;
    while i <= duration
      invariant 0 <= i <= duration + 1
      invariant tick == i * TickStep
      invariant |keyframes| == i
      invariant forall k :: 0 <= k < i ==> keyframes[k] == Frame(start, end, k)
    {
      assert duration == Duration(start, end) && step == Step(start, end);
      var currentTotalSeconds := Elapsed(startTotalSeconds, i, step);
      assert 0 <= currentTotalSeconds && currentTotalSeconds == Current(start, end, i);
      var timeString := BuildTimeString(start, currentTotalSeconds);
      var frame := Keyframe(0.0, Interp, tick, timeString);
      FrameOfParts(start, end, i, tick, timeString);
      AppendFrame(start, end, keyframes, frame);
      keyframes := keyframes + [frame];
      tick := tick + TickStep;
      i := i + 1;
    }
    FramesMakeDocument(start, end, keyframes);
    doc := TimerDocument(TextTrack(keyframes, TrackType));
  }
}
