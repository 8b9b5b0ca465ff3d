/**
 The generate button's click handler: run the validation chain and, only when
 every rule holds, build the timer document.
 */
module Handler {
  import opened Results
  import opened TimeFields
  import opened Parts
  import opened Validation
  import opened Keyframes

  /** What one click produces: the rule that stopped it (its alert), or the document
      that goes on to be downloaded. */
  datatype ClickResult = Rejected(error: ValidationError) | Generated(doc: TimerDocument)

  /** A click generates exactly when validation passes, reports the first failing
      rule otherwise, and never builds a document from a rejected range. */
  function OnGenerateClick(start: TimeSpec, end: TimeSpec): (r: ClickResult)
    ensures r.Generated? <==> Validate(start, end) == Pass
    ensures r.Rejected? ==> Validate(start, end) == Fail(r.error)
    ensures r.Generated? ==>
      CheckTimeValidity(start) && CheckTimeValidity(end) && r.doc == Generate(start, end)
  {
    match Validate(start, end)
    case Fail(e) => Rejected(e)
    case Pass => Generated(Generate(start, end))
  }

  /** Every document a click produces opens on the start endpoint's own fields and
      closes on the end's time, each keyframe showing at least one field. */
  lemma GeneratedShowsRange(start: TimeSpec, end: TimeSpec)
    requires OnGenerateClick(start, end).Generated?
    ensures var ks := OnGenerateClick(start, end).doc.text.keyframes;
      && DecodeValue(ks[0].value) == Some(EnabledMagnitudes(start))
      && DecodeValue(ks[|ks| - 1].value)
           == Some(Select(start, Decompose(ToSeconds(end))))
      && forall i :: 0 <= i < |ks| ==> |Split(ks[i].value)| == EnabledCount(start) >= 1
  {
    var ks := Generate(start, end).text.keyframes;
    FirstKeyframeShowsStart(start, end);
    LastKeyframeShowsEnd(start, end);
    forall i | 0 <= i < |ks|
      ensures |Split(ks[i].value)| == EnabledCount(start) >= 1
    {
      KeyframeValueDecodes(start, end, i);
    }
  }
}
