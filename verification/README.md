# bbsTimerGenerator keyframe core, in Dafny

The tool turns a start time and an end time into a keyframe document that an
animation or timer consumer reads. Each time is hours, minutes and seconds, and
the UI can disable any of those fields. The document holds one keyframe per
second of the range, in order. Keyframe `i` sits at tick `20 * i`. Its value is
the time being shown, as zero-padded two-digit fields joined by `:`.

The model covers three parts of `script.js`:

- the range check on one endpoint (`checkTimeValidity`);
- the validation chain in the button handler, which stops at the first failing
  rule;
- `generateTimer`: elapsed seconds, direction, decomposition into h/m/s,
  formatting, and the keyframe loop.

Modules, one per concept:

- `Results`: `Option` and `Outcome`.
- `Digits`: `String(n)`, `padStart(2, '0')`, and parsing a field back to a number.
- `Parts`: joining on `:` and the inverse split.
- `TimeFields`: `Field`, `TimeSpec`, the range check, `timeToSeconds`.
- `Validation`: the ordered chain, and a reference "first failing rule" semantics.
- `Keyframes`: the document datatypes, `Generate` written as a sequence
  comprehension, and `GenerateTimer`, the loop as the source writes it, proved
  equal to `Generate`.
- `Handler`: the click handler, joining the validation chain to `Generate`.
- `Scenarios`: two worked ranges.

A disabled field is the `Disabled` variant of `Field`. In the source it is the
string `'-'`, which parses to NaN. That has two effects, and the model states both:

- it never fails the range check, because comparisons with NaN are false;
- it counts as 0 in `timeToSeconds` (`|| 0`).

Which fields appear in every keyframe value depends on the **start** endpoint's
flags only. The end endpoint affects the document only through its elapsed
seconds (`EndFlagsIgnored`).

Derived hours never exceed 99, so every shown part is exactly two digits
(`KeyframeValueDecodes`). The reason is that every shown time lies between two
endpoints that passed the range check. So it is at most 359999 seconds, which is
99:59:59 (`Current`, `Decompose`). An endpoint or field out of range raises one
error, `OutOfRange`, whichever endpoint and field it is: `script.js:39-40` makes
a single test over both endpoints.

## Model

| member | source | states |
|---|---|---|
| TimeFields.CheckTimeValidity | script.js:57-65 | accepts an endpoint iff every enabled field is within bounds (hours 0..99, minutes and seconds 0..59); a disabled field never causes a rejection |
| TimeFields.ToSeconds | script.js:68-73 | the elapsed seconds of an endpoint that passes the range check lie in 0..359999 |
| TimeFields.Contribution | script.js:69-71 | a field contributes 0 exactly when it is disabled or holds 0; an in-range field contributes a value in 0..99 |
| TimeFields.FullyDisabled | script.js:42-46 | an endpoint is fully disabled iff all three fields are disabled, and then its elapsed seconds are 0 |
| TimeFields.HourMinuteDisabled | script.js:48 | hours and minutes are both disabled iff the first two fields are disabled; then only the seconds field counts toward the elapsed seconds; a fully disabled endpoint qualifies |
| TimeFields.DisablingKeepsValidity | script.js:58-71 | disabling any field keeps an accepted endpoint accepted; disabling a field that holds 0 does not change the elapsed seconds |
| Validation.Validate | script.js:39-51 | a range is accepted iff both endpoints pass the range check, neither is fully disabled, and the two do not both have hours and minutes disabled |
| Validation.FirstFailureSpec | script.js:39-51 | a short-circuit chain passes iff every rule holds; otherwise it reports the error of the earliest failing rule |
| Validation.ValidateIsFirstFailure | script.js:39-51 | the handler's chain is the short-circuit chain over the four rules in their fixed order: range, start fully disabled, end fully disabled, hours and minutes disabled on both |
| Validation.ValidateReportsFirstFailure | script.js:39-51 | when rule `i` fails and every earlier rule holds, the reported error is rule `i`'s |
| Validation.AcceptedRangeIsDisplayable | script.js:42-51 | an accepted range has an enabled field on each endpoint, and hours or minutes enabled on at least one endpoint |
| Validation.HundredHoursRejected | script.js:61 | hours = 100 on either endpoint is rejected as out of range |
| Validation.SecondsOnlyRangeRejected | script.js:48-50 | hours and minutes disabled on both endpoints is rejected even when both have valid seconds |
| Digits.Decimal | script.js:98 | `String(n)` is a non-empty string of digits with no leading zero; it has one digit below 10, and at most two exactly below 100 |
| Digits.PadStart2 | script.js:98 | `padStart(2, '0')` left-fills with zeros to width two, keeps the original as its suffix, and never truncates |
| Digits.Pad2 | script.js:98 | `String(n).padStart(2, '0')` is all digits, at least two wide, exactly two wide iff `n` is below 100, and ends in the last digit of `n` |
| Digits.ValueOfDecimal | script.js:98 | reading `String(n)` back as a decimal gives `n` |
| Digits.Pad2RoundTrip | script.js:98-104 | a padded field is all digits, is two wide iff the number is below 100, and parses back to the number |
| Parts.Split | script.js:107 | splitting on `:` gives at least one part, and no part holds a separator |
| Parts.Join | script.js:107 | `join(':')` of no parts is empty; otherwise the result holds every part plus one separator per neighbouring pair, begins with the first part, and has a separator right after it when there are two or more |
| Parts.SplitJoin | script.js:107 | splitting undoes `join(':')` for a non-empty list of separator-free parts |
| Parts.JoinSplit | script.js:107 | `join(':')` undoes splitting, for every string |
| Keyframes.Decompose | script.js:92-94 | h/m/s recombine to the total with minutes and seconds below 60; a total within 359999 has hours at most 99 |
| Keyframes.DecomposeUnique | script.js:92-94 | those two conditions fix the decomposition: any h, m, s with m, s below 60 that sum to the total is what is computed |
| Keyframes.DecomposeToSeconds | script.js:69-94 | decomposing an in-range endpoint's elapsed seconds gives back its fields, with disabled fields as 0 |
| Keyframes.Select | script.js:97-105 | the numbers kept are one per field the start enables, in the order hours, minutes, seconds, each the matching component of the clock |
| Keyframes.PadsSelect | script.js:97-105 | padding the kept numbers gives one padded part per enabled field, in the same order |
| Keyframes.PushEnabledParts | script.js:96-105 | the conditional pushes as written build exactly the padded parts of the start's enabled fields |
| Keyframes.Format | script.js:96-107 | a start with every field disabled shows the empty string |
| Keyframes.FormatLength | script.js:96-107 | for a time within 359999 and a start with an enabled field, the display is three characters per enabled field less one: two digits each, with a `:` between neighbours |
| Keyframes.PadsParse | script.js:96-107 | the padded parts of a list of numbers parse back to that list |
| Keyframes.PadsShape | script.js:96-104 | padded parts are digits only, hold no separator, and are two wide exactly for numbers below 100 |
| Keyframes.FormatDecodes | script.js:96-107 | a displayed time splits into exactly the start endpoint's enabled fields, each two digits wide, which parse to those components of the time |
| Keyframes.Current | script.js:86-90 | the time shown by keyframe `i` lies between the two endpoints' elapsed seconds, hence in 0..359999 |
| Keyframes.Duration | script.js:86 | the duration is the distance between the two endpoints' elapsed seconds, at most 359999 when both pass the range check |
| Keyframes.Step | script.js:87 | the step is -1 or 1, and -1 exactly when the start's elapsed seconds exceed the end's |
| Keyframes.Elapsed | script.js:90 | `startTotalSeconds + i * step` with a step of -1 or 1 is `i` seconds down or up from the start |
| Keyframes.CurrentIsStartPlusStep | script.js:87-90 | the time shown by keyframe `i` is `startTotalSeconds + i * step`, with step -1 iff start > end |
| Keyframes.Generate | script.js:85-117 | `|start - end| + 1` keyframes; keyframe `i` has tick `20*i`, so ticks strictly increase; each has interp "linear" and duration 0.0; the track type is "string" |
| Keyframes.GenerateFrame | script.js:89-114 | keyframe `i`'s value is the formatted time `start + i*step` |
| Keyframes.Frame | script.js:109-116 | keyframe `i` has tick `20*i`, interp "linear" and duration 0.0; its value is empty when the start has no enabled field |
| Keyframes.CountsTowardEnd | script.js:86-90 | the shown time strictly decreases when start > end and strictly increases otherwise, one second per keyframe |
| Keyframes.CurrentEndpoints | script.js:86-90 | the first keyframe shows the start's elapsed seconds and the last shows the end's |
| Keyframes.KeyframeValueDecodes | script.js:96-107 | every keyframe value has exactly as many parts as the start has enabled fields, each exactly two digits, and decodes to those components of its time |
| Keyframes.FirstKeyframeShowsStart | script.js:89-107 | the first keyframe is at tick 0 and decodes to the start endpoint's enabled field values |
| Keyframes.LastKeyframeShowsEnd | script.js:86-107 | the last keyframe is at tick `20*duration` and decodes to the end's time, shown through the start's fields |
| Keyframes.EqualEndpointsSingleKeyframe | script.js:86-89 | endpoints with equal elapsed seconds give exactly one keyframe, at tick 0, showing the start |
| Keyframes.EndFlagsIgnored | script.js:97-105 | two end endpoints with the same elapsed seconds give the same document, whatever their disabled flags |
| Keyframes.BuildTimeString | script.js:92-107 | the statements as written (floor division and remainder, a push of the padded text of each field the start enables, join) produce the displayed time of `Format` |
| Keyframes.GenerateTimer | script.js:67-120 | the loop as written (tick counter, step, per-second string, push) builds exactly `Generate`'s document |
| Handler.OnGenerateClick | script.js:39-52 | a click generates a document iff validation passes, and that document is `Generate`'s; otherwise it is rejected with the first failing rule's error |
| Handler.GeneratedShowsRange | script.js:39-52 | a document a click produces opens on the start's enabled field values, closes on the end's time, and every keyframe shows at least one field |
| Scenarios.OneMinuteCountdownShape | script.js:86-116 | 00:01:00 down to 00:00:00 is accepted, counts down, and has 61 keyframes with the last at tick 1200 |
| Scenarios.OneMinuteCountdownValues | script.js:89-107 | that countdown's first keyframe shows "00:01:00" and its last "00:00:00" |
| Scenarios.FiveSecondsUpShape | script.js:86-107 | --:00:00 up to --:00:05 is accepted (with the end's hours disabled or at zero) and has six keyframes of two parts each |
| Scenarios.FiveSecondsUpValues | script.js:89-107 | with the end's hours enabled, the first keyframe still shows "00:00" and the last "00:05": no hours part |
| Scenarios.FiveSecondsUpEndFlags | script.js:97-105 | enabling hours at zero on the end endpoint leaves the document unchanged |

## Left out

- Checkbox toggling and the styling of disabled inputs (script.js:1-11): UI only.
- Reading inputs in `getValue` (script.js:14-25): the `'00'` failsafe for a
  missing block, the `padStart` of the raw input text, and turning a ticked box
  into `'-'`. The model takes the resulting `Field` directly.
- `parseInt` of raw text: an enabled field holding text that is not a number
  would parse to NaN, pass the range check and count as 0. The model takes
  enabled fields to be integers.
- The alert messages (script.js:40-49) and the debug `console.log` (script.js:53):
  only which rule failed is modelled.
- The download file name (script.js:54) and `downloadJson` (script.js:122-130):
  JSON text, data-URI encoding and the anchor click belong to the export step,
  not the computation.
- `duration: 0.0` is kept as the constant real `0.0`; no floating-point arithmetic
  is modelled.
- Keyframes.Generate: requires only that both endpoints pass the range check,
  which is all the arithmetic needs. The source calls it only after the whole
  chain has passed. Because of that requirement the shown time is never
  negative. So JavaScript's truncating `%`, and `String` of a negative number,
  are not modelled.
