/**
 * The records the analyser works on. The recorder's XML action log (`parse_report`) is
 * an input here: one `Action` per `EachAction` element, in document order. A parsed step
 * is the OpenStruct built by `parse_steps`, whose narrative is either the user's comment
 * or the structured description; the timing and audio fields start out nil and are
 * filled in later by `initialize` and `generate_audio`.
 */
module Report {
  import opened Wrappers

  /** One `EachAction` element: its `Time` attribute, the text of its `HighlightXYWH`
      child and the text of its `ScreenshotFileName` child, each possibly absent. */
  datatype Action = Action(time: Option<string>, highlight: Option<string>, screenshotFile: Option<string>)

  /** The crop `extract_image` applies to a screenshot: `"%sx%s+%s+%s" % [width, height, left, top]`. */
  datatype Crop = Crop(file: string, width: int, height: int, left: int, top: int)

  /** A step carries exactly one of the two narratives. */
  datatype Narrative =
    | Comment(text: string)
    | Structured(desc: string, keys: seq<string>, program: Option<string>, uiElements: seq<string>)

  datatype Step = Step(
    number: nat,                 // `step`: the number in the block's `Step n:` heading
    time: int,                   // `time`: seconds from the session start to the action
    screenshot: Option<Crop>,    // `screenshot`: the crop of the action's screenshot, if any
    narrative: Narrative,
    duration: Option<int>,       // `duration`, set by `initialize`
    audio: Option<string>,       // `audio`, set by `generate_audio`
    audioDuration: Option<nat>,  // `audio_duration`, set by `generate_audio`
    silence: Option<nat>)        // `silence_duration`, set by `generate_audio`

  /** The exceptions the analyser raises while reading a report (each is a method
      called on nil, or an ArgumentError from `strptime`), with the step number. */
  datatype ParseError =
    | NoRecordingSession          // no "Recording Session ... <" text
    | BadSessionTime              // StartTime or StopTime missing or not HH:MM:SS
    | EmptyBlock(step: nat)       // a step block with no field before its first `<br />`
    | NoAction(step: nat)         // `@actions[n-1]` is nil
    | BadTime(step: nat)          // the action's Time attribute is missing or not HH:MM:SS
    | NoDescription(step: nat)    // no "Step n: " text in the first field
    | NoProgramLine(step: nat)    // no second field
    | NoUiElements(step: nat)     // no third field, or no "UI Elements: " in it
    | NoScreenshotData(step: nat) // no Content-Location payload for the screenshot file
    | BadHighlight(step: nat)     // fewer than four HighlightXYWH fields
    | NoKey(step: nat)            // a key chord such as "-" that leaves no key to name

  /** Ruby's `array[i]`: a negative index counts from the end; out of range is nil. */
  function RubyIndex(len: nat, i: int): (r: Option<nat>)
    ensures r.Some? ==> r.value < len
    ensures r.Some? ==> r.value as int == (if i >= 0 then i else len as int + i)
    ensures r.None? <==> (i >= len || i < -(len as int))
  {
    if 0 <= i < len then Some(i)
    else if -(len as int) <= i < 0 then Some(len + i)
    else None
  }

  /** `@actions[n - 1]`: the action of step `n`, found by position rather than by number. */
  function ActionOf(actions: seq<Action>, n: nat): (r: Option<Action>)
    ensures 1 <= n <= |actions| ==> r == Some(actions[n - 1])
    ensures n == 0 && actions != [] ==> r == Some(actions[|actions| - 1])
    ensures n > |actions| ==> r.None?
  {
    match RubyIndex(|actions|, n - 1)
    case None => None
    case Some(i) => Some(actions[i])
  }

  /** Position of the first comment step (or the length of the list): where
      `tidy!` and `generate_audio` stop, because a comment step has no description. */
  function FirstComment(steps: seq<Step>): (k: nat)
    ensures k <= |steps|
    ensures forall j :: 0 <= j < k ==> steps[j].narrative.Structured?
    ensures k < |steps| ==> steps[k].narrative.Comment?
  {
    if steps == [] || steps[0].narrative.Comment? then 0 else 1 + FirstComment(steps[1..])
  }
}
