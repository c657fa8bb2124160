/**
 * `extract_image`: finds the screenshot of a step's action and the rectangle to crop
 * from it. Reading the image out of the report (base64) and cropping it are library
 * calls; the model keeps the lookup of the payload and the crop arithmetic.
 */
module Screenshot {
  import opened Wrappers
  import opened Text
  import opened Report

  /** The text that introduces a screenshot's payload in the report. */
  function PayloadMarker(file: string): string {
    "Content-Location: " + file + "\r\n\r\n"
  }

  /** The payload regex `(?<=Content-Location: FILE\r\n\r\n)[^--]+` finds a match:
      somewhere the marker is followed by at least one character other than `-`. */
  predicate HasPayload(report: string, file: string) {
    var m := PayloadMarker(file);
    exists i :: 0 <= i <= |report| && StartsAt(report, i, m) && i + |m| < |report| && report[i + |m|] != '-'
  }

  /** The crop of step `n`'s screenshot. `Ok(None)` when the action has no highlight
      rectangle or no screenshot file name. The highlight fields are read in the order
      `y, x, w, h`; the crop is `(w - 5) x (h - 5)` at `(x + 3, y + 3)`. */
  function ExtractImage(report: string, actions: seq<Action>, n: nat): (r: Result<Option<Crop>, ParseError>)
    ensures ActionOf(actions, n).None? ==> r == Err(NoAction(n))
    ensures ActionOf(actions, n).Some? && ActionOf(actions, n).value.highlight.None? ==> r == Ok(None)
    ensures ActionOf(actions, n).Some? && ActionOf(actions, n).value.screenshotFile.None? ==> r == Ok(None)
    ensures r.Ok? && r.value.Some? ==> HasPayload(report, r.value.value.file)
  {
    match ActionOf(actions, n)
    case None => Err(NoAction(n))
    case Some(action) =>
      match action.highlight
      case None => Ok(None)
      case Some(text) =>
        var f := Split(Literal(","), text);
        match action.screenshotFile
        case None => Ok(None)
        case Some(file) =>
          if !HasPayload(report, file) then Err(NoScreenshotData(n))
          else if |f| < 4 then Err(BadHighlight(n))
          else
            var y, x, w, h := RubyToI(f[0]), RubyToI(f[1]), RubyToI(f[2]), RubyToI(f[3]);
            Ok(Some(Crop(file, w - 5, h - 5, x + 3, y + 3)))
  }

  /** A highlight written as `a,b,w,h` gives the crop `(w - 5) x (h - 5)` at `(b + 3, a + 3)`:
      the first field is the vertical position and the second the horizontal one. */
  lemma {:induction false} CropOfHighlight(report: string, actions: seq<Action>, n: nat, a: int, b: int, w: int, h: int)
    requires 1 <= n <= |actions|
    requires actions[n - 1].highlight == Some(Join([IntToString(a), IntToString(b), IntToString(w), IntToString(h)], ","))
    requires actions[n - 1].screenshotFile.Some? && HasPayload(report, actions[n - 1].screenshotFile.value)
    ensures ExtractImage(report, actions, n) == Ok(Some(Crop(actions[n - 1].screenshotFile.value, w - 5, h - 5, b + 3, a + 3)))
  {
    var f := HighlightFields(a, b, w, h);
    assert ActionOf(actions, n) == Some(actions[n - 1]);
    CropOfFields(report, actions, n, f);
  }

  lemma CropOfFields(report: string, actions: seq<Action>, n: nat, f: seq<string>)
    requires ActionOf(actions, n).Some?
    requires var action := ActionOf(actions, n).value;
      action.highlight.Some? && Split(Literal(","), action.highlight.value) == f && |f| >= 4 &&
      action.screenshotFile.Some? && HasPayload(report, action.screenshotFile.value)
    ensures ExtractImage(report, actions, n) ==
      Ok(Some(Crop(ActionOf(actions, n).value.screenshotFile.value, RubyToI(f[2]) - 5, RubyToI(f[3]) - 5, RubyToI(f[1]) + 3, RubyToI(f[0]) + 3)))
  {
  }

  /** The highlight text splits back into the four numbers. */
  lemma HighlightFields(a: int, b: int, w: int, h: int) returns (f: seq<string>)
    ensures f == Split(Literal(","), Join([IntToString(a), IntToString(b), IntToString(w), IntToString(h)], ","))
    ensures |f| == 4 && RubyToI(f[0]) == a && RubyToI(f[1]) == b && RubyToI(f[2]) == w && RubyToI(f[3]) == h
  {
    var parts := [IntToString(a), IntToString(b), IntToString(w), IntToString(h)];
    NoCommaInNumber(a); NoCommaInNumber(b); NoCommaInNumber(w); NoCommaInNumber(h);
    assert forall k | 0 <= k < 4 :: Clean(Literal(","), parts[k]);
    SplitJoin(Literal(","), parts);
    f := parts;
    ToIOfToS(a); ToIOfToS(b); ToIOfToS(w); ToIOfToS(h);
  }

  lemma NoCommaInNumber(v: int)
    ensures IntToString(v) != [] && ',' !in IntToString(v)
  {
    var d := NatToString(if v < 0 then -v else v);
    assert forall j :: 0 <= j < |d| ==> d[j] != ',';
    if v < 0 {
      assert IntToString(v) == "-" + d;
    }
  }

  /** The example of a 50 by 50 highlight at (10, 10): a 45 by 45 crop at (13, 13). */
  lemma CropExample(report: string, file: string)
    requires HasPayload(report, file)
    ensures ExtractImage(report, [Action(Some("09:00:02"), Some("10,10,50,50"), Some(file))], 1)
         == Ok(Some(Crop(file, 45, 45, 13, 13)))
  {
    var actions := [Action(Some("09:00:02"), Some("10,10,50,50"), Some(file))];
    assert Join([IntToString(10), IntToString(10), IntToString(50), IntToString(50)], ",") == "10,10,50,50";
    CropOfHighlight(report, actions, 1, 10, 10, 50, 50);
  }
}
