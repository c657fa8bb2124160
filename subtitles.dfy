/**
 * The subtitle track. `to_subtitles` writes one line per step, `"<start>-<end> <desc>"`,
 * each time printed in Subunit's units as `"<m>m<s>s"`; `to_srt` reads that text back
 * line by line and prints SubRip entries `"<n>\n<HH:MM:SS,000> --> <HH:MM:SS,000>\n<text>"`.
 * A cue runs from the step's time to one second after its voice ends, shifted by an
 * offset that by default puts the first cue at second 2.
 */
module Subtitles {
  import opened Wrappers
  import opened Text
  import opened Clock
  import opened Report

  /** A number of seconds as `to_subtitles` writes it: Subunit's minutes and seconds,
      each printed with `"%d%s"` and the initial of the unit. */
  function UnitText(n: nat): string {
    NatToString(n / 60) + "m" + NatToString(n % 60) + "s"
  }

  /** `"<start>-<end>"`. */
  function CueTimes(a: nat, b: nat): string {
    UnitText(a) + "-" + UnitText(b)
  }

  /** What follows the times: the description, or nothing for a comment step, whose
      `desc` is nil and is joined as the empty string. */
  function CueText(x: Step): string {
    if x.narrative.Structured? then x.narrative.desc else ""
  }

  /** The seconds a step's cue starts and ends at: its time, and one second after its
      voice ends, both shifted by `offset`. None when the voice length is not known
      (`nil + 1` raises) or a time falls before zero, which the model does not print. */
  function Cue(x: Step, offset: int): (r: Option<(nat, nat)>)
    ensures r.Some? <==> x.audioDuration.Some? && x.time + offset >= 0
    ensures r.Some? ==> r.value.0 == x.time + offset && r.value.1 == x.time + offset + x.audioDuration.value + 1
  {
    if x.audioDuration.None? || x.time + offset < 0 then None
    else Some(((x.time + offset) as nat, (x.time + offset + x.audioDuration.value + 1) as nat))
  }

  /** One line of `to_subtitles`. */
  function CueLine(x: Step, offset: int): Option<string> {
    match Cue(x, offset)
    case None => None
    case Some((a, b)) => Some(CueTimes(a, b) + " " + CueText(x))
  }

  function CueLines(steps: seq<Step>, offset: int): (r: Option<seq<string>>)
    ensures r.Some? <==> forall k :: 0 <= k < |steps| ==> Cue(steps[k], offset).Some?
    ensures r.Some? ==> |r.value| == |steps| && forall k :: 0 <= k < |steps| ==> CueLine(steps[k], offset) == Some(r.value[k])
  {
    if steps == [] then Some([])
    else
      match CueLine(steps[0], offset)
      case None => None
      case Some(line) =>
        match CueLines(steps[1..], offset)
        case None => None
        case Some(rest) => Some([line] + rest)
  }

  /** `to_subtitles(offset)`: the cue lines joined by line breaks. */
  function ToSubtitles(steps: seq<Step>, offset: int): Option<string> {
    match CueLines(steps, offset)
    case None => None
    case Some(lines) => Some(Join(lines, "\n"))
  }

  /** The default offset `-(@steps.first.time - 2)`; None without steps, where
      `@steps.first` is nil. */
  function DefaultOffset(steps: seq<Step>): (r: Option<int>)
    ensures r.Some? ==> steps != [] && steps[0].time + r.value == 2
  {
    if steps == [] then None else Some(-(steps[0].time - 2))
  }

  // ---------------------------------------------------------------------------
  // to_srt

  /** `t.split(/\D/).map(&:to_i)`: the values of the runs of digits. */
  function ReadUnits(t: string): seq<nat> {
    DigitFields(t);
    var fs := Split(NonDigit, t);
    assert forall k :: 0 <= k < |fs| ==> fs[k] == Fields(NonDigit, t)[k];
    seq(|fs|, k requires 0 <= k < |fs| => DigitsValue(fs[k]))
  }

  /** `"%02d:%02d:%02d,000" % ([0, 0] + units).reverse.take(3).reverse`; None when there
      are fewer than three values to print, where `%` raises ArgumentError. */
  function SrtTime(units: seq<nat>): Option<string> {
    var f := PadSrt(units);
    if |f| < 3 then None else Some(Format3(f[0], f[1], f[2]) + ",000")
  }

  /** The entry `to_srt` makes of line `i` (from 0): the times before the first space,
      split at the first `-`, and the rest of the line as the subtitle (nil when there
      is no space, joined as the empty string). None where Ruby raises. */
  function SrtEntry(i: nat, line: string): Option<string> {
    var parts := SplitOnce(line, ' ');
    if parts == [] then None
    else
      var subtitle := if |parts| == 2 then parts[1] else "";
      var ends := SplitOnce(parts[0], '-');
      if |ends| < 2 then None
      else
        match (SrtTime(ReadUnits(ends[0])), SrtTime(ReadUnits(ends[1])))
        case (Some(t1), Some(t2)) => Some(NatToString(i + 1) + "\n" + t1 + " --> " + t2 + "\n" + subtitle)
        case _ => None
  }

  /** The entries of all lines; None at the first line where Ruby raises. */
  function SrtEntries(lines: seq<string>): (r: Option<seq<string>>)
    ensures r.Some? ==> |r.value| == |lines| && forall k :: 0 <= k < |lines| ==> SrtEntry(k, lines[k]) == Some(r.value[k])
  {
    if forall k :: 0 <= k < |lines| ==> SrtEntry(k, lines[k]).Some? then
      Some(seq(|lines|, k requires 0 <= k < |lines| => SrtEntry(k, lines[k]).value))
    else None
  }

  /** `to_srt` applied to the text `to_subtitles` produced: the stripped text, line by
      line, each line made into an entry, the entries joined by line breaks. */
  function ToSrt(text: string): Option<string> {
    match SrtEntries(Lines(Strip(text)))
    case None => None
    case Some(entries) => Some(Join(entries, "\n"))
  }

  /** `to_srt(offset)`. */
  function Srt(steps: seq<Step>, offset: int): Option<string> {
    match ToSubtitles(steps, offset)
    case None => None
    case Some(text) => ToSrt(text)
  }

  // ---------------------------------------------------------------------------
  // What the entries say

  /** A SubRip entry: its number, its start and end times, its text. */
  function Entry(i: nat, a: nat, b: nat, text: string): string {
    NatToString(i + 1) + "\n" + SrtTimestamp(a) + " --> " + SrtTimestamp(b) + "\n" + text
  }

  /** The text of entry `k` of `n`: the step's text with its line break, except that the
      last loses its trailing white space to `strip`. */
  function EntryText(x: Step, k: nat, n: nat): string {
    if k + 1 < n then CueText(x) + "\n" else RStrip(CueText(x))
  }

  /** The entries `to_srt` should print for these steps. */
  function Expected(steps: seq<Step>, offset: int): seq<string>
    requires forall k :: 0 <= k < |steps| ==> Cue(steps[k], offset).Some?
  {
    seq(|steps|, k requires 0 <= k < |steps| =>
      Entry(k, Cue(steps[k], offset).value.0, Cue(steps[k], offset).value.1, EntryText(steps[k], k, |steps|)))
  }

  /** Each step becomes entry `k + 1`, running from its time plus the offset to one second
      after its voice ends, with its description as the text: the times `to_subtitles`
      writes are the times `to_srt` reads back. */
  lemma SrtOfSteps(steps: seq<Step>, offset: int)
    requires forall k :: 0 <= k < |steps| ==> Cue(steps[k], offset).Some?
    requires forall k :: 0 <= k < |steps| ==> '\n' !in CueText(steps[k])
    ensures Srt(steps, offset) == Some(Join(Expected(steps, offset), "\n"))
  {
    if steps == [] {
      SrtOfNoSteps(offset);
      assert Expected(steps, offset) == [];
    } else {
      var lines := CueLines(steps, offset).value;
      assert ToSubtitles(steps, offset) == Some(Join(lines, "\n"));
      CueLinesClean(steps, offset);
      var ls := StrippedLines(lines);
      EntriesOfLines(steps, offset, ls);
    }
  }

  /** Without steps the subtitle file is empty. */
  lemma SrtOfNoSteps(offset: int)
    ensures Srt([], offset) == Some([])
  {
    assert CueLines([], offset) == Some([]);
    assert ToSubtitles([], offset) == Some([]);
    assert RStrip([]) == [] && LeadingStrip([]) == 0;
    assert Strip([]) == [];
    assert Lines([]) == [];
    assert SrtEntries([]) == Some([]);
  }

  /** The lines `to_srt` sees: those of the stripped cue text. */
  lemma StrippedLines(lines: seq<string>) returns (ls: seq<string>)
    requires lines != [] && lines[0] != [] && IsDigit(lines[0][0])
    requires forall k :: 0 <= k < |lines| ==> '\n' !in lines[k]
    requires RStrip(lines[|lines| - 1]) != [] && '\n' !in RStrip(lines[|lines| - 1])
    ensures ls == Lines(Strip(Join(lines, "\n")))
    ensures |ls| == |lines|
    ensures forall k :: 0 <= k < |lines| - 1 ==> ls[k] == lines[k] + "\n"
    ensures ls[|lines| - 1] == RStrip(lines[|lines| - 1])
  {
    var n := |lines|;
    var m := lines[..n - 1] + [RStrip(lines[n - 1])];
    StripLines(lines);
    assert forall k :: 0 <= k < n - 1 ==> m[k] == lines[k];
    assert m[n - 1] == RStrip(lines[n - 1]);
    LinesOfJoin(m);
    ls := Lines(Join(m, "\n"));
  }

  /** The shape of the cue lines: times, a space and the text, with no line break inside. */
  lemma CueLinesClean(steps: seq<Step>, offset: int)
    requires steps != []
    requires forall k :: 0 <= k < |steps| ==> Cue(steps[k], offset).Some?
    requires forall k :: 0 <= k < |steps| ==> '\n' !in CueText(steps[k])
    ensures forall k :: 0 <= k < |steps| ==>
              '\n' !in CueLines(steps, offset).value[k] &&
              CueLines(steps, offset).value[k] == CueTimes(Cue(steps[k], offset).value.0, Cue(steps[k], offset).value.1) + " " + CueText(steps[k])
    ensures CueLines(steps, offset).value[0] != [] && IsDigit(CueLines(steps, offset).value[0][0])
    ensures RStrip(CueLines(steps, offset).value[|steps| - 1]) != []
    ensures '\n' !in RStrip(CueLines(steps, offset).value[|steps| - 1])
  {
    var lines := CueLines(steps, offset).value;
    forall k | 0 <= k < |steps|
      ensures '\n' !in lines[k]
      ensures lines[k] == CueTimes(Cue(steps[k], offset).value.0, Cue(steps[k], offset).value.1) + " " + CueText(steps[k])
    {
      var (a, b) := Cue(steps[k], offset).value;
      TimesClean(a, b);
    }
    var (a0, b0) := Cue(steps[0], offset).value;
    TimesClean(a0, b0);
    var (a, b) := Cue(steps[|steps| - 1], offset).value;
    TimesClean(a, b);
    LastLine(CueTimes(a, b), CueText(steps[|steps| - 1]));
    var last := lines[|steps| - 1];
    assert forall j :: 0 <= j < |RStrip(last)| ==> RStrip(last)[j] == last[j] && last[j] in last;
  }

  /** Line `k` of the stripped text gives entry `k`. */
  lemma EntriesOfLines(steps: seq<Step>, offset: int, ls: seq<string>)
    requires steps != []
    requires forall k :: 0 <= k < |steps| ==> Cue(steps[k], offset).Some?
    requires |ls| == |steps|
    requires forall k :: 0 <= k < |steps| ==>
               CueLines(steps, offset).value[k] == CueTimes(Cue(steps[k], offset).value.0, Cue(steps[k], offset).value.1) + " " + CueText(steps[k])
    requires forall k :: 0 <= k < |steps| - 1 ==> ls[k] == CueLines(steps, offset).value[k] + "\n"
    requires ls[|steps| - 1] == RStrip(CueLines(steps, offset).value[|steps| - 1])
    ensures SrtEntries(ls) == Some(Expected(steps, offset))
  {
    var n := |steps|;
    var expected := Expected(steps, offset);
    forall k | 0 <= k < n ensures SrtEntry(k, ls[k]) == Some(expected[k]) {
      var (a, b) := Cue(steps[k], offset).value;
      var line := CueLines(steps, offset).value[k];
      EntryAt(k, a, b, CueText(steps[k]), k + 1 == n, line, ls[k]);
    }
    AllEntries(ls, expected);
  }

  lemma EntryAt(k: nat, a: nat, b: nat, text: string, last: bool, line: string, l: string)
    requires line == CueTimes(a, b) + " " + text
    requires l == if last then RStrip(line) else line + "\n"
    ensures SrtEntry(k, l) == Some(Entry(k, a, b, if last then RStrip(text) else text + "\n"))
  {
    TimesClean(a, b);
    if !last {
      assert l == CueTimes(a, b) + " " + (text + "\n");
      EntryOfLine(k, a, b, text + "\n");
    } else {
      LastLine(CueTimes(a, b), text);
      if RStrip(text) != [] {
        EntryOfLine(k, a, b, RStrip(text));
      } else {
        EntryOfTimes(k, a, b);
      }
    }
  }

  lemma AllEntries(ls: seq<string>, es: seq<string>)
    requires |ls| == |es|
    requires forall k :: 0 <= k < |ls| ==> SrtEntry(k, ls[k]) == Some(es[k])
    ensures SrtEntries(ls) == Some(es)
  {
    assert forall k :: 0 <= k < |ls| ==> SrtEntry(k, ls[k]).Some?;
    assert SrtEntries(ls).Some?;
    assert SrtEntries(ls).value == es;
  }

  /** The last line once stripped: the times, then the stripped text after a space if
      anything of it is left. */
  lemma LastLine(times: string, text: string)
    requires times != [] && !IsStripChar(times[|times| - 1])
    ensures RStrip(times + " " + text) == if RStrip(text) != [] then times + " " + RStrip(text) else times
  {
    if RStrip(text) != [] {
      RStripAppend(times + " ", text);
    } else {
      assert forall j :: 0 <= j < |text| ==> IsStripChar(text[j]);
      assert times + " " + text == times + (" " + text);
      RStripAll(times, " " + text);
    }
  }

  /** `strip` on the joined cue lines only shortens the last line. */
  lemma StripLines(lines: seq<string>)
    requires lines != []
    requires lines[0] != [] && IsDigit(lines[0][0])
    requires RStrip(lines[|lines| - 1]) != []
    ensures Strip(Join(lines, "\n")) == Join(lines[..|lines| - 1] + [RStrip(lines[|lines| - 1])], "\n")
  {
    var n := |lines|;
    var m := lines[..n - 1] + [RStrip(lines[n - 1])];
    RStripJoin(lines);
    assert m[0] != [] && IsDigit(m[0][0]) by {
      if n == 1 {
        assert m[0] == RStrip(lines[0]) && lines[0][0] == m[0][0];
      }
    }
    JoinHead(m, "\n");
    StripFromDigit(Join(lines, "\n"));
  }

  lemma RStripJoin(lines: seq<string>)
    requires lines != [] && RStrip(lines[|lines| - 1]) != []
    ensures RStrip(Join(lines, "\n")) == Join(lines[..|lines| - 1] + [RStrip(lines[|lines| - 1])], "\n")
  {
    var n := |lines|;
    if n == 1 {
      assert lines == [lines[0]] && lines[..0] + [RStrip(lines[0])] == [RStrip(lines[0])];
      JoinOne(lines[0]);
      JoinOne(RStrip(lines[0]));
    } else {
      LastSplit(lines);
      RStripSnoc(lines[..n - 1], lines[n - 1]);
    }
  }

  lemma LastSplit(lines: seq<string>)
    requires lines != []
    ensures lines == lines[..|lines| - 1] + [lines[|lines| - 1]]
  {
  }

  lemma JoinOne(x: string)
    ensures Join([x], "\n") == x
  {
  }

  lemma RStripSnoc(init: seq<string>, last: string)
    requires init != [] && RStrip(last) != []
    ensures RStrip(Join(init + [last], "\n")) == Join(init + [RStrip(last)], "\n")
  {
    JoinSnoc(init, last, "\n");
    JoinSnoc(init, RStrip(last), "\n");
    var head := Join(init, "\n") + "\n";
    assert Join(init, "\n") + "\n" + last == head + last;
    assert Join(init, "\n") + "\n" + RStrip(last) == head + RStrip(last);
    RStripAppend(head, last);
  }

  /** A text that starts with a digit once right-stripped loses nothing at its start. */
  lemma StripFromDigit(s: string)
    requires RStrip(s) != [] && IsDigit(RStrip(s)[0])
    ensures Strip(s) == RStrip(s)
  {
    assert LeadingStrip(RStrip(s)) == 0;
  }

  /** A join starts with its first part. */
  lemma JoinHead(parts: seq<string>, sep: string)
    requires parts != [] && parts[0] != []
    ensures Join(parts, sep) != [] && Join(parts, sep)[0] == parts[0][0]
  {
  }

  /** The times of a cue hold neither a space, a line break nor a `-` inside a unit,
      start with a digit and end with `s`. */
  lemma TimesClean(a: nat, b: nat)
    ensures ' ' !in CueTimes(a, b) && '\n' !in CueTimes(a, b)
    ensures '-' !in UnitText(a)
    ensures CueTimes(a, b) != [] && IsDigit(CueTimes(a, b)[0])
    ensures CueTimes(a, b)[|CueTimes(a, b)| - 1] == 's' && !IsStripChar('s')
  {
    DigitsOnly(NatToString(a / 60));
    DigitsOnly(NatToString(a % 60));
    DigitsOnly(NatToString(b / 60));
    DigitsOnly(NatToString(b % 60));
  }

  lemma DigitsOnly(d: string)
    requires forall j :: 0 <= j < |d| ==> IsDigit(d[j])
    ensures ' ' !in d && '\n' !in d && '-' !in d
  {
  }

  /** The entry for a full line: times, a space, the subtitle. */
  lemma EntryOfLine(i: nat, a: nat, b: nat, text: string)
    requires ' ' !in CueTimes(a, b) && '-' !in UnitText(a)
    ensures SrtEntry(i, CueTimes(a, b) + " " + text) == Some(Entry(i, a, b, text))
  {
    SplitOnceAt(CueTimes(a, b), ' ', text);
    SplitOnceAt(UnitText(a), '-', UnitText(b));
    UnitsRoundTrip(a);
    UnitsRoundTrip(b);
  }

  /** The entry for a line of bare times: an empty subtitle. */
  lemma EntryOfTimes(i: nat, a: nat, b: nat)
    requires ' ' !in CueTimes(a, b) && '-' !in UnitText(a)
    ensures SrtEntry(i, CueTimes(a, b)) == Some(Entry(i, a, b, ""))
  {
    var t := CueTimes(a, b);
    assert forall j :: 0 <= j < |t| ==> t[j] in t;
    assert FirstIndex(t, ' ') == |t|;
    SplitOnceAt(UnitText(a), '-', UnitText(b));
    UnitsRoundTrip(a);
    UnitsRoundTrip(b);
  }

  /** A time `to_subtitles` writes, read back and printed by `to_srt`, is the SubRip
      timestamp of the same second. */
  lemma UnitsRoundTrip(n: nat)
    ensures ReadUnits(UnitText(n)) == ToHms(n)
    ensures SrtTime(ReadUnits(UnitText(n))) == Some(SrtTimestamp(n))
  {
    var d1 := NatToString(n / 60);
    var d2 := NatToString(n % 60);
    assert UnitText(n) == d1 + ['m'] + (d2 + "s");
    FieldsAfterDigits(d1, 'm', d2 + "s");
    assert d2 + "s" == d2 + ['s'] + [];
    FieldsAfterDigits(d2, 's', []);
    assert Fields(NonDigit, []) == [[]];
    assert Fields(NonDigit, UnitText(n)) == [d1, d2, []];
    assert [d1, d2, []][..2] == [d1, d2];
    assert DropTrailingEmpty([d1, d2]) == [d1, d2];
    assert Split(NonDigit, UnitText(n)) == [d1, d2];
    NatToStringValue(n / 60);
    NatToStringValue(n % 60);
    PadForms(ToHms(n));
  }

  /** A run of digits before a non-digit is the first field of a split on `/\D/`. */
  lemma FieldsAfterDigits(d: string, c: char, rest: string)
    requires forall j :: 0 <= j < |d| ==> IsDigit(d[j])
    requires !IsDigit(c)
    ensures Fields(NonDigit, d + [c] + rest) == [d] + Fields(NonDigit, rest)
  {
    var s := d + [c] + rest;
    forall j | 0 <= j < |d| ensures SepEnd(NonDigit, s, j).None? {
      assert s[j] == d[j];
    }
    assert SepEnd(NonDigit, s, |d|) == Some(|d| + 1);
    FindSepAt(NonDigit, s, 0, |d|, |d| + 1);
    assert s[..|d|] == d;
    assert s[|d| + 1..] == rest;
  }

  /** With the default offset the first cue starts at second 2, and while each voice
      ends at least a second before the next step, no cue runs into the next. */
  lemma CuesInOrder(steps: seq<Step>, k: nat)
    requires steps != [] && k + 1 < |steps|
    requires Cue(steps[k], DefaultOffset(steps).value).Some? && Cue(steps[k + 1], DefaultOffset(steps).value).Some?
    requires steps[k].audioDuration.value + 1 <= steps[k + 1].time - steps[k].time
    ensures Cue(steps[0], DefaultOffset(steps).value).Some? ==> Cue(steps[0], DefaultOffset(steps).value).value.0 == 2
    ensures Cue(steps[k], DefaultOffset(steps).value).value.1 <= Cue(steps[k + 1], DefaultOffset(steps).value).value.0
  {
  }
}
