# Steps Recorder Analyser, modelled in Dafny

StepsRecorderAnalyser (`lib/sra2019.rb`) reads the report that the Windows Steps
Recorder writes. It turns the report into a list of timed steps and derives the
material for a narrated screencast from that list. This project models the logic
between the report text and those outputs:

- the recording-session text is cut into `Step n:` blocks and each block is read
  into a step record (`parse_steps`);
- the session's start and stop times are read (`parse_report`), and the key chords
  that `build` turns into elements are checked;
- `initialize` selects the user-commented steps, or every step when there are none,
  and gives each step a duration;
- three methods change the step list in place: `remove_steps`, `tidy!` and the
  bookkeeping part of `generate_audio`;
- the subtitle text (`to_subtitles`), the SubRip file made from it (`to_srt`), the
  bounds of `trim_video` and the crop rectangle of `extract_image` are derived
  from the steps.

The modules follow the structure of the program:

| module | file | what it holds |
|---|---|---|
| `Wrappers` | wrappers.dfy | `Option` and `Result` |
| `Text` | text.dfy | Ruby string operations: `\s`/`\d`/`\w`, literal `gsub`/`sub`, leftmost regex search, `split` (which drops trailing empty fields), `join`, `lines`, `strip`, `to_s`/`to_i` |
| `Report` | report.dfy | actions, steps, narratives, crops, the errors a read can raise; `@actions[n-1]` |
| `Clock` | clock.dfy | `to_time`, `to_hms`, the padding to three fields and `%02d:%02d:%02d` |
| `Screenshot` | screenshot.dfy | `extract_image` |
| `StepParser` | parser.dfy | `parse_steps` |
| `Chords` | chords.dfy | the chord split in `build` |
| `Timing` | timing.dfy | the selection and durations of `initialize` |
| `Removal` | removal.dfy | `remove_steps`, and a reference description of what survives |
| `Tidy` | tidy.dfy | the cleaning substitutions and verbosity levels of `tidy!` |
| `Audio` | audio.dfy | file names, silence padding and sound-track order of `generate_audio` |
| `Subtitles` | subtitles.dfy | `to_subtitles` and `to_srt` |
| `Trim` | trim.dfy | the `-ss`/`-t` arguments of `trim_video` |
| `Analysis` | analyser.dfy | the analyser object: `initialize`, `remove_steps`, `tidy!`, `generate_audio` |

Every place where the Ruby code would raise is modelled as an error value or a
`false` result. Examples are a method called on `nil`, an ArgumentError from
`strptime` or `%`, and an IndexError. The error path is modelled, not excluded by a
precondition. The imperative parts of the source stay imperative:

- `Analysis.Analyser` is a class with the analyser's fields;
- its constructor and its methods loop over the step list as the source does;
- each method is proved equal to a function, and the lemmas are proved about that
  function.

## Model

| member | source | states |
|---|---|---|
| Report.RubyIndex | lib/sra2019.rb:578 | Ruby's `array[i]`: a negative index counts from the end, and an index outside the array is nil, in both directions |
| Report.ActionOf | lib/sra2019.rb:520 | the action of step `n` is found by position `n - 1`: step 0 reads the last action, and a number past the end finds none |
| Report.FirstComment | lib/sra2019.rb:261-263 | the first comment step, which has no `desc`, so the loops of `tidy!` and `generate_audio` raise there; every earlier step is structured |
| Clock.ReadField | lib/sra2019.rb:69-71 | one `%H`/`%M`/`%S` field reads one or two digits and has a value below 100 |
| Clock.ParseClock | lib/sra2019.rb:69-71 | `to_time` yields a time of day below 24 hours |
| Clock.ParseFormatClock | lib/sra2019.rb:69-71 | a time of day written as `HH:MM:SS` reads back as the same number of seconds |
| Clock.Pad2Value | lib/sra2019.rb:308 | `%02d` of a number below 100 is two digits with that value |
| Clock.PadForms | lib/sra2019.rb:308 | the padding of `trim_video` (`(u.reverse + [0,0]).take(3).reverse`) equals that of `to_srt` (`([0,0] + u).reverse.take(3).reverse`); both keep the last three units, with zeros in front when there are fewer |
| Clock.HmsFieldsValue | lib/sra2019.rb:74-78 | the printed fields of `n` seconds are `[0, n / 60, n % 60]` and encode `n` |
| Clock.TimestampPastHour | lib/sra2019.rb:308 | past an hour the printed minutes are 60 or more, and `to_time` rejects the text |
| Clock.TimestampReadsBack | lib/sra2019.rb:308 | below an hour, the printed `HH:MM:SS` reads back through `to_time` as the same second, and the SubRip form is the same text with `,000` |
| Text.SplitJoin | lib/sra2019.rb:524 | `split(sep)` of fields joined by `sep` gives the fields back, when no field is empty or contains the separator |
| Text.WordsOfJoin | lib/sra2019.rb:571 | the white-space `split` of words joined by single spaces gives the words back |
| Text.ToIOfToS | lib/sra2019.rb:524 | `to_i` reads back what `to_s` wrote, negative numbers included |
| Text.LinesOfJoin | lib/sra2019.rb:403 | `lines` of texts joined by line breaks gives each text with its line break, except the last |
| Screenshot.ExtractImage | lib/sra2019.rb:518-538 | no action is an error; no highlight or no file name gives nil, not an error; a crop exists only when the report holds a payload for the screenshot's file |
| Screenshot.CropOfHighlight | lib/sra2019.rb:524-535 | a highlight `a,b,w,h` is read as `y, x, w, h`, so the crop is `(w-5)x(h-5)` at `(b+3, a+3)` |
| Screenshot.HighlightFields | lib/sra2019.rb:524 | four numbers joined by commas split back into exactly those four numbers |
| Screenshot.CropExample | lib/sra2019.rb:535 | a 50 by 50 highlight at (10, 10) is cropped to 45 by 45 at (13, 13) |
| StepParser.SessionText | lib/sra2019.rb:561 | the session text is nil exactly when no position starts a match; otherwise it is the text from the leftmost match start to that match's end, begins with "Recording Session" and stays within one line |
| StepParser.LineEnd | lib/sra2019.rb:561 | `.` stops at the first line feed after the start |
| StepParser.LastAngle | lib/sra2019.rb:561 | the greedy `.*(?=<)` ends at the last `<` before the line feed |
| StepParser.SessionAt | lib/sra2019.rb:561 | a match begins with "Recording Session" and ends at a `<` after which the line holds no other `<` |
| StepParser.NextHeading | lib/sra2019.rb:564 | the split point `(?=Step \d+:)` is the first `Step n:` heading at or after a position |
| StepParser.Chunks | lib/sra2019.rb:564 | the pieces concatenate back to the text, and every piece after the first is one block with a single heading at its start |
| StepParser.SplitSteps | lib/sra2019.rb:564-565 | the summary and the blocks together are the session text; the summary holds no heading after its start, and every block is a heading followed by its step's text |
| StepParser.KeysOf | lib/sra2019.rb:570-571 | no bracket gives no keys; the keys are non-empty words without white space |
| StepParser.CommentOf | lib/sra2019.rb:573 | there is a user comment exactly when the line contains "User Comment: ", and then it is the rest of the line after the first occurrence |
| StepParser.NumberAt | lib/sra2019.rb:575 | a number matches at `i` exactly when "Step " and a digit start there; it is the whole run of digits after "Step " |
| StepParser.DescLine | lib/sra2019.rb:590 | nil exactly when no "Step n: " occurs; otherwise the rest of the line after the leftmost one |
| StepParser.AfterLead | lib/sra2019.rb:593-594 | nil exactly when the lead text does not occur; otherwise the rest of the line after its first occurrence |
| StepParser.StepNumberOf | lib/sra2019.rb:575 | `to_i` of the leftmost `Step n` match is its digits' value, and 0 when there is none |
| StepParser.HeadingNumber | lib/sra2019.rb:575 | the heading `Step n: ...` reads back as the number `n` |
| StepParser.HeadingDesc | lib/sra2019.rb:590 | the heading `Step n: t` gives back `t` as the description line |
| StepParser.CommentOfMarker | lib/sra2019.rb:573 | after a head without `U`, "User Comment: c" gives back `c` |
| StepParser.AfterLeadOf | lib/sra2019.rb:593-594 | a lead text followed by a one-line value gives back the value |
| StepParser.BracketOf | lib/sra2019.rb:570 | after a head without `[`, the bracket `[hint]` gives back the hint |
| StepParser.KeysOfJoin | lib/sra2019.rb:570-571 | after a head without `[`, key names joined by spaces in a bracket read back as those keys |
| StepParser.KeysOfHint | lib/sra2019.rb:570-571 | key names written as a bracketed hint, with or without a trailing `...`, read back as those keys |
| StepParser.DescOfLine | lib/sra2019.rb:590-591 | an escaped description followed by ` [hint]` decodes and loses its hint to give back the description |
| StepParser.StepLineFields | lib/sra2019.rb:570-590 | the first line of a structured step gives back its number, its keys and its escaped description, followed by the bracketed hint when it has keys |
| StepParser.PlainLineFields | lib/sra2019.rb:570-590 | the line of a step without keys (a mouse step) gives back its number, no keys and its escaped description |
| StepParser.StripKeySuffixPlain | lib/sra2019.rb:591 | a description without `[` keeps its text |
| StepParser.NarrativeOfFields | lib/sra2019.rb:570-596 | the three lines of a structured step, as the report writes them with or without a key hint, read back as exactly that description, keys, program and UI elements |
| StepParser.NarrativeOfComment | lib/sra2019.rb:573-583 | a comment line reads back as its comment with `&quot;` deleted, whatever lines follow |
| StepParser.ParseBlockOfFields | lib/sra2019.rb:567-600 | a block written from a step's fields, keyed or not, parses to a step with that number, that narrative, its action's time less the start and its screenshot |
| StepParser.DecodeAsWrittenEscape | lib/sra2019.rb:590-591 | on a text that does not contain `&quot;`, the two `gsub` passes as written undo the report's escaping too |
| StepParser.DoubleDecoding | lib/sra2019.rb:590-591 | as written, the two `gsub` passes decode the escaped text `&quot;` to `"` instead of giving it back |
| StepParser.UnescapeEscape | lib/sra2019.rb:590-591 | the decoder the model uses undoes the report's escaping of `&` and `"` for every text |
| StepParser.StripKeySuffix | lib/sra2019.rb:591 | removing the key hint only shortens the description |
| StepParser.StripKeySuffixOf | lib/sra2019.rb:591 | a description followed by ` [hint]` loses exactly the hint and the space before it |
| StepParser.NarrativeOf | lib/sra2019.rb:577-596 | a comment line gives the comment with every `&quot;` deleted; otherwise no description, no program line or no UI elements is the matching error, and a structured narrative holds the decoded description without its key hint, the block's keys, the program field and the UI elements split at `, ` |
| StepParser.ParseBlock | lib/sra2019.rb:567-600 | a parsed step has its heading's number, its action's time less the session start, the narrative its lines give and the screenshot `extract_image` gives for its number; it is a comment exactly when the line has a user comment; its timing and audio fields are unset |
| StepParser.ParseAll | lib/sra2019.rb:567 | mapping the blocks gives one step per block, in order, or the error of the first block that fails |
| StepParser.ParseSteps | lib/sra2019.rb:559-603 | no session text is an error; otherwise the result is every block's step in order, or the first block's error |
| Chords.SplitChord | lib/sra2019.rb:497 | the key is the last `-` field and the modifier the one before it, if there is one; a chord with no field has no key |
| Chords.ChordOfNames | lib/sra2019.rb:495-503 | for names joined by `-`, the key is the last name and the modifier the second-last; earlier names are dropped |
| Chords.CtrlAltDel | lib/sra2019.rb:497-500 | "Ctrl-Alt-Del" presses Del with modifier Alt |
| Chords.CheckKeys | lib/sra2019.rb:495-503 | `build` succeeds exactly when every chord of every structured step has a key; otherwise the error names one of the steps |
| Timing.Commented | lib/sra2019.rb:112 | the selection holds exactly the commented steps |
| Timing.CommentedAppend | lib/sra2019.rb:112 | selection is taken piece by piece, so it keeps the original order |
| Timing.Selected | lib/sra2019.rb:112-113 | the commented steps when there is one, all the steps otherwise |
| Timing.SelectedIdempotent | lib/sra2019.rb:112-113 | selecting twice is selecting once |
| Timing.WithDurations | lib/sra2019.rb:116-124 | each step gets the next step's time minus its own as its duration, the last step the session's length minus its time; nothing else changes |
| Timing.DurationsTile | lib/sra2019.rb:116-124 | the first `k` durations add up to the time from the first step to step `k`, and all of them to the session's end |
| Timing.DurationsNonNegative | lib/sra2019.rb:116-124 | no duration is negative exactly when the step times never go backwards and the last step starts no later than the session ends |
| Analysis.SessionTimes | lib/sra2019.rb:547-553 | both attributes must be present and read as times; the duration is stop minus start |
| Analysis.Load | lib/sra2019.rb:109-111 | the reading in `initialize` succeeds exactly when the session times, the steps and the key chords all do, and then holds those steps |
| Analysis.Analyser.constructor | lib/sra2019.rb:112-124 | the duration loop leaves exactly the selected steps with their durations |
| Analysis.Analyser.RemoveSteps | lib/sra2019.rb:247-250 | the step list becomes what `remove_steps` computes, or stays as it was when a position raises |
| Analysis.Analyser.Tidy | lib/sra2019.rb:257-292 | the step list becomes the tidied list; the call fails exactly when a comment step is reached |
| Analysis.Analyser.GenerateAudio | lib/sra2019.rb:185-238 | every step up to the first comment is voiced and padded; the sound track is the full playlist exactly when no step failed |
| Removal.Slot | lib/sra2019.rb:248 | `a[n] = nil` raises IndexError exactly when `n` is before the start; a negative `n` writes inside the array |
| Removal.Clear | lib/sra2019.rb:248 | only the written slot becomes nil; a slot past the end grows the array with nils |
| Removal.Kept | lib/sra2019.rb:249 | the kept positions are those inside the list that are not hit, in increasing order |
| Removal.Survivors | lib/sra2019.rb:249 | the survivors are the steps at the kept positions, unchanged |
| Removal.ClearAllHits | lib/sra2019.rb:248 | clearing the positions in turn clears exactly the slots `Hits` names, and fails exactly when it does |
| Removal.CompactMarked | lib/sra2019.rb:249 | compacting the cleared array gives the survivors |
| Removal.RemoveStepsSurvivors | lib/sra2019.rb:247-250 | `remove_steps` deletes exactly the original steps at the positions hit, keeps the others unchanged and in order, and fails exactly at an IndexError |
| Removal.KeptCount | lib/sra2019.rb:247-250 | the list shrinks by the number of distinct hit positions inside it |
| Removal.HitsInRange | lib/sra2019.rb:247-250 | positions inside the list hit exactly themselves and never grow the array |
| Tidy.StripAsidesNone | lib/sra2019.rb:263 | a description with no `(` keeps its text |
| Tidy.AsideStripped | lib/sra2019.rb:263 | a parenthetical aside is removed together with the white space around it |
| Tidy.NextLevel | lib/sra2019.rb:267-288 | the level never goes above 3 |
| Tidy.LevelFromSnoc | lib/sra2019.rb:261-290 | the level after one more step is that step's transition from the level before it |
| Tidy.LevelIsRun | lib/sra2019.rb:259-290 | the level is the number of clicking steps in a row just before, capped at 3 |
| Tidy.NoClickResets | lib/sra2019.rb:286-287 | a step without the phrase resets the level to 0 |
| Tidy.RewordClickOn | lib/sra2019.rb:267-285 | "User left click on" reads "Using the mouse, left click on", "Left click on", "Click on", then "Select" at levels 0 to 3 |
| Tidy.Redescribed | lib/sra2019.rb:263 | a tidied step differs from the original only in its description |
| Tidy.TidyRunAt | lib/sra2019.rb:261-290 | step `j` is reworded at the level its predecessors lead to; steps from the first comment on are unchanged |
| Tidy.TidiedAt | lib/sra2019.rb:257-292 | a step before the first comment is cleaned, then reworded at the length of the click run before it, capped at 3; later steps are unchanged |
| Tidy.NoClickUnchanged | lib/sra2019.rb:286-288 | a step whose cleaned description has no click is only cleaned |
| Tidy.TidiedOnlyDescs | lib/sra2019.rb:257-292 | `tidy!` changes descriptions and nothing else |
| Audio.Silence | lib/sra2019.rb:205-206 | the silence is never negative: the duration left after the voice, or 0 |
| Audio.SilencePads | lib/sra2019.rb:205-206 | voice and silence together last the step's duration, or the voice's length when that is longer |
| Audio.Voiced | lib/sra2019.rb:192-206 | a voiced step has the voice file `voice<i+1>.ogg`, its voice's length and the padding `Silence` gives, which fills its duration; nothing else changes |
| Audio.PlaylistOrder | lib/sra2019.rb:221-233 | the sound track is the intro, then each step's voice and silence in order: `2n + 1` files |
| Audio.VoiceStartAligned | lib/sra2019.rb:221-235 | while every voice fits its step, voice `k` starts one second plus the earlier durations into the sound track |
| Audio.SoundTrackFollowsSteps | lib/sra2019.rb:116-124 | with the durations from `initialize`, voice `k` starts at step `k`'s offset from the first step, plus the one-second intro |
| Subtitles.Cue | lib/sra2019.rb:424 | a cue runs from the step's time plus the offset to one second after its voice ends |
| Subtitles.CueLines | lib/sra2019.rb:424-436 | one line per step, in order, when every step has a cue |
| Subtitles.DefaultOffset | lib/sra2019.rb:422 | the default offset puts the first step at second 2 |
| Subtitles.SrtEntries | lib/sra2019.rb:403-416 | one entry per line, in order, each numbered from the line's position |
| Subtitles.SrtOfSteps | lib/sra2019.rb:401-438 | entry `k + 1` runs from step `k`'s cue start to its cue end and carries its description: the times `to_subtitles` writes are those `to_srt` reads |
| Subtitles.SrtOfNoSteps | lib/sra2019.rb:401-438 | without steps the SubRip text is empty |
| Subtitles.StrippedLines | lib/sra2019.rb:403 | `strip` followed by `lines` gives each cue line with its line break, and the last one stripped |
| Subtitles.UnitsRoundTrip | lib/sra2019.rb:408-412 | the time `<m>m<s>s` reads back as its minutes and seconds and prints as the SubRip timestamp of the same second |
| Subtitles.TimesClean | lib/sra2019.rb:427-432 | the cue times start with a digit, end with `s` and contain no space, line break or `-` within a unit |
| Subtitles.EntryOfLine | lib/sra2019.rb:405-414 | a line of times, a space and a text gives the entry of those times with that text |
| Subtitles.CuesInOrder | lib/sra2019.rb:422-424 | with the default offset the first cue starts at 2, and a cue ends no later than the next begins while each voice ends a second before the next step |
| Trim.TrimBounds | lib/sra2019.rb:306-309 | there are arguments exactly when there is a step and both times are not negative |
| Trim.TrimWindow | lib/sra2019.rb:306-309 | `-ss` prints the first step's time less 4 and `-t` the last step's time less 2, as zero hours with minutes and seconds |
| Trim.Printed | lib/sra2019.rb:308 | a printed argument reads back through `to_time` as its number of seconds exactly when it is under an hour |

## Left out

- Reading the input (RXFHelper, Zip), XML parsing of the `<Report>` element with
  Rexle, and its `EachAction` list are not modelled: the actions and the StartTime
  and StopTime attributes are inputs.
- Base64 decoding and MiniMagick's read, crop and `to_blob` are not modelled. The
  model keeps the payload lookup and the crop rectangle. The payload pattern `[^--]`
  is read as "a character other than `-`".
- Screenshot.ExtractImage: lib/sra2019.rb:529 puts the screenshot's file name into
  the pattern unescaped, so each `.` in it matches any character. The model matches
  the file name literally.
- The external programs (ffmpeg, oggdec) and `sleep` are not modelled. Neither is
  the WAV writing and concatenation of WaveFile: the sound track is the list of file
  names in the order written.
- The speech synthesiser and OggInfo are not modelled. The length of each voice is an
  input.
- The HTML, PDF, ZIP, Dynarex and KBML outputs are not modelled. In `build`, only
  the chord split and the failure on a chord without a key are modelled; the XML
  element building and `downcase` (Unicode case mapping) are not.
- Subunit's `to_hms`/`to_h` is a foreign gem. It is taken to give minutes and
  seconds by division by 60, so hours are always printed as 0 and the minutes are
  not reduced.
- Clock.ParseClock: models `strptime("%H:%M:%S")` as one or two digits per field,
  hours below 24, minutes and seconds below 60, ignoring trailing text. Other
  leniencies of strptime are not modelled.
- Text.RubyToI: models `to_i` as leading white space, a sign and digits. Underscores
  between digits are not modelled.
- Analysis.SessionTimes: `@duration` is a Float in the source (the difference of two
  Time values). It is a whole number of seconds here.
- Subtitles.Cue: a cue time that falls before zero is not printed (None). Subunit's
  rendering of negative seconds is not modelled.
- Trim.TrimBounds: gives no arguments when the first step starts less than 4 seconds,
  or the last less than 2 seconds, after the session start. Ruby still prints an
  argument for those negative seconds, but how Subunit's `to_hms` renders them is not
  known here.
- StepParser.NarrativeOf: reads descriptions with the one-pass decoder `Unescape`, not
  the two `gsub` passes as written, so an escaped `&quot;` in a description reads back
  as `&quot;` where the source gives `"` (see Findings). The two agree on every text
  without `&quot;` (StepParser.DecodeAsWrittenEscape).
- Subtitles.SrtOfSteps: states the SubRip text only for descriptions without line
  breaks. Descriptions are single lines by construction, since they come from `.*`.
- Analysis.Analyser.RemoveSteps: when a position raises IndexError, Ruby leaves the
  nils already written in `@steps`. The model reports the failure and leaves the
  list as it was.
- Analysis.Analyser: `@all_steps` and `@steps` share the same OpenStruct records in
  Ruby, so durations, tidied descriptions and audio fields also show up in
  `@all_steps`. When no step has a comment, `@steps = @all_steps`
  (lib/sra2019.rb:113) makes them the same Array, so the `compact!` of
  `remove_steps` (lib/sra2019.rb:249) shortens `@all_steps` as well. The model keeps
  `allSteps` as parsed; that aliasing is not modelled.
- Analysis.Analyser.GenerateAudio: `generate_audio` returns early when no speech
  client is configured (`enabled` false). The synthesiser's own failures are not
  modelled; the only failure is the nil `desc` of a comment step.
- Chords.CheckKeys: a chord such as `-a` gives an empty modifier, which RexleBuilder
  receives as an empty element name. What RexleBuilder then does is not part of this
  model.

## Findings

| source | as written | input that shows it | evidently intended | confidence | as-written member | corrected member |
|---|---|---|---|---|---|---|
| lib/sra2019.rb:590-591 | `&amp;` is decoded before `&quot;`, so an `&` produced by the first pass starts an entity for the second | the description text `&quot;`, which the report escapes as `&amp;quot;`, is read as `"` | entities are decoded in one pass, so the text reads back as `&quot;` | not executed | StepParser.DoubleDecoding | StepParser.UnescapeEscape |
