/**
 * The analyser object: what `initialize` reads from a Steps Recorder report, and the
 * methods that then change its step list in place (`remove_steps`, `tidy!`,
 * `generate_audio`). Each method is stated against the function that describes its
 * result, and the properties of the result are proved about those functions.
 */
module Analysis {
  import opened Wrappers
  import opened Clock
  import opened Report
  import opened StepParser
  import opened Chords
  import opened Timing
  import Removal
  import opened Tidy
  import opened Audio

  /** What `initialize` has read before it selects and times the steps. */
  datatype Loaded = Loaded(start: nat, duration: int, steps: seq<Step>)

  /** `parse_report`: the session's StartTime and StopTime attributes read as times of
      day, and the session's length in seconds. */
  function SessionTimes(startTime: Option<string>, stopTime: Option<string>): (r: Result<(nat, int), ParseError>)
    ensures r.Ok? <==> startTime.Some? && stopTime.Some? &&
                       ParseClock(startTime.value).Some? && ParseClock(stopTime.value).Some?
    ensures r.Err? ==> r.error == BadSessionTime
    ensures r.Ok? ==> ParseClock(startTime.value) == Some(r.value.0) &&
                      ParseClock(stopTime.value) == Some(r.value.0 + r.value.1)
  {
    if startTime.None? || stopTime.None? then Err(BadSessionTime)
    else
      match (ParseClock(startTime.value), ParseClock(stopTime.value))
      case (Some(a), Some(b)) => Ok((a, b as int - a as int))
      case _ => Err(BadSessionTime)
  }

  /** The reading part of `initialize`, in its order: the session times, then the steps,
      then the key chords that `build` turns into elements. */
  function Load(report: string, actions: seq<Action>, startTime: Option<string>, stopTime: Option<string>): (r: Result<Loaded, ParseError>)
    ensures SessionTimes(startTime, stopTime).Err? ==> r == Err(BadSessionTime)
    ensures r.Ok? <==> SessionTimes(startTime, stopTime).Ok? &&
                       ParseSteps(report, actions, SessionTimes(startTime, stopTime).value.0).Ok? &&
                       CheckKeys(ParseSteps(report, actions, SessionTimes(startTime, stopTime).value.0).value).Ok?
    ensures r.Ok? ==> var (start, duration) := SessionTimes(startTime, stopTime).value;
                      r.value == Loaded(start, duration, ParseSteps(report, actions, start).value)
  {
    var (start, duration) :- SessionTimes(startTime, stopTime);
    var steps :- ParseSteps(report, actions, start);
    var _ :- CheckKeys(steps);
    Ok(Loaded(start, duration, steps))
  }

  class Analyser {
    var start: nat          // `@start_time`, in seconds since midnight
    var duration: int       // `@duration`, the session's length in seconds
    var allSteps: seq<Step> // `@all_steps`, every parsed step
    var steps: seq<Step>    // `@steps`, the steps the outputs are made from

    /** Every step the analyser works on has its duration. */
    ghost predicate Valid()
      reads this
    {
      forall k :: 0 <= k < |steps| ==> steps[k].duration.Some?
    }

    /** The selection and timing part of `initialize`: the commented steps if there are
        any, otherwise all of them, each lasting until the next starts. */
    constructor (loaded: Loaded)
      ensures start == loaded.start && duration == loaded.duration && allSteps == loaded.steps
      ensures steps == WithDurations(Selected(loaded.steps), loaded.duration)
      ensures Valid()
    {
      start := loaded.start;
      duration := loaded.duration;
      allSteps := loaded.steps;
      var selected := Selected(loaded.steps);
      var s := selected;
      var i := 0;
      while i < |s|
        invariant 0 <= i <= |s| == |selected|
        invariant forall k :: 0 <= k < i ==> s[k] == selected[k].(duration := Some(DurationAt(selected, loaded.duration, k)))
        invariant forall k :: i <= k < |s| ==> s[k] == selected[k]
      {
        var d := if i < |s| - 1 then s[i + 1].time - s[i].time else loaded.duration - s[i].time;
        assert d == DurationAt(selected, loaded.duration, i);
        s := s[i := s[i].(duration := Some(d))];
        i := i + 1;
      }
      assert s == WithDurations(selected, loaded.duration);
      steps := s;
    }

    /** `remove_steps(a)`: clears the listed positions in order, then compacts. When a
        position raises IndexError the call fails and the list is left as it was. */
    method RemoveSteps(a: seq<int>) returns (ok: bool)
      requires Valid()
      modifies this
      ensures ok == Removal.RemoveSteps(old(steps), a).Some?
      ensures steps == if ok then Removal.RemoveSteps(old(steps), a).value else old(steps)
      ensures start == old(start) && duration == old(duration) && allSteps == old(allSteps)
      ensures Valid()
    {
      var slots := Removal.Wrap(steps);
      var i := 0;
      while i < |a|
        invariant 0 <= i <= |a|
        invariant Removal.ClearAll(Removal.Wrap(steps), a) == Removal.ClearAll(slots, a[i..])
      {
        assert a[i..][0] == a[i] && a[i..][1..] == a[i + 1..];
        match Removal.Slot(|slots|, a[i])
        case None =>
          return false;
        case Some(j) =>
          slots := Removal.Clear(slots, j);
        i := i + 1;
      }
      assert a[i..] == [];
      Removal.RemoveStepsSurvivors(steps, a);
      steps := Removal.Compact(slots);
      ok := true;
    }

    /** `tidy!`: rewrites each description in turn, carrying the verbosity level from step
        to step. A comment step has no description, so the call fails there, after the
        earlier steps have been rewritten. */
    method Tidy() returns (ok: bool)
      modifies this
      ensures steps == Tidied(old(steps))
      ensures ok == (FirstComment(old(steps)) == |old(steps)|)
      ensures start == old(start) && duration == old(duration) && allSteps == old(allSteps)
      ensures old(Valid()) ==> Valid()
    {
      TidiedOnlyDescs(steps);
      ghost var cs := CleanedDescs(steps);
      var s := steps;
      var level := 0;
      var i := 0;
      while i < |s| && s[i].narrative.Structured?
        invariant unchanged(this) && TidyLoop(steps, cs, s, i, level)
      {
        var c := Cleaned(s[i].narrative.desc);
        TidyLoopStep(steps, cs, s, i, level);
        assert c == cs[i];
        s := s[i := Redescribed(s[i], Reword(c, level))];
        level := NextLevel(c, level);
        i := i + 1;
      }
      TidyLoopEnd(steps, cs, s, i, level);
      steps := s;
      ok := i == |s|;
    }

    /** `generate_audio`: each step in turn is named `voice<i>.ogg`, voiced (the length of
        the voice is the synthesiser's, given here as `lengths`) and padded with silence up
        to its duration; a comment step has no description, so the call fails there. With
        `wav` the sound track is then the intro followed by every voice and silence. */
    method GenerateAudio(enabled: bool, wav: bool, lengths: seq<nat>) returns (ok: bool, soundTrack: Option<seq<string>>)
      requires Valid() && |lengths| == |steps|
      modifies this
      ensures !enabled ==> steps == old(steps) && ok
      ensures enabled ==> steps == AfterAudio(old(steps), lengths)
      ensures enabled ==> ok == (FirstComment(old(steps)) == |old(steps)|)
      ensures soundTrack == if enabled && ok && wav then Some(Playlist(|steps|)) else None
      ensures start == old(start) && duration == old(duration) && allSteps == old(allSteps)
      ensures Valid()
    {
      soundTrack := None;
      if !enabled {
        return true, None;
      }
      var s := steps;
      var i := 0;
      while i < |s|
        invariant unchanged(this) && 0 <= i <= FirstComment(steps) && |s| == |steps|
        invariant forall j :: 0 <= j < i ==> s[j] == Voiced(steps[j], j, lengths[j])
        invariant forall j :: i <= j < |s| ==> s[j] == steps[j]
      {
        s := s[i := s[i].(audio := Some(VoiceOgg(i)))];
        if s[i].narrative.Comment? {
          assert s == AfterAudio(steps, lengths);
          steps := s;
          return false, None;
        }
        s := s[i := Voiced(steps[i], i, lengths[i])];
        i := i + 1;
      }
      assert s == AfterAudio(steps, lengths);
      steps := s;
      ok := true;
      if wav {
        soundTrack := Some(Playlist(|s|));
      }
    }
  }

  /** The invariant of the `tidy!` loop: the steps before `i` are tidied, the others are
      as they were, and tidying the rest from the current level completes the result. */
  ghost predicate TidyLoop(steps: seq<Step>, cs: seq<string>, s: seq<Step>, i: nat, level: nat) {
    |cs| == |steps| && i <= FirstComment(steps) && |s| == |steps| &&
    s[..i] + TidyRun(steps[i..], cs[i..], level) == TidyRun(steps, cs, 0) && s[i..] == steps[i..]
  }

  lemma TidyLoopStep(steps: seq<Step>, cs: seq<string>, s: seq<Step>, i: nat, level: nat)
    requires TidyLoop(steps, cs, s, i, level) && i < |s| && s[i].narrative.Structured?
    ensures s[i] == steps[i]
    ensures TidyLoop(steps, cs, s[i := Redescribed(s[i], Reword(cs[i], level))], i + 1, NextLevel(cs[i], level))
  {
    assert s[i] == s[i..][0] == steps[i];
    RunStep(steps, cs, i, level);
    TidyLoopAdvance(steps, cs, s, i, level, Redescribed(s[i], Reword(cs[i], level)), NextLevel(cs[i], level));
  }

  lemma TidyLoopAdvance(steps: seq<Step>, cs: seq<string>, s: seq<Step>, i: nat, level: nat, x: Step, next: nat)
    requires TidyLoop(steps, cs, s, i, level) && i < |s| && steps[i].narrative.Structured?
    requires TidyRun(steps[i..], cs[i..], level) == [x] + TidyRun(steps[i + 1..], cs[i + 1..], next)
    ensures TidyLoop(steps, cs, s[i := x], i + 1, next)
  {
    var s' := s[i := x];
    var rest := TidyRun(steps[i + 1..], cs[i + 1..], next);
    assert i < FirstComment(steps);
    assert s'[..i + 1] == s[..i] + [x];
    assert s'[..i + 1] + rest == s[..i] + ([x] + rest);
    assert s'[i + 1..] == steps[i + 1..] by {
      assert s[i..][1..] == s[i + 1..];
    }
  }

  lemma TidyLoopEnd(steps: seq<Step>, cs: seq<string>, s: seq<Step>, i: nat, level: nat)
    requires TidyLoop(steps, cs, s, i, level) && (i == |s| || s[i].narrative.Comment?)
    ensures s == TidyRun(steps, cs, 0) && (i == |s| <==> FirstComment(steps) == |steps|)
  {
    if i < |s| {
      assert s[i] == s[i..][0] == steps[i];
      RunStep(steps, cs, i, level);
    } else {
      assert steps[i..] == [];
    }
    assert s == s[..i] + s[i..];
  }
}
