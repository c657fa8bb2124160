/**
 * The canonical step list and its durations, as `initialize` derives them from the
 * parsed steps: the user-commented steps if there are any, otherwise every step; each
 * step lasts until the next one starts, and the last one until the session ends.
 */
module Timing {
  import opened Wrappers
  import opened Report

  /** `all_steps.select {|x| x[:user_comment]}`: the commented steps, in order. */
  function Commented(steps: seq<Step>): (r: seq<Step>)
    ensures |r| <= |steps|
    ensures forall k :: 0 <= k < |r| ==> r[k].narrative.Comment?
    ensures forall x :: x in r <==> x in steps && x.narrative.Comment?
  {
    if steps == [] then []
    else
      assert forall x :: x in steps <==> x == steps[0] || x in steps[1..];
      (if steps[0].narrative.Comment? then [steps[0]] else []) + Commented(steps[1..])
  }

  /** Selection is taken piecewise, so it keeps the original order of the steps. */
  lemma {:induction false} CommentedAppend(a: seq<Step>, b: seq<Step>)
    ensures Commented(a + b) == Commented(a) + Commented(b)
  {
    if a != [] {
      assert (a + b)[1..] == a[1..] + b;
      CommentedAppend(a[1..], b);
    } else {
      assert a + b == b;
    }
  }

  /** `steps.any? ? steps : @all_steps`. */
  function Selected(all: seq<Step>): (r: seq<Step>)
    ensures (exists k :: 0 <= k < |all| && all[k].narrative.Comment?) ==>
              r != [] && r == Commented(all)
    ensures (forall k :: 0 <= k < |all| ==> !all[k].narrative.Comment?) ==> r == all
  {
    var c := Commented(all);
    if c != [] then
      assert c[0] in c;
      c
    else
      assert forall k :: 0 <= k < |all| ==> all[k] in all;
      all
  }

  /** Selecting again changes nothing: a selection of commented steps is all comments. */
  lemma SelectedIdempotent(all: seq<Step>)
    ensures Selected(Selected(all)) == Selected(all)
  {
    var s := Selected(all);
    if exists k :: 0 <= k < |all| && all[k].narrative.Comment? {
      CommentedOfComments(s);
      assert s[0].narrative.Comment?;
    }
  }

  /** A list of comments is its own selection. */
  lemma {:induction false} CommentedOfComments(s: seq<Step>)
    requires forall k :: 0 <= k < |s| ==> s[k].narrative.Comment?
    ensures Commented(s) == s
  {
    if s != [] {
      CommentedOfComments(s[1..]);
    }
  }

  /** The duration `initialize` gives the step at position `k`. */
  function DurationAt(steps: seq<Step>, total: int, k: nat): int
    requires k < |steps|
  {
    if k + 1 < |steps| then steps[k + 1].time - steps[k].time else total - steps[k].time
  }

  /** The step list with every `duration` filled in; nothing else about a step changes. */
  function WithDurations(steps: seq<Step>, total: int): (r: seq<Step>)
    ensures |r| == |steps|
    ensures forall k :: 0 <= k < |r| ==> r[k] == steps[k].(duration := Some(DurationAt(steps, total, k)))
  {
    seq(|steps|, k requires 0 <= k < |steps| => steps[k].(duration := Some(DurationAt(steps, total, k))))
  }

  /** The sum of the durations that are set. */
  function SumDurations(steps: seq<Step>): int {
    if steps == [] then 0
    else
      var last := steps[|steps| - 1];
      SumDurations(steps[..|steps| - 1]) + (if last.duration.Some? then last.duration.value else 0)
  }

  /** The durations tile the session: the first `k` steps together last from the first
      step to step `k`, and all of them from the first step to the end of the session. */
  lemma {:induction false} DurationsTile(steps: seq<Step>, total: int, k: nat)
    requires 0 < k <= |steps|
    ensures SumDurations(WithDurations(steps, total)[..k]) ==
              (if k < |steps| then steps[k].time else total) - steps[0].time
  {
    var w := WithDurations(steps, total);
    assert w[..k][..k - 1] == w[..k - 1];
    if k > 1 {
      DurationsTile(steps, total, k - 1);
    } else {
      assert w[..0] == [];
    }
  }

  /** Every duration is non-negative exactly when the step times never go backwards and
      the last step starts no later than the session ends. */
  lemma DurationsNonNegative(steps: seq<Step>, total: int)
    requires steps != []
    ensures (forall k :: 0 <= k < |steps| ==> WithDurations(steps, total)[k].duration.value >= 0) <==>
            (forall k :: 0 <= k < |steps| - 1 ==> steps[k].time <= steps[k + 1].time) &&
            steps[|steps| - 1].time <= total
  {
    var w := WithDurations(steps, total);
    if forall k :: 0 <= k < |steps| ==> w[k].duration.value >= 0 {
      assert w[|steps| - 1].duration.value >= 0;
      forall k | 0 <= k < |steps| - 1 ensures steps[k].time <= steps[k + 1].time {
        assert w[k].duration.value >= 0;
      }
    }
  }
}
