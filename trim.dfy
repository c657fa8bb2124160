/**
 * The window `trim_video` hands to ffmpeg: it starts four seconds before the first step
 * and lasts the last step's time minus two seconds, both printed as `HH:MM:SS`.
 */
module Trim {
  import opened Wrappers
  import opened Clock
  import opened Report

  /** The `-ss` and `-t` arguments; None when there is no step (`first` is nil) or a
      time is negative, which the printed form does not cover. */
  function TrimBounds(steps: seq<Step>): (r: Option<(string, string)>)
    ensures r.Some? <==> steps != [] && steps[0].time >= 4 && steps[|steps| - 1].time >= 2
  {
    if steps == [] then None
    else
      var start := steps[0].time - 4;
      var length := steps[|steps| - 1].time - 2;
      if start < 0 || length < 0 then None
      else Some((Timestamp(start), Timestamp(length)))
  }

  /** Each argument prints its number of seconds as zero hours and unreduced minutes and
      seconds: `-ss` the first step's time less four seconds, `-t` the last step's time
      less two. */
  lemma TrimWindow(steps: seq<Step>)
    requires steps != [] && steps[0].time >= 4 && steps[|steps| - 1].time >= 2
    ensures var start := steps[0].time - 4;
            var length := steps[|steps| - 1].time - 2;
            TrimBounds(steps).value.0 == Format3(0, start / 60, start % 60) &&
            TrimBounds(steps).value.1 == Format3(0, length / 60, length % 60)
  {
    Printed(steps[0].time - 4);
    Printed(steps[|steps| - 1].time - 2);
  }

  /** A printed argument reads back through `to_time` as its number of seconds exactly
      when that is under an hour. */
  lemma Printed(n: nat)
    ensures Timestamp(n) == Format3(0, n / 60, n % 60)
    ensures n < 3600 ==> ParseClock(Timestamp(n)) == Some(n)
    ensures n >= 3600 ==> ParseClock(Timestamp(n)).None?
  {
    HmsFieldsValue(n);
    if n < 3600 {
      TimestampReadsBack(n);
    } else {
      TimestampPastHour(n);
    }
  }
}
