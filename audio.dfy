/**
 * The arithmetic of `generate_audio`: each step is voiced into `voice<i>.ogg`, padded
 * with `silence<i>.wav` up to its duration, and the sound track is the concatenation of a
 * one-second intro and every voice and silence in step order. The speech synthesiser and
 * the length it measures are outside the model: the length of each voice is an input.
 */
module Audio {
  import opened Wrappers
  import opened Text
  import opened Report
  import opened Timing

  /** `silence_duration`: what is left of the step's duration once the voice has been
      played, never negative. */
  function Silence(duration: int, audio: nat): (r: nat)
    ensures r >= duration - audio
    ensures r == 0 || r == duration - audio
  {
    if duration - audio >= 0 then duration - audio else 0
  }

  /** Voice and silence together fill the step's duration, or just the voice when it is
      longer than the step. */
  lemma SilencePads(duration: int, audio: nat)
    ensures audio + Silence(duration, audio) == if audio <= duration then duration else audio
  {
  }

  /** The file names for the step at position `i`: `"voice#{i+1}.ogg"` and the like. */
  function VoiceOgg(i: nat): string {
    "voice" + NatToString(i + 1) + ".ogg"
  }

  function VoiceWav(i: nat): string {
    "voice" + NatToString(i + 1) + ".wav"
  }

  function SilenceWav(i: nat): string {
    "silence" + NatToString(i + 1) + ".wav"
  }

  const Intro := "intro.wav"

  /** `files.prepend intro` after the `flat_map` over `n` steps. */
  function Playlist(n: nat): (r: seq<string>)
  {
    if n == 0 then [Intro] else Playlist(n - 1) + [VoiceWav(n - 1), SilenceWav(n - 1)]
  }

  /** The sound track is the intro followed by voice and silence of each step, in step
      order: `2n + 1` files in all. */
  lemma {:induction false} PlaylistOrder(n: nat)
    ensures |Playlist(n)| == 2 * n + 1
    ensures Playlist(n)[0] == Intro
    ensures forall k :: 0 <= k < n ==> Playlist(n)[2 * k + 1] == VoiceWav(k) && Playlist(n)[2 * k + 2] == SilenceWav(k)
  {
    if n > 0 {
      PlaylistOrder(n - 1);
    }
  }

  /** A step once voiced: its audio file, the voice's length and the padding after it. */
  function Voiced(x: Step, i: nat, length: nat): (r: Step)
    requires x.duration.Some?
    ensures r.audio == Some(VoiceOgg(i)) && r.audioDuration == Some(length)
    ensures r.silence == Some(Silence(x.duration.value, length))
    ensures r.audioDuration.value + r.silence.value >= x.duration.value
    ensures r.(audio := x.audio, audioDuration := x.audioDuration, silence := x.silence) == x
  {
    x.(audio := Some(VoiceOgg(i)), audioDuration := Some(length), silence := Some(Silence(x.duration.value, length)))
  }

  /** The seconds into the sound track at which the voice of step `k` starts: the intro,
      then every earlier voice and its silence. */
  function VoiceStart(steps: seq<Step>, k: nat): int
    requires k <= |steps|
  {
    if k == 0 then 1
    else
      var x := steps[k - 1];
      VoiceStart(steps, k - 1)
        + (if x.audioDuration.Some? then x.audioDuration.value else 0)
        + (if x.silence.Some? then x.silence.value else 0)
  }

  /** The steps after `generate_audio`: every step before the first comment is voiced,
      and the comment step has been given its file name when the synthesiser fails on it. */
  function AfterAudio(steps: seq<Step>, lengths: seq<nat>): (r: seq<Step>)
    requires |lengths| == |steps|
    requires forall j :: 0 <= j < |steps| ==> steps[j].duration.Some?
    ensures |r| == |steps|
  {
    var k := FirstComment(steps);
    seq(|steps|, j requires 0 <= j < |steps| =>
      if j < k then Voiced(steps[j], j, lengths[j])
      else if j == k then steps[j].(audio := Some(VoiceOgg(j)))
      else steps[j])
  }

  /** While every voice fits its step, voice `k` starts one second (the intro) plus the
      durations of the earlier steps into the sound track. */
  lemma {:induction false} VoiceStartAligned(steps: seq<Step>, lengths: seq<nat>, k: nat)
    requires |lengths| == |steps|
    requires forall j :: 0 <= j < |steps| ==> steps[j].duration.Some?
    requires k <= FirstComment(steps)
    requires forall j :: 0 <= j < k ==> lengths[j] <= steps[j].duration.value
    ensures VoiceStart(AfterAudio(steps, lengths), k) == 1 + SumDurations(steps[..k])
  {
    if k > 0 {
      VoiceStartAligned(steps, lengths, k - 1);
      assert steps[..k][..k - 1] == steps[..k - 1];
      SilencePads(steps[k - 1].duration.value, lengths[k - 1]);
    } else {
      assert steps[..0] == [];
    }
  }

  /** With the durations `initialize` assigns, voice `k` starts at the offset of step `k`
      from the first step, plus the one-second intro. */
  lemma SoundTrackFollowsSteps(selected: seq<Step>, total: int, lengths: seq<nat>, k: nat)
    requires 0 < k < |selected| && |lengths| == |selected|
    requires k <= FirstComment(WithDurations(selected, total))
    requires forall j :: 0 <= j < k ==> lengths[j] <= WithDurations(selected, total)[j].duration.value
    ensures VoiceStart(AfterAudio(WithDurations(selected, total), lengths), k) == 1 + selected[k].time - selected[0].time
  {
    VoiceStartAligned(WithDurations(selected, total), lengths, k);
    DurationsTile(selected, total, k);
  }
}
