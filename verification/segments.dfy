/**
 * The clip loop of `split_video_on_transients`: one half-open interval per
 * retained onset time, from that onset to the next one, the last one ending
 * at the video's duration. A clip is modelled only by its bounds.
 */
module Segments {

  /** A sub-clip `[start, end)` of the source video, in seconds. */
  datatype Clip = Clip(start: real, end: real)

  function Length(c: Clip): real
  {
    c.end - c.start
  }

  /** Total playing time of a sequence of clips. */
  function TotalLength(clips: seq<Clip>): real
  {
    if clips == [] then 0.0 else Length(clips[0]) + TotalLength(clips[1..])
  }

  predicate Ascending(times: seq<real>)
  {
    forall k, l :: 0 <= k < l < |times| ==> times[k] < times[l]
  }

  /** Every onset lies before the end of the video. */
  predicate BeforeEnd(times: seq<real>, duration: real)
  {
    forall k :: 0 <= k < |times| ==> times[k] < duration
  }

  /** The end of the clip that starts at onset `i`: the next onset, or the duration. */
  function EndOf(times: seq<real>, duration: real, i: nat): real
    requires i < |times|
  {
    if i + 1 < |times| then times[i + 1] else duration
  }

  /**
   * The clips cut at `times`: clip i starts at onset i, each clip ends where
   * the next begins, and the last one ends at `duration`. There is one clip
   * per onset and none when there is no onset.
   */
  function Clips(times: seq<real>, duration: real): (clips: seq<Clip>)
    ensures |clips| == |times|
    ensures forall i :: 0 <= i < |clips| ==> clips[i].start == times[i]
    ensures forall i :: 0 <= i < |clips| - 1 ==> clips[i].end == clips[i + 1].start
    ensures |clips| > 0 ==> clips[|clips| - 1].end == duration
  {
    seq(|times|, i requires 0 <= i < |times| => Clip(times[i], EndOf(times, duration, i)))
  }

  /** The loop that appends one clip per onset time to an initially empty list. */
  method BuildClips(onsetTimes: seq<real>, duration: real) returns (clips: seq<Clip>)
    ensures clips == Clips(onsetTimes, duration)
  {
    clips := [];
    var i := 0;
    while i < |onsetTimes|
      invariant 0 <= i <= |onsetTimes|
      invariant clips == Clips(onsetTimes, duration)[..i]
    {
      var startTime := onsetTimes[i];
      var endTime := if i + 1 < |onsetTimes| then onsetTimes[i + 1] else duration;
      clips := clips + [Clip(startTime, endTime)];
      i := i + 1;
    }
  }

  /** Dropping the first onset drops the first clip and leaves the others unchanged. */
  lemma ClipsTail(times: seq<real>, duration: real)
    requires |times| >= 2
    ensures Clips(times, duration) == [Clip(times[0], times[1])] + Clips(times[1..], duration)
  {
    var c := Clips(times, duration);
    var rest := Clips(times[1..], duration);
    forall i | 1 <= i < |c|
      ensures c[i] == rest[i - 1]
    {
      assert EndOf(times, duration, i) == EndOf(times[1..], duration, i - 1);
    }
  }

  /**
   * With ascending onsets that all precede the end of the video, every clip
   * is non-empty and the clips do not overlap.
   */
  lemma ClipsNonEmptyAndDisjoint(times: seq<real>, duration: real)
    requires Ascending(times) && BeforeEnd(times, duration)
    ensures forall i :: 0 <= i < |times| ==> Clips(times, duration)[i].start < Clips(times, duration)[i].end
    ensures forall i, j :: 0 <= i < j < |times| ==> Clips(times, duration)[i].end <= Clips(times, duration)[j].start
  {
  }

  /**
   * The clip lengths telescope: together they last from the first onset to
   * the end of the video, so the stretch before the first onset is not part
   * of any clip.
   */
  lemma {:induction false} TotalLengthTelescopes(times: seq<real>, duration: real)
    requires |times| > 0
    ensures TotalLength(Clips(times, duration)) == duration - times[0]
  {
    var c := Clips(times, duration);
    if |times| == 1 {
      assert c == [Clip(times[0], duration)];
      assert TotalLength(c) == Length(c[0]) + TotalLength([]);
    } else {
      ClipsTail(times, duration);
      TotalLengthTelescopes(times[1..], duration);
      assert c[1..] == Clips(times[1..], duration);
    }
  }

  /** A time in `[first onset, duration)` lies in some clip, found by walking the onsets. */
  lemma {:induction false} ClipContaining(times: seq<real>, duration: real, x: real) returns (i: nat)
    requires |times| > 0
    requires times[0] <= x < duration
    ensures i < |times|
    ensures Clips(times, duration)[i].start <= x < Clips(times, duration)[i].end
  {
    if |times| == 1 || x < times[1] {
      i := 0;
    } else {
      var j := ClipContaining(times[1..], duration, x);
      ClipsTail(times, duration);
      i := j + 1;
      assert Clips(times, duration)[i] == Clips(times[1..], duration)[j];
    }
  }

  /**
   * With ascending onsets before the end, a time lies in some clip exactly
   * when it lies in `[first onset, duration)`.
   */
  lemma CoveredIff(times: seq<real>, duration: real, x: real)
    requires |times| > 0
    requires Ascending(times) && BeforeEnd(times, duration)
    ensures (exists i :: 0 <= i < |times| && Clips(times, duration)[i].start <= x < Clips(times, duration)[i].end)
        <==> times[0] <= x < duration
  {
    var c := Clips(times, duration);
    if times[0] <= x < duration {
      var i := ClipContaining(times, duration, x);
      assert c[i].start <= x < c[i].end;
    }
    forall i | 0 <= i < |times| && c[i].start <= x < c[i].end
      ensures times[0] <= x < duration
    {
      assert times[0] <= c[i].start;
      assert c[i].end <= duration;
    }
  }
}
