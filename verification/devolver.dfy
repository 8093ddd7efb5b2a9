/**
 * `split_video_on_transients`, `main` and the checked entry point: the
 * threshold mask, the frame-to-time conversion, the clip loop and the
 * rearrangement, composed as the program composes them. Decoding, onset
 * detection and rendering stay outside: the onset envelope, the candidate
 * frames, the frame-to-time map and the video's duration are inputs.
 */
module Devolver {
  import opened Outcome
  import opened Threshold
  import opened Segments
  import opened Rearrange
  import opened Cli

  /** Later frames are later in time. */
  ghost predicate StrictlyIncreasing(toTime: nat -> real)
  {
    forall a: nat, b: nat :: a < b ==> toTime(a) < toTime(b)
  }

  /** Every candidate frame falls before the end of the video. */
  ghost predicate CandidatesBeforeEnd(frames: seq<nat>, toTime: nat -> real, duration: real)
  {
    forall k :: 0 <= k < |frames| ==> toTime(frames[k]) < duration
  }

  /** `frames_to_time`: the time of each retained frame, in the same order. */
  function OnsetTimes(frames: seq<nat>, toTime: nat -> real): (times: seq<real>)
    ensures |times| == |frames|
    ensures forall k :: 0 <= k < |frames| ==> times[k] == toTime(frames[k])
  {
    seq(|frames|, k requires 0 <= k < |frames| => toTime(frames[k]))
  }

  /**
   * The clips `split_video_on_transients` returns, or why it fails: it fails
   * exactly when there is no candidate, and otherwise clip k starts at the
   * time of the k-th retained frame and ends where the next clip starts, the
   * last one at the duration.
   */
  function Split(env: seq<real>, frames: seq<nat>, threshold: real, toTime: nat -> real, duration: real): (r: Result<seq<Clip>>)
    requires FramesInEnvelope(env, frames)
    ensures r.Err? <==> frames == []
    ensures r.Err? ==> r.error == EmptyCandidates
    ensures r.Ok? ==> |r.value| == |ApplyThreshold(env, frames, threshold).value|
    ensures r.Ok? ==> forall k :: 0 <= k < |r.value| ==>
      r.value[k].start == toTime(ApplyThreshold(env, frames, threshold).value[k])
    ensures r.Ok? ==> forall k :: 0 <= k < |r.value| - 1 ==> r.value[k].end == r.value[k + 1].start
    ensures r.Ok? && r.value != [] ==> r.value[|r.value| - 1].end == duration
  {
    match ApplyThreshold(env, frames, threshold)
    case Err(e) => Err(e)
    case Ok(kept) => Ok(Clips(OnsetTimes(kept, toTime), duration))
  }

  /**
   * Mask the candidates, convert the survivors to times and cut one clip per
   * surviving onset. It fails only when there is no candidate at all.
   */
  method SplitVideoOnTransients(env: seq<real>, frames: seq<nat>, threshold: real, toTime: nat -> real, duration: real)
    returns (r: Result<seq<Clip>>)
    requires FramesInEnvelope(env, frames)
    ensures r == Split(env, frames, threshold, toTime, duration)
    ensures r.Err? <==> frames == []
    ensures r.Ok? ==> |r.value| == |ApplyThreshold(env, frames, threshold).value|
  {
    var kept := ApplyThreshold(env, frames, threshold);
    if kept.Err? {
      return Err(kept.error);
    }
    var onsetTimes := OnsetTimes(kept.value, toTime);
    var clips := BuildClips(onsetTimes, duration);
    return Ok(clips);
  }

  /** At threshold 1.0 no onset survives, so the clip list is empty. */
  lemma NoClipsAtThresholdOne(env: seq<real>, frames: seq<nat>, toTime: nat -> real, duration: real)
    requires FramesInEnvelope(env, frames)
    requires frames != []
    ensures Split(env, frames, 1.0, toTime, duration) == Ok([])
  {
    NothingRetainedAtOne(env, frames);
  }

  /** Among accepted thresholds, lower ones result in more splits, never fewer. */
  lemma LowerThresholdMoreClips(env: seq<real>, frames: seq<nat>, lower: real, higher: real, toTime: nat -> real, duration: real)
    requires FramesInEnvelope(env, frames)
    requires frames != []
    requires lower <= higher <= 1.0
    ensures |Split(env, frames, higher, toTime, duration).value| <= |Split(env, frames, lower, toTime, duration).value|
  {
    LowerThresholdRetainsMore(env, frames, lower, higher);
  }

  /**
   * With strictly ascending candidates, a strictly increasing frame-to-time
   * map and every candidate before the end of the video, the clips are
   * non-empty and disjoint, they cover exactly `[first onset, duration)`, and
   * their lengths add up to `duration` minus the first onset time.
   */
  lemma ClipsPartitionFromFirstOnset(env: seq<real>, frames: seq<nat>, threshold: real, toTime: nat -> real, duration: real, x: real)
    requires FramesInEnvelope(env, frames)
    requires StrictlyAscending(frames)
    requires StrictlyIncreasing(toTime)
    requires CandidatesBeforeEnd(frames, toTime, duration)
    requires Split(env, frames, threshold, toTime, duration).Ok?
    requires Split(env, frames, threshold, toTime, duration).value != []
    ensures var c := Split(env, frames, threshold, toTime, duration).value;
      && (forall i :: 0 <= i < |c| ==> c[i].start < c[i].end)
      && (forall i, j :: 0 <= i < j < |c| ==> c[i].end <= c[j].start)
      && TotalLength(c) == duration - c[0].start
      && ((exists i :: 0 <= i < |c| && c[i].start <= x < c[i].end) <==> c[0].start <= x < duration)
  {
    var kept := ApplyThreshold(env, frames, threshold).value;
    var times := OnsetTimes(kept, toTime);
    RetainedAscending(env, frames, threshold);
    assert Ascending(times) by {
      forall k, l | 0 <= k < l < |times|
        ensures times[k] < times[l]
      {
        assert kept[k] < kept[l];
      }
    }
    assert BeforeEnd(times, duration) by {
      forall k | 0 <= k < |times|
        ensures times[k] < duration
      {
        assert kept[k] in frames;
      }
    }
    ClipsNonEmptyAndDisjoint(times, duration);
    TotalLengthTelescopes(times, duration);
    CoveredIff(times, duration, x);
  }

  /**
   * `main` up to rendering: split, then rearrange. The rearranged clips are
   * the split clips in some order and last as long in total.
   */
  method Devolve(env: seq<real>, frames: seq<nat>, threshold: real, toTime: nat -> real, duration: real)
    returns (r: Result<seq<Clip>>)
    requires FramesInEnvelope(env, frames)
    ensures r.Err? <==> Split(env, frames, threshold, toTime, duration).Err?
    ensures r.Err? ==> r.error == EmptyCandidates
    ensures r.Ok? ==> multiset(r.value) == multiset(Split(env, frames, threshold, toTime, duration).value)
    ensures r.Ok? ==> TotalLength(r.value) == TotalLength(Split(env, frames, threshold, toTime, duration).value)
  {
    var clips := SplitVideoOnTransients(env, frames, threshold, toTime, duration);
    if clips.Err? {
      return clips;
    }
    var rearranged := RearrangeClips(clips.value);
    RearrangedTotalLength(rearranged, clips.value);
    return Ok(rearranged);
  }

  /**
   * The checked entry point: a threshold outside [0.0, 1.0] is rejected
   * before anything else happens, whatever the video; otherwise the run
   * proceeds as `main` up to rendering (`Devolve`).
   */
  method Run(env: seq<real>, frames: seq<nat>, threshold: real, toTime: nat -> real, duration: real)
    returns (r: Result<seq<Clip>>)
    requires FramesInEnvelope(env, frames)
    ensures !(0.0 <= threshold <= 1.0) ==> r == Err(ThresholdOutOfRange)
    ensures 0.0 <= threshold <= 1.0 ==> (r.Ok? <==> frames != [])
    ensures 0.0 <= threshold <= 1.0 && r.Err? ==> r.error == EmptyCandidates
    ensures r.Ok? ==> multiset(r.value) == multiset(Split(env, frames, threshold, toTime, duration).value)
  {
    var checked := ValidateThreshold(threshold);
    if checked.Err? {
      return Err(checked.error);
    }
    r := Devolve(env, frames, checked.value, toTime, duration);
  }
}
