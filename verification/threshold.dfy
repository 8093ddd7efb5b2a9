/**
 * The threshold mask of `split_video_on_transients`: look up the onset
 * strength at every candidate frame, and keep, in order, the candidates whose
 * strength is strictly above `threshold * max(strengths)`.
 */
module Threshold {
  import opened Outcome

  /** Every candidate frame indexes the onset-strength envelope. */
  predicate FramesInEnvelope(env: seq<real>, frames: seq<nat>)
  {
    forall k :: 0 <= k < |frames| ==> frames[k] < |env|
  }

  predicate StrictlyAscending(s: seq<nat>)
  {
    forall k, l :: 0 <= k < l < |s| ==> s[k] < s[l]
  }

  /** `sub` is `s` with some elements removed and the rest kept in order. */
  ghost predicate IsSubsequenceOf(sub: seq<nat>, s: seq<nat>)
  {
    exists idx: seq<nat> :: StrictlyAscending(idx) && |idx| == |sub| &&
      forall k :: 0 <= k < |idx| ==> idx[k] < |s| && sub[k] == s[idx[k]]
  }

  /** The largest strength (numpy's `max`, defined only on a non-empty array). */
  function Max(s: seq<real>): (m: real)
    requires |s| > 0
    ensures m in s
    ensures forall k :: 0 <= k < |s| ==> s[k] <= m
  {
    if |s| == 1 then s[0]
    else
      var rest := Max(s[1..]);
      assert forall k :: 1 <= k < |s| ==> s[k] == s[1..][k - 1];
      if s[0] >= rest then s[0] else rest
  }

  /** The strengths at the candidate frames (fancy indexing `env[frames]`). */
  function StrengthsAt(env: seq<real>, frames: seq<nat>): (s: seq<real>)
    requires FramesInEnvelope(env, frames)
    ensures |s| == |frames|
    ensures forall k :: 0 <= k < |frames| ==> s[k] == env[frames[k]]
  {
    seq(|frames|, k requires 0 <= k < |frames| => env[frames[k]])
  }

  /**
   * The cut-off a strength must strictly exceed: the threshold times the
   * peak strength. At 1.0 it is the peak itself; below 1.0 it is under a
   * positive peak; for an accepted threshold and a non-negative peak it lies
   * between 0 and the peak.
   */
  function Cutoff(threshold: real, peak: real): (c: real)
    ensures threshold == 1.0 ==> c == peak
    ensures threshold < 1.0 && peak > 0.0 ==> c < peak
    ensures 0.0 <= threshold <= 1.0 && peak >= 0.0 ==> 0.0 <= c <= peak
  {
    assert threshold < 1.0 && peak > 0.0 ==> (1.0 - threshold) * peak > 0.0;
    assert 0.0 <= threshold <= 1.0 && peak >= 0.0 ==> threshold * peak >= 0.0 && (1.0 - threshold) * peak >= 0.0;
    threshold * peak
  }

  /**
   * The positions from `from` on whose strength is strictly above `cutoff`,
   * in ascending order: the true positions of the boolean mask.
   */
  function Above(strengths: seq<real>, cutoff: real, from: nat): (idx: seq<nat>)
    requires from <= |strengths|
    ensures StrictlyAscending(idx)
    ensures forall k :: 0 <= k < |idx| ==> from <= idx[k] < |strengths| && strengths[idx[k]] > cutoff
    ensures forall i :: from <= i < |strengths| && strengths[i] > cutoff ==> i in idx
    decreases |strengths| - from
  {
    if from == |strengths| then []
    else if strengths[from] > cutoff then [from] + Above(strengths, cutoff, from + 1)
    else Above(strengths, cutoff, from + 1)
  }

  /** The elements of `frames` at the positions `idx`, in the order of `idx`. */
  function Select(frames: seq<nat>, idx: seq<nat>): (r: seq<nat>)
    requires forall k :: 0 <= k < |idx| ==> idx[k] < |frames|
    ensures |r| == |idx|
    ensures forall k :: 0 <= k < |idx| ==> r[k] == frames[idx[k]]
  {
    seq(|idx|, k requires 0 <= k < |idx| => frames[idx[k]])
  }

  /**
   * The positions of the candidates that survive the threshold, ascending:
   * position i is among them exactly when the strength at candidate i is
   * strictly above `threshold * max(strengths)`.
   */
  function Survivors(env: seq<real>, frames: seq<nat>, threshold: real): (idx: seq<nat>)
    requires FramesInEnvelope(env, frames)
    requires frames != []
    ensures StrictlyAscending(idx)
    ensures forall k :: 0 <= k < |idx| ==> idx[k] < |frames|
    ensures forall i :: 0 <= i < |frames| ==>
      (i in idx <==> env[frames[i]] > Cutoff(threshold, Max(StrengthsAt(env, frames))))
  {
    var s := StrengthsAt(env, frames);
    Above(s, Cutoff(threshold, Max(s)), 0)
  }

  /**
   * The retained candidate frames; with no candidate at all the maximum is
   * undefined and the step fails.
   */
  function ApplyThreshold(env: seq<real>, frames: seq<nat>, threshold: real): (r: Result<seq<nat>>)
    requires FramesInEnvelope(env, frames)
    ensures r.Err? <==> frames == []
    ensures r.Err? ==> r.error == EmptyCandidates
    ensures r.Ok? ==> |r.value| <= |frames|
    ensures r.Ok? ==> forall f :: f in r.value ==> f in frames
  {
    if frames == [] then Err(EmptyCandidates)
    else
      var idx := Survivors(env, frames, threshold);
      AboveLength(StrengthsAt(env, frames), Cutoff(threshold, Max(StrengthsAt(env, frames))), 0);
      Ok(Select(frames, idx))
  }

  /** The mask selects at most as many positions as there are from `from` on. */
  lemma {:induction false} AboveLength(strengths: seq<real>, cutoff: real, from: nat)
    requires from <= |strengths|
    ensures |Above(strengths, cutoff, from)| <= |strengths| - from
    decreases |strengths| - from
  {
    if from < |strengths| {
      AboveLength(strengths, cutoff, from + 1);
      var rest := Above(strengths, cutoff, from + 1);
      if strengths[from] > cutoff {
        assert Above(strengths, cutoff, from) == [from] + rest;
      } else {
        assert Above(strengths, cutoff, from) == rest;
      }
    }
  }

  /** The retained frames are the candidates with some removed and the rest in their original order. */
  lemma RetainedIsSubsequence(env: seq<real>, frames: seq<nat>, threshold: real)
    requires FramesInEnvelope(env, frames)
    requires frames != []
    ensures IsSubsequenceOf(ApplyThreshold(env, frames, threshold).value, frames)
  {
    var idx := Survivors(env, frames, threshold);
    assert StrictlyAscending(idx) && |idx| == |ApplyThreshold(env, frames, threshold).value|;
  }

  /**
   * A candidate is retained exactly when its strength is strictly above
   * `threshold * max(strengths)`; every dropped candidate is at or below that
   * cut-off. This holds in any candidate order: equal frames have equal
   * strengths.
   */
  lemma RetainedIff(env: seq<real>, frames: seq<nat>, threshold: real, i: nat)
    requires FramesInEnvelope(env, frames)
    requires i < |frames|
    ensures frames[i] in ApplyThreshold(env, frames, threshold).value
        <==> env[frames[i]] > Cutoff(threshold, Max(StrengthsAt(env, frames)))
  {
    var cutoff := Cutoff(threshold, Max(StrengthsAt(env, frames)));
    var idx := Survivors(env, frames, threshold);
    var r := ApplyThreshold(env, frames, threshold).value;
    assert r == Select(frames, idx);
    if frames[i] in r {
      var k :| 0 <= k < |r| && r[k] == frames[i];
      assert env[frames[idx[k]]] > cutoff;
    }
    if env[frames[i]] > cutoff {
      var k :| 0 <= k < |idx| && idx[k] == i;
      assert r[k] == frames[i];
    }
  }

  /** The mask keeps the frame at position `i` exactly when its strength is above the cut-off. */
  lemma SelectedIff(frames: seq<nat>, strengths: seq<real>, cutoff: real, i: nat)
    requires StrictlyAscending(frames)
    requires |strengths| == |frames|
    requires i < |frames|
    ensures frames[i] in Select(frames, Above(strengths, cutoff, 0)) <==> strengths[i] > cutoff
  {
    var idx := Above(strengths, cutoff, 0);
    var r := Select(frames, idx);
    if frames[i] in r {
      RetainedOnlyAbove(frames, idx, i);
    }
    if strengths[i] > cutoff {
      var k :| 0 <= k < |idx| && idx[k] == i;
      assert r[k] == frames[i];
    }
  }

  /** With strictly ascending candidates, a selected frame was selected at its own position. */
  lemma RetainedOnlyAbove(frames: seq<nat>, idx: seq<nat>, i: nat)
    requires StrictlyAscending(frames)
    requires forall k :: 0 <= k < |idx| ==> idx[k] < |frames|
    requires i < |frames|
    requires frames[i] in Select(frames, idx)
    ensures i in idx
  {
    var r := Select(frames, idx);
    var k :| 0 <= k < |r| && r[k] == frames[i];
    var j := idx[k];
    AscendingInjective(frames, j, i);
  }

  /** Proof step: a strictly ascending sequence holds no value twice. */
  lemma AscendingInjective(s: seq<nat>, a: nat, b: nat)
    requires StrictlyAscending(s)
    requires a < |s| && b < |s| && s[a] == s[b]
    ensures a == b
  {
  }

  /** Strictly ascending candidates give strictly ascending retained frames. */
  lemma RetainedAscending(env: seq<real>, frames: seq<nat>, threshold: real)
    requires FramesInEnvelope(env, frames)
    requires StrictlyAscending(frames)
    requires frames != []
    ensures StrictlyAscending(ApplyThreshold(env, frames, threshold).value)
  {
    var idx := Survivors(env, frames, threshold);
    var r := ApplyThreshold(env, frames, threshold).value;
    forall k, l | 0 <= k < l < |r|
      ensures r[k] < r[l]
    {
      assert idx[k] < idx[l];
    }
  }

  /** At threshold 1.0 nothing survives: no strength is strictly above the maximum. */
  lemma NothingRetainedAtOne(env: seq<real>, frames: seq<nat>)
    requires FramesInEnvelope(env, frames)
    requires frames != []
    ensures ApplyThreshold(env, frames, 1.0) == Ok([])
  {
    var s := StrengthsAt(env, frames);
    var idx := Survivors(env, frames, 1.0);
    NoneAboveMax(s, Cutoff(1.0, Max(s)), 0);
  }

  /**
   * Below threshold 1.0, with some strength above zero, the strongest
   * candidate always survives, so at least one frame is retained.
   */
  lemma SomethingRetainedBelowOne(env: seq<real>, frames: seq<nat>, threshold: real)
    requires FramesInEnvelope(env, frames)
    requires frames != []
    requires threshold < 1.0
    requires Max(StrengthsAt(env, frames)) > 0.0
    ensures |ApplyThreshold(env, frames, threshold).value| > 0
  {
    var s := StrengthsAt(env, frames);
    var m := Max(s);
    var i :| 0 <= i < |s| && s[i] == m;
    assert s[i] > Cutoff(threshold, Max(s));
    assert i in Survivors(env, frames, threshold);
  }

  /** No strength is strictly above a cut-off at or over the maximum. */
  lemma {:induction false} NoneAboveMax(s: seq<real>, cutoff: real, from: nat)
    requires from <= |s|
    requires |s| > 0 && cutoff >= Max(s)
    ensures Above(s, cutoff, from) == []
    decreases |s| - from
  {
    if from < |s| {
      NoneAboveMax(s, cutoff, from + 1);
    }
  }

  /** Proof step (arithmetic only): with a non-negative peak, a lower threshold gives a lower cut-off. */
  lemma CutoffMonotone(lower: real, higher: real, peak: real)
    requires lower <= higher && peak >= 0.0
    ensures Cutoff(lower, peak) <= Cutoff(higher, peak)
  {
  }

  /** Raising the cut-off can only drop positions from the mask. */
  lemma {:induction false} AboveShrinks(strengths: seq<real>, low: real, high: real, from: nat)
    requires from <= |strengths|
    requires low <= high
    ensures |Above(strengths, high, from)| <= |Above(strengths, low, from)|
    decreases |strengths| - from
  {
    if from < |strengths| {
      AboveShrinks(strengths, low, high, from + 1);
      var restLow, restHigh := Above(strengths, low, from + 1), Above(strengths, high, from + 1);
      if strengths[from] > high {
        assert Above(strengths, high, from) == [from] + restHigh;
        assert Above(strengths, low, from) == [from] + restLow;
      } else if strengths[from] > low {
        assert Above(strengths, high, from) == restHigh;
        assert Above(strengths, low, from) == [from] + restLow;
      } else {
        assert Above(strengths, high, from) == restHigh;
        assert Above(strengths, low, from) == restLow;
      }
    }
  }

  /** Every frame the mask keeps at a higher cut-off it also keeps at a lower one. */
  lemma SelectedShrinks(frames: seq<nat>, strengths: seq<real>, low: real, high: real)
    requires |strengths| == |frames|
    requires low <= high
    ensures forall f :: f in Select(frames, Above(strengths, high, 0)) ==> f in Select(frames, Above(strengths, low, 0))
  {
    var hi, lo := Above(strengths, high, 0), Above(strengths, low, 0);
    forall f | f in Select(frames, hi)
      ensures f in Select(frames, lo)
    {
      var k :| 0 <= k < |hi| && Select(frames, hi)[k] == f;
      assert hi[k] in lo;
      var j :| 0 <= j < |lo| && lo[j] == hi[k];
      assert Select(frames, lo)[j] == f;
    }
  }

  /**
   * Lowering an accepted threshold retains every frame retained before and
   * possibly more, hence at least as many splits. With a non-negative peak a
   * lower threshold means a lower cut-off; with a negative peak a threshold
   * of at most 1.0 puts the cut-off at or above the peak, so nothing is
   * retained at the higher threshold.
   */
  lemma LowerThresholdRetainsMore(env: seq<real>, frames: seq<nat>, lower: real, higher: real)
    requires FramesInEnvelope(env, frames)
    requires frames != []
    requires lower <= higher <= 1.0
    ensures |ApplyThreshold(env, frames, higher).value| <= |ApplyThreshold(env, frames, lower).value|
    ensures forall f :: f in ApplyThreshold(env, frames, higher).value ==> f in ApplyThreshold(env, frames, lower).value
  {
    var s := StrengthsAt(env, frames);
    var peak := Max(s);
    var low, high := Cutoff(lower, peak), Cutoff(higher, peak);
    assert ApplyThreshold(env, frames, higher).value == Select(frames, Above(s, high, 0));
    if peak >= 0.0 {
      CutoffMonotone(lower, higher, peak);
      AboveShrinks(s, low, high, 0);
      SelectedShrinks(frames, s, low, high);
      assert ApplyThreshold(env, frames, lower).value == Select(frames, Above(s, low, 0));
    } else {
      CutoffOverNegativePeak(higher, peak);
      NoneAboveMax(s, high, 0);
    }
  }

  /** Proof step (arithmetic only): up to 1.0, the cut-off of a negative peak is at or above it. */
  lemma CutoffOverNegativePeak(threshold: real, peak: real)
    requires threshold <= 1.0 && peak < 0.0
    ensures Cutoff(threshold, peak) >= peak
  {
    var slack, depth := 1.0 - threshold, -peak;
    assert slack * depth >= 0.0;
    assert threshold * peak == peak + slack * depth;
  }
}
