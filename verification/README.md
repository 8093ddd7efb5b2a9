# devolver — a verified model of the cut-point pipeline

devolver splits a video at the transients of its soundtrack, shuffles the
clips and renders them into a new video. Its only logic is in three places
in `devolver.py`. This project models those three places in Dafny and proves
what they promise:

- **the threshold mask** (`onset_env[onset_frames]` and
  `onset_frames[onset_env_thresh > threshold * onset_env_thresh.max()]`):
  module `Threshold`, pure functions over `seq<nat>` frames and `seq<real>`
  strengths;
- **the clip loop** of `split_video_on_transients`, which starts from
  `clips = []` and appends one `(start, end)` interval per onset time:
  module `Segments`. `BuildClips` is a method with the same loop, proved
  against the function `Clips`;
- **the shuffle** `random.sample(clips, len(clips))`: module `Rearrange`.
  `RearrangeClips` is a method that draws the clips one at a time, without
  replacement, from a pool. Each draw is a nondeterministic choice (`:|`), so
  the proofs hold for every possible outcome of the random source;
- **the range check** on `--threshold`: module `Cli`;
- **the composition**: module `Devolver`. It holds `frames_to_time`,
  `split_video_on_transients`, `main` up to rendering, and the checked entry
  point at the bottom of the script.

Decoding and onset detection are external. Their outputs are inputs here:
- the onset-strength envelope, as `seq<real>`;
- the candidate frames, as `seq<nat>`;
- the frame-to-time map, as a function `nat -> real`;
- the video's duration, as a `real`.

A clip is only its bounds: `Clip(start, end)`.

Strengths and thresholds are `real`. The mask is a single comparison of a
strength against `threshold * max`, so exact arithmetic gives the intended
meaning. The rounding of that one float product is not modelled.

### Where the code differs from the obvious reading

The model follows the code in three places where one might expect otherwise:

- The first clip starts at the first retained onset, not at 0. The stretch
  `[0, t0)` belongs to no clip. `TotalLengthTelescopes` shows the clips last
  `duration - t0` in total. `CoveredIff` shows that a time belongs to a clip
  exactly when it lies in `[t0, duration)`.
- When no onset survives the mask, the clip list is empty. The code never
  returns one clip spanning the whole video.
- At threshold 1.0 nothing survives, because the test is a strict `>`
  against the maximum. So threshold 1.0 also gives an empty clip list
  (`NothingRetainedAtOne`, `NoClipsAtThresholdOne`).

"Lower values result in more splits" (`devolver.py:85-86`) holds for every
envelope, for thresholds up to 1.0, which is as far as the range check at
`devolver.py:194-195` lets them go. When the peak strength is non-negative, a
lower threshold gives a lower cut-off. When the peak is negative, a threshold
of at most 1.0 puts the cut-off at or above the peak, so nothing survives at
the higher threshold. The monotonicity lemmas take `lower <= higher <= 1.0`
as their precondition.

## Model

| member | source | states |
|---|---|---|
| `Threshold.Max` | devolver.py:105 | `onset_env_thresh.max()`: defined only for a non-empty array; the result is one of the strengths and no strength exceeds it |
| `Threshold.StrengthsAt` | devolver.py:104 | `onset_env[onset_frames]`: one strength per candidate, namely the envelope's value at that candidate's frame |
| `Threshold.Above` | devolver.py:105 | the true positions of the mask `strength > cutoff`: strictly ascending, all in range, each strictly above the cut-off, and every position above the cut-off is among them |
| `Threshold.Cutoff` | devolver.py:105 | `threshold * onset_env_thresh.max()`: at threshold 1.0 it equals the peak; below 1.0 it is under a positive peak; for a threshold in [0.0, 1.0] and a non-negative peak it lies between 0 and the peak |
| `Threshold.Survivors` | devolver.py:105 | the true positions of the mask: strictly ascending candidate positions, and position i is among them exactly when the strength at candidate i is strictly above `threshold * max(strengths)` |
| `Threshold.Select` | devolver.py:105 | boolean-mask indexing: the result has one element per selected position, each the candidate frame at that position |
| `Threshold.ApplyThreshold` | devolver.py:104-105 | fails exactly when there is no candidate (the maximum of an empty array is undefined); otherwise it keeps no more frames than there are candidates, and every kept frame is a candidate |
| `Threshold.RetainedIsSubsequence` | devolver.py:105 | the retained frames are an order-preserving subsequence of the candidates |
| `Threshold.SelectedIff` | devolver.py:105 | with strictly ascending candidates (as onset peak picking yields), the mask keeps the frame at position i if and only if its strength is strictly above the cut-off |
| `Threshold.RetainedIff` | devolver.py:104-105 | in any candidate order, a candidate is retained if and only if its strength is strictly greater than `threshold * max(strengths)`; every dropped candidate is at or below that cut-off |
| `Threshold.RetainedAscending` | devolver.py:105 | ascending candidate frames give ascending retained frames (the mask keeps order) |
| `Threshold.NothingRetainedAtOne` | devolver.py:105 | at threshold 1.0 no candidate is retained, because no strength is strictly above the maximum |
| `Threshold.SomethingRetainedBelowOne` | devolver.py:105 | below threshold 1.0, if the peak strength is positive, the strongest candidate survives, so at least one frame is retained |
| `Threshold.AboveShrinks` | devolver.py:105 | a higher cut-off selects no more positions than a lower one |
| `Threshold.SelectedShrinks` | devolver.py:105 | every frame kept at a higher cut-off is also kept at a lower one |
| `Threshold.LowerThresholdRetainsMore` | devolver.py:104-105 | for thresholds up to 1.0 and any envelope, lowering the threshold keeps every frame kept before, and at least as many frames |
| `Segments.Clips` | devolver.py:110-117 | one clip per onset time and none without one; clip i starts at onset i; each clip ends where the next begins; the last clip ends at the video's duration |
| `Segments.BuildClips` | devolver.py:110-116 | the loop that appends to an initially empty list returns exactly `Clips(onsetTimes, duration)` |
| `Segments.ClipsTail` | devolver.py:111-113 | the clips after the first are the clips cut at the remaining onsets |
| `Segments.ClipsNonEmptyAndDisjoint` | devolver.py:111-115 | with strictly ascending onsets, all before the end of the video, every clip has start < end and no two clips overlap |
| `Segments.TotalLengthTelescopes` | devolver.py:111-115 | the clip lengths sum to `duration - t0`, where t0 is the first onset, so the stretch before t0 is dropped |
| `Segments.ClipContaining` | devolver.py:112-113 | every time in `[t0, duration)` lies inside some clip |
| `Segments.CoveredIff` | devolver.py:112-113 | with ascending onsets before the end, a time lies in some clip if and only if it lies in `[t0, duration)` |
| `Rearrange.RearrangeClips` | devolver.py:132 | whatever the draws, the result has the same length and the same multiset of clips as the input, and the input is a value that is left as it was |
| `Rearrange.TotalLengthWithout` | devolver.py:132 | taking one clip out of a list takes exactly its length out of the total |
| `Rearrange.MultisetWithout` | devolver.py:132 | taking one clip out of a list takes exactly one copy of it out of the list's multiset |
| `Rearrange.RearrangedTotalLength` | devolver.py:132 | two arrangements of the same clips last equally long, so shuffling preserves the output's total duration |
| `Cli.ValidateThreshold` | devolver.py:194-195 | a threshold is accepted if and only if `0.0 <= t <= 1.0`; it passes through unchanged, and a rejection reports an out-of-range threshold |
| `Devolver.OnsetTimes` | devolver.py:107 | `frames_to_time`: one time per retained frame, in order, each the time of its frame |
| `Devolver.Split` | devolver.py:104-117 | what `split_video_on_transients` returns: fails exactly when there is no candidate; otherwise one clip per retained frame, clip k starting at the time of the k-th retained frame, each ending where the next starts and the last at the duration |
| `Devolver.SplitVideoOnTransients` | devolver.py:104-117 | equals the mask, then frame-to-time, then the clip loop; fails exactly when there is no candidate; otherwise gives as many clips as retained onsets |
| `Devolver.NoClipsAtThresholdOne` | devolver.py:104-117 | at threshold 1.0, with at least one candidate, the clip list is empty |
| `Devolver.LowerThresholdMoreClips` | devolver.py:85-86 | among thresholds up to 1.0, lower ones give at least as many clips ("Lower values result in more splits"), for any envelope |
| `Devolver.ClipsPartitionFromFirstOnset` | devolver.py:107-117 | given ascending candidates, an increasing frame-to-time map and all candidates before the end: the clips are non-empty and disjoint, cover exactly `[first onset, duration)`, and last `duration - first onset` in total |
| `Devolver.Devolve` | devolver.py:168-171 | `main` up to rendering: fails exactly when splitting fails; otherwise gives the split clips in some order (the same multiset) with the same total length |
| `Devolver.Run` | devolver.py:194-197 | an out-of-range threshold is rejected, whatever the video, before any processing; an accepted threshold runs `main` up to rendering (`Devolve`), which then fails only when there is no onset candidate |

## Left out

- Video loading, audio extraction at 44100 Hz and the stereo-to-mono
  average (`devolver.py:92-97`). These are media I/O and float array
  arithmetic in moviepy and numpy.
- `librosa.onset.onset_strength`, `librosa.onset.onset_detect` and
  `librosa.frames_to_time` (`devolver.py:100-101, 107`). These are foreign
  signal-processing calls. Their outputs are inputs to the model:
  - the envelope;
  - the candidate frames;
  - a frame-to-time map. Some lemmas require this map to be strictly
    increasing, and the candidate frames to be strictly ascending.
- The error that numpy's `max()` raises on an empty candidate array. It is
  modelled as the result `Err(EmptyCandidates)`, not as an exception.
- Floating-point behaviour. The following are not modelled:
  - the rounding of `threshold * max`;
  - NaN thresholds, which the range check at `devolver.py:194` rejects
    because every comparison with NaN is false;
  - NaN strengths.
- `video.subclip`, `concatenate_videoclips` and `write_videofile` with the
  libx264/AAC codecs (`devolver.py:114, 174, 177`). These are media
  encoding. A clip is only its `(start, end)` pair. What moviepy does with
  the following is not part of this model:
  - an empty clip list;
  - a clip whose bounds fall outside the video.
- `play_video` (`devolver.py:134-149`). It probes the filesystem and spawns
  a player process that it never waits for.
- The argparse wiring (`devolver.py:183-192`). Only the range predicate of
  `devolver.py:194-195` is kept.
- Rearrange.RearrangeClips: the uniformity of `random.sample`, and the
  CPython algorithm that draws the indices. Uniformity is a probabilistic
  property. The model leaves every draw open, so it proves only that the
  result is a permutation. It does not prove that every permutation is
  equally likely.
