/**
 * `rearrange_clips`: `random.sample(clips, len(clips))` draws every clip
 * once, without replacement, into a new list. Which clip is drawn at each
 * step is left open (the random source is not modelled); whatever the draws,
 * the result is a rearrangement of the input, and the input, a value here,
 * stays as it was.
 */
module Rearrange {
  import opened Segments

  /** A new list holding the clips in an arbitrary order. */
  method RearrangeClips(clips: seq<Clip>) returns (shuffled: seq<Clip>)
    ensures |shuffled| == |clips|
    ensures multiset(shuffled) == multiset(clips)
  {
    var pool := clips;
    shuffled := [];
    while |pool| > 0
      invariant |shuffled| + |pool| == |clips|
      invariant multiset(shuffled) + multiset(pool) == multiset(clips)
    {
      var k :| 0 <= k < |pool|;
      assert pool == pool[..k] + [pool[k]] + pool[k + 1..];
      shuffled := shuffled + [pool[k]];
      pool := pool[..k] + pool[k + 1..];
    }
  }

  /** Taking clip `k` out of a list takes its length out of the total. */
  lemma {:induction false} TotalLengthWithout(b: seq<Clip>, k: nat)
    requires k < |b|
    ensures TotalLength(b) == Length(b[k]) + TotalLength(b[..k] + b[k + 1..])
  {
    if k == 0 {
      assert b[..k] + b[k + 1..] == b[1..];
    } else {
      TotalLengthWithout(b[1..], k - 1);
      assert b[..k] + b[k + 1..] == [b[0]] + (b[1..][..k - 1] + b[1..][k..]);
    }
  }

  /** Taking element `k` out of a list takes one copy of it out of its multiset. */
  lemma MultisetWithout(b: seq<Clip>, k: nat)
    requires k < |b|
    ensures multiset(b[..k] + b[k + 1..]) == multiset(b) - multiset{b[k]}
  {
    assert b == b[..k] + [b[k]] + b[k + 1..];
  }

  /**
   * Rearranging changes the order of the clips, not what they contain: any
   * two arrangements of the same clips last equally long.
   */
  lemma {:induction false} RearrangedTotalLength(a: seq<Clip>, b: seq<Clip>)
    requires multiset(a) == multiset(b)
    ensures TotalLength(a) == TotalLength(b)
  {
    if a == [] {
      assert |b| == |multiset(b)| == 0;
    } else {
      assert a[0] in multiset(b);
      var k :| 0 <= k < |b| && b[k] == a[0];
      var restA, restB := a[..0] + a[1..], b[..k] + b[k + 1..];
      MultisetWithout(a, 0);
      MultisetWithout(b, k);
      RearrangedTotalLength(restA, restB);
      TotalLengthWithout(a, 0);
      TotalLengthWithout(b, k);
    }
  }
}
