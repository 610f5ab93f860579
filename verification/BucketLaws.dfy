/** What a token bucket promises in terms of its rate and the clock alone. */
module BucketLaws {
  import opened TokenBuckets

  lemma {:induction false} AtMostCalls(d: seq<bool>, i: nat, k: nat)
    requires i <= k <= |d|
    ensures Accepted(d, i, k) <= k - i
    decreases k
  {
    if i == k {
    } else {
      AtMostCalls(d, i, k - 1);
    }
  }

  /** A burst is admitted as far as the rate goes, however fast it comes, and the first call always is. */
  lemma BurstIsAccepted(b: Bucket, ts: seq<real>, d: seq<bool>, k: nat)
    requires IsFillingRun(b, ts, d) && Greedy(b, ts, d) && k < |ts|
    ensures k == 0 || k as real + 1.0 <= b.rate ==> d[k]
  {
    hide Gain;
    hide Accepted;
    hide Greedy;
    AcceptsIffFits(b, ts, d, k);
    if k == 0 || k as real + 1.0 <= b.rate {
      forall i | 0 <= i <= k
        ensures Accepted(d, i, k) as real + 1.0 <= b.capacity + Gain(b, ts[i], ts[k])
      {
        AtMostCalls(d, i, k);
        GainSplit(b, ts[i], ts[k], ts[k]);
      }
      assert Fits(b, ts, d, k);
    }
  }

  /** What a rate brings in some seconds. */
  function Earned(rate: real, seconds: real): real {
    rate * seconds
  }

  lemma GainIs(b: Bucket, x: real, y: real)
    ensures Gain(b, x, y) == Earned(b.rate, y - x)
  {
  }

  lemma GreedyDraws(b: Bucket, ts: seq<real>, d: seq<bool>)
    requires |d| == |ts|
    requires Greedy(b, ts, d) && b.rate > 0.0
    ensures Draws(b, ts, d)
  {
    hide Available;
  }

  lemma FillingRunIs(b: Bucket, ts: seq<real>, d: seq<bool>)
    requires IsFillingRun(b, ts, d)
    ensures |d| == |ts| && b.capacity == if b.rate < 1.0 then 1.0 else b.rate
  {
  }

  /** No window admits more calls than the larger of one and the rate, plus the rate times its length. */
  lemma WindowInNumbers(b: Bucket, ts: seq<real>, d: seq<bool>, i: nat, k: nat)
    requires IsFillingRun(b, ts, d) && Greedy(b, ts, d) && b.rate > 0.0 && i <= k < |ts|
    ensures Accepted(d, i, k + 1) as real <= (if b.rate < 1.0 then 1.0 else b.rate) + Earned(b.rate, ts[k] - ts[i])
  {
    hide *;
    FillingRunIs(b, ts, d);
    GreedyDraws(b, ts, d);
    WindowBound(b, ts, d, i, k);
    GainIs(b, ts[i], ts[k]);
  }

  lemma WindowAfterPause(b: Bucket, ts: seq<real>, d: seq<bool>, i: nat, k: nat)
    requires IsFillingRun(b, ts, d) && Draws(b, ts, d) && i <= k < |ts| && 0 < k && b.capacity >= 1.0
    requires Earned(b.rate, ts[k] - ts[k - 1]) >= 1.0
    ensures Accepted(d, i, k) as real + 1.0 <= b.capacity + Gain(b, ts[i], ts[k])
  {
    if i < k {
      hide *;
      GainIs(b, ts[k - 1], ts[k]);
      GainSplit(b, ts[i], ts[k - 1], ts[k]);
      WindowBound(b, ts, d, i, k - 1);
    } else {
      assert Accepted(d, k, k) == 0;
      GainSplit(b, ts[k], ts[k], ts[k]);
      hide *;
    }
  }

  /** A call that comes when the rate has brought a whole token since the last call is admitted. */
  lemma PausesAreRewarded(b: Bucket, ts: seq<real>, d: seq<bool>, k: nat)
    requires IsFillingRun(b, ts, d) && Greedy(b, ts, d) && 0 < k < |ts| && b.rate > 0.0
    requires Earned(b.rate, ts[k] - ts[k - 1]) >= 1.0
    ensures d[k]
  {
    GreedyDraws(b, ts, d);
    assert b.capacity >= 1.0;
    assert Fits(b, ts, d, k) by {
      forall i | 0 <= i <= k
        ensures Accepted(d, i, k) as real + 1.0 <= b.capacity + Gain(b, ts[i], ts[k])
      {
        hide *;
        WindowAfterPause(b, ts, d, i, k);
      }
    }
    hide *;
    AcceptsIffFits(b, ts, d, k);
  }
}
