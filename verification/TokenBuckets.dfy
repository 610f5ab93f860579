/** The token bucket of src/ratelimit.rs over real numbers, and what a whole run of calls to it
    promises. */
module TokenBuckets {
  function Max(a: real, b: real): real {
    if a < b then b else a
  }

  /** The immutable half of a bucket and the moment it was made. */
  datatype Bucket = Bucket(rate: real, capacity: real, start: real) {
    ghost predicate Valid() {
      capacity == Max(rate, 1.0)
    }
  }

  /** The half behind the mutex. */
  datatype Level = Level(tokens: real, lastRefill: real)

  function Min(a: real, b: real): real {
    if a < b then a else b
  }

  /** What `seconds` of refilling are worth. */
  function Gain(b: Bucket, from: real, to: real): real {
    (to - from) * b.rate
  }

  function Refilled(b: Bucket, l: Level, now: real): real {
    Min(l.tokens + Gain(b, l.lastRefill, now), b.capacity)
  }

  function Next(b: Bucket, l: Level, now: real, accept: bool): Level {
    Level(if accept then Refilled(b, l, now) - 1.0 else Refilled(b, l, now), now)
  }

  // ---------------------------------------------------------------------------------------------
  // Runs: calls at the times `ts`, answered by the decisions `d`

  ghost predicate Timed(b: Bucket, ts: seq<real>) {
    && (forall k :: 0 <= k < |ts| ==> b.start <= ts[k])
    && (forall i, k :: 0 <= i <= k < |ts| ==> ts[i] <= ts[k])
  }

  ghost predicate IsRun(b: Bucket, ts: seq<real>, d: seq<bool>) {
    b.Valid() && Timed(b, ts) && |d| == |ts|
  }

  /** A run of a bucket that does not drain by itself: the configuration gives no negative rates. */
  ghost predicate IsFillingRun(b: Bucket, ts: seq<real>, d: seq<bool>) {
    IsRun(b, ts, d) && b.rate >= 0.0
  }

  /** The level after the first `k` calls; a new bucket is full. */
  function After(b: Bucket, ts: seq<real>, d: seq<bool>, k: nat): Level
    requires k <= |ts| == |d|
  {
    if k == 0 then Level(b.capacity, b.start) else Next(b, After(b, ts, d, k - 1), ts[k - 1], d[k - 1])
  }

  /** The tokens call `k` finds. */
  function Available(b: Bucket, ts: seq<real>, d: seq<bool>, k: nat): real
    requires k < |ts| == |d|
  {
    Refilled(b, After(b, ts, d, k), ts[k])
  }

  /** How many of the calls from `i` up to but excluding `k` were accepted. */
  function Accepted(d: seq<bool>, i: nat, k: nat): nat
    requires i <= k <= |d|
    decreases k
  {
    if i == k then 0 else Accepted(d, i, k - 1) + (if d[k - 1] then 1 else 0)
  }

  /** The decisions `try_acquire` makes. */
  ghost predicate Greedy(b: Bucket, ts: seq<real>, d: seq<bool>)
    requires |d| == |ts|
  {
    forall k :: 0 <= k < |ts| ==> (d[k] <==> b.rate == 0.0 || Available(b, ts, d, k) >= 1.0)
  }

  /** Any policy that draws from such a bucket: it may refuse at will, but never overdraws. */
  ghost predicate Draws(b: Bucket, ts: seq<real>, d: seq<bool>)
    requires |d| == |ts|
  {
    forall k :: 0 <= k < |ts| && d[k] ==> Available(b, ts, d, k) >= 1.0
  }

  lemma RefilledIs(b: Bucket, l: Level, now: real, elapsed: real)
    requires elapsed == now - l.lastRefill
    ensures Refilled(b, l, now) == Min(l.tokens + elapsed * b.rate, b.capacity)
  {
  }

  /** Earlier levels do not depend on later calls. */
  lemma {:induction false} AfterPrefix(b: Bucket, ts: seq<real>, d: seq<bool>, t: real, x: bool, k: nat)
    requires k <= |ts| == |d|
    ensures After(b, ts + [t], d + [x], k) == After(b, ts, d, k)
  {
    if k == 0 {
    } else {
      AfterPrefix(b, ts, d, t, x, k - 1);
    }
  }

  lemma GreedyExtends(b: Bucket, ts: seq<real>, d: seq<bool>, t: real, x: bool)
    requires IsRun(b, ts, d) && Greedy(b, ts, d) && b.start <= t
    requires ts != [] ==> ts[|ts| - 1] <= t
    requires x <==> b.rate == 0.0 || Refilled(b, After(b, ts, d, |ts|), t) >= 1.0
    ensures IsRun(b, ts + [t], d + [x]) && Greedy(b, ts + [t], d + [x])
    ensures After(b, ts + [t], d + [x], |ts| + 1) == Next(b, After(b, ts, d, |ts|), t, x)
  {
    hide Gain;
    var ts', d' := ts + [t], d + [x];
    assert Timed(b, ts') by {
      forall i, k | 0 <= i <= k < |ts'| ensures ts'[i] <= ts'[k] {
        if i < |ts| { assert ts[i] <= ts[|ts| - 1]; }
      }
    }
    AfterPrefix(b, ts, d, t, x, |ts|);
    forall k | 0 <= k <= |ts| ensures d'[k] <==> b.rate == 0.0 || Available(b, ts', d', k) >= 1.0 {
      AfterPrefix(b, ts, d, t, x, k);
      hide After;
      if k < |ts| { assert Available(b, ts', d', k) == Available(b, ts, d, k); }
    }
  }

  /** `TokenBucket`. `calls` and `answers` record its whole history, so that what is proved of runs
      below holds of the object at every moment. */
  class TokenBucket {
    var tokens: real
    var lastRefill: real
    const rate: real
    const capacity: real
    ghost const start: real
    ghost var calls: seq<real>
    ghost var answers: seq<bool>

    ghost predicate Valid()
      reads this
    {
      var b := Bucket(rate, capacity, start);
      && |calls| == |answers|
      && IsRun(b, calls, answers)
      && Greedy(b, calls, answers)
      && start <= lastRefill
      && (calls != [] && rate != 0.0 ==> calls[|calls| - 1] == lastRefill)
      && (rate != 0.0 ==> Current() == After(b, calls, answers, |calls|))
    }

    function Current(): Level
      reads this
    {
      Level(tokens, lastRefill)
    }

    constructor (rate: real, now: real)
      ensures Valid() && calls == [] && start == now
      ensures this.rate == rate && capacity == if rate < 1.0 then 1.0 else rate
      ensures Current() == Level(capacity, now)
    {
      this.rate := rate;
      capacity := Max(rate, 1.0);
      tokens := Max(rate, 1.0);
      lastRefill := now;
      start := now;
      calls, answers := [], [];
    }

    /** `try_acquire`; the clock it reads never runs backwards. */
    method TryAcquire(now: real) returns (ok: bool)
      requires Valid() && now >= lastRefill && (calls != [] ==> now >= calls[|calls| - 1])
      modifies this
      ensures Valid()
      ensures calls == old(calls) + [now] && answers == old(answers) + [ok]
      ensures
        var b := Bucket(rate, capacity, start);
        if rate == 0.0 then ok && Current() == old(Current())
        else ok == (Refilled(b, old(Current()), now) >= 1.0) && Current() == Next(b, old(Current()), now, ok)
    {
      hide IsRun;
      hide Greedy;
      hide After;
      hide Gain;
      ghost var b := Bucket(rate, capacity, start);
      ghost var before := Current();
      assert rate != 0.0 ==> before == After(b, calls, answers, |calls|);
      if rate == 0.0 {
        ok := true;
      } else {
        var elapsed := now - lastRefill;
        RefilledIs(b, before, now, elapsed);
        tokens := Min(tokens + elapsed * rate, capacity);
        lastRefill := now;
        assert tokens == Refilled(b, before, now);
        if tokens >= 1.0 {
          tokens := tokens - 1.0;
          ok := true;
        } else {
          ok := false;
        }
        assert Refilled(b, After(b, calls, answers, |calls|), now) == Refilled(b, before, now);
      }
      GreedyExtends(b, calls, answers, now, ok);
      calls, answers := calls + [now], answers + [ok];
    }
  }

  // ---------------------------------------------------------------------------------------------
  // Windows

  /** What is left at call `k` of a bucket that was full at call `i`, capping aside. */
  function Budget(b: Bucket, ts: seq<real>, d: seq<bool>, i: nat, k: nat): real
    requires i <= k < |ts| == |d|
  {
    b.capacity + Gain(b, ts[i], ts[k]) - Accepted(d, i, k) as real
  }

  lemma GainSplit(b: Bucket, x: real, y: real, z: real)
    ensures Gain(b, x, z) == Gain(b, x, y) + Gain(b, y, z)
    ensures b.rate >= 0.0 && x <= y ==> Gain(b, x, y) >= 0.0
  {
  }

  lemma BudgetStep(b: Bucket, ts: seq<real>, d: seq<bool>, i: nat, k: nat)
    requires i < k < |ts| == |d|
    ensures Budget(b, ts, d, i, k)
         == Budget(b, ts, d, i, k - 1) - (if d[k - 1] then 1.0 else 0.0) + Gain(b, ts[k - 1], ts[k])
  {
    GainSplit(b, ts[i], ts[k - 1], ts[k]);
  }

  /** The tokens a call finds are the least of the budgets of the windows that end there. */
  lemma {:induction false} AvailableIsLeastBudget(b: Bucket, ts: seq<real>, d: seq<bool>, k: nat) returns (i: nat)
    requires IsFillingRun(b, ts, d) && k < |ts|
    ensures forall j :: 0 <= j <= k ==> Available(b, ts, d, k) <= Budget(b, ts, d, j, k)
    ensures i <= k && Available(b, ts, d, k) == Budget(b, ts, d, i, k) && Available(b, ts, d, i) == b.capacity
  {
    hide Gain;
    GainSplit(b, ts[k], ts[k], ts[k]);
    if k == 0 {
      GainSplit(b, b.start, ts[0], ts[0]);
      i := 0;
    } else {
      i := AvailableIsLeastBudget(b, ts, d, k - 1);
      var spent := if d[k - 1] then 1.0 else 0.0;
      assert After(b, ts, d, k) == Next(b, After(b, ts, d, k - 1), ts[k - 1], d[k - 1]);
      assert Available(b, ts, d, k)
          == Min(Available(b, ts, d, k - 1) - spent + Gain(b, ts[k - 1], ts[k]), b.capacity);
      forall j | 0 <= j <= k ensures Available(b, ts, d, k) <= Budget(b, ts, d, j, k) {
        if j < k { BudgetStep(b, ts, d, j, k); }
      }
      if Available(b, ts, d, k) == b.capacity {
        i := k;
      } else {
        BudgetStep(b, ts, d, i, k);
      }
    }
  }

  /** One more call at `k` fits every window that ends there. */
  ghost predicate Fits(b: Bucket, ts: seq<real>, d: seq<bool>, k: nat)
    requires k < |ts| == |d|
  {
    forall i :: 0 <= i <= k ==> Accepted(d, i, k) as real + 1.0 <= b.capacity + Gain(b, ts[i], ts[k])
  }

  lemma TokenIffFits(b: Bucket, ts: seq<real>, d: seq<bool>, k: nat)
    requires IsFillingRun(b, ts, d) && k < |ts|
    ensures Available(b, ts, d, k) >= 1.0 <==> Fits(b, ts, d, k)
  {
    hide Gain;
    hide Available;
    hide Accepted;
    var m := AvailableIsLeastBudget(b, ts, d, k);
    if Fits(b, ts, d, k) {
      assert Budget(b, ts, d, m, k) >= 1.0;
    }
    if Available(b, ts, d, k) >= 1.0 {
      forall i | 0 <= i <= k
        ensures Accepted(d, i, k) as real + 1.0 <= b.capacity + Gain(b, ts[i], ts[k])
      {
        assert Available(b, ts, d, k) <= Budget(b, ts, d, i, k);
      }
    }
  }

  /** Every accepted call fits: no window holds more than `capacity + rate * elapsed` calls. */
  ghost predicate WithinWindows(b: Bucket, ts: seq<real>, d: seq<bool>)
    requires |d| == |ts|
  {
    forall i, k :: 0 <= i <= k < |ts| ==> Accepted(d, i, k + 1) as real <= b.capacity + Gain(b, ts[i], ts[k])
  }

  lemma {:induction false} WindowBound(b: Bucket, ts: seq<real>, d: seq<bool>, i: nat, k: nat)
    requires IsFillingRun(b, ts, d) && Draws(b, ts, d) && i <= k < |ts|
    ensures Accepted(d, i, k + 1) as real <= b.capacity + Gain(b, ts[i], ts[k])
    decreases k
  {
    hide Gain;
    GainSplit(b, ts[i], ts[k], ts[k]);
    assert Accepted(d, i, k + 1) == Accepted(d, i, k) + if d[k] then 1 else 0;
    if d[k] {
      TokenIffFits(b, ts, d, k);
    } else if i < k {
      WindowBound(b, ts, d, i, k - 1);
      GainSplit(b, ts[i], ts[k - 1], ts[k]);
      GainSplit(b, ts[k - 1], ts[k], ts[k]);
    }
  }

  /** The window bound, and its converse: drawing from a bucket and keeping to its windows allow the
      same schedules. */
  lemma DrawsIffWithinWindows(b: Bucket, ts: seq<real>, d: seq<bool>)
    requires IsFillingRun(b, ts, d)
    ensures Draws(b, ts, d) <==> WithinWindows(b, ts, d)
  {
    if Draws(b, ts, d) {
      forall i, k | 0 <= i <= k < |ts| ensures Accepted(d, i, k + 1) as real <= b.capacity + Gain(b, ts[i], ts[k]) {
        WindowBound(b, ts, d, i, k);
      }
    }
    if WithinWindows(b, ts, d) {
      forall k | 0 <= k < |ts| && d[k] ensures Available(b, ts, d, k) >= 1.0 {
        forall i | 0 <= i <= k
          ensures Accepted(d, i, k) as real + 1.0 <= b.capacity + Gain(b, ts[i], ts[k])
        {
          assert Accepted(d, i, k + 1) == Accepted(d, i, k) + 1;
        }
        TokenIffFits(b, ts, d, k);
      }
    }
  }

  /** When `try_acquire` says yes, in closed form: exactly when one more call fits every window
      ending now. */
  lemma AcceptsIffFits(b: Bucket, ts: seq<real>, d: seq<bool>, k: nat)
    requires IsFillingRun(b, ts, d) && Greedy(b, ts, d) && k < |ts|
    ensures d[k] <==> b.rate == 0.0 || Fits(b, ts, d, k)
  {
    TokenIffFits(b, ts, d, k);
  }

  /** A refusal names an earlier call that found the bucket full, and since which more than
      `capacity - 1 + rate * elapsed` calls were accepted. */
  lemma {:induction false} RefusalHasAWindow(b: Bucket, ts: seq<real>, d: seq<bool>, k: nat) returns (i: nat)
    requires IsFillingRun(b, ts, d) && Greedy(b, ts, d) && k < |ts| && !d[k]
    ensures i <= k && Available(b, ts, d, i) == b.capacity
    ensures Accepted(d, i, k) as real > b.capacity - 1.0 + Gain(b, ts[i], ts[k])
  {
    i := AvailableIsLeastBudget(b, ts, d, k);
  }

  // ---------------------------------------------------------------------------------------------
  // Optimality

  /** Tokens in hand plus calls accepted: `try_acquire` is never behind another policy on either. */
  lemma {:induction false} NeverBehind(b: Bucket, ts: seq<real>, g: seq<bool>, d: seq<bool>, k: nat)
    requires IsFillingRun(b, ts, g) && IsFillingRun(b, ts, d) && Greedy(b, ts, g) && Draws(b, ts, d) && k <= |ts|
    requires b.rate > 0.0
    ensures Accepted(d, 0, k) <= Accepted(g, 0, k)
    ensures After(b, ts, d, k).tokens + Accepted(d, 0, k) as real
         <= After(b, ts, g, k).tokens + Accepted(g, 0, k) as real
    ensures After(b, ts, d, k).lastRefill == After(b, ts, g, k).lastRefill
  {
    hide Gain;
    if k == 0 {
    } else {
      NeverBehind(b, ts, g, d, k - 1);
      var refilledD, refilledG := Available(b, ts, d, k - 1), Available(b, ts, g, k - 1);
      assert refilledD + Accepted(d, 0, k - 1) as real <= refilledG + Accepted(g, 0, k - 1) as real;
      assert After(b, ts, d, k).tokens == refilledD - if d[k - 1] then 1.0 else 0.0;
      assert After(b, ts, g, k).tokens == refilledG - if g[k - 1] then 1.0 else 0.0;
      hide After;
    }
  }

  lemma AtMostAll(d: seq<bool>, k: nat)
    requires k <= |d|
    ensures Accepted(d, 0, k) <= k
  {
  }

  /** Rate zero means no limit at all. */
  lemma UnlimitedAcceptsAll(b: Bucket, ts: seq<real>, g: seq<bool>, k: nat)
    requires k <= |ts| == |g| && Greedy(b, ts, g) && b.rate == 0.0
    ensures Accepted(g, 0, k) == k
  {
  }

  /** At every point of every run the greedy bucket has accepted at least as many calls as any
      schedule that keeps to its windows. */
  lemma GreedyIsOptimal(b: Bucket, ts: seq<real>, g: seq<bool>, d: seq<bool>)
    requires IsFillingRun(b, ts, g) && IsFillingRun(b, ts, d) && Greedy(b, ts, g) && WithinWindows(b, ts, d)
    ensures b.rate > 0.0 ==> WithinWindows(b, ts, g)
    ensures forall k :: 0 <= k <= |ts| ==> Accepted(d, 0, k) <= Accepted(g, 0, k)
  {
    DrawsIffWithinWindows(b, ts, g);
    DrawsIffWithinWindows(b, ts, d);
    forall k | 0 <= k <= |ts| ensures Accepted(d, 0, k) <= Accepted(g, 0, k) {
      if b.rate > 0.0 {
        NeverBehind(b, ts, g, d, k);
      } else {
        AtMostAll(d, k);
        UnlimitedAcceptsAll(b, ts, g, k);
      }
    }
  }
}
