/** The order of `handle_rpc` in src/http.rs: authenticate, draw a token, parse, serve. */
module HttpGate {
  import opened Wrappers
  import opened TokenBuckets
  import opened Text

  datatype Status = OK | BadRequest | Unauthorized | TooManyRequests

  /** `presented` is the Authorization header, empty when absent; `parses` says whether the body is a
      JSON-RPC request; `time` is when the request is handled. */
  datatype Request = Request(presented: string, parses: bool, time: real)

  /** `auth_token` and `rate_limiter` of the configuration. */
  datatype Config = Config(authToken: Option<string>, limit: Option<Bucket>)

  /** `token_matches`. */
  predicate TokenMatches(presented: string, expected: string) {
    var p := Trim(presented);
    var token := if |p| >= 7 && p[..7] == "Bearer " then p[7..] else p;
    Trim(token) == expected
  }

  predicate Authorized(c: Config, r: Request) {
    c.authToken.None? || TokenMatches(r.presented, c.authToken.value)
  }

  function Serve(c: Config, l: Level, r: Request): (Status, Level) {
    var served := if r.parses then OK else BadRequest;
    if !Authorized(c, r) then (Unauthorized, l)
    else if c.limit.None? || c.limit.value.rate == 0.0 then (served, l)
    else if Refilled(c.limit.value, l, r.time) >= 1.0 then (served, Next(c.limit.value, l, r.time, true))
    else (TooManyRequests, Next(c.limit.value, l, r.time, false))
  }

  /** The handler's shared state. */
  class HttpState {
    const authToken: Option<string>
    const limiter: TokenBucket?

    constructor (authToken: Option<string>, limiter: TokenBucket?)
      ensures this.authToken == authToken && this.limiter == limiter
    {
      this.authToken, this.limiter := authToken, limiter;
    }

    ghost function Limits(): Config {
      Config(authToken, if limiter == null then None else Some(Bucket(limiter.rate, limiter.capacity, limiter.start)))
    }

    /** A bucket that nobody draws from stays as it is. */
    function Level(): Level
      reads limiter
    {
      if limiter == null then TokenBuckets.Level(0.0, 0.0) else limiter.Current()
    }

    method HandleRpc(r: Request) returns (status: Status)
      requires limiter != null ==> limiter.Valid() && r.time >= limiter.lastRefill
      requires limiter != null && limiter.calls != [] ==> r.time >= limiter.calls[|limiter.calls| - 1]
      modifies limiter
      ensures limiter != null ==> limiter.Valid()
      ensures (status, Level()) == Serve(Limits(), old(Level()), r)
    {
      if authToken.Some? {
        if !TokenMatches(r.presented, authToken.value) {
          return Unauthorized;
        }
      }
      if limiter != null {
        var ok := limiter.TryAcquire(r.time);
        if !ok {
          return TooManyRequests;
        }
      }
      if !r.parses {
        return BadRequest;
      }
      return OK;
    }
  }

  // ---------------------------------------------------------------------------------------------
  // Traces

  function Statuses(c: Config, l: Level, rs: seq<Request>): seq<Status>
    decreases |rs|
  {
    if rs == [] then []
    else var (s, l') := Serve(c, l, rs[0]); [s] + Statuses(c, l', rs[1..])
  }

  function Keep<T>(xs: seq<T>, keep: seq<bool>): seq<T>
    requires |xs| == |keep|
  {
    if xs == [] then [] else (if keep[0] then [xs[0]] else []) + Keep(xs[1..], keep[1..])
  }

  ghost predicate Ordered(from: real, rs: seq<Request>) {
    && (forall k :: 0 <= k < |rs| ==> from <= rs[k].time)
    && (forall i, k :: 0 <= i <= k < |rs| ==> rs[i].time <= rs[k].time)
  }

  /** Two levels that are worth the same at time `t`. */
  ghost predicate Alike(b: Bucket, l: Level, m: Level, t: real) {
    l.lastRefill <= t && m.lastRefill <= t && Refilled(b, l, t) == Refilled(b, m, t)
  }

  /** Refilling in two stages is refilling at once, so levels worth the same stay so. */
  lemma AlikeLater(b: Bucket, l: Level, m: Level, t: real, u: real)
    requires b.rate >= 0.0 && t <= u && Alike(b, l, m, t)
    ensures Alike(b, l, m, u)
  {
    hide Gain;
    forall x: Level | x.lastRefill <= t
      ensures Refilled(b, x, u) == Min(Refilled(b, x, t) + Gain(b, t, u), b.capacity)
    {
      GainSplit(b, x.lastRefill, t, u);
      GainSplit(b, t, u, u);
    }
  }

  /** A refused call leaves a level as good as the one it found. */
  lemma RefusalIsInvisible(b: Bucket, l: Level, t: real)
    requires l.lastRefill <= t
    ensures Alike(b, Next(b, l, t, false), l, t)
  {
  }

  ghost predicate AlikeFor(c: Config, l: Level, m: Level, t: real) {
    c.limit.Some? ==> c.limit.value.Valid() && c.limit.value.rate >= 0.0 && Alike(c.limit.value, l, m, t)
  }

  /** Alike levels give the same answer and stay alike; after a request turned away, so do the level
      that saw it and the one that did not. */
  lemma OneRequest(c: Config, l: Level, m: Level, from: real, r: Request)
    requires AlikeFor(c, l, m, from) && from <= r.time
    ensures
      var (s, l') := Serve(c, l, r);
      var later := if s == Unauthorized then from else r.time;
      && Serve(c, m, r).0 == s
      && AlikeFor(c, l', Serve(c, m, r).1, later)
      && (s in {Unauthorized, TooManyRequests} ==> AlikeFor(c, l', m, later))
  {
    hide Authorized;
    hide Gain;
    if c.limit.Some? {
      AlikeLater(c.limit.value, l, m, from, r.time);
      RefusalIsInvisible(c.limit.value, l, r.time);
      GainSplit(c.limit.value, r.time, r.time, r.time);
    }
  }

  /** Non-interference: requests turned away, be it unauthorized or over the limit, can be deleted
      from any trace, in any combination, without changing how any other request is answered. */
  lemma {:induction false} TurnedAwayDoNotInterfere(c: Config, l: Level, m: Level, from: real,
                                                    rs: seq<Request>, keep: seq<bool>)
    requires Ordered(from, rs) && |keep| == |rs| == |Statuses(c, l, rs)|
    requires AlikeFor(c, l, m, from)
    requires forall k :: 0 <= k < |rs| && !keep[k] ==> Statuses(c, l, rs)[k] in {Unauthorized, TooManyRequests}
    ensures Statuses(c, m, Keep(rs, keep)) == Keep(Statuses(c, l, rs), keep)
    decreases |rs|
  {
    if rs == [] {
    } else {
      hide Serve;
      hide AlikeFor;
      var r := rs[0];
      var (s, l') := Serve(c, l, r);
      OneRequest(c, l, m, from, r);
      var ss, tail := Statuses(c, l, rs), Statuses(c, l', rs[1..]);
      assert ss == [s] + tail;
      forall k | 0 <= k < |rs[1..]| && !keep[1..][k] ensures tail[k] in {Unauthorized, TooManyRequests} {
        assert ss[k + 1] == tail[k];
      }
      var m' := if keep[0] then Serve(c, m, r).1 else m;
      assert keep[0] || ss[0] in {Unauthorized, TooManyRequests};
      TurnedAwayDoNotInterfere(c, l', m', if s == Unauthorized then from else r.time, rs[1..], keep[1..]);
      assert ss[1..] == tail;
      var kept := Keep(rs[1..], keep[1..]);
      if keep[0] {
        assert Keep(rs, keep) == [r] + kept && ([r] + kept)[1..] == kept;
        assert Statuses(c, m, [r] + kept) == [s] + Statuses(c, m', kept);
      } else {
        assert Keep(rs, keep) == kept;
      }
    }
  }

  /** In particular for a trace and its own starting level. */
  lemma {:induction false} DeletingTurnedAway(c: Config, l: Level, rs: seq<Request>, keep: seq<bool>)
    requires Ordered(l.lastRefill, rs) && |keep| == |rs| == |Statuses(c, l, rs)|
    requires c.limit.Some? ==> c.limit.value.Valid() && c.limit.value.rate >= 0.0
    requires forall k :: 0 <= k < |rs| && !keep[k] ==> Statuses(c, l, rs)[k] in {Unauthorized, TooManyRequests}
    ensures Statuses(c, l, Keep(rs, keep)) == Keep(Statuses(c, l, rs), keep)
  {
    TurnedAwayDoNotInterfere(c, l, l, l.lastRefill, rs, keep);
  }
}
