/** The browser page pool of src/browser.rs as a state machine: any number of workers run
    `acquire_page`, use the page and give it back, interleaved at their awaits, while the
    environment crashes the browser, fails launches and tab openings, and cancels workers by
    dropping their futures. */
module PagePool {
  import opened Wrappers

  /** Where a worker stands. Its permit lives from `Queued` to `Closing`, the state lock during
      `Launching` and `Opening`; dropping the future or returning an error releases both. */
  datatype Phase =
    | Waiting    // awaiting a permit
    | Queued     // has its permit, awaiting the state lock
    | Launching  // has the lock, awaiting `Browser::launch`
    | Opening    // has the lock, awaiting `new_page`
    | Using      // holds a `PooledPage`
    | Closing    // inside `PooledPage::close`
    | Finished   // returned, failed or cancelled
  {
    predicate HoldsPermit() { this != Waiting && this != Finished }
    predicate HoldsLock() { Launching? || Opening? }
    predicate HasPage() { Using? || Closing? }
  }

  /** `PoolState`; a running browser is known by its CDP handler task. */
  datatype PoolState = NotStarted | Running(handler: nat)

  datatype Pool = Pool(
    maxPages: nat,
    free: nat,               // permits left in the semaphore
    lock: Option<nat>,       // the worker holding the state mutex
    browser: PoolState,
    live: set<nat>,          // handler tasks that have not exited
    launches: nat,           // successful launches so far; the next handler's name
    exits: nat,              // handler tasks that have exited so far
    workers: seq<Phase>)

  datatype Event =
    | TakePermit(w: nat)
    | TakeLock(w: nat)
    | LaunchOk(w: nat)
    | LaunchFail(w: nat)
    | OpenOk(w: nat)
    | OpenFail(w: nat)
    | BeginClose(w: nat)
    | EndClose(w: nat)
    | DropPage(w: nat)
    | Cancel(w: nat)
    | HandlerExit(h: nat)
  {
    /** Steps a worker takes by itself, as opposed to what befalls it. */
    predicate ByWorker() { !Cancel? && !HandlerExit? }
  }

  function Start(maxPages: nat, n: nat): Pool {
    Pool(maxPages, maxPages, None, NotStarted, {}, 0, 0, seq(n, k => Waiting))
  }

  // ---------------------------------------------------------------------------------------------
  // Steps

  function Move(s: Pool, w: nat, p: Phase): Pool
    requires w < |s.workers|
  {
    s.(workers := s.workers[w := p])
  }

  /** Drops whatever the worker holds: `OwnedSemaphorePermit` and the mutex guard. */
  function Release(s: Pool, w: nat): Pool
    requires w < |s.workers|
  {
    var p := s.workers[w];
    Move(s, w, Finished).(
      free := if p.HoldsPermit() then s.free + 1 else s.free,
      lock := if p.HoldsLock() then None else s.lock)
  }

  /** With the lock in hand: forget a browser whose handler has exited, then launch or reuse. There
      is no await between the check and the launch. */
  function Enter(s: Pool, w: nat): Pool
    requires w < |s.workers|
  {
    var browser := if s.browser.Running? && s.browser.handler !in s.live then NotStarted else s.browser;
    Move(s, w, if browser.NotStarted? then Launching else Opening).(lock := Some(w), browser := browser)
  }

  /** `do_launch` succeeds: the handler task is spawned and the browser recorded. */
  function Launched(s: Pool, w: nat): Pool
    requires w < |s.workers|
  {
    Move(s, w, Opening).(
      browser := Running(s.launches), live := s.live + {s.launches}, launches := s.launches + 1)
  }

  predicate At(s: Pool, w: nat, p: Phase) {
    w < |s.workers| && s.workers[w] == p
  }

  function Step(s: Pool, e: Event): Option<Pool> {
    match e
    case TakePermit(w) =>
      if At(s, w, Waiting) && s.free > 0 then Some(Move(s, w, Queued).(free := s.free - 1)) else None
    case TakeLock(w) => if At(s, w, Queued) && s.lock.None? then Some(Enter(s, w)) else None
    case LaunchOk(w) => if At(s, w, Launching) then Some(Launched(s, w)) else None
    case LaunchFail(w) => if At(s, w, Launching) then Some(Release(s, w)) else None
    case OpenOk(w) => if At(s, w, Opening) then Some(Move(s, w, Using).(lock := None)) else None
    case OpenFail(w) => if At(s, w, Opening) then Some(Release(s, w)) else None
    case BeginClose(w) => if At(s, w, Using) then Some(Move(s, w, Closing)) else None
    case EndClose(w) => if At(s, w, Closing) then Some(Release(s, w)) else None
    case DropPage(w) => if At(s, w, Using) then Some(Release(s, w)) else None
    case Cancel(w) => if w < |s.workers| && s.workers[w] != Finished then Some(Release(s, w)) else None
    case HandlerExit(h) => if h in s.live then Some(s.(live := s.live - {h}, exits := s.exits + 1)) else None
  }

  function Run(s: Pool, events: seq<Event>): Option<Pool>
    decreases |events|
  {
    if events == [] then Some(s)
    else match Step(s, events[0]) case None => None case Some(t) => Run(t, events[1..])
  }

  // ---------------------------------------------------------------------------------------------
  // Counting workers

  function Count(ws: seq<Phase>, has: Phase -> bool): nat {
    if ws == [] then 0 else (if has(ws[0]) then 1 else 0) + Count(ws[1..], has)
  }

  lemma {:induction false} CountUpdate(ws: seq<Phase>, w: nat, p: Phase, has: Phase -> bool)
    requires w < |ws|
    ensures Count(ws[w := p], has) + (if has(ws[w]) then 1 else 0) == Count(ws, has) + (if has(p) then 1 else 0)
  {
    if w > 0 {
      CountUpdate(ws[1..], w - 1, p, has);
      assert ws[w := p][1..] == ws[1..][w - 1 := p];
    } else {
      assert ws[w := p][1..] == ws[1..];
    }
  }

  lemma {:induction false} CountMonotone(ws: seq<Phase>, a: Phase -> bool, b: Phase -> bool)
    requires forall p :: a(p) ==> b(p)
    ensures Count(ws, a) <= Count(ws, b)
  {
    if ws == [] {
    } else {
      CountMonotone(ws[1..], a, b);
    }
  }

  lemma {:induction false} CountNone(ws: seq<Phase>, has: Phase -> bool)
    ensures Count(ws, has) == 0 <==> forall k :: 0 <= k < |ws| ==> !has(ws[k])
  {
    if ws == [] {
    } else {
      CountNone(ws[1..], has);
      forall k | 1 <= k < |ws| ensures ws[k] == ws[1..][k - 1] {}
      assert Count(ws, has) == 0 ==> forall k :: 0 <= k < |ws[1..]| ==> !has(ws[1..][k]);
    }
  }

  function Held(s: Pool): nat {
    Count(s.workers, (p: Phase) => p.HoldsPermit())
  }

  function Pages(s: Pool): nat {
    Count(s.workers, (p: Phase) => p.HasPage())
  }

  // ---------------------------------------------------------------------------------------------
  // Safety

  /** The lock is held by exactly the worker inside the critical section. */
  ghost predicate LockInv(s: Pool) {
    && (s.lock.Some? ==> s.lock.value < |s.workers| && s.workers[s.lock.value].HoldsLock())
    && (forall w :: 0 <= w < |s.workers| && s.workers[w].HoldsLock() ==> s.lock == Some(w))
  }

  /** Only the recorded browser can have a live handler; launches and exits balance. */
  ghost predicate BrowserInv(s: Pool) {
    && (forall h :: h in s.live ==> s.browser == Running(h))
    && (s.browser.Running? ==> s.browser.handler < s.launches)
    && s.launches == s.exits + |s.live|
  }

  /** Inside the critical section the recorded state is what the next line expects: nothing to
      overwrite when launching, something to open a tab on when opening. */
  ghost predicate SectionInv(s: Pool) {
    forall w :: 0 <= w < |s.workers| ==>
      && (s.workers[w].Launching? ==> s.browser.NotStarted?)
      && (s.workers[w].Opening? ==> s.browser.Running?)
  }

  ghost predicate Inv(s: Pool) {
    && s.free + Held(s) == s.maxPages
    && LockInv(s)
    && BrowserInv(s)
    && SectionInv(s)
  }

  lemma StartInv(maxPages: nat, n: nat)
    ensures Inv(Start(maxPages, n))
  {
    CountNone(Start(maxPages, n).workers, (p: Phase) => p.HoldsPermit());
  }

  lemma StepKeepsPermits(s: Pool, e: Event)
    requires Inv(s) && Step(s, e).Some?
    ensures var t := Step(s, e).value; t.maxPages == s.maxPages && t.free + Held(t) == t.maxPages
  {
    hide LockInv;
    hide BrowserInv;
    hide SectionInv;
    var t := Step(s, e).value;
    if !e.HandlerExit? {
      assert t.workers == s.workers[e.w := t.workers[e.w]];
      CountUpdate(s.workers, e.w, t.workers[e.w], (p: Phase) => p.HoldsPermit());
    }
  }

  lemma StepKeepsBrowser(s: Pool, e: Event)
    requires Inv(s) && Step(s, e).Some?
    ensures BrowserInv(Step(s, e).value)
  {
    hide LockInv;
    hide Held;
    if e.LaunchOk? {
      assert s.live == {} by {
        forall h ensures h !in s.live {}
      }
    }
  }

  lemma StepKeepsLock(s: Pool, e: Event)
    requires Inv(s) && Step(s, e).Some?
    ensures LockInv(Step(s, e).value)
  {
    hide BrowserInv;
    hide SectionInv;
    hide Held;
  }

  lemma StepKeepsSections(s: Pool, e: Event)
    requires Inv(s) && Step(s, e).Some?
    ensures SectionInv(Step(s, e).value)
  {
    hide BrowserInv;
    hide Held;
  }

  lemma {:induction false} RunKeepsInv(s: Pool, events: seq<Event>)
    requires Inv(s) && Run(s, events).Some?
    ensures Inv(Run(s, events).value) && Run(s, events).value.maxPages == s.maxPages
    decreases |events|
  {
    if events == [] {
    } else {
      StepKeepsPermits(s, events[0]);
      StepKeepsBrowser(s, events[0]);
      StepKeepsLock(s, events[0]);
      StepKeepsSections(s, events[0]);
      RunKeepsInv(Step(s, events[0]).value, events[1..]);
    }
  }

  ghost predicate Reachable(s: Pool, maxPages: nat, n: nat) {
    exists events :: Run(Start(maxPages, n), events) == Some(s)
  }

  /** Every interleaving with crashes, failures and cancellations is safe. */
  lemma PoolSafety(s: Pool, maxPages: nat, n: nat)
    requires Reachable(s, maxPages, n)
    ensures s.free + Held(s) == maxPages                                  // permits are conserved
    ensures Pages(s) <= maxPages                                          // live pages are bounded
    ensures forall v, w :: 0 <= v < w < |s.workers| ==>                   // one lock owner
              !(s.workers[v].HoldsLock() && s.workers[w].HoldsLock())
    ensures s.lock.Some? ==> s.lock.value < |s.workers| && s.workers[s.lock.value].HoldsPermit()
    ensures forall h :: h in s.live ==> s.browser == Running(h)           // one live handler
    ensures s.exits <= s.launches <= s.exits + 1                          // no needless launch
    ensures forall w :: At(s, w, Opening) ==> s.browser.Running?          // "failed to launch" is dead code
  {
    var events :| Run(Start(maxPages, n), events) == Some(s);
    StartInv(maxPages, n);
    RunKeepsInv(Start(maxPages, n), events);
    CountMonotone(s.workers, (p: Phase) => p.HasPage(), (p: Phase) => p.HoldsPermit());
    if s.live != {} {
      var h :| h in s.live;
      assert s.live == {h};
    }
  }

  /** Crash detection: a worker that gets the lock launches exactly when no handler is alive; if it
      reuses the recorded browser, that browser's handler had not exited. */
  lemma LaunchesIffNoneAlive(s: Pool, w: nat)
    requires Inv(s) && Step(s, TakeLock(w)).Some?
    ensures
      var t := Step(s, TakeLock(w)).value;
      && (t.workers[w].Launching? <==> s.live == {})
      && (t.workers[w].Opening? <==> t.browser.Running? && t.browser.handler in s.live)
  {
    if h :| h in s.live { assert s.browser == Running(h); }
  }

  // ---------------------------------------------------------------------------------------------
  // Progress and termination

  function Weight(p: Phase): nat {
    match p
    case Waiting => 7
    case Queued => 6
    case Launching => 5
    case Opening => 3
    case Using => 2
    case Closing => 1
    case Finished => 0
  }

  function Total(ws: seq<Phase>): nat {
    if ws == [] then 0 else Weight(ws[0]) + Total(ws[1..])
  }

  lemma {:induction false} TotalUpdate(ws: seq<Phase>, w: nat, p: Phase)
    requires w < |ws|
    ensures Total(ws[w := p]) + Weight(ws[w]) == Total(ws) + Weight(p)
  {
    if w > 0 {
      TotalUpdate(ws[1..], w - 1, p);
      assert ws[w := p][1..] == ws[1..][w - 1 := p];
    } else {
      assert ws[w := p][1..] == ws[1..];
    }
  }

  lemma {:induction false} TotalAtStart(ws: seq<Phase>)
    requires forall k :: 0 <= k < |ws| ==> ws[k] == Waiting
    ensures Total(ws) == 7 * |ws|
  {
    if ws == [] {
    } else {
      TotalAtStart(ws[1..]);
    }
  }

  /** What is left to happen: the workers' own steps, and the exit of a handler still alive. */
  function Remaining(s: Pool): nat {
    Total(s.workers) + |s.live|
  }

  /** A worker's step or mishap moves that worker on, by two phases if it starts a handler. */
  lemma StepMoves(s: Pool, e: Event)
    requires !e.HandlerExit? && Step(s, e).Some?
    ensures
      var t := Step(s, e).value;
      && e.w < |s.workers| == |t.workers|
      && t.workers == s.workers[e.w := t.workers[e.w]]
      && Weight(t.workers[e.w]) + (if e.LaunchOk? then 2 else 1) <= Weight(s.workers[e.w])
      && t.live == if e.LaunchOk? then s.live + {s.launches} else s.live
  {
  }

  /** Every step, also a crash or a cancellation, uses some of it up. */
  lemma StepUses(s: Pool, e: Event)
    requires Step(s, e).Some?
    ensures Remaining(Step(s, e).value) < Remaining(s)
  {
    var t := Step(s, e).value;
    if !e.HandlerExit? {
      StepMoves(s, e);
      assert Remaining(t) == Total(t.workers) + |t.live| && Remaining(s) == Total(s.workers) + |s.live|;
      hide *;
      TotalUpdate(s.workers, e.w, t.workers[e.w]);
      assert |s.live + {s.launches}| <= |s.live| + 1;
    }
  }

  lemma {:induction false} RunIsBounded(s: Pool, events: seq<Event>)
    requires Run(s, events).Some?
    ensures |events| + Remaining(Run(s, events).value) <= Remaining(s)
    decreases |events|
  {
    if events == [] {
    } else {
      StepUses(s, events[0]);
      RunIsBounded(Step(s, events[0]).value, events[1..]);
    }
  }

  ghost predicate AllFinished(s: Pool) {
    forall w :: 0 <= w < |s.workers| ==> s.workers[w] == Finished
  }

  ghost predicate WorkerCanMove(s: Pool) {
    exists e: Event :: e.ByWorker() && Step(s, e).Some?
  }

  /** A worker that holds something, or any worker when a permit is left, points to an enabled step. */
  lemma Unstuck(s: Pool, w: nat)
    requires Inv(s) && w < |s.workers| && s.workers[w] != Finished
    requires s.workers[w] == Waiting ==> s.free > 0
    ensures WorkerCanMove(s)
  {
    match s.workers[w] {
      case Waiting => assert Step(s, TakePermit(w)).Some?;
      case Queued =>
        if s.lock.None? {
          assert Step(s, TakeLock(w)).Some?;
        } else {
          var v := s.lock.value;
          if s.workers[v].Launching? {
            assert Step(s, LaunchFail(v)).Some?;
          } else {
            assert Step(s, OpenFail(v)).Some?;
          }
        }
      case Launching => assert Step(s, LaunchFail(w)).Some?;
      case Opening => assert Step(s, OpenFail(w)).Some?;
      case Using => assert Step(s, BeginClose(w)).Some?;
      case Closing => assert Step(s, EndClose(w)).Some?;
    }
  }

  /** With a permit to give out, no reachable state is stuck before every worker has finished. */
  lemma Progress(s: Pool)
    requires Inv(s) && s.maxPages >= 1
    ensures AllFinished(s) || WorkerCanMove(s)
  {
    if w: nat :| w < |s.workers| && s.workers[w] != Finished {
      if s.free > 0 {
        Unstuck(s, w);
      } else {
        CountNone(s.workers, (p: Phase) => p.HoldsPermit());
        var v: nat :| v < |s.workers| && s.workers[v].HoldsPermit();
        Unstuck(s, v);
      }
    }
  }

  lemma FinishedHoldNothing(s: Pool)
    requires Inv(s) && AllFinished(s)
    ensures s.free == s.maxPages && s.lock.None?
  {
    CountNone(s.workers, (p: Phase) => p.HoldsPermit());
  }

  /** Every run has at most seven events per worker, and one that no worker can carry on has
      finished them all, with every permit back and the lock free. */
  lemma {:induction false} PoolCompletes(maxPages: nat, n: nat, events: seq<Event>)
    requires maxPages >= 1 && Run(Start(maxPages, n), events).Some?
    ensures |events| <= 7 * n
    ensures
      var s := Run(Start(maxPages, n), events).value;
      !WorkerCanMove(s) ==> AllFinished(s) && s.free == maxPages && s.lock.None?
  {
    hide Run;
    hide Step;
    var s0, s := Start(maxPages, n), Run(Start(maxPages, n), events).value;
    StartInv(maxPages, n);
    RunKeepsInv(s0, events);
    RunIsBounded(s0, events);
    TotalAtStart(s0.workers);
    if !WorkerCanMove(s) {
      Progress(s);
      FinishedHoldNothing(s);
    }
  }

  /** Without a permit to give out nobody ever moves: progress for any number of workers needs
      exactly what the configuration guarantees, at least one page. */
  lemma ProgressNeedsAPage(maxPages: nat)
    ensures maxPages >= 1 <==>
      forall n, s :: Reachable(s, maxPages, n) ==> AllFinished(s) || WorkerCanMove(s)
  {
    if maxPages >= 1 {
      forall n, s | Reachable(s, maxPages, n) ensures AllFinished(s) || WorkerCanMove(s) {
        var events :| Run(Start(maxPages, n), events) == Some(s);
        StartInv(maxPages, n);
        RunKeepsInv(Start(maxPages, n), events);
        Progress(s);
      }
    } else {
      var s := Start(0, 1);
      assert Run(s, []) == Some(s);
      assert Reachable(s, 0, 1);
      assert s.workers[0] == Waiting && !AllFinished(s);
      forall e: Event | e.ByWorker() ensures Step(s, e).None? {}
    }
  }

  /** `max_pages` of the configuration: what was asked for, or twice the processors but at least four. */
  function ConfiguredPages(asked: nat, cpus: nat): nat {
    if asked > 0 then asked else if cpus * 2 < 4 then 4 else cpus * 2
  }

  /** So the configured pool never gets stuck and completes every run, whatever was asked for. */
  lemma ConfiguredPoolCompletes(asked: nat, cpus: nat, n: nat, events: seq<Event>)
    requires Run(Start(ConfiguredPages(asked, cpus), n), events).Some?
    ensures
      var s := Run(Start(ConfiguredPages(asked, cpus), n), events).value;
      && |events| <= 7 * n
      && (WorkerCanMove(s) || (AllFinished(s) && s.free == ConfiguredPages(asked, cpus) && s.lock.None?))
  {
    hide Run;
    hide WorkerCanMove;
    PoolCompletes(ConfiguredPages(asked, cpus), n, events);
  }
}
