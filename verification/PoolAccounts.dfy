/** What each event of the page pool does to the pages and permits that are out, step by step and over
    whole runs. */
module PoolAccounts {
  import opened Wrappers
  import opened PagePool

  /** The way of a worker: from which phase to which each event takes it. */
  lemma StepPhases(s: Pool, e: Event)
    requires Step(s, e).Some?
    ensures
      var t := Step(s, e).value;
      && |t.workers| == |s.workers|
      && (!e.HandlerExit? ==> e.w < |s.workers|)
      && (forall v :: 0 <= v < |s.workers| && (e.HandlerExit? || v != e.w) ==> t.workers[v] == s.workers[v])
      && match e
         case TakePermit(w) => s.workers[w] == Waiting && t.workers[w] == Queued
         case TakeLock(w) => s.workers[w] == Queued && t.workers[w] in {Launching, Opening}
         case LaunchOk(w) => s.workers[w] == Launching && t.workers[w] == Opening
         case LaunchFail(w) => s.workers[w] == Launching && t.workers[w] == Finished
         case OpenOk(w) => s.workers[w] == Opening && t.workers[w] == Using
         case OpenFail(w) => s.workers[w] == Opening && t.workers[w] == Finished
         case BeginClose(w) => s.workers[w] == Using && t.workers[w] == Closing
         case EndClose(w) => s.workers[w] == Closing && t.workers[w] == Finished
         case DropPage(w) => s.workers[w] == Using && t.workers[w] == Finished
         case Cancel(w) => s.workers[w] != Finished && t.workers[w] == Finished
         case HandlerExit(_) => t.workers == s.workers
  {
  }

  /** What an event adds to the pages that are out: a tab that opened adds one, and a page that was
      closed, dropped or held by a cancelled worker is one less. */
  function PageChange(s: Pool, e: Event): int {
    match e
    case OpenOk(_) => 1
    case EndClose(_) => -1
    case DropPage(_) => -1
    case Cancel(w) => if w < |s.workers| && s.workers[w] in {Using, Closing} then -1 else 0
    case _ => 0
  }

  lemma PageAccount(s: Pool, e: Event)
    requires Step(s, e).Some?
    ensures Pages(Step(s, e).value) == Pages(s) + PageChange(s, e)
  {
    var t := Step(s, e).value;
    StepPhases(s, e);
    hide Step;
    if !e.HandlerExit? {
      assert t.workers == s.workers[e.w := t.workers[e.w]];
      CountUpdate(s.workers, e.w, t.workers[e.w], (p: Phase) => p.HasPage());
    }
  }

  /** What an event adds to the permits that are free. */
  function PermitChange(s: Pool, e: Event): int {
    match e
    case TakePermit(_) => -1
    case LaunchFail(_) => 1
    case OpenFail(_) => 1
    case EndClose(_) => 1
    case DropPage(_) => 1
    case Cancel(w) => if w < |s.workers| && s.workers[w] in {Waiting, Finished} then 0 else 1
    case _ => 0
  }

  lemma PermitAccount(s: Pool, e: Event)
    requires Step(s, e).Some?
    ensures Step(s, e).value.free == s.free + PermitChange(s, e)
  {
  }

  /** The state lock is taken by the worker that enters the critical section and given back when that
      worker has its page, fails or is cancelled there. */
  lemma LockAccount(s: Pool, e: Event)
    requires Step(s, e).Some?
    ensures
      Step(s, e).value.lock ==
        match e
        case TakeLock(w) => Some(w)
        case LaunchFail(_) => None
        case OpenOk(_) => None
        case OpenFail(_) => None
        case Cancel(w) => if s.workers[w] in {Launching, Opening} then None else s.lock
        case _ => s.lock
  {
  }

  /** The sum over a run. */
  function PageChanges(s: Pool, events: seq<Event>): int
    decreases |events|
  {
    if events == [] || Step(s, events[0]).None? then 0
    else PageChange(s, events[0]) + PageChanges(Step(s, events[0]).value, events[1..])
  }

  /** The pages that are out are the tabs that opened less those given back. */
  lemma {:induction false} RunAccount(s: Pool, events: seq<Event>)
    requires Run(s, events).Some?
    ensures Pages(Run(s, events).value) == Pages(s) + PageChanges(s, events)
    decreases |events|
  {
    hide Step;
    hide Pages;
    hide PageChange;
    if events == [] {
    } else {
      PageAccount(s, events[0]);
      RunAccount(Step(s, events[0]).value, events[1..]);
    }
  }

  /** Nothing went wrong for a worker: no launch and no opening of its own failed, nobody cancelled it. */
  ghost predicate Unharmed(events: seq<Event>, w: nat) {
    forall i :: 0 <= i < |events| ==> events[i] !in {LaunchFail(w), OpenFail(w), Cancel(w)}
  }

  ghost predicate BeforePage(s: Pool, w: nat) {
    w < |s.workers| && s.workers[w] in {Waiting, Queued, Launching, Opening}
  }

  lemma StillBefore(s: Pool, e: Event, w: nat)
    requires Step(s, e).Some? && BeforePage(s, w) && e !in {LaunchFail(w), OpenFail(w), Cancel(w), OpenOk(w)}
    ensures BeforePage(Step(s, e).value, w)
  {
    StepPhases(s, e);
    hide Step;
  }

  lemma RunCons(s: Pool, events: seq<Event>, i: nat)
    requires i < |events| && Step(s, events[0]).Some?
    ensures Run(s, events[..i + 1]) == Run(Step(s, events[0]).value, events[1..][..i])
  {
    hide Step;
    assert events[..i + 1][1..] == events[1..][..i];
  }

  /** A worker that ends unharmed has had a page: at some moment its tab opened and it used the page. */
  lemma {:induction false} HadAPage(s: Pool, events: seq<Event>, w: nat) returns (i: nat)
    requires Run(s, events).Some? && BeforePage(s, w) && Unharmed(events, w)
    requires At(Run(s, events).value, w, Finished)
    ensures i < |events| && events[i] == OpenOk(w)
    ensures
      var held := Run(s, events[..i + 1]);
      held.Some? && w < |held.value.workers| && held.value.workers[w] == Using
    decreases |events|
  {
    var e := events[0];
    var t := Step(s, e).value;
    RunCons(s, events, 0);
    if e == OpenOk(w) {
      i := 0;
      StepPhases(s, e);
      assert events[1..][..0] == [];
    } else {
      assert e !in {LaunchFail(w), OpenFail(w), Cancel(w)};
      StillBefore(s, e, w);
      hide Step;
      assert Run(s, events) == Run(t, events[1..]);
      i := HadAPage(t, events[1..], w);
      RunCons(s, events, i + 1);
      i := i + 1;
    }
  }

  /** And some run gives one: the first worker launches the browser and gets a page, and everything else
      stays at rest. */
  lemma FirstPage(maxPages: nat, n: nat)
    requires maxPages >= 1 && n >= 1
    ensures
      var s := Run(Start(maxPages, n), [TakePermit(0), TakeLock(0), LaunchOk(0), OpenOk(0)]);
      && s.Some?
      && s.value.workers == Start(maxPages, n).workers[0 := Using]
      && Pages(s.value) == 1
      && s.value.free == maxPages - 1
      && s.value.lock.None?
      && s.value.browser.Running?
      && s.value.live == {s.value.browser.handler}
  {
    var s0 := Start(maxPages, n);
    var s1 := Step(s0, TakePermit(0)).value;
    var s2 := Step(s1, TakeLock(0)).value;
    var s3 := Step(s2, LaunchOk(0)).value;
    var s4 := Step(s3, OpenOk(0)).value;
    assert s4.workers == s0.workers[0 := Using];
    var events := [TakePermit(0), TakeLock(0), LaunchOk(0), OpenOk(0)];
    assert events[1..] == [TakeLock(0), LaunchOk(0), OpenOk(0)];
    assert events[1..][1..] == [LaunchOk(0), OpenOk(0)];
    assert events[1..][1..][1..] == [OpenOk(0)];
    assert events[1..][1..][1..][1..] == [];
    CountNone(s0.workers, (p: Phase) => p.HasPage());
    CountUpdate(s0.workers, 0, Using, (p: Phase) => p.HasPage());
  }

  /** The configured number of pages: the one asked for, or else the larger of four and twice the
      processors. */
  lemma ConfiguredPagesMeaning(asked: nat, cpus: nat)
    ensures asked > 0 ==> ConfiguredPages(asked, cpus) == asked
    ensures asked == 0 ==> ConfiguredPages(asked, cpus) >= 4 && ConfiguredPages(asked, cpus) >= 2 * cpus
    ensures asked == 0 ==> ConfiguredPages(asked, cpus) in {4, 2 * cpus}
  {
  }
}
