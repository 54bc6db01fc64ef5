/** The circuit breaker and the bulkhead under any interleaving of calls. A call is split into its
    beginning and its end, so ends may come in any order and long after the state has changed. */
module Resilience {

  datatype Circuit = Closed | Open | HalfOpen

  datatype Config = Config(failureThreshold: int, resetTimeout: real, successesRequired: int)

  datatype Breaker = Breaker(state: Circuit, failures: int, probes: int, openedAt: real)

  const INITIAL := Breaker(Closed, 0, 0, 0.0)

  datatype Event =
    | Begun(now: real)
    | Succeeded(now: real)
    | Failed(now: real)
    | Ignored(now: real) // ended with an error that does not count
    | ForcedOpen(now: real)
    | ForcedClosed(now: real)

  function MaybeHalfOpen(cfg: Config, b: Breaker, now: real): Breaker {
    if b.state.Open? && now - b.openedAt >= cfg.resetTimeout then b.(state := HalfOpen, probes := 0) else b
  }

  function OnSuccess(cfg: Config, b: Breaker): Breaker {
    if b.state.HalfOpen? then
      var b1 := b.(probes := b.probes + 1);
      if b1.probes >= cfg.successesRequired then b1.(failures := 0, state := Closed) else b1
    else b.(failures := 0)
  }

  function OnFailure(cfg: Config, b: Breaker, now: real): Breaker {
    if b.state.HalfOpen? then b.(state := Open, openedAt := now)
    else
      var b1 := b.(failures := b.failures + 1);
      if b1.failures >= cfg.failureThreshold then b1.(state := Open, openedAt := now) else b1
  }

  function Step(cfg: Config, b: Breaker, e: Event): Breaker {
    match e
    case Begun(now) => MaybeHalfOpen(cfg, b, now)
    case Succeeded(_) => OnSuccess(cfg, b)
    case Failed(now) => OnFailure(cfg, b, now)
    case Ignored(_) => b
    case ForcedOpen(now) => b.(state := Open, openedAt := now)
    case ForcedClosed(_) => b.(state := Closed, failures := 0, probes := 0)
  }

  /** `states[n]` is the breaker after the first `n` events. */
  datatype Run = Run(cfg: Config, events: seq<Event>, states: seq<Breaker>) {
    ghost predicate Valid() {
      && |states| == |events| + 1
      && states[0] == INITIAL
      && (forall i, j :: 0 <= i < j < |events| ==> events[i].now <= events[j].now)
      && (forall i :: 0 <= i < |events| ==> Linked(i))
    }

    ghost predicate Linked(i: nat)
      requires i < |events| && |states| == |events| + 1
    {
      states[i + 1] == Step(cfg, states[i], events[i])
    }

    /** Event `i` lets a call through to the upstream. */
    ghost predicate Admits(i: nat)
      requires i < |events| && |states| == |events| + 1
    {
      events[i].Begun? && !states[i + 1].state.Open?
    }

    /** Event `i` opens the breaker, or opens it anew. */
    ghost predicate Opens(i: nat)
      requires i < |events| && |states| == |events| + 1
    {
      && states[i + 1].state.Open?
      && (!states[i].state.Open? || events[i].ForcedOpen? || states[i + 1].openedAt != states[i].openedAt)
    }

    /** Successes among the events `first..end-1`. */
    function Successes(first: nat, end: nat): nat
      requires first <= end <= |events|
    {
      if first == end then 0
      else Successes(first, end - 1) + if events[end - 1].Succeeded? then 1 else 0
    }
  }

  /** Failures in a row: those counted outside half-open since the last success outside half-open, the
      last closing or the last forced close. */
  function FailedRow(r: Run, n: nat): nat
    requires |r.states| == |r.events| + 1 && n <= |r.events|
  {
    if n == 0 || r.events[n - 1].ForcedClosed? then 0
    else if r.events[n - 1].Succeeded? && (!r.states[n - 1].state.HalfOpen? || r.states[n].state.Closed?) then 0
    else FailedRow(r, n - 1) + if r.events[n - 1].Failed? && !r.states[n - 1].state.HalfOpen? then 1 else 0
  }

  /** The counter is that row. */
  lemma {:induction false} FailuresAreRow(r: Run, n: nat)
    requires r.Valid() && n <= |r.events|
    ensures r.states[n].failures == FailedRow(r, n)
  {
    if n > 0 {
      FailuresAreRow(r, n - 1);
      assert r.Linked(n - 1);
    }
  }

  /** Event `n` is one that opens a breaker, or starts the timeout of an open one anew: an operator, a
      failed probe, or a failure that completes the threshold. */
  predicate Trips(r: Run, n: nat)
    requires |r.states| == |r.events| + 1 && n < |r.events|
  {
    || r.events[n].ForcedOpen?
    || (r.events[n].Failed?
        && (r.states[n].state.HalfOpen? || FailedRow(r, n) + 1 >= r.cfg.failureThreshold))
  }

  /** The time of the last such event among the first `n`. */
  function LastTrip(r: Run, n: nat): real
    requires |r.states| == |r.events| + 1 && n <= |r.events|
  {
    if n == 0 then 0.0 else if Trips(r, n - 1) then r.events[n - 1].now else LastTrip(r, n - 1)
  }

  lemma {:induction false} OpenedAtLastTrip(r: Run, n: nat)
    requires r.Valid() && n <= |r.events|
    ensures r.states[n].openedAt == LastTrip(r, n)
  {
    if n > 0 {
      OpenedAtLastTrip(r, n - 1);
      FailuresAreRow(r, n - 1);
      assert r.Linked(n - 1);
    }
  }

  /** When the breaker is open after an event, and when half-open: it opens exactly at such an event and
      stays open until an operator closes it or a call begins with the timeout over, which is exactly
      when it starts probing. */
  lemma OpensExactly(r: Run, n: nat)
    requires r.Valid() && n < |r.events|
    ensures var s, e := r.states[n].state, r.events[n];
            var probing := s.Open? && e.Begun? && LastTrip(r, n) + r.cfg.resetTimeout <= e.now;
            && (r.states[n + 1].state.Open? <==> Trips(r, n) || (s.Open? && !e.ForcedClosed? && !probing))
            && (r.states[n + 1].state.HalfOpen? && !s.HalfOpen? <==> probing)
            && (e.ForcedClosed? ==> r.states[n + 1].state.Closed?)
  {
    FailuresAreRow(r, n);
    OpenedAtLastTrip(r, n);
    assert r.Linked(n);
  }

  /** Failed events among `first..end-1`. */
  function Failures(r: Run, first: nat, end: nat): nat
    requires first <= end <= |r.events|
  {
    if first == end then 0 else Failures(r, first, end - 1) + if r.events[end - 1].Failed? then 1 else 0
  }

  /** A closed breaker that meets as many failures as the threshold, with no success and no forced close
      between them, opens on the way. */
  lemma FailuresTrip(r: Run, i: nat, j: nat)
    requires r.Valid() && i <= j <= |r.events| && r.states[i].state.Closed?
    requires forall k :: i <= k < j ==> !r.events[k].Succeeded? && !r.events[k].ForcedClosed?
    requires 1 <= r.cfg.failureThreshold <= Failures(r, i, j)
    ensures exists k :: i < k <= j && r.states[k].state.Open?
  {
    if forall k :: i < k <= j ==> !r.states[k].state.Open? {
      RowGrows(r, i, j);
      FailuresAreRow(r, j);
      ClosedBelowThreshold(r, j);
    }
  }

  lemma {:induction false} RowGrows(r: Run, i: nat, j: nat)
    requires r.Valid() && i <= j <= |r.events| && r.states[i].state.Closed?
    requires forall k :: i <= k < j ==> !r.events[k].Succeeded? && !r.events[k].ForcedClosed?
    requires forall k :: i < k <= j ==> !r.states[k].state.Open?
    ensures r.states[j].state.Closed? && FailedRow(r, j) >= Failures(r, i, j)
    decreases j
  {
    if i < j {
      RowGrows(r, i, j - 1);
      assert r.Linked(j - 1);
    }
  }

  /** A closed breaker has fewer consecutive failures than its threshold; a threshold below one
      acts as one. */
  lemma {:induction false} ClosedBelowThreshold(r: Run, n: nat)
    requires r.Valid() && n <= |r.events|
    ensures r.states[n].state.Closed? ==> r.states[n].failures < r.cfg.failureThreshold || r.states[n].failures == 0
  {
    if n > 0 {
      ClosedBelowThreshold(r, n - 1);
      assert r.Linked(n - 1);
    }
  }

  /** Since an opening, without a forced close, the breaker is still open or the timeout is over. */
  lemma {:induction false} OpenUntilTimeout(r: Run, i: nat, k: nat)
    requires r.Valid() && i < k <= |r.events| && r.Opens(i)
    requires forall j :: i < j < k ==> !r.events[j].ForcedClosed?
    ensures || (r.states[k].state.Open? && r.events[i].now <= r.states[k].openedAt)
            || r.events[i].now + r.cfg.resetTimeout <= r.events[k - 1].now
    decreases k
  {
    assert r.Linked(k - 1);
    if i < k - 1 {
      OpenUntilTimeout(r, i, k - 1);
    }
  }

  /** After every opening or re-opening, no upstream call starts before the reset timeout has
      passed, whatever calls end meanwhile, unless an operator forces the breaker closed. */
  lemma NoCallBeforeTimeout(r: Run, i: nat, j: nat)
    requires r.Valid() && i < j < |r.events| && r.Opens(i) && r.Admits(j)
    requires forall k :: i < k < j ==> !r.events[k].ForcedClosed?
    ensures r.events[i].now + r.cfg.resetTimeout <= r.events[j].now
  {
    OpenUntilTimeout(r, i, j);
    assert r.Linked(j);
    assert r.events[j - 1].now <= r.events[j].now;
  }

  /** While half-open, the probe counter is the number of successes since half-open was entered, and
      nothing has failed since. */
  lemma {:induction false} ProbesAreSuccesses(r: Run, e: nat, j: nat)
    requires r.Valid() && e < j <= |r.events|
    requires !r.states[e].state.HalfOpen? && forall k :: e < k <= j ==> r.states[k].state.HalfOpen?
    ensures r.states[j].probes == r.Successes(e + 1, j)
    ensures forall k :: e < k < j ==> !r.events[k].Failed?
    decreases j
  {
    assert r.Linked(j - 1);
    if e + 1 < j {
      ProbesAreSuccesses(r, e, j - 1);
    }
  }

  /** A success closes a half-open breaker exactly when it completes the required number since
      half-open was entered at `e`, and no failure was counted in between. */
  lemma ClosesExactly(r: Run, e: nat, j: nat)
    requires r.Valid() && e < j < |r.events| && r.events[j].Succeeded?
    requires !r.states[e].state.HalfOpen? && forall k :: e < k <= j ==> r.states[k].state.HalfOpen?
    ensures r.states[j + 1].state.Closed? <==> r.Successes(e + 1, j + 1) >= r.cfg.successesRequired
    ensures forall k :: e < k <= j ==> !r.events[k].Failed?
  {
    ProbesAreSuccesses(r, e, j);
    assert r.Linked(j);
  }

  class CircuitBreaker {
    const cfg: Config
    ghost var run: Run

    var state: Circuit
    var consecutiveFailures: int
    var consecutiveHalfOpenSuccesses: int
    var openedAt: real

    ghost function Value(): Breaker
      reads this
    {
      Breaker(state, consecutiveFailures, consecutiveHalfOpenSuccesses, openedAt)
    }

    ghost predicate Valid()
      reads this
    {
      run.Valid() && run.cfg == cfg && Value() == run.states[|run.events|]
    }

    /** The clock never goes back. */
    ghost predicate Later(now: real)
      reads this
    {
      run.events != [] ==> run.events[|run.events| - 1].now <= now
    }

    constructor (cfg: Config)
      ensures Valid() && this.cfg == cfg && run == Run(cfg, [], [INITIAL])
    {
      this.cfg := cfg;
      state, consecutiveFailures, consecutiveHalfOpenSuccesses, openedAt := Closed, 0, 0, 0.0;
      run := Run(cfg, [], [INITIAL]);
    }

    ghost method Record(e: Event)
      requires run.Valid() && run.cfg == cfg && Later(e.now)
      requires Value() == Step(cfg, run.states[|run.events|], e)
      modifies `run
      ensures Valid() && run == Extend(old(run), e)
    {
      hide Step;
      ExtendIsRun(run, e);
      run := Extend(run, e);
    }

    /** The beginning of a call; false means it was short-circuited. */
    method Begin(now: real) returns (admitted: bool)
      requires Valid() && Later(now)
      modifies this
      ensures Valid() && run == Extend(old(run), Begun(now))
      ensures admitted == run.Admits(|run.events| - 1)
    {
      if state.Open? && now - openedAt >= cfg.resetTimeout {
        consecutiveHalfOpenSuccesses := 0;
        state := HalfOpen;
      }
      admitted := !state.Open?;
      Record(Begun(now));
    }

    method EndWithSuccess(now: real)
      requires Valid() && Later(now)
      modifies this
      ensures Valid() && run == Extend(old(run), Succeeded(now))
    {
      if state.HalfOpen? {
        consecutiveHalfOpenSuccesses := consecutiveHalfOpenSuccesses + 1;
        if consecutiveHalfOpenSuccesses >= cfg.successesRequired {
          consecutiveFailures := 0;
          state := Closed;
        }
      } else {
        consecutiveFailures := 0;
      }
      Record(Succeeded(now));
    }

    method EndWithFailure(now: real)
      requires Valid() && Later(now)
      modifies this
      ensures Valid() && run == Extend(old(run), Failed(now))
    {
      if state.HalfOpen? {
        openedAt := now;
        state := Open;
      } else {
        consecutiveFailures := consecutiveFailures + 1;
        if consecutiveFailures >= cfg.failureThreshold {
          openedAt := now;
          state := Open;
        }
      }
      Record(Failed(now));
    }

    method ForceOpen(now: real)
      requires Valid() && Later(now)
      modifies this
      ensures Valid() && run == Extend(old(run), ForcedOpen(now))
    {
      state := Open;
      openedAt := now;
      Record(ForcedOpen(now));
    }

    method ForceClose(now: real)
      requires Valid() && Later(now)
      modifies this
      ensures Valid() && run == Extend(old(run), ForcedClosed(now))
    {
      consecutiveFailures := 0;
      consecutiveHalfOpenSuccesses := 0;
      state := Closed;
      Record(ForcedClosed(now));
    }
  }

  /** A run continued by one event. */
  ghost function Extend(r: Run, e: Event): Run
    requires r.Valid()
  {
    r.(events := r.events + [e], states := r.states + [Step(r.cfg, r.states[|r.events|], e)])
  }

  lemma ExtendIsRun(r: Run, e: Event)
    requires r.Valid() && (r.events != [] ==> r.events[|r.events| - 1].now <= e.now)
    ensures Extend(r, e).Valid()
  {
    hide Step;
    var x := Extend(r, e);
    forall i | 0 <= i < |x.events| ensures x.Linked(i) {
      if i < |r.events| { assert r.Linked(i); }
    }
  }

  /** Bounded concurrency over a semaphore. A caller the semaphore has let in counts as in flight
      only once it runs again, so entering is two steps. */
  class Bulkhead {
    const maxConcurrent: nat
    var permits: nat
    var inFlight: nat
    ghost var letIn: nat

    ghost predicate Valid()
      reads this
    {
      permits + letIn + inFlight == maxConcurrent
    }

    constructor (maxConcurrent: nat)
      requires 1 <= maxConcurrent
      ensures Valid() && this.maxConcurrent == maxConcurrent && inFlight == 0 && letIn == 0
    {
      this.maxConcurrent := maxConcurrent;
      permits, inFlight, letIn := maxConcurrent, 0, 0;
    }

    /** The semaphore grants a permit, or the caller waits. */
    method Acquire() returns (granted: bool)
      requires Valid()
      modifies this
      ensures Valid() && inFlight == old(inFlight)
      ensures granted <==> old(letIn) + inFlight < maxConcurrent
      ensures letIn == old(letIn) + if granted then 1 else 0
    {
      granted := permits > 0;
      if granted {
        permits := permits - 1;
        letIn := letIn + 1;
      }
    }

    method Enter()
      requires Valid() && 0 < letIn
      modifies this
      ensures Valid() && inFlight == old(inFlight) + 1 <= maxConcurrent && letIn == old(letIn) - 1
    {
      letIn := letIn - 1;
      inFlight := inFlight + 1;
    }

    method Exit()
      requires Valid() && 0 < inFlight
      modifies this
      ensures Valid() && inFlight == old(inFlight) - 1 && letIn == old(letIn)
    {
      inFlight := inFlight - 1;
      permits := permits + 1;
    }
  }
}
