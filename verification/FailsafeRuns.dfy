/** Whole runs of the controller: any interleaving of events with a clock that never goes back. */
module FailsafeRuns {
  import opened Options
  import opened Phases
  import opened FailsafeModel

  /** `states[n]` is the state after the first `n` events. The clock is positive: the program
      reads a stored 0 as "never". */
  datatype Run = Run(cfg: Config, start: int, events: seq<Event>, states: seq<State>) {
    ghost predicate Valid() {
      && cfg.plan.Valid()
      && 0 < start
      && (forall i :: 0 <= i < |events| ==> start <= events[i].now)
      && (forall i, j :: 0 <= i < j < |events| ==> events[i].now <= events[j].now)
      && |states| == |events| + 1
      && states[0] == Init(cfg, start)
      && (forall i :: 0 <= i < |events| ==> Linked(i))
    }

    ghost predicate Linked(i: nat)
      requires i < |events| && |states| == |events| + 1 && cfg.plan.Valid()
    {
      states[i + 1] == Step(cfg, states[i], events[i])
    }

    /** The time at which state `n` came about. */
    function Since(n: nat): int
      requires n <= |events|
    {
      if n == 0 then start else events[n - 1].now
    }

    /** The time of the last tick among the first `n` events; the start counts as one. */
    function LastTick(n: nat): int
      requires n <= |events|
    {
      if n == 0 then start
      else if events[n - 1].Ticked? then events[n - 1].now
      else LastTick(n - 1)
    }

    /** Every tick among the first `n` events comes at most `p` after the tick before it. */
    ghost predicate TicksWithin(p: int, n: nat)
      requires n <= |events|
    {
      forall i :: 0 <= i < n && events[i].Ticked? ==> events[i].now <= LastTick(i) + p
    }

    /** All ticks among the events `i..j`, both included, come before time `t`. */
    predicate TicksBefore(i: nat, j: int, t: int) {
      forall k :: i <= k <= j && k < |events| && events[k].Ticked? ==> events[k].now < t
    }

    /** The mode is not ALL_RED_FLASH in any of the states `i..j`. */
    predicate NoFlash(i: nat, j: nat)
      requires j < |states|
    {
      forall k :: i <= k <= j ==> !states[k].watch.mode.AllRedFlash?
    }
  }

  lemma {:induction false} LastTickBounds(r: Run, n: nat)
    requires r.Valid() && n <= |r.events|
    ensures r.start <= r.LastTick(n) <= r.Since(n)
  {
    if n > 0 { LastTickBounds(r, n - 1); }
  }

  /** A run continued by one event. */
  ghost function Extend(r: Run, e: Event): Run
    requires r.Valid()
  {
    r.(events := r.events + [e], states := r.states + [Step(r.cfg, r.states[|r.events|], e)])
  }

  lemma ExtendIsRun(r: Run, e: Event)
    requires r.Valid() && r.Since(|r.events|) <= e.now
    ensures Extend(r, e).Valid()
  {
    hide Step;
    var x := Extend(r, e);
    forall i | 0 <= i < |x.events| ensures x.Linked(i) {
      if i < |r.events| { assert r.Linked(i); }
    }
    assert |r.events| > 0 ==> r.start <= r.events[0].now <= r.Since(|r.events|);
  }

  /** The run without events. */
  lemma StartIsRun(cfg: Config, start: int)
    requires cfg.plan.Valid() && 0 < start
    ensures Run(cfg, start, [], [Init(cfg, start)]).Valid()
  {
  }

  // ---- one step, seen from outside ----

  /** What is commanded while the pedestrian machine serves approach `a`. */
  predicate PedPhaseOf(p: Phase, a: Approach) {
    p == WalkFor(a) || p == ClearanceFor(a) || p == FlashingRed
  }

  // Facts every reachable state satisfies; `now` is when the state came about.

  predicate WatchConsistent(start: int, w: Watch, now: int) {
    && start <= w.modeEnteredAt <= now
    && w.lastAccepted.Some? == w.lastAcceptedId.Some?
    && (if w.lastAccepted.Some?
        then start <= w.lastAcceptedAt <= now && w.lastAccepted.value.decisionId == w.lastAcceptedId.value
        else w.lastAcceptedAt == 0)
  }

  predicate SignalConsistent(cfg: Config, start: int, signal: Signal, ped: Ped, now: int) {
    && start <= signal.enteredAt <= now
    && signal.clearanceUntil <= now + cfg.pedClearanceMin
    && (ped.approach.Some? ==> PedPhaseOf(signal.phase, ped.approach.value))
    && (ped.state.Walking? ==> 0 < cfg.WalkMin(ped.accessible))
    && (ped.state.Clearing? ==> signal.clearanceUntil <= ped.startedAt + cfg.pedClearanceMin)
  }

  predicate PedConsistent(ped: Ped, now: int) {
    && ped.startedAt <= now
    && (ped.state.NoPed? <==> ped.approach.None?)
    && (ped.state.NoPed? ==> !ped.accessible)
  }

  predicate Consistent(cfg: Config, start: int, s: State, now: int) {
    && WatchConsistent(start, s.watch, now)
    && SignalConsistent(cfg, start, s.signal, s.ped, now)
    && PedConsistent(s.ped, now)
  }

  /** Only ticks touch the signal and the pedestrian machine; other events may queue a call. */
  lemma QuietStep(cfg: Config, s: State, e: Event)
    requires cfg.plan.Valid() && !e.Ticked?
    ensures var t := Step(cfg, s, e);
            && t.signal == s.signal
            && t.ped == s.ped.(queue := t.ped.queue)
            && |s.ped.queue| <= |t.ped.queue|
  {
  }

  /** Whether a tick finds the pedestrian machine still busy. */
  predicate Serving(cfg: Config, ped: Ped, now: int) {
    && ped.approach.Some?
    && (ped.state.Walking? || (ped.state.Clearing? && now - ped.startedAt < cfg.pedClearanceMin))
  }

  function Max(a: int, b: int): int {
    if a < b then b else a
  }

  /** The latest time at which a tick can still find the machine busy, when ticks come at most
      `p` apart and `tick` is the last one. */
  function ServiceDeadline(cfg: Config, ped: Ped, tick: int, p: nat): int {
    match ped.state
    case Walking => Max(ped.startedAt + cfg.WalkMin(ped.accessible), tick) + p + cfg.pedClearanceMin + p
    case Clearing => Max(ped.startedAt + cfg.pedClearanceMin, tick) + p
    case NoPed => tick
  }

  /** The state and the wish of a tick that takes a call from the queue. */
  predicate Started(cfg: Config, ped: Ped, ped1: Ped, wanted: Phase, now: int) {
    && ped.queue != []
    && var i := NextCall(ped.queue);
       var call := ped.queue[i];
       var walks := 0 < cfg.WalkMin(call.accessibility);
       && ped1 == Ped(ped.queue[..i] + ped.queue[i + 1..], if walks then Walking else Clearing,
                      Some(call.approach), now, call.accessibility)
       && wanted == if walks then WalkFor(call.approach) else ClearanceFor(call.approach)
  }

  /** What a tick wants when it serves no pedestrians. */
  function IdleWish(cfg: Config, w: Watch, slot: Slot, now: int): Phase
    requires cfg.plan.Valid()
  {
    if slot.request.Some? then PreemptFor(slot.request.value.approach) else ScheduledPhase(cfg, w, now)
  }

  lemma WishWhileServing(cfg: Config, w: Watch, signal: Signal, slot: Slot, ped: Ped, now: int)
    requires cfg.plan.Valid() && !w.mode.AllRedFlash? && Serving(cfg, ped, now)
    ensures var (slot1, ped1, wanted) := Desired(cfg, w, signal, slot, ped, now);
            && slot1 == ExpirePreempt(slot, now)
            && if ped.state.Walking? && now - ped.startedAt < cfg.WalkMin(ped.accessible) then
                 ped1 == ped && wanted == WalkFor(ped.approach.value)
               else
                 && wanted == ClearanceFor(ped.approach.value)
                 && ped1 == if ped.state.Walking? then ped.(state := Clearing, startedAt := now) else ped
  {
  }

  lemma WishWhenIdle(cfg: Config, w: Watch, signal: Signal, slot: Slot, ped: Ped, now: int)
    requires cfg.plan.Valid() && !w.mode.AllRedFlash? && !Serving(cfg, ped, now)
    requires PedConsistent(ped, now)
    ensures var (slot1, ped1, wanted) := Desired(cfg, w, signal, slot, ped, now);
            && slot1 == ExpirePreempt(slot, now)
            && if slot1.request.None? && ped.queue != [] && SafeBoundaryForPed(cfg, signal, now) then
                 Started(cfg, ped, ped1, wanted, now)
               else
                 && ped1.state.NoPed? && ped1.approach.None? && !ped1.accessible
                 && ped1.queue == ped.queue && ped1.startedAt == ped.startedAt
                 && wanted == IdleWish(cfg, w, slot1, now)
  {
  }

  /** A tick in ALL_RED_FLASH commands flashing red and freezes the other machines. */
  lemma FlashStep(cfg: Config, s: State, e: Event)
    requires cfg.plan.Valid() && e.Ticked? && Step(cfg, s, e).watch.mode.AllRedFlash?
    ensures var t := Step(cfg, s, e);
            t.slot == s.slot && t.ped == s.ped && t.signal == Command(cfg, s.signal, FlashingRed, e.now)
  {
  }

  /** A tick that finds the machine busy commands the phase of the service in flight. */
  lemma ServingStep(cfg: Config, s: State, e: Event)
    requires cfg.plan.Valid() && e.Ticked? && !Step(cfg, s, e).watch.mode.AllRedFlash?
    requires Serving(cfg, s.ped, e.now) && PedPhaseOf(s.signal.phase, s.ped.approach.value)
    ensures var t := Step(cfg, s, e);
            && t.slot == ExpirePreempt(s.slot, e.now)
            && if s.ped.state.Walking? && e.now - s.ped.startedAt < cfg.WalkMin(s.ped.accessible) then
                 && t.ped == s.ped
                 && t.signal == Command(cfg, s.signal, WalkFor(s.ped.approach.value), e.now)
               else
                 && t.signal == Command(cfg, s.signal, ClearanceFor(s.ped.approach.value), e.now)
                 && t.ped == if s.ped.state.Walking? then s.ped.(state := Clearing, startedAt := e.now) else s.ped
  {
    WishWhileServing(cfg, CheckStaleness(cfg, s.watch, e.now), s.signal, s.slot, s.ped, e.now);
  }

  /** A tick that finds the machine free starts a service, or filters the wish of the moment. */
  lemma IdleStep(cfg: Config, s: State, e: Event)
    requires cfg.plan.Valid() && e.Ticked? && !Step(cfg, s, e).watch.mode.AllRedFlash?
    requires !Serving(cfg, s.ped, e.now) && PedConsistent(s.ped, e.now)
    ensures var t := Step(cfg, s, e);
            && t.watch == CheckStaleness(cfg, s.watch, e.now)
            && t.slot == ExpirePreempt(s.slot, e.now)
            && if t.slot.request.None? && s.ped.queue != [] && SafeBoundaryForPed(cfg, s.signal, e.now) then
                 exists wanted ::
                   && Started(cfg, s.ped, t.ped, wanted, e.now)
                   && t.signal == Command(cfg, s.signal, wanted, e.now)
               else
                 && t.ped.state.NoPed? && t.ped.approach.None? && !t.ped.accessible
                 && t.ped.queue == s.ped.queue && t.ped.startedAt == s.ped.startedAt
                 && var wish := IdleWish(cfg, t.watch, t.slot, e.now);
                    t.signal == Command(cfg, s.signal, Filter(cfg, t.watch.mode, NoPed, s.signal, wish, e.now), e.now)
  {
    var w := CheckStaleness(cfg, s.watch, e.now);
    WishWhenIdle(cfg, w, s.signal, s.slot, s.ped, e.now);
  }

  // ---- every reachable state is consistent ----

  lemma WatchStepConsistent(cfg: Config, start: int, s: State, before: int, e: Event)
    requires cfg.plan.Valid() && 0 < start <= before <= e.now
    requires WatchConsistent(start, s.watch, before)
    ensures WatchConsistent(start, Step(cfg, s, e).watch, e.now)
  {
  }

  lemma SignalStepConsistent(cfg: Config, start: int, s: State, before: int, e: Event)
    requires cfg.plan.Valid() && 0 < start <= before <= e.now
    requires SignalConsistent(cfg, start, s.signal, s.ped, before) && PedConsistent(s.ped, before)
    ensures var t := Step(cfg, s, e);
            SignalConsistent(cfg, start, t.signal, t.ped, e.now) && PedConsistent(t.ped, e.now)
  {
    hide Step, Desired, Filter, NextCall;
    if !e.Ticked? {
      QuietStep(cfg, s, e);
    } else if Step(cfg, s, e).watch.mode.AllRedFlash? {
      FlashStep(cfg, s, e);
    } else if Serving(cfg, s.ped, e.now) {
      ServingStep(cfg, s, e);
    } else {
      IdleStep(cfg, s, e);
    }
  }

  lemma {:induction false} ReachableConsistent(r: Run, n: nat)
    requires r.Valid() && n <= |r.events|
    ensures Consistent(r.cfg, r.start, r.states[n], r.Since(n))
  {
    hide Step;
    if n > 0 {
      ReachableConsistent(r, n - 1);
      assert r.Linked(n - 1);
      assert r.start <= r.Since(n - 1) <= r.Since(n);
      WatchStepConsistent(r.cfg, r.start, r.states[n - 1], r.Since(n - 1), r.events[n - 1]);
      SignalStepConsistent(r.cfg, r.start, r.states[n - 1], r.Since(n - 1), r.events[n - 1]);
    }
  }

  /** Event `i` turns the signal to a walk. */
  predicate BeginsWalk(r: Run, i: nat)
    requires i < |r.events| && |r.states| == |r.events| + 1
  {
    IsWalk(r.states[i + 1].signal.phase) && r.states[i].signal.phase != r.states[i + 1].signal.phase
  }

  /** When the guard of the last walk begun among the first `n` events runs out; 0 without one. */
  function GuardUntil(r: Run, n: nat): int
    requires |r.states| == |r.events| + 1 && n <= |r.events|
  {
    if n == 0 then 0
    else if BeginsWalk(r, n - 1) then r.events[n - 1].now + r.cfg.pedClearanceMin
    else GuardUntil(r, n - 1)
  }

  lemma TickCommands(cfg: Config, s: State, e: Event)
    requires cfg.plan.Valid() && e.Ticked?
    ensures var t := Step(cfg, s, e); t.signal == Command(cfg, s.signal, t.signal.phase, e.now)
  {
    hide Desired, Filter, CheckStaleness;
  }

  /** The stored guard is that of the last walk: nothing else starts or ends it. */
  lemma {:induction false} GuardIsLastWalk(r: Run, n: nat)
    requires r.Valid() && n <= |r.events|
    ensures r.states[n].signal.clearanceUntil == GuardUntil(r, n)
  {
    hide Step;
    if n > 0 {
      GuardIsLastWalk(r, n - 1);
      assert r.Linked(n - 1);
      if r.events[n - 1].Ticked? {
        TickCommands(r.cfg, r.states[n - 1], r.events[n - 1]);
      } else {
        QuietStep(r.cfg, r.states[n - 1], r.events[n - 1]);
      }
    }
  }
}
