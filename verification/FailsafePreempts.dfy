/** Emergency preempts over whole runs: how long one can wait, and when one can be replaced. */
module FailsafePreempts {
  import opened Options
  import opened Phases
  import opened Requests
  import opened FailsafeModel
  import opened FailsafeRuns

  /** The same request is armed in all the states `i..j`, none of them in ALL_RED_FLASH. */
  ghost predicate Holds(r: Run, request: PreemptRequest, i: nat, j: nat)
    requires r.Valid() && j <= |r.events|
  {
    && (forall k :: i <= k <= j ==> r.states[k].slot.request == Some(request))
    && r.NoFlash(i, j)
  }

  // ---- armed while no pedestrian phase is in flight ----

  /** From `a` on no phase starts that could hold the preempt back: either the preempt phase is
      commanded, or the phase and both hold times are those found at `a`. */
  predicate OnlyOldHolds(s: Signal, ped: Ped, request: PreemptRequest, armed: Signal) {
    && ped.state.NoPed? && ped.approach.None?
    && s.clearanceUntil == armed.clearanceUntil
    && (s == armed || s.phase == PreemptFor(request.approach))
  }

  /** One event after arming with the pedestrian machine free. */
  lemma FreeStep(r: Run, request: PreemptRequest, armed: Signal, j: nat)
    requires r.Valid() && j < |r.events| && Holds(r, request, j, j + 1)
    requires OnlyOldHolds(r.states[j].signal, r.states[j].ped, request, armed)
    ensures OnlyOldHolds(r.states[j + 1].signal, r.states[j + 1].ped, request, armed)
    ensures r.events[j].Ticked? && armed.clearanceUntil <= r.events[j].now
            && (IsGreen(armed.phase) ==> armed.enteredAt + r.cfg.minGreen <= r.events[j].now)
            ==> r.states[j + 1].signal.phase == PreemptFor(request.approach)
  {
    hide Step, NextCall;
    ReachableConsistent(r, j);
    assert r.Linked(j);
    if r.events[j].Ticked? {
      IdleStep(r.cfg, r.states[j], r.events[j]);
    } else {
      QuietStep(r.cfg, r.states[j], r.events[j]);
    }
  }

  lemma {:induction false} FreeFrom(r: Run, request: PreemptRequest, a: nat, j: nat)
    requires r.Valid() && a <= j <= |r.events| && Holds(r, request, a, j)
    requires r.states[a].ped.state.NoPed?
    ensures OnlyOldHolds(r.states[j].signal, r.states[j].ped, request, r.states[a].signal)
    decreases j
  {
    hide Step;
    ReachableConsistent(r, a);
    if a < j {
      FreeFrom(r, request, a, j - 1);
      FreeStep(r, request, r.states[a].signal, j - 1);
    }
  }

  /** A preempt in force from state `a` on, with no pedestrian phase in flight at `a`: every tick
      from max(minimum green, pedestrian clearance) later commands it, at any tick rate. */
  lemma PreemptServedWhenFree(r: Run, request: PreemptRequest, a: nat, j: nat)
    requires r.Valid() && a <= j < |r.events| && Holds(r, request, a, j + 1)
    requires r.states[a].ped.state.NoPed?
    requires r.events[j].Ticked?
    requires r.Since(a) + r.cfg.minGreen <= r.events[j].now
    requires r.Since(a) + r.cfg.pedClearanceMin <= r.events[j].now
    ensures r.states[j + 1].signal.phase == PreemptFor(request.approach)
  {
    hide Step;
    ReachableConsistent(r, a);
    FreeFrom(r, request, a, j);
    FreeStep(r, request, r.states[a].signal, j);
  }

  /** With no service in flight, a tick outside ALL_RED_FLASH shows the preempt in force exactly when it is
      shown already, or the guard of the last walk has run out and the crossing green, if that is on, has
      had its minimum. The green of its own approach gives way at any age. */
  lemma PreemptNextExactly(r: Run, i: nat, a: Approach)
    requires r.Valid() && i < |r.events| && r.events[i].Ticked? && !r.states[i + 1].watch.mode.AllRedFlash?
    requires r.states[i].ped.state.NoPed?
    requires r.states[i + 1].slot.request.Some? && r.states[i + 1].slot.request.value.approach == a
    ensures var signal, now := r.states[i].signal, r.events[i].now;
            r.states[i + 1].signal.phase == PreemptFor(a) <==>
              || signal.phase == PreemptFor(a)
              || (GuardUntil(r, i) <= now
                  && (signal.phase == GreenFor(Across(a)) ==> signal.enteredAt + r.cfg.minGreen <= now))
  {
    hide Step, NextCall;
    ReachableConsistent(r, i);
    GuardIsLastWalk(r, i);
    assert r.Linked(i);
    assert 0 < r.events[i].now;
    IdleStep(r.cfg, r.states[i], r.events[i]);
  }

  // ---- armed while a pedestrian phase is in flight ----

  /** While a preempt waits for the service in flight at `a`. */
  ghost predicate Waiting(r: Run, request: PreemptRequest, a: nat, j: nat, p: nat)
    requires r.Valid() && a <= j <= |r.events|
  {
    var limit := r.Since(a) + r.cfg.LongestWalk() + r.cfg.pedClearanceMin;
    var s := r.states[j];
    && s.signal.clearanceUntil <= limit
    && (s.ped.state.NoPed? ==> !IsGreen(s.signal.phase))
    && (s.ped.state.Walking? ==>
          s.ped.startedAt <= r.Since(a) && r.LastTick(j) < r.Since(a) + r.cfg.LongestWalk())
    && (!s.ped.state.NoPed? ==> ServiceDeadline(r.cfg, s.ped, r.LastTick(j), p) <= limit + 2 * p)
  }

  lemma WaitingStep(r: Run, request: PreemptRequest, a: nat, j: nat, p: nat)
    requires r.Valid() && a <= j < |r.events| && Holds(r, request, a, j + 1)
    requires Waiting(r, request, a, j, p) && r.TicksWithin(p, j + 1)
    ensures Waiting(r, request, a, j + 1, p)
    ensures r.events[j].Ticked? && r.Since(a) + r.cfg.LongestWalk() + r.cfg.pedClearanceMin + 2 * p <= r.events[j].now
            ==> r.states[j + 1].signal.phase == PreemptFor(request.approach)
                || !r.states[j + 1].ped.state.NoPed?
    ensures r.events[j].Ticked? && !r.states[j + 1].ped.state.NoPed?
            ==> r.events[j].now < r.Since(a) + r.cfg.LongestWalk() + r.cfg.pedClearanceMin + 2 * p
  {
    hide Step, NextCall, CheckStaleness, ExpirePreempt, ScheduledPhase, WatchConsistent, SafeBoundaryForPed;
    ReachableConsistent(r, j);
    LastTickBounds(r, j);
    assert r.Linked(j);
    var s, e := r.states[j], r.events[j];
    if !e.Ticked? {
      QuietStep(r.cfg, s, e);
    } else if Serving(r.cfg, s.ped, e.now) {
      assert e.now <= r.LastTick(j) + p;
      ServingStep(r.cfg, s, e);
    } else {
      IdleStep(r.cfg, s, e);
    }
  }

  lemma {:induction false} WaitingFrom(r: Run, request: PreemptRequest, a: nat, j: nat, p: nat)
    requires r.Valid() && a <= j <= |r.events| && Holds(r, request, a, j)
    requires !r.states[a].ped.state.NoPed? && r.TicksWithin(p, j)
    ensures Waiting(r, request, a, j, p)
    decreases j
  {
    hide Step;
    if a == j {
      ReachableConsistent(r, a);
      LastTickBounds(r, a);
    } else {
      WaitingFrom(r, request, a, j - 1, p);
      WaitingStep(r, request, a, j - 1, p);
    }
  }

  /** A preempt in force from state `a` on while a pedestrian phase is in flight: every tick from
      longest walk + clearance + two tick periods later commands it. Minimum green plays no part. */
  lemma PreemptServedAfterPedestrians(r: Run, request: PreemptRequest, a: nat, j: nat, p: nat)
    requires r.Valid() && a <= j < |r.events| && Holds(r, request, a, j + 1)
    requires !r.states[a].ped.state.NoPed? && r.TicksWithin(p, j + 1)
    requires r.events[j].Ticked?
    requires r.Since(a) + r.cfg.LongestWalk() + r.cfg.pedClearanceMin + 2 * p <= r.events[j].now
    ensures r.states[j + 1].signal.phase == PreemptFor(request.approach)
  {
    hide Step;
    WaitingFrom(r, request, a, j, p);
    WaitingStep(r, request, a, j, p);
  }

  /** The bounded response: a preempt in force from state `a` on, the mode never ALL_RED_FLASH and
      ticks at most `p` apart, is commanded by every tick from the bound on, whatever decisions,
      pedestrian calls and mode changes arrive. */
  lemma PreemptBoundedResponse(r: Run, request: PreemptRequest, a: nat, j: nat, p: nat)
    requires r.Valid() && a <= j < |r.events| && Holds(r, request, a, j + 1)
    requires r.TicksWithin(p, j + 1) && r.events[j].Ticked?
    requires r.Since(a) + Max(r.cfg.minGreen, r.cfg.LongestWalk() + r.cfg.pedClearanceMin + 2 * p) <= r.events[j].now
    ensures request.approach == NorthSouth ==> r.states[j + 1].signal.phase == EvPreemptNs
    ensures request.approach == EastWest ==> r.states[j + 1].signal.phase == EvPreemptEw
  {
    if r.states[a].ped.state.NoPed? {
      PreemptServedWhenFree(r, request, a, j);
    } else {
      PreemptServedAfterPedestrians(r, request, a, j, p);
    }
  }

  // ---- who can change the slot ----

  /** Fire and rescue before ambulances, these before police, and all before transit; equals do not
      replace each other. */
  lemma RanksExactly(a: Priority, b: Priority)
    ensures Rank(a) < Rank(b) <==>
            || (a.Transit? && !b.Transit?)
            || (a.Police? && (b.Ambulance? || b.FireRescue?))
            || (a.Ambulance? && b.FireRescue?)
  {
  }

  predicate Outranks(cfg: Config, slot: Slot, e: Event)
    requires slot.request.Some?
  {
    && e.PreemptArrives? && e.preempt.Parsed?
    && e.preempt.message.intersectionId == cfg.intersectionId && e.now < e.preempt.message.validUntil
    && Rank(slot.request.value.priority) < Rank(e.preempt.message.priority)
  }

  predicate Released(cfg: Config, s: State, e: Event)
    requires s.slot.request.Some?
  {
    var request := s.slot.request.value;
    || (e.Ticked? && request.validUntil <= e.now && !CheckStaleness(cfg, s.watch, e.now).mode.AllRedFlash?)
    || (e.PreemptCleared? && e.approach == request.approach && s.slot.armedAt + cfg.preemptMinDwell <= e.now)
  }

  /** An armed preempt leaves the slot in exactly three ways: a valid request of strictly higher rank
      takes its place, it is expired at a tick outside ALL_RED_FLASH, or it is cleared for its own
      approach after the minimum dwell. */
  lemma SlotChangesExactly(cfg: Config, s: State, e: Event)
    requires cfg.plan.Valid() && s.slot.request.Some?
    ensures Step(cfg, s, e).slot
            == if Outranks(cfg, s.slot, e) then Slot(Some(e.preempt.message), e.now)
               else if Released(cfg, s, e) then Slot(None, 0)
               else s.slot
  {
    hide CheckStaleness, DesiredWhenIdle, ContinuePed, Filter, Transition;
  }

  /** With nothing armed, a request is armed exactly when it is addressed here and unexpired. */
  lemma EmptySlotFills(cfg: Config, s: State, e: Event)
    requires cfg.plan.Valid() && s.slot == Slot(None, 0)
    ensures var slot := Step(cfg, s, e).slot;
            if && e.PreemptArrives? && e.preempt.Parsed?
               && e.preempt.message.intersectionId == cfg.intersectionId && e.now < e.preempt.message.validUntil
            then slot == Slot(Some(e.preempt.message), e.now)
            else slot == s.slot
  {
    hide CheckStaleness, DesiredWhenIdle, ContinuePed, Filter, Transition;
  }
}
