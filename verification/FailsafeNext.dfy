/** What the next tick commands, read off the state before it: mode, preempt, queue, schedule, clock. */
module FailsafeNext {
  import opened Phases
  import opened Requests
  import opened FailsafeModel
  import opened FailsafeRuns

  /** A tick at `now` finds no decision young enough. */
  predicate Stale(cfg: Config, w: Watch, now: int) {
    w.mode.AiAdaptive? && (w.lastAcceptedAt == 0 || now - w.lastAcceptedAt > cfg.maxAiStaleness)
  }

  /** A tick at `now` runs in ALL_RED_FLASH: it is the mode, or the watchdog's drop is one too many. */
  predicate Flashes(cfg: Config, w: Watch, now: int) {
    || w.mode.AllRedFlash?
    || (Stale(cfg, w, now) && |Evict(w.drops, now - cfg.flapWindow)| + 1 >= cfg.flapThreshold)
  }

  /** The decision that a tick at `now` follows, if it follows one. */
  predicate Follows(cfg: Config, w: Watch, now: int, p: Phase) {
    && w.mode.AiAdaptive? && !Stale(cfg, w, now)
    && w.lastAccepted.Some? && w.lastAccepted.value.commandedPhase == p
  }

  /** A decision that passes the gate at `now`, whatever was accepted before it with a smaller id. */
  predicate Sound(cfg: Config, d: Decision, now: int) {
    && d.intersectionId == cfg.intersectionId && !cfg.signatureRequired
    && d.producerTimestamp <= now + cfg.clockSkewTolerance && now < d.validUntil
  }

  /** What plan or decision ask for at `now`; the plan starts afresh when the watchdog drops to it. */
  function Schedule(cfg: Config, w: Watch, now: int): Phase
    requires cfg.plan.Valid()
  {
    if w.mode.FixedTime? then cfg.plan.PhaseAt(now - w.modeEnteredAt)
    else if Stale(cfg, w, now) then cfg.plan.PhaseAt(0)
    else if w.lastAccepted.Some? then w.lastAccepted.value.commandedPhase
    else AllRed
  }

  predicate PreemptLive(slot: Slot, now: int) {
    slot.request.Some? && now < slot.request.value.validUntil
  }

  predicate Young(cfg: Config, signal: Signal, now: int) {
    IsGreen(signal.phase) && now - signal.enteredAt < cfg.minGreen
  }

  predicate CallStarts(cfg: Config, s: State, now: int) {
    s.ped.queue != [] && !Young(cfg, s.signal, now)
  }

  /** What serving a call commands first: its clearance when its minimum walk is zero. */
  function FirstPhase(cfg: Config, call: PedCall): Phase {
    if 0 < cfg.WalkMin(call.accessibility) then WalkFor(call.approach) else ClearanceFor(call.approach)
  }

  function NextServed(queue: seq<PedCall>): PedCall
    requires queue != []
  {
    queue[NextCall(queue)]
  }

  function ServedPhase(cfg: Config, ped: Ped, now: int): Phase
    requires ped.approach.Some?
  {
    if ped.state.Walking? && now - ped.startedAt < cfg.WalkMin(ped.accessible)
    then WalkFor(ped.approach.value)
    else ClearanceFor(ped.approach.value)
  }

  /** Nothing stands above the schedule at this tick. */
  predicate Free(cfg: Config, s: State, now: int) {
    && !Flashes(cfg, s.watch, now) && !Serving(cfg, s.ped, now)
    && !PreemptLive(s.slot, now) && !CallStarts(cfg, s, now)
  }

  /** What becomes of a wish while no service is in flight. */
  function Held(cfg: Config, signal: Signal, wish: Phase, now: int): Phase {
    if wish.FlashingRed? then FlashingRed
    else if now < signal.clearanceUntil then signal.phase
    else if Young(cfg, signal, now) && !SameDirection(signal.phase, wish) then signal.phase
    else if IsGreen(wish) && IsGreen(signal.phase) && wish != signal.phase then YellowOf(signal.phase)
    else wish
  }

  function YellowOf(green: Phase): Phase {
    if green.NsGreen? then NsYellow else EwYellow
  }

  function NextPhase(cfg: Config, s: State, now: int): Phase
    requires cfg.plan.Valid()
  {
    if Flashes(cfg, s.watch, now) then FlashingRed
    else if Serving(cfg, s.ped, now) then ServedPhase(cfg, s.ped, now)
    else if PreemptLive(s.slot, now) then Held(cfg, s.signal, PreemptFor(s.slot.request.value.approach), now)
    else if CallStarts(cfg, s, now) then FirstPhase(cfg, NextServed(s.ped.queue))
    else Held(cfg, s.signal, Schedule(cfg, s.watch, now), now)
  }

  /** The watchdog's outcome in those terms. */
  lemma WatchdogOutcome(cfg: Config, w: Watch, now: int)
    requires cfg.plan.Valid()
    ensures var v := CheckStaleness(cfg, w, now);
            && (v.mode.AllRedFlash? <==> Flashes(cfg, w, now))
            && (!v.mode.AllRedFlash? ==> ScheduledPhase(cfg, v, now) == Schedule(cfg, w, now))
  {
    var t := now - cfg.flapWindow;
    var kept := Evict(w.drops, t);
    EvictStops(w.drops, t);
    assert kept == [] ==> kept + [now] == [now];
    assert Evict(kept + [now], t) == kept + [now];
  }

  lemma {:induction false} EvictStops(times: seq<int>, t: int)
    ensures Evict(times, t) != [] ==> t <= Evict(times, t)[0]
  {
    if times != [] && times[0] < t { EvictStops(times[1..], t); }
  }

  lemma FilterHolds(cfg: Config, mode: Mode, signal: Signal, wish: Phase, now: int)
    requires !mode.AllRedFlash? && 0 < now
    ensures Filter(cfg, mode, NoPed, signal, wish, now) == Held(cfg, signal, wish, now)
  {
  }

  predicate Known(cfg: Config, start: int, s: State, before: int, now: int) {
    cfg.plan.Valid() && 0 < start <= before <= now && Consistent(cfg, start, s, before)
  }

  /** The phase a tick commands, without running it. */
  lemma TickShows(cfg: Config, start: int, s: State, before: int, now: int)
    requires Known(cfg, start, s, before, now)
    ensures Tick(cfg, s, now).signal.phase == NextPhase(cfg, s, now)
  {
    hide Step, CheckStaleness, Desired, Filter, NextCall, Flashes, Schedule, Held, ScheduledPhase;
    var e := Ticked(now);
    assert Step(cfg, s, e) == Tick(cfg, s, now) by { StepTicks(cfg, s, now); }
    WatchdogOutcome(cfg, s.watch, now);
    assert Tick(cfg, s, now).watch == CheckStaleness(cfg, s.watch, now);
    if Flashes(cfg, s.watch, now) {
      FlashStep(cfg, s, e);
    } else if Serving(cfg, s.ped, now) {
      ServingStep(cfg, s, e);
    } else {
      IdleStep(cfg, s, e);
      var w := CheckStaleness(cfg, s.watch, now);
      FilterHolds(cfg, w.mode, s.signal, IdleWish(cfg, w, ExpirePreempt(s.slot, now), now), now);
    }
  }

  lemma StepTicks(cfg: Config, s: State, now: int)
    requires cfg.plan.Valid()
    ensures Step(cfg, s, Ticked(now)) == Tick(cfg, s, now)
  {
  }

  /** What event `i` of a run commands: a tick the phase read off before it, any other event nothing new. */
  lemma EventShows(r: Run, i: nat)
    requires r.Valid() && i < |r.events|
    ensures r.states[i + 1].signal.phase
            == if r.events[i].Ticked? then NextPhase(r.cfg, r.states[i], r.events[i].now) else r.states[i].signal.phase
  {
    hide Step, NextPhase, Tick;
    assert r.Linked(i);
    ReachableConsistent(r, i);
    assert r.Since(i) <= r.events[i].now && r.start <= r.Since(i);
    if r.events[i].Ticked? {
      StepTicks(r.cfg, r.states[i], r.events[i].now);
      TickShows(r.cfg, r.start, r.states[i], r.Since(i), r.events[i].now);
    } else {
      QuietStep(r.cfg, r.states[i], r.events[i]);
    }
  }

  lemma EventFacts(r: Run, i: nat)
    requires r.Valid() && i < |r.events|
    ensures Known(r.cfg, r.start, r.states[i], r.Since(i), r.events[i].now)
    ensures if r.events[i].Ticked? then r.states[i + 1] == Tick(r.cfg, r.states[i], r.events[i].now)
            else r.states[i + 1].signal == r.states[i].signal
  {
    hide Step, Tick, Consistent;
    assert r.Linked(i);
    ReachableConsistent(r, i);
    if r.events[i].Ticked? {
      StepTicks(r.cfg, r.states[i], r.events[i].now);
    } else {
      QuietStep(r.cfg, r.states[i], r.events[i]);
    }
  }

  // ---- how long a phase stays on display ----

  /** The reasons to keep the phase on display: the service in flight or the call that is taken up
      shows it; a live preempt is held back by the guard kept for unmanaged walks, or asks for it;
      or nothing stands above the schedule, and plan or decision ask for it or the guard holds them. */
  predicate KeepsDisplay(cfg: Config, s: State, now: int)
    requires cfg.plan.Valid()
  {
    var phase, guarded := s.signal.phase, now < s.signal.clearanceUntil;
    && !Flashes(cfg, s.watch, now)
    && if Serving(cfg, s.ped, now) then ServedPhase(cfg, s.ped, now) == phase
       else if PreemptLive(s.slot, now) then guarded || PreemptFor(s.slot.request.value.approach) == phase
       else if s.ped.queue != [] then FirstPhase(cfg, NextServed(s.ped.queue)) == phase
       else
         var wish := Schedule(cfg, s.watch, now);
         wish == phase || (guarded && !wish.FlashingRed?)
  }

  /** A phase whose length is not protected by minimum green, nor for ever by ALL_RED_FLASH. */
  predicate Unprotected(p: Phase) {
    !IsGreen(p) && !p.FlashingRed?
  }

  /** Yellow, all-red, walk, clearance and preempt stay for exactly those reasons: how long they
      have been shown plays no part. */
  lemma DisplayStaysExactly(cfg: Config, start: int, s: State, before: int, now: int)
    requires Known(cfg, start, s, before, now) && Unprotected(s.signal.phase)
    ensures Tick(cfg, s, now).signal.phase == s.signal.phase <==> KeepsDisplay(cfg, s, now)
  {
    hide Tick, Flashes, Schedule, NextCall;
    TickShows(cfg, start, s, before, now);
  }

  /** The phase of state `k` is on display in every state up to `n` that comes about before `end`. */
  predicate ShownUntil(r: Run, k: nat, n: nat, end: int)
    requires k <= n <= |r.events| < |r.states|
  {
    forall e :: k <= e < n && r.events[e].now < end ==> r.states[e + 1].signal.phase == r.states[k].signal.phase
  }

  ghost predicate TicksKeepDisplay(r: Run, k: nat, n: nat, end: int)
    requires r.Valid() && k <= n <= |r.events|
  {
    forall e :: k <= e < n && r.events[e].now < end && r.events[e].Ticked?
      ==> KeepsDisplay(r.cfg, r.states[e], r.events[e].now)
  }

  /** Such a phase lasts a given time exactly when every tick within that time has one of those
      reasons to keep it. */
  lemma {:induction false} LastsExactly(r: Run, k: nat, n: nat, end: int)
    requires r.Valid() && k <= n <= |r.events| && Unprotected(r.states[k].signal.phase)
    ensures ShownUntil(r, k, n, end) <==> TicksKeepDisplay(r, k, n, end)
    decreases n
  {
    hide Step, ShownUntil, TicksKeepDisplay, KeepsDisplay;
    if k == n {
      LastsNoEvent(r, k, end);
    } else {
      LastsExactly(r, k, n - 1, end);
      ShownOneMore(r, k, n - 1, end);
      KeptOneMore(r, k, n - 1, end);
      if ShownUntil(r, k, n - 1, end) && r.events[n - 1].now < end {
        StaysInRun(r, n - 1);
      }
    }
  }

  lemma LastsNoEvent(r: Run, k: nat, end: int)
    requires r.Valid() && k <= |r.events|
    ensures ShownUntil(r, k, k, end) && TicksKeepDisplay(r, k, k, end)
  {
  }

  lemma ShownOneMore(r: Run, k: nat, n: nat, end: int)
    requires r.Valid() && k <= n < |r.events|
    ensures ShownUntil(r, k, n + 1, end) <==>
            && ShownUntil(r, k, n, end)
            && (r.events[n].now < end ==> r.states[n + 1].signal.phase == r.states[k].signal.phase)
    ensures ShownUntil(r, k, n, end) && r.events[n].now < end ==>
              r.states[n].signal.phase == r.states[k].signal.phase
  {
    hide Step;
    if k < n { assert r.events[n - 1].now <= r.events[n].now; }
  }

  lemma KeptOneMore(r: Run, k: nat, n: nat, end: int)
    requires r.Valid() && k <= n < |r.events|
    ensures TicksKeepDisplay(r, k, n + 1, end) <==>
            && TicksKeepDisplay(r, k, n, end)
            && (r.events[n].now < end && r.events[n].Ticked? ==> KeepsDisplay(r.cfg, r.states[n], r.events[n].now))
  {
    hide Step, KeepsDisplay;
  }

  lemma StaysInRun(r: Run, e: nat)
    requires r.Valid() && e < |r.events| && Unprotected(r.states[e].signal.phase)
    ensures r.states[e + 1].signal.phase == r.states[e].signal.phase <==>
            (r.events[e].Ticked? ==> KeepsDisplay(r.cfg, r.states[e], r.events[e].now))
  {
    hide Step, Tick, Consistent, KeepsDisplay;
    EventFacts(r, e);
    if r.events[e].Ticked? {
      DisplayStaysExactly(r.cfg, r.start, r.states[e], r.Since(e), r.events[e].now);
    }
  }
}
