/** The controller itself: an object whose methods update its fields in place. Its ghost `run`
    records every event, so what is proved about runs holds of every object of this class. */
module FailsafeControllers {
  import opened Options
  import opened Phases
  import opened Requests
  import opened FixedTimePlans
  import M = FailsafeModel
  import opened FailsafeRuns

  class FailsafeController {
    const cfg: M.Config
    ghost var run: Run

    var mode: M.Mode
    var modeEnteredAt: int
    var lastAccepted: Option<Decision>
    var lastAcceptedAt: int
    var lastAcceptedId: Option<int>
    var consecutiveInvalid: int
    var consecutiveValid: int
    var lastCommandedPhase: Phase
    var phaseEnteredAt: int
    var pedClearanceUntil: int
    var failsafeTransitions: seq<int>
    var activePreempt: Option<PreemptRequest>
    var preemptArmedAt: int
    var pedQueue: seq<PedCall>
    var pedPhaseState: M.PedState
    var pedPhaseApproach: Option<Approach>
    var pedPhaseStartedAt: int
    var pedPhaseAccessibility: bool

    // ---- the object's value ----

    ghost function Watch(): M.Watch
      reads this
    {
      M.Watch(mode, modeEnteredAt, lastAccepted, lastAcceptedAt, lastAcceptedId,
              consecutiveInvalid, consecutiveValid, failsafeTransitions)
    }

    ghost function Signal(): M.Signal
      reads this
    {
      M.Signal(lastCommandedPhase, phaseEnteredAt, pedClearanceUntil)
    }

    ghost function Slot(): M.Slot
      reads this
    {
      M.Slot(activePreempt, preemptArmedAt)
    }

    ghost function Ped(): M.Ped
      reads this
    {
      M.Ped(pedQueue, pedPhaseState, pedPhaseApproach, pedPhaseStartedAt, pedPhaseAccessibility)
    }

    ghost function Value(): M.State
      reads this
    {
      M.State(Watch(), Signal(), Slot(), Ped())
    }

    ghost predicate Valid()
      reads this
    {
      run.Valid() && run.cfg == cfg && Value() == run.states[|run.events|]
    }

    /** The clock reading of the latest event. */
    ghost function Clock(): int
      reads this
      requires Valid()
    {
      run.Since(|run.events|)
    }

    constructor (cfg: M.Config, now: int)
      requires cfg.plan.Valid() && 0 < now
      ensures Valid() && this.cfg == cfg
      ensures run == Run(cfg, now, [], [M.Init(cfg, now)])
    {
      this.cfg := cfg;
      mode, modeEnteredAt := M.FixedTime, now;
      lastAccepted, lastAcceptedAt, lastAcceptedId := None, 0, None;
      consecutiveInvalid, consecutiveValid := 0, 0;
      lastCommandedPhase := cfg.plan.PhaseAt(0);
      phaseEnteredAt, pedClearanceUntil := now, 0;
      failsafeTransitions := [];
      activePreempt, preemptArmedAt := None, 0;
      pedQueue, pedPhaseState, pedPhaseApproach := [], M.NoPed, None;
      pedPhaseStartedAt, pedPhaseAccessibility := 0, false;
      run := Run(cfg, now, [], [M.Init(cfg, now)]);
    }

    /** Close an event: the fields already hold the next state. */
    ghost method Record(e: M.Event)
      requires run.Valid() && run.cfg == cfg && run.Since(|run.events|) <= e.now
      requires Value() == M.Step(cfg, run.states[|run.events|], e)
      modifies `run
      ensures Valid() && run == Extend(old(run), e)
    {
      hide M.Step;
      ExtendIsRun(run, e);
      run := Extend(run, e);
    }

    // ---- events ----

    method SubmitDecision(raw: Raw<Decision>, now: int) returns (accepted: bool, modeAfter: M.Mode)
      requires Valid() && Clock() <= now
      modifies this
      ensures Valid() && run == Extend(old(run), M.DecisionArrives(now, raw))
      ensures accepted == M.Accepts(cfg, old(Watch()), raw, now)
      ensures modeAfter == mode
    {
      accepted := JudgeDecision(raw, now);
      modeAfter := mode;
      Record(M.DecisionArrives(now, raw));
    }

    method Tick(now: int) returns (commanded: Phase)
      requires Valid() && Clock() <= now
      modifies this
      ensures Valid() && run == Extend(old(run), M.Ticked(now))
      ensures commanded == run.states[|run.events|].signal.phase
    {
      commanded := Advance(now);
      Record(M.Ticked(now));
    }

    method SubmitPreempt(raw: Raw<PreemptRequest>, now: int) returns (accepted: bool)
      requires Valid() && Clock() <= now
      modifies this
      ensures Valid() && run == Extend(old(run), M.PreemptArrives(now, raw))
      ensures accepted == M.PreemptArms(cfg, old(Slot()), raw, now)
    {
      accepted := false;
      match raw {
        case Malformed(_) =>
        case Parsed(request) =>
          var verdict := ValidateTimed(request.intersectionId, request.validUntil, cfg.intersectionId, now);
          if verdict.Ok? {
            if activePreempt.None? || Rank(activePreempt.value.priority) < Rank(request.priority) {
              activePreempt := Some(request);
              preemptArmedAt := now;
              accepted := true;
            }
          }
      }
      Record(M.PreemptArrives(now, raw));
    }

    method SubmitPreemptClear(approach: Approach, now: int)
      requires Valid() && Clock() <= now
      modifies this
      ensures Valid() && run == Extend(old(run), M.PreemptCleared(now, approach))
    {
      if activePreempt.Some? && activePreempt.value.approach == approach {
        if now - preemptArmedAt >= cfg.preemptMinDwell {
          activePreempt := None;
          preemptArmedAt := 0;
        }
      }
      Record(M.PreemptCleared(now, approach));
    }

    method SubmitPedCall(raw: Raw<PedCall>, now: int) returns (accepted: bool)
      requires Valid() && Clock() <= now
      modifies this
      ensures Valid() && run == Extend(old(run), M.PedCallArrives(now, raw))
      ensures accepted == (raw.Parsed? && M.PedVerdict(cfg, raw, now).Ok?)
    {
      accepted := false;
      match raw {
        case Malformed(_) =>
        case Parsed(call) =>
          var verdict := ValidateTimed(call.intersectionId, call.validUntil, cfg.intersectionId, now);
          if verdict.Ok? {
            var existing := M.FindCall(pedQueue, call.approach);
            if existing.None? || (call.accessibility && !pedQueue[existing.value].accessibility) {
              pedQueue := M.PutCall(pedQueue, call);
            }
            accepted := true;
          }
      }
      Record(M.PedCallArrives(now, raw));
    }

    method ForceMode(target: M.Mode, now: int)
      requires Valid() && Clock() <= now
      modifies this
      ensures Valid() && run == Extend(old(run), M.ModeForced(now, target))
    {
      Transition(target, true, now);
      Record(M.ModeForced(now, target));
    }

    method ReportHardwareFault(now: int)
      requires Valid() && Clock() <= now
      modifies this
      ensures Valid() && run == Extend(old(run), M.HardwareFault(now))
    {
      Transition(M.AllRedFlash, false, now);
      Record(M.HardwareFault(now));
    }

    /** Reading the status evicts old flaps on the way. */
    method Status(now: int) returns (report: M.Report)
      requires Valid() && Clock() <= now
      modifies this
      ensures Valid() && run == Extend(old(run), M.StatusRead(now))
      ensures report == M.ReportOf(cfg, old(Value()), now)
    {
      var age := if lastAcceptedAt == 0 then None else Some(now - lastAcceptedAt);
      EvictOldTransitions(now);
      report := M.Report(mode, now - modeEnteredAt, lastAcceptedId, age, lastCommandedPhase, consecutiveInvalid,
                         consecutiveValid, |failsafeTransitions|);
      Record(M.StatusRead(now));
    }

    // ---- internals ----

    method JudgeDecision(raw: Raw<Decision>, now: int) returns (accepted: bool)
      modifies `mode, `modeEnteredAt, `consecutiveValid, `consecutiveInvalid, `failsafeTransitions,
               `lastAccepted, `lastAcceptedAt, `lastAcceptedId
      ensures Watch() == M.SubmitDecision(cfg, old(Watch()), raw, now)
      ensures accepted == M.Accepts(cfg, old(Watch()), raw, now)
    {
      hide M.OnInvalid, M.MaybeRecover;
      if raw.Malformed? {
        OnInvalid(now);
        return false;
      }
      var m := raw.message;
      var verdict := ValidateDecision(m, cfg.intersectionId, lastAcceptedId, now,
                                      cfg.clockSkewTolerance, cfg.signatureRequired);
      if !verdict.Ok? {
        OnInvalid(now);
        return false;
      }
      lastAccepted := Some(m);
      lastAcceptedAt := now;
      lastAcceptedId := Some(m.decisionId);
      consecutiveInvalid := 0;
      if mode.FixedTime? {
        consecutiveValid := consecutiveValid + 1;
        MaybeRecoverToAi(now);
      } else if mode.AiAdaptive? {
        consecutiveValid := 0;
      }
      return true;
    }

    method Advance(now: int) returns (commanded: Phase)
      requires cfg.plan.Valid()
      modifies this
      ensures run == old(run)
      ensures Value() == M.Tick(cfg, old(Value()), now)
      ensures commanded == lastCommandedPhase
    {
      hide M.CheckStaleness, M.Desired, M.Filter;
      ghost var before := Value();
      CheckStaleness(now);
      assert Value() == before.(watch := M.CheckStaleness(cfg, before.watch, now));
      var desired := DesiredPhase(now);
      commanded := ApplySafetyFilter(desired, now);
      if commanded != lastCommandedPhase {
        OnPhaseChange(commanded, now);
      }
    }

    method EvictOldTransitions(now: int)
      modifies `failsafeTransitions
      ensures failsafeTransitions == M.Evict(old(failsafeTransitions), now - cfg.flapWindow)
    {
      var threshold := now - cfg.flapWindow;
      while failsafeTransitions != [] && failsafeTransitions[0] < threshold
        invariant M.Evict(failsafeTransitions, threshold) == M.Evict(old(failsafeTransitions), threshold)
        decreases |failsafeTransitions|
      {
        failsafeTransitions := failsafeTransitions[1..];
      }
    }

    method Transition(target: M.Mode, byOperator: bool, now: int)
      modifies `mode, `modeEnteredAt, `consecutiveValid, `consecutiveInvalid, `failsafeTransitions
      ensures Watch() == M.Transition(cfg, old(Watch()), target, byOperator, now)
    {
      if target == mode { return; }
      if mode.AllRedFlash? && !byOperator { return; }
      var newMode := target;
      var from := mode;
      EvictOldTransitions(now);
      if from.AiAdaptive? && newMode.FixedTime? {
        failsafeTransitions := failsafeTransitions + [now];
        EvictOldTransitions(now);
        if |failsafeTransitions| >= cfg.flapThreshold {
          mode := M.FixedTime;
          modeEnteredAt := now;
          consecutiveValid := 0;
          newMode := M.AllRedFlash;
        }
      }
      mode := newMode;
      modeEnteredAt := now;
      if newMode.AiAdaptive? {
        consecutiveValid := 0;
        consecutiveInvalid := 0;
      }
    }

    method OnInvalid(now: int)
      modifies `mode, `modeEnteredAt, `consecutiveValid, `consecutiveInvalid, `failsafeTransitions
      ensures Watch() == M.OnInvalid(cfg, old(Watch()), now)
    {
      consecutiveInvalid := consecutiveInvalid + 1;
      consecutiveValid := 0;
      if mode.AiAdaptive? && consecutiveInvalid >= cfg.invalidDecisionBurst {
        Transition(M.FixedTime, false, now);
      }
    }

    method MaybeRecoverToAi(now: int)
      modifies `mode, `modeEnteredAt, `consecutiveValid, `consecutiveInvalid, `failsafeTransitions
      ensures Watch() == M.MaybeRecover(cfg, old(Watch()), now)
    {
      if now - modeEnteredAt < cfg.fixedTimeMinDwell { return; }
      if consecutiveValid < cfg.validToRecover { return; }
      Transition(M.AiAdaptive, false, now);
    }

    method CheckStaleness(now: int)
      modifies `mode, `modeEnteredAt, `consecutiveValid, `consecutiveInvalid, `failsafeTransitions
      ensures Watch() == M.CheckStaleness(cfg, old(Watch()), now)
    {
      if !mode.AiAdaptive? { return; }
      if lastAcceptedAt == 0 {
        Transition(M.FixedTime, false, now);
        return;
      }
      if now - lastAcceptedAt > cfg.maxAiStaleness {
        Transition(M.FixedTime, false, now);
      }
    }

    method DesiredPhase(now: int) returns (desired: Phase)
      requires cfg.plan.Valid()
      modifies `activePreempt, `preemptArmedAt, `pedQueue, `pedPhaseState, `pedPhaseApproach,
               `pedPhaseStartedAt, `pedPhaseAccessibility
      ensures (Slot(), Ped(), desired) == M.Desired(cfg, old(Watch()), old(Signal()), old(Slot()), old(Ped()), now)
    {
      hide M.ContinuePed, M.StartPed, M.NextCall;
      if mode.AllRedFlash? { return FlashingRed; }
      if activePreempt.Some? && now >= activePreempt.value.validUntil {
        activePreempt := None;
        preemptArmedAt := 0;
      }
      var pedPhase := ContinuePedPhase(now);
      if pedPhase.Some? { return pedPhase.value; }
      if activePreempt.Some? {
        return if activePreempt.value.approach.NorthSouth? then EvPreemptNs else EvPreemptEw;
      }
      if pedQueue != [] && IsSafeBoundaryForPed(now) {
        StartPedPhase(now);
        pedPhase := ContinuePedPhase(now);
        if pedPhase.Some? { return pedPhase.value; }
      }
      if mode.FixedTime? {
        desired := PhaseAtLoop(cfg.plan, now - modeEnteredAt);
        return;
      }
      if lastAccepted.Some? { return lastAccepted.value.commandedPhase; }
      return AllRed;
    }

    method ContinuePedPhase(now: int) returns (phase: Option<Phase>)
      modifies `pedPhaseState, `pedPhaseApproach, `pedPhaseStartedAt, `pedPhaseAccessibility
      ensures (Ped(), phase) == M.ContinuePed(cfg, old(Ped()), now)
    {
      if pedPhaseState.NoPed? || pedPhaseApproach.None? { return None; }
      var elapsed := now - pedPhaseStartedAt;
      var walkMin := if pedPhaseAccessibility then cfg.adaMinWalk else cfg.pedMinWalk;
      if pedPhaseState.Walking? {
        if elapsed < walkMin { return Some(WalkFor(pedPhaseApproach.value)); }
        pedPhaseState := M.Clearing;
        pedPhaseStartedAt := now;
        return Some(ClearanceFor(pedPhaseApproach.value));
      }
      if elapsed < cfg.pedClearanceMin { return Some(ClearanceFor(pedPhaseApproach.value)); }
      pedPhaseState := M.NoPed;
      pedPhaseApproach := None;
      pedPhaseAccessibility := false;
      return None;
    }

    predicate IsSafeBoundaryForPed(now: int)
      reads this
    {
      if IsGreen(lastCommandedPhase) then now - phaseEnteredAt >= cfg.minGreen else true
    }

    method StartPedPhase(now: int)
      requires pedQueue != []
      modifies `pedQueue, `pedPhaseState, `pedPhaseApproach, `pedPhaseStartedAt, `pedPhaseAccessibility
      ensures Ped() == M.StartPed(old(Ped()), now)
    {
      var i := M.NextCall(pedQueue);
      var call := pedQueue[i];
      pedQueue := pedQueue[..i] + pedQueue[i + 1..];
      pedPhaseState := M.Walking;
      pedPhaseApproach := Some(call.approach);
      pedPhaseStartedAt := now;
      pedPhaseAccessibility := call.accessibility;
    }

    method ApplySafetyFilter(desired: Phase, now: int) returns (phase: Phase)
      ensures phase == M.Filter(cfg, mode, pedPhaseState, Signal(), desired, now)
    {
      if mode.AllRedFlash? || desired.FlashingRed? { return FlashingRed; }
      var current := lastCommandedPhase;
      if pedPhaseState.NoPed? && pedClearanceUntil != 0 && now < pedClearanceUntil && desired != current {
        return current;
      }
      if IsGreen(current) {
        if now - phaseEnteredAt < cfg.minGreen && desired != current && !SameDirection(current, desired) {
          return current;
        }
      }
      if IsGreen(desired) && IsGreen(current) && IsConflicting(desired, current) {
        return if current.NsGreen? then NsYellow else EwYellow;
      }
      return desired;
    }

    method OnPhaseChange(newPhase: Phase, now: int)
      requires newPhase != lastCommandedPhase
      modifies `lastCommandedPhase, `phaseEnteredAt, `pedClearanceUntil
      ensures Signal() == M.Command(cfg, old(Signal()), newPhase, now)
    {
      if IsWalk(newPhase) {
        pedClearanceUntil := now + cfg.pedClearanceMin;
      }
      lastCommandedPhase := newPhase;
      phaseEnteredAt := now;
    }
  }
}
