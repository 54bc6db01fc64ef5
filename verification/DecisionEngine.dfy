/** The engine as an object. Its ghost `run` records every event, so what is proved about runs holds
    of every object of this class. */
module DecisionEngines {
  import opened Options
  import opened Reals
  import M = EngineModel
  import opened EngineRuns

  class AIDecisionEngine {
    const cfg: M.Config
    ghost var run: Run

    var currentPhase: M.Phase
    var activeDirection: M.Direction
    var phaseStartedAt: real
    var pedPresent: bool
    var pedHoldActive: bool
    var preemptDirection: Option<M.Direction>
    var preemptUntil: Option<real>
    var coord: Option<M.Coordination>

    ghost function Value(): M.Engine
      reads this
    {
      M.Engine(currentPhase, activeDirection, phaseStartedAt, pedHoldActive, preemptDirection, preemptUntil, coord)
    }

    ghost predicate Valid()
      reads this
    {
      run.Valid() && run.cfg == cfg && Value() == run.states[|run.events|]
    }

    /** The clock reading of the latest event. */
    ghost function Clock(): real
      reads this
      requires Valid()
    {
      run.Since(|run.events|)
    }

    constructor (cfg: M.Config, now: real)
      ensures Valid() && this.cfg == cfg && run == Run(cfg, now, [], [M.Init(now)])
    {
      this.cfg := cfg;
      currentPhase, activeDirection, phaseStartedAt := M.Green, M.NorthSouth, now;
      pedPresent, pedHoldActive := false, false;
      preemptDirection, preemptUntil, coord := None, None, None;
      run := Run(cfg, now, [], [M.Init(now)]);
    }

    /** Close an event: the fields already hold the next state. */
    ghost method Record(e: M.Event)
      requires run.Valid() && run.cfg == cfg && e.Follows(run.Since(|run.events|))
      requires Value() == M.Step(cfg, run.states[|run.events|], e)
      modifies `run
      ensures Valid() && run == Extend(old(run), e)
    {
      hide M.Step;
      ExtendIsRun(run, e);
      run := Extend(run, e);
    }

    method MakeDecision(call: M.Call) returns (recommended: M.Phase)
      requires Valid() && M.Decided(call).Follows(Clock())
      modifies this
      ensures Valid() && run == Extend(old(run), M.Decided(call))
      ensures recommended == currentPhase
    {
      recommended := Recommend(call);
      Record(M.Decided(call));
    }

    method SetCoordination(c: M.Coordination, now: real)
      requires Valid() && Clock() <= now
      modifies this
      ensures Valid() && run == Extend(old(run), M.CoordinationSet(now, c))
    {
      coord := Some(c);
      Record(M.CoordinationSet(now, c));
    }

    method ClearCoordination(now: real)
      requires Valid() && Clock() <= now
      modifies this
      ensures Valid() && run == Extend(old(run), M.CoordinationCleared(now))
    {
      coord := None;
      Record(M.CoordinationCleared(now));
    }

    method RequestPreemption(direction: M.Direction, hold: Option<real>, now: real)
      requires Valid() && Clock() <= now
      modifies this
      ensures Valid() && run == Extend(old(run), M.PreemptionRequested(now, direction, hold))
    {
      preemptDirection := Some(direction);
      preemptUntil := if hold.Some? && hold.value != 0.0 then Some(now + hold.value) else None;
      Record(M.PreemptionRequested(now, direction, hold));
    }

    method ClearPreemption(now: real)
      requires Valid() && Clock() <= now
      modifies this
      ensures Valid() && run == Extend(old(run), M.PreemptionCleared(now))
    {
      preemptDirection, preemptUntil := None, None;
      Record(M.PreemptionCleared(now));
    }

    // ---- internals ----

    method Recommend(call: M.Call) returns (recommended: M.Phase)
      modifies `currentPhase, `activeDirection, `phaseStartedAt, `pedPresent, `pedHoldActive,
               `preemptDirection, `preemptUntil
      ensures Value() == M.Decide(cfg, old(Value()), call)
      ensures recommended == currentPhase
    {
      hide M.Scores, M.AdvancePhase, M.Wish, M.ExpirePreemption;
      pedPresent := call.pedestrian;
      var ns, ew := CombinedScores(call);
      var preempt := PreemptionActive(call.preemptionNow);
      var wantsSwitch, other := Consider(call, ns, ew, preempt);
      recommended := AdvancePhase(wantsSwitch, other, call.now);
    }

    method CombinedScores(call: M.Call) returns (ns: real, ew: real)
      ensures (ns, ew) == M.Scores(cfg, coord, call)
    {
      hide M.DirectionScore, M.CoordinationDirection, Times;
      ns, ew := M.DirectionScore(cfg, call.ns), M.DirectionScore(cfg, call.ew);
      if call.forecast.Some? {
        ns := ns + Times(call.forecast.value.0, cfg.predictionWeight);
        ew := ew + Times(call.forecast.value.1, cfg.predictionWeight);
      }
      var wave := M.CoordinationDirection(coord, call.coordinationNow);
      if wave == Some(M.NorthSouth) {
        ns := ns + cfg.coordinationWeight;
      } else if wave == Some(M.EastWest) {
        ew := ew + cfg.coordinationWeight;
      }
    }

    /** Whether to ask for a switch, and the score of the direction that did not win. */
    method Consider(call: M.Call, ns: real, ew: real, preempt: Option<M.Direction>)
      returns (wantsSwitch: bool, other: real)
      requires (ns, ew) == M.Scores(cfg, coord, call) && preempt == preemptDirection
      ensures (wantsSwitch, other) == M.Wish(cfg, Value(), call)
    {
      hide M.Scores, Times;
      var winner, score, waiting, current := M.EastWest, ew, call.ew.vehicles, call.ns.vehicles;
      other := ns;
      if ns > ew {
        winner, score, waiting, current := M.NorthSouth, ns, call.ns.vehicles, call.ew.vehicles;
        other := ew;
      }
      if preempt.Some? {
        winner, score, other := preempt.value, 999.0, 0.0;
        wantsSwitch := activeDirection != preempt.value;
      } else {
        wantsSwitch := RuleBasedWantsSwitch(winner, score, other, waiting, current);
      }
      if call.agent.Some? {
        if call.agent.value == 1 {
          wantsSwitch := activeDirection != M.NorthSouth;
        } else if call.agent.value == 2 {
          wantsSwitch := activeDirection != M.EastWest;
        } else {
          wantsSwitch := false;
        }
      }
    }

    predicate RuleBasedWantsSwitch(winner: M.Direction, score: real, other: real, waiting: int, current: int)
      reads this
    {
      if winner == activeDirection then false
      else if score <= Times(other, cfg.switchThreshold) then false
      else if waiting < cfg.minSwitchVehicles && current > 0 then false
      else true
    }

    /** The preempted direction, dropping the preemption when its hold is over. */
    method PreemptionActive(now: real) returns (direction: Option<M.Direction>)
      modifies `preemptDirection, `preemptUntil
      ensures Value() == M.ExpirePreemption(old(Value()), now)
      ensures direction == preemptDirection
    {
      if preemptDirection.None? { return None; }
      if preemptUntil.Some? && now >= preemptUntil.value {
        preemptDirection, preemptUntil := None, None;
        return None;
      }
      return preemptDirection;
    }

    method AdvancePhase(wantsSwitch: bool, otherDemand: real, now: real) returns (phase: M.Phase)
      modifies `currentPhase, `activeDirection, `phaseStartedAt, `pedHoldActive
      ensures Value() == M.AdvancePhase(cfg, old(Value()), wantsSwitch, otherDemand, pedPresent, now)
      ensures phase == currentPhase
    {
      var elapsed := now - phaseStartedAt;
      if currentPhase.Green? {
        if elapsed < cfg.minGreen { return M.Green; }
        var starvationGuard := elapsed >= cfg.maxGreen && otherDemand > 0.0;
        if wantsSwitch || starvationGuard { BeginPhase(M.Yellow, now); }
        return currentPhase;
      }
      if currentPhase.Yellow? {
        if elapsed >= cfg.yellow { BeginPhase(M.AllRed, now); }
        return currentPhase;
      }
      if currentPhase.AllRed? {
        pedHoldActive := pedPresent && elapsed >= cfg.allRed && elapsed < cfg.allRed + cfg.maxPedExtend;
        if elapsed >= cfg.allRed && !pedHoldActive {
          activeDirection := if activeDirection.NorthSouth? then M.EastWest else M.NorthSouth;
          BeginPhase(M.Green, now);
        }
        return currentPhase;
      }
      BeginPhase(M.Green, now);
      return currentPhase;
    }

    method BeginPhase(phase: M.Phase, now: real)
      modifies `currentPhase, `phaseStartedAt
      ensures Value() == M.Begin(old(Value()), phase, now)
    {
      currentPhase := phase;
      phaseStartedAt := now;
    }
  }
}
