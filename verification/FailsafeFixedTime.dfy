/** Left alone, the controller refines its fixed-time plan: the stateful filter is transparent. */
module FailsafeFixedTime {
  import opened FixedTimePlans
  import opened FailsafeModel
  import opened FailsafeRuns

  /** Each plan green outlasts minimum green by one tick period, and no tick period spans the time
      between the greens. When the parts sum to the cycle, that time is yellow plus all-red. */
  predicate PlanSuitsTicks(cfg: Config, p: nat)
    requires cfg.plan.Valid()
  {
    var plan := cfg.plan;
    && cfg.minGreen + p <= plan.nsGreen
    && cfg.minGreen + p <= plan.ewGreen
    && p <= plan.nsYellow + plan.allRedAfterNs
    && p <= plan.cycle - plan.EwGreenEnd()
  }

  /** The signal follows the plan `elapsed` after the start, and a green on display began at most
      `p` after the plan's green did. */
  predicate Follows(cfg: Config, s: Signal, start: int, elapsed: int, p: nat)
    requires cfg.plan.Valid()
  {
    var x := elapsed % cfg.plan.cycle;
    && s.clearanceUntil == 0
    && s.phase == cfg.plan.PhaseAt(elapsed)
    && (s.phase.NsGreen? ==> s.enteredAt <= start + elapsed - x + p)
    && (s.phase.EwGreen? ==> s.enteredAt <= start + elapsed - x + cfg.plan.EwStart() + p)
  }

  /** Advancing by at most one tick period never meets a hold or a direct swap of greens. */
  lemma FollowsAdvance(cfg: Config, s: Signal, start: int, elapsed: int, d: nat, p: nat)
    requires cfg.plan.Valid() && PlanSuitsTicks(cfg, p) && d <= p
    requires Follows(cfg, s, start, elapsed, p)
    ensures var wanted, now := cfg.plan.PhaseAt(elapsed + d), start + elapsed + d;
            && Filter(cfg, FixedTime, NoPed, s, wanted, now) == wanted
            && Follows(cfg, Command(cfg, s, wanted, now), start, elapsed + d, p)
  {
    ModAdvance(elapsed, d, cfg.plan.cycle);
  }

  lemma FollowsFromStart(cfg: Config, start: int, p: nat)
    requires cfg.plan.Valid()
    ensures Alone(Init(cfg, start), start) && Follows(cfg, Init(cfg, start).signal, start, 0, p)
  {
    assert 0 % cfg.plan.cycle == 0;
  }

  predicate Alone(s: State, start: int) {
    && s.watch.mode.FixedTime? && s.watch.modeEnteredAt == start
    && s.slot.request.None?
    && s.ped.queue == [] && s.ped.state.NoPed? && s.ped.approach.None?
  }

  lemma AloneStep(cfg: Config, s: State, start: int, e: Event)
    requires cfg.plan.Valid() && Alone(s, start) && e.Ticked?
    ensures var t := Step(cfg, s, e);
            && Alone(t, start)
            && var wanted := cfg.plan.PhaseAt(e.now - start);
               t.signal == Command(cfg, s.signal, Filter(cfg, FixedTime, NoPed, s.signal, wanted, e.now), e.now)
  {
  }

  /** In states `0..n` the mode is FIXED_TIME, no preempt is armed and nobody is queued. */
  predicate PlanInForce(r: Run, n: nat)
    requires n < |r.states|
  {
    forall k :: 0 <= k <= n ==>
      r.states[k].watch.mode.FixedTime? && r.states[k].slot.request.None? && r.states[k].ped.queue == []
  }

  lemma OtherEvents(cfg: Config, s: State, start: int, e: Event)
    requires cfg.plan.Valid() && Alone(s, start) && !e.Ticked?
    requires var t := Step(cfg, s, e); t.watch.mode.FixedTime? && t.slot.request.None? && t.ped.queue == []
    ensures Alone(Step(cfg, s, e), start) && Step(cfg, s, e).signal == s.signal
  {
    QuietStep(cfg, s, e);
  }

  lemma {:induction false} AloneFollows(r: Run, p: nat, n: nat)
    requires r.Valid() && n <= |r.events| && PlanInForce(r, n)
    requires r.TicksWithin(p, n) && PlanSuitsTicks(r.cfg, p)
    ensures Alone(r.states[n], r.start)
    ensures Follows(r.cfg, r.states[n].signal, r.start, r.LastTick(n) - r.start, p)
  {
    hide Step, Filter, Follows, PlanSuitsTicks, Command, Plan.PhaseAt;
    if n == 0 {
      FollowsFromStart(r.cfg, r.start, p);
    } else {
      AloneFollows(r, p, n - 1);
      assert r.Linked(n - 1);
      LastTickBounds(r, n - 1);
      if r.events[n - 1].Ticked? {
        var d := r.events[n - 1].now - r.LastTick(n - 1);
        assert 0 <= d <= p by { assert r.Since(n - 1) <= r.Since(n); }
        AloneStep(r.cfg, r.states[n - 1], r.start, r.events[n - 1]);
        FollowsAdvance(r.cfg, r.states[n - 1].signal, r.start, r.LastTick(n - 1) - r.start, d, p);
      } else {
        OtherEvents(r.cfg, r.states[n - 1], r.start, r.events[n - 1]);
      }
    }
  }

  /** As long as the mode is FIXED_TIME, no preempt is armed and nobody is queued, whatever else
      arrives, every tick commands exactly the plan's phase for the time since the start, over any
      number of cycles, when ticks come at most `p` apart. */
  lemma FixedTimeRefinesPlan(r: Run, p: nat, i: nat)
    requires r.Valid() && i < |r.events| && r.events[i].Ticked? && PlanInForce(r, i + 1)
    requires r.TicksWithin(p, i + 1) && PlanSuitsTicks(r.cfg, p)
    ensures r.states[i + 1].signal.phase == r.cfg.plan.PhaseAt(r.events[i].now - r.start)
  {
    hide Step, PlanSuitsTicks, Plan.PhaseAt;
    AloneFollows(r, p, i + 1);
  }

  /** Ticks, status reads and rejected messages leave the plan in force. */
  predicate Harmless(cfg: Config, s: State, e: Event) {
    match e
    case Ticked(_) => true
    case StatusRead(_) => true
    case DecisionArrives(now, raw) => !Accepts(cfg, s.watch, raw, now)
    case PreemptArrives(now, raw) => !PreemptArms(cfg, s.slot, raw, now)
    case PreemptCleared(_, _) => true
    case PedCallArrives(now, raw) => !PedVerdict(cfg, raw, now).Ok?
    case ModeForced(_, mode) => mode.FixedTime?
    case HardwareFault(_) => false
  }

  lemma HarmlessStep(cfg: Config, s: State, start: int, e: Event)
    requires cfg.plan.Valid() && Alone(s, start) && Harmless(cfg, s, e)
    ensures Alone(Step(cfg, s, e), start)
  {
    hide Evict, Filter, NextCall;
    if e.Ticked? { AloneStep(cfg, s, start, e); }
  }

  lemma {:induction false} HarmlessRun(r: Run, n: nat)
    requires r.Valid() && n <= |r.events|
    requires forall k :: 0 <= k < n ==> Harmless(r.cfg, r.states[k], r.events[k])
    ensures PlanInForce(r, n) && Alone(r.states[n], r.start)
  {
    hide Step, Harmless;
    if n > 0 {
      HarmlessRun(r, n - 1);
      assert r.Linked(n - 1);
      HarmlessStep(r.cfg, r.states[n - 1], r.start, r.events[n - 1]);
    }
  }
}
