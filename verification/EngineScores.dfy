/** What decides a switch: scores, the green-wave bonus, and which preemption and corridor are in force. */
module EngineScores {
  import opened Options
  import opened Reals
  import opened EngineModel
  import opened EngineRuns
  import opened Corridors

  // ---- scores ----

  function DemandOf(call: Call, d: Direction): Demand {
    match d
    case NorthSouth => call.ns
    case EastWest => call.ew
  }

  function ScoreOf(cfg: Config, coordination: Option<Coordination>, call: Call, d: Direction): real {
    var (ns, ew) := Scores(cfg, coordination, call);
    match d
    case NorthSouth => ns
    case EastWest => ew
  }

  /** The green wave adds exactly its weight to the direction it favours, and nothing to the other. */
  lemma BonusExactly(cfg: Config, coordination: Option<Coordination>, call: Call, d: Direction)
    ensures ScoreOf(cfg, coordination, call, d) == ScoreOf(cfg, None, call, d)
              + if CoordinationDirection(coordination, call.coordinationNow) == Some(d) then cfg.coordinationWeight
                else 0.0
  {
    hide DirectionScore;
    assert d == NorthSouth || d == EastWest;
  }

  /** The forecast of a direction counts for that direction alone, and so does what its sensors report. */
  lemma ForecastExactly(cfg: Config, call: Call, d: Direction)
    ensures ScoreOf(cfg, None, call, d) == DirectionScore(cfg, DemandOf(call, d))
              + if call.forecast.None? then 0.0
                else Times(if d == NorthSouth then call.forecast.value.0 else call.forecast.value.1,
                           cfg.predictionWeight)
  {
    hide DirectionScore;
  }

  /** Some demand is at least as heavy as another in every respect. */
  predicate AtLeast(a: Demand, b: Demand) {
    && a.vehicles >= b.vehicles && a.emission >= b.emission && a.waiting >= b.waiting
    && a.velocity >= b.velocity && a.impact >= b.impact && (b.transit ==> a.transit)
  }

  lemma CappedFacts(x: real, y: real)
    ensures Capped(x) <= 1.0 && Capped(x) <= x
    ensures x <= y ==> Capped(x) <= Capped(y)
    ensures 0.0 <= x ==> 0.0 <= Capped(x)
    ensures 1.0 <= x ==> Capped(x) == 1.0
  {
  }

  /** Heavier demand never scores less, and no demand scores more than all four shares and the bus
      bonus, by the factor of an emergency. */
  lemma ScoreGrows(cfg: Config, a: Demand, b: Demand)
    requires AtLeast(a, b) && Plausible(b) && 0.0 <= cfg.transitWeight
    ensures 0.0 <= DirectionScore(cfg, b) <= DirectionScore(cfg, a) <= 1.2 * (1.0 + cfg.transitWeight)
  {
    hide Capped;
    CappedFacts((b.vehicles as real) / 20.0, (a.vehicles as real) / 20.0);
    CappedFacts(b.emission / 200.0, a.emission / 200.0);
    CappedFacts(b.waiting / 60.0, a.waiting / 60.0);
    CappedFacts((a.vehicles as real) / 20.0, 1.0);
    CappedFacts(a.emission / 200.0, 1.0);
    CappedFacts(a.waiting / 60.0, 1.0);
    var fa, fb := (a.velocity - 5.0) / 50.0, (b.velocity - 5.0) / 50.0;
    CappedFacts(if fb < 0.0 then 0.0 else fb, if fa < 0.0 then 0.0 else fa);
    CappedFacts(if fa < 0.0 then 0.0 else fa, 1.0);
  }

  /** That bound is reached, with each share at its own cap. */
  lemma ScoreSaturates(cfg: Config, d: Demand)
    requires d.vehicles >= 20 && d.emission >= 200.0 && d.waiting >= 60.0 && d.velocity >= 55.0
    ensures DirectionScore(cfg, d)
            == (if d.impact > 70.0 then 1.2 else 1.0) * (1.0 + if d.transit then cfg.transitWeight else 0.0)
  {
    hide Capped;
    CappedFacts((d.vehicles as real) / 20.0, 1.0);
    CappedFacts(d.emission / 200.0, 1.0);
    CappedFacts(d.waiting / 60.0, 1.0);
    CappedFacts((d.velocity - 5.0) / 50.0, 1.0);
  }

  /** What each respect is worth between nothing and its cap, before the factor of an emergency. */
  lemma ScoreShares(cfg: Config, d: Demand)
    requires d.impact <= 70.0
    ensures DirectionScore(cfg, d.(vehicles := 20)) - DirectionScore(cfg, d.(vehicles := 0)) == 0.3
    ensures DirectionScore(cfg, d.(emission := 200.0)) - DirectionScore(cfg, d.(emission := 0.0)) == 0.3
    ensures DirectionScore(cfg, d.(waiting := 60.0)) - DirectionScore(cfg, d.(waiting := 0.0)) == 0.2
    ensures DirectionScore(cfg, d.(velocity := 55.0)) - DirectionScore(cfg, d.(velocity := 5.0)) == 0.2
    ensures DirectionScore(cfg, d.(transit := true)) - DirectionScore(cfg, d.(transit := false)) == cfg.transitWeight
    ensures forall i :: i > 70.0 ==> DirectionScore(cfg, d.(impact := i)) == 1.2 * DirectionScore(cfg, d)
  {
    hide Capped;
    CappedAt();
  }

  lemma CappedAt()
    ensures Capped(20.0 / 20.0) == 1.0 == Capped(200.0 / 200.0) == Capped(60.0 / 60.0) == Capped(50.0 / 50.0)
    ensures Capped(0.0) == 0.0
  {
  }

  // ---- the rules, for either direction ----

  /** A direction wins on score; a tie goes to east-west. */
  predicate Outscores(own: real, d: Direction, other: real) {
    own > other || (own == other && d == EastWest)
  }

  /** Under the rules alone a decision asks to leave the active direction exactly when the other one
      outscores it, by the threshold, and has a queue worth a clearance or nobody uses the green. */
  lemma AsksExactly(cfg: Config, e: Engine, call: Call)
    requires e.preempt.None? && call.agent.None?
    ensures var other := Opposite(e.active);
            var waiting, current := ScoreOf(cfg, e.coordination, call, other),
                                    ScoreOf(cfg, e.coordination, call, e.active);
            Wish(cfg, e, call).0 <==>
              && Outscores(waiting, other, current)
              && waiting > Times(current, cfg.switchThreshold)
              && (DemandOf(call, other).vehicles >= cfg.minSwitchVehicles || DemandOf(call, e.active).vehicles <= 0)
  {
    hide Scores, Times;
  }

  // ---- the green wave, through decisions ----

  /** Inside the band of the active direction a decision asks to leave it exactly when the other
      direction scores more even with the weight added to the active one. */
  lemma LeavesWaveExactly(cfg: Config, e: Engine, call: Call)
    requires e.preempt.None? && call.agent.None?
    requires CoordinationDirection(e.coordination, call.coordinationNow) == Some(e.active)
    ensures var other := Opposite(e.active);
            var waiting, current := ScoreOf(cfg, None, call, other),
                                    ScoreOf(cfg, None, call, e.active) + cfg.coordinationWeight;
            Wish(cfg, e, call).0 <==>
              && Outscores(waiting, other, current)
              && waiting > Times(current, cfg.switchThreshold)
              && (DemandOf(call, other).vehicles >= cfg.minSwitchVehicles || DemandOf(call, e.active).vehicles <= 0)
  {
    hide Wish, ScoreOf;
    AsksExactly(cfg, e, call);
    BonusExactly(cfg, e.coordination, call, e.active);
    BonusExactly(cfg, e.coordination, call, Opposite(e.active));
  }

  /** Both directions have the same demand and the same forecast. */
  predicate Balanced(call: Call) {
    call.ns == call.ew && (call.forecast.Some? ==> call.forecast.value.0 == call.forecast.value.1)
  }

  lemma BalancedScores(cfg: Config, call: Call)
    requires Balanced(call)
    ensures ScoreOf(cfg, None, call, NorthSouth) == ScoreOf(cfg, None, call, EastWest)
  {
    hide DirectionScore;
  }

  /** A decision inside the band of `d`, with balanced demand and the learned agent off. */
  predicate InWave(coordination: Option<Coordination>, call: Call, d: Direction) {
    && CoordinationDirection(coordination, call.coordinationNow) == Some(d)
    && Balanced(call) && call.agent.None?
  }

  /** With a positive weight such a decision never asks to leave the green of `d`, and leaves it on
      before its maximum. */
  lemma WaveKeepsGreen(cfg: Config, e: Engine, call: Call)
    requires e.preempt.None? && InWave(e.coordination, call, e.active) && 0.0 < cfg.coordinationWeight
    ensures !Wish(cfg, e, call).0
    ensures !AsksToSwitch(cfg, e.coordination, e.active, call)
    ensures e.phase.Green? && call.now - e.startedAt < cfg.maxGreen ==> SamePhase(e, Decide(cfg, e, call))
  {
    hide Wish, ScoreOf, CoordinationDirection, Balanced, DirectionScore;
    LeavesWaveExactly(cfg, e, call);
    BalancedScores(cfg, call);
    WishIsAsking(cfg, e, call);
    if e.phase.Green? && call.now - e.startedAt < cfg.maxGreen {
      GreenStaysExactly(cfg, e, call);
    }
  }

  lemma WishIsAsking(cfg: Config, e: Engine, call: Call)
    requires e.preempt.None? && call.agent.None?
    ensures Wish(cfg, e, call).0 <==> AsksToSwitch(cfg, e.coordination, e.active, call)
  {
    hide Scores, Times;
    var (ns, ew) := Scores(cfg, e.coordination, call);
    if ns > ew {
      assert Wish(cfg, e, call).0 <==> AsksToSwitch(cfg, e.coordination, e.active, call);
    }
  }

  /** Over a run: a green of the corridor's direction stays on as long as every decision falls into the
      band and finds it short of its maximum. */
  lemma {:induction false} WaveHoldsGreen(r: Run, first: nat, j: nat)
    requires r.Valid() && first <= j <= |r.events| && r.states[first].phase.Green? && r.NoPreemption(first, j)
    requires 0.0 < r.cfg.coordinationWeight
    requires forall k :: first <= k < j && r.events[k].Decided? ==>
               && InWave(r.states[k].coordination, r.events[k].call, r.states[first].active)
               && r.events[k].call.now - r.states[first].startedAt < r.cfg.maxGreen
    ensures SamePhase(r.states[first], r.states[j])
    decreases j
  {
    hide InWave, Decide;
    if first < j {
      WaveHoldsGreen(r, first, j - 1);
      assert r.Linked(j - 1);
      if r.events[j - 1].Decided? {
        WaveKeepsGreen(r.cfg, r.states[j - 1], r.events[j - 1].call);
        DecisionMoves(r.cfg, r.states[j - 1], r.events[j - 1].call);
      }
    }
  }

  /** The green wave reaches the lights: an engine that follows the hint of stop `i` does not ask to leave
      the corridor's green at any decision from 0.005 s after a platoon arrives until 0.005 s before its
      green is used up. */
  lemma GreenWaveDecides(c: Corridor, i: nat, n: int, delay: real, favoured: Direction, cfg: Config, e: Engine,
                         call: Call)
    requires c.Valid() && i < |c.stops| && Corridors.DistinctIds(c.stops) && 0.005 <= delay < c.green - 0.005
    requires e.coordination == c.CoordinationFor(c.stops[i].id, favoured) && e.preempt.None? && e.active == favoured
    requires call.coordinationNow == Times(n as real, c.cycle) + c.TravelTime(i) + delay
    requires Balanced(call) && call.agent.None? && 0.0 < cfg.coordinationWeight
    ensures !Wish(cfg, e, call).0
    ensures e.phase.Green? && call.now - e.startedAt < cfg.maxGreen ==> SamePhase(e, Decide(cfg, e, call))
  {
    hide Wish, Decide, Balanced, CoordinationDirection, Times;
    GreenWave(c, i, n, delay, favoured);
    WaveKeepsGreen(cfg, e, call);
  }

  // ---- what is in force ----

  /** A request neither replaced nor released, nor found expired by a decision, in the first `n` events. */
  ghost predicate StillHeld(r: Run, k: nat, n: nat, d: Direction)
    requires k < n <= |r.events|
  {
    && r.events[k].PreemptionRequested? && r.events[k].direction == d
    && forall j :: k < j < n ==>
         && !r.events[j].PreemptionRequested? && !r.events[j].PreemptionCleared?
         && (r.events[j].Decided? ==> Unexpired(r.events[k].at, r.events[k].hold, r.events[j].call.preemptionNow))
  }

  /** A hold of zero seconds counts as no limit. */
  predicate Unexpired(at: real, hold: Option<real>, now: real) {
    hold.Some? && hold.value != 0.0 ==> now < at + hold.value
  }

  lemma {:induction false} HeldUntil(r: Run, n: nat)
    requires r.Valid() && n <= |r.events|
    ensures r.states[n].preempt.Some? ==> exists k :: 0 <= k < n && StillHeld(r, k, n, r.states[n].preempt.value)
                                                        && HoldEnds(r.events[k], r.states[n].preemptUntil)
    ensures forall k, d :: 0 <= k < n && StillHeld(r, k, n, d) ==>
              r.states[n].preempt == Some(d) && HoldEnds(r.events[k], r.states[n].preemptUntil)
  {
    if n > 0 {
      HeldUntil(r, n - 1);
      assert r.Linked(n - 1);
      HoldStep(r, n - 1);
      forall k, d | 0 <= k < n && StillHeld(r, k, n, d)
        ensures r.states[n].preempt == Some(d) && HoldEnds(r.events[k], r.states[n].preemptUntil)
      {
        if k < n - 1 {
          assert StillHeld(r, k, n - 1, d);
        }
      }
      if r.states[n].preempt.Some? {
        var d := r.states[n].preempt.value;
        if r.events[n - 1].PreemptionRequested? {
          assert StillHeld(r, n - 1, n, d);
        } else {
          var k :| 0 <= k < n - 1 && StillHeld(r, k, n - 1, d) && HoldEnds(r.events[k], r.states[n - 1].preemptUntil);
          assert StillHeld(r, k, n, d);
        }
      }
    }
  }

  /** The stored end of a hold is that of its request. */
  predicate HoldEnds(request: Event, until: Option<real>) {
    && request.PreemptionRequested?
    && (until.Some? <==> request.hold.Some? && request.hold.value != 0.0)
    && (until.Some? ==> until.value == request.at + request.hold.value)
  }

  lemma HoldStep(r: Run, i: nat)
    requires r.Valid() && i < |r.events|
    ensures var e, f := r.states[i], r.states[i + 1];
            match r.events[i]
            case PreemptionRequested(_, d, _) => f.preempt == Some(d) && HoldEnds(r.events[i], f.preemptUntil)
            case PreemptionCleared(_) => f.preempt.None?
            case Decided(call) =>
              if e.preempt.Some? && e.preemptUntil.Some? && e.preemptUntil.value <= call.preemptionNow
              then f.preempt.None?
              else f.preempt == e.preempt && f.preemptUntil == e.preemptUntil
            case _ => f.preempt == e.preempt && f.preemptUntil == e.preemptUntil
  {
    hide Decide;
    assert r.Linked(i);
    if r.events[i].Decided? {
      DecisionMoves(r.cfg, r.states[i], r.events[i].call);
    }
  }

  /** Direction `d` is preempted exactly while the last request was for it, was not released, and no
      decision has found its hold over. */
  lemma PreemptedExactly(r: Run, n: nat, d: Direction)
    requires r.Valid() && n <= |r.events|
    ensures r.states[n].preempt == Some(d) <==> exists k :: 0 <= k < n && StillHeld(r, k, n, d)
  {
    HeldUntil(r, n);
  }

  /** The corridor in force is the last one joined and not left since. */
  lemma {:induction false} CoordinatedExactly(r: Run, n: nat, c: Coordination)
    requires r.Valid() && n <= |r.events|
    ensures r.states[n].coordination == Some(c) <==>
            exists k :: 0 <= k < n && r.events[k].CoordinationSet? && r.events[k].coordination == c
                        && forall j :: k < j < n ==> !r.events[j].CoordinationSet? && !r.events[j].CoordinationCleared?
  {
    hide Decide;
    if n > 0 {
      CoordinatedExactly(r, n - 1, c);
      assert r.Linked(n - 1);
      if r.events[n - 1].Decided? {
        DecisionMoves(r.cfg, r.states[n - 1], r.events[n - 1].call);
      }
    }
  }
}
