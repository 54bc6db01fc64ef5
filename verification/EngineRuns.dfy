/** Whole runs of the engine: timing envelope, starvation and preemption bounds. */
module EngineRuns {
  import opened Options
  import opened Reals
  import opened EngineModel

  /** `states[n]` is the state after the first `n` events. */
  datatype Run = Run(cfg: Config, start: real, events: seq<Event>, states: seq<Engine>) {
    ghost predicate Valid() {
      && |states| == |events| + 1
      && states[0] == Init(start)
      && (forall i :: 0 <= i < |events| ==> Linked(i))
    }

    ghost predicate Linked(i: nat)
      requires i < |events| && |states| == |events| + 1
    {
      && events[i].Follows(Since(i))
      && states[i + 1] == Step(cfg, states[i], events[i])
    }

    /** The time at which state `n` came about. */
    function Since(n: nat): real
      requires n <= |events|
    {
      if n == 0 then start else events[n - 1].Time()
    }

    /** The time of the last decision among the first `n` events; the start counts as one. */
    function LastCall(n: nat): real
      requires n <= |events|
    {
      if n == 0 then start
      else if events[n - 1].Decided? then events[n - 1].call.now
      else LastCall(n - 1)
    }

    /** Decisions among the first `n` events come at most `p` apart. */
    ghost predicate CallsWithin(p: real, n: nat)
      requires n <= |events|
    {
      forall i :: 0 <= i < n && events[i].Decided? ==> events[i].call.now <= LastCall(i) + p
    }

    /** No preemption is armed in the states `i..j`. */
    predicate NoPreemption(i: nat, j: nat)
      requires j < |states|
    {
      forall k :: i <= k <= j ==> states[k].preempt.None?
    }

    /** Someone is asking for green at every decision among the events `i..j-1`. */
    ghost predicate Asked(i: nat, j: nat)
      requires j <= |events| <= |states|
    {
      forall k :: i <= k < j && events[k].Decided? ==> Contested(cfg, states[k], events[k].call)
    }
  }

  predicate PositiveScores(cfg: Config, e: Engine, call: Call) {
    var (ns, ew) := Scores(cfg, e.coordination, call); ns > 0.0 && ew > 0.0
  }

  function WaitingScore(cfg: Config, e: Engine, call: Call): real {
    var (ns, ew) := Scores(cfg, e.coordination, call); if e.active.NorthSouth? then ew else ns
  }

  predicate Plausible(d: Demand) {
    0 <= d.vehicles && 0.0 <= d.emission && 0.0 <= d.waiting
  }

  /** Counts, averages, weights and forecasts are not negative. */
  predicate Sensible(cfg: Config, call: Call) {
    && Plausible(call.ns) && Plausible(call.ew)
    && 0.0 <= cfg.transitWeight && 0.0 <= cfg.coordinationWeight && 0.0 <= cfg.predictionWeight
    && (call.forecast.Some? ==> 0.0 <= call.forecast.value.0 && 0.0 <= call.forecast.value.1)
  }

  /** Both directions score, whatever the advice; or, with the learned agent off, the waiting one does. */
  predicate Contested(cfg: Config, e: Engine, call: Call) {
    || PositiveScores(cfg, e, call)
    || (call.agent.None? && Sensible(cfg, call) && 0.0 < WaitingScore(cfg, e, call))
  }

  predicate NonNegative(cfg: Config) {
    0.0 <= cfg.minGreen && 0.0 <= cfg.maxGreen && 0.0 <= cfg.yellow && 0.0 <= cfg.allRed && 0.0 <= cfg.maxPedExtend
  }

  lemma {:induction false} LastCallBounds(r: Run, n: nat)
    requires r.Valid() && n <= |r.events|
    ensures r.LastCall(n) <= r.Since(n)
  {
    if n > 0 {
      LastCallBounds(r, n - 1);
      assert r.Linked(n - 1);
    }
  }

  /** A run continued by one event. */
  ghost function Extend(r: Run, e: Event): Run
    requires r.Valid()
  {
    r.(events := r.events + [e], states := r.states + [Step(r.cfg, r.states[|r.events|], e)])
  }

  lemma ExtendIsRun(r: Run, e: Event)
    requires r.Valid() && e.Follows(r.Since(|r.events|))
    ensures Extend(r, e).Valid()
  {
    hide Step;
    var x := Extend(r, e);
    forall i | 0 <= i < |x.events| ensures x.Linked(i) {
      if i < |r.events| { assert r.Linked(i); }
    }
  }

  // ---- one step, seen from outside ----

  /** What a decision does to the phase machine, given its switch request and the losing score. */
  predicate Moves(cfg: Config, e: Engine, f: Engine, wants: bool, other: real, pedestrian: bool, now: real) {
    var elapsed := now - e.startedAt;
    match e.phase
    case Green =>
      f.active == e.active
      && if elapsed >= cfg.minGreen && (wants || (elapsed >= cfg.maxGreen && other > 0.0))
         then f.phase == Yellow && f.startedAt == now
         else f.phase == Green && f.startedAt == e.startedAt
    case Yellow =>
      f.active == e.active
      && if elapsed >= cfg.yellow then f.phase == AllRed && f.startedAt == now
         else f.phase == Yellow && f.startedAt == e.startedAt
    case AllRed =>
      if elapsed >= cfg.allRed && !(pedestrian && elapsed < cfg.allRed + cfg.maxPedExtend)
      then f.phase == Green && f.startedAt == now && f.active == Opposite(e.active)
      else f.phase == AllRed && f.startedAt == e.startedAt && f.active == e.active
    case Red => f.phase == Green && f.startedAt == now && f.active == e.active
  }

  lemma DecisionMoves(cfg: Config, e: Engine, call: Call)
    ensures var e1, f := ExpirePreemption(e, call.preemptionNow), Decide(cfg, e, call);
            var (wants, other) := Wish(cfg, e1, call);
            && Moves(cfg, e, f, wants, other, call.pedestrian, call.now)
            && f.preempt == e1.preempt && f.preemptUntil == e1.preemptUntil && f.coordination == e.coordination
  {
    hide Wish;
  }

  /** The switch request while `d` is preempted: the learned agent's when it is on, and otherwise
      whenever the other direction has the road. */
  predicate AsksUnderPreemption(d: Direction, active: Direction, agent: Option<int>) {
    match agent
    case None => active != d
    case Some(action) => (action == 1 && active == EastWest) || (action == 2 && active == NorthSouth)
  }

  /** The wishes that matter below. */
  lemma WishFacts(cfg: Config, e: Engine, call: Call)
    ensures var (wants, other) := Wish(cfg, e, call);
            && (e.preempt.Some? ==>
                  wants == AsksUnderPreemption(e.preempt.value, e.active, call.agent) && other == 0.0)
            && (e.preempt.None? && PositiveScores(cfg, e, call) ==> other > 0.0)
  {
    hide DirectionScore, RuleWantsSwitch;
  }

  predicate SamePhase(e: Engine, f: Engine) {
    f.phase == e.phase && f.active == e.active && f.startedAt == e.startedAt
  }

  /** The phase machine over one event. */
  lemma PhaseStep(r: Run, i: nat)
    requires r.Valid() && i < |r.events|
    ensures var e, f := r.states[i], r.states[i + 1];
            match r.events[i]
            case Decided(call) =>
              exists wants, other ::
                && Moves(r.cfg, e, f, wants, other, call.pedestrian, call.now)
                && (f.preempt.Some? ==>
                      wants == AsksUnderPreemption(f.preempt.value, e.active, call.agent) && other == 0.0)
                && (e.preempt.None? && PositiveScores(r.cfg, e, call) ==> other > 0.0)
            case _ => SamePhase(e, f)
    ensures r.Since(i) <= r.events[i].Time()
  {
    hide Moves, Wish, Decide, PositiveScores;
    assert r.Linked(i);
    if r.events[i].Decided? {
      var call := r.events[i].call;
      DecisionMoves(r.cfg, r.states[i], call);
      WishFacts(r.cfg, ExpirePreemption(r.states[i], call.preemptionNow), call);
    }
  }

  // ---- the timing envelope ----

  /** Phases follow green, yellow, all-red, green; each lasts at least its minimum; the active
      direction changes only, and always, when all-red ends. */
  lemma TimingEnvelope(r: Run, i: nat)
    requires r.Valid() && i < |r.events|
    ensures var e, f, elapsed := r.states[i], r.states[i + 1], r.events[i].Time() - r.states[i].startedAt;
            || SamePhase(e, f)
            || (e.phase.Green? && f.phase.Yellow? && f.active == e.active && elapsed >= r.cfg.minGreen)
            || (e.phase.Yellow? && f.phase.AllRed? && f.active == e.active && elapsed >= r.cfg.yellow)
            || (e.phase.AllRed? && f.phase.Green? && f.active == Opposite(e.active) && elapsed >= r.cfg.allRed)
  {
    PhaseStep(r, i);
    NeverRed(r, i);
  }

  lemma {:induction false} NeverRed(r: Run, n: nat)
    requires r.Valid() && n <= |r.events|
    ensures !r.states[n].phase.Red?
  {
    if n > 0 {
      NeverRed(r, n - 1);
      PhaseStep(r, n - 1);
    }
  }

  /** The stored start of a phase is when it began: the latest state that entered it. */
  lemma {:induction false} StartOfPhase(r: Run, first: nat, last: nat)
    requires r.Valid() && first <= last <= |r.events|
    requires forall k :: first <= k <= last ==> r.states[k].phase == r.states[first].phase
    requires first > 0 ==> r.states[first - 1].phase != r.states[first].phase
    ensures r.states[last].startedAt == r.Since(first)
    decreases last
  {
    if last > 0 {
      PhaseStep(r, last - 1);
      NeverRed(r, last - 1);
      if first < last { StartOfPhase(r, first, last - 1); }
    }
  }

  /** All-red lasts at most its length, the longest extension and one call period, however long a
      pedestrian stays: no decision finds it later. */
  lemma {:induction false} AllRedIsBounded(r: Run, n: nat, p: real)
    requires r.Valid() && n <= |r.events| && NonNegative(r.cfg) && 0.0 <= p && r.CallsWithin(p, n)
    ensures r.states[n].phase.AllRed? ==>
              || r.LastCall(n) == r.states[n].startedAt
              || r.LastCall(n) < r.states[n].startedAt + r.cfg.allRed + r.cfg.maxPedExtend
    ensures n > 0 && r.events[n - 1].Decided? && r.states[n - 1].phase.AllRed? ==>
              r.events[n - 1].call.now <= r.states[n - 1].startedAt + r.cfg.allRed + r.cfg.maxPedExtend + p
  {
    if n > 0 {
      AllRedIsBounded(r, n - 1, p);
      PhaseStep(r, n - 1);
    }
  }

  /** A decision in all-red reports a hold exactly when a pedestrian is there past its length and within
      the extension, and hands over exactly when the length is over and nothing is held; a hold is only
      ever reported in all-red. */
  lemma {:induction false} HoldExactly(r: Run, n: nat)
    requires r.Valid() && n <= |r.events|
    ensures r.states[n].pedHold ==> r.states[n].phase.AllRed?
    ensures n > 0 && r.events[n - 1].Decided? && r.states[n - 1].phase.AllRed? ==>
              var e, f, call := r.states[n - 1], r.states[n], r.events[n - 1].call;
              var over, limit := e.startedAt + r.cfg.allRed, e.startedAt + r.cfg.allRed + r.cfg.maxPedExtend;
              && (f.pedHold <==> call.pedestrian && over <= call.now < limit)
              && (f.phase.AllRed? <==> call.now < over || f.pedHold)
  {
    if n > 0 {
      HoldExactly(r, n - 1);
      hide Wish, ExpirePreemption;
      assert r.Linked(n - 1);
      if r.events[n - 1].Decided? {
        ExpiryKeepsPhase(r.states[n - 1], r.events[n - 1].call.preemptionNow);
      }
    }
  }

  lemma ExpiryKeepsPhase(e: Engine, now: real)
    ensures var f := ExpirePreemption(e, now); SamePhase(e, f) && f.pedHold == e.pedHold
  {
  }

  // ---- deadlines ----

  function Later(a: real, b: real): real {
    if a < b then b else a
  }

  function GreenTime(cfg: Config): real {
    Later(cfg.minGreen, cfg.maxGreen)
  }

  /** The latest moment at which a decision can still find the engine short of green for `goal`,
      when greens of the other direction last at most `green` and calls come at most `p` apart. */
  function Deadline(cfg: Config, e: Engine, goal: Direction, green: real, call: real, p: real): real {
    var clear := cfg.allRed + cfg.maxPedExtend + p;
    var away := if e.active == goal then green + p + cfg.yellow + p + clear else 0.0;
    match e.phase
    case Green => Later(e.startedAt + green, call) + p + cfg.yellow + p + clear
    case Yellow => Later(e.startedAt + cfg.yellow, call) + p + clear + away
    case AllRed => Later(e.startedAt + cfg.allRed + cfg.maxPedExtend, call) + p + away
    case Red => call
  }

  predicate HasGreen(e: Engine, d: Direction) {
    e.phase.Green? && e.active == d
  }

  /** A decision that must end a green of the wrong direction once `green` has passed moves the
      deadline no later. */
  lemma DeadlineStep(cfg: Config, e: Engine, f: Engine, goal: Direction, green: real, call: real, now: real, p: real,
                     wants: bool, other: real, pedestrian: bool)
    requires NonNegative(cfg) && cfg.minGreen <= green && 0.0 <= p && call <= now <= call + p
    requires !e.phase.Red? && !HasGreen(e, goal)
    requires Moves(cfg, e, f, wants, other, pedestrian, now)
    requires e.phase.Green? && now - e.startedAt >= green ==> f.phase.Yellow?
    ensures now <= Deadline(cfg, e, goal, green, call, p)
    ensures !HasGreen(f, goal) ==>
              !f.phase.Red? && Deadline(cfg, f, goal, green, now, p) <= Deadline(cfg, e, goal, green, call, p)
  {
  }

  // ---- starvation ----

  lemma ScoreFacts(cfg: Config, d: Demand)
    requires Plausible(d) && 0.0 <= cfg.transitWeight
    ensures 0.0 <= DirectionScore(cfg, d)
    ensures DirectionScore(cfg, d) == 0.0 ==> d.vehicles == 0
  {
  }

  /** Under the rules alone it is enough that someone waits: with the learned agent off, a waiting
      direction with a positive score ends the green, even when the current one scores nothing. */
  lemma RulesServeWaiting(cfg: Config, e: Engine, call: Call)
    requires e.phase.Green? && e.preempt.None? && call.agent.None?
    requires Sensible(cfg, call) && 0.0 < WaitingScore(cfg, e, call)
    requires call.now - e.startedAt >= GreenTime(cfg)
    ensures Decide(cfg, e, call).phase.Yellow?
  {
    hide DirectionScore, CoordinationDirection;
    ScoreFacts(cfg, call.ns);
    ScoreFacts(cfg, call.ew);
    var (ns, ew) := Scores(cfg, e.coordination, call);
    ScoresDominate(cfg, e, call);
    assert ns == 0.0 ==> Times(ns, cfg.switchThreshold) == 0.0;
    assert ew == 0.0 ==> Times(ew, cfg.switchThreshold) == 0.0;
  }

  lemma ScoresDominate(cfg: Config, e: Engine, call: Call)
    requires 0.0 <= cfg.coordinationWeight && 0.0 <= cfg.predictionWeight
    requires call.forecast.Some? ==> 0.0 <= call.forecast.value.0 && 0.0 <= call.forecast.value.1
    ensures var (ns, ew) := Scores(cfg, e.coordination, call);
            DirectionScore(cfg, call.ns) <= ns && DirectionScore(cfg, call.ew) <= ew
  {
    hide DirectionScore, CoordinationDirection;
    if call.forecast.Some? {
      assert 0.0 <= Times(call.forecast.value.0, cfg.predictionWeight);
      assert 0.0 <= Times(call.forecast.value.1, cfg.predictionWeight);
    }
  }

  /** Nothing stands between `first` and `n` that the starvation bound does not cover. */
  ghost predicate Unhindered(r: Run, first: nat, n: nat, p: real) {
    && r.Valid() && first <= n <= |r.events| && NonNegative(r.cfg) && 0.0 <= p
    && r.CallsWithin(p, n) && r.NoPreemption(first, n) && r.Asked(first, n)
  }

  lemma GreenMustEnd(r: Run, i: nat)
    requires r.Valid() && i < |r.events| && r.events[i].Decided?
    requires r.states[i].preempt.None? && Contested(r.cfg, r.states[i], r.events[i].call)
    requires r.states[i].phase.Green? && r.events[i].call.now - r.states[i].startedAt >= GreenTime(r.cfg)
    ensures r.states[i + 1].phase.Yellow?
  {
    hide PositiveScores, WaitingScore, Sensible, Decide;
    PhaseStep(r, i);
    assert r.Linked(i);
    if !PositiveScores(r.cfg, r.states[i], r.events[i].call) {
      RulesServeWaiting(r.cfg, r.states[i], r.events[i].call);
    }
  }

  /** While direction `d` has not had green since state `first`, decisions stay before the deadline. */
  lemma {:induction false} DeadlineHolds(r: Run, first: nat, n: nat, d: Direction, p: real)
    requires Unhindered(r, first, n, p)
    requires forall k :: first <= k <= n ==> !HasGreen(r.states[k], d)
    ensures Deadline(r.cfg, r.states[n], d, GreenTime(r.cfg), r.LastCall(n), p)
            <= Deadline(r.cfg, r.states[first], d, GreenTime(r.cfg), r.LastCall(first), p)
    decreases n
  {
    hide Deadline, Contested, Moves;
    if first < n {
      DeadlineHolds(r, first, n - 1, d, p);
      PhaseStep(r, n - 1);
      NeverRed(r, n - 1);
      LastCallBounds(r, n - 1);
      if r.events[n - 1].Decided? {
        DecisionBeforeDeadline(r, n - 1, d, p);
      } else {
        SameDeadline(r.cfg, r.states[n - 1], r.states[n], d, GreenTime(r.cfg), r.LastCall(n), p);
      }
    }
  }

  lemma SameDeadline(cfg: Config, e: Engine, f: Engine, goal: Direction, green: real, call: real, p: real)
    requires SamePhase(e, f)
    ensures Deadline(cfg, f, goal, green, call, p) == Deadline(cfg, e, goal, green, call, p)
  {
  }

  lemma DecisionBeforeDeadline(r: Run, i: nat, d: Direction, p: real)
    requires Unhindered(r, i, i + 1, p) && r.events[i].Decided? && !HasGreen(r.states[i], d)
    ensures var now, green := r.events[i].call.now, GreenTime(r.cfg);
            var before := Deadline(r.cfg, r.states[i], d, green, r.LastCall(i), p);
            && now <= before
            && (!HasGreen(r.states[i + 1], d) ==> Deadline(r.cfg, r.states[i + 1], d, green, now, p) <= before)
  {
    hide Deadline, Contested, Moves;
    PhaseStep(r, i);
    NeverRed(r, i);
    LastCallBounds(r, i);
    var e, f, call := r.states[i], r.states[i + 1], r.events[i].call;
    if e.phase.Green? && call.now - e.startedAt >= GreenTime(r.cfg) {
      GreenMustEnd(r, i);
    }
    var wants, other :| Moves(r.cfg, e, f, wants, other, call.pedestrian, call.now);
    DeadlineStep(r.cfg, e, f, d, GreenTime(r.cfg), r.LastCall(i), call.now, p, wants, other, call.pedestrian);
  }

  /** A green that began at `first` is over within the longer of minimum and maximum green plus one
      call period: no decision finds it later. */
  lemma GreenEndsInTime(r: Run, first: nat, n: nat, p: real)
    requires first <= n && Unhindered(r, first, n + 1, p) && n < |r.events| && r.events[n].Decided?
    requires forall k :: first <= k <= n ==> r.states[k].phase.Green?
    requires first > 0 ==> !r.states[first - 1].phase.Green?
    ensures r.events[n].call.now <= r.Since(first) + GreenTime(r.cfg) + p
  {
    hide Contested, Moves;
    GreenLastCall(r, first, n, p);
  }

  lemma {:induction false} GreenLastCall(r: Run, first: nat, n: nat, p: real)
    requires Unhindered(r, first, n, p)
    requires forall k :: first <= k <= n ==> r.states[k].phase.Green?
    requires first > 0 ==> !r.states[first - 1].phase.Green?
    ensures r.LastCall(n) <= r.Since(first) + GreenTime(r.cfg)
    decreases n
  {
    hide Contested, Moves;
    if n == first {
      LastCallBounds(r, n);
    } else {
      GreenLastCall(r, first, n - 1, p);
      StartOfPhase(r, first, n - 1);
      if r.events[n - 1].Decided? && r.events[n - 1].call.now - r.states[n - 1].startedAt >= GreenTime(r.cfg) {
        GreenMustEnd(r, n - 1);
      }
    }
  }

  /** From the start of a yellow the other direction has green within yellow, all-red, the longest
      pedestrian extension and two call periods, and from the start of a green within the green time
      and a further call period on top: no decision finds it later. */
  lemma OppositeGreenInTime(r: Run, first: nat, n: nat, p: real)
    requires first <= n && Unhindered(r, first, n + 1, p) && n < |r.events| && r.events[n].Decided?
    requires !r.states[first].phase.AllRed?
    requires first > 0 ==> r.states[first - 1].phase != r.states[first].phase
    requires forall k :: first <= k <= n ==> !HasGreen(r.states[k], Opposite(r.states[first].active))
    ensures var clearance := r.cfg.yellow + r.cfg.allRed + r.cfg.maxPedExtend + 2.0 * p;
            r.events[n].call.now <= r.Since(first) + clearance
              + if r.states[first].phase.Green? then GreenTime(r.cfg) + p else 0.0
  {
    hide Contested, Moves;
    var d := Opposite(r.states[first].active);
    NeverRed(r, first);
    StartOfPhase(r, first, first);
    LastCallBounds(r, first);
    DeadlineHolds(r, first, n, d, p);
    DecisionBeforeDeadline(r, n, d, p);
  }

  // ---- exactly when a green is held ----

  /** The switch request, written out: the learned agent's, or the rules': the winner on score is
      not the active direction, clears the threshold, and has a queue worth the clearance unless
      nobody uses the green. */
  predicate AsksToSwitch(cfg: Config, coordination: Option<Coordination>, active: Direction, call: Call) {
    var (ns, ew) := Scores(cfg, coordination, call);
    match call.agent
    case Some(action) =>
      (action == 1 && active == EastWest) || (action == 2 && active == NorthSouth)
    case None =>
      if ns > ew then
        active == EastWest && ns > Times(ew, cfg.switchThreshold)
        && (call.ns.vehicles >= cfg.minSwitchVehicles || call.ew.vehicles <= 0)
      else
        active == NorthSouth && ew > Times(ns, cfg.switchThreshold)
        && (call.ew.vehicles >= cfg.minSwitchVehicles || call.ns.vehicles <= 0)
  }

  /** A decision leaves a green alone: it is within its minimum, or no switch is asked for and the
      guard against starvation, which looks at the lower score, does not fire. */
  predicate LeavesGreen(cfg: Config, coordination: Option<Coordination>, active: Direction, startedAt: real,
                        call: Call) {
    var (ns, ew) := Scores(cfg, coordination, call);
    var lower := if ns > ew then ew else ns;
    || call.now - startedAt < cfg.minGreen
    || (!AsksToSwitch(cfg, coordination, active, call) && (call.now - startedAt < cfg.maxGreen || lower <= 0.0))
  }

  lemma GreenStaysExactly(cfg: Config, e: Engine, call: Call)
    requires e.phase.Green? && e.preempt.None?
    ensures SamePhase(e, Decide(cfg, e, call)) <==> LeavesGreen(cfg, e.coordination, e.active, e.startedAt, call)
    ensures !SamePhase(e, Decide(cfg, e, call)) ==> Decide(cfg, e, call).phase.Yellow?
  {
    hide DirectionScore, Scores;
  }

  /** With no preemption, a green on in state `first` is still on in state `j` exactly when every
      decision between left it alone. */
  lemma {:induction false} GreenSurvivesExactly(r: Run, first: nat, j: nat)
    requires r.Valid() && first <= j <= |r.events| && r.states[first].phase.Green? && r.NoPreemption(first, j)
    ensures (forall k :: first <= k <= j ==> SamePhase(r.states[first], r.states[k])) <==>
            (forall k :: first <= k < j && r.events[k].Decided? ==>
               LeavesGreen(r.cfg, r.states[k].coordination, r.states[first].active, r.states[first].startedAt,
                           r.events[k].call))
    decreases j
  {
    hide LeavesGreen, Decide;
    if first < j {
      GreenSurvivesExactly(r, first, j - 1);
      assert r.Linked(j - 1);
      if r.events[j - 1].Decided? && SamePhase(r.states[first], r.states[j - 1]) {
        GreenStaysExactly(r.cfg, r.states[j - 1], r.events[j - 1].call);
      }
    }
  }

  /** Whatever is decided among the first `n` events, the agent says keep, north-south scores nothing
      and east-west scores; and nobody asks for preemption. */
  ghost predicate KeepsAgainstDemand(r: Run, n: nat)
    requires r.Valid() && n <= |r.events|
  {
    forall k :: 0 <= k < n ==> !r.events[k].PreemptionRequested? && (r.events[k].Decided? ==>
      && r.events[k].call.agent == Some(0)
      && var (ns, ew) := Scores(r.cfg, r.states[k].coordination, r.events[k].call); ns <= 0.0 < ew)
  }

  /** With the learned agent on, the guard against starvation fails: over any number of such events
      north-south keeps the green it started with. */
  lemma {:induction false} AgentStarves(r: Run, n: nat)
    requires r.Valid() && n <= |r.events| && KeepsAgainstDemand(r, n)
    ensures HasGreen(r.states[n], NorthSouth) && r.states[n].startedAt == r.start && r.states[n].preempt.None?
  {
    hide Decide, Scores;
    if n > 0 {
      AgentStarves(r, n - 1);
      assert r.Linked(n - 1);
      if r.events[n - 1].Decided? {
        GreenStaysExactly(r.cfg, r.states[n - 1], r.events[n - 1].call);
        DecisionMoves(r.cfg, r.states[n - 1], r.events[n - 1].call);
      }
    }
  }

  const EMPTY := Demand(0, 0.0, 0.0, 0.0, 0.0, false)
  const QUEUE := Demand(20, 0.0, 0.0, 0.0, 0.0, false)

  function KeepCall(now: real): Call {
    Call(now, now, now, EMPTY, QUEUE, false, None, Some(0))
  }

  lemma KeepCallScores(cfg: Config, now: real)
    ensures Scores(cfg, None, KeepCall(now)) == (0.0, 0.3)
  {
  }

  /** Such runs exist for every number of calls and every call period: twenty vehicles wait on
      east-west for any length of time while the empty north-south keeps green. */
  lemma {:induction false} StarvingRun(cfg: Config, start: real, period: real, n: nat) returns (r: Run)
    requires 0.0 <= period
    ensures r.Valid() && r.cfg == cfg && r.start == start && |r.events| == n && KeepsAgainstDemand(r, n)
    ensures forall k :: 0 <= k < n ==>
              r.events[k] == Decided(KeepCall(start + Times((k + 1) as real, period)))
    ensures r.states[n].coordination.None?
    ensures forall k :: 0 <= k <= n ==> HasGreen(r.states[k], NorthSouth)
  {
    hide Decide, Scores, Times;
    if n == 0 {
      r := Run(cfg, start, [], [Init(start)]);
    } else {
      var q := StarvingRun(cfg, start, period, n - 1);
      var now := start + Times(n as real, period);
      PeriodAdvances(n, period);
      ExtendIsRun(q, Decided(KeepCall(now)));
      r := Extend(q, Decided(KeepCall(now)));
      KeepCallScores(cfg, now);
      DecisionMoves(cfg, q.states[n - 1], KeepCall(now));
      assert KeepsAgainstDemand(q, n - 1);
      AgentStarves(r, n);
    }
  }

  lemma PeriodAdvances(n: nat, period: real)
    requires 0.0 <= period && 0 < n
    ensures Times((n - 1) as real, period) <= Times(n as real, period) && Times(0 as real, period) == 0.0
    ensures 0.0 <= Times(n as real, period)
  {
    assert n as real == (n - 1) as real + 1.0;
    assert Times(n as real, period) == Times((n - 1) as real, period) + period;
  }

  // ---- preemption ----

  /** Direction `d` is preempted in the states `i..j`. */
  predicate HeldFor(r: Run, d: Direction, i: nat, j: nat) {
    j < |r.states| && forall k :: i <= k <= j ==> r.states[k].preempt == Some(d)
  }

  /** A decision under a preemption leaves a green alone: it is within its minimum, or no switch is
      asked for. The guard against starvation never fires. */
  predicate LeavesUnderPreemption(cfg: Config, d: Direction, active: Direction, startedAt: real, call: Call) {
    call.now - startedAt < cfg.minGreen || !AsksUnderPreemption(d, active, call.agent)
  }

  /** One decision on a green under a preemption. */
  lemma PreemptedGreenExactly(r: Run, d: Direction, k: nat)
    requires r.Valid() && k < |r.events| && HeldFor(r, d, k, k + 1)
    requires r.events[k].Decided? && r.states[k].phase.Green?
    ensures SamePhase(r.states[k], r.states[k + 1]) <==>
            LeavesUnderPreemption(r.cfg, d, r.states[k].active, r.states[k].startedAt, r.events[k].call)
    ensures !SamePhase(r.states[k], r.states[k + 1]) ==>
              r.states[k + 1].phase.Yellow? && r.states[k + 1].active == r.states[k].active
  {
    hide PositiveScores;
    PhaseStep(r, k);
  }

  /** Under a preemption a green, of either direction and whatever the agent does, is still on in state
      `j` exactly when every decision between left it alone. */
  lemma {:induction false} PreemptedGreenSurvivesExactly(r: Run, d: Direction, first: nat, j: nat)
    requires r.Valid() && first <= j <= |r.events| && HeldFor(r, d, first, j) && r.states[first].phase.Green?
    ensures (forall k :: first <= k <= j ==> SamePhase(r.states[first], r.states[k])) <==>
            (forall k :: first <= k < j && r.events[k].Decided? ==>
               LeavesUnderPreemption(r.cfg, d, r.states[first].active, r.states[first].startedAt, r.events[k].call))
    decreases j
  {
    hide LeavesUnderPreemption, PositiveScores, Moves;
    if first < j {
      PreemptedGreenSurvivesExactly(r, d, first, j - 1);
      PhaseStep(r, j - 1);
      if r.events[j - 1].Decided? && SamePhase(r.states[first], r.states[j - 1]) {
        PreemptedGreenExactly(r, d, j - 1);
      }
    }
  }

  /** From the start of a yellow, whatever is preempted and advised, the other direction has green
      within yellow, all-red, the longest pedestrian extension and two call periods. */
  lemma ClearanceHandsOver(r: Run, first: nat, n: nat, p: real)
    requires r.Valid() && first <= n < |r.events| && NonNegative(r.cfg) && 0.0 <= p && r.CallsWithin(p, n + 1)
    requires r.states[first].phase.Yellow? && (first > 0 ==> !r.states[first - 1].phase.Yellow?)
    requires r.events[n].Decided?
    requires forall k :: first <= k <= n ==> !HasGreen(r.states[k], Opposite(r.states[first].active))
    ensures r.events[n].call.now <= r.Since(first) + r.cfg.yellow + r.cfg.allRed + r.cfg.maxPedExtend + 2.0 * p
  {
    hide PositiveScores, Moves, Deadline;
    var d := Opposite(r.states[first].active);
    StartOfPhase(r, first, first);
    LastCallBounds(r, first);
    NoOwnGreen(r, first, n, d, p);
    ClearingDecision(r, n, d, p);
    YellowDeadline(r.cfg, r.states[first], d, r.LastCall(first), p);
  }

  lemma YellowDeadline(cfg: Config, e: Engine, goal: Direction, call: real, p: real)
    requires e.phase.Yellow? && e.active != goal && call <= e.startedAt && 0.0 <= p && NonNegative(cfg)
    ensures Deadline(cfg, e, goal, cfg.minGreen, call, p)
            <= e.startedAt + cfg.yellow + cfg.allRed + cfg.maxPedExtend + 2.0 * p
  {
  }

  /** On the way from a yellow to the other direction's green no green of its own comes up. */
  lemma {:induction false} NoOwnGreen(r: Run, first: nat, n: nat, d: Direction, p: real)
    requires r.Valid() && first <= n <= |r.events| && NonNegative(r.cfg) && 0.0 <= p && r.CallsWithin(p, n)
    requires r.states[first].phase.Yellow? && d == Opposite(r.states[first].active)
    requires forall k :: first <= k <= n ==> !HasGreen(r.states[k], d)
    ensures !r.states[n].phase.Green? && !r.states[n].phase.Red? && r.states[n].active != d
    ensures Deadline(r.cfg, r.states[n], d, r.cfg.minGreen, r.LastCall(n), p)
            <= Deadline(r.cfg, r.states[first], d, r.cfg.minGreen, r.LastCall(first), p)
    decreases n
  {
    hide Deadline, PositiveScores;
    if first < n {
      NoOwnGreen(r, first, n - 1, d, p);
      PhaseStep(r, n - 1);
      if r.events[n - 1].Decided? {
        ClearingDecision(r, n - 1, d, p);
      } else {
        SameDeadline(r.cfg, r.states[n - 1], r.states[n], d, r.cfg.minGreen, r.LastCall(n), p);
      }
    }
  }

  lemma ClearingDecision(r: Run, k: nat, d: Direction, p: real)
    requires r.Valid() && k < |r.events| && r.events[k].Decided? && NonNegative(r.cfg) && 0.0 <= p
    requires r.CallsWithin(p, k + 1)
    requires !r.states[k].phase.Green? && !r.states[k].phase.Red?
    ensures var now, green := r.events[k].call.now, r.cfg.minGreen;
            var before := Deadline(r.cfg, r.states[k], d, green, r.LastCall(k), p);
            && now <= before
            && (!HasGreen(r.states[k + 1], d) ==> Deadline(r.cfg, r.states[k + 1], d, green, now, p) <= before)
  {
    hide Deadline, PositiveScores;
    PhaseStep(r, k);
    LastCallBounds(r, k);
    var e, f, call := r.states[k], r.states[k + 1], r.events[k].call;
    var wants, other :| Moves(r.cfg, e, f, wants, other, call.pedestrian, call.now);
    DeadlineStep(r.cfg, e, f, d, r.cfg.minGreen, r.LastCall(k), call.now, p, wants, other, call.pedestrian);
  }

  /** A decision on a green past its minimum agrees with the preemption of `d`: it asks for a switch
      exactly when the other direction has the road. With the agent off it always does. */
  predicate Agrees(cfg: Config, d: Direction, e: Engine, call: Call) {
    e.phase.Green? && call.now - e.startedAt >= cfg.minGreen ==>
      (AsksUnderPreemption(d, e.active, call.agent) <==> e.active != d)
  }

  /** Direction `d` is preempted in the states `i..j` and the decisions between agree with it. */
  ghost predicate Preempted(r: Run, d: Direction, i: nat, j: nat, p: real) {
    && r.Valid() && i <= j <= |r.events| && NonNegative(r.cfg) && 0.0 <= p && r.CallsWithin(p, j)
    && HeldFor(r, d, i, j)
    && (forall k :: i <= k < j && r.events[k].Decided? ==> Agrees(r.cfg, d, r.states[k], r.events[k].call))
  }

  /** A preempted direction that has green keeps it until the preemption is released. */
  lemma {:induction false} PreemptedGreenStays(r: Run, d: Direction, i: nat, j: nat, p: real)
    requires Preempted(r, d, i, j, p) && HasGreen(r.states[i], d)
    ensures HasGreen(r.states[j], d)
    decreases j
  {
    hide PositiveScores;
    if i < j {
      PreemptedGreenStays(r, d, i, j - 1, p);
      PhaseStep(r, j - 1);
    }
  }

  lemma PreemptedDecision(r: Run, d: Direction, i: nat, p: real)
    requires Preempted(r, d, i, i + 1, p) && r.events[i].Decided? && !HasGreen(r.states[i], d)
    ensures var now, green := r.events[i].call.now, r.cfg.minGreen;
            var before := Deadline(r.cfg, r.states[i], d, green, r.LastCall(i), p);
            && now <= before
            && (!HasGreen(r.states[i + 1], d) ==> Deadline(r.cfg, r.states[i + 1], d, green, now, p) <= before)
  {
    hide Deadline, PositiveScores;
    PhaseStep(r, i);
    NeverRed(r, i);
    LastCallBounds(r, i);
    var e, f, call := r.states[i], r.states[i + 1], r.events[i].call;
    var wants, other :|
      && Moves(r.cfg, e, f, wants, other, call.pedestrian, call.now)
      && (f.preempt.Some? ==> wants == AsksUnderPreemption(f.preempt.value, e.active, call.agent) && other == 0.0);
    DeadlineStep(r.cfg, e, f, d, r.cfg.minGreen, r.LastCall(i), call.now, p, wants, other, call.pedestrian);
  }

  lemma {:induction false} PreemptedDeadline(r: Run, d: Direction, i: nat, j: nat, p: real)
    requires Preempted(r, d, i, j, p)
    ensures HasGreen(r.states[j], d)
            || Deadline(r.cfg, r.states[j], d, r.cfg.minGreen, r.LastCall(j), p)
               <= Deadline(r.cfg, r.states[i], d, r.cfg.minGreen, r.LastCall(i), p)
    decreases j
  {
    hide Deadline, Contested, Moves;
    if i < j {
      PreemptedDeadline(r, d, i, j - 1, p);
      if HasGreen(r.states[j - 1], d) {
        PreemptedGreenStays(r, d, j - 1, j, p);
      } else if r.events[j - 1].Decided? {
        PreemptedDecision(r, d, j - 1, p);
      } else {
        PhaseStep(r, j - 1);
        SameDeadline(r.cfg, r.states[j - 1], r.states[j], d, r.cfg.minGreen, r.LastCall(j), p);
      }
    }
  }

  /** The preemption bound, even when requested while the preempted direction is losing its green:
      when the advice agrees, a decision later than the request by more than minimum green, twice the
      clearance and five call periods finds the direction green and leaves it so. */
  lemma PreemptionBound(r: Run, d: Direction, i: nat, j: nat, p: real)
    requires Preempted(r, d, i, j + 1, p) && j < |r.events| && r.events[j].Decided?
    requires r.events[j].call.now
             > r.Since(i) + r.cfg.minGreen + 2.0 * (r.cfg.yellow + r.cfg.allRed + r.cfg.maxPedExtend) + 5.0 * p
    ensures HasGreen(r.states[j], d) && HasGreen(r.states[j + 1], d)
  {
    hide Contested, Moves;
    PreemptedDeadline(r, d, i, j, p);
    LastCallBounds(r, i);
    NeverRed(r, i);
    StartedBefore(r, i);
    if HasGreen(r.states[j], d) {
      PreemptedGreenStays(r, d, j, j + 1, p);
    } else if !HasGreen(r.states[i], d) {
      PreemptedDecision(r, d, j, p);
    } else {
      PreemptedGreenStays(r, d, i, j, p);
    }
  }

  /** What the learned agent can do to a preemption: from the start, with east-west preempted and the
      agent saying keep, north-south keeps green for any number of calls at any period. */
  lemma {:induction false} AgentBlocksPreemption(cfg: Config, start: real, period: real, n: nat) returns (r: Run)
    requires 0.0 <= period
    ensures r.Valid() && r.cfg == cfg && r.start == start && |r.events| == n + 1
    ensures r.events[0] == PreemptionRequested(start, EastWest, None)
    ensures forall k :: 1 <= k <= n ==> r.events[k] == Decided(KeepCall(start + Times(k as real, period)))
    ensures HeldFor(r, EastWest, 1, n + 1) && r.states[n + 1].preemptUntil.None?
    ensures forall k :: 0 <= k <= n + 1 ==> HasGreen(r.states[k], NorthSouth)
  {
    hide Decide, Scores, Times;
    if n == 0 {
      var q := Run(cfg, start, [], [Init(start)]);
      ExtendIsRun(q, PreemptionRequested(start, EastWest, None));
      r := Extend(q, PreemptionRequested(start, EastWest, None));
    } else {
      var q := AgentBlocksPreemption(cfg, start, period, n - 1);
      var call := KeepCall(start + Times(n as real, period));
      PeriodAdvances(n, period);
      ExtendIsRun(q, Decided(call));
      r := Extend(q, Decided(call));
      DecisionMoves(cfg, q.states[n], call);
      assert r.states[n + 1].preempt == Some(EastWest) && r.states[n] == q.states[n];
      PreemptedGreenExactly(r, EastWest, n);
    }
  }

  lemma {:induction false} StartedBefore(r: Run, n: nat)
    requires r.Valid() && n <= |r.events|
    ensures r.states[n].startedAt <= r.Since(n)
  {
    if n > 0 {
      StartedBefore(r, n - 1);
      PhaseStep(r, n - 1);
    }
  }
}
