/** The recommendation engine as a state machine: what a call wants, and the phase machine that
    enforces timing on it. Times are clock readings in seconds. */
module EngineModel {
  import opened Options
  import opened Reals

  datatype Phase = Green | Yellow | AllRed | Red

  datatype Direction = NorthSouth | EastWest

  function Opposite(d: Direction): Direction {
    if d.NorthSouth? then EastWest else NorthSouth
  }

  datatype Config = Config(
    minGreen: real,
    maxGreen: real,
    yellow: real,
    allRed: real,
    maxPedExtend: real,
    switchThreshold: real,
    minSwitchVehicles: int,
    transitWeight: real,
    coordinationWeight: real,
    predictionWeight: real
  )

  /** What the sensors report for one direction. */
  datatype Demand = Demand(
    vehicles: int,
    emission: real,
    waiting: real,
    velocity: real,
    impact: real,
    transit: bool
  )

  /** Cycle lengths are positive: the remainder below divides by them. */
  type Cycle = x: real | 0.0 < x witness 1.0

  datatype Coordination = Coordination(offset: real, cycle: Cycle, green: real, direction: Direction)

  datatype Engine = Engine(
    phase: Phase,
    active: Direction,
    startedAt: real,
    pedHold: bool,
    preempt: Option<Direction>,
    preemptUntil: Option<real>,
    coordination: Option<Coordination>
  )

  /** One call: its three clock readings in order, the demand, the pedestrian signal, the forecast
      when there is one and the learned agent's action when it is in use and answers. */
  datatype Call = Call(
    coordinationNow: real,
    preemptionNow: real,
    now: real,
    ns: Demand,
    ew: Demand,
    pedestrian: bool,
    forecast: Option<(real, real)>,
    agent: Option<int>
  )

  function Init(now: real): Engine {
    Engine(Green, NorthSouth, now, false, None, None, None)
  }

  // ---- scores ----

  function Capped(x: real): real {
    if x > 1.0 then 1.0 else x
  }

  function DirectionScore(cfg: Config, d: Demand): real {
    var flow := (d.velocity - 5.0) / 50.0;
    var base := Capped((d.vehicles as real) / 20.0) * 0.30
                + Capped(d.emission / 200.0) * 0.30
                + Capped(d.waiting / 60.0) * 0.20
                + Capped(if flow < 0.0 then 0.0 else flow) * 0.20;
    var score := if d.transit then base + cfg.transitWeight else base;
    if d.impact > 70.0 then score * 1.2 else score
  }

  /** The approach the green wave favours at `now`. */
  function CoordinationDirection(coordination: Option<Coordination>, now: real): Option<Direction>
  {
    if coordination.None? then None
    else
      var c := coordination.value;
      if Mod(now - c.offset, c.cycle) < c.green then Some(c.direction) else None
  }

  /** Scores of north-south and east-west after forecast and coordination. */
  function Scores(cfg: Config, coordination: Option<Coordination>, call: Call): (real, real)
  {
    var ns := DirectionScore(cfg, call.ns);
    var ew := DirectionScore(cfg, call.ew);
    var ns1 := if call.forecast.Some? then ns + Times(call.forecast.value.0, cfg.predictionWeight) else ns;
    var ew1 := if call.forecast.Some? then ew + Times(call.forecast.value.1, cfg.predictionWeight) else ew;
    match CoordinationDirection(coordination, call.coordinationNow)
    case Some(NorthSouth) => (ns1 + cfg.coordinationWeight, ew1)
    case Some(EastWest) => (ns1, ew1 + cfg.coordinationWeight)
    case None => (ns1, ew1)
  }

  // ---- what a call wants ----

  function ExpirePreemption(e: Engine, now: real): Engine {
    if e.preempt.Some? && e.preemptUntil.Some? && e.preemptUntil.value <= now
    then e.(preempt := None, preemptUntil := None)
    else e
  }

  predicate RuleWantsSwitch(cfg: Config, active: Direction, winner: Direction, score: real, other: real,
                            waiting: int, current: int) {
    && winner != active
    && score > Times(other, cfg.switchThreshold)
    && !(waiting < cfg.minSwitchVehicles && current > 0)
  }

  /** The switch request and the score of the direction that did not win. */
  function Wish(cfg: Config, e: Engine, call: Call): (bool, real)
  {
    var (ns, ew) := Scores(cfg, e.coordination, call);
    var nsWins := ns > ew;
    var other := if e.preempt.Some? then 0.0 else if nsWins then ew else ns;
    var wants :=
      if e.preempt.Some? then e.active != e.preempt.value
      else if nsWins then RuleWantsSwitch(cfg, e.active, NorthSouth, ns, ew, call.ns.vehicles, call.ew.vehicles)
      else RuleWantsSwitch(cfg, e.active, EastWest, ew, ns, call.ew.vehicles, call.ns.vehicles);
    var decided :=
      match call.agent
      case None => wants
      case Some(action) =>
        if action == 1 then e.active != NorthSouth
        else if action == 2 then e.active != EastWest
        else false;
    (decided, other)
  }

  // ---- the phase machine ----

  function Begin(e: Engine, phase: Phase, now: real): Engine {
    e.(phase := phase, startedAt := now)
  }

  function AdvancePhase(cfg: Config, e: Engine, wantsSwitch: bool, otherDemand: real, pedestrian: bool,
                        now: real): Engine {
    var elapsed := now - e.startedAt;
    match e.phase
    case Green =>
      if elapsed < cfg.minGreen then e
      else if wantsSwitch || (elapsed >= cfg.maxGreen && otherDemand > 0.0) then Begin(e, Yellow, now)
      else e
    case Yellow =>
      if elapsed >= cfg.yellow then Begin(e, AllRed, now) else e
    case AllRed =>
      var hold := pedestrian && elapsed >= cfg.allRed && elapsed < cfg.allRed + cfg.maxPedExtend;
      var e1 := e.(pedHold := hold);
      if elapsed >= cfg.allRed && !hold
      then Begin(e1.(active := Opposite(e.active)), Green, now)
      else e1
    case Red => Begin(e, Green, now)
  }

  function Decide(cfg: Config, e: Engine, call: Call): Engine
  {
    var e1 := ExpirePreemption(e, call.preemptionNow);
    var (wants, other) := Wish(cfg, e1, call);
    AdvancePhase(cfg, e1, wants, other, call.pedestrian, call.now)
  }

  // ---- events ----

  datatype Event =
    | Decided(call: Call)
    | PreemptionRequested(at: real, direction: Direction, hold: Option<real>)
    | PreemptionCleared(at: real)
    | CoordinationSet(at: real, coordination: Coordination)
    | CoordinationCleared(at: real)
  {
    function Time(): real {
      if Decided? then call.now else at
    }

    /** The clock never goes back, neither between events nor within a call. */
    predicate Follows(before: real) {
      if Decided? then before <= call.coordinationNow <= call.preemptionNow <= call.now else before <= at
    }
  }

  /** A hold of zero seconds counts as no limit. */
  function RequestPreemption(e: Engine, at: real, direction: Direction, hold: Option<real>): Engine {
    e.(preempt := Some(direction),
       preemptUntil := if hold.Some? && hold.value != 0.0 then Some(at + hold.value) else None)
  }

  function Step(cfg: Config, e: Engine, event: Event): Engine
  {
    match event
    case Decided(call) => Decide(cfg, e, call)
    case PreemptionRequested(at, direction, hold) => RequestPreemption(e, at, direction, hold)
    case PreemptionCleared(_) => e.(preempt := None, preemptUntil := None)
    case CoordinationSet(_, c) => e.(coordination := Some(c))
    case CoordinationCleared(_) => e.(coordination := None)
  }
}
