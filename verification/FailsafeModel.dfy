/** The failsafe controller as a state machine on values: one function per operation.
    Times are clock readings in nanoseconds and durations are nanoseconds. */
module FailsafeModel {
  import opened Options
  import opened Phases
  import opened Requests
  import opened FixedTimePlans

  datatype Mode = AiAdaptive | FixedTime | AllRedFlash

  datatype PedState = NoPed | Walking | Clearing

  datatype Config = Config(
    intersectionId: int,
    maxAiStaleness: nat,
    invalidDecisionBurst: int,
    fixedTimeMinDwell: nat,
    validToRecover: int,
    flapWindow: nat,
    flapThreshold: int,
    signatureRequired: bool,
    clockSkewTolerance: int,
    pedClearanceMin: nat,
    pedMinWalk: nat,
    adaMinWalk: nat,
    preemptMinDwell: nat,
    minGreen: nat,
    plan: Plan
  ) {
    function WalkMin(accessibility: bool): nat {
      if accessibility then adaMinWalk else pedMinWalk
    }

    function LongestWalk(): nat {
      if pedMinWalk < adaMinWalk then adaMinWalk else pedMinWalk
    }
  }

  /** Mode, watchdog and flap detector. */
  datatype Watch = Watch(
    mode: Mode,
    modeEnteredAt: int,
    lastAccepted: Option<Decision>,
    lastAcceptedAt: int,
    lastAcceptedId: Option<int>,
    consecutiveInvalid: int,
    consecutiveValid: int,
    drops: seq<int>
  )

  /** What the hardware was last told. */
  datatype Signal = Signal(phase: Phase, enteredAt: int, clearanceUntil: int)

  /** The emergency-preempt slot. */
  datatype Slot = Slot(request: Option<PreemptRequest>, armedAt: int)

  /** The pedestrian machine and its queue, a dictionary from approach to call that remembers
      insertion order: a sequence of calls with distinct approaches. */
  datatype Ped = Ped(
    queue: seq<PedCall>,
    state: PedState,
    approach: Option<Approach>,
    startedAt: int,
    accessible: bool
  )

  datatype State = State(watch: Watch, signal: Signal, slot: Slot, ped: Ped)

  function Init(cfg: Config, now: int): State
    requires cfg.plan.Valid()
  {
    State(Watch(FixedTime, now, None, 0, None, 0, 0, []),
          Signal(cfg.plan.PhaseAt(0), now, 0),
          Slot(None, 0),
          Ped([], NoPed, None, 0, false))
  }

  // ---- mode transitions ----

  /** Drop the leading timestamps older than `threshold`. */
  function Evict(times: seq<int>, threshold: int): seq<int> {
    if times != [] && times[0] < threshold then Evict(times[1..], threshold) else times
  }

  function Transition(cfg: Config, w: Watch, target: Mode, byOperator: bool, now: int): Watch {
    if target == w.mode || (w.mode.AllRedFlash? && !byOperator) then
      w
    else
      var kept := Evict(w.drops, now - cfg.flapWindow);
      if w.mode.AiAdaptive? && target.FixedTime? then
        var drops := Evict(kept + [now], now - cfg.flapWindow);
        if |drops| >= cfg.flapThreshold then
          w.(mode := AllRedFlash, modeEnteredAt := now, consecutiveValid := 0, drops := drops)
        else
          w.(mode := FixedTime, modeEnteredAt := now, drops := drops)
      else if target.AiAdaptive? then
        w.(mode := AiAdaptive, modeEnteredAt := now, consecutiveValid := 0, consecutiveInvalid := 0, drops := kept)
      else
        w.(mode := target, modeEnteredAt := now, drops := kept)
  }

  function OnInvalid(cfg: Config, w: Watch, now: int): Watch {
    var w1 := w.(consecutiveInvalid := w.consecutiveInvalid + 1, consecutiveValid := 0);
    if w1.mode.AiAdaptive? && w1.consecutiveInvalid >= cfg.invalidDecisionBurst
    then Transition(cfg, w1, FixedTime, false, now)
    else w1
  }

  function MaybeRecover(cfg: Config, w: Watch, now: int): Watch {
    if now - w.modeEnteredAt < cfg.fixedTimeMinDwell then w
    else if w.consecutiveValid < cfg.validToRecover then w
    else Transition(cfg, w, AiAdaptive, false, now)
  }

  function DecisionVerdict(cfg: Config, w: Watch, raw: Raw<Decision>, now: int): Verdict {
    match raw
    case Malformed(error) => Schema(error)
    case Parsed(m) =>
      ValidateDecision(m, cfg.intersectionId, w.lastAcceptedId, now, cfg.clockSkewTolerance, cfg.signatureRequired)
  }

  predicate Accepts(cfg: Config, w: Watch, raw: Raw<Decision>, now: int) {
    raw.Parsed? && DecisionVerdict(cfg, w, raw, now).Ok?
  }

  function SubmitDecision(cfg: Config, w: Watch, raw: Raw<Decision>, now: int): Watch {
    if !Accepts(cfg, w, raw, now) then
      OnInvalid(cfg, w, now)
    else
      var w1 := w.(lastAccepted := Some(raw.message), lastAcceptedAt := now,
                   lastAcceptedId := Some(raw.message.decisionId), consecutiveInvalid := 0);
      match w1.mode
      case FixedTime => MaybeRecover(cfg, w1.(consecutiveValid := w1.consecutiveValid + 1), now)
      case AiAdaptive => w1.(consecutiveValid := 0)
      case AllRedFlash => w1
  }

  function CheckStaleness(cfg: Config, w: Watch, now: int): Watch {
    if w.mode.AiAdaptive? && (w.lastAcceptedAt == 0 || now - w.lastAcceptedAt > cfg.maxAiStaleness)
    then Transition(cfg, w, FixedTime, false, now)
    else w
  }

  // ---- preempts and pedestrian calls ----

  function PreemptVerdict(cfg: Config, raw: Raw<PreemptRequest>, now: int): Verdict {
    match raw
    case Malformed(error) => Schema(error)
    case Parsed(r) => ValidateTimed(r.intersectionId, r.validUntil, cfg.intersectionId, now)
  }

  /** A valid request is still refused when the armed one ranks at least as high. */
  predicate PreemptArms(cfg: Config, slot: Slot, raw: Raw<PreemptRequest>, now: int) {
    && raw.Parsed?
    && PreemptVerdict(cfg, raw, now).Ok?
    && (slot.request.Some? ==> Rank(slot.request.value.priority) < Rank(raw.message.priority))
  }

  function SubmitPreempt(cfg: Config, slot: Slot, raw: Raw<PreemptRequest>, now: int): Slot {
    if PreemptArms(cfg, slot, raw, now) then Slot(Some(raw.message), now) else slot
  }

  function ClearPreempt(cfg: Config, slot: Slot, approach: Approach, now: int): Slot {
    if slot.request.None? || slot.request.value.approach != approach || now - slot.armedAt < cfg.preemptMinDwell
    then slot
    else Slot(None, 0)
  }

  function ExpirePreempt(slot: Slot, now: int): Slot {
    if slot.request.Some? && slot.request.value.validUntil <= now then Slot(None, 0) else slot
  }

  function FindCall(queue: seq<PedCall>, approach: Approach): (r: Option<nat>)
    ensures r.Some? ==> r.value < |queue| && queue[r.value].approach == approach
    ensures r.None? ==> forall i :: 0 <= i < |queue| ==> queue[i].approach != approach
  {
    if queue == [] then None
    else if queue[0].approach == approach then Some(0)
    else match FindCall(queue[1..], approach)
         case None => None
         case Some(i) => Some(i + 1)
  }

  /** Storing under a key that is present keeps the key's place. */
  function PutCall(queue: seq<PedCall>, call: PedCall): seq<PedCall> {
    match FindCall(queue, call.approach)
    case None => queue + [call]
    case Some(i) => queue[i := call]
  }

  function PedVerdict(cfg: Config, raw: Raw<PedCall>, now: int): Verdict {
    match raw
    case Malformed(error) => Schema(error)
    case Parsed(c) => ValidateTimed(c.intersectionId, c.validUntil, cfg.intersectionId, now)
  }

  /** A call for a queued approach changes the queue only when it upgrades it to accessibility. */
  function SubmitPedCall(cfg: Config, ped: Ped, raw: Raw<PedCall>, now: int): Ped {
    if raw.Malformed? || !PedVerdict(cfg, raw, now).Ok? then ped
    else
      var call := raw.message;
      var found := FindCall(ped.queue, call.approach);
      if found.None? || (call.accessibility && !ped.queue[found.value].accessibility)
      then ped.(queue := PutCall(ped.queue, call))
      else ped
  }

  /** Accessibility calls are served first, then the call with the older timestamp. */
  predicate ServedBefore(a: PedCall, b: PedCall) {
    || (a.accessibility && !b.accessibility)
    || (a.accessibility == b.accessibility && a.producerTimestamp < b.producerTimestamp)
  }

  /** Index of the first call that no other call is served before. */
  function NextCall(queue: seq<PedCall>): (i: nat)
    requires queue != []
    ensures i < |queue|
    ensures forall j :: 0 <= j < |queue| ==> !ServedBefore(queue[j], queue[i])
    ensures forall j :: 0 <= j < i ==> ServedBefore(queue[i], queue[j])
  {
    if |queue| == 1 then 0
    else
      var last := |queue| - 1;
      var i := NextCall(queue[..last]);
      if ServedBefore(queue[last], queue[i]) then last else i
  }

  function StartPed(ped: Ped, now: int): Ped
    requires ped.queue != []
  {
    var i := NextCall(ped.queue);
    Ped(ped.queue[..i] + ped.queue[i + 1..], Walking, Some(ped.queue[i].approach), now, ped.queue[i].accessibility)
  }

  /** Advance the pedestrian phase in flight, if any; None means nothing is in flight any more. */
  function ContinuePed(cfg: Config, ped: Ped, now: int): (Ped, Option<Phase>) {
    if ped.state.NoPed? || ped.approach.None? then (ped, None)
    else
      var elapsed := now - ped.startedAt;
      if ped.state.Walking? then
        if elapsed < cfg.WalkMin(ped.accessible)
        then (ped, Some(WalkFor(ped.approach.value)))
        else (ped.(state := Clearing, startedAt := now), Some(ClearanceFor(ped.approach.value)))
      else if elapsed < cfg.pedClearanceMin
      then (ped, Some(ClearanceFor(ped.approach.value)))
      else (ped.(state := NoPed, approach := None, accessible := false), None)
  }

  predicate SafeBoundaryForPed(cfg: Config, signal: Signal, now: int) {
    IsGreen(signal.phase) ==> now - signal.enteredAt >= cfg.minGreen
  }

  // ---- one tick ----

  function ScheduledPhase(cfg: Config, w: Watch, now: int): Phase
    requires cfg.plan.Valid()
  {
    if w.mode.FixedTime? then cfg.plan.PhaseAt(now - w.modeEnteredAt)
    else if w.lastAccepted.Some? then w.lastAccepted.value.commandedPhase
    else AllRed
  }

  /** The part of the choice that follows the check of the pedestrian phase in flight. */
  function DesiredWhenIdle(cfg: Config, w: Watch, signal: Signal, slot: Slot, ped: Ped, now: int): (Ped, Phase)
    requires cfg.plan.Valid()
  {
    if slot.request.Some? then (ped, PreemptFor(slot.request.value.approach))
    else if ped.queue != [] && SafeBoundaryForPed(cfg, signal, now) then
      var (started, phase) := ContinuePed(cfg, StartPed(ped, now), now);
      if phase.Some? then (started, phase.value) else (started, ScheduledPhase(cfg, w, now))
    else (ped, ScheduledPhase(cfg, w, now))
  }

  /** What a tick wants to command, before the safety filter. */
  function Desired(cfg: Config, w: Watch, signal: Signal, slot: Slot, ped: Ped, now: int): (Slot, Ped, Phase)
    requires cfg.plan.Valid()
  {
    if w.mode.AllRedFlash? then (slot, ped, FlashingRed)
    else
      var slot1 := ExpirePreempt(slot, now);
      var (ped1, phase) := ContinuePed(cfg, ped, now);
      if phase.Some? then (slot1, ped1, phase.value)
      else
        var (ped2, wanted) := DesiredWhenIdle(cfg, w, signal, slot1, ped1, now);
        (slot1, ped2, wanted)
  }

  /** The guard kept for walks the pedestrian machine does not manage. */
  predicate LegacyGuard(ped: PedState, signal: Signal, wanted: Phase, now: int) {
    && ped.NoPed?
    && signal.clearanceUntil != 0
    && now < signal.clearanceUntil
    && wanted != signal.phase
  }

  predicate MinGreenGuard(cfg: Config, signal: Signal, wanted: Phase, now: int) {
    && IsGreen(signal.phase)
    && now - signal.enteredAt < cfg.minGreen
    && wanted != signal.phase
    && !SameDirection(signal.phase, wanted)
  }

  function Filter(cfg: Config, mode: Mode, ped: PedState, signal: Signal, wanted: Phase, now: int): Phase {
    if mode.AllRedFlash? || wanted.FlashingRed? then FlashingRed
    else if LegacyGuard(ped, signal, wanted, now) then signal.phase
    else if MinGreenGuard(cfg, signal, wanted, now) then signal.phase
    else if IsGreen(wanted) && IsGreen(signal.phase) && IsConflicting(wanted, signal.phase)
    then if signal.phase.NsGreen? then NsYellow else EwYellow
    else wanted
  }

  function Command(cfg: Config, signal: Signal, phase: Phase, now: int): Signal {
    if phase == signal.phase then signal
    else Signal(phase, now, if IsWalk(phase) then now + cfg.pedClearanceMin else signal.clearanceUntil)
  }

  /** The phase a tick commands is the signal phase of its result. */
  function Tick(cfg: Config, s: State, now: int): State
    requires cfg.plan.Valid()
  {
    var w := CheckStaleness(cfg, s.watch, now);
    var (slot, ped, wanted) := Desired(cfg, w, s.signal, s.slot, s.ped, now);
    var phase := Filter(cfg, w.mode, ped.state, s.signal, wanted, now);
    State(w, Command(cfg, s.signal, phase, now), slot, ped)
  }

  // ---- status ----

  /** What the status report says; ages and dwell times are nanoseconds. */
  datatype Report = Report(
    mode: Mode,
    modeDwell: int,
    lastDecisionId: Option<int>,
    lastDecisionAge: Option<int>,
    commandedPhase: Phase,
    consecutiveInvalid: int,
    consecutiveValid: int,
    flapCount: nat
  )

  function ReportOf(cfg: Config, s: State, now: int): Report {
    var w := s.watch;
    Report(w.mode, now - w.modeEnteredAt, w.lastAcceptedId,
           if w.lastAcceptedAt == 0 then None else Some(now - w.lastAcceptedAt),
           s.signal.phase, w.consecutiveInvalid, w.consecutiveValid, |Evict(w.drops, now - cfg.flapWindow)|)
  }

  // ---- events ----

  datatype Event =
    | DecisionArrives(now: int, decision: Raw<Decision>)
    | PreemptArrives(now: int, preempt: Raw<PreemptRequest>)
    | PreemptCleared(now: int, approach: Approach)
    | PedCallArrives(now: int, call: Raw<PedCall>)
    | ModeForced(now: int, mode: Mode)
    | HardwareFault(now: int)
    | StatusRead(now: int)
    | Ticked(now: int)

  function Step(cfg: Config, s: State, e: Event): State
    requires cfg.plan.Valid()
  {
    match e
    case DecisionArrives(now, raw) => s.(watch := SubmitDecision(cfg, s.watch, raw, now))
    case PreemptArrives(now, raw) => s.(slot := SubmitPreempt(cfg, s.slot, raw, now))
    case PreemptCleared(now, approach) => s.(slot := ClearPreempt(cfg, s.slot, approach, now))
    case PedCallArrives(now, raw) => s.(ped := SubmitPedCall(cfg, s.ped, raw, now))
    case ModeForced(now, mode) => s.(watch := Transition(cfg, s.watch, mode, true, now))
    case HardwareFault(now) => s.(watch := Transition(cfg, s.watch, AllRedFlash, false, now))
    case StatusRead(now) => s.(watch := s.watch.(drops := Evict(s.watch.drops, now - cfg.flapWindow)))
    case Ticked(now) => Tick(cfg, s, now)
  }
}
