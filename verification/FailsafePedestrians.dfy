/** Pedestrian service over whole runs: once started, walk and clearance run to their minima; walks
    that a decision commands directly do not. */
module FailsafePedestrians {
  import opened Options
  import opened Phases
  import opened Requests
  import opened FailsafeModel
  import opened FailsafeRuns
  import opened FailsafeNext

  /** Event `i` takes a call from the queue: only that makes the queue shorter. */
  ghost predicate StartsService(r: Run, i: nat)
    requires r.Valid() && i < |r.events|
  {
    |r.states[i + 1].ped.queue| < |r.states[i].ped.queue|
  }

  /** A started service: which call, at what moment, and what the tick commands. The start never
      cuts a vehicular green below its minimum, and the served call is one that no queued call
      outranks. */
  lemma ServiceStart(r: Run, i: nat)
    requires r.Valid() && i < |r.events| && StartsService(r, i)
    ensures r.events[i].Ticked?
    ensures IsGreen(r.states[i].signal.phase)
            ==> r.events[i].now - r.states[i].signal.enteredAt >= r.cfg.minGreen
    ensures exists call | call in r.states[i].ped.queue ::
              && (forall other :: other in r.states[i].ped.queue ==> !ServedBefore(other, call))
              && r.states[i + 1].ped.approach == Some(call.approach)
              && r.states[i + 1].ped.accessible == call.accessibility
    ensures !r.states[i + 1].watch.mode.AllRedFlash?
    ensures var ped := r.states[i + 1].ped;
            && ped.startedAt == r.events[i].now
            && ped.approach.Some?
            && (if 0 < r.cfg.WalkMin(ped.accessible)
                then ped.state.Walking? && r.states[i + 1].signal.phase == WalkFor(ped.approach.value)
                else ped.state.Clearing? && r.states[i + 1].signal.phase == ClearanceFor(ped.approach.value))
  {
    hide Step, NextCall;
    ReachableConsistent(r, i);
    assert r.Linked(i);
    var s, e := r.states[i], r.events[i];
    if !e.Ticked? {
      QuietStep(r.cfg, s, e);
    } else if r.states[i + 1].watch.mode.AllRedFlash? {
      FlashStep(r.cfg, s, e);
    } else if Serving(r.cfg, s.ped, e.now) {
      ServingStep(r.cfg, s, e);
    } else {
      IdleStep(r.cfg, s, e);
      var n := NextCall(s.ped.queue);
      assert s.ped.queue[n] in s.ped.queue;
    }
  }

  /** One event during a service: `ServingStep` for ticks, nothing but queueing otherwise. */
  lemma ServiceStep(r: Run, j: nat)
    requires r.Valid() && j < |r.events|
    requires r.states[j].ped.approach.Some? && !r.states[j + 1].watch.mode.AllRedFlash?
    requires r.events[j].Ticked? ==> Serving(r.cfg, r.states[j].ped, r.events[j].now)
    ensures var s, t, now := r.states[j], r.states[j + 1], r.events[j].now;
            if !r.events[j].Ticked? then
              t.ped == s.ped.(queue := t.ped.queue) && t.signal == s.signal
            else if s.ped.state.Walking? && now - s.ped.startedAt < r.cfg.WalkMin(s.ped.accessible) then
              t.ped == s.ped && t.signal.phase == WalkFor(s.ped.approach.value)
            else
              && t.signal.phase == ClearanceFor(s.ped.approach.value)
              && t.ped == if s.ped.state.Walking? then s.ped.(state := Clearing, startedAt := now) else s.ped
  {
    hide Step;
    ReachableConsistent(r, j);
    assert r.Linked(j);
    if r.events[j].Ticked? {
      ServingStep(r.cfg, r.states[j], r.events[j]);
    } else {
      QuietStep(r.cfg, r.states[j], r.events[j]);
    }
  }

  /** Without ALL_RED_FLASH, every tick of a started service commands its walk until the minimum
      walk of that call has passed, whatever other events arrive. */
  lemma {:induction false} WalkIsServed(r: Run, i: nat, j: nat)
    requires r.Valid() && i <= j < |r.events| && StartsService(r, i)
    requires r.NoFlash(i + 1, j + 1)
    requires r.TicksBefore(i, j, r.events[i].now + r.cfg.WalkMin(r.states[i + 1].ped.accessible))
    ensures var ped := r.states[i + 1].ped;
            && ped.approach.Some? && ped.state.Walking?
            && r.states[j + 1].ped == ped.(queue := r.states[j + 1].ped.queue)
            && (r.events[j].Ticked? ==> r.states[j + 1].signal.phase == WalkFor(ped.approach.value))
    decreases j
  {
    ServiceStart(r, i);
    if i < j {
      WalkIsServed(r, i, j - 1);
      ServiceStep(r, j);
    }
  }

  /** Spelled out: the walk of a north-south call shows for at least the minimum that its accessibility
      sets, and likewise east-west. */
  lemma WalkByApproach(r: Run, i: nat, j: nat)
    requires r.Valid() && i <= j < |r.events| && StartsService(r, i) && r.NoFlash(i + 1, j + 1) && r.events[j].Ticked?
    requires r.events[j].now - r.events[i].now
             < if r.states[i + 1].ped.accessible then r.cfg.adaMinWalk else r.cfg.pedMinWalk
    ensures r.states[i + 1].ped.approach == Some(NorthSouth) ==> r.states[j + 1].signal.phase == PedNsWalk
    ensures r.states[i + 1].ped.approach == Some(EastWest) ==> r.states[j + 1].signal.phase == PedEwWalk
  {
    hide Step;
    WalkIsServed(r, i, j);
  }

  lemma ClearanceByApproach(r: Run, i: nat, c: nat, j: nat)
    requires r.Valid() && i <= c <= j < |r.events| && StartsService(r, i)
    requires WalkEndsAt(r, i, c) && r.NoFlash(i + 1, j + 1)
    requires r.TicksBefore(c + 1, j, r.events[c].now + r.cfg.pedClearanceMin)
    ensures r.states[i + 1].ped.approach == Some(NorthSouth) ==> r.states[j + 1].signal.phase == PedNsClearance
    ensures r.states[i + 1].ped.approach == Some(EastWest) ==> r.states[j + 1].signal.phase == PedEwClearance
  {
    hide Step;
    ClearanceStaysCommanded(r, i, c, j);
  }

  /** Event `c` is the first tick at which the walk minimum of the service started at `i` is over. */
  ghost predicate WalkEndsAt(r: Run, i: nat, c: nat)
    requires r.Valid() && i <= c < |r.events|
  {
    var over := r.events[i].now + r.cfg.WalkMin(r.states[i + 1].ped.accessible);
    && r.events[c].Ticked?
    && over <= r.events[c].now
    && r.TicksBefore(i, c - 1, over)
  }

  lemma ClearanceBegins(r: Run, i: nat, c: nat)
    requires r.Valid() && i <= c < |r.events| && StartsService(r, i)
    requires WalkEndsAt(r, i, c) && r.NoFlash(i + 1, c + 1)
    ensures var ped := r.states[i + 1].ped;
            && ped.approach.Some?
            && r.states[c + 1].ped == ped.(queue := r.states[c + 1].ped.queue, state := Clearing,
                                          startedAt := r.events[c].now)
            && r.states[c + 1].signal.phase == ClearanceFor(ped.approach.value)
  {
    ServiceStart(r, i);
    if i < c {
      WalkIsServed(r, i, c - 1);
      ServiceStep(r, c);
    }
  }

  /** From the tick that ends the walk, every tick commands the clearance of the same approach
      until the minimum clearance has passed. */
  lemma {:induction false} ClearanceIsServed(r: Run, i: nat, c: nat, j: nat)
    requires r.Valid() && i <= c <= j < |r.events| && StartsService(r, i)
    requires WalkEndsAt(r, i, c) && r.NoFlash(i + 1, j + 1)
    requires r.TicksBefore(c + 1, j, r.events[c].now + r.cfg.pedClearanceMin)
    ensures var ped := r.states[i + 1].ped;
            && ped.approach.Some?
            && r.states[j + 1].ped == ped.(queue := r.states[j + 1].ped.queue, state := Clearing,
                                          startedAt := r.events[c].now)
            && (r.events[j].Ticked? ==> r.states[j + 1].signal.phase == ClearanceFor(ped.approach.value))
    decreases j
  {
    if j == c {
      ClearanceBegins(r, i, c);
    } else {
      ClearanceIsServed(r, i, c, j - 1);
      ServiceStep(r, j);
    }
  }

  /** Between ticks the clearance stays commanded. */
  lemma {:induction false} ClearanceStaysCommanded(r: Run, i: nat, c: nat, j: nat)
    requires r.Valid() && i <= c <= j < |r.events| && StartsService(r, i)
    requires WalkEndsAt(r, i, c) && r.NoFlash(i + 1, j + 1)
    requires r.TicksBefore(c + 1, j, r.events[c].now + r.cfg.pedClearanceMin)
    ensures r.states[i + 1].ped.approach.Some?
    ensures r.states[j + 1].signal.phase == ClearanceFor(r.states[i + 1].ped.approach.value)
    decreases j
  {
    ClearanceIsServed(r, i, c, j);
    if c < j && !r.events[j].Ticked? {
      ClearanceStaysCommanded(r, i, c, j - 1);
      ClearanceIsServed(r, i, c, j - 1);
      ServiceStep(r, j);
    }
  }

  /** At the first tick `e` past the clearance minimum the service is over: the tick serves the
      next call or commands its wish outright, because neither the guard kept for unmanaged walks
      nor minimum green holds anything back. */
  lemma ServiceEndsUnguarded(r: Run, i: nat, c: nat, e: nat)
    requires r.Valid() && i <= c < e < |r.events| && StartsService(r, i)
    requires WalkEndsAt(r, i, c) && r.NoFlash(i + 1, e + 1)
    requires r.TicksBefore(c + 1, e - 1, r.events[c].now + r.cfg.pedClearanceMin)
    requires r.events[e].Ticked? && r.events[c].now + r.cfg.pedClearanceMin <= r.events[e].now
    ensures var t, now := r.states[e + 1], r.events[e].now;
            && r.states[e].signal.clearanceUntil <= now
            && (StartsService(r, e)
                || (t.ped.approach.None? && t.signal.phase == IdleWish(r.cfg, t.watch, t.slot, now)))
  {
    hide Step, NextCall, CheckStaleness, ExpirePreempt, ScheduledPhase, WatchConsistent;
    ClearanceIsServed(r, i, c, e - 1);
    ClearanceStaysCommanded(r, i, c, e - 1);
    ReachableConsistent(r, e);
    assert r.Linked(e);
    IdleStep(r.cfg, r.states[e], r.events[e]);
  }

  // ---- the minimum walk of accessible calls ----

  /** The documented minimum: a tick of an accessible service, less than the larger of the two
      minima after its start, shows the walk. */
  ghost predicate KeepsLongerWalk(r: Run, i: nat, j: nat)
    requires r.Valid() && i <= j < |r.events|
  {
    StartsService(r, i) && r.states[i + 1].ped.accessible && r.NoFlash(i + 1, j + 1)
    && r.events[j].Ticked? && r.events[j].now < r.events[i].now + r.cfg.LongestWalk()
    ==> r.states[i + 1].ped.approach.Some?
        && r.states[j + 1].signal.phase == WalkFor(r.states[i + 1].ped.approach.value)
  }

  /** All runs of a configuration, at every tick rate, keep it. */
  ghost predicate KeepsLongerWalks(cfg: Config) {
    forall r: Run, i: nat, j: nat :: r.Valid() && r.cfg == cfg && i <= j < |r.events| ==> KeepsLongerWalk(r, i, j)
  }

  /** One accessible call, a tick that starts it, a tick one accessibility minimum later. */
  lemma AccessibleRun(cfg: Config) returns (r: Run)
    requires cfg.plan.Valid()
    ensures r.Valid() && r.cfg == cfg && |r.events| == 3
    ensures StartsService(r, 1) && r.states[2].ped.accessible && r.NoFlash(2, 3)
    ensures r.events[2] == Ticked(r.events[1].now + cfg.adaMinWalk)
  {
    hide Step, NextCall, Filter, CheckStaleness, IdleWish;
    var now := 1 + cfg.minGreen;
    var call := PedCall(cfg.intersectionId, NorthSouth, true, now, now + 1);
    StartIsRun(cfg, 1);
    var r0 := Run(cfg, 1, [], [Init(cfg, 1)]);
    ExtendIsRun(r0, PedCallArrives(now, Parsed(call)));
    var r1 := Extend(r0, PedCallArrives(now, Parsed(call)));
    ExtendIsRun(r1, Ticked(now));
    var r2 := Extend(r1, Ticked(now));
    ExtendIsRun(r2, Ticked(now + cfg.adaMinWalk));
    r := Extend(r2, Ticked(now + cfg.adaMinWalk));
    CallAtStart(cfg, call, now);
    FixedStaysFixed(cfg, r1.states[1], Ticked(now));
    IdleStep(cfg, r1.states[1], Ticked(now));
    FixedStaysFixed(cfg, r2.states[2], Ticked(now + cfg.adaMinWalk));
  }

  lemma CallAtStart(cfg: Config, call: PedCall, now: int)
    requires cfg.plan.Valid() && call.intersectionId == cfg.intersectionId && now < call.validUntil
    ensures Step(cfg, Init(cfg, 1), PedCallArrives(now, Parsed(call)))
            == Init(cfg, 1).(ped := Ped([call], NoPed, None, 0, false))
  {
  }

  lemma FixedStaysFixed(cfg: Config, s: State, e: Event)
    requires cfg.plan.Valid() && e.Ticked? && s.watch.mode.FixedTime?
    ensures Step(cfg, s, e).watch == s.watch
  {
  }

  /** A run in which an accessible service leaves the walk too early for the documented minimum. */
  lemma AccessibleWalkCutShort(cfg: Config) returns (r: Run, j: nat)
    requires cfg.plan.Valid() && cfg.adaMinWalk < cfg.pedMinWalk
    ensures r.Valid() && r.cfg == cfg && 1 <= j < |r.events| && StartsService(r, 1) && r.states[2].ped.accessible
    ensures r.events[j].Ticked? && r.events[j].now < r.events[1].now + cfg.pedMinWalk && r.NoFlash(2, j + 1)
    ensures r.states[2].ped.approach.Some?
    ensures r.states[j + 1].signal.phase == ClearanceFor(r.states[2].ped.approach.value)
  {
    r := AccessibleRun(cfg);
    ServiceStart(r, 1);
    if cfg.adaMinWalk == 0 {
      j := 1;
    } else {
      j := 2;
      ServiceStep(r, 2);
    }
  }

  /** The document holds an accessible walk for the larger of the two minima; the code holds it for
      the accessibility minimum. Every run keeps the documented time exactly when that minimum is at
      least the ordinary one. */
  lemma LongerWalksExactly(cfg: Config)
    requires cfg.plan.Valid()
    ensures KeepsLongerWalks(cfg) <==> cfg.pedMinWalk <= cfg.adaMinWalk
  {
    if cfg.pedMinWalk <= cfg.adaMinWalk {
      forall r: Run, i: nat, j: nat | r.Valid() && r.cfg == cfg && i <= j < |r.events|
        ensures KeepsLongerWalk(r, i, j)
      {
        if StartsService(r, i) && r.states[i + 1].ped.accessible && r.NoFlash(i + 1, j + 1)
           && r.events[j].Ticked? && r.events[j].now < r.events[i].now + r.cfg.LongestWalk() {
          WalkIsServed(r, i, j);
        }
      }
    } else {
      var r, j := AccessibleWalkCutShort(cfg);
      assert !KeepsLongerWalk(r, 1, j);
    }
  }

  // ---- walks the machine does not manage ----

  predicate NoFlashingDecision(w: Watch) {
    w.lastAccepted.Some? ==> w.lastAccepted.value.commandedPhase != FlashingRed
  }

  /** A walk commanded at `i` without the pedestrian machine is held for the clearance minimum
      as long as no service starts, the mode is not ALL_RED_FLASH and no decision asks for
      flashing red. */
  lemma {:induction false} UnmanagedWalkIsHeld(r: Run, i: nat, j: nat)
    requires r.Valid() && i <= j < |r.events|
    requires IsWalk(r.states[i + 1].signal.phase) && r.states[i].signal.phase != r.states[i + 1].signal.phase
    requires r.TicksBefore(i, j, r.events[i].now + r.cfg.pedClearanceMin)
    requires r.NoFlash(i + 1, j + 1)
    requires forall k :: i < k <= j + 1 ==> r.states[k].ped.state.NoPed? && NoFlashingDecision(r.states[k].watch)
    ensures r.states[j + 1].signal == r.states[i + 1].signal
    ensures r.states[j + 1].signal.clearanceUntil == r.events[i].now + r.cfg.pedClearanceMin
    decreases j
  {
    hide Step, NextCall;
    assert r.Linked(j);
    if i == j {
      WalkArmsGuard(r.cfg, r.states[i], r.events[i]);
    } else {
      UnmanagedWalkIsHeld(r, i, j - 1);
      ReachableConsistent(r, j);
      if r.events[j].Ticked? {
        IdleStep(r.cfg, r.states[j], r.events[j]);
      } else {
        QuietStep(r.cfg, r.states[j], r.events[j]);
      }
    }
  }

  lemma WalkArmsGuard(cfg: Config, s: State, e: Event)
    requires cfg.plan.Valid()
    ensures var t := Step(cfg, s, e);
            t.signal.phase != s.signal.phase && IsWalk(t.signal.phase)
            ==> t.signal.clearanceUntil == e.now + cfg.pedClearanceMin
  {
    if !e.Ticked? { QuietStep(cfg, s, e); }
  }

  /** A tick that follows a walk, or finds anything but a green on display, shows the clearance of
      `a` for exactly these reasons. */
  predicate BringsClearance(cfg: Config, s: State, now: int, a: Approach)
    requires cfg.plan.Valid()
  {
    var clearance, guarded := ClearanceFor(a), now < s.signal.clearanceUntil;
    && !Flashes(cfg, s.watch, now)
    && if Serving(cfg, s.ped, now) then ServedPhase(cfg, s.ped, now) == clearance
       else if PreemptLive(s.slot, now) then guarded && s.signal.phase == clearance
       else if s.ped.queue != [] then FirstPhase(cfg, NextServed(s.ped.queue)) == clearance
       else if guarded then s.signal.phase == clearance && !Schedule(cfg, s.watch, now).FlashingRed?
       else Follows(cfg, s.watch, now, clearance)
  }

  lemma ClearanceNextExactly(cfg: Config, start: int, s: State, before: int, now: int, a: Approach)
    requires Known(cfg, start, s, before, now) && !IsGreen(s.signal.phase)
    ensures Tick(cfg, s, now).signal.phase == ClearanceFor(a) <==> BringsClearance(cfg, s, now, a)
  {
    hide Tick, Evict, NextCall;
    TickShows(cfg, start, s, before, now);
  }

  /** When the machine does not manage the walk of `a`, the tick that ends it commands the clearance
      of `a` exactly when the mode after the watchdog is not ALL_RED_FLASH, no preempt is live, and
      either the next queued call is for `a` and has no minimum walk, or nobody is queued, the guard
      has run out and the decision in use asks for that clearance. The plan never does. */
  lemma WalkTurnsToClearanceExactly(cfg: Config, start: int, s: State, before: int, now: int, a: Approach)
    requires Known(cfg, start, s, before, now)
    requires s.signal.phase == WalkFor(a) && s.ped.state.NoPed?
    ensures Tick(cfg, s, now).signal.phase == ClearanceFor(a) <==>
            && !Flashes(cfg, s.watch, now) && !PreemptLive(s.slot, now)
            && if s.ped.queue != [] then
                 var call := NextServed(s.ped.queue); call.approach == a && cfg.WalkMin(call.accessibility) == 0
               else s.signal.clearanceUntil <= now && Follows(cfg, s.watch, now, ClearanceFor(a))
  {
    hide Tick, Flashes, NextCall, Follows;
    ClearanceNextExactly(cfg, start, s, before, now, a);
  }

  /** The tick that ends such a walk, at any time and whatever comes next: ALL_RED_FLASH, a preempt
      once the guard has run out, a call whose first phase differs, or nobody queued and flashing red
      or, once the guard has run out, any other phase asked for. */
  lemma UnmanagedWalkEndsExactly(cfg: Config, start: int, s: State, before: int, now: int)
    requires Known(cfg, start, s, before, now)
    requires IsWalk(s.signal.phase) && s.ped.state.NoPed?
    ensures Tick(cfg, s, now).signal.phase != s.signal.phase <==>
            || Flashes(cfg, s.watch, now)
            || var over := s.signal.clearanceUntil <= now;
               if PreemptLive(s.slot, now) then over
               else if s.ped.queue != [] then FirstPhase(cfg, NextServed(s.ped.queue)) != s.signal.phase
               else
                 var wish := Schedule(cfg, s.watch, now);
                 wish.FlashingRed? || (over && wish != s.signal.phase)
  {
    hide Tick, Flashes, Schedule, NextCall;
    TickShows(cfg, start, s, before, now);
  }

  /** The promise that a walk is followed by its full clearance: the event `e` that ends it commands
      the clearance, and so do all states up to `n` that come about within the minimum clearance. */
  ghost predicate ClearanceRuns(r: Run, e: nat, n: nat, a: Approach)
    requires r.Valid() && e < n <= |r.events|
  {
    && r.states[e + 1].signal.phase == ClearanceFor(a)
    && ShownUntil(r, e + 1, n, r.events[e].now + r.cfg.pedClearanceMin)
  }

  /** For a walk that the machine does not manage, the promise is kept exactly when the tick that
      ends it turns to the clearance for one of the reasons above and every tick within the minimum
      clearance has a reason to keep it on display. */
  lemma ClearancePromiseExactly(r: Run, e: nat, n: nat, a: Approach)
    requires r.Valid() && e < n <= |r.events| && r.events[e].Ticked?
    requires r.states[e].signal.phase == WalkFor(a) && r.states[e].ped.state.NoPed?
    ensures ClearanceRuns(r, e, n, a) <==>
            && BringsClearance(r.cfg, r.states[e], r.events[e].now, a)
            && TicksKeepDisplay(r, e + 1, n, r.events[e].now + r.cfg.pedClearanceMin)
  {
    hide Step, Tick, Consistent, BringsClearance, ShownUntil, TicksKeepDisplay;
    EventFacts(r, e);
    ClearanceNextExactly(r.cfg, r.start, r.states[e], r.Since(e), r.events[e].now, a);
    if r.states[e + 1].signal.phase == ClearanceFor(a) {
      LastsExactly(r, e + 1, n, r.events[e].now + r.cfg.pedClearanceMin);
    }
  }

  /** From the start: an operator selects AI_ADAPTIVE, a decision asks for a walk, one tick shows it. */
  lemma DecidedWalk(cfg: Config, start: int, d: Decision)
    requires cfg.plan.Valid() && 0 < start && Sound(cfg, d, start + cfg.minGreen) && IsWalk(d.commandedPhase)
    ensures var now := start + cfg.minGreen;
            var s1 := Step(cfg, Init(cfg, start), ModeForced(now, AiAdaptive));
            var s2 := Step(cfg, s1, DecisionArrives(now, Parsed(d)));
            var s3 := Step(cfg, s2, Ticked(now));
            && s3.signal == Signal(d.commandedPhase, now, now + cfg.pedClearanceMin)
            && s3.slot == Slot(None, 0) && s3.ped == Ped([], NoPed, None, 0, false)
            && s3.watch == s2.watch
            && s2.watch == Watch(AiAdaptive, now, Some(d), now, Some(d.decisionId), 0, 0, [])
  {
  }

  /** A walk cut short, from the start: an operator selects AI_ADAPTIVE, a decision asks for the
      north-south walk, one tick shows it, a call for east-west arrives, and the next tick, at the
      same instant, shows the east-west walk. */
  lemma UnmanagedWalkCutByCall(cfg: Config, start: int, d: Decision, call: PedCall)
    requires cfg.plan.Valid() && 0 < start && 0 < cfg.pedMinWalk && 0 < cfg.adaMinWalk && 0 < cfg.pedClearanceMin
    requires Sound(cfg, d, start + cfg.minGreen) && d.commandedPhase == PedNsWalk
    requires call.approach.EastWest? && call.intersectionId == cfg.intersectionId
    requires start + cfg.minGreen < call.validUntil
    ensures var now := start + cfg.minGreen;
            var s1 := Step(cfg, Init(cfg, start), ModeForced(now, AiAdaptive));
            var s2 := Step(cfg, s1, DecisionArrives(now, Parsed(d)));
            var s3 := Step(cfg, s2, Ticked(now));
            var s4 := Step(cfg, s3, PedCallArrives(now, Parsed(call)));
            var s5 := Step(cfg, s4, Ticked(now));
            && s3.signal == Signal(PedNsWalk, now, now + cfg.pedClearanceMin)
            && s5.signal.phase == PedEwWalk
  {
    hide Step;
    DecidedWalk(cfg, start, d);
    var now := start + cfg.minGreen;
    var s1 := Step(cfg, Init(cfg, start), ModeForced(now, AiAdaptive));
    var s2 := Step(cfg, s1, DecisionArrives(now, Parsed(d)));
    CallCuts(cfg, Step(cfg, s2, Ticked(now)), call, now);
  }

  lemma CallCuts(cfg: Config, s: State, call: PedCall, now: int)
    requires cfg.plan.Valid() && 0 < now && 0 < cfg.WalkMin(call.accessibility)
    requires s.watch.mode.AiAdaptive? && s.watch.lastAcceptedAt == now
    requires !IsGreen(s.signal.phase) && s.slot == Slot(None, 0) && s.ped == Ped([], NoPed, None, 0, false)
    requires call.intersectionId == cfg.intersectionId && now < call.validUntil
    ensures var t := Step(cfg, Step(cfg, s, PedCallArrives(now, Parsed(call))), Ticked(now));
            && t.signal.phase == WalkFor(call.approach)
            && t.ped == Ped([], Walking, Some(call.approach), now, call.accessibility)
  {
    var s1 := Step(cfg, s, PedCallArrives(now, Parsed(call)));
    assert s1 == s.(ped := s.ped.(queue := [call]));
    IdleStep(cfg, s1, Ticked(now));
  }

  /** A clearance that begins and is then cut, from the start: decisions ask for the walk and, once the
      guard has run out, for its clearance; a preempt for the crossing approach cuts it at once. */
  lemma UnmanagedClearanceCutByPreempt(cfg: Config, start: int, d: Decision, e: Decision, request: PreemptRequest)
    requires cfg.plan.Valid() && 0 < start
    requires Sound(cfg, d, start + cfg.minGreen) && d.commandedPhase == PedNsWalk
    requires Sound(cfg, e, start + cfg.minGreen + cfg.pedClearanceMin) && e.commandedPhase == PedNsClearance
    requires d.decisionId < e.decisionId
    requires request.approach.EastWest? && request.intersectionId == cfg.intersectionId
    requires start + cfg.minGreen + cfg.pedClearanceMin < request.validUntil
    ensures var now := start + cfg.minGreen;
            var s1 := Step(cfg, Init(cfg, start), ModeForced(now, AiAdaptive));
            var s2 := Step(cfg, s1, DecisionArrives(now, Parsed(d)));
            var s3 := Step(cfg, s2, Ticked(now));
            var later := now + cfg.pedClearanceMin;
            var s4 := Step(cfg, s3, DecisionArrives(later, Parsed(e)));
            var s5 := Step(cfg, s4, Ticked(later));
            var s6 := Step(cfg, s5, PreemptArrives(later, Parsed(request)));
            var s7 := Step(cfg, s6, Ticked(later));
            && s3.signal.phase == PedNsWalk && s5.signal.phase == PedNsClearance && s7.signal.phase == EvPreemptEw
  {
    hide Step;
    DecidedWalk(cfg, start, d);
    var now := start + cfg.minGreen;
    var s1 := Step(cfg, Init(cfg, start), ModeForced(now, AiAdaptive));
    var s2 := Step(cfg, s1, DecisionArrives(now, Parsed(d)));
    var later := now + cfg.pedClearanceMin;
    DecidedClearance(cfg, Step(cfg, s2, Ticked(now)), d, e, later);
  }

  lemma DecidedClearance(cfg: Config, s: State, d: Decision, e: Decision, later: int)
    requires cfg.plan.Valid() && 0 < later && s.watch.mode.AiAdaptive? && s.watch.lastAcceptedId == Some(d.decisionId)
    requires s.signal.phase == PedNsWalk && s.signal.clearanceUntil <= later
    requires s.slot == Slot(None, 0) && s.ped == Ped([], NoPed, None, 0, false)
    requires Sound(cfg, e, later) && e.commandedPhase == PedNsClearance && d.decisionId < e.decisionId
    ensures var t := Step(cfg, Step(cfg, s, DecisionArrives(later, Parsed(e))), Ticked(later));
            && t.signal.phase == PedNsClearance
            && forall request: PreemptRequest ::
                 request.approach.EastWest? && request.intersectionId == cfg.intersectionId
                 && later < request.validUntil
                 ==> Step(cfg, Step(cfg, t, PreemptArrives(later, Parsed(request))), Ticked(later)).signal.phase
                     == EvPreemptEw
  {
  }

  /** A walk held for its full time and still followed by no clearance, from the start: the second
      decision asks for a green once the guard has run out. */
  lemma UnmanagedWalkWithoutClearance(cfg: Config, start: int, d: Decision, e: Decision)
    requires cfg.plan.Valid() && 0 < start
    requires Sound(cfg, d, start + cfg.minGreen) && d.commandedPhase == PedNsWalk
    requires Sound(cfg, e, start + cfg.minGreen + cfg.pedClearanceMin) && e.commandedPhase == EwGreen
    requires d.decisionId < e.decisionId
    ensures var now := start + cfg.minGreen;
            var s1 := Step(cfg, Init(cfg, start), ModeForced(now, AiAdaptive));
            var s2 := Step(cfg, s1, DecisionArrives(now, Parsed(d)));
            var s3 := Step(cfg, s2, Ticked(now));
            var later := now + cfg.pedClearanceMin;
            var s4 := Step(cfg, s3, DecisionArrives(later, Parsed(e)));
            var s5 := Step(cfg, s4, Ticked(later));
            && s3.signal.phase == PedNsWalk && s5.signal.phase == EwGreen
  {
  }
}
