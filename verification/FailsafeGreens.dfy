/** Vehicular greens over whole runs: minimum green, no direct swap, and where the clearance
    between conflicting phases is missing. */
module FailsafeGreens {
  import opened Options
  import opened FixedTimePlans
  import opened Phases
  import opened Requests
  import opened FailsafeModel
  import opened FailsafeRuns
  import opened FailsafeNext

  /** States `first..last` all command `g`, and `g` was not commanded just before. */
  ghost predicate Streak(r: Run, first: nat, last: nat, g: Phase)
    requires r.Valid()
  {
    && first <= last <= |r.events|
    && (forall k :: first <= k <= last ==> r.states[k].signal.phase == g)
    && (first > 0 ==> r.states[first - 1].signal.phase != g)
  }

  lemma PhaseStartFollowsPhase(cfg: Config, s: State, e: Event)
    requires cfg.plan.Valid()
    ensures var t := Step(cfg, s, e);
            t.signal.enteredAt == if t.signal.phase == s.signal.phase then s.signal.enteredAt else e.now
  {
  }

  /** The stored phase start is when the streak began. */
  lemma {:induction false} StreakStart(r: Run, first: nat, last: nat, g: Phase)
    requires r.Valid() && Streak(r, first, last, g)
    ensures r.states[last].signal.enteredAt == r.Since(first)
    decreases last
  {
    hide Step;
    if last > 0 {
      assert r.Linked(last - 1);
      PhaseStartFollowsPhase(r.cfg, r.states[last - 1], r.events[last - 1]);
      if first < last {
        StreakStart(r, first, last - 1, g);
      }
    }
  }

  lemma StepHoldsGreen(cfg: Config, s: State, e: Event)
    requires cfg.plan.Valid()
    requires IsGreen(s.signal.phase) && e.now - s.signal.enteredAt < cfg.minGreen
    ensures var out := Step(cfg, s, e).signal.phase;
            out == s.signal.phase || out.FlashingRed? || SameDirection(s.signal.phase, out)
  {
    if !e.Ticked? { QuietStep(cfg, s, e); }
  }

  /** A commanded green gives way before its minimum only to flashing red or to the preempt
      of its own direction, whatever events the run contains. */
  lemma GreenLastsItsMinimum(r: Run, first: nat, last: nat, g: Phase)
    requires r.Valid() && IsGreen(g)
    requires Streak(r, first, last, g) && last < |r.events|
    requires r.states[last + 1].signal.phase != g
    ensures var out := r.states[last + 1].signal.phase;
            || r.events[last].now - r.Since(first) >= r.cfg.minGreen
            || out.FlashingRed?
            || out == (if g.NsGreen? then EvPreemptNs else EvPreemptEw)
  {
    hide Step;
    StreakStart(r, first, last, g);
    assert r.Linked(last);
    if r.events[last].now - r.Since(first) < r.cfg.minGreen {
      StepHoldsGreen(r.cfg, r.states[last], r.events[last]);
    }
  }

  lemma StepNeverSwaps(cfg: Config, s: State, e: Event)
    requires cfg.plan.Valid() && IsGreen(s.signal.phase)
    ensures var out := Step(cfg, s, e).signal.phase; IsGreen(out) ==> out == s.signal.phase
  {
    if !e.Ticked? { QuietStep(cfg, s, e); }
  }

  lemma {:induction false} SignalHeldBetweenTicks(r: Run, i: nat, j: nat)
    requires r.Valid() && i <= j <= |r.events|
    requires forall k :: i <= k < j ==> !r.events[k].Ticked?
    ensures r.states[i].signal == r.states[j].signal
    decreases j
  {
    hide Step;
    if i < j {
      SignalHeldBetweenTicks(r, i, j - 1);
      assert r.Linked(j - 1);
      QuietStep(r.cfg, r.states[j - 1], r.events[j - 1]);
    }
  }

  /** No two consecutive ticks command the two conflicting greens, in either order. */
  lemma NoDirectSwap(r: Run, i: nat, j: nat)
    requires r.Valid() && i < j < |r.events| && r.events[i].Ticked? && r.events[j].Ticked?
    requires forall k :: i < k < j ==> !r.events[k].Ticked?
    ensures IsGreen(r.states[i + 1].signal.phase) && IsGreen(r.states[j + 1].signal.phase)
            ==> r.states[i + 1].signal.phase == r.states[j + 1].signal.phase
  {
    hide Step;
    SignalHeldBetweenTicks(r, i + 1, j);
    assert r.Linked(j);
    if IsGreen(r.states[j].signal.phase) {
      StepNeverSwaps(r.cfg, r.states[j], r.events[j]);
    }
  }

  // ---- yellow and all-red between the greens ----

  /** A tick on any phase but a green commands green `g` exactly when nothing stands above the
      schedule, the guard kept for unmanaged walks has run out, and plan or decision ask for `g`:
      the phase that is on display plays no part. */
  lemma GreenNextExactly(cfg: Config, start: int, s: State, before: int, now: int, g: Phase)
    requires Known(cfg, start, s, before, now) && IsGreen(g) && !IsGreen(s.signal.phase)
    ensures Tick(cfg, s, now).signal.phase == g <==>
            Free(cfg, s, now) && s.signal.clearanceUntil <= now && Schedule(cfg, s.watch, now) == g
  {
    hide Tick, Flashes, Schedule, NextCall;
    TickShows(cfg, start, s, before, now);
  }

  /** The schedule reaches the signal: nothing stands above it, and no hold applies. */
  predicate ScheduleRules(cfg: Config, s: State, now: int) {
    Free(cfg, s, now) && s.signal.clearanceUntil <= now && !Young(cfg, s.signal, now)
  }

  /** What makes a tick bring on the yellow of `a`: plan or decision ask for it, or they ask for the
      crossing green while its own green is on. */
  predicate BringsYellow(cfg: Config, s: State, now: int, a: Approach)
    requires cfg.plan.Valid()
  {
    && ScheduleRules(cfg, s, now)
    && var wish := Schedule(cfg, s.watch, now);
       wish == YellowFor(a) || (s.signal.phase == GreenFor(a) && wish == GreenFor(Across(a)))
  }

  /** What makes a tick bring on all-red: plan or decision ask for it, and nothing else does. */
  predicate BringsAllRed(cfg: Config, s: State, now: int)
    requires cfg.plan.Valid()
  {
    ScheduleRules(cfg, s, now) && Schedule(cfg, s.watch, now) == AllRed
  }

  lemma ClearanceBegunExactly(cfg: Config, start: int, s: State, before: int, now: int, a: Approach)
    requires Known(cfg, start, s, before, now)
    ensures s.signal.phase != YellowFor(a) ==>
              (Tick(cfg, s, now).signal.phase == YellowFor(a) <==> BringsYellow(cfg, s, now, a))
    ensures s.signal.phase != AllRed ==>
              (Tick(cfg, s, now).signal.phase == AllRed <==> BringsAllRed(cfg, s, now))
  {
    hide Tick, Flashes, Schedule, NextCall;
    TickShows(cfg, start, s, before, now);
  }

  /** From green or preempt for `a` in state `i` to green or preempt across in state `j`, with
      neither for any approach between. */
  predicate Changeover(r: Run, i: nat, j: nat, a: Approach) {
    && i < j < |r.states|
    && Serves(r.states[i].signal.phase, a) && Serves(r.states[j].signal.phase, Across(a))
    && forall k :: i < k < j ==>
         !Serves(r.states[k].signal.phase, a) && !Serves(r.states[k].signal.phase, Across(a))
  }

  ghost predicate ShowsYellowThenAllRed(r: Run, i: nat, j: nat, a: Approach)
    requires j < |r.states|
  {
    exists y, x :: i < y < x < j && r.states[y].signal.phase == YellowFor(a) && r.states[x].signal.phase == AllRed
  }

  ghost predicate Schedules(r: Run, i: nat, j: nat, a: Approach)
    requires r.Valid() && j <= |r.events|
  {
    exists y, x :: i <= y < x < j && TickBringsYellow(r, y, a) && TickBringsAllRed(r, x)
  }

  ghost predicate TickBringsYellow(r: Run, i: nat, a: Approach)
    requires r.Valid() && i < |r.events|
  {
    r.events[i].Ticked? && BringsYellow(r.cfg, r.states[i], r.events[i].now, a)
  }

  ghost predicate TickBringsAllRed(r: Run, i: nat)
    requires r.Valid() && i < |r.events|
  {
    r.events[i].Ticked? && BringsAllRed(r.cfg, r.states[i], r.events[i].now)
  }

  /** An event on another phase commands the yellow of `a`, or all-red, exactly when it is a tick
      that brings it on. */
  lemma EventBrings(r: Run, i: nat, a: Approach)
    requires r.Valid() && i < |r.events|
    ensures r.states[i].signal.phase != YellowFor(a) ==>
              (r.states[i + 1].signal.phase == YellowFor(a) <==> TickBringsYellow(r, i, a))
    ensures r.states[i].signal.phase != AllRed ==>
              (r.states[i + 1].signal.phase == AllRed <==> TickBringsAllRed(r, i))
  {
    hide Step, Tick, BringsYellow, BringsAllRed, Consistent;
    EventFacts(r, i);
    if r.events[i].Ticked? {
      ClearanceBegunExactly(r.cfg, r.start, r.states[i], r.Since(i), r.events[i].now, a);
    }
  }

  /** A phase that is on in state `k` but not in state `i` was brought on by some event between. */
  lemma {:induction false} BroughtOn(r: Run, i: nat, k: nat, p: Phase) returns (e: nat)
    requires i < k < |r.states| && r.states[i].signal.phase != p && r.states[k].signal.phase == p
    ensures i <= e < k && r.states[e].signal.phase != p && r.states[e + 1].signal.phase == p
    decreases k
  {
    if r.states[k - 1].signal.phase == p {
      e := BroughtOn(r, i, k - 1, p);
    } else {
      e := k - 1;
    }
  }

  /** Between phases that let conflicting approaches drive, preempts included, yellow and then all-red
      are shown exactly when plan or decisions ask for them: some tick brings on the yellow, by an
      outright wish or because the crossing green was asked for during green, and a later tick finds
      all-red asked for. No all-red is ever inserted, and no yellow after a preempt. */
  lemma IntergreenExactly(r: Run, i: nat, j: nat, a: Approach)
    requires r.Valid() && Changeover(r, i, j, a)
    ensures ShowsYellowThenAllRed(r, i, j, a) <==> Schedules(r, i, j, a)
  {
    hide Step, TickBringsYellow, TickBringsAllRed;
    if ShowsYellowThenAllRed(r, i, j, a) {
      var y, x :| i < y < x < j && r.states[y].signal.phase == YellowFor(a) && r.states[x].signal.phase == AllRed;
      var y0 := BroughtOn(r, i, y, YellowFor(a));
      var x0 := BroughtOn(r, y, x, AllRed);
      EventBrings(r, y0, a);
      EventBrings(r, x0, a);
    }
    if Schedules(r, i, j, a) {
      var y, x :| i <= y < x < j && TickBringsYellow(r, y, a) && TickBringsAllRed(r, x);
      YellowIsShown(r, y, a);
      AllRedIsShown(r, x);
    }
  }

  lemma YellowIsShown(r: Run, y: nat, a: Approach)
    requires r.Valid() && y < |r.events| && TickBringsYellow(r, y, a)
    ensures r.states[y + 1].signal.phase == YellowFor(a)
  {
    hide Step, NextCall, Flashes, Schedule;
    EventShows(r, y);
  }

  lemma AllRedIsShown(r: Run, x: nat)
    requires r.Valid() && x < |r.events| && TickBringsAllRed(r, x)
    ensures r.states[x + 1].signal.phase == AllRed
  {
    hide Step, NextCall, Flashes, Schedule;
    EventShows(r, x);
  }

  /** Yellow and then all-red, each on display for a given time from when it came on. */
  ghost predicate ShowsFullIntergreen(r: Run, i: nat, j: nat, a: Approach, yellow: nat, allRed: nat)
    requires r.Valid() && j <= |r.events|
  {
    exists y, x :: i <= y < x < j && ComesOn(r, y, j, YellowFor(a), yellow) && ComesOn(r, x, j, AllRed, allRed)
  }

  ghost predicate ComesOn(r: Run, e: nat, n: nat, p: Phase, time: nat)
    requires r.Valid() && e < n <= |r.events|
  {
    && r.states[e].signal.phase != p && r.states[e + 1].signal.phase == p
    && ShownUntil(r, e + 1, n, r.events[e].now + time)
  }

  ghost predicate SchedulesFullIntergreen(r: Run, i: nat, j: nat, a: Approach, yellow: nat, allRed: nat)
    requires r.Valid() && j <= |r.events|
  {
    exists y, x :: i <= y < x < j && YellowAsked(r, y, j, a, yellow) && AllRedAsked(r, x, j, allRed)
  }

  ghost predicate YellowAsked(r: Run, e: nat, n: nat, a: Approach, time: nat)
    requires r.Valid() && e < n <= |r.events|
  {
    && r.states[e].signal.phase != YellowFor(a) && TickBringsYellow(r, e, a)
    && TicksKeepDisplay(r, e + 1, n, r.events[e].now + time)
  }

  ghost predicate AllRedAsked(r: Run, e: nat, n: nat, time: nat)
    requires r.Valid() && e < n <= |r.events|
  {
    && r.states[e].signal.phase != AllRed && TickBringsAllRed(r, e)
    && TicksKeepDisplay(r, e + 1, n, r.events[e].now + time)
  }

  lemma AskedComesOn(r: Run, e: nat, n: nat, a: Approach, time: nat)
    requires r.Valid() && e < n <= |r.events|
    ensures ComesOn(r, e, n, YellowFor(a), time) <==> YellowAsked(r, e, n, a, time)
    ensures ComesOn(r, e, n, AllRed, time) <==> AllRedAsked(r, e, n, time)
  {
    hide Step, ShownUntil, TicksKeepDisplay, TickBringsYellow, TickBringsAllRed;
    EventBrings(r, e, a);
    if Unprotected(r.states[e + 1].signal.phase) {
      LastsExactly(r, e + 1, n, r.events[e].now + time);
    }
  }

  /** The same with times: yellow and all-red are shown in full exactly when ticks bring them on and
      every tick within their time keeps them. */
  lemma FullIntergreenExactly(r: Run, i: nat, j: nat, a: Approach, yellow: nat, allRed: nat)
    requires r.Valid() && i < j <= |r.events|
    ensures ShowsFullIntergreen(r, i, j, a, yellow, allRed) <==> SchedulesFullIntergreen(r, i, j, a, yellow, allRed)
  {
    hide ComesOn, YellowAsked, AllRedAsked;
    forall e, time: nat | i <= e < j
      ensures ComesOn(r, e, j, YellowFor(a), time) <==> YellowAsked(r, e, j, a, time)
      ensures ComesOn(r, e, j, AllRed, time) <==> AllRedAsked(r, e, j, time)
    {
      AskedComesOn(r, e, j, a, time);
    }
  }

  /** One tick leads straight from a phase into a conflicting one exactly in these cases: a live
      preempt conflicts and no hold applies; a call is taken up whose first phase conflicts; or plan
      or decision ask for a conflicting phase, the two are not both greens, and no hold applies. */
  lemma StraightIntoConflictExactly(cfg: Config, start: int, s: State, before: int, now: int)
    requires Known(cfg, start, s, before, now)
    ensures IsConflicting(s.signal.phase, Tick(cfg, s, now).signal.phase) <==>
            && !Flashes(cfg, s.watch, now) && !Serving(cfg, s.ped, now)
            && var open := s.signal.clearanceUntil <= now && !Young(cfg, s.signal, now);
               if PreemptLive(s.slot, now) then
                 open && IsConflicting(s.signal.phase, PreemptFor(s.slot.request.value.approach))
               else if CallStarts(cfg, s, now) then
                 IsConflicting(s.signal.phase, FirstPhase(cfg, NextServed(s.ped.queue)))
               else
                 var wish := Schedule(cfg, s.watch, now);
                 open && IsConflicting(s.signal.phase, wish) && !(IsGreen(s.signal.phase) && IsGreen(wish))
  {
    hide Tick, Flashes, Schedule, NextCall;
    TickShows(cfg, start, s, before, now);
  }

  // ---- runs from the start that lack clearance ----

  /** Two events suffice: a preempt for the crossing approach, then a tick after minimum green. */
  lemma PreemptCutsAcrossWithoutClearance(cfg: Config, start: int, request: PreemptRequest)
    requires cfg.plan.Valid() && 0 < start && 0 < cfg.plan.nsGreen
    requires request.approach == EastWest && request.intersectionId == cfg.intersectionId
    requires start + cfg.minGreen < request.validUntil
    ensures var arrives, ticks := PreemptArrives(start, Parsed(request)), Ticked(start + cfg.minGreen);
            var s1 := Step(cfg, Init(cfg, start), arrives);
            && s1.signal.phase == NsGreen
            && Step(cfg, s1, ticks).signal.phase == EvPreemptEw
            && IsConflicting(NsGreen, EvPreemptEw)
  {
  }

  /** And back: the preempt expires at a tick, and the plan's crossing green follows at once. */
  lemma PreemptGivesWayWithoutClearance(cfg: Config, start: int, request: PreemptRequest)
    requires cfg.plan.Valid() && 0 < start
    requires request.approach == EastWest && request.intersectionId == cfg.intersectionId
    requires start + cfg.minGreen < request.validUntil
    requires request.validUntil < start + cfg.plan.nsGreen && request.validUntil < start + cfg.plan.cycle
    ensures var s1 := Step(cfg, Init(cfg, start), PreemptArrives(start, Parsed(request)));
            var s2 := Step(cfg, s1, Ticked(start + cfg.minGreen));
            var s3 := Step(cfg, s2, Ticked(request.validUntil));
            && s2.signal.phase == EvPreemptEw && s3.signal.phase == NsGreen && IsConflicting(EvPreemptEw, NsGreen)
  {
    hide Step;
    PreemptCutsAcrossWithoutClearance(cfg, start, request);
    var s1 := Step(cfg, Init(cfg, start), PreemptArrives(start, Parsed(request)));
    PreemptIsArmed(cfg, Init(cfg, start), start, request);
    TickUnderPreempt(cfg, s1, start + cfg.minGreen, request);
    ExpiryShowsPlan(cfg, Step(cfg, s1, Ticked(start + cfg.minGreen)), start, request);
  }

  lemma PreemptIsArmed(cfg: Config, s: State, now: int, request: PreemptRequest)
    requires cfg.plan.Valid() && s.slot.request.None?
    requires request.intersectionId == cfg.intersectionId && now < request.validUntil
    ensures Step(cfg, s, PreemptArrives(now, Parsed(request))) == s.(slot := Slot(Some(request), now))
  {
  }

  /** A tick with a live preempt and no service in flight moves only the signal. */
  lemma TickUnderPreempt(cfg: Config, s: State, now: int, request: PreemptRequest)
    requires cfg.plan.Valid() && s.watch.mode.FixedTime? && s.ped.state.NoPed?
    requires s.slot.request == Some(request) && now < request.validUntil
    ensures var t := Step(cfg, s, Ticked(now));
            && t == s.(signal := t.signal)
            && (s.signal.clearanceUntil == 0 ==> t.signal.clearanceUntil == 0)
  {
    hide Filter, Plan.PhaseAt;
    FilterShowsNoWalk(cfg, s, now, request);
  }

  lemma FilterShowsNoWalk(cfg: Config, s: State, now: int, request: PreemptRequest)
    requires s.watch.mode.FixedTime?
    ensures var phase := Filter(cfg, s.watch.mode, s.ped.state, s.signal, PreemptFor(request.approach), now);
            phase != s.signal.phase ==> !IsWalk(phase)
  {
  }

  /** A tick at the expiry of the only preempt commands the plan's first green at once. */
  lemma ExpiryShowsPlan(cfg: Config, s: State, start: int, request: PreemptRequest)
    requires cfg.plan.Valid() && s.watch.mode.FixedTime? && s.watch.modeEnteredAt == start
    requires s.ped.state.NoPed? && s.ped.queue == [] && s.slot.request == Some(request)
    requires s.signal.phase.EvPreemptEw? && s.signal.clearanceUntil == 0
    requires start < request.validUntil < start + cfg.plan.nsGreen && request.validUntil < start + cfg.plan.cycle
    ensures Step(cfg, s, Ticked(request.validUntil)).signal.phase == NsGreen
  {
  }

  /** The inserted yellow has no length of its own, and no all-red follows it: from the start, once
      an operator selects AI_ADAPTIVE, one decision and two ticks at one instant go from one green
      through yellow to the other. */
  lemma InsertedYellowIsBrief(cfg: Config, start: int, d: Decision)
    requires cfg.plan.Valid() && 0 < start && 0 < cfg.plan.nsGreen
    requires Sound(cfg, d, start + cfg.minGreen) && d.commandedPhase == EwGreen
    ensures var now := start + cfg.minGreen;
            var s0 := Init(cfg, start);
            var s1 := Step(cfg, s0, ModeForced(now, AiAdaptive));
            var s2 := Step(cfg, s1, DecisionArrives(now, Parsed(d)));
            var s3 := Step(cfg, s2, Ticked(now));
            var s4 := Step(cfg, s3, Ticked(now));
            && s0.signal.phase == NsGreen && s3.signal.phase == NsYellow && s4.signal.phase == EwGreen
  {
  }

  /** Two decisions lead from one green through all-red to the other, with no yellow. */
  lemma AllRedWithoutYellow(cfg: Config, start: int, d: Decision, e: Decision)
    requires cfg.plan.Valid() && 0 < start && 0 < cfg.plan.nsGreen
    requires Sound(cfg, d, start + cfg.minGreen) && d.commandedPhase == AllRed
    requires Sound(cfg, e, start + cfg.minGreen) && e.commandedPhase == EwGreen && d.decisionId < e.decisionId
    ensures var now := start + cfg.minGreen;
            var s0 := Init(cfg, start);
            var s1 := Step(cfg, s0, ModeForced(now, AiAdaptive));
            var s2 := Step(cfg, s1, DecisionArrives(now, Parsed(d)));
            var s3 := Step(cfg, s2, Ticked(now));
            var s4 := Step(cfg, s3, DecisionArrives(now, Parsed(e)));
            var s5 := Step(cfg, s4, Ticked(now));
            && s0.signal.phase == NsGreen && s3.signal.phase == AllRed && s5.signal.phase == EwGreen
  {
  }
}
