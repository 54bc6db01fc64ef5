/** The modes over whole runs: recovery, freshness of the decision in use, flap detection. */
module FailsafeModes {
  import opened Deques
  import opened Options
  import opened Phases
  import opened Requests
  import opened FailsafeModel
  import opened FailsafeRuns

  // ---- submissions ----

  ghost predicate AcceptedAt(r: Run, i: nat)
    requires r.Valid() && i < |r.events|
  {
    r.events[i].DecisionArrives? && Accepts(r.cfg, r.states[i].watch, r.events[i].decision, r.events[i].now)
  }

  /** How many submissions, counted back from event `n`, were all accepted. */
  ghost function AcceptedInARow(r: Run, n: nat): nat
    requires r.Valid() && n <= |r.events|
  {
    if n == 0 then 0
    else if !r.events[n - 1].DecisionArrives? then AcceptedInARow(r, n - 1)
    else if AcceptedAt(r, n - 1) then AcceptedInARow(r, n - 1) + 1
    else 0
  }

  /** How one event moves the counters, the decision in use and the mode. */
  lemma SubmissionStep(r: Run, i: nat)
    requires r.Valid() && i < |r.events|
    ensures var w, v, e := r.states[i].watch, r.states[i + 1].watch, r.events[i];
            if AcceptedAt(r, i) then
              && v.lastAccepted == Some(e.decision.message) && v.lastAcceptedAt == e.now
              && v.lastAcceptedId == Some(e.decision.message.decisionId)
              && (w.lastAcceptedId.Some? ==> w.lastAcceptedId.value < e.decision.message.decisionId)
              && (v.consecutiveValid <= w.consecutiveValid + 1 || v.consecutiveValid == 0)
              && v.consecutiveInvalid == 0
            else
              && v.lastAccepted == w.lastAccepted && v.lastAcceptedAt == w.lastAcceptedAt
              && v.lastAcceptedId == w.lastAcceptedId
              && (v.consecutiveValid == 0 || (v.consecutiveValid <= w.consecutiveValid && !e.DecisionArrives?))
              && (v.mode.AiAdaptive? ==>
                    v.consecutiveInvalid == 0
                    || (w.mode.AiAdaptive? && v.consecutiveInvalid == w.consecutiveInvalid)
                    || v.consecutiveInvalid < r.cfg.invalidDecisionBurst)
  {
    assert r.Linked(i);
  }

  lemma {:induction false} CounterBelowRow(r: Run, n: nat)
    requires r.Valid() && n <= |r.events|
    ensures r.states[n].watch.consecutiveValid <= AcceptedInARow(r, n)
  {
    hide Step;
    if n > 0 {
      CounterBelowRow(r, n - 1);
      SubmissionStep(r, n - 1);
    }
  }

  /** Event `i` turns the mode to AI_ADAPTIVE. */
  ghost predicate EntersAi(r: Run, i: nat)
    requires r.Valid() && i < |r.events|
  {
    !r.states[i].watch.mode.AiAdaptive? && r.states[i + 1].watch.mode.AiAdaptive?
  }

  /** How many submissions, counted back from event `n` to the last acceptance, were all rejected;
      with `sinceEntry` the count goes back no further than the last turn to AI_ADAPTIVE. */
  ghost function RejectedInARow(r: Run, n: nat, sinceEntry: bool): nat
    requires r.Valid() && n <= |r.events|
  {
    if n == 0 then 0
    else if sinceEntry && EntersAi(r, n - 1) then 0
    else if !r.events[n - 1].DecisionArrives? then RejectedInARow(r, n - 1, sinceEntry)
    else if AcceptedAt(r, n - 1) then 0
    else RejectedInARow(r, n - 1, sinceEntry) + 1
  }

  /** How one event moves the count of invalid submissions. */
  lemma InvalidStep(r: Run, i: nat)
    requires r.Valid() && i < |r.events| && r.states[i + 1].watch.mode.AiAdaptive?
    ensures var w, v := r.states[i].watch, r.states[i + 1].watch;
            && v.consecutiveInvalid
               == (if EntersAi(r, i) then 0
                   else if !r.events[i].DecisionArrives? then w.consecutiveInvalid
                   else if AcceptedAt(r, i) then 0
                   else w.consecutiveInvalid + 1)
            && (!EntersAi(r, i) && r.events[i].DecisionArrives? && !AcceptedAt(r, i)
                ==> v.consecutiveInvalid < r.cfg.invalidDecisionBurst)
    ensures EntersAi(r, i) && r.events[i].DecisionArrives? ==> AcceptedAt(r, i)
  {
    hide Evict, ValidateDecision, Desired, Filter, Command;
    assert r.Linked(i);
  }

  /** In AI_ADAPTIVE the counter is the row of rejected submissions since that mode was entered, and
      the row is always shorter than the burst limit; a limit below one acts as one. */
  lemma {:induction false} InvalidsBelowBurst(r: Run, n: nat)
    requires r.Valid() && n <= |r.events| && r.states[n].watch.mode.AiAdaptive?
    ensures r.states[n].watch.consecutiveInvalid == RejectedInARow(r, n, true)
    ensures RejectedInARow(r, n, true) < r.cfg.invalidDecisionBurst || RejectedInARow(r, n, true) == 0
  {
    hide Step;
    if n > 0 {
      InvalidStep(r, n - 1);
      if !EntersAi(r, n - 1) {
        InvalidsBelowBurst(r, n - 1);
      }
    }
  }

  /** The row over the whole run, in AI_ADAPTIVE since event `e`: what was rejected since, and, when
      nothing was accepted since, what was rejected before. */
  lemma {:induction false} WholeRowExactly(r: Run, e: nat, n: nat)
    requires r.Valid() && e < n <= |r.events| && EntersAi(r, e)
    requires forall k :: e < k <= n ==> r.states[k].watch.mode.AiAdaptive?
    ensures RejectedInARow(r, n, false)
            == RejectedInARow(r, n, true)
               + if forall k :: e <= k < n ==> !AcceptedAt(r, k) then RejectedInARow(r, e, false) else 0
    decreases n
  {
    hide Step, AcceptedAt;
    InvalidStep(r, n - 1);
    if n == e + 1 {
      AcceptedArrives(r, e);
    } else {
      WholeRowExactly(r, e, n - 1);
      AcceptedArrives(r, n - 1);
    }
  }

  lemma AcceptedArrives(r: Run, i: nat)
    requires r.Valid() && i < |r.events|
    ensures AcceptedAt(r, i) ==> r.events[i].DecisionArrives?
  {
  }

  /** Over the whole run the row stays below the burst limit exactly when something was accepted
      since AI_ADAPTIVE was entered, or the rejections before and since are together still fewer. */
  lemma WholeRowBelowBurstExactly(r: Run, e: nat, n: nat)
    requires r.Valid() && e < n <= |r.events| && EntersAi(r, e) && 0 < r.cfg.invalidDecisionBurst
    requires forall k :: e < k <= n ==> r.states[k].watch.mode.AiAdaptive?
    ensures RejectedInARow(r, n, false) < r.cfg.invalidDecisionBurst <==>
            || (exists k :: e <= k < n && AcceptedAt(r, k))
            || RejectedInARow(r, e, false) + RejectedInARow(r, n, true) < r.cfg.invalidDecisionBurst
  {
    hide Step, AcceptedAt, RejectedInARow;
    WholeRowExactly(r, e, n);
    InvalidsBelowBurst(r, n);
  }

  /** Rejections in FIXED_TIME do not count once an operator selects AI_ADAPTIVE: a run of any number
      of them ends in AI_ADAPTIVE with a row as long as the limit. */
  lemma {:induction false} RejectedRun(cfg: Config, start: int, n: nat) returns (r: Run)
    requires cfg.plan.Valid() && 0 < start
    ensures r.Valid() && r.cfg == cfg && r.start == start && |r.events| == n && r.Since(n) == start
    ensures r.states[n].watch.mode.FixedTime? && RejectedInARow(r, n, false) == n
  {
    hide Step;
    if n == 0 {
      StartIsRun(cfg, start);
      r := Run(cfg, start, [], [Init(cfg, start)]);
    } else {
      var q := RejectedRun(cfg, start, n - 1);
      var e := DecisionArrives(start, Malformed(MissingField));
      ExtendIsRun(q, e);
      r := Extend(q, e);
      RowOfPrefix(q, r, n - 1);
      RejectionKeepsFixed(cfg, q.states[n - 1], start);
    }
  }

  lemma {:induction false} RowOfPrefix(q: Run, r: Run, n: nat)
    requires q.Valid() && r.Valid() && q.cfg == r.cfg && n <= |q.events| <= |r.events|
    requires q.events == r.events[..|q.events|] && q.states == r.states[..|q.states|]
    ensures RejectedInARow(q, n, false) == RejectedInARow(r, n, false)
  {
    hide Step;
    if n > 0 { RowOfPrefix(q, r, n - 1); }
  }

  lemma RejectionKeepsFixed(cfg: Config, s: State, now: int)
    requires cfg.plan.Valid() && s.watch.mode.FixedTime?
    ensures Step(cfg, s, DecisionArrives(now, Malformed(MissingField))).watch.mode.FixedTime?
    ensures Step(cfg, s, ModeForced(now, AiAdaptive)).watch.mode.AiAdaptive?
  {
  }

  lemma RowOutlivesSelection(cfg: Config, start: int) returns (r: Run, n: nat)
    requires cfg.plan.Valid() && 0 < start && 0 < cfg.invalidDecisionBurst
    ensures r.Valid() && r.cfg == cfg && n == |r.events| && r.states[n].watch.mode.AiAdaptive?
    ensures RejectedInARow(r, n, false) == cfg.invalidDecisionBurst
  {
    hide Step;
    var q := RejectedRun(cfg, start, cfg.invalidDecisionBurst);
    var e := ModeForced(start, AiAdaptive);
    ExtendIsRun(q, e);
    r, n := Extend(q, e), |q.events| + 1;
    RowOfPrefix(q, r, |q.events|);
    RejectionKeepsFixed(cfg, q.states[|q.events|], start);
  }

  /** The decision in use in state `i` is the one accepted at event `k`. */
  ghost predicate InUseSince(r: Run, i: nat, k: nat)
    requires r.Valid() && i <= |r.events| && k < |r.events|
  {
    && AcceptedAt(r, k)
    && r.states[i].watch.lastAccepted == Some(r.events[k].decision.message)
    && r.states[i].watch.lastAcceptedAt == r.events[k].now
  }

  /** Accepted identifiers strictly increase over the run, and the decision in use is the last. */
  lemma {:induction false} AcceptedIdsIncrease(r: Run, n: nat)
    requires r.Valid() && n <= |r.events|
    ensures forall i :: 0 <= i < n && AcceptedAt(r, i) ==>
              && r.states[n].watch.lastAcceptedId.Some?
              && r.events[i].decision.message.decisionId <= r.states[n].watch.lastAcceptedId.value
    ensures forall i, j :: 0 <= i < j < n && AcceptedAt(r, i) && AcceptedAt(r, j) ==>
              r.events[i].decision.message.decisionId < r.events[j].decision.message.decisionId
    ensures r.states[n].watch.lastAccepted.Some? ==>
              exists i :: 0 <= i < n && InUseSince(r, n, i)
  {
    hide Step;
    if n > 0 {
      AcceptedIdsIncrease(r, n - 1);
      SubmissionStep(r, n - 1);
      if AcceptedAt(r, n - 1) {
        assert InUseSince(r, n, n - 1);
      } else if r.states[n].watch.lastAccepted.Some? {
        var k :| 0 <= k < n - 1 && InUseSince(r, n - 1, k);
        assert InUseSince(r, n, k);
      }
    }
  }

  // ---- automatic recovery ----

  /** How one event moves the mode. */
  lemma ModeStep(r: Run, i: nat)
    requires r.Valid() && i < |r.events|
    ensures var w, v, e := r.states[i].watch, r.states[i + 1].watch, r.events[i];
            && (v.mode == w.mode ==> v.modeEnteredAt == w.modeEnteredAt)
            && (v.mode != w.mode ==> v.modeEnteredAt == e.now)
            && (v.mode != w.mode && v.mode.AiAdaptive? && !e.ModeForced? ==>
                  && w.mode.FixedTime? && AcceptedAt(r, i)
                  && w.modeEnteredAt + r.cfg.fixedTimeMinDwell <= e.now
                  && r.cfg.validToRecover <= w.consecutiveValid + 1)
            && (w.mode.AllRedFlash? && !e.ModeForced? ==> v.mode.AllRedFlash?)
  {
    assert r.Linked(i);
  }

  /** The mode of state `n` has been the mode in all states from `k` on, and was another one before. */
  ghost predicate ModeSince(r: Run, n: nat, k: nat)
    requires r.Valid() && k <= n <= |r.events|
  {
    && (forall l :: k <= l <= n ==> r.states[l].watch.mode == r.states[n].watch.mode)
    && (k > 0 ==> r.states[k - 1].watch.mode != r.states[n].watch.mode)
  }

  /** The stored time of entry is when the mode was entered. */
  lemma {:induction false} ModeEntered(r: Run, n: nat) returns (k: nat)
    requires r.Valid() && n <= |r.events|
    ensures k <= n && ModeSince(r, n, k) && r.states[n].watch.modeEnteredAt == r.Since(k)
  {
    hide Step;
    k := n;
    if n > 0 {
      ModeStep(r, n - 1);
      if r.states[n - 1].watch.mode == r.states[n].watch.mode {
        k := ModeEntered(r, n - 1);
      }
    }
  }

  lemma {:induction false} FixedSinceEntry(r: Run, n: nat)
    requires r.Valid() && n <= |r.events| && r.states[n].watch.mode.FixedTime?
    ensures forall i :: 0 <= i < n && !r.states[i].watch.mode.FixedTime?
              ==> r.events[i].now <= r.states[n].watch.modeEnteredAt
  {
    hide Step;
    if n > 0 {
      ModeStep(r, n - 1);
      if r.states[n - 1].watch.mode.FixedTime? {
        FixedSinceEntry(r, n - 1);
      }
    }
  }

  /** The controller goes back to AI_ADAPTIVE by itself only at an accepted submission, after the
      minimum dwell in FIXED_TIME without a break, and only when the last `validToRecover`
      submissions of the whole run were all accepted. */
  lemma RecoveryIsGated(r: Run, n: nat)
    requires r.Valid() && n < |r.events| && !r.events[n].ModeForced?
    requires !r.states[n].watch.mode.AiAdaptive? && r.states[n + 1].watch.mode.AiAdaptive?
    ensures AcceptedAt(r, n)
    ensures r.cfg.validToRecover <= AcceptedInARow(r, n + 1)
    ensures r.states[n].watch.mode.FixedTime?
    ensures r.start + r.cfg.fixedTimeMinDwell <= r.events[n].now
    ensures forall i :: 0 <= i < n && !r.states[i].watch.mode.FixedTime?
              ==> r.events[i].now + r.cfg.fixedTimeMinDwell <= r.events[n].now
  {
    hide Step;
    ModeStep(r, n);
    CounterBelowRow(r, n);
    FixedSinceEntry(r, n);
    ReachableConsistent(r, n);
  }

  /** The submissions accepted in FIXED_TIME since the last rejection or turn to AI_ADAPTIVE. */
  ghost function ValidRow(r: Run, n: nat): nat
    requires r.Valid() && n <= |r.events|
  {
    if n == 0 || EntersAi(r, n - 1) then 0
    else if !r.events[n - 1].DecisionArrives? then ValidRow(r, n - 1)
    else if !AcceptedAt(r, n - 1) then 0
    else if r.states[n - 1].watch.mode.FixedTime? then ValidRow(r, n - 1) + 1
    else ValidRow(r, n - 1)
  }

  /** How one event moves the recovery counter. */
  lemma ValidStep(r: Run, i: nat)
    requires r.Valid() && i < |r.events|
    requires r.states[i].watch.mode.AiAdaptive? ==> r.states[i].watch.consecutiveValid == 0
    ensures var w, v := r.states[i].watch, r.states[i + 1].watch;
            v.consecutiveValid == (if EntersAi(r, i) then 0
                                   else if !r.events[i].DecisionArrives? then w.consecutiveValid
                                   else if !AcceptedAt(r, i) then 0
                                   else if w.mode.FixedTime? then w.consecutiveValid + 1
                                   else w.consecutiveValid)
  {
    hide Evict, ValidateDecision, Desired, Filter, Command;
    assert r.Linked(i);
  }

  /** The recovery counter is that row; in AI_ADAPTIVE it is zero. */
  lemma {:induction false} CounterIsRow(r: Run, n: nat)
    requires r.Valid() && n <= |r.events|
    ensures r.states[n].watch.consecutiveValid == ValidRow(r, n)
    ensures r.states[n].watch.mode.AiAdaptive? ==> ValidRow(r, n) == 0
  {
    hide Step, AcceptedAt;
    if n > 0 {
      CounterIsRow(r, n - 1);
      ValidStep(r, n - 1);
    }
  }

  lemma RecoveryStep(r: Run, i: nat)
    requires r.Valid() && i < |r.events| && !r.events[i].ModeForced?
    ensures EntersAi(r, i) <==>
            && r.states[i].watch.mode.FixedTime? && AcceptedAt(r, i)
            && r.states[i].watch.modeEnteredAt + r.cfg.fixedTimeMinDwell <= r.events[i].now
            && r.cfg.validToRecover <= r.states[i].watch.consecutiveValid + 1
  {
    hide Evict, ValidateDecision, Desired, Filter, Command;
    assert r.Linked(i);
  }

  /** Unless an operator does it, an event turns the mode to AI_ADAPTIVE exactly when the gate accepts
      a submission in FIXED_TIME that completes the row, the minimum dwell after the event from which
      the mode has been FIXED_TIME. */
  lemma RecoversExactly(r: Run, n: nat) returns (k: nat)
    requires r.Valid() && n < |r.events| && !r.events[n].ModeForced?
    ensures k <= n && ModeSince(r, n, k)
    ensures EntersAi(r, n) <==>
            && r.states[n].watch.mode.FixedTime? && AcceptedAt(r, n)
            && r.Since(k) + r.cfg.fixedTimeMinDwell <= r.events[n].now
            && r.cfg.validToRecover <= ValidRow(r, n) + 1
  {
    hide Step, AcceptedAt, EntersAi, ModeSince, ValidRow;
    k := ModeEntered(r, n);
    CounterIsRow(r, n);
    RecoveryStep(r, n);
  }

  // ---- freshness ----

  /** What the watchdog leaves in AI_ADAPTIVE. */
  lemma WatchdogStep(r: Run, j: nat)
    requires r.Valid() && j < |r.events| && r.events[j].Ticked?
    ensures var v := r.states[j + 1].watch;
            v.mode.AiAdaptive? ==>
              && v == r.states[j].watch && v.lastAcceptedAt != 0
              && r.events[j].now - v.lastAcceptedAt <= r.cfg.maxAiStaleness
  {
    assert r.Linked(j);
  }

  /** After every tick in AI_ADAPTIVE the decision in use was accepted at most the staleness limit
      before, and no decision accepted in the run so far has a larger identifier. */
  lemma DecisionInUseIsFresh(r: Run, j: nat)
    requires r.Valid() && j < |r.events| && r.events[j].Ticked?
    requires r.states[j + 1].watch.mode.AiAdaptive?
    ensures exists i | 0 <= i < j && AcceptedAt(r, i) ::
              && r.states[j + 1].watch.lastAccepted == Some(r.events[i].decision.message)
              && r.events[j].now - r.events[i].now <= r.cfg.maxAiStaleness
              && forall k :: 0 <= k < j && AcceptedAt(r, k)
                   ==> r.events[k].decision.message.decisionId <= r.events[i].decision.message.decisionId
  {
    hide Step;
    WatchdogStep(r, j);
    ReachableConsistent(r, j);
    AcceptedIdsIncrease(r, j);
  }

  /** Between two states with no acceptance, what was last accepted stays, and so does its time. */
  lemma {:induction false} NothingAccepted(r: Run, i: nat, j: nat)
    requires r.Valid() && i <= j <= |r.events|
    requires forall k :: i <= k < j ==> !AcceptedAt(r, k)
    ensures r.states[j].watch.lastAcceptedAt == r.states[i].watch.lastAcceptedAt
    decreases j
  {
    hide Step;
    if i < j {
      NothingAccepted(r, i, j - 1);
      SubmissionStep(r, j - 1);
    }
  }

  /** An outage from state `i` on: the first tick `k` past the staleness limit comes within one
      tick period of it and leaves AI_ADAPTIVE, and the controller stays out up to state `n`
      unless an operator forces it back. */
  lemma {:induction false} OutageLeavesAi(r: Run, i: nat, k: nat, n: nat, p: nat)
    requires r.Valid() && i <= k < n <= |r.events| && r.events[k].Ticked?
    requires forall j :: i <= j < n ==> !AcceptedAt(r, j) && !r.events[j].ModeForced?
    requires r.LastTick(k) <= r.Since(i) + r.cfg.maxAiStaleness < r.events[k].now
    requires r.TicksWithin(p, n)
    ensures r.events[k].now <= r.Since(i) + r.cfg.maxAiStaleness + p
    ensures !r.states[n].watch.mode.AiAdaptive?
    decreases n
  {
    hide Step;
    if n == k + 1 {
      NothingAccepted(r, i, k);
      ReachableConsistent(r, i);
      WatchdogStep(r, k);
    } else {
      OutageLeavesAi(r, i, k, n - 1, p);
      ModeStep(r, n - 1);
    }
  }

  // ---- flap detection ----

  /** Event `i` drops the controller out of AI_ADAPTIVE towards FIXED_TIME. */
  ghost predicate IsDrop(r: Run, i: nat)
    requires r.Valid() && i < |r.events|
  {
    && r.states[i].watch.mode.AiAdaptive? && !r.states[i + 1].watch.mode.AiAdaptive?
    && !r.events[i].HardwareFault? && r.events[i] != ModeForced(r.events[i].now, AllRedFlash)
  }

  /** The times of all drops among the first `n` events of the run. */
  ghost function Drops(r: Run, n: nat): seq<int>
    requires r.Valid() && n <= |r.events|
  {
    if n == 0 then []
    else if IsDrop(r, n - 1) then Drops(r, n - 1) + [r.events[n - 1].now]
    else Drops(r, n - 1)
  }

  /** The times at or after `t`. */
  function NotBefore(times: seq<int>, t: int): seq<int> {
    if times == [] then []
    else NotBefore(times[..|times| - 1], t)
         + if t <= times[|times| - 1] then [times[|times| - 1]] else []
  }

  predicate Sorted(times: seq<int>) {
    forall i, j :: 0 <= i < j < |times| ==> times[i] <= times[j]
  }

  lemma {:induction false} NotBeforeAll(times: seq<int>, t: int)
    requires forall i :: 0 <= i < |times| ==> t <= times[i]
    ensures NotBefore(times, t) == times
  {
    if times != [] {
      var init := times[..|times| - 1];
      assert forall i :: 0 <= i < |init| ==> init[i] == times[i];
      NotBeforeAll(init, t);
      assert times == init + [times[|times| - 1]];
    }
  }

  /** Older entries in front do not matter. */
  lemma {:induction false} NotBeforeSkips(old_: seq<int>, times: seq<int>, t: int)
    requires forall i :: 0 <= i < |old_| ==> old_[i] < t
    ensures NotBefore(old_ + times, t) == NotBefore(times, t)
  {
    var all := old_ + times;
    if times != [] {
      var init := times[..|times| - 1];
      NotBeforeSkips(old_, init, t);
      assert all[..|all| - 1] == old_ + init;
    } else if old_ != [] {
      var init := old_[..|old_| - 1];
      assert forall i :: 0 <= i < |init| ==> init[i] == old_[i];
      NotBeforeSkips(init, [], t);
      assert all == old_ && all[..|all| - 1] == init && init + [] == init;
    }
  }

  /** The deque holds the end of the history; what it has lost is older than `t`. */
  predicate Tracks(deque: seq<int>, history: seq<int>, t: int) {
    && EndOf(deque, history)
    && forall i :: 0 <= i < |history| - |deque| ==> history[i] < t
  }

  /** On sorted times, popping old entries off the front leaves the entries not before `t`. */
  lemma {:induction false} EvictTracks(times: seq<int>, t: int)
    requires Sorted(times)
    ensures Tracks(Evict(times, t), times, t)
    ensures forall i :: 0 <= i < |Evict(times, t)| ==> t <= Evict(times, t)[i]
  {
    if times != [] && times[0] < t {
      EvictTracks(times[1..], t);
      var rest := Evict(times[1..], t);
      assert times[|times| - |rest|..] == times[1..][|times| - 1 - |rest|..];
      assert forall i :: 1 <= i < |times| ==> times[i] == times[1..][i - 1];
    }
  }

  lemma TracksTransitive(a: seq<int>, b: seq<int>, c: seq<int>, t: int)
    requires Tracks(a, b, t) && Tracks(b, c, t)
    ensures Tracks(a, c, t)
  {
    EndOfEnd(a, b, c);
    var lost := |c| - |b|;
    forall i | 0 <= i < |c| - |a| ensures c[i] < t {
      if lost <= i { assert c[i] == b[i - lost]; }
    }
  }

  lemma TracksAppend(deque: seq<int>, history: seq<int>, now: int, t: int)
    requires Tracks(deque, history, t)
    ensures Tracks(deque + [now], history + [now], t)
  {
    EndExtends(deque, history, now);
  }

  lemma ExactWhenRecent(deque: seq<int>, history: seq<int>, t: int)
    requires Tracks(deque, history, t)
    requires forall i :: 0 <= i < |deque| ==> t <= deque[i]
    ensures deque == NotBefore(history, t)
  {
    EndSplits(deque, history);
    NotBeforeSkips(Lost(deque, history), deque, t);
    NotBeforeAll(deque, t);
  }

  lemma TracksSorted(deque: seq<int>, history: seq<int>, t: int)
    requires Tracks(deque, history, t) && Sorted(history)
    ensures Sorted(deque)
  {
    var n := |history| - |deque|;
    assert forall i :: 0 <= i < |deque| ==> deque[i] == history[n + i];
  }

  lemma TracksAfterEvict(deque: seq<int>, history: seq<int>, t: int)
    requires Sorted(history) && Tracks(deque, history, t)
    ensures Tracks(Evict(deque, t), history, t)
    ensures Evict(deque, t) == NotBefore(history, t)
  {
    TracksSorted(deque, history, t);
    EvictTracks(deque, t);
    TracksTransitive(Evict(deque, t), deque, history, t);
    ExactWhenRecent(Evict(deque, t), history, t);
  }

  /** How a transition moves the deque. */
  lemma TransitionDrops(cfg: Config, w: Watch, target: Mode, byOperator: bool, now: int)
    ensures var v, t := Transition(cfg, w, target, byOperator, now), now - cfg.flapWindow;
            if v.mode == w.mode then v == w
            else if w.mode.AiAdaptive? && target.FixedTime? then
              && v.drops == Evict(Evict(w.drops, t) + [now], t)
              && v.mode == if |v.drops| >= cfg.flapThreshold then AllRedFlash else FixedTime
            else v.mode == target && v.drops == Evict(w.drops, t)
  {
    hide Evict;
  }

  /** How a submission moves the deque. */
  lemma SubmitDrops(cfg: Config, w: Watch, raw: Raw<Decision>, now: int)
    ensures var v, t := SubmitDecision(cfg, w, raw, now), now - cfg.flapWindow;
            if v.mode == w.mode then v.drops == w.drops
            else if w.mode.AiAdaptive? then
              && v.drops == Evict(Evict(w.drops, t) + [now], t)
              && v.mode == if |v.drops| >= cfg.flapThreshold then AllRedFlash else FixedTime
            else v.mode.AiAdaptive? && v.drops == Evict(w.drops, t)
  {
    hide Transition, Evict, ValidateDecision;
    if Accepts(cfg, w, raw, now) {
      var w1 := w.(lastAccepted := Some(raw.message), lastAcceptedAt := now,
                   lastAcceptedId := Some(raw.message.decisionId), consecutiveInvalid := 0,
                   consecutiveValid := w.consecutiveValid + 1);
      TransitionDrops(cfg, w1, AiAdaptive, false, now);
    } else {
      var w1 := w.(consecutiveInvalid := w.consecutiveInvalid + 1, consecutiveValid := 0);
      TransitionDrops(cfg, w1, FixedTime, false, now);
    }
  }

  /** How one event moves the deque. */
  lemma DropStep(r: Run, i: nat)
    requires r.Valid() && i < |r.events|
    ensures var w, v, now := r.states[i].watch, r.states[i + 1].watch, r.events[i].now;
            var t := now - r.cfg.flapWindow;
            if IsDrop(r, i) then
              && v.drops == Evict(Evict(w.drops, t) + [now], t)
              && v.mode == if |v.drops| >= r.cfg.flapThreshold then AllRedFlash else FixedTime
            else
              && (v.drops == w.drops || v.drops == Evict(w.drops, t))
              && (v.mode != w.mode || r.events[i].StatusRead? ==> v.drops == Evict(w.drops, t))
              && (v.mode.AllRedFlash? && !w.mode.AllRedFlash?
                  ==> r.events[i].HardwareFault? || r.events[i].ModeForced?)
  {
    hide Transition, Evict, SubmitDecision, Desired, Filter, Command;
    assert r.Linked(i);
    var cfg, w, now := r.cfg, r.states[i].watch, r.events[i].now;
    match r.events[i]
    case DecisionArrives(_, raw) =>
      SubmitDrops(cfg, w, raw, now);
    case ModeForced(_, mode) => TransitionDrops(cfg, w, mode, true, now);
    case HardwareFault(_) => TransitionDrops(cfg, w, AllRedFlash, false, now);
    case Ticked(_) => TransitionDrops(cfg, w, FixedTime, false, now);
    case _ =>
  }

  lemma {:induction false} DropsAreSorted(r: Run, n: nat)
    requires r.Valid() && n <= |r.events|
    ensures Sorted(Drops(r, n))
    ensures forall i :: 0 <= i < |Drops(r, n)| ==> Drops(r, n)[i] <= r.Since(n)
  {
    if n > 0 {
      DropsAreSorted(r, n - 1);
      assert n > 1 ==> r.events[n - 2].now <= r.events[n - 1].now;
      assert n == 1 ==> Drops(r, 0) == [];
    }
  }

  lemma {:induction false} DequeTracksHistory(r: Run, n: nat)
    requires r.Valid() && n <= |r.events|
    ensures Tracks(r.states[n].watch.drops, Drops(r, n), r.Since(n) - r.cfg.flapWindow)
  {
    hide Step;
    if n > 0 {
      DequeTracksHistory(r, n - 1);
      DequeStep(r, n - 1);
    }
  }

  /** One event keeps the deque in step with the history, and makes it exact when it evicts. */
  lemma DequeStep(r: Run, i: nat)
    requires r.Valid() && i < |r.events|
    requires Tracks(r.states[i].watch.drops, Drops(r, i), r.Since(i) - r.cfg.flapWindow)
    ensures var v, t := r.states[i + 1].watch, r.events[i].now - r.cfg.flapWindow;
            && Tracks(v.drops, Drops(r, i + 1), t)
            && (v.mode != r.states[i].watch.mode || r.events[i].StatusRead?
                ==> v.drops == NotBefore(Drops(r, i + 1), t))
  {
    hide Step, Evict, NotBefore, Sorted;
    var deque, history := r.states[i].watch.drops, Drops(r, i);
    var now := r.events[i].now;
    var t := now - r.cfg.flapWindow;
    DropStep(r, i);
    DropsAreSorted(r, i);
    assert r.Since(i) <= now;
    assert Tracks(deque, history, t);
    TracksAfterEvict(deque, history, t);
    if IsDrop(r, i) {
      DropsAreSorted(r, i + 1);
      TracksAppend(Evict(deque, t), history, now, t);
      TracksAfterEvict(Evict(deque, t) + [now], history + [now], t);
    }
  }

  /** Whenever the mode changes or the status is read, the deque is exactly the drops of the whole
      run that lie within the window. */
  lemma DequeIsRecentHistory(r: Run, i: nat)
    requires r.Valid() && i < |r.events|
    requires r.states[i + 1].watch.mode != r.states[i].watch.mode || r.events[i].StatusRead?
    ensures r.states[i + 1].watch.drops == NotBefore(Drops(r, i + 1), r.events[i].now - r.cfg.flapWindow)
  {
    hide Step;
    DequeTracksHistory(r, i);
    DequeStep(r, i);
  }

  lemma StatusEvicts(r: Run, i: nat)
    requires r.Valid() && i < |r.events| && r.events[i].StatusRead?
    ensures r.states[i + 1].watch == r.states[i].watch.(drops := Evict(r.states[i].watch.drops,
                                                                       r.events[i].now - r.cfg.flapWindow))
    ensures Drops(r, i + 1) == Drops(r, i)
  {
    assert r.Linked(i);
  }

  /** The mode a status report gives has lasted for the time it gives: since state `k`, and no longer. */
  lemma ReportedMode(r: Run, i: nat) returns (k: nat)
    requires r.Valid() && i < |r.events| && r.events[i].StatusRead?
    ensures k <= i && ModeSince(r, i, k)
    ensures var report := ReportOf(r.cfg, r.states[i], r.events[i].now);
            report.mode == r.states[i].watch.mode && report.modeDwell == r.events[i].now - r.Since(k)
  {
    hide Step, Evict, ModeSince;
    k := ModeEntered(r, i);
  }

  /** Its counters are the rows of the run, and its phase the one on display. */
  lemma ReportedCounters(r: Run, i: nat)
    requires r.Valid() && i < |r.events| && r.events[i].StatusRead?
    ensures var report := ReportOf(r.cfg, r.states[i], r.events[i].now);
            && report.commandedPhase == r.states[i].signal.phase
            && report.consecutiveValid == ValidRow(r, i)
            && (report.mode.AiAdaptive? ==> report.consecutiveInvalid == RejectedInARow(r, i, true))
  {
    hide Step, Evict;
    CounterIsRow(r, i);
    if r.states[i].watch.mode.AiAdaptive? { InvalidsBelowBurst(r, i); }
  }

  /** The flaps it gives are the drops of the whole run in the window. */
  lemma ReportedFlaps(r: Run, i: nat)
    requires r.Valid() && i < |r.events| && r.events[i].StatusRead?
    ensures ReportOf(r.cfg, r.states[i], r.events[i].now).flapCount
            == |NotBefore(Drops(r, i), r.events[i].now - r.cfg.flapWindow)|
  {
    hide Step, Evict, NotBefore, Drops;
    DequeIsRecentHistory(r, i);
    StatusEvicts(r, i);
  }

  /** The decision it gives is the one in use, if any, and its age the time since the acceptance. */
  lemma ReportedDecision(r: Run, i: nat)
    requires r.Valid() && i < |r.events| && r.events[i].StatusRead?
    ensures var report := ReportOf(r.cfg, r.states[i], r.events[i].now);
            && report.lastDecisionId == (if r.states[i].watch.lastAccepted.None? then None
                                         else Some(r.states[i].watch.lastAccepted.value.decisionId))
            && (report.lastDecisionAge.Some? <==> report.lastDecisionId.Some?)
            && (report.lastDecisionAge.Some? ==>
                  exists k :: 0 <= k < i && InUseSince(r, i, k)
                    && report.lastDecisionAge == Some(r.events[i].now - r.events[k].now))
  {
    hide Step, Evict, Accepts;
    ReachableConsistent(r, i);
    if r.states[i].watch.lastAccepted.Some? {
      AcceptedIdsIncrease(r, i);
      var k :| 0 <= k < i && InUseSince(r, i, k);
    }
  }

  /** A drop ends in ALL_RED_FLASH exactly when the drops of the whole run within the window, this
      one included, reach the threshold; otherwise it ends in FIXED_TIME. */
  lemma DropEscalatesExactly(r: Run, i: nat)
    requires r.Valid() && i < |r.events| && IsDrop(r, i)
    ensures r.states[i + 1].watch.mode
            == if |NotBefore(Drops(r, i + 1), r.events[i].now - r.cfg.flapWindow)| >= r.cfg.flapThreshold
               then AllRedFlash else FixedTime
  {
    hide Step;
    DropStep(r, i);
    DequeIsRecentHistory(r, i);
  }

  // ---- the documented count of flaps ----

  /** Event `i` brings the controller from FIXED_TIME back to AI_ADAPTIVE. */
  ghost predicate IsRecovery(r: Run, i: nat)
    requires r.Valid() && i < |r.events|
  {
    r.states[i].watch.mode.FixedTime? && r.states[i + 1].watch.mode.AiAdaptive?
  }

  ghost function Recoveries(r: Run, n: nat): seq<int>
    requires r.Valid() && n <= |r.events|
  {
    if n == 0 then []
    else if IsRecovery(r, n - 1) then Recoveries(r, n - 1) + [r.events[n - 1].now]
    else Recoveries(r, n - 1)
  }

  /** Drops, and recoveries, of the whole run that lie in the window at event `i`, `i` included. */
  ghost function DropsInWindow(r: Run, i: nat): nat
    requires r.Valid() && i < |r.events|
  {
    |NotBefore(Drops(r, i + 1), r.events[i].now - r.cfg.flapWindow)|
  }

  ghost function RecoveriesInWindow(r: Run, i: nat): nat
    requires r.Valid() && i < |r.events|
  {
    |NotBefore(Recoveries(r, i + 1), r.events[i].now - r.cfg.flapWindow)|
  }

  /** The document counts moves between AI_ADAPTIVE and FIXED_TIME in both directions. */
  ghost predicate DocumentedFlash(r: Run, i: nat)
    requires r.Valid() && i < |r.events|
  {
    DropsInWindow(r, i) + RecoveriesInWindow(r, i) >= r.cfg.flapThreshold
  }

  /** At a drop, code and document disagree exactly when the drops in the window are below the
      threshold and drops and recoveries together are not; at a recovery, exactly when together they
      reach it. */
  lemma FlapRulesDifferExactly(r: Run, i: nat)
    requires r.Valid() && i < |r.events| && (IsDrop(r, i) || IsRecovery(r, i))
    ensures (r.states[i + 1].watch.mode.AllRedFlash? <==> DocumentedFlash(r, i)) <==>
            !(&& (IsDrop(r, i) ==> DropsInWindow(r, i) < r.cfg.flapThreshold)
              && r.cfg.flapThreshold <= DropsInWindow(r, i) + RecoveriesInWindow(r, i))
  {
    hide Step, NotBefore, Drops, Recoveries;
    if IsDrop(r, i) {
      DropEscalatesExactly(r, i);
    }
  }

  lemma SelectMode(cfg: Config, s: State, now: int, mode: Mode)
    requires cfg.plan.Valid() && !mode.AllRedFlash? && !s.watch.mode.AllRedFlash?
    requires forall i :: 0 <= i < |s.watch.drops| ==> s.watch.drops[i] == now
    requires |s.watch.drops| + 1 < cfg.flapThreshold
    ensures var t := Step(cfg, s, ModeForced(now, mode));
            && t.watch.mode == mode
            && t.watch.drops == s.watch.drops + (if s.watch.mode.AiAdaptive? && mode.FixedTime? then [now] else [])
  {
  }

  function FourMoves(now: int): seq<Event> {
    [ModeForced(now, AiAdaptive), ModeForced(now, FixedTime), ModeForced(now, AiAdaptive), ModeForced(now, FixedTime)]
  }

  lemma FourMovesModes(r: Run)
    requires r.Valid() && r.cfg.flapThreshold == 3 && r.events == FourMoves(r.start)
    ensures r.states[0].watch.mode.FixedTime? && r.states[1].watch.mode.AiAdaptive?
    ensures r.states[2].watch.mode.FixedTime? && r.states[3].watch.mode.AiAdaptive?
    ensures r.states[4].watch.mode.FixedTime?
  {
    hide Step;
    assert r.Linked(0) && r.Linked(1) && r.Linked(2) && r.Linked(3);
    SelectMode(r.cfg, r.states[0], r.start, AiAdaptive);
    SelectMode(r.cfg, r.states[1], r.start, FixedTime);
    SelectMode(r.cfg, r.states[2], r.start, AiAdaptive);
    SelectMode(r.cfg, r.states[3], r.start, FixedTime);
  }

  lemma FourMovesRun(cfg: Config, start: int) returns (r: Run)
    requires cfg.plan.Valid() && 0 < start
    ensures r.Valid() && r.cfg == cfg && r.start == start && r.events == FourMoves(start)
  {
    hide Step;
    StartIsRun(cfg, start);
    r := Run(cfg, start, [], [Init(cfg, start)]);
    for k := 0 to 4
      invariant r.Valid() && r.cfg == cfg && r.start == start && r.events == FourMoves(start)[..k]
    {
      ExtendIsRun(r, FourMoves(start)[k]);
      r := Extend(r, FourMoves(start)[k]);
    }
  }

  /** Four moves between the modes at one instant: two drops and two recoveries, and with a threshold
      of three no flash. */
  lemma RecoveriesAreNotCounted(cfg: Config, start: int) returns (r: Run)
    requires cfg.plan.Valid() && 0 < start && cfg.flapThreshold == 3
    ensures r.Valid() && r.cfg == cfg && |r.events| == 4 && IsDrop(r, 3) && !r.states[4].watch.mode.AllRedFlash?
    ensures DropsInWindow(r, 3) == 2 && RecoveriesInWindow(r, 3) == 2 && DocumentedFlash(r, 3)
  {
    hide Step, NotBefore;
    r := FourMovesRun(cfg, start);
    FourMovesModes(r);
    assert Drops(r, 0) == [] && Drops(r, 1) == [] && Drops(r, 2) == [start] && Drops(r, 3) == [start];
    assert Drops(r, 4) == [start, start];
    assert Recoveries(r, 0) == [] && Recoveries(r, 1) == [start] && Recoveries(r, 2) == [start];
    assert Recoveries(r, 3) == [start, start] && Recoveries(r, 4) == [start, start];
    NotBeforeAll([start, start], start - cfg.flapWindow);
  }

  // ---- no flash without a fault ----

  predicate Spaced(times: seq<int>, gap: int) {
    forall i :: 0 < i < |times| ==> times[i - 1] + gap <= times[i]
  }

  ghost predicate NoOperator(r: Run, n: nat)
    requires n <= |r.events|
  {
    forall i :: 0 <= i < n ==> !r.events[i].ModeForced?
  }

  /** Without operator overrides, drops are at least the minimum dwell apart. */
  lemma {:induction false} DropsAreSpaced(r: Run, n: nat)
    requires r.Valid() && n <= |r.events| && NoOperator(r, n)
    ensures var drops, w := Drops(r, n), r.states[n].watch;
            && Spaced(drops, r.cfg.fixedTimeMinDwell)
            && (drops != [] ==>
                  var last := drops[|drops| - 1];
                  && (w.mode.FixedTime? ==> last <= w.modeEnteredAt)
                  && (w.mode.AiAdaptive? ==> last + r.cfg.fixedTimeMinDwell <= r.Since(n)))
  {
    hide Step;
    if n > 0 {
      DropsAreSpaced(r, n - 1);
      ModeStep(r, n - 1);
      assert n > 1 ==> r.events[n - 2].now <= r.events[n - 1].now;
    }
  }

  function Product(a: int, b: int): int {
    a * b
  }

  lemma ProductFacts(a: int, b: int, c: nat)
    ensures Product(a + 1, c) == Product(a, c) + c && Product(0, c) == 0
    ensures a <= b ==> Product(a, c) <= Product(b, c)
  {
    if a <= b { assert 0 <= (b - a) * c; }
  }

  lemma {:induction false} SpacedSpan(times: seq<int>, gap: nat)
    requires times != [] && Spaced(times, gap)
    ensures times[0] + Product(|times| - 1, gap) <= times[|times| - 1]
  {
    hide Product;
    ProductFacts(|times| - 2, 0, gap);
    if |times| > 1 {
      var init := times[..|times| - 1];
      SpacedSpan(init, gap);
      assert init[|init| - 1] + gap <= times[|times| - 1];
    }
  }

  lemma AtMostPerWindow(count: int, window: nat, dwell: nat)
    requires 0 < dwell && Product(count - 1, dwell) <= window
    ensures count <= window / dwell + 1
  {
    var q := window / dwell;
    assert window < Product(q + 1, dwell);
    ProductFacts(q + 1, count - 1, dwell);
  }

  /** Times at least `dwell` apart: few of them fit into one window. */
  lemma FewInWindow(deque: seq<int>, history: seq<int>, now: int, window: nat, dwell: nat)
    requires 0 < dwell && Spaced(history, dwell) && Tracks(deque, history, now - window)
    requires deque == NotBefore(history, now - window)
    requires forall i :: 0 <= i < |history| ==> history[i] <= now
    ensures |deque| <= window / dwell + 1
  {
    hide Product, NotBefore, Spaced, Tracks;
    if deque != [] {
      EndIsSpaced(deque, history, now - window, dwell);
      SpacedSpan(deque, dwell);
      NotBeforeInside(history, now - window);
      AtMostPerWindow(|deque|, window, dwell);
    }
  }

  lemma EndIsSpaced(deque: seq<int>, history: seq<int>, t: int, dwell: int)
    requires Tracks(deque, history, t) && Spaced(history, dwell)
    ensures Spaced(deque, dwell) && forall i :: 0 <= i < |deque| ==> deque[i] in history
  {
    var skipped := |history| - |deque|;
    assert forall k :: 0 <= k < |deque| ==> deque[k] == history[skipped + k];
  }

  /** With no operator override and a threshold above what the dwell lets into one window, only a
      hardware fault can reach ALL_RED_FLASH. */
  lemma {:induction false} FlashNeedsFault(r: Run, n: nat)
    requires r.Valid() && n <= |r.events| && NoOperator(r, n)
    requires 0 < r.cfg.fixedTimeMinDwell
    requires r.cfg.flapThreshold > r.cfg.flapWindow / r.cfg.fixedTimeMinDwell + 1
    requires forall i :: 0 <= i < n ==> !r.events[i].HardwareFault?
    ensures !r.states[n].watch.mode.AllRedFlash?
  {
    hide Step;
    if n > 0 {
      FlashNeedsFault(r, n - 1);
      DropStep(r, n - 1);
      if IsDrop(r, n - 1) {
        FewDropsInWindow(r, n - 1);
      }
    }
  }

  lemma FewDropsInWindow(r: Run, i: nat)
    requires r.Valid() && i < |r.events| && NoOperator(r, i + 1) && IsDrop(r, i)
    requires 0 < r.cfg.fixedTimeMinDwell
    ensures |r.states[i + 1].watch.drops| <= r.cfg.flapWindow / r.cfg.fixedTimeMinDwell + 1
  {
    hide Step, NotBefore, Tracks, Spaced, Sorted;
    DequeTracksHistory(r, i + 1);
    DequeIsRecentHistory(r, i);
    DropsAreSpaced(r, i + 1);
    DropsAreSorted(r, i + 1);
    FewInWindow(r.states[i + 1].watch.drops, Drops(r, i + 1), r.events[i].now, r.cfg.flapWindow,
                r.cfg.fixedTimeMinDwell);
  }

  lemma {:induction false} NotBeforeInside(times: seq<int>, t: int)
    ensures forall i :: 0 <= i < |NotBefore(times, t)| ==> t <= NotBefore(times, t)[i]
  {
    if times != [] { NotBeforeInside(times[..|times| - 1], t); }
  }

  /** What turns a mode into ALL_RED_FLASH: a hardware fault, an operator, or a drop with which the drops
      of the whole run within the window reach the threshold. */
  lemma FlashEntersExactly(r: Run, i: nat)
    requires r.Valid() && i < |r.events| && !r.states[i].watch.mode.AllRedFlash?
    ensures r.states[i + 1].watch.mode.AllRedFlash? <==>
            || r.events[i].HardwareFault?
            || (r.events[i].ModeForced? && r.events[i].mode == AllRedFlash)
            || (IsDrop(r, i) && DropsInWindow(r, i) >= r.cfg.flapThreshold)
  {
    hide Step, NotBefore, Drops, Evict;
    DropStep(r, i);
    OverrideStep(r, i);
    if IsDrop(r, i) { DropEscalatesExactly(r, i); }
  }

  lemma OverrideStep(r: Run, i: nat)
    requires r.Valid() && i < |r.events|
    ensures r.events[i].HardwareFault? ==> r.states[i + 1].watch.mode.AllRedFlash?
    ensures r.events[i].ModeForced? && !IsDrop(r, i) ==> r.states[i + 1].watch.mode == r.events[i].mode
  {
    hide Evict;
    assert r.Linked(i);
  }

  /** An operator gets the mode asked for, out of ALL_RED_FLASH too; only a drop to FIXED_TIME that
      reaches the threshold ends in ALL_RED_FLASH instead. */
  lemma OverrideExactly(r: Run, i: nat)
    requires r.Valid() && i < |r.events| && r.events[i].ModeForced?
    ensures r.states[i + 1].watch.mode
            == if r.states[i].watch.mode.AiAdaptive? && r.events[i].mode.FixedTime?
                  && DropsInWindow(r, i) >= r.cfg.flapThreshold
               then AllRedFlash else r.events[i].mode
  {
    hide Step, NotBefore, Drops, Evict;
    OverrideStep(r, i);
    ForcedDrop(r, i);
    if IsDrop(r, i) { DropEscalatesExactly(r, i); }
  }

  lemma ForcedDrop(r: Run, i: nat)
    requires r.Valid() && i < |r.events| && r.events[i].ModeForced?
    ensures IsDrop(r, i) <==> r.states[i].watch.mode.AiAdaptive? && r.events[i].mode.FixedTime?
  {
    hide Evict;
    assert r.Linked(i);
  }

  /** From a hardware fault on, every tick commands flashing red until an operator forces a mode. */
  lemma FaultFlashes(r: Run, i: nat, j: nat)
    requires r.Valid() && i < j < |r.events| && r.events[i].HardwareFault? && r.events[j].Ticked?
    requires forall k :: i < k <= j ==> !r.events[k].ModeForced?
    ensures r.states[j + 1].signal.phase == FlashingRed
  {
    hide Step;
    OverrideStep(r, i);
    FlashUntilForced(r, i + 1, j);
  }

  /** Once in ALL_RED_FLASH, the mode stays and every tick commands flashing red until an operator
      forces a mode. */
  lemma {:induction false} FlashUntilForced(r: Run, i: nat, j: nat)
    requires r.Valid() && i <= j < |r.events| && r.states[i].watch.mode.AllRedFlash?
    requires forall k :: i <= k <= j ==> !r.events[k].ModeForced?
    ensures r.states[j + 1].watch.mode.AllRedFlash?
    ensures r.events[j].Ticked? ==> r.states[j + 1].signal.phase == FlashingRed
    decreases j
  {
    hide Step;
    if i < j { FlashUntilForced(r, i, j - 1); }
    ModeStep(r, j);
    assert r.Linked(j);
    if r.events[j].Ticked? {
      FlashStep(r.cfg, r.states[j], r.events[j]);
    }
  }
}
