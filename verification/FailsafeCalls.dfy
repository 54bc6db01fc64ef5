/** Pedestrian calls over whole runs: none is lost, and how long one can wait. */
module FailsafeCalls {
  import opened Options
  import opened Phases
  import opened Requests
  import opened FailsafeModel
  import opened FailsafeRuns
  import opened FailsafeNext
  import opened FailsafePedestrians

  predicate OnePerApproach(queue: seq<PedCall>) {
    forall i, j :: 0 <= i < j < |queue| ==> queue[i].approach != queue[j].approach
  }

  lemma QueueStep(cfg: Config, s: State, e: Event)
    requires cfg.plan.Valid() && OnePerApproach(s.ped.queue) && PedConsistent(s.ped, e.now)
    ensures OnePerApproach(Step(cfg, s, e).ped.queue)
  {
    hide NextCall, Filter;
    if e.Ticked? {
      if Step(cfg, s, e).watch.mode.AllRedFlash? {
        FlashStep(cfg, s, e);
      } else if Serving(cfg, s.ped, e.now) {
        WishWhileServing(cfg, CheckStaleness(cfg, s.watch, e.now), s.signal, s.slot, s.ped, e.now);
      } else {
        IdleStep(cfg, s, e);
      }
    }
  }

  /** The queue holds at most one call for each approach, in every run. */
  lemma {:induction false} CallsAreDeduplicated(r: Run, n: nat)
    requires r.Valid() && n <= |r.events|
    ensures OnePerApproach(r.states[n].ped.queue)
  {
    hide Step;
    if n > 0 {
      CallsAreDeduplicated(r, n - 1);
      ReachableConsistent(r, n - 1);
      assert r.Since(n - 1) <= r.Since(n);
      assert r.Linked(n - 1);
      QueueStep(r.cfg, r.states[n - 1], r.events[n - 1]);
    }
  }

  /** The queue holds a call for `a`, one for accessibility if `accessible`. */
  predicate Queued(queue: seq<PedCall>, a: Approach, accessible: bool) {
    exists i :: 0 <= i < |queue| && queue[i].approach == a && (accessible ==> queue[i].accessibility)
  }

  lemma PutKeeps(queue: seq<PedCall>, call: PedCall, a: Approach, accessible: bool)
    requires FindCall(queue, call.approach).None? || call.accessibility
    ensures Queued(queue, a, accessible) ==> Queued(PutCall(queue, call), a, accessible)
    ensures Queued(PutCall(queue, call), call.approach, call.accessibility)
  {
    var put, found := PutCall(queue, call), FindCall(queue, call.approach);
    var at := if found.None? then |queue| else found.value;
    assert put[at] == call;
    if i :| 0 <= i < |queue| && queue[i].approach == a && (accessible ==> queue[i].accessibility) {
      assert i == at || put[i] == queue[i];
    }
  }

  lemma TakeKeeps(queue: seq<PedCall>, i: nat, a: Approach, accessible: bool)
    requires i < |queue| && queue[i].approach != a
    ensures Queued(queue, a, accessible) ==> Queued(queue[..i] + queue[i + 1..], a, accessible)
  {
    var rest := queue[..i] + queue[i + 1..];
    if k :| 0 <= k < |queue| && queue[k].approach == a && (accessible ==> queue[k].accessibility) {
      assert rest[if k < i then k else k - 1] == queue[k];
    }
  }

  /** A queued call is never lost, and never loses its accessibility: after any event it is still
      queued, or the event starts the service of its approach. */
  lemma CallsAreKept(r: Run, i: nat, a: Approach, accessible: bool)
    requires r.Valid() && i < |r.events| && Queued(r.states[i].ped.queue, a, accessible)
    ensures || Queued(r.states[i + 1].ped.queue, a, accessible)
            || (StartsService(r, i) && r.states[i + 1].ped.approach == Some(a))
  {
    hide Step, NextCall, PutCall, FindCall, Queued;
    ReachableConsistent(r, i);
    assert r.Linked(i);
    var cfg, s, e := r.cfg, r.states[i], r.events[i];
    if e.PedCallArrives? {
      CallStep(cfg, s, e, a, accessible);
    } else if !e.Ticked? {
      OtherStep(cfg, s, e);
    } else if r.states[i + 1].watch.mode.AllRedFlash? {
      FlashStep(cfg, s, e);
    } else if Serving(cfg, s.ped, e.now) {
      ServingStep(cfg, s, e);
    } else {
      IdleStep(cfg, s, e);
      if |r.states[i + 1].ped.queue| < |s.ped.queue| && s.ped.queue[NextCall(s.ped.queue)].approach != a {
        TakeKeeps(s.ped.queue, NextCall(s.ped.queue), a, accessible);
      }
    }
  }

  lemma OtherStep(cfg: Config, s: State, e: Event)
    requires cfg.plan.Valid() && !e.Ticked? && !e.PedCallArrives?
    ensures Step(cfg, s, e).ped == s.ped
  {
  }

  /** A valid call is queued at once, with at least the accessibility it asks for, and leaves the
      other calls queued. */
  lemma CallStep(cfg: Config, s: State, e: Event, a: Approach, accessible: bool)
    requires cfg.plan.Valid() && e.PedCallArrives?
    ensures var t := Step(cfg, s, e);
            && (Queued(s.ped.queue, a, accessible) ==> Queued(t.ped.queue, a, accessible))
            && (e.call.Parsed? && e.call.message.intersectionId == cfg.intersectionId
                && e.now < e.call.message.validUntil
                ==> Queued(t.ped.queue, e.call.message.approach, e.call.message.accessibility))
  {
    hide PutCall;
    if e.call.Parsed? {
      var call := e.call.message;
      if FindCall(s.ped.queue, call.approach).None? || call.accessibility {
        PutKeeps(s.ped.queue, call, a, accessible);
      }
    }
  }

  /** A call changes the queue exactly when it is valid and its approach has no call queued, or only a
      plain one while it is for accessibility; then it goes to the end, or takes the place. */
  lemma CallChangesQueueExactly(cfg: Config, s: State, e: Event)
    requires cfg.plan.Valid() && e.PedCallArrives? && OnePerApproach(s.ped.queue)
    ensures var queue, queue1 := s.ped.queue, Step(cfg, s, e).ped.queue;
            if e.call.Malformed? || e.call.message.intersectionId != cfg.intersectionId
               || e.call.message.validUntil <= e.now
            then queue1 == queue
            else
              var call := e.call.message;
              if !Queued(queue, call.approach, false) then queue1 == queue + [call]
              else if Queued(queue, call.approach, true) || !call.accessibility then queue1 == queue
              else exists x :: 0 <= x < |queue| && queue[x].approach == call.approach && queue1 == queue[x := call]
  {
    if e.call.Parsed? {
      var call := e.call.message;
      var found := FindCall(s.ped.queue, call.approach);
      if found.Some? {
        assert s.ped.queue[found.value].approach == call.approach;
        assert forall y :: 0 <= y < |s.ped.queue| && s.ped.queue[y].approach == call.approach ==> y == found.value;
      }
    }
  }

  // ---- who goes first ----

  /** Some other call in the queue goes before the one at `x`: it is for accessibility and that one is
      not, or, both or neither being so, it has an older timestamp, or the same and is further ahead. */
  predicate Behind(queue: seq<PedCall>, x: nat)
    requires x < |queue|
  {
    exists y :: 0 <= y < |queue| && y != x
      && if queue[y].accessibility != queue[x].accessibility then queue[y].accessibility
         else if queue[y].producerTimestamp != queue[x].producerTimestamp
         then queue[y].producerTimestamp < queue[x].producerTimestamp
         else y < x
  }

  lemma FirstExactly(queue: seq<PedCall>, x: nat)
    requires x < |queue|
    ensures NextCall(queue) == x <==> !Behind(queue, x)
  {
    var i := NextCall(queue);
    if i != x {
      assert i < x ==> !ServedBefore(queue[x], queue[i]);
      assert x < i ==> ServedBefore(queue[i], queue[x]);
    }
  }

  /** The call of `a` in the queue is behind another one. */
  predicate Overtaken(queue: seq<PedCall>, a: Approach) {
    exists x :: 0 <= x < |queue| && queue[x].approach == a && Behind(queue, x)
  }

  lemma NotFirst(queue: seq<PedCall>, a: Approach)
    requires OnePerApproach(queue) && Queued(queue, a, false)
    ensures queue[NextCall(queue)].approach == a <==> !Overtaken(queue, a)
  {
    hide NextCall, Behind;
    var x :| 0 <= x < |queue| && queue[x].approach == a;
    FirstExactly(queue, x);
    assert forall y :: 0 <= y < |queue| && queue[y].approach == a ==> y == x;
  }

  /** A start takes the first call of the queue. */
  lemma StartTakesFirst(r: Run, k: nat)
    requires r.Valid() && k < |r.events| && StartsService(r, k)
    ensures var queue := r.states[k].ped.queue;
            && queue != [] && r.states[k + 1].ped.approach == Some(queue[NextCall(queue)].approach)
  {
    hide Step, NextCall;
    ReachableConsistent(r, k);
    assert r.Linked(k);
    var s, e := r.states[k], r.events[k];
    if !e.Ticked? {
      QuietStep(r.cfg, s, e);
    } else if r.states[k + 1].watch.mode.AllRedFlash? {
      FlashStep(r.cfg, s, e);
    } else if Serving(r.cfg, s.ped, e.now) {
      ServingStep(r.cfg, s, e);
    } else {
      IdleStep(r.cfg, s, e);
    }
  }

  /** Event `k` starts the service of `a`. */
  ghost predicate StartsFor(r: Run, k: nat, a: Approach)
    requires r.Valid() && k < |r.events|
  {
    StartsService(r, k) && r.states[k + 1].ped.approach == Some(a)
  }

  /** While `a` is queued, a start serves it exactly when it is not overtaken. */
  lemma StartsForExactly(r: Run, k: nat, a: Approach)
    requires r.Valid() && k < |r.events| && Queued(r.states[k].ped.queue, a, false)
    ensures StartsFor(r, k, a) <==> StartsService(r, k) && !Overtaken(r.states[k].ped.queue, a)
  {
    hide Step, NextCall, Queued, Overtaken, StartsService;
    CallsAreDeduplicated(r, k);
    NotFirst(r.states[k].ped.queue, a);
    if StartsService(r, k) { StartTakesFirst(r, k); }
  }

  /** The state before an event calls for a start: a tick finds somebody queued and no green within
      its minimum, outside ALL_RED_FLASH, with no service in flight and no live preempt. */
  predicate StartDue(cfg: Config, s: State, e: Event) {
    && e.Ticked?
    && !Flashes(cfg, s.watch, e.now) && !Serving(cfg, s.ped, e.now)
    && !PreemptLive(s.slot, e.now) && CallStarts(cfg, s, e.now)
  }

  /** A service starts exactly when the state before the event calls for it. */
  lemma StartsExactly(r: Run, k: nat)
    requires r.Valid() && k < |r.events|
    ensures StartsService(r, k) <==> StartDue(r.cfg, r.states[k], r.events[k])
  {
    hide Step, Tick, NextCall, CheckStaleness, Flashes, WatchConsistent, ScheduledPhase, Schedule;
    EventFacts(r, k);
    assert r.Linked(k);
    var cfg, s, e := r.cfg, r.states[k], r.events[k];
    if !e.Ticked? {
      QuietStep(cfg, s, e);
    } else {
      WatchdogOutcome(cfg, s.watch, e.now);
      assert r.states[k + 1].watch == CheckStaleness(cfg, s.watch, e.now) by { TickWatches(cfg, s, e.now); }
      if Flashes(cfg, s.watch, e.now) {
        FlashStep(cfg, s, e);
      } else if Serving(cfg, s.ped, e.now) {
        ServingStep(cfg, s, e);
      } else {
        IdleStep(cfg, s, e);
      }
    }
  }

  lemma TickWatches(cfg: Config, s: State, now: int)
    requires cfg.plan.Valid()
    ensures Tick(cfg, s, now).watch == CheckStaleness(cfg, s.watch, now)
  {
  }

  /** A queued call waits through the events `i..n-1` exactly when every tick among them that calls for
      a start finds it overtaken, by a call for accessibility while it is not one, or by one with an
      older timestamp. Under a live preempt or in ALL_RED_FLASH no tick calls for a start. */
  lemma {:induction false} WaitsExactly(r: Run, i: nat, n: nat, a: Approach)
    requires r.Valid() && i <= n <= |r.events| && Queued(r.states[i].ped.queue, a, false)
    ensures (forall k :: i <= k < n ==> !StartsFor(r, k, a)) <==>
            (forall k :: i <= k < n && StartDue(r.cfg, r.states[k], r.events[k]) ==>
               Overtaken(r.states[k].ped.queue, a))
    ensures (forall k :: i <= k < n ==> !StartsFor(r, k, a)) ==> Queued(r.states[n].ped.queue, a, false)
    decreases n
  {
    hide Step, NextCall, Queued, Overtaken, StartsService, StartDue;
    if i < n {
      WaitsExactly(r, i, n - 1, a);
      if forall k :: i <= k < n - 1 ==> !StartsFor(r, k, a) {
        CallsAreKept(r, n - 1, a, false);
        StartsForExactly(r, n - 1, a);
        StartsExactly(r, n - 1);
      }
    }
  }

  // ---- how soon a service starts ----

  /** From state `i` on somebody is queued, no preempt is armed and the mode is not ALL_RED_FLASH. */
  ghost predicate Undisturbed(r: Run, i: nat, j: nat)
    requires r.Valid() && j <= |r.events|
  {
    r.NoFlash(i, j) && forall k :: i <= k <= j ==> r.states[k].slot.request.None?
  }

  /** The longest a queue can wait for a start when ticks come at most `p` apart. */
  function StartBound(cfg: Config, p: nat): int {
    Max(cfg.minGreen, cfg.LongestWalk() + cfg.pedClearanceMin + p) + p
  }

  /** While nothing has started since state `i`: either a service found then is still on, and will be
      over in time, or the machine is free and every tick so far has found a young green. */
  predicate Awaiting(cfg: Config, since: int, armed: Signal, s: State, tick: int, p: nat) {
    && s.ped.queue != []
    && match s.ped.state
       case NoPed =>
         && (s.signal == armed || !IsGreen(s.signal.phase))
         && tick <= Max(since, since + cfg.minGreen)
       case _ => ServiceDeadline(cfg, s.ped, tick, p) <= since + StartBound(cfg, p)
  }

  lemma AwaitingStep(r: Run, i: nat, j: nat, p: nat)
    requires r.Valid() && i <= j < |r.events| && Undisturbed(r, j, j + 1) && r.TicksWithin(p, j + 1)
    requires Awaiting(r.cfg, r.Since(i), r.states[i].signal, r.states[j], r.LastTick(j), p)
    requires !StartsService(r, j)
    ensures Awaiting(r.cfg, r.Since(i), r.states[i].signal, r.states[j + 1], r.LastTick(j + 1), p)
  {
    hide Step, NextCall, CheckStaleness, ScheduledPhase, WatchConsistent;
    ReachableConsistent(r, j);
    ReachableConsistent(r, i);
    LastTickBounds(r, j);
    assert r.Linked(j);
    var s, e := r.states[j], r.events[j];
    if !e.Ticked? {
      QuietStep(r.cfg, s, e);
    } else if Serving(r.cfg, s.ped, e.now) {
      ServingStep(r.cfg, s, e);
    } else {
      IdleStep(r.cfg, s, e);
    }
  }

  lemma {:induction false} AwaitingFrom(r: Run, i: nat, j: nat, p: nat)
    requires r.Valid() && i <= j <= |r.events| && Undisturbed(r, i, j) && r.TicksWithin(p, j)
    requires r.states[i].ped.queue != [] && forall k :: i <= k < j ==> !StartsService(r, k)
    ensures Awaiting(r.cfg, r.Since(i), r.states[i].signal, r.states[j], r.LastTick(j), p)
    decreases j
  {
    hide Step, StartsService;
    if i == j {
      ReachableConsistent(r, i);
      LastTickBounds(r, i);
    } else {
      AwaitingFrom(r, i, j - 1, p);
      AwaitingStep(r, i, j - 1, p);
    }
  }

  /** The first start among the events `i..j`. */
  lemma {:induction false} FirstStart(r: Run, i: nat, j: nat) returns (k: nat)
    requires r.Valid() && i <= j < |r.events|
    ensures i <= k <= j + 1 && (k <= j ==> StartsService(r, k))
    ensures forall l :: i <= l < k ==> !StartsService(r, l)
    decreases j - i
  {
    if StartsService(r, i) || i == j {
      k := if StartsService(r, i) then i else i + 1;
    } else {
      k := FirstStart(r, i + 1, j);
    }
  }

  /** Liveness of the queue: while somebody is queued, with no preempt and no ALL_RED_FLASH, a
      service starts within the bound, at any rate of ticks up to `p` apart. Event `j` is a tick that
      shows that the run goes on for that long. */
  lemma QueueIsServed(r: Run, i: nat, j: nat, p: nat) returns (k: nat)
    requires r.Valid() && i <= j < |r.events| && Undisturbed(r, i, j + 1) && r.TicksWithin(p, j + 1)
    requires r.states[i].ped.queue != []
    requires r.events[j].Ticked? && r.Since(i) + StartBound(r.cfg, p) < r.events[j].now
    ensures i <= k < j && StartsService(r, k) && r.events[k].now <= r.Since(i) + StartBound(r.cfg, p)
    ensures forall l :: i <= l < k ==> !StartsService(r, l)
  {
    hide Step, StartsService;
    k := FirstStart(r, i, j);
    var n := if k <= j then k else j;
    AwaitingFrom(r, i, n, p);
    LastTickBounds(r, i);
    assert r.LastTick(n) + p <= r.Since(i) + StartBound(r.cfg, p);
    if k <= j { ServiceStart(r, k); }
  }

  /** How often `a` is passed over among the events `i..j-1`: the starts before its own first one. */
  ghost function Overtakings(r: Run, i: nat, j: nat, a: Approach): nat
    requires r.Valid() && i <= j <= |r.events|
    decreases j - i
  {
    if i == j || StartsFor(r, i, a) then 0
    else (if StartsService(r, i) then 1 else 0) + Overtakings(r, i + 1, j, a)
  }

  lemma {:induction false} FirstOvertaking(r: Run, i: nat, k: nat, j: nat, a: Approach)
    requires r.Valid() && i <= k < j <= |r.events| && StartsService(r, k) && !StartsFor(r, k, a)
    requires forall l :: i <= l < k ==> !StartsService(r, l)
    ensures Overtakings(r, i, j, a) == 1 + Overtakings(r, k + 1, j, a)
    decreases k - i
  {
    if i < k { FirstOvertaking(r, i + 1, k, j, a); }
  }

  /** The bound for one call: passed over at most `m` times before its own service, it is served within
      `m + 1` such bounds, whoever is served after it. */
  lemma {:induction false} CallIsServed(r: Run, i: nat, j: nat, a: Approach, p: nat, m: nat) returns (k: nat)
    requires r.Valid() && i <= j < |r.events| && Undisturbed(r, i, j + 1) && r.TicksWithin(p, j + 1)
    requires Queued(r.states[i].ped.queue, a, false) && Overtakings(r, i, j, a) <= m
    requires r.events[j].Ticked? && r.Since(i) + (m + 1) * StartBound(r.cfg, p) < r.events[j].now
    ensures i <= k < j && StartsFor(r, k, a) && r.events[k].now <= r.Since(i) + (m + 1) * StartBound(r.cfg, p)
    decreases m
  {
    hide Step, StartsService, Overtakings, Undisturbed, StartBound;
    BoundsAdd(r.cfg, p, m);
    assert r.states[i].ped.queue != [];
    k := QueueIsServed(r, i, j, p);
    if !StartsFor(r, k, a) {
      FirstOvertaking(r, i, k, j, a);
      assert forall l :: i <= l < k + 1 ==> !StartsFor(r, l, a);
      WaitsExactly(r, i, k + 1, a);
      LaterUndisturbed(r, i, k + 1, j + 1);
      k := CallIsServed(r, k + 1, j, a, p, m - 1);
    }
  }

  lemma LaterUndisturbed(r: Run, i: nat, k: nat, j: nat)
    requires r.Valid() && i <= k <= j <= |r.events| && Undisturbed(r, i, j)
    ensures Undisturbed(r, k, j)
  {
  }

  lemma BoundsAdd(cfg: Config, p: nat, m: nat)
    ensures 0 <= StartBound(cfg, p) <= (m + 1) * StartBound(cfg, p)
    ensures (m + 1) * StartBound(cfg, p) == m * StartBound(cfg, p) + StartBound(cfg, p)
  {
    var b := StartBound(cfg, p);
    assert 0 <= m * b;
  }

  // ---- overtaken for ever ----

  /** An east-west service for accessibility has just started, and a plain north-south call waits. */
  predicate Bypassed(s: State, call: PedCall, now: int) {
    && s.watch.mode.FixedTime? && s.slot == Slot(None, 0)
    && s.ped == Ped([call], Walking, Some(EastWest), now, true)
    && s.signal.phase == PedEwWalk
  }

  function AccessibleCall(cfg: Config, now: int): PedCall {
    PedCall(cfg.intersectionId, EastWest, true, now, now + 1)
  }

  predicate PlainCall(call: PedCall) {
    call.approach.NorthSouth? && !call.accessibility
  }

  lemma BypassStarts(cfg: Config, s: State, call: PedCall, now: int)
    requires cfg.plan.Valid() && 0 < now && 0 < cfg.adaMinWalk && PlainCall(call)
    requires s.watch.mode.FixedTime? && s.slot == Slot(None, 0) && !Young(cfg, s.signal, now)
    requires s.ped.queue == [call, AccessibleCall(cfg, now)] && PedConsistent(s.ped, now) && !Serving(cfg, s.ped, now)
    ensures Bypassed(Step(cfg, s, Ticked(now)), call, now)
  {
    hide Step, NextCall;
    TickKeepsFixed(cfg, s, now);
    FirstExactly(s.ped.queue, 1);
    assert !Behind(s.ped.queue, 1);
    IdleStep(cfg, s, Ticked(now));
  }

  lemma TickKeepsFixed(cfg: Config, s: State, now: int)
    requires cfg.plan.Valid() && s.watch.mode.FixedTime?
    ensures Step(cfg, s, Ticked(now)).watch == s.watch
  {
  }

  lemma SecondCallQueues(cfg: Config, s: State, call: PedCall, now: int)
    requires cfg.plan.Valid() && PlainCall(call) && s.ped.queue == [call]
    ensures Step(cfg, s, PedCallArrives(now, Parsed(AccessibleCall(cfg, now))))
            == s.(ped := s.ped.(queue := [call, AccessibleCall(cfg, now)]))
  {
    assert FindCall(s.ped.queue, EastWest).None?;
  }

  /** Since its first event a call for `a` is queued, in FIXED_TIME and with no preempt. */
  ghost predicate WaitsCalmly(r: Run, a: Approach)
    requires r.Valid()
  {
    && (forall k :: 1 <= k <= |r.events| ==> Queued(r.states[k].ped.queue, a, false))
    && (forall k :: 0 <= k <= |r.events| ==> r.states[k].watch.mode.FixedTime? && r.states[k].slot.request.None?)
  }

  lemma ExtendWaits(q: Run, e: Event, a: Approach)
    requires q.Valid() && q.Since(|q.events|) <= e.now && WaitsCalmly(q, a)
    requires var t := Step(q.cfg, q.states[|q.events|], e);
             Queued(t.ped.queue, a, false) && t.watch.mode.FixedTime? && t.slot.request.None?
    ensures Extend(q, e).Valid() && WaitsCalmly(Extend(q, e), a)
  {
    hide Step, Queued;
    ExtendIsRun(q, e);
  }

  /** Events 2, 5, 8, ..., 3 * n - 1 each start a service of another approach than `a`. */
  ghost predicate PassedOver(r: Run, n: nat, a: Approach)
    requires r.Valid() && 3 * n <= |r.events|
  {
    forall k: nat :: 0 <= k < n ==> StartsService(r, 3 * k + 2) && !StartsFor(r, 3 * k + 2, a)
  }

  lemma ExtendPassed(q: Run, e: Event, n: nat, a: Approach)
    requires q.Valid() && q.Since(|q.events|) <= e.now && 3 * n <= |q.events| && PassedOver(q, n, a)
    ensures Extend(q, e).Valid() && PassedOver(Extend(q, e), n, a)
  {
    hide Step;
    ExtendIsRun(q, e);
    forall k: nat | 0 <= k < n
      ensures StartsService(Extend(q, e), 3 * k + 2) && !StartsFor(Extend(q, e), 3 * k + 2, a)
    {
      assert StartsService(q, 3 * k + 2) && !StartsFor(q, 3 * k + 2, a);
    }
  }

  lemma PassedOnce(r: Run, n: nat, a: Approach)
    requires r.Valid() && 3 * n + 3 <= |r.events| && PassedOver(r, n, a)
    requires StartsService(r, 3 * n + 2) && !StartsFor(r, 3 * n + 2, a)
    ensures PassedOver(r, n + 1, a)
  {
    hide StartsService, StartsFor;
  }

  /** A run in which the plain call waits while another approach is served `n` times. */
  ghost predicate BypassRun(r: Run, cfg: Config, call: PedCall, n: nat) {
    && r.Valid() && r.cfg == cfg && |r.events| == 3 * n
    && WaitsCalmly(r, NorthSouth) && PassedOver(r, n, NorthSouth)
    && (n > 0 ==> Bypassed(r.states[|r.events|], call, r.Since(|r.events|)))
  }

  lemma FirstBypass(cfg: Config, start: int, call: PedCall) returns (r: Run)
    requires cfg.plan.Valid() && 0 < start && 0 < cfg.adaMinWalk
    requires PlainCall(call) && call.intersectionId == cfg.intersectionId && start + cfg.minGreen < call.validUntil
    ensures BypassRun(r, cfg, call, 1)
  {
    hide Step, NextCall, WaitsCalmly, PassedOver;
    var now := start + cfg.minGreen;
    StartIsRun(cfg, start);
    var q := Run(cfg, start, [], [Init(cfg, start)]);
    assert WaitsCalmly(q, NorthSouth) && PassedOver(q, 0, NorthSouth) by { NothingYet(q, NorthSouth); }
    FirstCallQueues(cfg, start, call, now);
    var e := PedCallArrives(now, Parsed(call));
    IsQueued(q.states[0].(ped := Ped([call], NoPed, None, 0, false)).ped.queue, call);
    ExtendWaits(q, e, NorthSouth);
    ExtendPassed(q, e, 0, NorthSouth);
    r := Bypass(Extend(q, e), call, now, 0);
  }

  lemma NothingYet(q: Run, a: Approach)
    requires q.Valid() && q.events == []
    ensures WaitsCalmly(q, a) && PassedOver(q, 0, a)
  {
  }

  lemma IsQueued(queue: seq<PedCall>, call: PedCall)
    requires call in queue
    ensures Queued(queue, call.approach, false)
  {
  }

  /** An accessible call arrives and the tick at the same time takes it. */
  lemma Bypass(q: Run, call: PedCall, now: int, n: nat) returns (r: Run)
    requires q.Valid() && q.Since(|q.events|) <= now && |q.events| == 3 * n + 1
    requires WaitsCalmly(q, NorthSouth) && PassedOver(q, n, NorthSouth)
    requires var s := q.states[|q.events|];
             && s.ped.queue == [call] && s.slot == Slot(None, 0) && PedConsistent(s.ped, now)
             && !Serving(q.cfg, s.ped, now) && !Young(q.cfg, s.signal, now)
    requires 0 < q.cfg.adaMinWalk && PlainCall(call) && 0 < now
    ensures BypassRun(r, q.cfg, call, n + 1)
  {
    hide Step, NextCall, WaitsCalmly, PassedOver, Queued;
    var cfg, m := q.cfg, |q.events|;
    var e := PedCallArrives(now, Parsed(AccessibleCall(cfg, now)));
    CalmAt(q, m, NorthSouth);
    SecondCallQueues(cfg, q.states[m], call, now);
    IsQueued([call, AccessibleCall(cfg, now)], call);
    ExtendWaits(q, e, NorthSouth);
    ExtendPassed(q, e, n, NorthSouth);
    var q1 := Extend(q, e);
    BypassStarts(cfg, q1.states[m + 1], call, now);
    IsQueued([call], call);
    ExtendWaits(q1, Ticked(now), NorthSouth);
    ExtendPassed(q1, Ticked(now), n, NorthSouth);
    r := Extend(q1, Ticked(now));
    PassedOnce(r, n, NorthSouth);
  }

  lemma CalmAt(r: Run, k: nat, a: Approach)
    requires r.Valid() && WaitsCalmly(r, a) && k <= |r.events|
    ensures r.states[k].watch.mode.FixedTime? && r.states[k].slot.request.None?
  {
  }

  lemma FirstCallQueues(cfg: Config, start: int, call: PedCall, now: int)
    requires cfg.plan.Valid() && call.intersectionId == cfg.intersectionId && now < call.validUntil
    ensures Step(cfg, Init(cfg, start), PedCallArrives(now, Parsed(call)))
            == Init(cfg, start).(ped := Ped([call], NoPed, None, 0, false))
  {
  }

  lemma WalkTurnsToClearance(cfg: Config, s: State, call: PedCall, now: int)
    requires cfg.plan.Valid() && 0 < cfg.adaMinWalk && Bypassed(s, call, now)
    ensures var t := Step(cfg, s, Ticked(now + cfg.adaMinWalk));
            && t.watch == s.watch && t.slot == s.slot && t.signal.phase == PedEwClearance
            && t.ped == Ped([call], Clearing, Some(EastWest), now + cfg.adaMinWalk, true)
  {
    hide Step;
    TickKeepsFixed(cfg, s, now + cfg.adaMinWalk);
    ServingStep(cfg, s, Ticked(now + cfg.adaMinWalk));
  }

  /** One more round: the walk ends, an accessible call arrives as the clearance ends, and it is taken. */
  lemma NextBypass(q: Run, call: PedCall, n: nat) returns (r: Run)
    requires 0 < n && BypassRun(q, q.cfg, call, n) && 0 < q.cfg.adaMinWalk && PlainCall(call)
    ensures BypassRun(r, q.cfg, call, n + 1)
  {
    hide Step, NextCall, WaitsCalmly, PassedOver, Queued;
    var cfg, m := q.cfg, |q.events|;
    var now := q.Since(m);
    LastTickBounds(q, m);
    WalkTurnsToClearance(cfg, q.states[m], call, now);
    IsQueued([call], call);
    ExtendWaits(q, Ticked(now + cfg.adaMinWalk), NorthSouth);
    ExtendPassed(q, Ticked(now + cfg.adaMinWalk), n, NorthSouth);
    var q1 := Extend(q, Ticked(now + cfg.adaMinWalk));
    r := Bypass(q1, call, now + cfg.adaMinWalk + cfg.pedClearanceMin, n);
  }

  /** Accessible calls can overtake a plain one for ever: for every `n` there is a run without preempt
      or ALL_RED_FLASH in which another approach is served `n` times while it waits. */
  lemma {:induction false} OvertakenForEver(cfg: Config, start: int, call: PedCall, n: nat) returns (r: Run)
    requires cfg.plan.Valid() && 0 < start && 0 < cfg.adaMinWalk && 0 < n
    requires PlainCall(call) && call.intersectionId == cfg.intersectionId && start + cfg.minGreen < call.validUntil
    ensures r.cfg == cfg && BypassRun(r, cfg, call, n)
  {
    if n == 1 {
      r := FirstBypass(cfg, start, call);
    } else {
      var q := OvertakenForEver(cfg, start, call, n - 1);
      r := NextBypass(q, call, n - 1);
    }
  }
}
