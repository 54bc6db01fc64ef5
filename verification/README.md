# Verified models of an adaptive traffic-management system

The system drives signalised intersections. Cameras track vehicles, a decision engine recommends phases, and
a failsafe controller stands between those recommendations and the signal hardware. This project models
the parts whose behaviour is hardest to see from the code and proves what they promise over whole runs.

| files | what they model |
|---|---|
| `Phases`, `Requests`, `FixedTimePlans` | commanded phases and conflicts, messages and their gates, the fixed-time plan |
| `FailsafeModel`, `FailsafeController` | the controller: as a function from state and event to state, and as the class whose fields are updated in place |
| `FailsafeRuns`, `FailsafeNext` | whole runs of the controller, and what the next tick commands |
| `FailsafeGreens`, `FailsafePedestrians`, `FailsafeCalls`, `FailsafePreempts`, `FailsafeModes`, `FailsafeFixedTime` | theorems over runs of the controller |
| `Boxes`, `Sorting`, `Association`, `Tracks`, `Trackers`, `TrackerRuns` | overlap, greedy association, the multi-object tracker, and its runs |
| `ReId`, `Workers` | appearance re-identification and the camera worker's identity tables |
| `EngineModel`, `EngineRuns`, `EngineScores`, `DecisionEngine` | the recommendation engine |
| `Resilience`, `Limits`, `Detections`, `Corridors` | circuit breaker and bulkhead, rate limiter, duplicate suppression, green-wave corridors |
| `Options`, `Reals`, `Deques` | an option type, real remainders and rounding, queues next to their history |

`dafny verify dfyconfig.toml` checks everything.

## How the parts fit

A component that updates its fields in place is a class. Its methods are proved against a function on values,
and a ghost field `run` records every event; `Valid()` says that the fields are the last state of that run. The
theorems are about runs: any interleaving of events whose clock never goes back. They therefore hold of every
object of the class in every reachable state. The tracker, the rate limiter and the bulkhead carry their
invariants in `Valid()` instead, with ghost histories where a property speaks about the past. Runs of the
tracker are sequences of what it holds between frames, linked by what `Update` ensures (`FrameOf`). What the worker's
tables and the re-identifier's gallery keep together stands in the worker's `Holds()`; the re-identifier alone
has no invariant, and its methods state their whole effect.

Times and durations of the controller are whole nanoseconds. The clock is positive, because the program reads a
stored 0 as "never", and durations are not negative. Elsewhere times, scores, boxes and distances are exact
reals. What the networks compute (embeddings, the learned agent, forecasts) is an arbitrary input, and the
library's square root an arbitrary function.

## Where the code and its documents differ

The models follow the code.

- `docs/adr/0005-failsafe-controller-state-machine.md` promises yellow and all-red between conflicting phases.
  The filter inserts a yellow between the two greens only; it has no length of its own and no all-red follows
  (`InsertedYellowIsBrief`), decisions can lead through all-red without yellow (`AllRedWithoutYellow`), and
  preempt phases get no clearance, before or after (`PreemptCutsAcrossWithoutClearance`,
  `PreemptGivesWayWithoutClearance`). `IntergreenExactly` and, with durations, `FullIntergreenExactly` say over
  runs exactly when the promise is kept; `GreenNextExactly` and `StraightIntoConflictExactly` say it for one
  tick.
- Both documents promise that a walk, once begun, runs through its clearance. For walks that an AI decision
  commands directly this fails in three ways: the walk is cut (`UnmanagedWalkCutByCall`), no clearance follows
  (`UnmanagedWalkWithoutClearance`), or a clearance begins and is cut (`UnmanagedClearanceCutByPreempt`).
  `ClearancePromiseExactly` says over runs exactly when it holds, `UnmanagedWalkEndsExactly` and
  `WalkTurnsToClearanceExactly` what ends such a walk and when the clearance follows.
- `docs/adr/0007-preempt-pedestrian-ada.md` contradicts itself on preempts: its list of priorities puts a
  preempt above a pedestrian clearance in flight, while its preempt rules and fourth invariant say that a
  clearance is never shortened, even by a preempt. The code does the latter for the clearances that the
  pedestrian machine manages (`ClearanceIsServed`). A clearance that a decision commands directly can be cut, by
  a preempt among others (`UnmanagedClearanceCutByPreempt`); `LastsExactly` says exactly when one lasts.
- The same document holds an accessible walk for the larger of the two minima; the code holds it for the
  accessibility minimum (`AccessibleWalkCutShort`). `LongerWalksExactly` says for which configurations the two
  agree.
- Flaps are counted for AI_ADAPTIVE to FIXED_TIME only, not in both directions, and an operator's own move
  counts and can escalate (`RecoveriesAreNotCounted`); `FlapRulesDifferExactly` says exactly where the rules
  disagree.
- A pedestrian call is to be honoured in the current or next cycle. Calls for accessibility or with older
  timestamps can pass over a queued one any number of times (`OvertakenForEver`), and while a preempt is live,
  or in ALL_RED_FLASH, nobody is served at all (`StartsExactly`). `WaitsExactly` says how long a call waits, and
  `QueueIsServed` and `CallIsServed` give the bounds without preempts and ALL_RED_FLASH.
- The row of invalid submissions counts from the last turn to AI_ADAPTIVE: what was rejected before an operator
  selected that mode does not count (`RowOutlivesSelection`, `WholeRowBelowBurstExactly`).
- The count of valid submissions is not reset when an operator moves ALL_RED_FLASH to FIXED_TIME;
  `RecoveryIsGated` holds all the same.
- The engine's guard against starvation looks at the lower of the two scores. With the learned agent on, a
  direction that scores nothing keeps green for as long as the agent says so (`AgentStarves`, `StarvingRun`);
  `GreenSurvivesExactly` gives the condition over runs. With the agent off, one waiting direction with a
  positive score is enough for the bounds of `GreenEndsInTime` and `OppositeGreenInTime`.
- A comment in the engine says that a preemption overrides demand entirely. The learned agent overrides the
  preemption: saying keep, it blocks one for any length of time (`AgentBlocksPreemption`).
  `PreemptedGreenSurvivesExactly` says which decisions end a green under a preemption, `ClearanceHandsOver` that
  the handover then takes its course, and `PreemptionBound` gives the bound when the decisions agree.
- The corridor module says a platoon arrives exactly as the light turns green. Rounding the offset to two
  decimals can start the band up to 0.005 s late (`ArrivalCanBeEarly`, `ArrivalInstantExactly`).

## Model

| member | source | states |
|---|---|---|
| FailsafeControllers.FailsafeController.constructor | services/traffic-controller/src/failsafe.py:164-218 | a new controller is the empty run: FIXED_TIME, the plan's first phase, nothing accepted, armed or queued |
| FailsafeControllers.FailsafeController.SubmitDecision | services/traffic-controller/src/failsafe.py:227-269 | extends the run by the submission; accepted exactly when the acceptance gate passes |
| FailsafeControllers.FailsafeController.Tick | services/traffic-controller/src/failsafe.py:271-304 | extends the run by a tick and returns the phase that the run's last state commands |
| FailsafeControllers.FailsafeController.SubmitPreempt | services/traffic-controller/src/failsafe.py:306-369 | extends the run by the request; accepted exactly when valid and of strictly higher rank than what is armed |
| FailsafeControllers.FailsafeController.SubmitPreemptClear | services/traffic-controller/src/failsafe.py:371-398 | extends the run by the clear, which counts only for the armed approach after the minimum dwell |
| FailsafeControllers.FailsafeController.SubmitPedCall | services/traffic-controller/src/failsafe.py:400-434 | extends the run by the call; accepted exactly when valid, also when the queue stays as it is |
| FailsafeControllers.FailsafeController.ForceMode | services/traffic-controller/src/failsafe.py:442-450 | extends the run by the operator override |
| FailsafeControllers.FailsafeController.ReportHardwareFault | services/traffic-controller/src/failsafe.py:452-455 | extends the run by the fault |
| FailsafeControllers.FailsafeController.Status | services/traffic-controller/src/failsafe.py:457-475 | reading the status reports mode, dwell, decision, phase and counters, and evicts old flaps, whose number it gives |
| FailsafeControllers.FailsafeController.JudgeDecision | services/traffic-controller/src/failsafe.py:230-257 | judging a message in place computes the specified counters, decision in use and mode |
| FailsafeControllers.FailsafeController.Advance | services/traffic-controller/src/failsafe.py:273-287 | watchdog, choice, filter and bookkeeping in place compute the specified tick |
| FailsafeControllers.FailsafeController.EvictOldTransitions | services/traffic-controller/src/failsafe.py:872-875 | the popping loop drops exactly the leading timestamps older than the window |
| FailsafeControllers.FailsafeController.Transition | services/traffic-controller/src/failsafe.py:777-820 | the in-place mode change, with flap recording and escalation, is the specified one |
| FailsafeControllers.FailsafeController.OnInvalid | services/traffic-controller/src/failsafe.py:477-496 | an invalid submission in place: both counters, and the drop once the burst is reached in AI_ADAPTIVE |
| FailsafeControllers.FailsafeController.MaybeRecoverToAi | services/traffic-controller/src/failsafe.py:519-525 | recovery in place happens only past the dwell and the row of valid submissions |
| FailsafeControllers.FailsafeController.CheckStaleness | services/traffic-controller/src/failsafe.py:498-517 | the watchdog in place drops a stale or never-fed AI_ADAPTIVE and nothing else |
| FailsafeControllers.FailsafeController.DesiredPhase | services/traffic-controller/src/failsafe.py:527-566 | the choice in place: emergency stop, then the service in flight, the preempt, a queued call, the schedule |
| FailsafeControllers.FailsafeController.ContinuePedPhase | services/traffic-controller/src/failsafe.py:568-599 | the service in flight is advanced in place as specified |
| FailsafeControllers.FailsafeController.StartPedPhase | services/traffic-controller/src/failsafe.py:611-631 | the call taken is the specified next one, and it leaves the queue |
| FailsafeControllers.FailsafeController.ApplySafetyFilter | services/traffic-controller/src/failsafe.py:691-738 | the filter with its early returns computes the specified filter |
| FailsafeControllers.FailsafeController.OnPhaseChange | services/traffic-controller/src/failsafe.py:740-775 | a phase change stamps its start, and a walk also arms the clearance guard |
| FailsafeRuns.ExtendIsRun | services/traffic-controller/src/failsafe.py:227-434 | appending an event whose time is not before the last keeps a run a run, so all run theorems hold of every object |
| Requests.ValidateDecision | shared/atms_common/decision.py:168-207 | a decision passes exactly when addressed here, newer than the last accepted, not from the future, unexpired, and no signature is required |
| Requests.ValidateTimed | shared/atms_common/preempt.py:146-164 | preempts and pedestrian calls pass exactly when addressed here and unexpired |
| Requests.RefusalNamesFirstFailure | shared/atms_common/decision.py:168-207 | a refusal names a gate that fails, and every gate before that one passes |
| FailsafeModel.FindCall | services/traffic-controller/src/failsafe.py:418-421 | the place of an approach in the queue, or none when it has no call |
| FailsafeModel.NextCall | services/traffic-controller/src/failsafe.py:611-618 | the first queued call that no other outranks: accessibility first, then the older timestamp, ties in queue order |
| FixedTimePlans.PhaseAtLoop | shared/atms_common/safety.py:103-119 | the running-sum loop returns the phase of the interval partition of the cycle |
| FixedTimePlans.PartitionBoundaries | shared/atms_common/safety.py:106-118 | the prefix sums of the parts are the interval bounds of the partition |
| FixedTimePlans.PlanIsPeriodic | shared/atms_common/safety.py:105-119 | any whole number of cycles later or earlier the plan shows the same phase |
| FixedTimePlans.PlanRunsThrough | shared/atms_common/safety.py:103-119 | in every cycle each green lasts its time, its own yellow follows for its time, and then all-red until the other green or the end of the cycle |
| FixedTimePlans.CheckExactly | shared/atms_common/safety.py:59-75 | with a positive cycle the constructor accepts exactly the plans the theorems are about |
| Phases.ConflictsExactly | shared/atms_common/safety.py:19-36 | two phases conflict exactly when they let crossing approaches drive, or one is the preempt and the other the walk of one approach |
| FailsafeRuns.ReachableConsistent | services/traffic-controller/src/failsafe.py:185-208 | in every reachable state the clock fields, guards and pedestrian fields agree with each other and with what is commanded |
| FailsafeRuns.GuardIsLastWalk | services/traffic-controller/src/failsafe.py:740-742 | over runs the unmanaged-walk guard runs out one clearance time after the last turn to a walk, and nothing else starts or ends it |
| FailsafeRuns.QuietStep | services/traffic-controller/src/failsafe.py:306-455 | no event but a tick moves the signal or the pedestrian service; others may only queue a call |
| FailsafeRuns.FlashStep | services/traffic-controller/src/failsafe.py:527-530 | a tick in ALL_RED_FLASH commands flashing red and freezes preempt and pedestrian machines |
| FailsafeRuns.ServingStep | services/traffic-controller/src/failsafe.py:536-540 | a tick that finds a service in flight commands that service, past every guard of the filter |
| FailsafeRuns.IdleStep | services/traffic-controller/src/failsafe.py:542-566 | a tick with no service in flight starts the next queued call or filters the wish of the moment |
| FailsafeGreens.GreenLastsItsMinimum | services/traffic-controller/src/failsafe.py:713-723 | over whole runs a commanded green gives way before minimum green only to flashing red or to its own direction's preempt |
| FailsafeGreens.StreakStart | services/traffic-controller/src/failsafe.py:774-775 | the stored phase start is the time at which the phase was first commanded without a break |
| FailsafeGreens.NoDirectSwap | services/traffic-controller/src/failsafe.py:725-736 | no two consecutive ticks command the two conflicting greens, in either order |
| FailsafeNext.TickShows | services/traffic-controller/src/failsafe.py:527-738 | the phase a tick commands, from mode, watchdog, service, preempt, queue, schedule and clock before it |
| FailsafeNext.EventShows | services/traffic-controller/src/failsafe.py:271-304 | over runs only ticks change the phase, and each commands the phase read off before it |
| FailsafeNext.WatchdogOutcome | services/traffic-controller/src/failsafe.py:498-517 | a tick runs in ALL_RED_FLASH exactly when that is the mode or the watchdog's drop reaches the flap threshold |
| FailsafeNext.DisplayStaysExactly | services/traffic-controller/src/failsafe.py:691-738 | yellow, all-red, walk, clearance and preempt stay exactly while service, preempt, queue, schedule or guard give a reason; their age plays no part |
| FailsafeNext.LastsExactly | services/traffic-controller/src/failsafe.py:691-738 | over runs such a phase lasts a given time exactly when every tick within it has such a reason |
| FailsafeGreens.GreenNextExactly | services/traffic-controller/src/failsafe.py:725-738 | from any phase but a green, all-red included, a tick commands a green exactly when nothing stands above the schedule, no guard runs and that green is asked for |
| FailsafeGreens.ClearanceBegunExactly | services/traffic-controller/src/failsafe.py:725-738 | a tick brings on a yellow or an all-red exactly when asked for, or, the yellow only, when the crossing green is |
| FailsafeGreens.IntergreenExactly | services/traffic-controller/src/failsafe.py:725-738 | over runs, between phases for crossing approaches, preempts included, yellow and then all-red are shown exactly when ticks find them asked for |
| FailsafeGreens.FullIntergreenExactly | services/traffic-controller/src/failsafe.py:725-738 | the same with durations: shown in full exactly when every tick within them has a reason to keep them |
| FailsafeGreens.StraightIntoConflictExactly | services/traffic-controller/src/failsafe.py:691-738 | exactly which preempts, calls and wishes lead one tick straight into a conflicting phase |
| FailsafeGreens.PreemptCutsAcrossWithoutClearance | services/traffic-controller/src/failsafe.py:548-553 | two events from the start lead from one green straight to the crossing preempt |
| FailsafeGreens.PreemptGivesWayWithoutClearance | services/traffic-controller/src/failsafe.py:533-560 | from the start, a preempt expires and the crossing green of the plan follows at once |
| FailsafeGreens.InsertedYellowIsBrief | services/traffic-controller/src/failsafe.py:725-736 | from the start, two ticks at one instant go from one green through the inserted yellow to the other, with no all-red |
| FailsafeGreens.AllRedWithoutYellow | services/traffic-controller/src/failsafe.py:725-738 | from the start, two decisions lead from one green through all-red to the other, with no yellow |
| FailsafePedestrians.ServiceStart | services/traffic-controller/src/failsafe.py:555-561 | a service starts only at a tick, never before minimum green, with a call no queued call outranks, and its walk is commanded at once |
| FailsafePedestrians.WalkIsServed | services/traffic-controller/src/failsafe.py:568-582 | without ALL_RED_FLASH every tick commands the walk until that call's minimum walk has passed, whatever events arrive |
| FailsafePedestrians.ClearanceBegins | services/traffic-controller/src/failsafe.py:583-586 | the first tick past the walk minimum commands the clearance of the same approach |
| FailsafePedestrians.ClearanceIsServed | services/traffic-controller/src/failsafe.py:587-589 | every tick from then on commands the clearance until its minimum has passed |
| FailsafePedestrians.ClearanceStaysCommanded | services/traffic-controller/src/failsafe.py:587-589 | between those ticks the clearance stays on display |
| FailsafePedestrians.WalkByApproach | services/traffic-controller/src/failsafe.py:568-582 | a service for north-south shows PED_NS_WALK, one for east-west PED_EW_WALK |
| FailsafePedestrians.ClearanceByApproach | services/traffic-controller/src/failsafe.py:587-589 | and then PED_NS_CLEARANCE or PED_EW_CLEARANCE |
| FailsafePedestrians.ServiceEndsUnguarded | services/traffic-controller/src/failsafe.py:700-711 | when the service ends the unmanaged-walk guard has run out: the next call is served or the wish commanded outright |
| FailsafePedestrians.UnmanagedWalkIsHeld | services/traffic-controller/src/failsafe.py:700-711 | a walk commanded by a decision is held for the clearance time while no service starts, no flash applies and no decision asks for flashing |
| FailsafePedestrians.UnmanagedWalkEndsExactly | services/traffic-controller/src/failsafe.py:691-738 | the tick that ends a walk commanded by a decision, at any time: exactly which modes, preempts, calls and schedules do it |
| FailsafePedestrians.WalkTurnsToClearanceExactly | services/traffic-controller/src/failsafe.py:691-738 | it turns to the clearance of its approach exactly for a next call there without minimum walk, or, with nobody queued and the guard run out, a decision that asks for it |
| FailsafePedestrians.ClearanceNextExactly | services/traffic-controller/src/failsafe.py:691-738 | from any phase but a green a tick shows a clearance exactly for the stated reasons |
| FailsafePedestrians.ClearancePromiseExactly | services/traffic-controller/src/failsafe.py:691-738 | over runs such a walk is followed by its full clearance exactly when its last tick turns to it and every tick within the minimum keeps it |
| FailsafePedestrians.UnmanagedWalkCutByCall | services/traffic-controller/src/failsafe.py:700-711 | from the start in AI_ADAPTIVE, a call for the crossing approach replaces a decided walk at once |
| FailsafePedestrians.UnmanagedWalkWithoutClearance | services/traffic-controller/src/failsafe.py:700-738 | from the start, a decided walk is held in full and then gives way to a green with no clearance |
| FailsafePedestrians.UnmanagedClearanceCutByPreempt | services/traffic-controller/src/failsafe.py:548-553 | from the start, a decided walk turns to its clearance, and a crossing preempt cuts that at once |
| FailsafePedestrians.AccessibleWalkCutShort | services/traffic-controller/src/failsafe.py:573-586 | from the start, an accessible service leaves the walk before the ordinary minimum when that is the larger |
| FailsafePedestrians.LongerWalksExactly | services/traffic-controller/src/failsafe.py:573-586 | all runs hold accessible walks for the larger minimum, at every tick rate, exactly when the accessibility minimum is at least the ordinary one |
| FailsafeCalls.CallsAreDeduplicated | services/traffic-controller/src/failsafe.py:415-421 | in every run the queue holds at most one call for each approach |
| FailsafeCalls.CallsAreKept | services/traffic-controller/src/failsafe.py:400-434 | a queued call is never lost and never loses its accessibility: it stays queued until a service of its approach starts |
| FailsafeCalls.CallStep | services/traffic-controller/src/failsafe.py:415-434 | a valid call is queued at once with at least the accessibility it asks for, and the other calls stay queued |
| FailsafeCalls.CallChangesQueueExactly | services/traffic-controller/src/failsafe.py:400-434 | a call changes the queue exactly when valid: appended when its approach is not queued, in place when it upgrades it to accessibility |
| FailsafeCalls.FirstExactly | services/traffic-controller/src/failsafe.py:611-618 | a call is taken next exactly when no other is accessible when it is not, older with the same accessibility, or further ahead in a tie |
| FailsafeCalls.StartsExactly | services/traffic-controller/src/failsafe.py:527-561 | over runs a service starts exactly at a tick that finds somebody queued, no flash, no service in flight, no live preempt and no green within its minimum |
| FailsafeCalls.WaitsExactly | services/traffic-controller/src/failsafe.py:536-561 | over runs a queued call waits exactly as long as every tick that calls for a start finds it overtaken; under a live preempt or flash no tick calls for one |
| FailsafeCalls.QueueIsServed | services/traffic-controller/src/failsafe.py:555-561 | with no preempt and no ALL_RED_FLASH somebody queued is served within max(minimum green, longest walk + clearance + p) + p |
| FailsafeCalls.CallIsServed | services/traffic-controller/src/failsafe.py:555-561 | a call passed over at most m times before its own service is served within m + 1 such bounds, whoever is served after it |
| FailsafeCalls.OvertakenForEver | services/traffic-controller/src/failsafe.py:611-618 | for every n there is a run in which accessible calls pass over a waiting plain one n times |
| FailsafePreempts.PreemptServedWhenFree | services/traffic-controller/src/failsafe.py:691-738 | with no service in flight a preempt that stays in force is commanded by every tick from max(minimum green, clearance) on, at any tick rate |
| FailsafePreempts.PreemptNextExactly | services/traffic-controller/src/failsafe.py:691-738 | with no service in flight a tick shows the preempt in force exactly when the guard of the last walk has run out and the crossing green, if on, has had its minimum; the green of its own approach gives way at any age |
| FailsafePreempts.PreemptServedAfterPedestrians | services/traffic-controller/src/failsafe.py:536-553 | with a service in flight it is commanded by every tick from longest walk + clearance + two tick periods on |
| FailsafePreempts.PreemptBoundedResponse | services/traffic-controller/src/failsafe.py:527-566 | the combined bound, whatever decisions, calls and mode changes outside ALL_RED_FLASH arrive: a north-south request is shown as EV_PREEMPT_NS, an east-west one as EV_PREEMPT_EW |
| FailsafePreempts.SlotChangesExactly | services/traffic-controller/src/failsafe.py:326-398 | an armed preempt leaves exactly to a valid request of strictly higher rank, at a tick past its expiry outside ALL_RED_FLASH, or by a clear for its approach after the dwell |
| FailsafePreempts.EmptySlotFills | services/traffic-controller/src/failsafe.py:310-349 | with nothing armed a request is armed exactly when it is addressed here and unexpired |
| FailsafePreempts.RanksExactly | shared/atms_common/preempt.py:44-55 | fire and rescue outrank ambulances, these police, and all of them transit; equals do not outrank each other |
| FailsafeModes.CounterBelowRow | services/traffic-controller/src/failsafe.py:246-250 | the recovery counter never exceeds the row of accepted submissions of the whole run |
| FailsafeModes.InvalidsBelowBurst | services/traffic-controller/src/failsafe.py:477-496 | in AI_ADAPTIVE the counter is the row of rejected submissions since the mode was entered, and the row is shorter than the burst limit |
| FailsafeModes.WholeRowExactly | services/traffic-controller/src/failsafe.py:477-496 | the row over the whole run is the one since entry, plus what was rejected before it when nothing was accepted since |
| FailsafeModes.WholeRowBelowBurstExactly | services/traffic-controller/src/failsafe.py:477-496 | the row over the whole run is below the limit exactly when something was accepted since entry or both parts together are |
| FailsafeModes.RowOutlivesSelection | services/traffic-controller/src/failsafe.py:442-450 | a run in which rejections in FIXED_TIME leave a row as long as the limit once an operator selects AI_ADAPTIVE |
| FailsafeModes.AcceptedIdsIncrease | shared/atms_common/decision.py:183-187 | accepted identifiers strictly increase over a run, and the decision in use is the last one accepted |
| FailsafeModes.RecoveryIsGated | services/traffic-controller/src/failsafe.py:519-525 | the controller returns to AI_ADAPTIVE by itself only past an unbroken dwell and a full row of accepted submissions |
| FailsafeModes.CounterIsRow | services/traffic-controller/src/failsafe.py:246-250 | the recovery counter is the row of submissions accepted in FIXED_TIME since the last rejection or turn to AI_ADAPTIVE |
| FailsafeModes.RecoversExactly | services/traffic-controller/src/failsafe.py:519-525 | unless an operator does it, AI_ADAPTIVE is entered exactly at an accepted submission in FIXED_TIME that completes the row, past the dwell since that mode was entered |
| FailsafeModes.DecisionInUseIsFresh | services/traffic-controller/src/failsafe.py:498-517 | after every tick in AI_ADAPTIVE the decision in use is within the staleness limit and has the largest accepted identifier |
| FailsafeModes.OutageLeavesAi | services/traffic-controller/src/failsafe.py:498-517 | without new decisions AI_ADAPTIVE is left within staleness limit + one tick period, and stays left unless forced |
| FailsafeModes.EvictTracks | services/traffic-controller/src/failsafe.py:872-875 | on sorted times, popping from the front removes exactly the old ones |
| FailsafeModes.DequeTracksHistory | services/traffic-controller/src/failsafe.py:796-799 | at all times the deque is an end of the run's drops, and what it lost is out of the window |
| FailsafeModes.DequeIsRecentHistory | services/traffic-controller/src/failsafe.py:868-875 | after an eviction the deque is exactly the drops of the whole run within the window |
| FailsafeModes.DropEscalatesExactly | services/traffic-controller/src/failsafe.py:796-812 | a drop ends in ALL_RED_FLASH exactly when the drops of the whole run within the window reach the threshold |
| FailsafeModes.FlapRulesDifferExactly | services/traffic-controller/src/failsafe.py:796-812 | code and documented flap count disagree at a drop exactly when drops < threshold <= drops + recoveries in the window, and at a recovery exactly when they reach it together |
| FailsafeModes.RecoveriesAreNotCounted | services/traffic-controller/src/failsafe.py:796-812 | a run with two drops and two recoveries in one window and a threshold of three that does not flash |
| FailsafeModes.ReportedMode | services/traffic-controller/src/failsafe.py:457-475 | the mode in the status report has lasted exactly the time it gives: since a state of the run and no longer |
| FailsafeModes.ReportedFlaps | services/traffic-controller/src/failsafe.py:457-475 | the flaps in the status report are the drops of the whole run in the window |
| FailsafeModes.ReportedDecision | services/traffic-controller/src/failsafe.py:457-475 | the decision in the status report is the one in use, and its age the time since its acceptance |
| FailsafeModes.DropsAreSpaced | services/traffic-controller/src/failsafe.py:519-525 | without operator overrides drops are at least the minimum dwell apart |
| FailsafeModes.FlashNeedsFault | services/traffic-controller/src/failsafe.py:777-820 | with a threshold above what the dwell allows per window and no override, only a hardware fault reaches ALL_RED_FLASH |
| FailsafeModes.FlashUntilForced | services/traffic-controller/src/failsafe.py:787-790 | once in ALL_RED_FLASH every tick commands flashing red until an operator forces a mode |
| FailsafeModes.FlashEntersExactly | services/traffic-controller/src/failsafe.py:452-455 | ALL_RED_FLASH is entered exactly at a hardware fault, when an operator forces it, or at a drop whose count over the history reaches the threshold |
| FailsafeModes.FaultFlashes | services/traffic-controller/src/failsafe.py:452-455 | from a hardware fault on every tick commands flashing red until an operator forces a mode |
| FailsafeModes.OverrideExactly | services/traffic-controller/src/failsafe.py:442-450 | an operator gets the mode asked for, out of ALL_RED_FLASH too, unless that is a drop to FIXED_TIME that reaches the flap threshold |
| FailsafeModes.ReportedCounters | services/traffic-controller/src/failsafe.py:457-475 | the status report names the phase commanded last and counts the rows of accepted and, in AI_ADAPTIVE, of rejected submissions |
| FailsafeFixedTime.FixedTimeRefinesPlan | services/traffic-controller/src/failsafe.py:557-560 | while the mode is FIXED_TIME, no preempt is armed and nobody is queued, with ticks at most p apart and a plan that suits p, every tick commands exactly the plan's phase, over any number of cycles |
| FailsafeFixedTime.HarmlessRun | services/traffic-controller/src/failsafe.py:227-475 | ticks, status reads, rejected messages and overrides to FIXED_TIME keep it so |
| FailsafeFixedTime.FollowsAdvance | services/traffic-controller/src/failsafe.py:713-738 | moving on by at most one tick period never meets a hold or a direct swap |
| Association.Candidates | services/ai-perception/src/tracking/bytetrack_simple.py:224-229 | the candidate list is the scan of the matrix, row by row |
| Association.ScanFinds | services/ai-perception/src/tracking/bytetrack_simple.py:224-229 | the scan meets exactly the pairs above the threshold |
| Association.Associate | services/ai-perception/src/tracking/bytetrack_simple.py:181-247 | the greedy loop yields the one result of best first with ties in matrix order; it is stable; and both lists of what is left over |
| Association.GreedyBlocks | services/ai-perception/src/tracking/bytetrack_simple.py:234-241 | taking candidates best first yields a matching in which every candidate is chosen or loses to a chosen one |
| Association.GreedyIsHalfOptimal | services/ai-perception/src/tracking/bytetrack_simple.py:231-241 | the chosen pairs earn at least half the overlap of any other matching above the threshold |
| Association.TwiceChosen | services/ai-perception/src/tracking/bytetrack_simple.py:231-241 | a matching all of whose pairs lose to a chosen pair is worth at most twice what was chosen |
| Association.StableIsUnique | services/ai-perception/src/tracking/bytetrack_simple.py:231-241 | without ties every stable matching chooses the same pairs |
| Sorting.SortSorts | services/ai-perception/src/tracking/bytetrack_simple.py:232 | the library sort orders by descending key and keeps the elements |
| Sorting.SortIsStable | services/ai-perception/src/tracking/bytetrack_simple.py:232 | elements with equal keys keep their order |
| Boxes.IouBounds | services/ai-perception/src/tracking/bytetrack_simple.py:257-272 | overlap is symmetric and between 0 and 1, also for degenerate boxes |
| Boxes.IouFormulasAgree | services/panel-gateway/src/detection.py:164-168 | the detector's clamped formula and the tracker's early-exit formula are the same function |
| Boxes.IouPositiveExactly | services/ai-perception/src/tracking/bytetrack_simple.py:257-272 | two boxes overlap exactly when some point lies strictly inside both |
| Boxes.IouNested | services/ai-perception/src/tracking/bytetrack_simple.py:257-272 | a box inside another overlaps it by the ratio of the areas; so a box overlaps itself by exactly 1 |
| Boxes.IouAfterStep | services/ai-perception/src/tracking/bytetrack_simple.py:257-272 | the overlap of a box with itself moved by a step, in closed form |
| Boxes.IouMoved | services/ai-perception/src/tracking/bytetrack_simple.py:257-272 | moving both boxes alike leaves their overlap as it was |
| Trackers.SimpleByteTracker.constructor | services/ai-perception/src/tracking/bytetrack_simple.py:19-52 | a new tracker has handed out nothing |
| Trackers.SimpleByteTracker.OverlapMatrix | services/ai-perception/src/tracking/bytetrack_simple.py:189-217 | the nested loops fill the matrix of overlaps with predicted boxes |
| Trackers.SimpleByteTracker.ApplyDetections | services/ai-perception/src/tracking/bytetrack_simple.py:167-179 | matched tracks are refreshed and their centres recorded |
| Trackers.SimpleByteTracker.MatchPass | services/ai-perception/src/tracking/bytetrack_simple.py:99-122 | one pass: the greedy matching, its tracks refreshed, the rest left over in order |
| Trackers.SimpleByteTracker.Births | services/ai-perception/src/tracking/bytetrack_simple.py:124-138 | unmatched high detections become tracks numbered on from the count |
| Trackers.SimpleByteTracker.AgeTracks | services/ai-perception/src/tracking/bytetrack_simple.py:140-156 | unmatched tracks grow older by one frame, and those missing for longer than the buffer go |
| Trackers.SimpleByteTracker.Passes | services/ai-perception/src/tracking/bytetrack_simple.py:88-138 | both passes and the births: the new screen as a function of the two matchings |
| Trackers.SimpleByteTracker.Update | services/ai-perception/src/tracking/bytetrack_simple.py:56-165 | one frame: the whole new state as a function of the old one and the detections, through two greedy matchings; outputs, conservation of identifiers and removals |
| Trackers.SimpleByteTracker.FrameAdvances | services/ai-perception/src/tracking/bytetrack_simple.py:88-156 | a frame keeps live and removed identifiers a partition of all handed out, histories for exactly the live ones, and counters equal to absences |
| Trackers.SimpleByteTracker.OutputsOnce | services/ai-perception/src/tracking/bytetrack_simple.py:88-165 | each high-confidence detection is behind exactly one output, each low one behind at most one |
| Trackers.SimpleByteTracker.LivesWithinBuffer | services/ai-perception/src/tracking/bytetrack_simple.py:140-156 | an identifier lives exactly while it has been out of the output for at most track_buffer frames; removal is on the next frame |
| Trackers.SimpleByteTracker.PassEarnsHalf | services/ai-perception/src/tracking/bytetrack_simple.py:181-247 | each pass earns at least half the overlap of any other matching above the threshold |
| TrackerRuns.PredictsNext | services/ai-perception/src/tracking/bytetrack_simple.py:202-213 | a lone track whose last two centres are a step apart is expected exactly one step further |
| TrackerRuns.SteadyKeepsIdentity | services/ai-perception/src/tracking/bytetrack_simple.py:56-165 | over any number of frames, a lone vehicle of constant size that was seen twice a step apart and keeps moving by that step keeps its identifier, however large the step, when the threshold is below 1 |
| TrackerRuns.OneIdentityExactly | services/ai-perception/src/tracking/bytetrack_simple.py:56-165 | from an empty tracker it is shown under one identifier throughout exactly when its box overlaps itself enough after one step |
| ReId.DeepReID.NoteSeen | services/panel-gateway/src/reid.py:112-133 | a fingerprint is refreshed not before the third sighting and then every few frames; nothing else changes |
| ReId.BlendIsUnit | services/panel-gateway/src/reid.py:131-133 | the blended fingerprint has unit length, so similarities stay comparable |
| ReId.BlendSimilarity | services/panel-gateway/src/reid.py:131-133 | a blended fingerprint is as similar to any other as seven parts of the old one and three of the new one, over the length of the mix |
| ReId.DotJoins | services/panel-gateway/src/reid.py:164 | the similarity is the sum of the products, part by part |
| ReId.ClearWinnerExactly | services/panel-gateway/src/reid.py:145-175 | the print taken is in the gallery, at most ttl old, within a quarter diagonal, above the threshold and ahead by the margin of every other such print; expired and far ones neither win nor compete |
| ReId.DeepReID.EvictOldest | services/panel-gateway/src/reid.py:140-143 | eviction drops the oldest until the gallery fits, and nothing when it fits |
| ReId.DeepReID.NoteLost | services/panel-gateway/src/reid.py:135-143 | a lost track leaves the live set, and its fingerprint enters the gallery if it has one |
| ReId.DeepReID.Recover | services/panel-gateway/src/reid.py:145-175 | expired prints go; there is a hit exactly when some plausible one is a clear winner, and a hit is consumed |
| ReId.DeepReID.Judge | services/panel-gateway/src/reid.py:157-170 | the top of the sorted list is accepted exactly when it is a clear winner |
| ReId.DeepReID.Remove | services/panel-gateway/src/reid.py:177-179 | an identity is dropped from both dictionaries |
| ReId.OnlyBestWins | services/panel-gateway/src/reid.py:157-170 | at most one candidate can be a clear winner |
| Workers.TrackerAdvances | services/panel-gateway/src/worker.py:407 | fresh tracker identifiers keep identities separate; expired ones stay in use until released |
| Workers.Adopts | services/panel-gateway/src/worker.py:428-434 | taking a recovered identity out of the gallery keeps identities separate |
| Workers.Releases | services/panel-gateway/src/worker.py:497-506 | releasing an expired track keeps identities separate |
| Workers.CameraWorker.Identify | services/panel-gateway/src/worker.py:418-437 | who is shown: the settled identity, else from the second sighting the clear winner within budget, else the tracker's own |
| Workers.CameraWorker.RestoreIdentities | services/panel-gateway/src/worker.py:414-437 | every vehicle on screen shows its identity, and settled ones stay |
| Workers.CameraWorker.TeleportGate | services/panel-gateway/src/worker.py:231-253 | exactly the vehicles whose box jumped further than its size and the gap allow lose their fingerprints, and where each vehicle is now is remembered |
| Workers.JumpsExactly | services/panel-gateway/src/worker.py:231-250 | a step is implausible exactly when longer than 80 pixels and than 2.5 times the box diagonal, both stretched by gaps over 0.12 s |
| Workers.GlitchedExactly | services/panel-gateway/src/worker.py:231-250 | the vehicles that lose their fingerprints are those seen before whose box jumped |
| Workers.SightsExactly | services/panel-gateway/src/worker.py:239-253 | remembered are exactly the vehicles on screen, each where it is now |
| Workers.CameraWorker.ReleaseRemoved | services/panel-gateway/src/worker.py:493-508 | exactly the expired identifiers leave alias and age tables, and their identities wait from now on |
| Workers.CameraWorker.ForgetStale | services/panel-gateway/src/worker.py:510-516 | exactly the identities lost for longer than the window are forgotten, none of them in use |
| Workers.CameraWorker.ProcessFrame | services/panel-gateway/src/worker.py:407-516 | identities are never merged: no identity is shown twice, settled ones stay, nothing in use is in the gallery or forgotten |
| DecisionEngines.AIDecisionEngine.MakeDecision | ai_decision_system.py:200-325 | extends the run by the call and recommends the phase of its last state |
| DecisionEngines.AIDecisionEngine.RequestPreemption | ai_decision_system.py:460-472 | extends the run by the request; a hold of zero means no limit |
| DecisionEngines.AIDecisionEngine.ClearPreemption | ai_decision_system.py:474-478 | extends the run by the release |
| DecisionEngines.AIDecisionEngine.SetCoordination | ai_decision_system.py:442-447 | extends the run by joining the corridor |
| DecisionEngines.AIDecisionEngine.ClearCoordination | ai_decision_system.py:449-450 | extends the run by leaving the corridor |
| DecisionEngines.AIDecisionEngine.CombinedScores | ai_decision_system.py:229-248 | demand, forecast and green wave add up to the specified scores |
| DecisionEngines.AIDecisionEngine.Consider | ai_decision_system.py:250-320 | winner, preemption, rules and learned agent combine to the specified switch request |
| DecisionEngines.AIDecisionEngine.PreemptionActive | ai_decision_system.py:480-486 | an expired preemption is dropped when it is looked at |
| DecisionEngines.AIDecisionEngine.AdvancePhase | ai_decision_system.py:545-590 | the in-place phase machine is the specified one |
| EngineRuns.TimingEnvelope | ai_decision_system.py:545-598 | phases follow green, yellow, all-red, green, each for at least its minimum; the direction changes exactly when all-red ends |
| EngineRuns.StartOfPhase | ai_decision_system.py:592-598 | the stored start of a phase is when it began |
| EngineRuns.AllRedIsBounded | ai_decision_system.py:570-585 | all-red lasts at most its length, the longest extension and one call period, even with a pedestrian always present |
| EngineRuns.HoldExactly | ai_decision_system.py:570-585 | a decision in all-red reports a hold exactly with a pedestrian there past its length and within the extension, and hands over exactly past its length without one |
| EngineRuns.GreenEndsInTime | ai_decision_system.py:555-563 | with both scores positive, or with the agent off the waiting one, a green is over within max(min, max) + one call period |
| EngineRuns.OppositeGreenInTime | ai_decision_system.py:545-590 | and the opposite green follows within yellow, all-red, extension and two call periods |
| EngineRuns.GreenStaysExactly | ai_decision_system.py:518-563 | a decision leaves a green alone exactly within its minimum, or when agent, scores and vehicle counts ask for no switch and the guard on the lower score does not fire |
| EngineRuns.GreenSurvivesExactly | ai_decision_system.py:518-563 | over runs a green survives exactly when every decision leaves it alone |
| EngineRuns.AgentStarves | ai_decision_system.py:293-320 | over any number of events with the agent saying keep, north-south scoring nothing and east-west scoring, north-south keeps its first green |
| EngineRuns.StarvingRun | ai_decision_system.py:293-320 | such runs exist for every number of calls and every call period, with twenty vehicles waiting |
| EngineRuns.RulesServeWaiting | ai_decision_system.py:518-543 | under the rules alone a waiting direction with a positive score ends the green, even against a score of zero |
| EngineRuns.PreemptedGreenSurvivesExactly | ai_decision_system.py:263-320 | under a preemption a green of either direction survives exactly when every decision past its minimum, the learned agent's included, asks for no switch |
| EngineRuns.ClearanceHandsOver | ai_decision_system.py:565-585 | from the start of a yellow the other direction has green within yellow, all-red, extension and two call periods, whatever is preempted and advised |
| EngineRuns.PreemptedGreenStays | ai_decision_system.py:263-280 | a preempted direction that has green keeps it while decisions past the minimum agree |
| EngineRuns.AgentBlocksPreemption | ai_decision_system.py:293-320 | with the learned agent saying keep, the other direction keeps green under a preemption for any number of calls |
| EngineRuns.PreemptionBound | ai_decision_system.py:460-590 | when decisions agree, as they always do with the agent off, min_green + 2(yellow + all_red + extension) + 5 call periods after a preemption its direction has green, even if requested while it clears |
| EngineScores.BonusExactly | ai_decision_system.py:240-247 | the green wave adds exactly its weight to the direction it favours and nothing to the other |
| EngineScores.ForecastExactly | ai_decision_system.py:229-238 | forecast and sensor data of a direction count for that direction alone |
| EngineScores.ScoreGrows | ai_decision_system.py:600-634 | heavier demand never scores less, and no demand scores more than all shares and the bus bonus by the factor of an emergency |
| EngineScores.ScoreShares | ai_decision_system.py:600-634 | what each respect is worth between nothing and its cap |
| EngineScores.AsksExactly | ai_decision_system.py:518-543 | under the rules a decision asks to leave the active direction exactly when the other one outscores it, by the threshold, and has a queue worth a clearance or nobody uses the green |
| EngineScores.LeavesWaveExactly | ai_decision_system.py:240-261 | inside the band of the active direction it does so exactly when the other scores more even with the weight added to the active one |
| EngineScores.WaveKeepsGreen | ai_decision_system.py:240-247 | with equal demand and forecasts and a positive weight, a decision in the band never asks to leave the corridor's green, and leaves it on before its maximum |
| EngineScores.WaveHoldsGreen | ai_decision_system.py:240-247 | over a run the corridor's green stays on as long as every decision falls into the band before its maximum |
| EngineScores.GreenWaveDecides | ai_decision_system.py:442-458 | an engine that follows the hint of a stop does not ask to leave the corridor's green from 0.005 s after a platoon arrives until 0.005 s before its green is used up |
| EngineScores.PreemptedExactly | ai_decision_system.py:460-486 | over runs a direction is preempted exactly while the last request was for it, was not released, and no decision has found its hold over |
| EngineScores.CoordinatedExactly | ai_decision_system.py:442-450 | over runs the corridor in force is the last one joined and not left since |
| Resilience.CircuitBreaker.Begin | shared/atms_common/resilience.py:197-207 | the beginning of a call extends the run; it is admitted exactly when the breaker is then not open |
| Resilience.CircuitBreaker.EndWithSuccess | shared/atms_common/resilience.py:241-248 | the end of a successful call extends the run |
| Resilience.CircuitBreaker.EndWithFailure | shared/atms_common/resilience.py:250-259 | the end of a failed call extends the run |
| Resilience.CircuitBreaker.ForceOpen | shared/atms_common/resilience.py:219-222 | extends the run by the operator opening it |
| Resilience.CircuitBreaker.ForceClose | shared/atms_common/resilience.py:224-227 | extends the run by the operator closing it |
| Resilience.ClosedBelowThreshold | shared/atms_common/resilience.py:250-259 | closed implies fewer consecutive failures than the threshold, for any overlap of calls |
| Resilience.OpenUntilTimeout | shared/atms_common/resilience.py:233-239 | since an opening the breaker is open or its timeout is over, unless forced closed |
| Resilience.NoCallBeforeTimeout | shared/atms_common/resilience.py:197-207 | no upstream call starts within the timeout of any opening or re-opening, unless forced closed |
| Resilience.ProbesAreSuccesses | shared/atms_common/resilience.py:241-248 | the probe counter is the number of successes since half-open was entered, with no failure since |
| Resilience.ClosesExactly | shared/atms_common/resilience.py:241-248 | a success closes a half-open breaker exactly when it completes the required number |
| Resilience.FailuresAreRow | shared/atms_common/resilience.py:241-259 | the failure counter is the row of failures outside half-open since the last success there, closing or forced close |
| Resilience.OpensExactly | shared/atms_common/resilience.py:229-259 | the breaker opens exactly by force, a failed probe or a failure that completes the threshold, and starts probing exactly at a call that begins one timeout after the last of these |
| Resilience.FailuresTrip | shared/atms_common/resilience.py:250-259 | a closed breaker that meets as many failures as the threshold with no success and no forced close between them opens on the way |
| Resilience.Bulkhead.Acquire | shared/atms_common/resilience.py:305-312 | a permit is granted exactly while fewer than the maximum are taken |
| Resilience.Bulkhead.Enter | shared/atms_common/resilience.py:309-312 | the number in flight never exceeds the maximum |
| Resilience.Bulkhead.Exit | shared/atms_common/resilience.py:314-317 | leaving gives the permit back |
| Limits.RateLimiter.Allow | services/panel-gateway/src/limits.py:45-54 | a call is granted exactly when fewer than max of the key's grants, over its entire history, are at most one window old |
| Limits.RateLimiter.PopOld | services/panel-gateway/src/limits.py:49-50 | popping leaves exactly as many entries as there are recent grants in the whole history |
| Limits.GrantKeepsPace | services/panel-gateway/src/limits.py:51-54 | granting below the limit keeps every closed interval of one window within it |
| Limits.DequeCounts | services/panel-gateway/src/limits.py:49-51 | the length of the deque is a count over the whole history |
| Limits.RateLimiter.IntervalsAreBounded | services/panel-gateway/src/limits.py:45-54 | every closed interval of one window holds at most max grants of each key |
| Limits.RecentIsWithin | services/panel-gateway/src/limits.py:45-54 | when the clock has not gone back, the grants counted at a call are those of the closed interval of one window that ends there |
| Detections.DedupLoop | services/panel-gateway/src/detection.py:170-181 | the loop computes the specified selection |
| Detections.DedupKeepsTheBest | services/panel-gateway/src/detection.py:155-181 | no two kept boxes are on the same object, and every box dropped, counting repetitions, is dominated by a kept one |
| Detections.DedupIsIdempotent | services/panel-gateway/src/detection.py:155-181 | kept boxes come most confident first, and suppressing again changes nothing |
| Detections.SelectionIsUnique | services/panel-gateway/src/detection.py:155-181 | without ties, what is kept is the only selection that is apart and dominates the rest |
| Detections.KindsAreSeparate | services/panel-gateway/src/detection.py:155-181 | what is kept of persons or of vehicles is what would be kept if the other kind had not been detected |
| Detections.DroppedIsDuplicate | services/panel-gateway/src/detection.py:155-181 | a dropped box overlaps by more than 0.55 a kept one at least as confident, both or neither of vehicle classes |
| Corridors.BuildChecks | services/panel-gateway/src/corridor.py:39-51 | a corridor is refused exactly for too few stops, a non-positive parameter or an unknown direction; one that is built keeps its stops and direction and clamps green to the cycle |
| Corridors.Corridor.CumulativeDistances | services/panel-gateway/src/corridor.py:53-58 | the running sums are the distances from the start |
| Corridors.Corridor.OffsetTable | services/panel-gateway/src/corridor.py:60-66 | the table of offsets, a repeated id keeping its last |
| Corridors.Corridor.Bands | services/panel-gateway/src/corridor.py:68-81 | every stop's distance label and its windows, one per cycle |
| Corridors.HintsCoverStops | services/panel-gateway/src/corridor.py:125-137 | a hint exists exactly for stops on the corridor; with distinct ids it carries the stop's own offset |
| Corridors.ArrivesAtBandStart | services/panel-gateway/src/corridor.py:60-66 | a platoon at design speed arrives a whole number of cycles after the offset, give or take 0.005 s |
| Corridors.DrivesTheLegs | services/panel-gateway/src/corridor.py:53-66 | from one stop to a later one a platoon takes as long as the legs between them at design speed |
| Corridors.GreenWave | ai_decision_system.py:452-458 | from 0.005 s after arrival until 0.005 s before its green is used up the engine favours the corridor, in every cycle |
| Corridors.ArrivalInstantExactly | ai_decision_system.py:452-458 | at the instant of arrival the engine favours the corridor exactly when rounding did not move the band past it, or the band before still lasts |
| Corridors.ArrivalCanBeEarly | services/panel-gateway/src/corridor.py:60-66 | a platoon that arrives before its rounded band starts is not favoured at that instant |
| Corridors.BandsMatchEngine | services/panel-gateway/src/corridor.py:68-81 | inside every window shown, 0.005 s from its ends, the engine favours the corridor |
| Reals.RoundError | services/panel-gateway/src/corridor.py:64 | rounding to two decimals moves a number by at most 0.005, to one by at most 0.05 |
| Reals.NearestExactly | services/panel-gateway/src/corridor.py:64 | rounding goes to the nearest number, and to the even one of two that are equally near |

## Left out

- Parsing of raw messages: a message arrives either malformed or typed.
- Metrics, logs, reason strings and the outcome records beyond accepted and mode.
- Fractions of a nanosecond in the controller's floating-point second arithmetic, and float32 overlaps in the
  tracker: durations are whole nanoseconds and overlaps exact reals.
- Negative or zero-length configuration that the program does not check: durations are not negative and cycle
  lengths positive, since the program divides by them.
- FixedTimePlans.PhaseAtLoop: durations are whole nanoseconds, so the program's rounding at part boundaries
  is not modelled; the constructor's tolerance of one microsecond is.
- FailsafeFixedTime.FixedTimeRefinesPlan: assumes at the east-west end that a tick period fits between the end
  of that green and the end of the cycle, which is yellow plus all-red when the parts sum to the cycle exactly.
- `has_active_preempt`, `pending_ped_calls` and `current_mode`: plain reads.
- `execute_decision`, `reset`, statistics, confidence, priority and expected impact of the engine: they do not
  feed back into the phase machine, except `reset`, which starts a new run.
- Trackers.SimpleByteTracker.Update: tracks are values, so the sharing of one track dictionary between the
  previous lists and the new ones is not modelled; copying of the detection into the output is an equality.
- ReId.DeepReID.NoteSeen: the network's embedding and the library's square root are inputs; `BlendIsUnit` assumes
  of the root only that its square gives the argument back.
- Workers.CameraWorker.TeleportGate: of what a jump resets, only the fingerprint; speed, incident and plate
  state are left out.
- Workers.CameraWorker.ProcessFrame: the branch without re-identification, plate caches, violation and
  speed estimators, zones and the redraw of skipped frames are left out.
- Limits.RateLimiter.Allow: the program reads the clock before it takes the lock, so threads racing on one key
  could append out of order; calls of one key are assumed to come in clock order.
- Resilience.Bulkhead.Acquire: waiting callers are not queued, so a free permit may go to any of them; the
  library serves them in order.
- Retry, timeouts, `hardened_call`, the WebSocket limiter and the environment parsing of limits.
- The trajectory line of the corridor diagram.
- `summarize`, the detector and sliced inference, `object_tracker.py`, and every HTTP, Kafka and storage layer.
