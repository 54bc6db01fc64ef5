/** The two-phase fixed-time plan. Durations are whole nanoseconds. */
module FixedTimePlans {
  import opened Phases

  /** The constructor lets the parts miss the cycle length by up to one microsecond. */
  const CYCLE_TOLERANCE: int := 1000

  datatype Plan = Plan(
    cycle: int,
    nsGreen: int,
    nsYellow: int,
    allRedAfterNs: int,
    ewGreen: int,
    ewYellow: int,
    allRedAfterEw: int,
    minGreen: int
  ) {
    function Parts(): seq<(int, Phase)> {
      [(nsGreen, NsGreen), (nsYellow, NsYellow), (allRedAfterNs, AllRed),
       (ewGreen, EwGreen), (ewYellow, EwYellow), (allRedAfterEw, AllRed)]
    }

    function Total(): int {
      nsGreen + nsYellow + allRedAfterNs + ewGreen + ewYellow + allRedAfterEw
    }

    /** The constructor's checks; `phase_at` also divides by the cycle length. */
    predicate Valid() {
      && 0 <= nsGreen && 0 <= nsYellow && 0 <= allRedAfterNs
      && 0 <= ewGreen && 0 <= ewYellow && 0 <= allRedAfterEw
      && -CYCLE_TOLERANCE <= Total() - cycle <= CYCLE_TOLERANCE
      && minGreen <= nsGreen && minGreen <= ewGreen
      && 0 < cycle
    }

    function EwStart(): int {
      nsGreen + nsYellow + allRedAfterNs
    }

    function EwGreenEnd(): int {
      EwStart() + ewGreen
    }

    /** The plan as a partition of one cycle into intervals. */
    function PhaseAt(elapsed: int): Phase
      requires Valid()
    {
      var t := elapsed % cycle;
      if t < nsGreen then NsGreen
      else if t < nsGreen + nsYellow then NsYellow
      else if t < EwStart() then AllRed
      else if t < EwGreenEnd() then EwGreen
      else if t < EwGreenEnd() + ewYellow then EwYellow
      else AllRed
    }
  }

  /** Sum of the first `n` part durations. */
  function Boundary(parts: seq<(int, Phase)>, n: nat): int
    requires n <= |parts|
  {
    if n == 0 then 0 else Boundary(parts, n - 1) + parts[n - 1].0
  }

  /** The running-sum loop of the program computes the interval partition. */
  method PhaseAtLoop(plan: Plan, elapsed: int) returns (phase: Phase)
    requires plan.Valid()
    ensures phase == plan.PhaseAt(elapsed)
  {
    var t := elapsed % plan.cycle;
    var parts := plan.Parts();
    var acc := 0;
    for i := 0 to |parts|
      invariant acc == Boundary(parts, i)
      invariant i > 0 ==> acc <= t
    {
      acc := acc + parts[i].0;
      if t < acc {
        PartitionBoundaries(plan);
        return parts[i].1;
      }
    }
    PartitionBoundaries(plan);
    return AllRed;
  }

  lemma PartitionBoundaries(plan: Plan)
    ensures var parts := plan.Parts();
            && Boundary(parts, 0) == 0
            && Boundary(parts, 1) == plan.nsGreen
            && Boundary(parts, 2) == plan.nsGreen + plan.nsYellow
            && Boundary(parts, 3) == plan.EwStart()
            && Boundary(parts, 4) == plan.EwGreenEnd()
            && Boundary(parts, 5) == plan.EwGreenEnd() + plan.ewYellow
            && Boundary(parts, 6) == plan.Total()
  {
    var parts := plan.Parts();
    assert Boundary(parts, 1) == Boundary(parts, 0) + parts[0].0;
    assert Boundary(parts, 2) == Boundary(parts, 1) + parts[1].0;
    assert Boundary(parts, 3) == Boundary(parts, 2) + parts[2].0;
    assert Boundary(parts, 4) == Boundary(parts, 3) + parts[3].0;
    assert Boundary(parts, 5) == Boundary(parts, 4) + parts[4].0;
    assert Boundary(parts, 6) == Boundary(parts, 5) + parts[5].0;
  }

  /** Moving `d` forward, by at most one cycle, either stays in the cycle or wraps once. */
  lemma ModAdvance(x: int, d: int, c: int)
    requires 0 < c && 0 <= d <= c
    ensures (x + d) % c == if x % c + d < c then x % c + d else x % c + d - c
  {
    var q := x / c;
    assert x == q * c + x % c;
    var y := x % c + d;
    if y < c {
      ModUnique(x + d, q, y, c);
    } else {
      assert x + d == (q + 1) * c + (y - c) by { assert (q + 1) * c == q * c + c; }
      ModUnique(x + d, q + 1, y - c, c);
    }
  }

  lemma ModUnique(x: int, q: int, r: int, c: int)
    requires 0 < c && 0 <= r < c && x == q * c + r
    ensures x % c == r
  {
    var d := q - x / c;
    assert d * c == x % c - r by { assert d * c == q * c - x / c * c; }
    assert d >= 1 ==> d * c >= c;
    assert d <= -1 ==> d * c <= -c;
  }

  /** The constructor's answer. */
  datatype PlanCheck = Accepted(plan: Plan) | NegativePart | PartsMissCycle | GreenTooShort

  function Check(plan: Plan): PlanCheck {
    if exists k :: 0 <= k < 6 && plan.Parts()[k].0 < 0 then NegativePart
    else if Abs(plan.Total() - plan.cycle) > CYCLE_TOLERANCE then PartsMissCycle
    else if plan.nsGreen < plan.minGreen || plan.ewGreen < plan.minGreen then GreenTooShort
    else Accepted(plan)
  }

  function Abs(x: int): int {
    if x < 0 then -x else x
  }

  /** With a positive cycle, the constructor accepts exactly the valid plans. */
  lemma CheckExactly(plan: Plan)
    requires 0 < plan.cycle
    ensures Check(plan).Accepted? <==> plan.Valid()
  {
    var parts := plan.Parts();
    assert parts[0].0 == plan.nsGreen && parts[1].0 == plan.nsYellow && parts[2].0 == plan.allRedAfterNs;
    assert parts[3].0 == plan.ewGreen && parts[4].0 == plan.ewYellow && parts[5].0 == plan.allRedAfterEw;
  }

  /** Each green lasts its time from its start, its own yellow follows for its time, and all-red until
      the other green, or the end of the cycle. */
  lemma PlanRunsThrough(plan: Plan, cycles: int, t: int)
    requires plan.Valid() && 0 <= t < plan.cycle
    ensures var phase, ew := plan.PhaseAt(cycles * plan.cycle + t), plan.nsGreen + plan.nsYellow + plan.allRedAfterNs;
            && (t < plan.nsGreen ==> phase == NsGreen)
            && (plan.nsGreen <= t < plan.nsGreen + plan.nsYellow ==> phase == NsYellow)
            && (plan.nsGreen + plan.nsYellow <= t < ew ==> phase == AllRed)
            && (ew <= t < ew + plan.ewGreen ==> phase == EwGreen)
            && (ew + plan.ewGreen <= t < ew + plan.ewGreen + plan.ewYellow ==> phase == EwYellow)
            && (ew + plan.ewGreen + plan.ewYellow <= t ==> phase == AllRed)
  {
    ModUnique(cycles * plan.cycle + t, cycles, t, plan.cycle);
  }

  /** The plan repeats: any whole number of cycles later, the phase is the same. */
  lemma {:induction false} PlanIsPeriodic(plan: Plan, elapsed: int, k: int)
    requires plan.Valid()
    ensures plan.PhaseAt(elapsed + k * plan.cycle) == plan.PhaseAt(elapsed)
  {
    var c := plan.cycle;
    var q, r := elapsed / c, elapsed % c;
    assert elapsed + k * c == (q + k) * c + r by { assert (q + k) * c == q * c + k * c; }
    ModUnique(elapsed + k * c, q + k, r, c);
  }
}
