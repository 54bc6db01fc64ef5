/** Green-wave corridors: the offset of each stop, the bands shown for it and the hint its engine gets. */
module Corridors {
  import opened EngineModel
  import opened Options
  import opened Reals

  /** `distance` is in metres from the previous stop. */
  datatype Stop = Stop(id: string, distance: real)

  datatype BuildError = TooFewStops | NotPositive | InvalidDirection

  datatype BuildResult = Built(corridor: Corridor) | Rejected(error: BuildError)

  /** A green window of a time-space diagram. */
  datatype Window = Window(start: real, end: real)

  /** `distance` is in metres, rounded for display. */
  datatype Band = Band(id: string, distance: real, windows: seq<Window>)

  function ParseDirection(s: string): Option<Direction> {
    if s == "north_south" then Some(NorthSouth)
    else if s == "east_west" then Some(EastWest)
    else None
  }

  function Build(stops: seq<Stop>, speedKmh: real, cycle: real, green: real, direction: string): BuildResult {
    if |stops| < 2 then Rejected(TooFewStops)
    else if speedKmh <= 0.0 || cycle <= 0.0 || green <= 0.0 then Rejected(NotPositive)
    else
      match ParseDirection(direction)
      case None => Rejected(InvalidDirection)
      case Some(d) => Built(Corridor(stops, d, speedKmh / 3.6, cycle, if green < cycle then green else cycle))
  }

  /** Metres from the start of the corridor to stop `i`. */
  function Distance(stops: seq<Stop>, i: nat): real
    requires i < |stops|
  {
    if i == 0 then stops[0].distance else Distance(stops, i - 1) + stops[i].distance
  }

  /** Position of window `k` of a band that starts at `offset`. */
  function WindowAt(offset: real, k: nat, cycle: real, green: real): Window {
    Window(Round2(offset + Times(k as real, cycle)), Round2(offset + Times(k as real, cycle) + green))
  }

  datatype Corridor = Corridor(stops: seq<Stop>, direction: Direction, speed: real, cycle: real, green: real) {

    /** What `Build` guarantees. */
    predicate Valid() {
      |stops| >= 2 && 0.0 < speed && 0.0 < green <= cycle
    }

    /** When a platoon that starts at time 0 and drives at the design speed reaches stop `i`. */
    function TravelTime(i: nat): real
      requires Valid() && i < |stops|
    {
      Distance(stops, i) / speed
    }

    function Offset(i: nat): real
      requires Valid() && i < |stops|
    {
      Round2(Mod(TravelTime(i), cycle))
    }

    /** The offsets of the first `n` stops; a repeated id keeps its last offset. */
    function OffsetsOf(n: nat): map<string, real>
      requires Valid() && n <= |stops|
    {
      if n == 0 then map[] else OffsetsOf(n - 1)[stops[n - 1].id := Offset(n - 1)]
    }

    function Offsets(): map<string, real>
      requires Valid()
    {
      OffsetsOf(|stops|)
    }

    function CoordinationFor(id: string, favoured: Direction): Option<Coordination>
      requires Valid()
    {
      if id in Offsets() then Some(Coordination(Offsets()[id], cycle, green, favoured)) else None
    }

    method CumulativeDistances() returns (distances: seq<real>)
      ensures |distances| == |stops|
      ensures forall i :: 0 <= i < |stops| ==> distances[i] == Distance(stops, i)
    {
      distances := [];
      var total := 0.0;
      for i := 0 to |stops|
        invariant |distances| == i
        invariant total == if i == 0 then 0.0 else Distance(stops, i - 1)
        invariant forall j :: 0 <= j < i ==> distances[j] == Distance(stops, j)
      {
        total := total + stops[i].distance;
        distances := distances + [total];
      }
    }

    method OffsetTable() returns (offsets: map<string, real>)
      requires Valid()
      ensures offsets == Offsets()
    {
      var distances := CumulativeDistances();
      offsets := map[];
      for i := 0 to |stops|
        invariant offsets == OffsetsOf(i)
      {
        offsets := offsets[stops[i].id := Round2(Mod(distances[i] / speed, cycle))];
      }
    }

    lemma {:induction false} OffsetsKnow(n: nat, i: nat)
      requires Valid() && i < n <= |stops|
      ensures stops[i].id in OffsetsOf(n)
    {
      if i < n - 1 {
        OffsetsKnow(n - 1, i);
      }
    }

    method Bands(cycles: nat) returns (bands: seq<Band>)
      requires Valid()
      ensures |bands| == |stops|
      ensures forall i :: 0 <= i < |stops| ==>
                && bands[i].id == stops[i].id
                && -0.05 <= bands[i].distance - Distance(stops, i) <= 0.05
                && bands[i].distance == Round1(Distance(stops, i))
                && bands[i].id in Offsets()
                && |bands[i].windows| == cycles
                && forall k :: 0 <= k < cycles ==>
                     bands[i].windows[k] == WindowAt(Offsets()[bands[i].id], k, cycle, green)
    {
      hide WindowAt, Offsets, OffsetsOf, Round1, Times, Distance;
      var offsets := OffsetTable();
      var distances := CumulativeDistances();
      bands := [];
      for i := 0 to |stops|
        invariant |bands| == i
        invariant forall j :: 0 <= j < i ==>
                    && bands[j].id == stops[j].id
                    && -0.05 <= bands[j].distance - Distance(stops, j) <= 0.05
                    && bands[j].distance == Round1(Distance(stops, j))
                    && bands[j].id in offsets
                    && |bands[j].windows| == cycles
                    && forall k :: 0 <= k < cycles ==>
                         bands[j].windows[k] == WindowAt(offsets[bands[j].id], k, cycle, green)
      {
        StopIsKnown(i);
        var windows: seq<Window> := [];
        for k := 0 to cycles
          invariant |windows| == k
          invariant forall m :: 0 <= m < k ==> windows[m] == WindowAt(offsets[stops[i].id], m, cycle, green)
        {
          windows := windows + [WindowAt(offsets[stops[i].id], k, cycle, green)];
        }
        RoundError(distances[i]);
        bands := bands + [Band(stops[i].id, Round1(distances[i]), windows)];
      }
    }

    lemma StopIsKnown(i: nat)
      requires Valid() && i < |stops|
      ensures stops[i].id in Offsets()
    {
      OffsetsKnow(|stops|, i);
    }
  }

  /** A corridor is refused exactly when an argument is out of range; one that is built is valid. */
  lemma BuildChecks(stops: seq<Stop>, speedKmh: real, cycle: real, green: real, direction: string)
    ensures var r := Build(stops, speedKmh, cycle, green, direction);
            && (r.Built? <==>
                && |stops| >= 2 && 0.0 < speedKmh && 0.0 < cycle && 0.0 < green
                && direction in {"north_south", "east_west"})
            && (r.Built? ==>
                && r.corridor.Valid() && r.corridor.stops == stops && r.corridor.cycle == cycle
                && r.corridor.green <= green && (r.corridor.green == green || r.corridor.green == cycle)
                && (r.corridor.direction == NorthSouth <==> direction == "north_south")
                && Times(r.corridor.speed, 3.6) == speedKmh)
  {
  }

  predicate DistinctIds(stops: seq<Stop>) {
    forall i, j :: 0 <= i < j < |stops| ==> stops[i].id != stops[j].id
  }

  lemma {:induction false} LastOffsetWins(c: Corridor, n: nat, i: nat)
    requires c.Valid() && i < n <= |c.stops|
    requires forall j :: i < j < n ==> c.stops[j].id != c.stops[i].id
    ensures c.stops[i].id in c.OffsetsOf(n) && c.OffsetsOf(n)[c.stops[i].id] == c.Offset(i)
  {
    if i < n - 1 {
      LastOffsetWins(c, n - 1, i);
    }
  }

  lemma {:induction false} UnknownStop(c: Corridor, n: nat, id: string)
    requires c.Valid() && n <= |c.stops|
    requires forall j :: 0 <= j < n ==> c.stops[j].id != id
    ensures id !in c.OffsetsOf(n)
  {
    if n > 0 {
      UnknownStop(c, n - 1, id);
    }
  }

  /** A stop has a hint exactly when it is on the corridor; with distinct ids it carries the stop's own
      offset. */
  lemma HintsCoverStops(c: Corridor, id: string, favoured: Direction)
    requires c.Valid()
    ensures c.CoordinationFor(id, favoured).Some? <==> exists i :: 0 <= i < |c.stops| && c.stops[i].id == id
    ensures DistinctIds(c.stops) ==>
              forall i :: 0 <= i < |c.stops| && c.stops[i].id == id ==>
                c.CoordinationFor(id, favoured) == Some(Coordination(c.Offset(i), c.cycle, c.green, favoured))
  {
    hide Round2, Mod;
    if i :| 0 <= i < |c.stops| && c.stops[i].id == id {
      c.StopIsKnown(i);
    } else {
      UnknownStop(c, |c.stops|, id);
    }
    if DistinctIds(c.stops) {
      forall i | 0 <= i < |c.stops| && c.stops[i].id == id
        ensures c.CoordinationFor(id, favoured) == Some(Coordination(c.Offset(i), c.cycle, c.green, favoured))
      {
        LastOffsetWins(c, |c.stops|, i);
      }
    }
  }

  /** Metres from stop `i` on to stop `j`: the legs between them. */
  function Between(stops: seq<Stop>, i: nat, j: nat): real
    requires i <= j < |stops|
    decreases j - i
  {
    if i == j then 0.0 else stops[i + 1].distance + Between(stops, i + 1, j)
  }

  lemma {:induction false} DistanceIsCumulative(stops: seq<Stop>, i: nat, j: nat)
    requires i <= j < |stops|
    ensures Distance(stops, 0) == stops[0].distance
    ensures Distance(stops, j) - Distance(stops, i) == Between(stops, i, j)
    decreases j - i
  {
    if i < j {
      DistanceIsCumulative(stops, i + 1, j);
    }
  }

  /** A platoon takes from one stop to a later one as long as the legs between them at design speed. */
  lemma DrivesTheLegs(c: Corridor, i: nat, j: nat)
    requires c.Valid() && i <= j < |c.stops|
    ensures Times(c.TravelTime(j) - c.TravelTime(i), c.speed) == Between(c.stops, i, j)
    ensures Times(c.TravelTime(0), c.speed) == c.stops[0].distance
  {
    hide Times;
    DistanceIsCumulative(c.stops, i, j);
    Quotient(Distance(c.stops, i), c.speed);
    Quotient(Distance(c.stops, j), c.speed);
    Quotient(Distance(c.stops, 0), c.speed);
    TimesFacts(c.TravelTime(j), c.TravelTime(i), c.speed);
  }

  /** Shifting a time by whole cycles and staying inside the green keeps the engine's bias on. */
  lemma InBand(h: Coordination, n: int, into: real)
    requires 0.0 <= into < h.green <= h.cycle
    ensures CoordinationDirection(Some(h), h.offset + Times(n as real, h.cycle) + into) == Some(h.direction)
  {
    hide Mod, Times;
    ModUnique(h.offset + Times(n as real, h.cycle) + into - h.offset, h.cycle, n, into);
  }

  lemma TimesAdds(m: int, n: int, c: real)
    ensures Times((m + n) as real, c) == Times(m as real, c) + Times(n as real, c)
  {
    assert (m + n) as real == m as real + n as real;
  }

  /** How far rounding moves the start of the band of stop `i` away from the platoon's arrival. */
  function Slip(c: Corridor, i: nat): real
    requires c.Valid() && i < |c.stops|
  {
    c.Offset(i) - Mod(c.TravelTime(i), c.cycle)
  }

  /** A platoon that starts `n` cycles into the run reaches stop `i` a whole number of cycles, give or
      take 0.005 s, after the offset of that stop. */
  lemma ArrivesAtBandStart(c: Corridor, i: nat, n: int) returns (m: int)
    requires c.Valid() && i < |c.stops|
    ensures Times(n as real, c.cycle) + c.TravelTime(i)
            == c.Offset(i) + Times(m as real, c.cycle) - Slip(c, i)
    ensures -0.005 <= Slip(c, i) <= 0.005
  {
    hide Round2;
    var t := c.TravelTime(i);
    RoundError(Mod(t, c.cycle));
    m := n + Floor(t / c.cycle);
    TimesAdds(n, Floor(t / c.cycle), c.cycle);
  }

  /** The green wave: the engine of stop `i` favours the corridor's direction for the platoon from
      0.005 s after it arrives until 0.005 s before its green is used up, in every cycle. */
  lemma GreenWave(c: Corridor, i: nat, n: int, delay: real, favoured: Direction)
    requires c.Valid() && i < |c.stops| && DistinctIds(c.stops)
    requires 0.005 <= delay < c.green - 0.005
    ensures CoordinationDirection(c.CoordinationFor(c.stops[i].id, favoured),
                                  Times(n as real, c.cycle) + c.TravelTime(i) + delay) == Some(favoured)
  {
    hide Mod, Times, Slip, CoordinationDirection;
    var m := ArrivesAtBandStart(c, i, n);
    HintsCoverStops(c, c.stops[i].id, favoured);
    var h := Coordination(c.Offset(i), c.cycle, c.green, favoured);
    InBand(h, m, delay - Slip(c, i));
  }

  /** At the instant the platoon arrives the light is favoured exactly when rounding did not move the
      band's start past it, or the band before still lasts. */
  lemma ArrivalInstantExactly(c: Corridor, i: nat, n: int, favoured: Direction)
    requires c.Valid() && i < |c.stops| && DistinctIds(c.stops) && 0.005 < c.cycle
    ensures CoordinationDirection(c.CoordinationFor(c.stops[i].id, favoured),
                                  Times(n as real, c.cycle) + c.TravelTime(i)) == Some(favoured)
            <==> (if Slip(c, i) <= 0.0 then -Slip(c, i) else c.cycle - Slip(c, i)) < c.green
  {
    hide Mod, Times, Slip;
    var m := ArrivesAtBandStart(c, i, n);
    HintsCoverStops(c, c.stops[i].id, favoured);
    var slip := Slip(c, i);
    var now := Times(n as real, c.cycle) + c.TravelTime(i);
    if slip <= 0.0 {
      ModUnique(now - c.Offset(i), c.cycle, m, -slip);
    } else {
      TimesFacts(m as real, 1.0, c.cycle);
      assert (m - 1) as real == m as real - 1.0;
      ModUnique(now - c.Offset(i), c.cycle, m - 1, c.cycle - slip);
    }
  }

  /** A stop 6 cm down the road at 36 km/h: the platoon arrives at 0.006 s, the rounded band starts at
      0.01 s, and at the instant of arrival the engine does not favour it. */
  lemma ArrivalCanBeEarly(c: Corridor)
    requires c == Corridor([Stop("a", 0.0), Stop("b", 0.06)], NorthSouth, 10.0, 60.0, 27.0)
    ensures CoordinationDirection(c.CoordinationFor("b", NorthSouth), c.TravelTime(1)) == None
  {
    assert Distance(c.stops, 1) == Distance(c.stops, 0) + c.stops[1].distance;
    var t := c.TravelTime(1);
    assert t == 0.006;
    ModUnique(t, 60.0, 0, t);
    assert Slip(c, 1) == 0.004;
    ArrivalInstantExactly(c, 1, 0, NorthSouth);
    assert Times(0 as real, 60.0) + t == t;
  }

  /** Inside every window of a band, 0.005 s from its rounded ends, the stop's engine favours the
      corridor's direction: the diagram shows what the engine does. */
  lemma BandsMatchEngine(c: Corridor, id: string, k: nat, t: real, favoured: Direction)
    requires c.Valid() && id in c.Offsets()
    requires var w := WindowAt(c.Offsets()[id], k, c.cycle, c.green);
             w.start + 0.005 <= t < w.end - 0.005
    ensures CoordinationDirection(c.CoordinationFor(id, favoured), t) == Some(favoured)
  {
    hide Mod, Times, Round2;
    var offset := c.Offsets()[id];
    var start := offset + Times(k as real, c.cycle);
    RoundError(start);
    RoundError(start + c.green);
    InBand(Coordination(offset, c.cycle, c.green, favoured), k, t - start);
  }
}
