/** The multi-object tracker: two association passes, births, ageing and expiry. */
module Trackers {
  import opened Boxes
  import opened Association
  import opened Tracks

  class SimpleByteTracker {
    const trackThresh: real
    const highThresh: real
    const matchThresh: real
    const trackBuffer: nat

    var trackedStracks: seq<Track>
    var lostStracks: seq<Track>
    var removedStracks: seq<Track>
    var lastRemovedIds: seq<nat>
    var frameId: nat
    var trackIdCount: nat
    var trackPositions: Positions

    /** The frame in which each identifier was last in the output. */
    ghost var lastSeen: map<nat, nat>
    /** The frame in which each expired identifier was removed. */
    ghost var removedAt: map<nat, nat>

    ghost function Alive(): set<nat>
      reads this
    {
      IdSet(trackedStracks) + IdSet(lostStracks)
    }

    ghost predicate Valid()
      reads this
    {
      && IdsOk(trackedStracks, lostStracks, removedAt.Keys, lastSeen.Keys, trackPositions.Keys, trackIdCount)
      && TimesOk(trackedStracks, lostStracks, frameId, trackBuffer, lastSeen, removedAt)
      && ShortHistories(trackPositions)
    }

    constructor (trackThresh: real, highThresh: real, matchThresh: real, trackBuffer: nat)
      ensures Valid() && Alive() == {} && trackIdCount == 0 && frameId == 0 && removedAt == map[]
      ensures this.trackThresh == trackThresh && this.highThresh == highThresh
      ensures this.matchThresh == matchThresh && this.trackBuffer == trackBuffer
    {
      this.trackThresh, this.highThresh := trackThresh, highThresh;
      this.matchThresh, this.trackBuffer := matchThresh, trackBuffer;
      trackedStracks, lostStracks, removedStracks, lastRemovedIds := [], [], [], [];
      frameId, trackIdCount, trackPositions := 0, 0, map[];
      lastSeen, removedAt := map[], map[];
    }

    predicate IsHigh(d: Detection) {
      d.confidence >= highThresh
    }

    predicate IsLow(d: Detection) {
      trackThresh <= d.confidence < highThresh
    }

    /** Each high-confidence detection is a source exactly once, each low one at most once. */
    predicate OutputOnce(dets: seq<Detection>, src: seq<nat>) {
      && NoRepeats(src)
      && (forall i :: 0 <= i < |dets| && IsHigh(dets[i]) ==> i in src)
      && (forall i :: i in src ==> i < |dets| && (IsHigh(dets[i]) || IsLow(dets[i])))
    }

    lemma OnceOverDetections(dets: seq<Detection>, high: seq<nat>, low: seq<nat>, src: seq<nat>)
      requires forall i: nat :: i in high <==> i < |dets| && IsHigh(dets[i])
      requires forall i: nat :: i in low <==> i < |dets| && IsLow(dets[i])
      requires Once(src, high, low)
      ensures OutputOnce(dets, src)
    {
    }

    /** What one pass chooses earns at least half the overlap of any other matching of detections
        with tracks above the threshold. */
    lemma PassEarnsHalf(dets: seq<Detection>, tracks: seq<Track>, positions: Positions,
                        matched: seq<Pair>, other: seq<Pair>)
      requires Stable(Overlaps(dets, tracks, positions), matchThresh, matched)
      requires Matching(other) && forall p :: p in other ==> Above(Overlaps(dets, tracks, positions), matchThresh, p)
      ensures 2.0 * Total(Overlaps(dets, tracks, positions), matched) >= Total(Overlaps(dets, tracks, positions), other)
    {
      hide Stable, Iou, PredictedBox, Total;
      var m := Overlaps(dets, tracks, positions);
      forall p: Pair | InRange(m, p) ensures 0.0 <= Value(m, p) {
        IouBounds(dets[p.0].box, PredictedBox(tracks[p.1], positions));
      }
      GreedyIsHalfOptimal(m, matchThresh, matched, other);
    }

    method OverlapMatrix(dets: seq<Detection>, tracks: seq<Track>) returns (m: Matrix)
      ensures m == Overlaps(dets, tracks, trackPositions)
    {
      hide Iou, PredictedBox;
      m := [];
      for d := 0 to |dets|
        invariant m == Overlaps(dets[..d], tracks, trackPositions)
      {
        var row := [];
        for t := 0 to |tracks|
          invariant row == Row(dets[d], tracks[..t], trackPositions)
        {
          row := row + [Iou(dets[d].box, PredictedBox(tracks[t], trackPositions))];
        }
        assert tracks[..|tracks|] == tracks;
        m := m + [row];
      }
      assert dets[..|dets|] == dets;
    }

    /** Refresh every matched track and record its new centre. */
    method ApplyDetections(tracks: seq<Track>, dets: seq<Detection>, matched: seq<Pair>) returns (activated: seq<Track>)
      requires InBounds(matched, |dets|, |tracks|)
      modifies `trackPositions
      ensures activated == Refreshed(tracks, dets, matched)
      ensures trackPositions == RecordAll(old(trackPositions), activated)
    {
      hide RecordAll, Record;
      activated := [];
      RecordNone(trackPositions);
      for k := 0 to |matched|
        invariant activated == Refreshed(tracks, dets, matched[..k])
        invariant trackPositions == RecordAll(old(trackPositions), activated)
      {
        var track := Refresh(tracks[matched[k].1], dets[matched[k].0]);
        RecordMore(old(trackPositions), activated, track);
        activated := activated + [track];
        trackPositions := Record(trackPositions, track);
      }
      assert matched[..|matched|] == matched;
    }

    lemma RecordNone(positions: Positions)
      ensures RecordAll(positions, []) == positions
    {
    }

    /** One association pass: a stable matching under the predicted overlaps, its tracks refreshed,
        the other tracks left over. */
    method MatchPass(tracks: seq<Track>, dets: seq<Detection>)
      returns (activated: seq<Track>, unmatchedDets: seq<nat>, rest: seq<Track>, matched: seq<Pair>)
      modifies `trackPositions
      ensures IsPass(tracks, dets, old(trackPositions), matched)
      ensures activated == Refreshed(tracks, dets, matched)
      ensures unmatchedDets == Unused(|dets|, Dets(matched))
      ensures rest == Left(tracks, matched)
      ensures trackPositions == RecordAll(old(trackPositions), activated)
    {
      hide Stable, Iou, PredictedBox, RecordAll;
      var m := OverlapMatrix(dets, tracks);
      assert Shape(m, |dets|, |tracks|);
      var freeTrks;
      matched, unmatchedDets, freeTrks := Associate(m, |dets|, |tracks|, matchThresh);
      StableIsInBounds(m, matchThresh, matched, |dets|, |tracks|);
      assert forall k :: 0 <= k < |freeTrks| ==> freeTrks[k] in freeTrks;
      rest := Pick(tracks, freeTrks);
      activated := ApplyDetections(tracks, dets, matched);
    }

    /** The greedy matching of detections with tracks under the predicted overlaps: it is stable, and
        there is only one. */
    ghost predicate IsPass(tracks: seq<Track>, dets: seq<Detection>, positions: Positions, matched: seq<Pair>) {
      && InBounds(matched, |dets|, |tracks|)
      && Stable(Overlaps(dets, tracks, positions), matchThresh, matched)
      && Shape(Overlaps(dets, tracks, positions), |dets|, |tracks|)
      && matched == Chosen(Overlaps(dets, tracks, positions), matchThresh, |dets|, |tracks|)
    }

    /** New tracks for unmatched high detections, numbered on from the count. */
    method Births(dets: seq<Detection>, unmatched: seq<nat>) returns (born: seq<Track>)
      requires forall k :: 0 <= k < |unmatched| ==> unmatched[k] < |dets|
      requires forall id :: id in trackPositions ==> id < trackIdCount
      modifies `trackPositions, `trackIdCount
      ensures trackIdCount == old(trackIdCount) + |unmatched|
      ensures born == Newborn(dets, unmatched, old(trackIdCount))
      ensures trackPositions == RecordAll(old(trackPositions), born)
    {
      hide RecordAll;
      born := [];
      RecordNone(trackPositions);
      for k := 0 to |unmatched|
        invariant trackIdCount == old(trackIdCount) + k
        invariant born == Newborn(dets, unmatched[..k], old(trackIdCount))
        invariant trackPositions == RecordAll(old(trackPositions), born)
        invariant forall id :: id in trackPositions ==> id < trackIdCount
      {
        var d := dets[unmatched[k]];
        var track := Track(trackIdCount, d.box, d.confidence, d.classId, d, 0, 1);
        BornStep(dets, unmatched, old(trackIdCount), k);
        RecordMore(old(trackPositions), born, track);
        born := born + [track];
        assert [] + [d.box.Center()] == [d.box.Center()];
        trackPositions := trackPositions[trackIdCount := [d.box.Center()]];
        trackIdCount := trackIdCount + 1;
      }
      assert unmatched[..|unmatched|] == unmatched;
    }

    /** Age the tracks nothing matched; those missing for longer than the buffer expire. */
    method AgeTracks(rest: seq<Track>) returns (lost: seq<Track>, removed: seq<Track>)
      modifies `trackPositions
      ensures lost == StillLost(rest, trackBuffer) && removed == Expired(rest, trackBuffer)
      ensures trackPositions == old(trackPositions) - IdSet(removed)
    {
      hide IdSet, StillLost, Expired;
      lost, removed := [], [];
      AgeNothing(lastSeen, frameId, trackBuffer);
      for i := 0 to |rest|
        invariant lost == StillLost(rest[..i], trackBuffer) && removed == Expired(rest[..i], trackBuffer)
        invariant trackPositions == old(trackPositions) - IdSet(removed)
      {
        var track := Aged(rest[i]);
        AgeStep(rest, i, trackBuffer);
        if track.timeSinceUpdate > trackBuffer {
          Push(removed, track);
          removed := removed + [track];
          trackPositions := trackPositions - {track.id};
        } else {
          lost := lost + [track];
        }
      }
      assert rest[..|rest|] == rest;
    }

    // ---- one frame as a function of the two matchings ----

    function High(dets: seq<Detection>): (r: seq<nat>)
      ensures Ascending(r) && forall i: nat :: i in r <==> i < |dets| && IsHigh(dets[i])
      ensures forall k :: 0 <= k < |r| ==> r[k] < |dets|
    {
      Indices(dets, (d: Detection) => d.confidence >= highThresh)
    }

    function Low(dets: seq<Detection>): (r: seq<nat>)
      ensures Ascending(r) && forall i: nat :: i in r <==> i < |dets| && IsLow(dets[i])
      ensures forall k :: 0 <= k < |r| ==> r[k] < |dets|
    {
      Indices(dets, (d: Detection) => trackThresh <= d.confidence < highThresh)
    }

    function HighDets(dets: seq<Detection>): (r: seq<Detection>)
      ensures |r| == |High(dets)|
    {
      Pick(dets, High(dets))
    }

    function LowDets(dets: seq<Detection>): (r: seq<Detection>)
      ensures |r| == |Low(dets)|
    {
      Pick(dets, Low(dets))
    }

    /** High detections are matched with every track, then low ones with the tracks left over, under
        the positions the first pass has recorded. */
    ghost predicate IsMatching(pool: seq<Track>, positions: Positions, dets: seq<Detection>,
                               matched1: seq<Pair>, matched2: seq<Pair>) {
      && IsPass(pool, HighDets(dets), positions, matched1)
      && IsPass(Left(pool, matched1), LowDets(dets),
                RecordAll(positions, Refreshed(pool, HighDets(dets), matched1)), matched2)
    }

    /** High detections without a track. */
    function Unclaimed(dets: seq<Detection>, matched1: seq<Pair>): (r: seq<nat>)
      ensures forall k :: 0 <= k < |r| ==> r[k] < |HighDets(dets)|
    {
      var r := Unused(|HighDets(dets)|, Dets(matched1));
      assert forall k :: 0 <= k < |r| ==> r[k] in r;
      r
    }

    ghost function OnScreen(pool: seq<Track>, positions: Positions, count: nat, dets: seq<Detection>,
                            matched1: seq<Pair>, matched2: seq<Pair>): seq<Track>
      requires IsMatching(pool, positions, dets, matched1, matched2)
    {
      Refreshed(pool, HighDets(dets), matched1)
      + (Refreshed(Left(pool, matched1), LowDets(dets), matched2)
         + Newborn(HighDets(dets), Unclaimed(dets, matched1), count))
    }

    function OffScreen(pool: seq<Track>, matched1: seq<Pair>, matched2: seq<Pair>): seq<Track> {
      Left(Left(pool, matched1), matched2)
    }

    // ---- frames as steps between scenes ----

    ghost function Now(): Scene
      reads this
    {
      Scene(trackedStracks, lostStracks, trackPositions, trackIdCount)
    }

    /** What a frame makes of a scene, given its matchings. */
    ghost predicate FrameOf(s: Scene, dets: seq<Detection>, matched1: seq<Pair>, matched2: seq<Pair>, next: Scene) {
      && IsMatching(s.tracked + s.lost, s.positions, dets, matched1, matched2)
      && next.tracked == OnScreen(s.tracked + s.lost, s.positions, s.count, dets, matched1, matched2)
      && var rest := OffScreen(s.tracked + s.lost, matched1, matched2);
         && next.lost == StillLost(rest, trackBuffer)
         && next.positions == RecordAll(s.positions, next.tracked) - IdSet(Expired(rest, trackBuffer))
         && next.count == s.count + |Unclaimed(dets, matched1)|
    }

    lemma PassSplits(tracks: seq<Track>, dets: seq<Detection>, positions: Positions, matched: seq<Pair>)
      requires DistinctIds(tracks) && IsPass(tracks, dets, positions, matched)
      ensures var active, rest := Refreshed(tracks, dets, matched), Left(tracks, matched);
              && DistinctIds(active) && DistinctIds(rest)
              && IdSet(active) !! IdSet(rest) && IdSet(active) + IdSet(rest) == IdSet(tracks)
              && forall k :: 0 <= k < |rest| ==> rest[k] in tracks
    {
      hide IdSet, DistinctIds, Iou, PredictedBox, Blocked, Above;
      LeftFacts(tracks, matched);
      MatchingSplitsIds(tracks, dets, matched, Refreshed(tracks, dets, matched), Unused(|tracks|, Trks(matched)),
                        Left(tracks, matched));
    }

    lemma PassMatches(tracks: seq<Track>, dets: seq<Detection>, positions: Positions, matched: seq<Pair>)
      requires IsPass(tracks, dets, positions, matched)
      ensures InBounds(matched, |dets|, |tracks|) && Matching(matched)
    {
    }

    /** Nothing to match is matched by nothing. */
    lemma EmptyPass(tracks: seq<Track>, dets: seq<Detection>, positions: Positions)
      requires tracks == [] || dets == []
      ensures IsPass(tracks, dets, positions, []) && Left(tracks, []) == tracks
      ensures Refreshed(tracks, dets, []) == []
      ensures RecordAll(positions, []) == positions
    {
      hide Left, Iou, PredictedBox, Blocked;
      LeftAll(tracks);
      var m := Overlaps(dets, tracks, positions);
      assert Shape(m, |dets|, |tracks|);
      NothingToChoose(m, matchThresh, |dets|, |tracks|);
      assert forall p: Pair :: !InRange(m, p);
    }

    lemma {:induction false} UnusedAll(n: nat)
      ensures |Unused(n, {})| == n && forall k :: 0 <= k < n ==> Unused(n, {})[k] == k
    {
      if n > 0 {
        UnusedAll(n - 1);
        assert Unused(n, {}) == Unused(n - 1, {}) + [n - 1];
      }
    }

    lemma LeftAll(tracks: seq<Track>)
      ensures Left(tracks, []) == tracks
    {
      hide Unused;
      UnusedAll(|tracks|);
      assert Trks([]) == {};
    }

    /** Where the tracks on screen come from: which detection each carries. */
    ghost function Sources(dets: seq<Detection>, matched1: seq<Pair>, matched2: seq<Pair>): seq<nat>
      requires forall k :: 0 <= k < |matched1| ==> matched1[k].0 < |High(dets)|
      requires forall k :: 0 <= k < |matched2| ==> matched2[k].0 < |Low(dets)|
    {
      Pick(High(dets), Firsts(matched1))
      + (Pick(Low(dets), Firsts(matched2)) + Pick(High(dets), Unclaimed(dets, matched1)))
    }

    /** The detections behind the tracks on screen: each high one exactly once, each low one at most. */
    lemma OutputsOnce(pool: seq<Track>, positions: Positions, count: nat, dets: seq<Detection>,
                      matched1: seq<Pair>, matched2: seq<Pair>)
      requires IsMatching(pool, positions, dets, matched1, matched2)
      ensures InBounds(matched1, |HighDets(dets)|, |pool|)
      ensures InBounds(matched2, |LowDets(dets)|, |Left(pool, matched1)|)
      ensures OutputOnce(dets, Sources(dets, matched1, matched2))
    {
      hide Once, NoRepeats, Ascending, Matching, OutputOnce, RecordAll, IsPass;
      var high, low := High(dets), Low(dets);
      PassMatches(pool, HighDets(dets), positions, matched1);
      PassMatches(Left(pool, matched1), LowDets(dets),
                  RecordAll(positions, Refreshed(pool, HighDets(dets), matched1)), matched2);
      SourcesOnce(high, low, matched1, matched2, Unclaimed(dets, matched1));
      OnceOverDetections(dets, high, low, Sources(dets, matched1, matched2));
    }

    /** What the passes and births do to identifiers, and what each track on screen carries. */
    lemma FrameFacts(pool: seq<Track>, positions: Positions, count: nat, dets: seq<Detection>,
                     matched1: seq<Pair>, matched2: seq<Pair>)
      requires IsMatching(pool, positions, dets, matched1, matched2)
      requires DistinctIds(pool) && IdSet(pool) <= Below(count)
      ensures InBounds(matched1, |HighDets(dets)|, |pool|)
      ensures InBounds(matched2, |LowDets(dets)|, |Left(pool, matched1)|)
      ensures var active := OnScreen(pool, positions, count, dets, matched1, matched2);
              var rest := OffScreen(pool, matched1, matched2);
              && Passed(IdSet(pool), count, active, rest, count + |Unclaimed(dets, matched1)|)
              && DistinctIds(rest)
              && (forall k :: 0 <= k < |rest| ==> rest[k] in pool)
              && AllFresh(active) && From(active, dets, Sources(dets, matched1, matched2))
    {
      hide IdSet, DistinctIds, Below, NoRepeats, From, AllFresh, Ascending, RecordAll, Left, Refreshed, Newborn,
           HighDets, LowDets, IsPass, Matching, Unused;
      var high, low, rest1 := High(dets), Low(dets), Left(pool, matched1);
      PassMatches(pool, HighDets(dets), positions, matched1);
      var positions1 := RecordAll(positions, Refreshed(pool, HighDets(dets), matched1));
      PassMatches(rest1, LowDets(dets), positions1, matched2);
      PassSplits(pool, HighDets(dets), positions, matched1);
      PassSplits(rest1, LowDets(dets), positions1, matched2);
      var a1, a2 := Refreshed(pool, HighDets(dets), matched1), Refreshed(rest1, LowDets(dets), matched2);
      var unclaimed := Unclaimed(dets, matched1);
      var born := Newborn(HighDets(dets), unclaimed, count);
      CarryDetections(pool, rest1, count, dets, matched1, matched2);
      BornIds(born, HighDets(dets), unclaimed, count);
      NewbornLength(HighDets(dets), unclaimed, count);
      BelowGrows(count, count + |unclaimed|);
      Assemble(a1, Pick(high, Firsts(matched1)), a2, Pick(low, Firsts(matched2)), born, Pick(high, unclaimed),
               OffScreen(pool, matched1, matched2), dets, IdSet(pool), Below(count + |unclaimed|) - Below(count));
    }

    lemma NewbornLength(dets: seq<Detection>, unmatched: seq<nat>, count: nat)
      requires forall k :: 0 <= k < |unmatched| ==> unmatched[k] < |dets|
      ensures |Newborn(dets, unmatched, count)| == |unmatched|
    {
    }

    lemma CarryDetections(pool: seq<Track>, rest1: seq<Track>, count: nat, dets: seq<Detection>,
                          matched1: seq<Pair>, matched2: seq<Pair>)
      requires InBounds(matched1, |HighDets(dets)|, |pool|) && InBounds(matched2, |LowDets(dets)|, |rest1|)
      ensures var a1, a2 := Refreshed(pool, HighDets(dets), matched1), Refreshed(rest1, LowDets(dets), matched2);
              var born := Newborn(HighDets(dets), Unclaimed(dets, matched1), count);
              && AllFresh(a1) && From(a1, dets, Pick(High(dets), Firsts(matched1)))
              && AllFresh(a2) && From(a2, dets, Pick(Low(dets), Firsts(matched2)))
              && AllFresh(born) && From(born, dets, Pick(High(dets), Unclaimed(dets, matched1)))
    {
      var a1, a2 := Refreshed(pool, HighDets(dets), matched1), Refreshed(rest1, LowDets(dets), matched2);
      var born := Newborn(HighDets(dets), Unclaimed(dets, matched1), count);
      hide From, AllFresh, Refreshed, Newborn, Indices, Unused;
      ActivatedFrom(pool, dets, High(dets), matched1, a1);
      ActivatedFrom(rest1, dets, Low(dets), matched2, a2);
      BornFrom(dets, High(dets), Unclaimed(dets, matched1), born, count);
    }

    /** The two association passes and the births: what is on screen now, and what is not. */
    method Passes(dets: seq<Detection>)
      returns (activated: seq<Track>, rest: seq<Track>, ghost matched1: seq<Pair>, ghost matched2: seq<Pair>)
      requires forall id :: id in trackPositions ==> id < trackIdCount
      requires IdSet(trackedStracks + lostStracks) <= trackPositions.Keys
      requires DistinctIds(trackedStracks + lostStracks)
      modifies `trackPositions, `trackIdCount
      ensures IsMatching(trackedStracks + lostStracks, old(trackPositions), dets, matched1, matched2)
      ensures activated == OnScreen(trackedStracks + lostStracks, old(trackPositions), old(trackIdCount), dets,
                                    matched1, matched2)
      ensures rest == OffScreen(trackedStracks + lostStracks, matched1, matched2)
      ensures trackIdCount == old(trackIdCount) + |Unclaimed(dets, matched1)|
      ensures trackPositions == RecordAll(old(trackPositions), activated)
    {
      hide IdSet, DistinctIds, RecordAll, Left, Refreshed, Newborn, IsPass;
      var pool := trackedStracks + lostStracks;
      var highDets, lowDets := HighDets(dets), LowDets(dets);
      ghost var before := trackPositions;
      var a1, unmatched, rest1, m1 := MatchPass(pool, highDets);
      ghost var between := trackPositions;
      PassSplits(pool, highDets, before, m1);
      var a2, m2 := [], [];
      rest := rest1;
      if lowDets != [] && rest1 != [] {
        var free2;
        a2, free2, rest, m2 := MatchPass(rest1, lowDets);
      } else {
        EmptyPass(rest1, lowDets, between);
      }
      matched1, matched2 := m1, m2;
      PassSplits(rest1, lowDets, between, m2);
      RecordKeys(before, a1);
      RecordKeys(between, a2);
      assert unmatched == Unclaimed(dets, matched1);
      var born := Births(highDets, unmatched);
      activated := a1 + (a2 + born);
      RecordJoined(between, a2, born);
      RecordJoined(before, a1, a2 + born);
    }

    lemma PoolIsValid()
      requires Valid()
      ensures DistinctIds(trackedStracks + lostStracks)
      ensures IdSet(trackedStracks + lostStracks) == trackPositions.Keys == Alive()
      ensures Alive() <= Below(trackIdCount)
      ensures forall id :: id in trackPositions ==> id < trackIdCount
    {
      Joined(trackedStracks, lostStracks);
      assert forall id :: id in Alive() ==> id in Below(trackIdCount);
    }

    /** One frame: the new state is a function of the old one and of two stable matchings. Every
        high-confidence detection is output exactly once and every low-confidence one at most once. */
    method Update(dets: seq<Detection>)
      returns (output: seq<(Detection, nat)>, ghost matched1: seq<Pair>, ghost matched2: seq<Pair>)
      requires Valid()
      modifies this
      ensures Valid() && frameId == old(frameId) + 1
      ensures IsMatching(old(trackedStracks + lostStracks), old(trackPositions), dets, matched1, matched2)
      ensures trackedStracks == OnScreen(old(trackedStracks + lostStracks), old(trackPositions), old(trackIdCount),
                                         dets, matched1, matched2)
      ensures var rest := OffScreen(old(trackedStracks + lostStracks), matched1, matched2);
              lostStracks == StillLost(rest, trackBuffer) && removedStracks == Expired(rest, trackBuffer)
      ensures lastRemovedIds == IdsOf(removedStracks)
      ensures trackIdCount == old(trackIdCount) + |Unclaimed(dets, matched1)|
      ensures trackPositions == RecordAll(old(trackPositions), trackedStracks) - IdSet(removedStracks)
      ensures FrameOf(old(Now()), dets, matched1, matched2, Now())
      ensures |output| == |trackedStracks|
      ensures forall k :: 0 <= k < |output| ==> output[k] == (trackedStracks[k].detection, trackedStracks[k].id)
      ensures Carries(dets, matched1, matched2, output)
      ensures FrameStep(old(Alive()), old(trackIdCount), Alive(), trackIdCount, lastRemovedIds)
      ensures lastSeen == MarkSeen(old(lastSeen), IdSet(trackedStracks), frameId)
      ensures removedAt == MarkSeen(old(removedAt), SetOf(lastRemovedIds), frameId)
    {
      hide IdSet, DistinctIds, ShortHistories, From, AllFresh, OutputOnce, IdsOk, TimesOk, Passed, FrameStep, MarkSeen,
           RecordAll, IsMatching, OnScreen, OffScreen, StillLost, Expired, Unclaimed, IsPass, Sources, Carries, Below;
      ghost var pool, before, count := trackedStracks + lostStracks, trackPositions, trackIdCount;
      PoolIsValid();
      frameId := frameId + 1;
      var activated, rest;
      activated, rest, matched1, matched2 := Passes(dets);
      var lost, removed := AgeTracks(rest);
      FrameAdvances(trackedStracks, lostStracks, frameId - 1, count, lastSeen, removedAt, before, dets, matched1,
                    matched2);
      trackedStracks := activated;
      lostStracks := lost;
      removedStracks := removed;
      lastRemovedIds := IdsOf(removed);
      lastSeen := MarkSeen(lastSeen, IdSet(activated), frameId);
      removedAt := MarkSeen(removedAt, IdSet(removed), frameId);
      output := Output();
      OutputCarries(pool, before, count, dets, matched1, matched2, output);
    }

    /** One frame keeps the bookkeeping of identifiers and of absences. */
    lemma FrameAdvances(tracked: seq<Track>, lost0: seq<Track>, frame: nat, count: nat, seen: map<nat, nat>,
                        gone: map<nat, nat>, positions: Positions, dets: seq<Detection>,
                        matched1: seq<Pair>, matched2: seq<Pair>)
      requires IdsOk(tracked, lost0, gone.Keys, seen.Keys, positions.Keys, count)
      requires TimesOk(tracked, lost0, frame, trackBuffer, seen, gone) && ShortHistories(positions)
      requires IsMatching(tracked + lost0, positions, dets, matched1, matched2)
      ensures var activated := OnScreen(tracked + lost0, positions, count, dets, matched1, matched2);
              var rest := OffScreen(tracked + lost0, matched1, matched2);
              var lost, removed := StillLost(rest, trackBuffer), Expired(rest, trackBuffer);
              var seen1 := MarkSeen(seen, IdSet(activated), frame + 1);
              var gone1 := MarkSeen(gone, IdSet(removed), frame + 1);
              var positions1 := RecordAll(positions, activated) - IdSet(removed);
              var count1 := count + |Unclaimed(dets, matched1)|;
              && IdsOk(activated, lost, gone1.Keys, seen1.Keys, positions1.Keys, count1)
              && TimesOk(activated, lost, frame + 1, trackBuffer, seen1, gone1)
              && ShortHistories(positions1)
              && FrameStep(positions.Keys, count, IdSet(activated) + IdSet(lost), count1, IdsOf(removed))
              && SetOf(IdsOf(removed)) == IdSet(removed)
    {
      hide IdSet, DistinctIds, Below, ShortHistories, Counts, AllFresh, From, TimesOk, Passed, AgedSplit, FrameStep,
           MarkSeen, RecordAll, IsMatching, OnScreen, OffScreen, StillLost, Expired, Unclaimed, IsPass, Sources;
      var pool := tracked + lost0;
      Joined(tracked, lost0);
      FrameFacts(pool, positions, count, dets, matched1, matched2);
      var activated := OnScreen(pool, positions, count, dets, matched1, matched2);
      var rest := OffScreen(pool, matched1, matched2);
      var lost, removed := StillLost(rest, trackBuffer), Expired(rest, trackBuffer);
      var count1 := count + |Unclaimed(dets, matched1)|;
      PoolCounts(tracked, lost0, rest, frame, trackBuffer, seen, gone);
      AgingSplits(rest, seen, frame + 1, trackBuffer);
      AgedParts(rest, lost, removed, seen, frame + 1, trackBuffer);
      NextIds(tracked, lost0, gone.Keys, seen.Keys, positions.Keys, count, activated, rest, lost, removed, count1);
      NextTimes(tracked, lost0, frame, trackBuffer, seen, gone, activated, lost, removed);
      MarkSeenKeys(seen, IdSet(activated), frame + 1);
      MarkSeenKeys(gone, IdSet(removed), frame + 1);
      RecordKeys(positions, activated);
      HistoriesWithout(RecordAll(positions, activated), IdSet(removed));
      PassedKeys(positions.Keys, count, activated, rest, count1);
      assert (RecordAll(positions, activated) - IdSet(removed)).Keys == IdSet(activated) + IdSet(lost);
    }

    /** Each output shows the detection at its source; each high-confidence detection is a source
        exactly once, each low-confidence one at most once, and nothing else is. */
    ghost predicate Carries(dets: seq<Detection>, matched1: seq<Pair>, matched2: seq<Pair>,
                            output: seq<(Detection, nat)>) {
      && (forall k :: 0 <= k < |matched1| ==> matched1[k].0 < |High(dets)|)
      && (forall k :: 0 <= k < |matched2| ==> matched2[k].0 < |Low(dets)|)
      && var src := Sources(dets, matched1, matched2);
         && OutputOnce(dets, src)
         && |output| == |src|
         && forall k :: 0 <= k < |src| ==> src[k] < |dets| && output[k].0 == dets[src[k]]
    }

    lemma OutputCarries(pool: seq<Track>, positions: Positions, count: nat, dets: seq<Detection>,
                        matched1: seq<Pair>, matched2: seq<Pair>, output: seq<(Detection, nat)>)
      requires IsMatching(pool, positions, dets, matched1, matched2)
      requires DistinctIds(pool) && IdSet(pool) <= Below(count)
      requires var active := OnScreen(pool, positions, count, dets, matched1, matched2);
               && |output| == |active|
               && forall k :: 0 <= k < |output| ==> output[k] == (active[k].detection, active[k].id)
      ensures Carries(dets, matched1, matched2, output)
    {
      hide OutputOnce, Sources, OnScreen, IsMatching, IdSet, Below, DistinctIds, Passed, AllFresh, High, Low;
      FrameFacts(pool, positions, count, dets, matched1, matched2);
      OutputsOnce(pool, positions, count, dets, matched1, matched2);
    }

    /** The tracks on screen, each with its latest detection. */
    method Output() returns (output: seq<(Detection, nat)>)
      ensures |output| == |trackedStracks|
      ensures forall k :: 0 <= k < |output| ==> output[k] == (trackedStracks[k].detection, trackedStracks[k].id)
    {
      output := [];
      for k := 0 to |trackedStracks|
        invariant |output| == k
        invariant forall j :: 0 <= j < k ==> output[j] == (trackedStracks[j].detection, trackedStracks[j].id)
      {
        output := output + [(trackedStracks[k].detection, trackedStracks[k].id)];
      }
    }

    /** An identifier lives exactly as long as it has been out of the output for at most
        `trackBuffer` frames: removal comes on the next frame, not before and not later. */
    lemma LivesWithinBuffer(id: nat)
      requires Valid() && id < trackIdCount
      ensures id in lastSeen && lastSeen[id] <= frameId
      ensures id in Alive() <==> frameId - lastSeen[id] <= trackBuffer
      ensures id !in Alive() <==> id in removedAt && removedAt[id] == lastSeen[id] + trackBuffer + 1
    {
      assert id in Below(trackIdCount);
      if id in IdSet(trackedStracks) {
        var i := WhereId(trackedStracks, id);
      } else if id in IdSet(lostStracks) {
        var i := WhereId(lostStracks, id);
      }
    }
  }
}
