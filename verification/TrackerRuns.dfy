/** Runs of the tracker: a vehicle that moves steadily keeps its identifier. */
module TrackerRuns {
  import opened Boxes
  import opened Association
  import opened Tracks
  import opened Trackers

  /** Consecutive frames: scene `k` becomes scene `k + 1` by the detections of frame `k`. */
  ghost predicate Frames(tracker: SimpleByteTracker, scenes: seq<Scene>, frames: seq<seq<Detection>>) {
    && |scenes| == |frames| + 1
    && forall k :: 0 <= k < |frames| ==> Steps(tracker, scenes[k], frames[k], scenes[k + 1])
  }

  ghost predicate Steps(tracker: SimpleByteTracker, s: Scene, dets: seq<Detection>, next: Scene) {
    exists matched1, matched2 :: tracker.FrameOf(s, dets, matched1, matched2, next)
  }

  /** The output is the detection alone, under the identifier. */
  predicate Shows(s: Scene, d: Detection, id: nat) {
    |s.tracked| == 1 && s.tracked[0].detection == d && s.tracked[0].id == id
  }

  /** One detection per frame, its box a step further in each frame. */
  ghost predicate MovesSteadily(tracker: SimpleByteTracker, frames: seq<seq<Detection>>, box: Box, dx: real, dy: real) {
    && (forall k :: 0 <= k < |frames| ==> |frames[k]| == 1 && Used(tracker, frames[k][0]))
    && (frames != [] ==> frames[0][0].box == box)
    && (forall j, k :: 0 <= j < k < |frames| && k == j + 1 ==> frames[k][0].box == frames[j][0].box.Moved(dx, dy))
  }

  /** Confident enough to be matched with a track. */
  predicate Used(tracker: SimpleByteTracker, d: Detection) {
    tracker.IsHigh(d) || tracker.IsLow(d)
  }

  /** The track is the only one, and its last two recorded centres are a step apart, ending at its box. */
  predicate LoneMover(s: Scene, t: Track, dx: real, dy: real) {
    && s.tracked + s.lost == [t]
    && t.id in s.positions
    && var h := s.positions[t.id];
       && |h| >= 2
       && h[|h| - 1] == t.box.Center()
       && h[|h| - 2] == t.box.Moved(-dx, -dy).Center()
  }

  /** Such a track is expected exactly one step further. */
  lemma PredictsNext(s: Scene, t: Track, dx: real, dy: real)
    requires LoneMover(s, t, dx, dy)
    ensures PredictedBox(t, s.positions) == t.box.Moved(dx, dy)
  {
  }

  /** One detection and one track: they are matched exactly when they overlap enough. */
  lemma SolePass(tracker: SimpleByteTracker, t: Track, d: Detection, positions: Positions, matched: seq<Pair>)
    requires tracker.IsPass([t], [d], positions, matched)
    ensures matched == if Iou(d.box, PredictedBox(t, positions)) > tracker.matchThresh then [(0, 0)] else []
  {
    hide Iou, PredictedBox, Overlaps;
    var m := Overlaps([d], [t], positions);
    var p: Pair := (0, 0);
    SoleOverlap(t, d, positions);
    assert Above(m, tracker.matchThresh, p) ==> Blocked(m, matched, p);
    MatchedOnce(matched);
    AtMostOne(matched, p, Firsts(matched));
  }

  lemma SoleOverlap(t: Track, d: Detection, positions: Positions)
    ensures Value(Overlaps([d], [t], positions), (0, 0)) == Iou(d.box, PredictedBox(t, positions))
    ensures forall q: Pair :: InRange(Overlaps([d], [t], positions), q) <==> q == (0, 0)
  {
    hide Iou, PredictedBox;
  }

  lemma AtMostOne<T>(items: seq<T>, only: T, keys: seq<nat>)
    requires |keys| == |items| && NoRepeats(keys)
    requires forall x :: x in items ==> x == only
    requires forall k :: 0 <= k < |keys| ==> keys[k] == 0
    ensures items == [] || items == [only]
  {
    if |keys| > 1 {
      KeysDiffer(keys, 0, 1);
      assert false;
    }
    assert items != [] ==> items[0] in items;
  }

  lemma KeysDiffer(keys: seq<nat>, j: nat, k: nat)
    requires j < k < |keys| && NoRepeats(keys)
    ensures keys[j] != keys[k]
  {
  }

  lemma FirstInBounds(pairs: seq<Pair>, dets: nat, trks: nat)
    requires pairs != [] && InBounds(pairs, dets, trks)
    ensures dets > 0 && trks > 0
  {
    assert pairs[0].0 < dets && pairs[0].1 < trks;
  }

  lemma NoPass(tracker: SimpleByteTracker, tracks: seq<Track>, dets: seq<Detection>, positions: Positions,
               matched: seq<Pair>)
    requires tracker.IsPass(tracks, dets, positions, matched) && (tracks == [] || dets == [])
    ensures matched == [] && Refreshed(tracks, dets, matched) == []
  {
    if |matched| > 0 {
      FirstInBounds(matched, |dets|, |tracks|);
      assert false;
    }
  }

  lemma OneDetection(tracker: SimpleByteTracker, d: Detection)
    ensures tracker.HighDets([d]) == if tracker.IsHigh(d) then [d] else []
    ensures tracker.LowDets([d]) == if tracker.IsLow(d) then [d] else []
  {
    hide Indices;
    OnlyIndex(tracker.High([d]), tracker.IsHigh(d));
    OnlyIndex(tracker.Low([d]), tracker.IsLow(d));
  }

  lemma OnlyIndex(r: seq<nat>, present: bool)
    requires Ascending(r) && forall i: nat :: i in r <==> i < 1 && present
    ensures r == if present then [0] else []
  {
    assert forall k :: 0 <= k < |r| ==> r[k] in r;
    if present { assert 0 in r; }
    assert forall j, k :: 0 <= j < k < |r| ==> r[j] < r[k];
    AtMostOne(r, 0, r);
    assert r == [0] ==> r[0] in r;
  }

  /** What a pass with the only track leaves over. */
  lemma LeftOfOne(t: Track)
    ensures Unused(1, {0}) == [] && Unused(1, {}) == [0] && Unused(0, {}) == []
    ensures Dets([(0, 0)]) == {0} == Trks([(0, 0)]) && Dets([]) == {} == Trks([])
    ensures Left([t], [(0, 0)]) == [] && Left([t], []) == [t]
  {
    assert Unused(0, {0}) == [] && Unused(0, {}) == [];
    var one: seq<Pair>, none: seq<Pair> := [(0, 0)], [];
    assert Trks(one) == {0} && Trks(none) == {} && Dets(one) == {0} && Dets(none) == {};
    assert LeftIndices([t], one) == [] && LeftIndices([t], none) == [0];
  }

  lemma LeftOfNone()
    ensures Left([], []) == [] && StillLost([], 0) == [] && Expired([], 0) == [] && IdSet([]) == {}
    ensures Refreshed([], [], []) == []
  {
  }

  lemma RecordOne(positions: Positions, t: Track)
    ensures RecordAll(positions, [t]) == Record(positions, t)
  {
    assert [t][..0] == [];
    assert RecordAll(positions, []) == positions;
  }

  /** A frame with one detection whose overlap with the only track is enough: the track takes it over. */
  lemma LoneHit(tracker: SimpleByteTracker, s: Scene, t: Track, d: Detection, next: Scene)
    requires s.tracked + s.lost == [t] && Used(tracker, d) && Steps(tracker, s, [d], next)
    requires Iou(d.box, PredictedBox(t, s.positions)) > tracker.matchThresh
    ensures next == Scene([Refresh(t, d)], [], Record(s.positions, Refresh(t, d)), s.count)
  {
    hide Iou, PredictedBox, SimpleByteTracker.IsPass, SimpleByteTracker.High, SimpleByteTracker.Low,
         Left, Unused, Record, RecordAll, Refresh;
    var m1, m2 :| tracker.FrameOf(s, [d], m1, m2, next);
    if tracker.IsHigh(d) {
      HighHit(tracker, s, t, d, m1, m2, next);
    } else {
      LowHit(tracker, s, t, d, m1, m2, next);
    }
  }

  lemma HighHit(tracker: SimpleByteTracker, s: Scene, t: Track, d: Detection, m1: seq<Pair>, m2: seq<Pair>, next: Scene)
    requires s.tracked + s.lost == [t] && tracker.IsHigh(d) && tracker.FrameOf(s, [d], m1, m2, next)
    requires Iou(d.box, PredictedBox(t, s.positions)) > tracker.matchThresh
    ensures next == Scene([Refresh(t, d)], [], Record(s.positions, Refresh(t, d)), s.count)
  {
    hide Iou, PredictedBox, SimpleByteTracker.IsPass, SimpleByteTracker.High, SimpleByteTracker.Low,
         Left, Unused, Record, RecordAll, Refresh;
    OneDetection(tracker, d);
    LeftOfOne(t);
    LeftOfNone();
    var t1 := Refresh(t, d);
    SolePass(tracker, t, d, s.positions, m1);
    assert Refreshed([t], [d], m1) == [t1];
    NoPass(tracker, [], [], RecordAll(s.positions, [t1]), m2);
    RecordOne(s.positions, t1);
    assert next.tracked == [t1];
  }

  lemma LowHit(tracker: SimpleByteTracker, s: Scene, t: Track, d: Detection, m1: seq<Pair>, m2: seq<Pair>, next: Scene)
    requires s.tracked + s.lost == [t] && tracker.IsLow(d) && tracker.FrameOf(s, [d], m1, m2, next)
    requires Iou(d.box, PredictedBox(t, s.positions)) > tracker.matchThresh
    ensures next == Scene([Refresh(t, d)], [], Record(s.positions, Refresh(t, d)), s.count)
  {
    hide Iou, PredictedBox, SimpleByteTracker.IsPass, SimpleByteTracker.High, SimpleByteTracker.Low,
         Left, Unused, Record, RecordAll, Refresh;
    OneDetection(tracker, d);
    LeftOfOne(t);
    LeftOfNone();
    var t1 := Refresh(t, d);
    NoPass(tracker, [t], [], s.positions, m1);
    EmptyRecord(s.positions);
    SolePass(tracker, t, d, s.positions, m2);
    assert Refreshed([t], [d], m2) == [t1];
    RecordOne(s.positions, t1);
    assert next.tracked == [t1];
  }

  lemma EmptyRecord(positions: Positions)
    ensures RecordAll(positions, []) == positions
  {
  }

  /** A frame with one detection that overlaps the only track too little: no track on screen is that one. */
  lemma LoneMiss(tracker: SimpleByteTracker, s: Scene, t: Track, d: Detection, next: Scene)
    requires s.tracked + s.lost == [t] && t.id < s.count && Steps(tracker, s, [d], next)
    requires Iou(d.box, PredictedBox(t, s.positions)) <= tracker.matchThresh
    ensures !Shows(next, d, t.id)
  {
    hide Iou, PredictedBox, SimpleByteTracker.IsPass, SimpleByteTracker.High, SimpleByteTracker.Low,
         Left, Record, RecordAll;
    var m1, m2 :| tracker.FrameOf(s, [d], m1, m2, next);
    OneDetection(tracker, d);
    LeftOfOne(t);
    EmptyRecord(s.positions);
    if tracker.IsHigh(d) {
      SolePass(tracker, t, d, s.positions, m1);
    } else {
      NoPass(tracker, [t], [], s.positions, m1);
    }
    if tracker.IsLow(d) {
      SolePass(tracker, t, d, s.positions, m2);
    } else {
      NoPass(tracker, [t], [], s.positions, m2);
    }
  }

  /** With nothing known, a confident detection becomes the track numbered next. */
  lemma FirstSight(tracker: SimpleByteTracker, s: Scene, d: Detection, next: Scene)
    requires s.tracked + s.lost == [] && tracker.IsHigh(d) && Steps(tracker, s, [d], next)
    ensures var t := Track(s.count, d.box, d.confidence, d.classId, d, 0, 1);
            next == Scene([t], [], Record(s.positions, t), s.count + 1)
  {
    hide Iou, PredictedBox, SimpleByteTracker.IsPass, SimpleByteTracker.High, SimpleByteTracker.Low,
         Left, Record, RecordAll, Unused, Newborn, Refreshed, StillLost, Expired, IdSet;
    var m1, m2 :| tracker.FrameOf(s, [d], m1, m2, next);
    OneDetection(tracker, d);
    LeftOfNone();
    NoPass(tracker, [], [d], s.positions, m1);
    NoPass(tracker, [], [], RecordAll(s.positions, []), m2);
    BornAlone(d, s.count);
    EmptiesBuffer(tracker.trackBuffer);
    var t := Track(s.count, d.box, d.confidence, d.classId, d, 0, 1);
    assert next.tracked == [] + ([] + [t]) == [t];
    RecordOne(s.positions, t);
    assert RecordAll(s.positions, [t]) - {} == RecordAll(s.positions, [t]);
  }

  lemma BornAlone(d: Detection, count: nat)
    ensures Unused(1, Dets([])) == [0] && Newborn([d], [0], count)
            == [Track(count, d.box, d.confidence, d.classId, d, 0, 1)]
  {
    assert Dets([]) == {} && Unused(0, {}) == [];
  }

  lemma EmptiesBuffer(buffer: nat)
    ensures StillLost([], buffer) == [] && Expired([], buffer) == [] && IdSet([]) == {}
  {
  }

  /** Taken over one step further, the track is again one that moves by that step. */
  lemma KeepsMoving(s: Scene, t: Track, d: Detection, dx: real, dy: real, next: Scene)
    requires t.id in s.positions && s.positions[t.id] != []
    requires s.positions[t.id][|s.positions[t.id]| - 1] == t.box.Center() && d.box == t.box.Moved(dx, dy)
    requires next == Scene([Refresh(t, d)], [], Record(s.positions, Refresh(t, d)), s.count)
    ensures LoneMover(next, Refresh(t, d), dx, dy)
  {
    assert next.tracked + next.lost == [Refresh(t, d)];
    assert d.box.Moved(-dx, -dy) == t.box;
  }

  /** A lone vehicle of constant size that was seen twice a step apart and keeps moving by that step
      keeps its identifier for any number of frames, however large the step. */
  lemma {:induction false} SteadyKeepsIdentity(tracker: SimpleByteTracker, scenes: seq<Scene>,
                                               frames: seq<seq<Detection>>, t: Track, dx: real, dy: real, k: nat)
    requires tracker.matchThresh < 1.0 && Frames(tracker, scenes, frames) && k <= |frames|
    requires LoneMover(scenes[0], t, dx, dy) && t.box.Proper()
    requires MovesSteadily(tracker, frames, t.box.Moved(dx, dy), dx, dy)
    ensures 0 < k ==> Shows(scenes[k], frames[k - 1][0], t.id)
    ensures k < |frames| ==> OnCourse(scenes[k], t.id, frames[k][0].box, dx, dy)
    ensures scenes[k].count == scenes[0].count
  {
    if k == 0 {
      assert LoneMover(scenes[0], t, dx, dy);
    } else {
      hide LoneMover, Steps, OnCourse, Frames, MovesSteadily, Shows;
      SteadyKeepsIdentity(tracker, scenes, frames, t, dx, dy, k - 1);
      FrameAt(tracker, scenes, frames, t.box.Moved(dx, dy), dx, dy, k - 1);
      CourseStep(tracker, scenes[k - 1], frames[k - 1][0], t.id, dx, dy, scenes[k]);
    }
  }

  lemma FrameAt(tracker: SimpleByteTracker, scenes: seq<Scene>, frames: seq<seq<Detection>>, box: Box,
                dx: real, dy: real, j: nat)
    requires Frames(tracker, scenes, frames) && MovesSteadily(tracker, frames, box, dx, dy) && j < |frames|
    ensures |scenes| == |frames| + 1 && |frames[j]| == 1 && Used(tracker, frames[j][0])
    ensures Steps(tracker, scenes[j], [frames[j][0]], scenes[j + 1])
    ensures j + 1 < |frames| ==> |frames[j + 1]| == 1 && frames[j + 1][0].box == frames[j][0].box.Moved(dx, dy)
  {
    hide Steps, Used;
    assert frames[j] == [frames[j][0]];
    assert Steps(tracker, scenes[j], frames[j], scenes[j + 1]);
  }

  /** Some track with the identifier is on its way to the box. */
  ghost predicate OnCourse(s: Scene, id: nat, box: Box, dx: real, dy: real) {
    exists t :: LoneMover(s, t, dx, dy) && t.id == id && t.box.Proper() && t.box.Moved(dx, dy) == box
  }

  lemma CourseStep(tracker: SimpleByteTracker, s: Scene, d: Detection, id: nat, dx: real, dy: real, next: Scene)
    requires tracker.matchThresh < 1.0 && Used(tracker, d) && Steps(tracker, s, [d], next)
    requires OnCourse(s, id, d.box, dx, dy)
    ensures Shows(next, d, id) && next.count == s.count && OnCourse(next, id, d.box.Moved(dx, dy), dx, dy)
  {
    hide LoneMover, Steps;
    var t :| LoneMover(s, t, dx, dy) && t.id == id && t.box.Proper() && t.box.Moved(dx, dy) == d.box;
    SteadyStep(tracker, s, t, d, dx, dy, next);
    assert LoneMover(next, Refresh(t, d), dx, dy);
  }

  lemma SteadyStep(tracker: SimpleByteTracker, s: Scene, t: Track, d: Detection, dx: real, dy: real, next: Scene)
    requires tracker.matchThresh < 1.0 && Used(tracker, d) && Steps(tracker, s, [d], next)
    requires LoneMover(s, t, dx, dy) && t.box.Proper() && d.box == t.box.Moved(dx, dy)
    ensures LoneMover(next, Refresh(t, d), dx, dy) && Shows(next, d, t.id) && next.count == s.count
  {
    hide Steps, Iou, Record, PredictedBox;
    PredictsNext(s, t, dx, dy);
    IouNested(d.box, d.box);
    LoneHit(tracker, s, t, d, next);
    KeepsMoving(s, t, d, dx, dy, next);
  }

  /** From an empty tracker, a lone vehicle of constant size that moves by the same step in every frame
      is shown under one identifier throughout exactly when it overlaps itself enough after one step. */
  lemma OneIdentityExactly(tracker: SimpleByteTracker, scenes: seq<Scene>, frames: seq<seq<Detection>>,
                           box: Box, dx: real, dy: real)
    requires Frames(tracker, scenes, frames) && |frames| >= 2 && scenes[0] == Scene([], [], map[], 0)
    requires MovesSteadily(tracker, frames, box, dx, dy) && tracker.IsHigh(frames[0][0]) && box.Proper()
    ensures Iou(box, box.Moved(dx, dy)) > tracker.matchThresh <==>
            forall k :: 0 <= k < |frames| ==> Shows(scenes[k + 1], frames[k][0], 0)
  {
    hide Steps, Iou, Record, PredictedBox;
    var d0, d1 := frames[0][0], frames[1][0];
    assert frames[0] == [d0] && frames[1] == [d1];
    assert d0.box == box && d1.box == d0.box.Moved(dx, dy);
    assert Steps(tracker, scenes[0], frames[0], scenes[0 + 1]) && Steps(tracker, scenes[1], frames[1], scenes[1 + 1]);
    FirstSight(tracker, scenes[0], d0, scenes[1]);
    var t := Track(0, d0.box, d0.confidence, d0.classId, d0, 0, 1);
    SeenOnce(scenes[1], t);
    IouBounds(box, d1.box);
    if Iou(box, box.Moved(dx, dy)) > tracker.matchThresh {
      LoneHit(tracker, scenes[1], t, d1, scenes[2]);
      KeepsMoving(scenes[1], t, d1, dx, dy, scenes[2]);
      assert MovesSteadily(tracker, frames[2..], d1.box.Moved(dx, dy), dx, dy);
      forall k | 0 <= k < |frames| ensures Shows(scenes[k + 1], frames[k][0], 0) {
        if k >= 2 {
          SteadyKeepsIdentity(tracker, scenes[2..], frames[2..], Refresh(t, d1), dx, dy, k - 1);
        }
      }
    } else {
      LoneMiss(tracker, scenes[1], t, d1, scenes[2]);
      assert !Shows(scenes[1 + 1], frames[1][0], 0);
    }
  }

  /** A track seen once has one centre, and is expected where it was seen. */
  lemma SeenOnce(s: Scene, t: Track)
    requires s == Scene([t], [], Record(map[], t), 1)
    ensures s.tracked + s.lost == [t] && t.id in s.positions && s.positions[t.id] == [t.box.Center()]
    ensures PredictedBox(t, s.positions) == t.box
  {
    assert [] + [t.box.Center()] == [t.box.Center()];
  }
}
