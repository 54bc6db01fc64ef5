/** Tracks and what one frame does to them, on values. */
module Tracks {
  import opened Boxes
  import opened Association

  datatype Track = Track(
    id: nat,
    box: Box,
    confidence: real,
    classId: int,
    detection: Detection,
    timeSinceUpdate: nat,
    age: nat
  )

  /** The last few centres of each track. */
  type Positions = map<nat, seq<Point>>

  /** What the tracker holds between frames: tracks on screen, tracks missing, recorded centres, and
      how many identifiers have been handed out. */
  datatype Scene = Scene(tracked: seq<Track>, lost: seq<Track>, positions: Positions, count: nat)

  /** A matched track takes over the detection; its class stays that of its birth. */
  function Refresh(t: Track, d: Detection): Track {
    t.(box := d.box, confidence := d.confidence, detection := d, timeSinceUpdate := 0, age := t.age + 1)
  }

  function Aged(t: Track): Track {
    t.(timeSinceUpdate := t.timeSinceUpdate + 1)
  }

  function PushPosition(history: seq<Point>, center: Point): seq<Point> {
    var h := history + [center];
    if |h| > 5 then h[1..] else h
  }

  /** The track's box moved to where its last two centres say it is going. */
  function PredictedBox(t: Track, positions: Positions): Box {
    if t.id in positions && |positions[t.id]| >= 2 then
      var h := positions[t.id];
      var last, before, c := h[|h| - 1], h[|h| - 2], t.box.Center();
      var dx, dy := last.x + (last.x - before.x) - c.x, last.y + (last.y - before.y) - c.y;
      Box(t.box.x1 + dx, t.box.y1 + dy, t.box.x2 + dx, t.box.y2 + dy)
    else t.box
  }

  /** The overlap of a detection with the predicted box of each track. */
  function Row(d: Detection, tracks: seq<Track>, positions: Positions): seq<real> {
    seq(|tracks|, t requires 0 <= t < |tracks| => Iou(d.box, PredictedBox(tracks[t], positions)))
  }

  function Overlaps(dets: seq<Detection>, tracks: seq<Track>, positions: Positions): Matrix {
    seq(|dets|, d requires 0 <= d < |dets| => Row(dets[d], tracks, positions))
  }

  /** Add the track's centre to its history. */
  function Record(positions: Positions, t: Track): Positions {
    positions[t.id := PushPosition(if t.id in positions then positions[t.id] else [], t.box.Center())]
  }

  function RecordAll(positions: Positions, tracks: seq<Track>): Positions {
    if tracks == [] then positions
    else Record(RecordAll(positions, tracks[..|tracks| - 1]), tracks[|tracks| - 1])
  }

  lemma RecordMore(positions: Positions, tracks: seq<Track>, t: Track)
    ensures RecordAll(positions, tracks + [t]) == Record(RecordAll(positions, tracks), t)
  {
    assert (tracks + [t])[..|tracks|] == tracks;
  }

  lemma {:induction false} RecordJoined(positions: Positions, a: seq<Track>, b: seq<Track>)
    ensures RecordAll(positions, a + b) == RecordAll(RecordAll(positions, a), b)
  {
    if b == [] {
      assert a + b == a;
    } else {
      var n := |b| - 1;
      RecordJoined(positions, a, b[..n]);
      assert (a + b)[..|a + b| - 1] == a + b[..n];
    }
  }

  lemma {:induction false} RecordKeys(positions: Positions, tracks: seq<Track>)
    ensures RecordAll(positions, tracks).Keys == positions.Keys + IdSet(tracks)
    ensures ShortHistories(positions) ==> ShortHistories(RecordAll(positions, tracks))
  {
    if tracks != [] {
      RecordKeys(positions, tracks[..|tracks| - 1]);
    }
  }

  function IdSet(tracks: seq<Track>): set<nat> {
    if tracks == [] then {} else IdSet(tracks[..|tracks| - 1]) + {tracks[|tracks| - 1].id}
  }

  predicate DistinctIds(tracks: seq<Track>) {
    tracks == [] || (DistinctIds(tracks[..|tracks| - 1]) && tracks[|tracks| - 1].id !in IdSet(tracks[..|tracks| - 1]))
  }

  function Below(n: nat): (s: set<nat>)
    ensures forall i: nat :: i in s <==> i < n
  {
    if n == 0 then {} else Below(n - 1) + {n - 1}
  }

  lemma Push(tracks: seq<Track>, t: Track)
    ensures IdSet(tracks + [t]) == IdSet(tracks) + {t.id}
    ensures DistinctIds(tracks + [t]) <==> DistinctIds(tracks) && t.id !in IdSet(tracks)
  {
    assert (tracks + [t])[..|tracks|] == tracks;
  }

  lemma {:induction false} Joined(a: seq<Track>, b: seq<Track>)
    ensures IdSet(a + b) == IdSet(a) + IdSet(b)
    ensures DistinctIds(a) && DistinctIds(b) && IdSet(a) !! IdSet(b) ==> DistinctIds(a + b)
  {
    if b == [] {
      assert a + b == a;
    } else {
      var n := |b| - 1;
      Joined(a, b[..n]);
      assert a + b == (a + b[..n]) + [b[n]];
      Push(a + b[..n], b[n]);
    }
  }

  lemma {:induction false} IdAt(tracks: seq<Track>, i: nat)
    requires i < |tracks|
    ensures tracks[i].id in IdSet(tracks)
  {
    if i < |tracks| - 1 { IdAt(tracks[..|tracks| - 1], i); }
  }

  lemma {:induction false} IdsDiffer(tracks: seq<Track>, i: nat, j: nat)
    requires i < j < |tracks| && DistinctIds(tracks)
    ensures tracks[i].id != tracks[j].id
  {
    var n := |tracks| - 1;
    if j < n { IdsDiffer(tracks[..n], i, j); } else { IdAt(tracks[..n], i); }
  }

  lemma {:induction false} WhereId(tracks: seq<Track>, id: nat) returns (i: nat)
    requires id in IdSet(tracks)
    ensures i < |tracks| && tracks[i].id == id
  {
    var n := |tracks| - 1;
    if tracks[n].id == id { i := n; } else { i := WhereId(tracks[..n], id); }
  }

  // ---- tracks chosen by index ----

  /** The items at the given indices, in the order of the indices. */
  function Pick<T>(items: seq<T>, indices: seq<nat>): (r: seq<T>)
    requires forall k :: 0 <= k < |indices| ==> indices[k] < |items|
    ensures |r| == |indices|
    ensures forall k :: 0 <= k < |r| ==> r[k] == items[indices[k]]
  {
    seq(|indices|, k requires 0 <= k < |indices| => items[indices[k]])
  }

  predicate NoRepeats(indices: seq<nat>) {
    forall j, k :: 0 <= j < k < |indices| ==> indices[j] != indices[k]
  }

  /** `part` has the identifiers of `tracks` at `indices`, each once, in order. */
  predicate IdsFrom(part: seq<Track>, tracks: seq<Track>, indices: seq<nat>) {
    && |part| == |indices| && NoRepeats(indices)
    && forall k :: 0 <= k < |part| ==> indices[k] < |tracks| && part[k].id == tracks[indices[k]].id
  }

  lemma {:induction false} PartIsDistinct(part: seq<Track>, tracks: seq<Track>, indices: seq<nat>, outside: nat)
    requires DistinctIds(tracks) && IdsFrom(part, tracks, indices)
    requires outside < |tracks| && forall k :: 0 <= k < |indices| ==> indices[k] != outside
    ensures DistinctIds(part) && IdSet(part) <= IdSet(tracks)
    ensures tracks[outside].id !in IdSet(part)
  {
    if part != [] {
      var n := |part| - 1;
      var i := indices[n];
      PartIsDistinct(part[..n], tracks, indices[..n], i);
      PartIsDistinct(part[..n], tracks, indices[..n], outside);
      IdAt(tracks, i);
      if i < outside { IdsDiffer(tracks, i, outside); } else { IdsDiffer(tracks, outside, i); }
    }
  }

  lemma PartIds(part: seq<Track>, tracks: seq<Track>, indices: seq<nat>)
    requires DistinctIds(tracks) && IdsFrom(part, tracks, indices)
    ensures DistinctIds(part) && IdSet(part) <= IdSet(tracks)
  {
    if part != [] {
      var n := |part| - 1;
      PartIsDistinct(part[..n], tracks, indices[..n], indices[n]);
      IdAt(tracks, indices[n]);
    }
  }

  /** Two parts at indices that do not meet, but together cover `tracks`, split its identifiers. */
  lemma {:induction false} PartsSplit(a: seq<Track>, ia: seq<nat>, b: seq<Track>, ib: seq<nat>, tracks: seq<Track>)
    requires DistinctIds(tracks) && IdsFrom(a, tracks, ia) && IdsFrom(b, tracks, ib)
    requires forall j, k :: 0 <= j < |ia| && 0 <= k < |ib| ==> ia[j] != ib[k]
    ensures DistinctIds(a) && DistinctIds(b) && IdSet(a) !! IdSet(b) && IdSet(a) + IdSet(b) <= IdSet(tracks)
    ensures (forall i :: 0 <= i < |tracks| ==> i in ia || i in ib) ==> IdSet(a) + IdSet(b) == IdSet(tracks)
  {
    PartIds(a, tracks, ia);
    PartIds(b, tracks, ib);
    Disjoint(a, ia, b, ib, tracks);
    if forall i :: 0 <= i < |tracks| ==> i in ia || i in ib {
      Covers(a, ia, b, ib, tracks, |tracks|);
      assert tracks[..|tracks|] == tracks;
    }
  }

  lemma {:induction false} Disjoint(a: seq<Track>, ia: seq<nat>, b: seq<Track>, ib: seq<nat>, tracks: seq<Track>)
    requires DistinctIds(tracks) && IdsFrom(a, tracks, ia) && IdsFrom(b, tracks, ib)
    requires forall j, k :: 0 <= j < |ia| && 0 <= k < |ib| ==> ia[j] != ib[k]
    ensures IdSet(a) !! IdSet(b)
  {
    if b != [] {
      var n := |b| - 1;
      Disjoint(a, ia, b[..n], ib[..n], tracks);
      PartIsDistinct(a, tracks, ia, ib[n]);
    }
  }

  lemma {:induction false} Covers(a: seq<Track>, ia: seq<nat>, b: seq<Track>, ib: seq<nat>, tracks: seq<Track>, n: nat)
    requires IdsFrom(a, tracks, ia) && IdsFrom(b, tracks, ib) && n <= |tracks|
    requires forall i :: 0 <= i < |tracks| ==> i in ia || i in ib
    ensures IdSet(tracks[..n]) <= IdSet(a) + IdSet(b)
  {
    if n > 0 {
      Covers(a, ia, b, ib, tracks, n - 1);
      assert tracks[..n][..n - 1] == tracks[..n - 1];
      if n - 1 in ia {
        var k :| 0 <= k < |ia| && ia[k] == n - 1;
        IdAt(a, k);
      } else {
        assert n - 1 in ib;
        var k :| 0 <= k < |ib| && ib[k] == n - 1;
        IdAt(b, k);
      }
    }
  }

  /** The tracks a matching leaves over, in order. */
  function Left(tracks: seq<Track>, matched: seq<Pair>): seq<Track> {
    Pick(tracks, LeftIndices(tracks, matched))
  }

  function LeftIndices(tracks: seq<Track>, matched: seq<Pair>): (r: seq<nat>)
    ensures forall k :: 0 <= k < |r| ==> r[k] < |tracks|
  {
    var r := Unused(|tracks|, Trks(matched));
    assert forall k :: 0 <= k < |r| ==> r[k] in r;
    r
  }

  lemma LeftFacts(tracks: seq<Track>, matched: seq<Pair>)
    ensures IdsFrom(Left(tracks, matched), tracks, Unused(|tracks|, Trks(matched)))
    ensures forall k :: 0 <= k < |Left(tracks, matched)| ==> Left(tracks, matched)[k] in tracks
  {
  }

  // ---- matched and unmatched ----

  predicate InBounds(pairs: seq<Pair>, dets: nat, trks: nat) {
    forall k :: 0 <= k < |pairs| ==> pairs[k].0 < dets && pairs[k].1 < trks
  }

  function Firsts(pairs: seq<Pair>): (r: seq<nat>)
    ensures |r| == |pairs| && forall k :: 0 <= k < |r| ==> r[k] == pairs[k].0
  {
    seq(|pairs|, k requires 0 <= k < |pairs| => pairs[k].0)
  }

  function Seconds(pairs: seq<Pair>): (r: seq<nat>)
    ensures |r| == |pairs| && forall k :: 0 <= k < |r| ==> r[k] == pairs[k].1
  {
    seq(|pairs|, k requires 0 <= k < |pairs| => pairs[k].1)
  }

  /** The matched tracks, refreshed, in the order of the matches. */
  function Refreshed(tracks: seq<Track>, dets: seq<Detection>, matched: seq<Pair>): seq<Track>
    requires InBounds(matched, |dets|, |tracks|)
  {
    seq(|matched|, k requires 0 <= k < |matched| => Refresh(tracks[matched[k].1], dets[matched[k].0]))
  }

  /** Tracks born of the detections at `unmatched`, numbered from `count` on. */
  function Newborn(dets: seq<Detection>, unmatched: seq<nat>, count: nat): seq<Track>
    requires forall k :: 0 <= k < |unmatched| ==> unmatched[k] < |dets|
  {
    seq(|unmatched|, k requires 0 <= k < |unmatched| =>
      var d := dets[unmatched[k]]; Track(count + k, d.box, d.confidence, d.classId, d, 0, 1))
  }

  /** Unmatched tracks that stay, one frame older. */
  function StillLost(rest: seq<Track>, buffer: nat): seq<Track> {
    if rest == [] then []
    else
      var n := |rest| - 1;
      StillLost(rest[..n], buffer) + if rest[n].timeSinceUpdate + 1 > buffer then [] else [Aged(rest[n])]
  }

  /** Unmatched tracks that have now been missing for more than `buffer` frames. */
  function Expired(rest: seq<Track>, buffer: nat): seq<Track> {
    if rest == [] then []
    else
      var n := |rest| - 1;
      Expired(rest[..n], buffer) + if rest[n].timeSinceUpdate + 1 > buffer then [Aged(rest[n])] else []
  }

  /** A matching and what it leaves unmatched split the tracks. */
  lemma MatchingSplitsIds(tracks: seq<Track>, dets: seq<Detection>, matched: seq<Pair>, activated: seq<Track>,
                          unused: seq<nat>, rest: seq<Track>)
    requires DistinctIds(tracks) && Matching(matched) && InBounds(matched, |dets|, |tracks|)
    requires activated == Refreshed(tracks, dets, matched)
    requires unused == Unused(|tracks|, Trks(matched)) && IdsFrom(rest, tracks, unused)
    ensures DistinctIds(activated) && DistinctIds(rest)
    ensures IdSet(activated) !! IdSet(rest) && IdSet(activated) + IdSet(rest) == IdSet(tracks)
  {
    var used := Seconds(matched);
    forall j, k | 0 <= j < |used| && 0 <= k < |unused| ensures used[j] != unused[k] {
      assert matched[j] in matched && unused[k] in unused;
    }
    forall i | 0 <= i < |tracks| ensures i in used || i in unused {
      if i in Trks(matched) {
        var p :| p in matched && p.1 == i;
        var k :| 0 <= k < |matched| && matched[k] == p;
        assert used[k] == i;
      }
    }
    assert IdsFrom(activated, tracks, used) by {
      forall j, k | 0 <= j < k < |used| ensures used[j] != used[k] {
        assert !Touch(matched[j], matched[k]);
      }
    }
    PartsSplit(activated, used, rest, unused, tracks);
  }

  // ---- bookkeeping of who was seen when ----

  /** Every identifier in `tracks` is known, and its track has been missing since it was last seen. */
  predicate Counts(tracks: seq<Track>, seen: map<nat, nat>, frame: nat, least: nat, most: nat) {
    forall k :: 0 <= k < |tracks| ==>
      && tracks[k].id in seen
      && least <= tracks[k].timeSinceUpdate <= most
      && seen[tracks[k].id] + tracks[k].timeSinceUpdate == frame
  }

  predicate ShortHistories(positions: Positions) {
    forall id :: id in positions ==> 1 <= |positions[id]| <= 5
  }

  function MarkSeen(seen: map<nat, nat>, ids: set<nat>, frame: nat): map<nat, nat> {
    map id | id in seen.Keys + ids :: if id in ids then frame else seen[id]
  }

  // ---- where each output comes from ----

  predicate Ascending(indices: seq<nat>) {
    forall j, k :: 0 <= j < k < |indices| ==> indices[j] < indices[k]
  }

  lemma PickInjective(indices: seq<nat>, a: seq<nat>, b: seq<nat>)
    requires Ascending(indices) && NoRepeats(a)
    requires forall k :: 0 <= k < |a| ==> a[k] < |indices|
    requires forall k :: 0 <= k < |b| ==> b[k] < |indices|
    requires forall j, k :: 0 <= j < |a| && 0 <= k < |b| ==> a[j] != b[k]
    ensures NoRepeats(Pick(indices, a))
    ensures forall j, k :: 0 <= j < |a| && 0 <= k < |b| ==> Pick(indices, a)[j] != Pick(indices, b)[k]
  {
    forall j, k | 0 <= j < k < |a| ensures Pick(indices, a)[j] != Pick(indices, a)[k] {
      if a[j] < a[k] { assert indices[a[j]] < indices[a[k]]; } else { assert indices[a[k]] < indices[a[j]]; }
    }
    forall j, k | 0 <= j < |a| && 0 <= k < |b| ensures Pick(indices, a)[j] != Pick(indices, b)[k] {
      if a[j] < b[k] { assert indices[a[j]] < indices[b[k]]; } else { assert indices[b[k]] < indices[a[j]]; }
    }
  }

  lemma NoRepeatsJoined(a: seq<nat>, b: seq<nat>)
    requires NoRepeats(a) && NoRepeats(b)
    requires forall j, k :: 0 <= j < |a| && 0 <= k < |b| ==> a[j] != b[k]
    ensures NoRepeats(a + b)
  {
  }

  lemma MatchedOnce(m: seq<Pair>)
    requires Matching(m)
    ensures NoRepeats(Firsts(m)) && NoRepeats(Seconds(m))
  {
    forall j, k | 0 <= j < k < |m| ensures m[j].0 != m[k].0 && m[j].1 != m[k].1 {
      assert !Touch(m[j], m[k]);
    }
  }

  /** Matched and unmatched positions: each position below `n` is in exactly one of the two. */
  lemma MatchedOrFree(m: seq<Pair>, n: nat, free: seq<nat>)
    requires free == Unused(n, Dets(m))
    ensures NoRepeats(free) && forall k :: 0 <= k < |free| ==> free[k] < n
    ensures forall j, k :: 0 <= j < |m| && 0 <= k < |free| ==> Firsts(m)[j] != free[k]
    ensures forall p :: 0 <= p < n ==> p in Firsts(m) || p in free
  {
    assert forall k :: 0 <= k < |free| ==> free[k] in free;
    forall j, k | 0 <= j < |m| && 0 <= k < |free| ensures Firsts(m)[j] != free[k] {
      assert m[j] in m && free[k] in free;
    }
    forall p | 0 <= p < n ensures p in Firsts(m) || p in free {
      if p in Dets(m) {
        var q :| q in m && q.0 == p;
        var k :| 0 <= k < |m| && m[k] == q;
        assert Firsts(m)[k] == p;
      }
    }
  }

  lemma PickMembers(indices: seq<nat>, a: seq<nat>)
    requires forall k :: 0 <= k < |a| ==> a[k] < |indices|
    ensures forall i :: i in Pick(indices, a) ==> i in indices
    ensures forall p :: p in a ==> p < |indices| && indices[p] in Pick(indices, a)
  {
    forall p | p in a ensures p < |indices| && indices[p] in Pick(indices, a) {
      var k :| 0 <= k < |a| && a[k] == p;
      assert Pick(indices, a)[k] == indices[p];
    }
  }

  /** Every index of `high` occurs in `src` exactly once, every index of `low` at most once. */
  predicate Once(src: seq<nat>, high: seq<nat>, low: seq<nat>) {
    && NoRepeats(src)
    && (forall i :: i in high ==> i in src)
    && (forall i :: i in src ==> i in high || i in low)
  }

  lemma PickDisjoint(high: seq<nat>, low: seq<nat>, a: seq<nat>, b: seq<nat>)
    requires forall k :: 0 <= k < |a| ==> a[k] < |high|
    requires forall k :: 0 <= k < |b| ==> b[k] < |low|
    requires forall i :: i in high ==> i !in low
    ensures forall j, k :: 0 <= j < |a| && 0 <= k < |b| ==> Pick(high, a)[j] != Pick(low, b)[k]
  {
    forall j, k | 0 <= j < |a| && 0 <= k < |b| ensures Pick(high, a)[j] != Pick(low, b)[k] {
      assert high[a[j]] in high && low[b[k]] in low;
    }
  }

  lemma OnceJoined(v1: seq<nat>, v2: seq<nat>, v3: seq<nat>, high: seq<nat>, low: seq<nat>)
    requires NoRepeats(v1) && NoRepeats(v2) && NoRepeats(v3)
    requires forall j, k :: 0 <= j < |v1| && 0 <= k < |v2| ==> v1[j] != v2[k]
    requires forall j, k :: 0 <= j < |v1| && 0 <= k < |v3| ==> v1[j] != v3[k]
    requires forall j, k :: 0 <= j < |v3| && 0 <= k < |v2| ==> v3[j] != v2[k]
    requires forall i :: i in high ==> i in v1 || i in v3
    requires forall i :: i in v1 || i in v3 ==> i in high
    requires forall i :: i in v2 ==> i in low
    ensures Once(v1 + (v2 + v3), high, low)
  {
    NoRepeatsJoined(v2, v3);
    NoRepeatsJoined(v1, v2 + v3);
  }

  /** High detections are output once each, through a match or a birth; low ones at most once. */
  lemma SourcesOnce(high: seq<nat>, low: seq<nat>, m1: seq<Pair>, m2: seq<Pair>, born: seq<nat>)
    requires Ascending(high) && Ascending(low) && forall i :: i in high ==> i !in low
    requires Matching(m1) && Matching(m2)
    requires forall k :: 0 <= k < |m1| ==> m1[k].0 < |high|
    requires forall k :: 0 <= k < |m2| ==> m2[k].0 < |low|
    requires born == Unused(|high|, Dets(m1))
    ensures forall k :: 0 <= k < |born| ==> born[k] < |high|
    ensures Once(Pick(high, Firsts(m1)) + (Pick(low, Firsts(m2)) + Pick(high, born)), high, low)
  {
    hide Once, NoRepeats, Ascending, Matching;
    var f1, f2 := Firsts(m1), Firsts(m2);
    MatchedOnce(m1);
    MatchedOnce(m2);
    MatchedOrFree(m1, |high|, born);
    PickInjective(high, f1, born);
    PickInjective(high, born, f1);
    PickInjective(low, f2, []);
    PickDisjoint(high, low, f1, f2);
    PickDisjoint(high, low, born, f2);
    PickMembers(high, f1);
    PickMembers(low, f2);
    PickMembers(high, born);
    forall i | i in high ensures i in Pick(high, f1) || i in Pick(high, born) {
      var p :| 0 <= p < |high| && high[p] == i;
      assert p in f1 || p in born;
    }
    OnceJoined(Pick(high, f1), Pick(low, f2), Pick(high, born), high, low);
  }

  /** The set algebra of one frame. */
  lemma IdsConserved(alive: set<nat>, gone0: set<nat>, below0: set<nat>, below1: set<nat>,
                     active: set<nat>, rest: set<nat>, lost: set<nat>, gone: set<nat>)
    requires alive !! gone0 && alive + gone0 == below0 <= below1
    requires active !! rest && active + rest == alive + (below1 - below0) && rest <= alive
    requires lost !! gone && lost + gone == rest
    ensures active !! lost && active !! gone && gone0 !! active && (active + lost) !! (gone0 + gone)
    ensures active + lost + (gone0 + gone) == below1 == below0 + active
    ensures gone <= alive && active + lost == (alive - gone) + (below1 - below0)
  {
  }

  function SetOf(ids: seq<nat>): set<nat> {
    set id | id in ids
  }

  /** What one frame does to the live identifiers: those in `gone` leave, fresh ones arrive. */
  predicate FrameStep(alive: set<nat>, count: nat, alive1: set<nat>, count1: nat, gone: seq<nat>) {
    && count <= count1
    && NoRepeats(gone)
    && SetOf(gone) <= alive
    && alive1 == (alive - SetOf(gone)) + (Below(count1) - Below(count))
  }

  function IdsOf(tracks: seq<Track>): (r: seq<nat>)
    ensures |r| == |tracks| && forall k :: 0 <= k < |r| ==> r[k] == tracks[k].id
  {
    seq(|tracks|, k requires 0 <= k < |tracks| => tracks[k].id)
  }

  lemma {:induction false} IdsOfSet(tracks: seq<Track>)
    requires DistinctIds(tracks)
    ensures SetOf(IdsOf(tracks)) == IdSet(tracks)
    ensures NoRepeats(IdsOf(tracks))
  {
    if tracks != [] {
      var n := |tracks| - 1;
      IdsOfSet(tracks[..n]);
      assert IdsOf(tracks) == IdsOf(tracks[..n]) + [tracks[n].id];
      assert forall k :: 0 <= k < n ==> IdsOf(tracks)[k] in IdsOf(tracks[..n]);
    }
  }

  /** Seen in this frame: each track is where its detection is. */
  predicate AllFresh(tracks: seq<Track>) {
    forall k :: 0 <= k < |tracks| ==>
      && tracks[k].timeSinceUpdate == 0
      && tracks[k].box == tracks[k].detection.box && tracks[k].confidence == tracks[k].detection.confidence
  }

  lemma CountsFresh(tracks: seq<Track>, seen: map<nat, nat>, frame: nat)
    requires AllFresh(tracks)
    ensures Counts(tracks, MarkSeen(seen, IdSet(tracks), frame), frame, 0, 0)
  {
    forall k | 0 <= k < |tracks| ensures tracks[k].id in IdSet(tracks) { IdAt(tracks, k); }
  }

  lemma CountsKept(tracks: seq<Track>, seen: map<nat, nat>, ids: set<nat>, frame: nat, least: nat, most: nat)
    requires Counts(tracks, seen, frame, least, most) && IdSet(tracks) !! ids
    ensures Counts(tracks, MarkSeen(seen, ids, frame), frame, least, most)
  {
    forall k | 0 <= k < |tracks| ensures tracks[k].id in IdSet(tracks) { IdAt(tracks, k); }
  }

  lemma CountsSubset(part: seq<Track>, tracks: seq<Track>, seen: map<nat, nat>, frame: nat, least: nat, most: nat)
    requires Counts(tracks, seen, frame, least, most)
    requires forall k :: 0 <= k < |part| ==> part[k] in tracks
    ensures Counts(part, seen, frame, least, most)
  {
  }

  lemma CountsJoined(a: seq<Track>, b: seq<Track>, seen: map<nat, nat>, frame: nat, most: nat)
    requires Counts(a, seen, frame, 0, 0) && Counts(b, seen, frame, 1, most)
    ensures Counts(a + b, seen, frame, 0, most)
  {
  }

  // ---- single steps of the loops ----

  lemma CountsPush(tracks: seq<Track>, t: Track, seen: map<nat, nat>, frame: nat, least: nat, most: nat)
    requires Counts(tracks, seen, frame, least, most)
    requires t.id in seen && least <= t.timeSinceUpdate <= most && seen[t.id] + t.timeSinceUpdate == frame
    ensures Counts(tracks + [t], seen, frame, least, most)
  {
  }

  lemma {:induction false} RemovalsOnTime(removed: seq<Track>, seen: map<nat, nat>, frame: nat, buffer: nat)
    requires Counts(removed, seen, frame, buffer + 1, buffer + 1)
    ensures forall id :: id in IdSet(removed) ==> id in seen && frame == seen[id] + buffer + 1
  {
    if removed != [] {
      RemovalsOnTime(removed[..|removed| - 1], seen, frame, buffer);
    }
  }

  lemma CountsAt(tracks: seq<Track>, i: nat, seen: map<nat, nat>, frame: nat, least: nat, most: nat)
    requires i < |tracks| && Counts(tracks, seen, frame, least, most)
    ensures tracks[i].id in seen && least <= tracks[i].timeSinceUpdate <= most
    ensures seen[tracks[i].id] + tracks[i].timeSinceUpdate == frame
  {
  }

  lemma BelowGrows(n: nat, n1: nat)
    requires n <= n1
    ensures Below(n) <= Below(n1)
    ensures Below(n) !! (Below(n1) - Below(n))
  {
  }

  /** `src[k]` is the detection that track `k` now carries. */
  predicate From(tracks: seq<Track>, dets: seq<Detection>, src: seq<nat>) {
    && |tracks| == |src|
    && forall k :: 0 <= k < |src| ==> src[k] < |dets| && tracks[k].detection == dets[src[k]]
  }

  lemma ActivatedFrom(tracks: seq<Track>, dets: seq<Detection>, indices: seq<nat>, matched: seq<Pair>,
                      activated: seq<Track>)
    requires forall k :: 0 <= k < |indices| ==> indices[k] < |dets|
    requires InBounds(matched, |indices|, |tracks|)
    requires activated == Refreshed(tracks, Pick(dets, indices), matched)
    ensures AllFresh(activated) && From(activated, dets, Pick(indices, Firsts(matched)))
  {
  }

  lemma BornFrom(dets: seq<Detection>, indices: seq<nat>, unmatched: seq<nat>, born: seq<Track>, count: nat)
    requires forall k :: 0 <= k < |indices| ==> indices[k] < |dets|
    requires forall k :: 0 <= k < |unmatched| ==> unmatched[k] < |indices|
    requires born == Newborn(Pick(dets, indices), unmatched, count)
    ensures AllFresh(born) && From(born, dets, Pick(indices, unmatched))
  {
  }

  lemma BornStep(dets: seq<Detection>, unmatched: seq<nat>, count: nat, k: nat)
    requires k < |unmatched| && forall i :: 0 <= i < |unmatched| ==> unmatched[i] < |dets|
    ensures var d := dets[unmatched[k]];
            Newborn(dets, unmatched[..k + 1], count)
            == Newborn(dets, unmatched[..k], count) + [Track(count + k, d.box, d.confidence, d.classId, d, 0, 1)]
  {
  }

  lemma {:induction false} BornIds(born: seq<Track>, dets: seq<Detection>, unmatched: seq<nat>, count: nat)
    requires forall k :: 0 <= k < |unmatched| ==> unmatched[k] < |dets|
    requires born == Newborn(dets, unmatched, count)
    ensures DistinctIds(born) && IdSet(born) == Below(count + |born|) - Below(count)
  {
    if born != [] {
      var n := |born| - 1;
      hide Below;
      assert born[..n] == Newborn(dets, unmatched[..n], count);
      BornIds(born[..n], dets, unmatched[..n], count);
      BelowStep(count, count + n);
    }
  }

  lemma AgeStep(rest: seq<Track>, i: nat, buffer: nat)
    requires i < |rest|
    ensures var t := Aged(rest[i]);
            if t.timeSinceUpdate > buffer then
              && StillLost(rest[..i + 1], buffer) == StillLost(rest[..i], buffer)
              && Expired(rest[..i + 1], buffer) == Expired(rest[..i], buffer) + [t]
            else
              && StillLost(rest[..i + 1], buffer) == StillLost(rest[..i], buffer) + [t]
              && Expired(rest[..i + 1], buffer) == Expired(rest[..i], buffer)
  {
    assert rest[..i + 1][..i] == rest[..i];
  }

  /** `lost` and `removed` split the aged tracks of `rest` by the buffer. */
  predicate AgedSplit(rest: seq<Track>, lost: seq<Track>, removed: seq<Track>, seen: map<nat, nat>, frame: nat,
                      buffer: nat) {
    && DistinctIds(lost) && DistinctIds(removed)
    && IdSet(lost) !! IdSet(removed) && IdSet(lost) + IdSet(removed) == IdSet(rest)
    && Counts(lost, seen, frame, 1, buffer)
    && Counts(removed, seen, frame, buffer + 1, buffer + 1)
  }

  lemma AgeNothing(seen: map<nat, nat>, frame: nat, buffer: nat)
    ensures StillLost([], buffer) == [] && Expired([], buffer) == [] && IdSet([]) == {}
    ensures AgedSplit([], [], [], seen, frame, buffer)
  {
  }

  lemma {:induction false} AgingSplits(rest: seq<Track>, seen: map<nat, nat>, frame: nat, buffer: nat)
    requires DistinctIds(rest) && 1 <= frame && Counts(rest, seen, frame - 1, 0, buffer)
    ensures AgedSplit(rest, StillLost(rest, buffer), Expired(rest, buffer), seen, frame, buffer)
  {
    hide AgedSplit, IdSet, DistinctIds, Counts, StillLost, Expired;
    AgeNothing(seen, frame, buffer);
    if rest != [] {
      var n := |rest| - 1;
      assert rest == rest[..n] + [rest[n]] && rest[..|rest|] == rest;
      PrefixDistinct(rest, n);
      CountsSubset(rest[..n], rest, seen, frame - 1, 0, buffer);
      AgingSplits(rest[..n], seen, frame, buffer);
      AgeStep(rest, n, buffer);
      AgedStep(rest[..n], rest[n], StillLost(rest[..n], buffer), Expired(rest[..n], buffer), seen, frame, buffer);
    }
  }

  lemma AgedStep(rest: seq<Track>, last: Track, lost: seq<Track>, removed: seq<Track>, seen: map<nat, nat>,
                 frame: nat, buffer: nat)
    requires DistinctIds(rest + [last]) && 1 <= frame && Counts(rest + [last], seen, frame - 1, 0, buffer)
    requires AgedSplit(rest, lost, removed, seen, frame, buffer)
    ensures var t := Aged(last);
            if t.timeSinceUpdate > buffer
            then AgedSplit(rest + [last], lost, removed + [t], seen, frame, buffer)
            else AgedSplit(rest + [last], lost + [t], removed, seen, frame, buffer)
  {
    hide IdSet, DistinctIds, Counts;
    var t := Aged(last);
    Push(rest, last);
    CountsAt(rest + [last], |rest|, seen, frame - 1, 0, buffer);
    if t.timeSinceUpdate > buffer {
      Push(removed, t);
      CountsPush(removed, t, seen, frame, buffer + 1, buffer + 1);
    } else {
      Push(lost, t);
      CountsPush(lost, t, seen, frame, 1, buffer);
    }
  }

  lemma HistoriesWithout(positions: Positions, ids: set<nat>)
    requires ShortHistories(positions)
    ensures ShortHistories(positions - ids) && (positions - ids).Keys == positions.Keys - ids
  {
  }

  /** Put the three groups on screen together. */
  lemma Assemble(a1: seq<Track>, s1: seq<nat>, a2: seq<Track>, s2: seq<nat>, born: seq<Track>, s3: seq<nat>,
                 rest: seq<Track>, dets: seq<Detection>, alive: set<nat>, arrived: set<nat>)
    requires AllFresh(a1) && AllFresh(a2) && AllFresh(born)
    requires From(a1, dets, s1) && From(a2, dets, s2) && From(born, dets, s3)
    requires DistinctIds(a1) && DistinctIds(a2) && DistinctIds(born)
    requires IdSet(a1) !! IdSet(a2) !! IdSet(rest) && IdSet(a1) + IdSet(a2) + IdSet(rest) == alive
    requires IdSet(born) == arrived && arrived !! alive
    ensures var all := a1 + (a2 + born);
            && AllFresh(all) && From(all, dets, s1 + (s2 + s3))
            && DistinctIds(all) && IdSet(all) !! IdSet(rest)
            && IdSet(all) + IdSet(rest) == alive + arrived && IdSet(rest) <= alive
  {
    hide IdSet, DistinctIds, AllFresh, From;
    ActivatedJoin(a2, s2, born, s3, dets);
    ActivatedJoin(a1, s1, a2 + born, s2 + s3, dets);
  }

  lemma ActivatedJoin(a: seq<Track>, sa: seq<nat>, b: seq<Track>, sb: seq<nat>, dets: seq<Detection>)
    requires AllFresh(a) && From(a, dets, sa) && AllFresh(b) && From(b, dets, sb)
    requires DistinctIds(a) && DistinctIds(b) && IdSet(a) !! IdSet(b)
    ensures AllFresh(a + b) && From(a + b, dets, sa + sb)
    ensures DistinctIds(a + b) && IdSet(a + b) == IdSet(a) + IdSet(b)
  {
    Joined(a, b);
  }

  lemma BelowStep(low: nat, n: nat)
    requires low <= n
    ensures Below(n + 1) - Below(low) == (Below(n) - Below(low)) + {n}
    ensures n !in Below(n)
  {
  }

  lemma StableIsInBounds(m: Matrix, threshold: real, matched: seq<Pair>, dets: nat, trks: nat)
    requires Shape(m, dets, trks) && Stable(m, threshold, matched)
    ensures InBounds(matched, dets, trks) && Matching(matched)
  {
    forall k | 0 <= k < |matched| ensures matched[k].0 < dets && matched[k].1 < trks {
      assert matched[k] in matched && Above(m, threshold, matched[k]);
    }
  }

  lemma {:induction false} PrefixDistinct(tracks: seq<Track>, n: nat)
    requires DistinctIds(tracks) && n <= |tracks|
    ensures DistinctIds(tracks[..n])
  {
    if n < |tracks| {
      PrefixDistinct(tracks[..|tracks| - 1], n);
      assert tracks[..|tracks| - 1][..n] == tracks[..n];
    } else {
      assert tracks[..n] == tracks;
    }
  }

  /** The indices of the detections to keep, in order. */
  function Indices(dets: seq<Detection>, keep: Detection -> bool): (r: seq<nat>)
    ensures forall i: nat :: i in r <==> i < |dets| && keep(dets[i])
    ensures Ascending(r) && forall k :: 0 <= k < |r| ==> r[k] < |dets|
  {
    if dets == [] then []
    else
      var n := |dets| - 1;
      var r := Indices(dets[..n], keep);
      assert forall k :: 0 <= k < |r| ==> r[k] in r;
      if keep(dets[n]) then r + [n] else r
  }

  /** Identifiers are conserved: live and removed ones together are all those handed out, each
      exactly once, and positions are kept for exactly the live ones. */
  predicate IdsOk(tracked: seq<Track>, lost: seq<Track>, gone: set<nat>, seen: set<nat>, positions: set<nat>,
                  count: nat) {
    && DistinctIds(tracked) && DistinctIds(lost) && IdSet(tracked) !! IdSet(lost)
    && positions == IdSet(tracked) + IdSet(lost)
    && positions !! gone
    && positions + gone == Below(count) == seen
  }

  /** Each track's counter is the number of frames it has been missing, and expired tracks were
      removed on frame `buffer + 1` of their absence. */
  predicate TimesOk(tracked: seq<Track>, lost: seq<Track>, frame: nat, buffer: nat, seen: map<nat, nat>,
                    gone: map<nat, nat>) {
    && Counts(tracked, seen, frame, 0, 0)
    && Counts(lost, seen, frame, 1, buffer)
    && RemovedOnTime(gone, seen, frame, buffer)
  }

  predicate RemovedOnTime(gone: map<nat, nat>, seen: map<nat, nat>, frame: nat, buffer: nat) {
    forall id :: id in gone ==> id in seen && gone[id] == seen[id] + buffer + 1 <= frame
  }

  /** What the passes of one frame establish about identifiers. */
  predicate Passed(alive: set<nat>, count: nat, activated: seq<Track>, rest: seq<Track>, count1: nat) {
    && count <= count1
    && DistinctIds(activated) && IdSet(activated) !! IdSet(rest)
    && IdSet(activated) + IdSet(rest) == alive + (Below(count1) - Below(count)) && IdSet(rest) <= alive
  }

  lemma PassedKeys(alive: set<nat>, count: nat, activated: seq<Track>, rest: seq<Track>, count1: nat)
    requires Passed(alive, count, activated, rest, count1)
    ensures alive + IdSet(activated) == IdSet(activated) + IdSet(rest)
  {
    hide IdSet, DistinctIds, Below;
  }

  lemma NextIds(tracked: seq<Track>, lost0: seq<Track>, gone: set<nat>, seen: set<nat>, positions: set<nat>, count: nat,
                activated: seq<Track>, rest: seq<Track>, lost: seq<Track>, removed: seq<Track>, count1: nat)
    requires IdsOk(tracked, lost0, gone, seen, positions, count)
    requires Passed(positions, count, activated, rest, count1)
    requires DistinctIds(lost) && DistinctIds(removed) && IdSet(lost) !! IdSet(removed)
    requires IdSet(lost) + IdSet(removed) == IdSet(rest)
    ensures IdsOk(activated, lost, gone + IdSet(removed), seen + IdSet(activated), IdSet(activated) + IdSet(lost),
              count1)
    ensures FrameStep(positions, count, IdSet(activated) + IdSet(lost), count1, IdsOf(removed))
    ensures SetOf(IdsOf(removed)) == IdSet(removed)
    ensures IdSet(removed) !! IdSet(activated) && IdSet(lost) !! IdSet(activated) && gone !! IdSet(activated)
    ensures (IdSet(activated) + IdSet(rest)) - IdSet(removed) == IdSet(activated) + IdSet(lost)
  {
    hide IdSet, DistinctIds, Below, NoRepeats;
    var active, out := IdSet(activated), IdSet(removed);
    BelowGrows(count, count1);
    IdsConserved(positions, gone, Below(count), Below(count1), active, IdSet(rest), IdSet(lost), out);
    IdsOfSet(removed);
  }

  lemma NextTimes(tracked: seq<Track>, lost0: seq<Track>, frame: nat, buffer: nat, seen: map<nat, nat>, gone: map<nat,
                  nat>,
                  activated: seq<Track>, lost: seq<Track>, removed: seq<Track>)
    requires TimesOk(tracked, lost0, frame, buffer, seen, gone)
    requires AllFresh(activated) && Counts(lost, seen, frame + 1, 1, buffer)
    requires Counts(removed, seen, frame + 1, buffer + 1, buffer + 1)
    requires IdSet(removed) !! IdSet(activated) && IdSet(lost) !! IdSet(activated) && gone.Keys !! IdSet(activated)
    ensures TimesOk(activated, lost, frame + 1, buffer,
                    MarkSeen(seen, IdSet(activated), frame + 1), MarkSeen(gone, IdSet(removed), frame + 1))
  {
    hide IdSet, Counts, AllFresh, RemovedOnTime, MarkSeen;
    var active, now := IdSet(activated), frame + 1;
    CountsFresh(activated, seen, now);
    CountsKept(lost, seen, active, now, 1, buffer);
    CountsKept(removed, seen, active, now, buffer + 1, buffer + 1);
    RemovalsOnTime(removed, MarkSeen(seen, active, now), now, buffer);
    GoneStaysOnTime(gone, seen, active, removed, now, buffer);
  }

  /** The tracks left over by the passes have been missing since before this frame. */
  lemma PoolCounts(tracked: seq<Track>, lost: seq<Track>, rest: seq<Track>, frame: nat, buffer: nat,
                   seen: map<nat, nat>, gone: map<nat, nat>)
    requires TimesOk(tracked, lost, frame, buffer, seen, gone)
    requires forall k :: 0 <= k < |rest| ==> rest[k] in tracked + lost
    ensures Counts(rest, seen, frame, 0, buffer)
  {
    CountsJoined(tracked, lost, seen, frame, buffer);
    CountsSubset(rest, tracked + lost, seen, frame, 0, buffer);
  }

  lemma AgedParts(rest: seq<Track>, lost: seq<Track>, removed: seq<Track>, seen: map<nat, nat>, frame: nat, buffer: nat)
    requires AgedSplit(rest, lost, removed, seen, frame, buffer)
    ensures DistinctIds(lost) && DistinctIds(removed) && IdSet(lost) !! IdSet(removed)
    ensures IdSet(lost) + IdSet(removed) == IdSet(rest)
    ensures Counts(lost, seen, frame, 1, buffer) && Counts(removed, seen, frame, buffer + 1, buffer + 1)
  {
  }

  lemma MarkSeenKeys(seen: map<nat, nat>, ids: set<nat>, frame: nat)
    ensures MarkSeen(seen, ids, frame).Keys == seen.Keys + ids
  {
  }

  lemma GoneStaysOnTime(gone: map<nat, nat>, seen: map<nat, nat>, active: set<nat>, removed: seq<Track>, frame: nat,
                        buffer: nat)
    requires 1 <= frame
    requires RemovedOnTime(gone, seen, frame - 1, buffer) && gone.Keys !! active
    requires forall id :: id in IdSet(removed) ==>
               id in MarkSeen(seen, active, frame) && frame == MarkSeen(seen, active, frame)[id] + buffer + 1
    ensures RemovedOnTime(MarkSeen(gone, IdSet(removed), frame), MarkSeen(seen, active, frame), frame, buffer)
  {
  }
}
