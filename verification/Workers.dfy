/** The camera worker's identity bookkeeping: tracker identifiers, recovered identities, and the
    delayed forgetting of lost ones. */
module Workers {
  import opened Options
  import opened Reals
  import opened Boxes
  import opened Tracks
  import opened Trackers
  import opened ReId

  /** What the embedding network would return for one detection. */
  datatype View = View(forRecovery: Option<Embedding>, forSeen: Option<Embedding>)

  function Canonical(alias: map<nat, nat>, raw: nat): nat {
    if raw in alias then alias[raw] else raw
  }

  /** Identities are never merged. For the tracker identifiers in use: no two share an identity,
      an identity taken over from another track belongs to none of them, and whatever waits to be
      recovered or forgotten belongs to none of them. */
  ghost predicate Separate(alias: map<nat, nat>, gallery: set<nat>, pending: set<nat>, inUse: set<nat>) {
    && alias.Keys <= inUse
    && (forall r :: r in inUse ==> Canonical(alias, r) == r || Canonical(alias, r) !in inUse)
    && (forall r, s :: r in inUse && s in inUse && r != s ==> Canonical(alias, r) != Canonical(alias, s))
    && gallery <= pending
    && pending !! inUse
    && (forall r :: r in inUse ==> Canonical(alias, r) !in pending)
  }

  /** All identities stem from identifiers the tracker has handed out. */
  ghost predicate Issued(alias: map<nat, nat>, pending: set<nat>, inUse: set<nat>, count: nat) {
    && (forall r :: r in inUse ==> r < count && Canonical(alias, r) < count)
    && (forall p :: p in pending ==> p < count)
  }

  /** Fresh tracker identifiers join as their own identities; expired ones are in use until released. */
  lemma TrackerAdvances(alias: map<nat, nat>, gallery: set<nat>, pending: set<nat>,
                        alive: set<nat>, count: nat, alive1: set<nat>, count1: nat, gone: seq<nat>)
    requires Separate(alias, gallery, pending, alive) && Issued(alias, pending, alive, count)
    requires FrameStep(alive, count, alive1, count1, gone)
    ensures Separate(alias, gallery, pending, alive1 + SetOf(gone))
    ensures Issued(alias, pending, alive1 + SetOf(gone), count1)
  {
    var inUse := alive1 + SetOf(gone);
    assert forall r :: r in inUse ==> r in alive || (count <= r < count1 && r !in alias);
  }

  /** Taking an identity out of the gallery for a track that has none of its own yet. */
  lemma Adopts(alias: map<nat, nat>, gallery: set<nat>, pending: set<nat>, inUse: set<nat>, count: nat, raw: nat,
               id: nat)
    requires Separate(alias, gallery, pending, inUse) && Issued(alias, pending, inUse, count)
    requires raw in inUse && raw !in alias && id in gallery
    ensures Separate(alias[raw := id], gallery - {id}, pending - {id}, inUse)
    ensures Issued(alias[raw := id], pending - {id}, inUse, count)
  {
    assert forall r :: Canonical(alias[raw := id], r) == if r == raw then id else Canonical(alias, r);
  }

  /** Settling on the tracker's own identifier. */
  lemma KeepsOwn(alias: map<nat, nat>, gallery: set<nat>, pending: set<nat>, inUse: set<nat>, count: nat, raw: nat)
    requires Separate(alias, gallery, pending, inUse) && Issued(alias, pending, inUse, count)
    requires raw in inUse && raw !in alias
    ensures Separate(alias[raw := raw], gallery, pending, inUse)
    ensures Issued(alias[raw := raw], pending, inUse, count)
  {
    assert forall r :: Canonical(alias[raw := raw], r) == Canonical(alias, r);
  }

  // ---- implausible jumps ----

  datatype Sight = Sight(center: Point, t: real)

  /** How far a vehicle may plausibly move: a few times its size, more after a longer gap. */
  function StepLimit(root: real -> real, box: Box, elapsed: real): real {
    var diagonal := root(Norm2(box.x2 - box.x1, box.y2 - box.y1));
    var size := if diagonal == 0.0 then 40.0 else diagonal;
    Times(Max(2.5 * size, 80.0), Max(1.0, elapsed / 0.12))
  }

  predicate Jumps(root: real -> real, last: Sight, box: Box, t: real) {
    root(Norm2(box.Center().x - last.center.x, box.Center().y - last.center.y))
    > StepLimit(root, box, Max(t - last.t, 0.001))
  }

  /** A step is implausible exactly when it is longer than 80 pixels and longer than two and a half times
      the diagonal of the box, taken as 40 for an empty box, both stretched by the time since the last
      sighting in units of 0.12 s when that is longer. The comparison is between squares. */
  lemma JumpsExactly(root: real -> real, last: Sight, box: Box, t: real)
    requires forall x :: 0.0 <= x ==> 0.0 <= root(x) && Times(root(x), root(x)) == x
    ensures var gap := if t - last.t > 0.12 then (t - last.t) / 0.12 else 1.0;
            var step2 := Norm2((box.x1 + box.x2) / 2.0 - last.center.x, (box.y1 + box.y2) / 2.0 - last.center.y);
            var size2 := Norm2(box.x2 - box.x1, box.y2 - box.y1);
            Jumps(root, last, box, t) <==>
              && step2 > 6400.0 * Times(gap, gap)
              && step2 > 6.25 * Times(if size2 == 0.0 then 1600.0 else size2, Times(gap, gap))
  {
    hide Times, Norm2;
    var gap := if t - last.t > 0.12 then (t - last.t) / 0.12 else 1.0;
    var step2 := Norm2((box.x1 + box.x2) / 2.0 - last.center.x, (box.y1 + box.y2) / 2.0 - last.center.y);
    var size2 := Norm2(box.x2 - box.x1, box.y2 - box.y1);
    NormNotNegative((box.x1 + box.x2) / 2.0 - last.center.x, (box.y1 + box.y2) / 2.0 - last.center.y);
    NormNotNegative(box.x2 - box.x1, box.y2 - box.y1);
    var diagonal := root(size2);
    var size := if diagonal == 0.0 then 40.0 else diagonal;
    SquareIsZero(diagonal);
    LimitSquared(root(step2), size, gap);
  }

  lemma NormNotNegative(x: real, y: real)
    ensures 0.0 <= Norm2(x, y)
  {
  }

  lemma SquareIsZero(x: real)
    requires 0.0 <= x
    ensures Times(x, x) == 0.0 <==> x == 0.0
    ensures Times(40.0, 40.0) == 1600.0
  {
    if x > 0.0 { TimesPositive(x, x); }
  }

  lemma SquaresOrder(a: real, b: real)
    requires 0.0 <= a && 0.0 <= b
    ensures a > b <==> Times(a, a) > Times(b, b)
  {
    if a > b {
      TimesPositive(a - b, a + b);
      assert (a - b) * (a + b) == a * a - b * b;
    } else {
      TimesGrows(a, a, b, b);
    }
  }

  lemma LimitSquared(step: real, size: real, gap: real)
    requires 0.0 <= step && 0.0 < size && 1.0 <= gap
    ensures step > Times(Max(2.5 * size, 80.0), gap) <==>
              && Times(step, step) > 6400.0 * Times(gap, gap)
              && Times(step, step) > 6.25 * Times(Times(size, size), Times(gap, gap))
  {
    hide Times;
    var a, b := 2.5 * size, 80.0;
    TimesGrows(a, gap, Max(a, b), gap);
    TimesGrows(b, gap, Max(a, b), gap);
    TimesGrows(0.0, gap, a, gap);
    TimesGrows(0.0, 0.0, 0.0, gap);
    SquaresOrder(step, Times(a, gap));
    SquaresOrder(step, Times(b, gap));
    SquareOfProduct(a, gap);
    SquareOfProduct(b, gap);
    SquareOfProduct(2.5, size);
    LeadingFactor(Times(size, size), Times(gap, gap));
  }

  lemma SquareOfProduct(x: real, y: real)
    ensures Times(Times(x, y), Times(x, y)) == Times(Times(x, x), Times(y, y))
    ensures Times(80.0, 80.0) == 6400.0 && Times(6400.0, y) == 6400.0 * y && Times(2.5, y) == 2.5 * y
    ensures Times(2.5, 2.5) == 6.25 && Times(6.25, y) == 6.25 * y
  {
    assert (x * y) * (x * y) == (x * x) * (y * y);
  }

  lemma LeadingFactor(x: real, y: real)
    ensures Times(6.25 * x, y) == 6.25 * Times(x, y) && Times(6400.0, y) == 6400.0 * y
    ensures Times(6.25, x) == 6.25 * x
  {
    assert (6.25 * x) * y == 6.25 * (x * y);
  }

  /** A vehicle on screen: its identity and its box. */
  type Vehicle = (nat, Box)

  /** Where the vehicles are now. */
  function Sights(vehicles: seq<Vehicle>, t: real): map<nat, Sight> {
    if vehicles == [] then map[]
    else
      var n := |vehicles| - 1;
      Sights(vehicles[..n], t)[vehicles[n].0 := Sight(vehicles[n].1.Center(), t)]
  }

  /** The identities whose box jumped since they were last seen. */
  function Glitched(root: real -> real, last: map<nat, Sight>, vehicles: seq<Vehicle>, t: real): set<nat> {
    if vehicles == [] then {}
    else
      var n := |vehicles| - 1;
      var (id, box) := vehicles[n];
      Glitched(root, last, vehicles[..n], t) + if id in last && Jumps(root, last[id], box, t) then {id} else {}
  }

  /** Exactly the vehicles on screen are remembered, each where it is now. */
  lemma {:induction false} SightsExactly(vehicles: seq<Vehicle>, t: real, id: nat)
    requires DistinctVehicles(vehicles)
    ensures id in Sights(vehicles, t) <==> exists k :: 0 <= k < |vehicles| && vehicles[k].0 == id
    ensures forall k :: 0 <= k < |vehicles| && vehicles[k].0 == id && id in Sights(vehicles, t) ==>
              Sights(vehicles, t)[id] == Sight(vehicles[k].1.Center(), t)
  {
    if vehicles != [] {
      SightsExactly(vehicles[..|vehicles| - 1], t, id);
    }
  }

  /** Exactly the vehicles that were on screen before, and whose box jumped, lose their fingerprint. */
  lemma {:induction false} GlitchedExactly(root: real -> real, last: map<nat, Sight>, vehicles: seq<Vehicle>, t: real,
                                           id: nat)
    ensures id in Glitched(root, last, vehicles, t) <==>
              exists k :: 0 <= k < |vehicles| && vehicles[k].0 == id && id in last
                          && Jumps(root, last[id], vehicles[k].1, t)
  {
    hide Jumps;
    if vehicles != [] {
      var n := |vehicles| - 1;
      GlitchedExactly(root, last, vehicles[..n], t, id);
      assert forall k :: 0 <= k < n ==> vehicles[..n][k] == vehicles[k];
    }
  }

  predicate DistinctVehicles(vehicles: seq<Vehicle>) {
    forall j, k :: 0 <= j < k < |vehicles| ==> vehicles[j].0 != vehicles[k].0
  }

  lemma {:induction false} SightsKnow(vehicles: seq<Vehicle>, t: real, id: nat)
    requires forall k :: 0 <= k < |vehicles| ==> vehicles[k].0 != id
    ensures id !in Sights(vehicles, t)
  {
    if vehicles != [] { SightsKnow(vehicles[..|vehicles| - 1], t, id); }
  }

  lemma MinusTwice<V>(m: map<nat, V>, a: set<nat>, b: set<nat>)
    ensures m - a - b == m - (a + b)
  {
  }

  lemma PlusOne<V>(m: map<nat, V>, n: map<nat, V>, id: nat, x: V)
    ensures (m + n)[id := x] == m + n[id := x]
    ensures id !in n ==> (id in m + n <==> id in m) && (id in m ==> (m + n)[id] == m[id])
  {
  }

  lemma OnlyNew<V>(m: map<nat, V>, n: map<nat, V>)
    ensures (map id | id in m + n && id in n.Keys :: (m + n)[id]) == n
  {
  }

  lemma NoVehicles(root: real -> real, last: map<nat, Sight>, t: real)
    ensures Sights([], t) == map[] && Glitched(root, last, [], t) == {}
  {
  }

  lemma OneVehicleMore(root: real -> real, last: map<nat, Sight>, vehicles: seq<Vehicle>, k: nat, t: real)
    requires k < |vehicles| && DistinctVehicles(vehicles)
    ensures var (id, box) := vehicles[k];
            && id !in Sights(vehicles[..k], t)
            && Sights(vehicles[..k + 1], t) == Sights(vehicles[..k], t)[id := Sight(box.Center(), t)]
            && Glitched(root, last, vehicles[..k + 1], t)
               == Glitched(root, last, vehicles[..k], t)
                  + if id in last && Jumps(root, last[id], box, t) then {id} else {}
  {
    hide Jumps;
    assert vehicles[..k + 1][..k] == vehicles[..k];
    SightsKnow(vehicles[..k], t, vehicles[k].0);
  }

  /** The vehicles among the detections on screen, with the identities shown for them. */
  function VehiclesOn(output: seq<(Detection, nat)>, shown: seq<nat>): seq<Vehicle>
    requires |output| == |shown|
  {
    if output == [] then []
    else
      var n := |output| - 1;
      VehiclesOn(output[..n], shown[..n]) + if output[n].0.Vehicle() then [(shown[n], output[n].0.box)] else []
  }

  lemma {:induction false} VehiclesExactly(output: seq<(Detection, nat)>, shown: seq<nat>, v: Vehicle)
    requires |output| == |shown|
    ensures v in VehiclesOn(output, shown) <==>
              exists k :: 0 <= k < |output| && output[k].0.Vehicle() && v == (shown[k], output[k].0.box)
  {
    hide Detection.Vehicle;
    if output != [] {
      var n := |output| - 1;
      VehiclesExactly(output[..n], shown[..n], v);
      assert forall k :: 0 <= k < n ==> output[..n][k] == output[k] && shown[..n][k] == shown[k];
    }
  }

  lemma {:induction false} VehiclesDistinct(output: seq<(Detection, nat)>, shown: seq<nat>)
    requires |output| == |shown| && NoRepeats(shown)
    ensures DistinctVehicles(VehiclesOn(output, shown))
    ensures forall k :: 0 <= k < |VehiclesOn(output, shown)| ==> VehiclesOn(output, shown)[k].0 in shown
  {
    if output != [] {
      var n := |output| - 1;
      VehiclesDistinct(output[..n], shown[..n]);
      assert shown == shown[..n] + [shown[n]];
    }
  }

  lemma NotWaiting(alias: map<nat, nat>, gallery: set<nat>, pending: set<nat>, inUse: set<nat>, raw: nat)
    requires Separate(alias, gallery, pending, inUse) && raw in inUse
    ensures raw !in pending && raw !in gallery
  {
  }

  lemma Shrinks(alias: map<nat, nat>, gallery: set<nat>, gallery1: set<nat>, pending: set<nat>, pending1: set<nat>,
                inUse: set<nat>, count: nat)
    requires Separate(alias, gallery, pending, inUse) && Issued(alias, pending, inUse, count)
    requires gallery1 <= gallery && pending1 <= pending && (pending1 == pending || gallery1 <= pending1)
    ensures Separate(alias, gallery1, pending1, inUse) && Issued(alias, pending1, inUse, count)
  {
  }

  /** Releasing an expired track: its identity may go to the gallery and waits to be forgotten. */
  lemma Releases(alias: map<nat, nat>, gallery: set<nat>, gallery1: set<nat>, pending: set<nat>, inUse: set<nat>,
                 count: nat, raw: nat)
    requires Separate(alias, gallery, pending, inUse) && Issued(alias, pending, inUse, count)
    requires raw in inUse && gallery1 <= gallery + {Canonical(alias, raw)}
    ensures Separate(alias - {raw}, gallery1, pending + {Canonical(alias, raw)}, inUse - {raw})
    ensures Issued(alias - {raw}, pending + {Canonical(alias, raw)}, inUse - {raw}, count)
  {
    assert forall r :: r != raw ==> Canonical(alias - {raw}, r) == Canonical(alias, r);
  }

  class CameraWorker {
    const tracker: SimpleByteTracker
    const reid: DeepReID

    /** Tracker identifier to identity, once settled. */
    var alias: map<nat, nat>
    /** Frames in which a tracker identifier was seen on a vehicle. */
    var rawAge: map<nat, nat>
    /** Lost identities and when they were lost. */
    var pendingForget: map<nat, real>
    /** Where and when each vehicle on screen was last seen. */
    var tpLast: map<nat, Sight>

    ghost predicate Holds(inUse: set<nat>)
      reads this, tracker, reid
    {
      && Separate(alias, reid.gallery.Keys, pendingForget.Keys, inUse)
      && Issued(alias, pendingForget.Keys, inUse, tracker.trackIdCount)
      && 0 < reid.updateEvery
    }

    ghost predicate Valid()
      reads this, tracker, reid
    {
      tracker.Valid() && Holds(tracker.Alive())
    }

    constructor (tracker: SimpleByteTracker, reid: DeepReID)
      requires tracker.Valid() && tracker.trackIdCount == 0 && tracker.Alive() == {}
      requires reid.gallery == map[] && 0 < reid.updateEvery
      ensures Valid() && this.tracker == tracker && this.reid == reid
    {
      this.tracker, this.reid := tracker, reid;
      alias, rawAge, pendingForget, tpLast := map[], map[], map[], map[];
    }

    /** `k` is the clear winner among the unexpired, plausible fingerprints. */
    ghost predicate Recovers(gallery: Gallery, emb: Option<Embedding>, center: Point, t: real, diagonal: real, k: nat) {
      && emb.Some?
      && var pruned := Fresh(gallery, t, reid.ttl);
         ClearWinner(pruned, Plausible(pruned, center, diagonal), emb.value, reid.simThresh, reid.margin, k)
    }

    /** The identity to show for one vehicle detection. Recovery waits for the second sighting and
        spends from a budget of `budget` attempts. */
    method Identify(raw: nat, view: View, center: Point, t: real, diagonal: real, budget: nat, ghost inUse: set<nat>)
      returns (cid: nat, left: nat)
      requires Holds(inUse) && raw in inUse && 0.0 <= diagonal
      modifies `alias, `rawAge, `pendingForget, reid
      ensures Holds(inUse)
      ensures cid == Canonical(alias, raw) && left <= budget
      ensures rawAge == old(rawAge[raw := (if raw in rawAge then rawAge[raw] else 0) + 1])
      ensures if raw in old(alias) || rawAge[raw] < 2 then
                alias == old(alias) && pendingForget == old(pendingForget) && left == budget
              else
                && alias == old(alias)[raw := cid] && pendingForget == old(pendingForget) - {cid}
                && left == (if budget > 0 then budget - 1 else 0)
                && forall k: nat :: k != raw ==>
                     (cid == k <==> budget > 0 && Recovers(old(reid.gallery), view.forRecovery, center, t, diagonal, k))
    {
      hide Separate, Issued, Plausible, ClearWinner, Considered, Expires;
      NotWaiting(alias, reid.gallery.Keys, pendingForget.Keys, inUse, raw);
      var age := (if raw in rawAge then rawAge[raw] else 0) + 1;
      rawAge := rawAge[raw := age];
      left := budget;
      cid := Canonical(alias, raw);
      if raw !in alias && age >= 2 {
        if budget > 0 {
          left := budget - 1;
          ghost var before := reid.gallery.Keys;
          var rec := reid.Recover(view.forRecovery, center, t, diagonal);
          Shrinks(alias, before, reid.gallery.Keys + (if rec.Some? then {rec.value} else {}), pendingForget.Keys,
                  pendingForget.Keys, inUse, tracker.trackIdCount);
          if rec.Some? {
            cid := rec.value;
            Adopts(alias, reid.gallery.Keys + {cid}, pendingForget.Keys, inUse, tracker.trackIdCount, raw, cid);
            assert reid.gallery.Keys == reid.gallery.Keys + {cid} - {cid};
            pendingForget := pendingForget - {cid};
          } else {
            KeepsOwn(alias, reid.gallery.Keys, pendingForget.Keys, inUse, tracker.trackIdCount, raw);
          }
        } else {
          KeepsOwn(alias, reid.gallery.Keys, pendingForget.Keys, inUse, tracker.trackIdCount, raw);
        }
        alias := alias[raw := cid];
      }
      reid.NoteSeen(cid, view.forSeen, center);
    }

    /** Identities for everything on screen; detections of other classes keep the tracker's. */
    method RestoreIdentities(output: seq<(Detection, nat)>, views: nat -> View, t: real, diagonal: real,
                             ghost inUse: set<nat>)
      returns (shown: seq<nat>)
      requires Holds(inUse) && 0.0 <= diagonal
      requires forall k :: 0 <= k < |output| ==> output[k].1 in inUse
      requires forall j, k :: 0 <= j < k < |output| ==> output[j].1 != output[k].1
      modifies `alias, `rawAge, `pendingForget, reid
      ensures Holds(inUse)
      ensures forall r :: r in old(alias) ==> r in alias && alias[r] == old(alias)[r]
      ensures |shown| == |output|
      ensures forall k :: 0 <= k < |output| ==>
                shown[k] == if output[k].0.Vehicle() then Canonical(alias, output[k].1) else output[k].1
    {
      hide Separate, Issued;
      shown := [];
      var budget := 2;
      for k := 0 to |output|
        invariant Holds(inUse)
        invariant forall r :: r in old(alias) ==> r in alias && alias[r] == old(alias)[r]
        invariant |shown| == k
        invariant forall j :: 0 <= j < k ==>
                    shown[j] == if output[j].0.Vehicle() then Canonical(alias, output[j].1) else output[j].1
      {
        var (d, raw) := output[k];
        var cid := raw;
        if d.Vehicle() {
          cid, budget := Identify(raw, views(k), d.box.Center(), t, diagonal, budget, inUse);
        }
        shown := shown + [cid];
      }
    }

    /** Vehicles whose box jumped lose their fingerprint; where each vehicle is now is remembered. */
    method TeleportGate(vehicles: seq<Vehicle>, t: real, ghost inUse: set<nat>)
      requires Holds(inUse) && DistinctVehicles(vehicles)
      modifies `tpLast, reid
      ensures Holds(inUse)
      ensures tpLast == Sights(vehicles, t)
      ensures reid.live == old(reid.live) - Glitched(reid.root, old(tpLast), vehicles, t)
      ensures reid.gallery == old(reid.gallery) - Glitched(reid.root, old(tpLast), vehicles, t)
    {
      hide Separate, Issued, Glitched, Sights, DistinctVehicles, Jumps;
      var live: set<nat> := {};
      NoVehicles(reid.root, tpLast, t);
      for k := 0 to |vehicles|
        invariant Holds(inUse)
        invariant live == Sights(vehicles[..k], t).Keys
        invariant tpLast == old(tpLast) + Sights(vehicles[..k], t)
        invariant reid.live == old(reid.live) - Glitched(reid.root, old(tpLast), vehicles[..k], t)
        invariant reid.gallery == old(reid.gallery) - Glitched(reid.root, old(tpLast), vehicles[..k], t)
      {
        OneVehicleMore(reid.root, old(tpLast), vehicles, k, t);
        ghost var before, sights := Glitched(reid.root, old(tpLast), vehicles[..k], t), Sights(vehicles[..k], t);
        var (id, box) := vehicles[k];
        live := live + {id};
        ghost var last := tpLast;
        GateOne(id, box, t, inUse);
        ghost var gone := if id in last && Jumps(reid.root, last[id], box, t) then {id} else {};
        MinusTwice(old(reid.live), before, gone);
        MinusTwice(old(reid.gallery), before, gone);
        PlusOne(old(tpLast), sights, id, Sight(box.Center(), t));
      }
      assert vehicles[..|vehicles|] == vehicles;
      OnlyNew(old(tpLast), Sights(vehicles, t));
      tpLast := map id | id in tpLast && id in live :: tpLast[id];
    }

    /** Remember where one vehicle is; one that jumped loses its fingerprint. */
    method GateOne(id: nat, box: Box, t: real, ghost inUse: set<nat>)
      requires Holds(inUse)
      modifies `tpLast, reid
      ensures Holds(inUse)
      ensures tpLast == old(tpLast)[id := Sight(box.Center(), t)]
      ensures var gone := if id in old(tpLast) && Jumps(reid.root, old(tpLast)[id], box, t) then {id} else {};
              reid.live == old(reid.live) - gone && reid.gallery == old(reid.gallery) - gone
    {
      hide Separate, Issued, Jumps;
      var jumps := id in tpLast && Jumps(reid.root, tpLast[id], box, t);
      tpLast := tpLast[id := Sight(box.Center(), t)];
      if jumps {
        ghost var before := reid.gallery.Keys;
        reid.Remove(id);
        Shrinks(alias, before, reid.gallery.Keys, pendingForget.Keys, pendingForget.Keys, inUse, tracker.trackIdCount);
      }
    }

    /** Release one expired track: its fingerprint goes to the gallery, its identity waits. */
    method ReleaseOne(raw: nat, t: real, ghost inUse: set<nat>)
      requires Holds(inUse) && raw in inUse
      modifies `alias, `rawAge, `pendingForget, reid
      ensures Holds(inUse - {raw})
      ensures alias == old(alias) - {raw} && rawAge == old(rawAge) - {raw}
      ensures pendingForget == old(pendingForget[Canonical(alias, raw) := t])
      ensures reid.live == old(reid.live) - {old(Canonical(alias, raw))}
    {
      hide Separate, Issued;
      rawAge := rawAge - {raw};
      var rid := Canonical(alias, raw);
      ghost var before := reid.gallery.Keys;
      reid.NoteLost(rid, t);
      Releases(alias, before, reid.gallery.Keys, pendingForget.Keys, inUse, tracker.trackIdCount, raw);
      assert pendingForget[rid := t].Keys == pendingForget.Keys + {rid};
      alias := alias - {raw};
      pendingForget := pendingForget[rid := t];
    }

    /** Release what the tracker expired in this frame. */
    method ReleaseRemoved(t: real)
      requires Holds(tracker.Alive() + SetOf(tracker.lastRemovedIds))
      requires NoRepeats(tracker.lastRemovedIds) && SetOf(tracker.lastRemovedIds) !! tracker.Alive()
      modifies `alias, `rawAge, `pendingForget, reid
      ensures Holds(tracker.Alive())
      ensures alias == old(alias) - SetOf(tracker.lastRemovedIds)
      ensures rawAge == old(rawAge) - SetOf(tracker.lastRemovedIds)
      ensures forall k :: 0 <= k < |tracker.lastRemovedIds| ==>
                Waits(old(Canonical(alias, tracker.lastRemovedIds[k])), t)
      ensures forall p :: p in old(pendingForget) ==> p in pendingForget
    {
      hide NoRepeats, SetOf, Holds;
      var ids := tracker.lastRemovedIds;
      assert ids[0..] == ids;
      NothingReleased(tracker.Alive(), ids);
      for i := 0 to |ids|
        invariant Holds(tracker.Alive() + SetOf(ids[i..]))
        invariant alias == old(alias) - SetOf(ids[..i]) && rawAge == old(rawAge) - SetOf(ids[..i])
        invariant forall k :: 0 <= k < i ==> Waits(old(Canonical(alias, ids[k])), t)
        invariant forall p :: p in old(pendingForget) ==> p in pendingForget
      {
        NextToRelease(tracker.Alive(), ids, i);
        ReleaseOne(ids[i], t, tracker.Alive() + SetOf(ids[i..]));
      }
      assert ids[..|ids|] == ids;
    }

    /** The identity is off screen and was given up at `t`. */
    ghost predicate Waits(rid: nat, t: real)
      reads this, reid
    {
      rid !in reid.live && rid in pendingForget && pendingForget[rid] == t
    }

    /** Give up the identities that have been lost for longer than a fingerprint can be recovered. */
    method ForgetStale(t: real, ghost inUse: set<nat>) returns (forgotten: set<nat>)
      requires Holds(inUse)
      modifies `pendingForget, reid
      ensures Holds(inUse)
      ensures forall r :: r in inUse ==> Canonical(alias, r) !in forgotten
      ensures forgotten == set p | p in old(pendingForget) && t - old(pendingForget)[p] > reid.ttl + 2.0
      ensures pendingForget == old(pendingForget) - forgotten
      ensures reid.live == old(reid.live) - forgotten && reid.gallery == old(reid.gallery) - forgotten
    {
      forgotten := set p | p in pendingForget && t - pendingForget[p] > reid.ttl + 2.0;
      var todo := forgotten;
      while todo != {}
        invariant todo <= forgotten
        invariant Holds(inUse)
        invariant pendingForget == old(pendingForget) - (forgotten - todo)
        invariant reid.live == old(reid.live) - (forgotten - todo)
        invariant reid.gallery == old(reid.gallery) - (forgotten - todo)
        decreases todo
      {
        var rid :| rid in todo;
        ghost var before := reid.gallery.Keys;
        reid.Remove(rid);
        Shrinks(alias, before, reid.gallery.Keys, pendingForget.Keys, pendingForget.Keys - {rid}, inUse,
                tracker.trackIdCount);
        pendingForget := pendingForget - {rid};
        todo := todo - {rid};
      }
    }

    /** Track the detections; expired identifiers stay in use until released. */
    method TrackFrame(dets: seq<Detection>) returns (output: seq<(Detection, nat)>)
      requires Valid()
      modifies tracker
      ensures tracker.Valid() && Holds(tracker.Alive() + SetOf(tracker.lastRemovedIds))
      ensures NoRepeats(tracker.lastRemovedIds) && SetOf(tracker.lastRemovedIds) !! tracker.Alive()
      ensures |output| == |tracker.trackedStracks|
      ensures forall k :: 0 <= k < |output| ==>
                output[k] == (tracker.trackedStracks[k].detection, tracker.trackedStracks[k].id)
      ensures forall k :: 0 <= k < |output| ==> output[k].1 in tracker.Alive()
      ensures forall j, k :: 0 <= j < k < |output| ==> output[j].1 != output[k].1
    {
      hide Separate, Issued, NoRepeats, FrameStep, IdsOk, TimesOk, ShortHistories, MarkSeen, IdSet;
      ghost var alive, count := tracker.Alive(), tracker.trackIdCount;
      ghost var m1, m2;
      output, m1, m2 := tracker.Update(dets);
      TrackerAdvances(alias, reid.gallery.Keys, pendingForget.Keys, alive, count,
                      tracker.Alive(), tracker.trackIdCount, tracker.lastRemovedIds);
      GoneIsNotAlive(alias, pendingForget.Keys, alive, count,
                     tracker.Alive(), tracker.trackIdCount, tracker.lastRemovedIds);
      OutputIds(output);
    }

    /** One detected frame. Two boxes on screen never show the same identity, an identity once
        settled for a live track stays, and nothing in use is forgotten. */
    method ProcessFrame(dets: seq<Detection>, views: nat -> View, t: real, diagonal: real)
      returns (shown: seq<nat>, forgotten: set<nat>)
      requires Valid() && 0.0 <= diagonal
      modifies this, tracker, reid
      ensures Valid()
      ensures |shown| == |tracker.trackedStracks| && NoRepeats(shown)
      ensures forall k :: 0 <= k < |shown| ==>
                var track := tracker.trackedStracks[k];
                shown[k] == if track.detection.Vehicle() then Canonical(alias, track.id) else track.id
      ensures forall r :: r in old(alias) && r in tracker.Alive() ==> r in alias && alias[r] == old(alias)[r]
      ensures forall r :: r in tracker.Alive() ==> Canonical(alias, r) !in forgotten
    {
      hide Separate, Issued, NoRepeats, IdsOk, TimesOk, ShortHistories, IdSet, SetOf;
      var output := TrackFrame(dets);
      ghost var inUse := tracker.Alive() + SetOf(tracker.lastRemovedIds);
      shown := RestoreIdentities(output, views, t, diagonal, inUse);
      ShownOnce(output, shown, inUse);
      var vehicles := Vehicles(output, shown);
      VehiclesDistinct(output, shown);
      TeleportGate(vehicles, t, inUse);
      ReleaseRemoved(t);
      forgotten := ForgetStale(t, tracker.Alive());
    }

    method Vehicles(output: seq<(Detection, nat)>, shown: seq<nat>) returns (vehicles: seq<Vehicle>)
      requires |output| == |shown|
      ensures vehicles == VehiclesOn(output, shown)
    {
      vehicles := [];
      for k := 0 to |output|
        invariant vehicles == VehiclesOn(output[..k], shown[..k])
      {
        assert output[..k + 1][..k] == output[..k] && shown[..k + 1][..k] == shown[..k];
        if output[k].0.Vehicle() { vehicles := vehicles + [(shown[k], output[k].0.box)]; }
      }
      assert output[..|output|] == output && shown[..|shown|] == shown;
    }

    /** The tracker puts every identifier on screen at most once. */
    lemma OutputIds(output: seq<(Detection, nat)>)
      requires tracker.Valid() && |output| == |tracker.trackedStracks|
      requires forall k :: 0 <= k < |output| ==> output[k].1 == tracker.trackedStracks[k].id
      ensures forall k :: 0 <= k < |output| ==> output[k].1 in tracker.Alive()
      ensures forall j, k :: 0 <= j < k < |output| ==> output[j].1 != output[k].1
    {
      forall k | 0 <= k < |output| ensures output[k].1 in tracker.Alive() {
        IdAt(tracker.trackedStracks, k);
      }
      forall j, k | 0 <= j < k < |output| ensures output[j].1 != output[k].1 {
        IdsDiffer(tracker.trackedStracks, j, k);
      }
    }

    lemma ShownOnce(output: seq<(Detection, nat)>, shown: seq<nat>, inUse: set<nat>)
      requires Holds(inUse) && |shown| == |output|
      requires forall k :: 0 <= k < |output| ==> output[k].1 in inUse
      requires forall j, k :: 0 <= j < k < |output| ==> output[j].1 != output[k].1
      requires forall k :: 0 <= k < |output| ==>
                 shown[k] == if output[k].0.Vehicle() then Canonical(alias, output[k].1) else output[k].1
      ensures NoRepeats(shown)
    {
    }
  }

  lemma GoneIsNotAlive(alias: map<nat, nat>, pending: set<nat>, alive: set<nat>, count: nat,
                       alive1: set<nat>, count1: nat, gone: seq<nat>)
    requires FrameStep(alive, count, alive1, count1, gone) && Issued(alias, pending, alive, count)
    ensures NoRepeats(gone) && SetOf(gone) !! alive1
  {
  }

  lemma NothingReleased(alive: set<nat>, ids: seq<nat>)
    ensures SetOf(ids[..0]) == {} && alive + SetOf(ids[|ids|..]) == alive
  {
    assert SetOf(ids[|ids|..]) == {};
  }

  lemma NextToRelease(alive: set<nat>, ids: seq<nat>, i: nat)
    requires i < |ids| && NoRepeats(ids) && SetOf(ids) !! alive
    ensures ids[i] in SetOf(ids[i..]) && ids[i] !in alive
    ensures ids[i] !in SetOf(ids[..i]) && SetOf(ids[..i + 1]) == SetOf(ids[..i]) + {ids[i]}
    ensures alive + SetOf(ids[i..]) - {ids[i]} == alive + SetOf(ids[i + 1..])
  {
    assert ids[i] in ids && ids[..i + 1] == ids[..i] + [ids[i]];
    var rest := ids[i + 1..];
    assert ids[i..] == [ids[i]] + rest;
    forall r | r in rest ensures r != ids[i] {
      var k :| 0 <= k < |rest| && rest[k] == r;
      assert ids[i + 1 + k] == r;
    }
  }
}
