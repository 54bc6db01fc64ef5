/** Appearance re-identification: live fingerprints and a gallery of recently lost ones. What the
    embedding network returns is an arbitrary input. */
module ReId {
  import opened Options
  import opened Boxes

  type Embedding = seq<real>

  datatype Fingerprint = Fingerprint(emb: Option<Embedding>, center: Point, frames: nat)

  datatype LostPrint = LostPrint(emb: Embedding, center: Point, t: real)

  type Gallery = map<nat, LostPrint>

  function Dot(a: Embedding, b: Embedding): real {
    if a == [] || b == [] then 0.0 else a[0] * b[0] + Dot(a[1..], b[1..])
  }

  function Scale(v: Embedding, k: real): Embedding {
    if v == [] then [] else [v[0] * k] + Scale(v[1..], k)
  }

  /** Seven parts of the old embedding to three of the new one. */
  function Mix(old_: Embedding, new_: Embedding): Embedding {
    if old_ == [] || new_ == [] then [] else [0.7 * old_[0] + 0.3 * new_[0]] + Mix(old_[1..], new_[1..])
  }

  /** The mix at unit length; `root` is the library's square root. */
  function Blend(root: real -> real, old_: Embedding, new_: Embedding): Embedding {
    var mixed := Mix(old_, new_);
    var norm := root(Dot(mixed, mixed));
    if norm > 0.0 then Scale(mixed, 1.0 / norm) else new_
  }

  /** The dot product is the sum of the products, part by part. */
  lemma {:induction false} DotJoins(a: Embedding, b: Embedding, x: real, y: real)
    requires |a| == |b|
    ensures Dot([], []) == 0.0 && Dot(a + [x], b + [y]) == Dot(a, b) + x * y
  {
    if a == [] {
      assert a + [x] == [x] && b + [y] == [y];
      assert [x][1..] == [] && [y][1..] == [];
    } else {
      DotJoins(a[1..], b[1..], x, y);
      assert (a + [x])[1..] == a[1..] + [x] && (b + [y])[1..] == b[1..] + [y];
    }
  }

  lemma {:induction false} DotMixed(a: Embedding, b: Embedding, c: Embedding)
    requires |a| == |b| == |c|
    ensures Dot(Mix(a, b), c) == 0.7 * Dot(a, c) + 0.3 * Dot(b, c)
  {
    if a != [] {
      DotMixed(a[1..], b[1..], c[1..]);
      assert Mix(a, b)[1..] == Mix(a[1..], b[1..]);
      assert (0.7 * a[0] + 0.3 * b[0]) * c[0] == 0.7 * (a[0] * c[0]) + 0.3 * (b[0] * c[0]);
    }
  }

  lemma {:induction false} DotScaledOnce(v: Embedding, k: real, c: Embedding)
    ensures Dot(Scale(v, k), c) == k * Dot(v, c)
  {
    if v != [] && c != [] {
      DotScaledOnce(v[1..], k, c[1..]);
      assert Scale(v, k)[1..] == Scale(v[1..], k);
      ProductOfSum(v[0], k, c[0], Dot(v[1..], c[1..]));
    }
  }

  lemma ProductOfSum(x: real, k: real, y: real, rest: real)
    ensures (x * k) * y + k * rest == k * (x * y + rest)
  {
  }

  /** How similar a blended fingerprint is to any other: seven parts as the old one and three as the new
      one, over the length of the mix. */
  lemma BlendSimilarity(root: real -> real, old_: Embedding, new_: Embedding, other: Embedding)
    requires |old_| == |new_| == |other|
    ensures var norm := root(Dot(Mix(old_, new_), Mix(old_, new_)));
            norm > 0.0 ==>
              Dot(Blend(root, old_, new_), other) == (1.0 / norm) * (0.7 * Dot(old_, other) + 0.3 * Dot(new_, other))
  {
    hide Dot, Mix, Scale;
    var norm := root(Dot(Mix(old_, new_), Mix(old_, new_)));
    DotMixed(old_, new_, other);
    if norm > 0.0 {
      DotScaledOnce(Mix(old_, new_), 1.0 / norm, other);
    }
  }

  lemma {:induction false} DotScaled(v: Embedding, k: real)
    ensures Dot(Scale(v, k), Scale(v, k)) == k * k * Dot(v, v)
  {
    if v != [] {
      DotScaled(v[1..], k);
      assert Scale(v, k)[1..] == Scale(v[1..], k);
      SquareOfProduct(v[0], k, Dot(v[1..], v[1..]));
    }
  }

  lemma SquareOfProduct(x: real, k: real, rest: real)
    ensures (x * k) * (x * k) + k * k * rest == k * k * (x * x + rest)
  {
  }

  /** Blending keeps fingerprints at unit length, so that similarities stay comparable. */
  lemma BlendIsUnit(root: real -> real, old_: Embedding, new_: Embedding)
    requires var d := Dot(Mix(old_, new_), Mix(old_, new_)); 0.0 <= root(d) && root(d) * root(d) == d
    ensures Dot(Mix(old_, new_), Mix(old_, new_)) != 0.0 || Dot(new_, new_) == 1.0 ==>
              Dot(Blend(root, old_, new_), Blend(root, old_, new_)) == 1.0
  {
    var mixed := Mix(old_, new_);
    var norm := root(Dot(mixed, mixed));
    if norm > 0.0 {
      DotScaled(mixed, 1.0 / norm);
      assert (1.0 / norm) * norm == 1.0;
      assert 1.0 / norm * (1.0 / norm) * (norm * norm) == ((1.0 / norm) * norm) * ((1.0 / norm) * norm);
    }
  }

  /** Within a quarter of the frame diagonal. */
  predicate Near(a: Point, b: Point, diagonal: real) {
    var dx, dy, r := a.x - b.x, a.y - b.y, diagonal / 4.0;
    dx * dx + dy * dy <= r * r
  }

  function Fresh(gallery: Gallery, t: real, ttl: real): Gallery {
    map k | k in gallery && t - gallery[k].t <= ttl :: gallery[k]
  }

  function Plausible(gallery: Gallery, center: Point, diagonal: real): set<nat> {
    set k | k in gallery && Near(center, gallery[k].center, diagonal)
  }

  /** The order in which the scored candidates are sorted: by similarity, then identifier. */
  predicate Beats(gallery: Gallery, emb: Embedding, k: nat, j: nat)
    requires k in gallery && j in gallery
  {
    var a, b := Dot(emb, gallery[k].emb), Dot(emb, gallery[j].emb);
    a > b || (a == b && k > j)
  }

  /** `k` is accepted: a plausible candidate above the threshold, ahead of every other by the margin,
      and ahead of zero by the margin when there is no other. */
  ghost predicate ClearWinner(gallery: Gallery, candidates: set<nat>, emb: Embedding, simThresh: real, margin: real,
                              k: nat)
    requires candidates <= gallery.Keys
  {
    && k in candidates
    && Dot(emb, gallery[k].emb) >= simThresh
    && (forall j :: j in candidates && j != k ==>
          Beats(gallery, emb, k, j) && Dot(emb, gallery[k].emb) - Dot(emb, gallery[j].emb) >= margin)
    && (candidates == {k} ==> Dot(emb, gallery[k].emb) >= margin)
  }

  /** A fingerprint that can be considered: lost for no longer than `ttl`, and its place within a quarter
      of the frame diagonal. */
  predicate Considered(lost: LostPrint, center: Point, t: real, ttl: real, diagonal: real) {
    var dx, dy := lost.center.x - center.x, lost.center.y - center.y;
    t - lost.t <= ttl && 16.0 * (dx * dx + dy * dy) <= diagonal * diagonal
  }

  /** Looking at the gallery loses exactly the fingerprints older than `ttl` and the one taken. */
  predicate Expires(before: Gallery, after: Gallery, t: real, ttl: real, taken: Option<nat>) {
    && (forall k :: k in before ==> (k in after <==> before[k].t + ttl >= t && taken != Some(k)))
    && (forall k :: k in after ==> k in before && after[k] == before[k])
  }

  /** Who wins, in terms of the whole gallery: the expired and the far away neither win nor compete. */
  lemma ClearWinnerExactly(gallery: Gallery, center: Point, t: real, ttl: real, diagonal: real, emb: Embedding,
                           simThresh: real, margin: real, k: nat)
    ensures var pruned := Fresh(gallery, t, ttl);
            ClearWinner(pruned, Plausible(pruned, center, diagonal), emb, simThresh, margin, k) <==>
              && k in gallery && Considered(gallery[k], center, t, ttl, diagonal)
              && Dot(emb, gallery[k].emb) >= simThresh
              && (forall j :: j in gallery && j != k && Considered(gallery[j], center, t, ttl, diagonal) ==>
                    && Dot(emb, gallery[k].emb) - Dot(emb, gallery[j].emb) >= margin
                    && (Dot(emb, gallery[k].emb) > Dot(emb, gallery[j].emb)
                        || (Dot(emb, gallery[k].emb) == Dot(emb, gallery[j].emb) && k > j)))
              && ((forall j :: j in gallery && j != k ==> !Considered(gallery[j], center, t, ttl, diagonal)) ==>
                    Dot(emb, gallery[k].emb) >= margin)
  {
    hide Dot, Near, Considered;
    var pruned := Fresh(gallery, t, ttl);
    var candidates := Plausible(pruned, center, diagonal);
    forall j ensures j in candidates <==> j in gallery && Considered(gallery[j], center, t, ttl, diagonal) {
      if j in gallery {
        NearExactly(gallery[j], center, t, ttl, diagonal);
      }
    }
  }

  lemma NearExactly(lost: LostPrint, center: Point, t: real, ttl: real, diagonal: real)
    ensures Considered(lost, center, t, ttl, diagonal) <==>
              t - lost.t <= ttl && Near(center, lost.center, diagonal)
  {
    var dx, dy := lost.center.x - center.x, lost.center.y - center.y;
    assert (-dx) * (-dx) == dx * dx && (-dy) * (-dy) == dy * dy;
    assert 16.0 * ((diagonal / 4.0) * (diagonal / 4.0)) == diagonal * diagonal;
  }

  /** A finite set of candidates has a best one. */
  lemma {:induction false} BestExists(gallery: Gallery, candidates: set<nat>, emb: Embedding) returns (best: nat)
    requires candidates != {} && candidates <= gallery.Keys
    ensures best in candidates
    ensures forall j :: j in candidates && j != best ==> Beats(gallery, emb, best, j)
    decreases candidates
  {
    hide Dot;
    var first :| first in candidates;
    var rest := candidates - {first};
    best := first;
    if rest != {} {
      var other := BestExists(gallery, rest, emb);
      best := if Beats(gallery, emb, first, other) then first else other;
      assert forall j :: j in rest && j != other ==> Beats(gallery, emb, other, j);
    }
    assert forall j :: j in candidates ==> j == first || j in rest;
  }

  lemma {:induction false} OldestExists(gallery: Gallery, keys: set<nat>) returns (oldest: nat)
    requires keys != {} && keys <= gallery.Keys
    ensures oldest in keys && forall k :: k in keys ==> gallery[oldest].t <= gallery[k].t
    decreases keys
  {
    var first :| first in keys;
    var rest := keys - {first};
    oldest := first;
    if rest != {} {
      var other := OldestExists(gallery, rest);
      oldest := if gallery[other].t < gallery[first].t then other else first;
    }
    assert forall j :: j in keys ==> j == first || j in rest;
  }

  class DeepReID {
    const ttl: real
    const simThresh: real
    const margin: real
    const updateEvery: nat
    const maxGallery: nat
    /** The library's square root. */
    const root: real -> real

    var live: map<nat, Fingerprint>
    var gallery: Gallery

    constructor (ttl: real, simThresh: real, margin: real, updateEvery: nat, maxGallery: nat, root: real -> real)
      requires 0 < updateEvery
      ensures live == map[] && gallery == map[]
      ensures this.ttl == ttl && this.simThresh == simThresh && this.margin == margin
      ensures this.updateEvery == updateEvery && this.maxGallery == maxGallery
      ensures this.root == root
    {
      this.ttl, this.simThresh, this.margin := ttl, simThresh, margin;
      this.updateEvery, this.maxGallery, this.root := updateEvery, maxGallery, root;
      live, gallery := map[], map[];
    }

    /** Refresh a live fingerprint: not before the third sighting, then every `updateEvery` frames.
        `emb` is what the network returns. */
    method NoteSeen(tid: nat, emb: Option<Embedding>, center: Point)
      requires 0 < updateEvery
      modifies `live
      ensures live.Keys == old(live).Keys + {tid}
      ensures forall k :: k in old(live) && k != tid ==> live[k] == old(live)[k]
      ensures var before := if tid in old(live) then old(live)[tid] else Fingerprint(None, center, 0);
              var frames := before.frames + 1;
              var due := 3 <= frames && (before.emb.None? || frames % updateEvery == 0);
              live[tid] == Fingerprint(
                if !due || emb.None? then before.emb
                else if before.emb.None? then emb
                else Some(Blend(root, before.emb.value, emb.value)),
                center, frames)
    {
      var st := if tid in live then live[tid] else Fingerprint(None, center, 0);
      st := st.(center := center, frames := st.frames + 1);
      live := live[tid := st];
      if st.frames < 3 { return; }
      if st.emb.Some? && st.frames % updateEvery != 0 { return; }
      if emb.None? { return; }
      st := st.(emb := if st.emb.None? then emb else Some(Blend(root, st.emb.value, emb.value)));
      live := live[tid := st];
    }

    /** Drop the oldest fingerprints until the gallery is within its limit. */
    method EvictOldest()
      modifies `gallery
      ensures gallery.Keys <= old(gallery).Keys
      ensures forall k :: k in gallery ==> gallery[k] == old(gallery)[k]
      ensures forall gone, kept :: gone in old(gallery) && gone !in gallery && kept in gallery
                ==> old(gallery)[gone].t <= gallery[kept].t
      ensures |gallery| <= maxGallery
      ensures |old(gallery)| <= maxGallery ==> gallery == old(gallery)
    {
      while |gallery| > maxGallery
        invariant gallery.Keys <= old(gallery).Keys
        invariant forall k :: k in gallery ==> gallery[k] == old(gallery)[k]
        invariant forall gone, kept :: gone in old(gallery) && gone !in gallery && kept in gallery
                    ==> old(gallery)[gone].t <= gallery[kept].t
        invariant |old(gallery)| <= maxGallery ==> gallery == old(gallery)
        decreases |gallery|
      {
        ghost var some := OldestExists(gallery, gallery.Keys);
        var oldest :| oldest in gallery && forall k :: k in gallery ==> gallery[oldest].t <= gallery[k].t;
        assert (gallery - {oldest}).Keys == gallery.Keys - {oldest};
        gallery := gallery - {oldest};
      }
    }

    /** Move a lost track's fingerprint, if it has one, to the gallery. */
    method NoteLost(tid: nat, t: real)
      modifies `live, `gallery
      ensures live == old(live) - {tid}
      ensures gallery.Keys <= old(gallery).Keys + {tid}
      ensures var seen := if tid in old(live) then old(live)[tid] else Fingerprint(None, Point(0.0, 0.0), 0);
              if seen.emb.None? then gallery == old(gallery)
              else
                var full := old(gallery)[tid := LostPrint(seen.emb.value, seen.center, t)];
                && |gallery| <= maxGallery
                && (|full| <= maxGallery ==> gallery == full)
                && (forall k :: k in gallery ==> gallery[k] == full[k])
                && (forall gone, kept :: gone in full && gone !in gallery && kept in gallery
                      ==> full[gone].t <= gallery[kept].t)
    {
      if tid !in live { return; }
      var st := live[tid];
      live := live - {tid};
      if st.emb.None? { return; }
      gallery := gallery[tid := LostPrint(st.emb.value, st.center, t)];
      EvictOldest();
    }

    /** Match a new track against the gallery. A hit consumes the old fingerprint; there is a hit
        exactly when some unexpired, plausible candidate is a clear winner. */
    method Recover(emb: Option<Embedding>, center: Point, t: real, diagonal: real) returns (r: Option<nat>)
      requires 0.0 <= diagonal
      modifies `live, `gallery
      ensures var pruned := Fresh(old(gallery), t, ttl);
              && gallery == (if r.Some? then pruned - {r.value} else pruned)
              && live == (if r.Some? then old(live)[r.value := Fingerprint(emb, center, 1)] else old(live))
              && (r.Some? ==> r.value in pruned)
              && Expires(old(gallery), gallery, t, ttl, r)
              && (r.Some? ==> Considered(old(gallery)[r.value], center, t, ttl, diagonal))
              && (emb.None? ==> r.None?)
              && (emb.Some? ==> forall k: nat :: r == Some(k) <==>
                    ClearWinner(pruned, Plausible(pruned, center, diagonal), emb.value, simThresh, margin, k))
    {
      gallery := Fresh(gallery, t, ttl);
      if gallery == map[] || emb.None? { return None; }
      var candidates := Plausible(gallery, center, diagonal);
      forall k | k in candidates ensures Considered(old(gallery)[k], center, t, ttl, diagonal) {
        NearExactly(gallery[k], center, t, ttl, diagonal);
      }
      var accepted := Judge(candidates, emb.value);
      if accepted.Some? {
        gallery := gallery - {accepted.value};
        live := live[accepted.value := Fingerprint(emb, center, 1)];
      }
      return accepted;
    }

    /** The first of the sorted candidates, if it passes the threshold and leads by the margin. */
    method Judge(candidates: set<nat>, emb: Embedding) returns (r: Option<nat>)
      requires candidates <= gallery.Keys
      ensures forall k: nat :: r == Some(k) <==> ClearWinner(gallery, candidates, emb, simThresh, margin, k)
    {
      hide Dot;
      if candidates == {} { return None; }
      ghost var some := BestExists(gallery, candidates, emb);
      var best :| best in candidates && forall j :: j in candidates && j != best ==> Beats(gallery, emb, best, j);
      var second := Second(candidates, best, emb);
      var sim := Dot(emb, gallery[best].emb);
      r := if sim < simThresh || sim - second < margin then None else Some(best);
      OnlyBestWins(gallery, candidates, emb, simThresh, margin, best);
    }

    /** The runner-up's similarity, zero without one. */
    method Second(candidates: set<nat>, best: nat, emb: Embedding) returns (sim: real)
      requires candidates <= gallery.Keys && best in candidates
      ensures forall j :: j in candidates && j != best ==> Dot(emb, gallery[j].emb) <= sim
      ensures if candidates == {best} then sim == 0.0
              else exists j :: j in candidates && j != best && Dot(emb, gallery[j].emb) == sim
    {
      hide Dot;
      var others := candidates - {best};
      if others == {} {
        assert candidates == {best};
        return 0.0;
      }
      ghost var some := BestExists(gallery, others, emb);
      var next :| next in others && forall j :: j in others && j != next ==> Beats(gallery, emb, next, j);
      sim := Dot(emb, gallery[next].emb);
      forall j | j in candidates && j != best ensures Dot(emb, gallery[j].emb) <= sim {
        assert j in others;
        assert j == next || Beats(gallery, emb, next, j);
      }
    }

    method Remove(tid: nat)
      modifies `live, `gallery
      ensures live == old(live) - {tid} && gallery == old(gallery) - {tid}
    {
      live := live - {tid};
      gallery := gallery - {tid};
    }
  }

  /** Only the first of the sorted candidates can be a clear winner, so there is at most one. */
  lemma OnlyBestWins(gallery: Gallery, candidates: set<nat>, emb: Embedding, simThresh: real, margin: real, best: nat)
    requires candidates <= gallery.Keys && best in candidates
    requires forall j :: j in candidates && j != best ==> Beats(gallery, emb, best, j)
    ensures forall k :: ClearWinner(gallery, candidates, emb, simThresh, margin, k) ==> k == best
  {
    hide Dot;
  }
}
