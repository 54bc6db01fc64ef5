/** Greedy one-to-one association of detections with tracks by overlap. */
module Association {
  import opened Sorting

  /** Detection index and track index. */
  type Pair = (nat, nat)

  /** `m[d][t]` is the overlap of detection `d` with track `t`. */
  type Matrix = seq<seq<real>>

  predicate Shape(m: Matrix, dets: nat, trks: nat) {
    |m| == dets && forall d :: 0 <= d < dets ==> |m[d]| == trks
  }

  predicate InRange(m: Matrix, p: Pair) {
    p.0 < |m| && p.1 < |m[p.0]|
  }

  function Value(m: Matrix, p: Pair): real {
    if InRange(m, p) then m[p.0][p.1] else 0.0
  }

  predicate Touch(p: Pair, q: Pair) {
    p.0 == q.0 || p.1 == q.1
  }

  /** No detection and no track is used twice. */
  ghost predicate Matching(pairs: seq<Pair>) {
    forall j, k :: 0 <= j < k < |pairs| ==> !Touch(pairs[j], pairs[k])
  }

  /** Some chosen pair shares an endpoint with `p` and overlaps at least as much. */
  ghost predicate Blocked(m: Matrix, chosen: seq<Pair>, p: Pair) {
    exists q :: q in chosen && Touch(q, p) && Value(m, q) >= Value(m, p)
  }

  predicate Above(m: Matrix, threshold: real, p: Pair) {
    InRange(m, p) && Value(m, p) > threshold
  }

  /** A stable matching of the pairs above the threshold: only such pairs, and every such pair is
      chosen or loses to a chosen one. */
  ghost predicate Stable(m: Matrix, threshold: real, chosen: seq<Pair>) {
    && Matching(chosen)
    && (forall p :: p in chosen ==> Above(m, threshold, p))
    && (forall p: Pair :: Above(m, threshold, p) ==> Blocked(m, chosen, p))
  }

  function Dets(pairs: seq<Pair>): set<nat> {
    set p | p in pairs :: p.0
  }

  function Trks(pairs: seq<Pair>): set<nat> {
    set p | p in pairs :: p.1
  }

  /** The indices below `n` outside `used`, in order. */
  function Unused(n: nat, used: set<nat>): (r: seq<nat>)
    ensures forall i: nat :: i in r <==> i < n && i !in used
    ensures forall j, k :: 0 <= j < k < |r| ==> r[j] < r[k]
  {
    if n == 0 then []
    else
      var r := Unused(n - 1, used);
      assert forall k :: 0 <= k < |r| ==> r[k] in r;
      if n - 1 in used then r else r + [n - 1]
  }

  datatype Candidate = Candidate(score: real, pair: Pair)

  ghost predicate IsCandidate(m: Matrix, threshold: real, c: Candidate) {
    Above(m, threshold, c.pair) && c.score == Value(m, c.pair)
  }

  /** The candidates of the rows before `d`, and of row `d` the first `t`, row by row. */
  function Scan(m: Matrix, threshold: real, trks: nat, d: nat, t: nat): seq<Candidate>
    requires Shape(m, |m|, trks) && d <= |m| && t <= trks && (d == |m| ==> t == 0)
    decreases d, t
  {
    if t > 0 then
      Scan(m, threshold, trks, d, t - 1)
      + if m[d][t - 1] > threshold then [Candidate(m[d][t - 1], (d, t - 1))] else []
    else if d > 0 then
      Scan(m, threshold, trks, d - 1, trks)
    else []
  }

  /** The scan meets every candidate of the rows and columns it has been through, and nothing else. */
  lemma {:induction false} ScanFinds(m: Matrix, threshold: real, trks: nat, d: nat, t: nat)
    requires Shape(m, |m|, trks) && d <= |m| && t <= trks && (d == |m| ==> t == 0)
    ensures forall c :: c in Scan(m, threshold, trks, d, t) <==>
              IsCandidate(m, threshold, c) && (c.pair.0 < d || (c.pair.0 == d && c.pair.1 < t))
    decreases d, t
  {
    if t > 0 {
      ScanFinds(m, threshold, trks, d, t - 1);
    } else if d > 0 {
      ScanFinds(m, threshold, trks, d - 1, trks);
    }
  }

  method Candidates(m: Matrix, dets: nat, trks: nat, threshold: real) returns (matches: seq<Candidate>)
    requires Shape(m, dets, trks)
    ensures matches == Scan(m, threshold, trks, dets, 0)
  {
    matches := [];
    for d := 0 to dets
      invariant matches == Scan(m, threshold, trks, d, 0)
    {
      for t := 0 to trks
        invariant matches == Scan(m, threshold, trks, d, t)
      {
        if m[d][t] > threshold {
          matches := matches + [Candidate(m[d][t], (d, t))];
        }
      }
    }
  }

  lemma SameElements<T>(a: seq<T>, b: seq<T>)
    requires multiset(a) == multiset(b)
    ensures forall c :: c in a <==> c in b
  {
    forall c ensures c in a <==> c in b {
      assert c in a <==> c in multiset(a);
      assert c in b <==> c in multiset(b);
    }
  }

  function ByScore(): Candidate -> real {
    (c: Candidate) => c.score
  }

  /** Add to `chosen`, in order, every candidate whose detection and track are both still free. */
  function Greedy(chosen: seq<Pair>, sorted: seq<Candidate>): seq<Pair>
    decreases |sorted|
  {
    if sorted == [] then chosen
    else
      var p := sorted[0].pair;
      Greedy(if p.0 !in Dets(chosen) && p.1 !in Trks(chosen) then chosen + [p] else chosen, sorted[1..])
  }

  /** The result of the search: best overlaps first, equal ones in the order of the matrix. */
  function Chosen(m: Matrix, threshold: real, dets: nat, trks: nat): seq<Pair>
    requires Shape(m, dets, trks)
  {
    Greedy([], SortDescending(ByScore(), Scan(m, threshold, trks, dets, 0)))
  }

  lemma NothingToChoose(m: Matrix, threshold: real, dets: nat, trks: nat)
    requires Shape(m, dets, trks) && (dets == 0 || trks == 0)
    ensures Chosen(m, threshold, dets, trks) == []
  {
    if dets > 0 { EmptyRows(m, threshold, dets); }
  }

  lemma {:induction false} EmptyRows(m: Matrix, threshold: real, d: nat)
    requires Shape(m, |m|, 0) && d <= |m|
    ensures Scan(m, threshold, 0, d, 0) == []
  {
    if d > 0 { EmptyRows(m, threshold, d - 1); }
  }

  /** Best overlaps first, taking every pair whose detection and track are both still free. */
  method Associate(m: Matrix, dets: nat, trks: nat, threshold: real)
    returns (matched: seq<Pair>, unmatchedDets: seq<nat>, unmatchedTrks: seq<nat>)
    requires Shape(m, dets, trks)
    ensures matched == Chosen(m, threshold, dets, trks)
    ensures Stable(m, threshold, matched)
    ensures unmatchedDets == Unused(dets, Dets(matched))
    ensures unmatchedTrks == Unused(trks, Trks(matched))
  {
    hide Scan, Greedy, SortDescending, Stable, Descends, Blocked;
    var matches := Candidates(m, dets, trks, threshold);
    ScanFinds(m, threshold, trks, dets, 0);
    AllInRange(m, threshold);
    var sorted := SortDescending(ByScore(), matches);
    SortedCandidates(m, threshold, matches, sorted);
    matched := GreedyLoop(sorted);
    GreedyBlocks(m, threshold, [], sorted);
    GreedyIsStable(m, threshold, sorted, matched);
    unmatchedDets := Unused(dets, Dets(matched));
    unmatchedTrks := Unused(trks, Trks(matched));
  }

  lemma AllInRange(m: Matrix, threshold: real)
    ensures forall c :: IsCandidate(m, threshold, c) ==> c.pair.0 < |m|
  {
  }

  lemma SortedCandidates(m: Matrix, threshold: real, matches: seq<Candidate>, sorted: seq<Candidate>)
    requires forall c :: c in matches <==> IsCandidate(m, threshold, c)
    requires sorted == SortDescending(ByScore(), matches)
    ensures forall c :: c in sorted <==> IsCandidate(m, threshold, c)
    ensures Descends(sorted)
  {
    SortSorts(ByScore(), matches);
    SameElements(sorted, matches);
    assert forall j :: 0 <= j < |sorted| ==> ByScore()(sorted[j]) == sorted[j].score;
  }

  lemma GreedyIsStable(m: Matrix, threshold: real, sorted: seq<Candidate>, matched: seq<Pair>)
    requires forall c :: IsCandidate(m, threshold, c) ==> c in sorted
    requires Matching(matched) && forall p :: p in matched ==> Above(m, threshold, p)
    requires forall c :: c in sorted ==> Blocked(m, matched, c.pair)
    ensures Stable(m, threshold, matched)
  {
    forall p: Pair | Above(m, threshold, p) ensures Blocked(m, matched, p) {
      var c := Candidate(Value(m, p), p);
      assert IsCandidate(m, threshold, c);
    }
  }

  method GreedyLoop(sorted: seq<Candidate>) returns (matched: seq<Pair>)
    ensures matched == Greedy([], sorted)
  {
    matched := [];
    var usedDets, usedTrks := {}, {};
    for i := 0 to |sorted|
      invariant usedDets == Dets(matched) && usedTrks == Trks(matched)
      invariant Greedy(matched, sorted[i..]) == Greedy([], sorted)
    {
      var p := sorted[i].pair;
      assert sorted[i..][1..] == sorted[i + 1..];
      if p.0 !in usedDets && p.1 !in usedTrks {
        AddPair(matched, p);
        matched := matched + [p];
        usedDets := usedDets + {p.0};
        usedTrks := usedTrks + {p.1};
      }
    }
  }

  lemma AddPair(chosen: seq<Pair>, p: Pair)
    ensures Dets(chosen + [p]) == Dets(chosen) + {p.0} && Trks(chosen + [p]) == Trks(chosen) + {p.1}
    ensures Matching(chosen) && p.0 !in Dets(chosen) && p.1 !in Trks(chosen) ==> Matching(chosen + [p])
  {
    assert forall q :: q in chosen + [p] <==> q in chosen || q == p;
  }

  /** A candidate that is passed over shares an endpoint with a chosen pair. */
  lemma PassedOver(chosen: seq<Pair>, p: Pair) returns (q: Pair)
    requires p.0 in Dets(chosen) || p.1 in Trks(chosen)
    ensures q in chosen && Touch(q, p)
  {
    q :| q in chosen && Touch(q, p);
  }

  /** What is chosen already, at least as good as all that is still to come. */
  ghost predicate ChosenFirst(m: Matrix, threshold: real, chosen: seq<Pair>, sorted: seq<Candidate>) {
    && Matching(chosen)
    && (forall p :: p in chosen ==> Above(m, threshold, p))
    && (forall p, j :: p in chosen && 0 <= j < |sorted| ==> Value(m, p) >= sorted[j].score)
  }

  predicate Descends(sorted: seq<Candidate>) {
    forall j, k :: 0 <= j < k < |sorted| ==> sorted[j].score >= sorted[k].score
  }

  lemma FirstFits(m: Matrix, threshold: real, chosen: seq<Pair>, sorted: seq<Candidate>)
    requires sorted != [] && ChosenFirst(m, threshold, chosen, sorted) && Descends(sorted)
    requires IsCandidate(m, threshold, sorted[0])
    ensures ChosenFirst(m, threshold, chosen, sorted[1..]) && Descends(sorted[1..])
    ensures sorted[0].pair.0 !in Dets(chosen) && sorted[0].pair.1 !in Trks(chosen)
            ==> ChosenFirst(m, threshold, chosen + [sorted[0].pair], sorted[1..])
  {
    hide Matching;
    AddPair(chosen, sorted[0].pair);
  }

  lemma {:induction false} GreedyBlocks(m: Matrix, threshold: real, chosen: seq<Pair>, sorted: seq<Candidate>)
    requires ChosenFirst(m, threshold, chosen, sorted) && Descends(sorted)
    requires forall c :: c in sorted ==> IsCandidate(m, threshold, c)
    ensures var all := Greedy(chosen, sorted);
            && chosen <= all && Matching(all)
            && (forall p :: p in all ==> Above(m, threshold, p))
            && (forall c :: c in sorted ==> Blocked(m, all, c.pair))
    decreases |sorted|
  {
    if sorted != [] {
      var c, rest := sorted[0], sorted[1..];
      assert sorted == [c] + rest && IsCandidate(m, threshold, c);
      var fits := c.pair.0 !in Dets(chosen) && c.pair.1 !in Trks(chosen);
      var next := if fits then chosen + [c.pair] else chosen;
      FirstFits(m, threshold, chosen, sorted);
      GreedyBlocks(m, threshold, next, rest);
      var q := c.pair;
      if !fits { q := PassedOver(chosen, c.pair); }
      assert q in next && Touch(q, c.pair) && Value(m, q) >= Value(m, c.pair);
      assert q in Greedy(chosen, sorted);
    }
  }

  // ---- half of the best possible total ----

  function Total(m: Matrix, pairs: seq<Pair>): real {
    if pairs == [] then 0.0
    else Total(m, pairs[..|pairs| - 1]) + Value(m, pairs[|pairs| - 1])
  }

  function Without(pairs: seq<Pair>, i: nat): seq<Pair>
    requires i < |pairs|
  {
    pairs[..i] + pairs[i + 1..]
  }

  lemma {:induction false} TotalWithout(m: Matrix, pairs: seq<Pair>, i: nat)
    requires i < |pairs|
    ensures Total(m, pairs) == Total(m, Without(pairs, i)) + Value(m, pairs[i])
  {
    var last := |pairs| - 1;
    if i == last {
      assert Without(pairs, i) == pairs[..last];
    } else {
      var init := pairs[..last];
      TotalWithout(m, init, i);
      assert Without(pairs, i)[..last - 1] == Without(init, i);
    }
  }

  /** Pairs that share `g`'s endpoint on one side; a matching has at most one of them. */
  predicate Side(byDet: bool, p: Pair, g: Pair) {
    if byDet then p.0 == g.0 else p.1 == g.1
  }

  /** Remove from a matching the pair that `g` beats at one endpoint, if there is one. */
  lemma DropBeaten(m: Matrix, pairs: seq<Pair>, g: Pair, byDet: bool) returns (rest: seq<Pair>)
    requires Matching(pairs) && 0.0 <= Value(m, g)
    ensures Matching(rest)
    ensures Total(m, pairs) <= Total(m, rest) + Value(m, g)
    ensures forall p :: p in rest ==> p in pairs
    ensures forall p :: p in rest && Side(byDet, p, g) ==> Value(m, p) > Value(m, g)
  {
    if i :| 0 <= i < |pairs| && Side(byDet, pairs[i], g) && Value(m, pairs[i]) <= Value(m, g) {
      rest := Without(pairs, i);
      TotalWithout(m, pairs, i);
      assert forall k :: 0 <= k < |rest| ==> rest[k] == if k < i then pairs[k] else pairs[k + 1];
    } else {
      rest := pairs;
    }
  }

  /** If every pair of a matching loses to a chosen pair, the matching is worth at most twice
      what was chosen: each chosen pair beats at most one pair at each of its endpoints. */
  lemma {:induction false} TwiceChosen(m: Matrix, chosen: seq<Pair>, other: seq<Pair>)
    requires Matching(other)
    requires forall p :: p in chosen ==> 0.0 <= Value(m, p)
    requires forall p :: p in other ==> Blocked(m, chosen, p)
    ensures Total(m, other) <= 2.0 * Total(m, chosen)
    decreases |chosen|
  {
    if other == [] {
      TotalNonNegative(m, chosen);
    } else {
      assert other[0] in other;
      var last := |chosen| - 1;
      var g, init := chosen[last], chosen[..last];
      assert chosen == init + [g];
      var less := DropBeaten(m, other, g, true);
      var rest := DropBeaten(m, less, g, false);
      forall p | p in rest ensures Blocked(m, init, p) {
        assert Blocked(m, chosen, p);
        var q :| q in chosen && Touch(q, p) && Value(m, q) >= Value(m, p);
        assert Side(true, p, q) || Side(false, p, q);
        assert q in init;
      }
      TwiceChosen(m, init, rest);
    }
  }

  lemma {:induction false} TotalNonNegative(m: Matrix, pairs: seq<Pair>)
    requires forall p :: p in pairs ==> 0.0 <= Value(m, p)
    ensures 0.0 <= Total(m, pairs)
  {
    if pairs != [] {
      TotalNonNegative(m, pairs[..|pairs| - 1]);
      assert pairs[|pairs| - 1] in pairs;
    }
  }

  /** The greedy choice earns at least half the total overlap of any other matching of pairs above
      the threshold. */
  lemma GreedyIsHalfOptimal(m: Matrix, threshold: real, chosen: seq<Pair>, other: seq<Pair>)
    requires Stable(m, threshold, chosen) && Matching(other)
    requires forall p: Pair :: InRange(m, p) ==> 0.0 <= Value(m, p)
    requires forall p :: p in other ==> Above(m, threshold, p)
    ensures 2.0 * Total(m, chosen) >= Total(m, other)
  {
    TwiceChosen(m, chosen, other);
  }

  // ---- without ties there is only one stable matching ----

  ghost predicate NoTies(m: Matrix, threshold: real) {
    forall p: Pair, q: Pair :: Above(m, threshold, p) && Above(m, threshold, q) && Value(m, p) == Value(m, q)
      ==> p == q
  }

  /** The cells that overlap more than `p`. */
  ghost function Heavier(m: Matrix, p: Pair): set<Pair> {
    set d: nat, t: nat | d < |m| && t < |m[d]| && Value(m, (d, t)) > Value(m, p) :: (d, t)
  }

  lemma HeavierShrinks(m: Matrix, p: Pair, q: Pair)
    requires InRange(m, q) && Value(m, q) > Value(m, p)
    ensures |Heavier(m, q)| < |Heavier(m, p)|
  {
    var a, b := Heavier(m, q), Heavier(m, p);
    assert q in b && q !in a;
    assert a <= b;
    assert b == a + (b - a);
    assert q in b - a;
    assert |b| == |a| + |b - a|;
  }

  lemma Blocker(m: Matrix, threshold: real, chosen: seq<Pair>, p: Pair) returns (q: Pair)
    requires Stable(m, threshold, chosen) && Above(m, threshold, p)
    ensures q in chosen && Above(m, threshold, q) && Touch(q, p) && Value(m, q) >= Value(m, p)
  {
    assert Blocked(m, chosen, p);
    q :| q in chosen && Touch(q, p) && Value(m, q) >= Value(m, p);
  }

  lemma ChosenOnce(m: Matrix, threshold: real, chosen: seq<Pair>, p: Pair, q: Pair)
    requires Stable(m, threshold, chosen) && p in chosen
    ensures Above(m, threshold, p)
    ensures q in chosen && Touch(q, p) ==> q == p
  {
    if q in chosen && Touch(q, p) {
      var i :| 0 <= i < |chosen| && chosen[i] == p;
      var j :| 0 <= j < |chosen| && chosen[j] == q;
    }
  }

  /** Without ties the result does not depend on the order of the search: two stable matchings
      choose the same pairs. */
  lemma {:induction false} StableIsUnique(m: Matrix, threshold: real, a: seq<Pair>, b: seq<Pair>, p: Pair)
    requires NoTies(m, threshold)
    requires Stable(m, threshold, a) && Stable(m, threshold, b)
    requires p in a
    ensures p in b
    decreases |Heavier(m, p)|
  {
    hide Heavier, Stable, Blocked;
    ChosenOnce(m, threshold, a, p, p);
    var q := Blocker(m, threshold, b, p);
    if q != p {
      HeavierShrinks(m, p, q);
      StableIsUnique(m, threshold, b, a, q);
      ChosenOnce(m, threshold, a, p, q);
      assert false;
    }
  }
}
