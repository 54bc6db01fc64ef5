/** Suppression of duplicate boxes: greedy, highest confidence first, within a group. */
module Detections {
  import opened Boxes
  import opened Sorting

  /** Two boxes of one group on the same object. Persons and vehicles never clash. */
  predicate Clashes(a: Detection, b: Detection) {
    a.Vehicle() == b.Vehicle() && IouClamped(a.box, b.box) > 0.55
  }

  function Confidence(): Detection -> real {
    (d: Detection) => d.confidence
  }

  predicate Duplicates(d: Detection, kept: seq<Detection>) {
    exists i :: 0 <= i < |kept| && Clashes(d, kept[i])
  }

  /** What is kept when `rest` is still to be judged. */
  function Keep(kept: seq<Detection>, rest: seq<Detection>): seq<Detection>
    decreases |rest|
  {
    if rest == [] then kept
    else if Duplicates(rest[0], kept) then Keep(kept, rest[1..])
    else Keep(kept + [rest[0]], rest[1..])
  }

  function Dedup(raw: seq<Detection>): seq<Detection> {
    Keep([], SortDescending(Confidence(), raw))
  }

  method DedupLoop(raw: seq<Detection>) returns (kept: seq<Detection>)
    ensures kept == Dedup(raw)
  {
    var sorted := SortDescending(Confidence(), raw);
    kept := [];
    for i := 0 to |sorted|
      invariant Keep(kept, sorted[i..]) == Dedup(raw)
    {
      var duplicate := false;
      for j := 0 to |kept|
        invariant duplicate == Duplicates(sorted[i], kept[..j])
      {
        assert kept[..j + 1] == kept[..j] + [kept[j]];
        duplicate := duplicate || Clashes(sorted[i], kept[j]);
      }
      assert kept[..|kept|] == kept;
      assert sorted[i..][1..] == sorted[i + 1..];
      if !duplicate {
        kept := kept + [sorted[i]];
      }
    }
  }

  /** No two boxes are on the same object. */
  predicate Apart(s: seq<Detection>) {
    forall i, j :: 0 <= i < |s| && 0 <= j < |s| && i != j ==> !Clashes(s[i], s[j])
  }

  /** Some box of `s`, at least as confident, is on the same object as `d`. */
  predicate Dominated(d: Detection, s: seq<Detection>) {
    exists k :: k in s && Clashes(d, k) && k.confidence >= d.confidence
  }

  lemma ClashIsSymmetric(a: Detection, b: Detection)
    ensures Clashes(a, b) == Clashes(b, a)
  {
    IouFormulasAgree(a.box, b.box);
    IouFormulasAgree(b.box, a.box);
    IouBounds(a.box, b.box);
  }

  lemma AddKeepsApart(kept: seq<Detection>, d: Detection)
    requires Apart(kept) && !Duplicates(d, kept)
    ensures Apart(kept + [d])
  {
    forall i, j | 0 <= i <= |kept| && 0 <= j <= |kept| && i != j
      ensures !Clashes((kept + [d])[i], (kept + [d])[j])
    {
      ClashIsSymmetric((kept + [d])[i], (kept + [d])[j]);
    }
  }

  lemma {:induction false} KeepIsApart(kept: seq<Detection>, rest: seq<Detection>)
    requires Apart(kept)
    ensures Apart(Keep(kept, rest))
    decreases |rest|
  {
    if rest != [] {
      if Duplicates(rest[0], kept) {
        KeepIsApart(kept, rest[1..]);
      } else {
        AddKeepsApart(kept, rest[0]);
        KeepIsApart(kept + [rest[0]], rest[1..]);
      }
    }
  }

  /** Every box in `kept` is at least as confident as every box in `rest`. */
  predicate Above(kept: seq<Detection>, rest: seq<Detection>) {
    forall i, j :: 0 <= i < |kept| && 0 <= j < |rest| ==> kept[i].confidence >= rest[j].confidence
  }

  /** An occurrence of `d` that is dropped leaves a box that dominates it, and none is made up. */
  lemma {:induction false} KeepAccounts(kept: seq<Detection>, rest: seq<Detection>, d: Detection)
    requires Descending(Confidence(), rest) && Above(kept, rest)
    ensures kept <= Keep(kept, rest)
    ensures multiset(Keep(kept, rest))[d] <= multiset(kept)[d] + multiset(rest)[d]
    ensures multiset(Keep(kept, rest))[d] < multiset(kept)[d] + multiset(rest)[d] ==> Dominated(d, Keep(kept, rest))
    decreases |rest|
  {
    if rest != [] {
      assert rest == [rest[0]] + rest[1..];
      var next := if Duplicates(rest[0], kept) then kept else kept + [rest[0]];
      KeepAccounts(next, rest[1..], d);
      if next == kept && d == rest[0] {
        var i :| 0 <= i < |kept| && Clashes(d, kept[i]);
        assert Keep(kept, rest)[i] == kept[i];
      }
    }
  }

  /** Nothing is made up, no two kept boxes are on the same object, the most confident come first, and
      every box dropped, counting repetitions, is dominated by one that is kept. */
  lemma DedupKeepsTheBest(raw: seq<Detection>)
    ensures multiset(Dedup(raw)) <= multiset(raw)
    ensures Apart(Dedup(raw))
    ensures forall d :: multiset(Dedup(raw))[d] < multiset(raw)[d] ==> Dominated(d, Dedup(raw))
  {
    SortSorts(Confidence(), raw);
    KeepIsApart([], SortDescending(Confidence(), raw));
    forall d
      ensures multiset(Dedup(raw))[d] <= multiset(raw)[d]
      ensures multiset(Dedup(raw))[d] < multiset(raw)[d] ==> Dominated(d, Dedup(raw))
    {
      KeepAccounts([], SortDescending(Confidence(), raw), d);
    }
  }

  lemma {:induction false} KeepIsSorted(kept: seq<Detection>, rest: seq<Detection>)
    requires Descending(Confidence(), kept + rest)
    ensures Descending(Confidence(), Keep(kept, rest))
    decreases |rest|
  {
    if rest == [] {
      assert kept + rest == kept;
    } else if Duplicates(rest[0], kept) {
      assert forall i :: 0 <= i < |kept + rest| - 1 ==>
          (kept + rest[1..])[i] == (kept + rest)[if i < |kept| then i else i + 1];
      KeepIsSorted(kept, rest[1..]);
    } else {
      assert kept + [rest[0]] + rest[1..] == kept + rest;
      KeepIsSorted(kept + [rest[0]], rest[1..]);
    }
  }

  lemma FirstIsNotNew(kept: seq<Detection>, rest: seq<Detection>)
    requires rest != [] && Duplicates(rest[0], kept)
    ensures !Apart(kept + rest)
  {
    var i :| 0 <= i < |kept| && Clashes(rest[0], kept[i]);
    assert Clashes((kept + rest)[|kept|], (kept + rest)[i]);
  }

  lemma {:induction false} KeepKeepsApart(kept: seq<Detection>, rest: seq<Detection>)
    requires Apart(kept + rest)
    ensures Keep(kept, rest) == kept + rest
    decreases |rest|
  {
    if rest != [] {
      if Duplicates(rest[0], kept) {
        FirstIsNotNew(kept, rest);
      }
      assert kept + [rest[0]] + rest[1..] == kept + rest;
      KeepKeepsApart(kept + [rest[0]], rest[1..]);
    }
  }

  /** What is kept comes most confident first, and suppressing again changes nothing. */
  lemma DedupIsIdempotent(raw: seq<Detection>)
    ensures Descending(Confidence(), Dedup(raw))
    ensures Dedup(Dedup(raw)) == Dedup(raw)
  {
    var sorted := SortDescending(Confidence(), raw);
    var kept := Dedup(raw);
    SortSorts(Confidence(), raw);
    assert [] + sorted == sorted;
    KeepIsSorted([], sorted);
    KeepIsApart([], sorted);
    SortKeepsSorted(Confidence(), kept);
    assert [] + kept == kept;
    KeepKeepsApart([], kept);
  }

  /** Taken from `raw`, pairwise apart, and dominating everything else in `raw`. */
  ghost predicate Selects(s: seq<Detection>, raw: seq<Detection>) {
    && (forall d :: d in s ==> d in raw)
    && Apart(s)
    && forall d :: d in raw && d !in s ==> Dominated(d, s)
  }

  /** No two different boxes are equally confident. */
  predicate DistinctConfidences(s: seq<Detection>) {
    forall d, e :: d in s && e in s && d.confidence == e.confidence ==> d == e
  }

  lemma DedupSelects(raw: seq<Detection>)
    ensures Selects(Dedup(raw), raw)
  {
    DedupKeepsTheBest(raw);
    forall d | d in Dedup(raw) ensures d in raw {
      assert multiset(Dedup(raw))[d] > 0;
    }
    forall d | d in raw && d !in Dedup(raw) ensures Dominated(d, Dedup(raw)) {
      assert multiset(Dedup(raw))[d] < multiset(raw)[d];
    }
  }

  /** With no ties the specification has one answer: induction from the most confident box down. */
  lemma {:induction false} SelectionsAgree(sorted: seq<Detection>, a: seq<Detection>, b: seq<Detection>, i: nat)
    requires Descending(Confidence(), sorted) && DistinctConfidences(sorted)
    requires Selects(a, sorted) && Selects(b, sorted) && i < |sorted|
    requires sorted[i] in a
    ensures sorted[i] in b
    decreases i
  {
    var d := sorted[i];
    if d !in b {
      var k :| k in b && Clashes(d, k) && k.confidence >= d.confidence;
      var j :| 0 <= j < |sorted| && sorted[j] == k;
      assert j < i;
      SelectionsAgree(sorted, b, a, j);
    }
  }

  /** When no two different boxes are equally confident, every selection holds exactly the boxes that are kept. */
  lemma SelectionIsUnique(raw: seq<Detection>, s: seq<Detection>)
    requires DistinctConfidences(raw) && Selects(s, raw)
    ensures forall d :: d in s <==> d in Dedup(raw)
  {
    var sorted := SortDescending(Confidence(), raw);
    SortSorts(Confidence(), raw);
    assert forall d :: d in raw <==> multiset(raw)[d] > 0;
    assert forall d :: d in sorted <==> multiset(sorted)[d] > 0;
    DedupSelects(raw);
    forall d ensures d in s <==> d in Dedup(raw) {
      if d in sorted {
        var i :| 0 <= i < |sorted| && sorted[i] == d;
        if d in s {
          SelectionsAgree(sorted, s, Dedup(raw), i);
        }
        if d in Dedup(raw) {
          SelectionsAgree(sorted, Dedup(raw), s, i);
        }
      }
    }
  }

  /** The boxes of one kind, in order. */
  function OfKind(s: seq<Detection>, vehicles: bool): seq<Detection> {
    if s == [] then []
    else if s[0].Vehicle() == vehicles then [s[0]] + OfKind(s[1..], vehicles)
    else OfKind(s[1..], vehicles)
  }

  lemma OfKindFirst(d: Detection, s: seq<Detection>, vehicles: bool)
    ensures OfKind([d] + s, vehicles)
            == if d.Vehicle() == vehicles then [d] + OfKind(s, vehicles) else OfKind(s, vehicles)
    ensures OfKind([d], vehicles) == if d.Vehicle() == vehicles then [d] else []
  {
    hide Detection.Vehicle;
    assert ([d] + s)[1..] == s;
  }

  lemma Associative<T>(a: seq<T>, b: seq<T>, c: seq<T>)
    ensures a + (b + c) == (a + b) + c
  {
  }

  lemma {:induction false} OfKindJoins(a: seq<Detection>, b: seq<Detection>, vehicles: bool)
    ensures OfKind(a + b, vehicles) == OfKind(a, vehicles) + OfKind(b, vehicles)
  {
    if a == [] {
      assert a + b == b;
    } else {
      hide Detection.Vehicle, OfKind;
      OfKindJoins(a[1..], b, vehicles);
      OfKindFirst(a[0], a[1..], vehicles);
      OfKindFirst(a[0], a[1..] + b, vehicles);
      assert a == [a[0]] + a[1..] && a + b == [a[0]] + (a[1..] + b);
      Associative([a[0]], OfKind(a[1..], vehicles), OfKind(b, vehicles));
    }
  }

  lemma {:induction false} OfKindAtMost(s: seq<Detection>, vehicles: bool, bound: real)
    requires AtMost(Confidence(), s, bound)
    ensures AtMost(Confidence(), OfKind(s, vehicles), bound)
  {
    if s != [] {
      OfKindAtMost(s[1..], vehicles, bound);
    }
  }

  lemma {:induction false} OfKindInsert(x: Detection, s: seq<Detection>, vehicles: bool)
    requires Descending(Confidence(), s)
    ensures OfKind(Insert(Confidence(), x, s), vehicles)
            == if x.Vehicle() == vehicles then Insert(Confidence(), x, OfKind(s, vehicles)) else OfKind(s, vehicles)
  {
    hide Detection.Vehicle;
    if s == [] || s[0].confidence <= x.confidence {
      OfKindFirst(x, s, vehicles);
      OfKindAtMost(s, vehicles, x.confidence);
    } else {
      OfKindInsert(x, s[1..], vehicles);
      OfKindFirst(s[0], Insert(Confidence(), x, s[1..]), vehicles);
      var more := OfKind(s[1..], vehicles);
      assert ([s[0]] + more)[1..] == more;
    }
  }

  lemma {:induction false} OfKindSort(s: seq<Detection>, vehicles: bool)
    ensures OfKind(SortDescending(Confidence(), s), vehicles) == SortDescending(Confidence(), OfKind(s, vehicles))
  {
    if s != [] {
      OfKindSort(s[1..], vehicles);
      SortSorts(Confidence(), s[1..]);
      OfKindInsert(s[0], SortDescending(Confidence(), s[1..]), vehicles);
      hide Detection.Vehicle, Insert;
      assert ([s[0]] + OfKind(s[1..], vehicles))[1..] == OfKind(s[1..], vehicles);
    }
  }

  lemma {:induction false} OfKindKnows(s: seq<Detection>, vehicles: bool, d: Detection)
    ensures d in OfKind(s, vehicles) <==> d in s && d.Vehicle() == vehicles
  {
    if s != [] {
      OfKindKnows(s[1..], vehicles, d);
      assert s == [s[0]] + s[1..];
    }
  }

  lemma DuplicatesOwnKind(d: Detection, kept: seq<Detection>)
    ensures Duplicates(d, kept) <==> Duplicates(d, OfKind(kept, d.Vehicle()))
  {
    var own := OfKind(kept, d.Vehicle());
    forall k ensures k in own <==> k in kept && k.Vehicle() == d.Vehicle() {
      OfKindKnows(kept, d.Vehicle(), k);
    }
    if i :| 0 <= i < |kept| && Clashes(d, kept[i]) {
      assert kept[i] in own;
      var j :| 0 <= j < |own| && own[j] == kept[i];
      assert Clashes(d, own[j]);
    }
    if j :| 0 <= j < |own| && Clashes(d, own[j]) {
      assert own[j] in own;
      var i :| 0 <= i < |kept| && kept[i] == own[j];
      assert Clashes(d, kept[i]);
    }
  }

  lemma {:induction false} OfKindKeep(kept: seq<Detection>, rest: seq<Detection>, vehicles: bool)
    ensures OfKind(Keep(kept, rest), vehicles) == Keep(OfKind(kept, vehicles), OfKind(rest, vehicles))
    decreases |rest|
  {
    if rest != [] {
      var d := rest[0];
      var own, more := OfKind(kept, vehicles), OfKind(rest[1..], vehicles);
      DuplicatesOwnKind(d, kept);
      hide Detection.Vehicle, Duplicates;
      OfKindJoins(kept, [d], vehicles);
      OfKindFirst(d, [], vehicles);
      assert own + [] == own;
      OfKindKeep(if Duplicates(d, kept) then kept else kept + [d], rest[1..], vehicles);
      if d.Vehicle() == vehicles {
        assert ([d] + more)[1..] == more;
      }
    }
  }

  /** Persons and vehicles never suppress each other: what is kept of either kind is what would be kept
      if the other kind had not been detected at all. */
  lemma KindsAreSeparate(raw: seq<Detection>, vehicles: bool)
    ensures OfKind(Dedup(raw), vehicles) == Dedup(OfKind(raw, vehicles))
  {
    OfKindSort(raw, vehicles);
    OfKindKeep([], SortDescending(Confidence(), raw), vehicles);
  }

  /** A box that is dropped has a kept one at least as confident, with both or neither of the classes of
      a vehicle, that it overlaps by more than 0.55. */
  lemma DroppedIsDuplicate(raw: seq<Detection>, d: Detection)
    requires d in raw && d !in Dedup(raw)
    ensures exists k :: k in Dedup(raw) && k.confidence >= d.confidence && Iou(d.box, k.box) > 0.55
                        && (k.classId in {1, 2, 3, 5, 7} <==> d.classId in {1, 2, 3, 5, 7})
  {
    DedupSelects(raw);
    var k :| k in Dedup(raw) && Clashes(d, k) && k.confidence >= d.confidence;
    IouFormulasAgree(d.box, k.box);
  }
}
