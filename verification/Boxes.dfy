/** Boxes, centres and overlap, over exact reals. */
module Boxes {
  import opened Reals

  datatype Point = Point(x: real, y: real)

  datatype Box = Box(x1: real, y1: real, x2: real, y2: real) {
    function Center(): Point {
      Point((x1 + x2) / 2.0, (y1 + y2) / 2.0)
    }

    function Area(): real {
      Times(x2 - x1, y2 - y1)
    }

    predicate Proper() {
      x1 < x2 && y1 < y2
    }

    function Moved(dx: real, dy: real): Box {
      Box(x1 + dx, y1 + dy, x2 + dx, y2 + dy)
    }

    /** The point lies strictly inside the box. */
    predicate Inside(p: Point) {
      x1 < p.x < x2 && y1 < p.y < y2
    }
  }

  datatype Detection = Detection(box: Box, confidence: real, classId: int) {
    predicate Vehicle() {
      classId in {1, 2, 3, 5, 7}
    }
  }

  /** The square of a distance. */
  function Norm2(dx: real, dy: real): real {
    Times(dx, dx) + Times(dy, dy)
  }

  function Max(a: real, b: real): real {
    if a < b then b else a
  }

  function Min(a: real, b: real): real {
    if b < a then b else a
  }

  function Ratio(inter: real, area1: real, area2: real): real {
    var union := area1 + area2 - inter;
    if union > 0.0 then inter / union else 0.0
  }

  /** Length of the overlap of two intervals, not positive when they do not overlap. */
  function Overlap(a1: real, a2: real, b1: real, b2: real): real {
    Min(a2, b2) - Max(a1, b1)
  }

  /** Intersection over union as the tracker computes it. */
  function Iou(a: Box, b: Box): real {
    var w, h := Overlap(a.x1, a.x2, b.x1, b.x2), Overlap(a.y1, a.y2, b.y1, b.y2);
    if w <= 0.0 || h <= 0.0 then 0.0 else Ratio(Times(w, h), a.Area(), b.Area())
  }

  /** Intersection over union as the detector computes it. */
  function IouClamped(a: Box, b: Box): real {
    var w, h := Overlap(a.x1, a.x2, b.x1, b.x2), Overlap(a.y1, a.y2, b.y1, b.y2);
    Ratio(Times(Max(0.0, w), Max(0.0, h)), a.Area(), b.Area())
  }

  lemma TimesGrows(a: real, b: real, c: real, d: real)
    requires 0.0 <= a <= c && 0.0 <= b <= d
    ensures 0.0 <= Times(a, b) <= Times(c, d)
  {
    assert a * b <= c * b;
    assert c * b <= c * d;
  }

  lemma RatioBounds(inter: real, area1: real, area2: real)
    requires 0.0 <= inter <= area1 && inter <= area2
    ensures 0.0 <= Ratio(inter, area1, area2) <= 1.0
  {
    var d := area1 + area2 - inter;
    if d > 0.0 {
      var q := inter / d;
      assert q * d == inter;
      assert q < 0.0 ==> q * d < 0.0;
      assert q > 1.0 ==> q * d > d;
    }
  }

  lemma RatioSymmetric(inter: real, area1: real, area2: real)
    ensures Ratio(inter, area1, area2) == Ratio(inter, area2, area1)
  {
  }

  lemma OverlapWithin(a1: real, a2: real, b1: real, b2: real)
    ensures Overlap(a1, a2, b1, b2) <= a2 - a1 && Overlap(a1, a2, b1, b2) <= b2 - b1
    ensures Overlap(a1, a2, b1, b2) == Overlap(b1, b2, a1, a2)
  {
  }

  lemma IouWhenOverlapping(a: Box, b: Box, w: real, h: real)
    requires w == Overlap(a.x1, a.x2, b.x1, b.x2) && h == Overlap(a.y1, a.y2, b.y1, b.y2)
    ensures 0.0 < w && 0.0 < h ==>
              && Iou(a, b) == Ratio(Times(w, h), a.Area(), b.Area())
              && 0.0 <= Times(w, h) <= a.Area() && Times(w, h) <= b.Area()
    ensures !(0.0 < w && 0.0 < h) ==> Iou(a, b) == 0.0
  {
    hide Ratio, Times;
    OverlapWithin(a.x1, a.x2, b.x1, b.x2);
    OverlapWithin(a.y1, a.y2, b.y1, b.y2);
    if 0.0 < w && 0.0 < h {
      TimesGrows(w, h, a.x2 - a.x1, a.y2 - a.y1);
      TimesGrows(w, h, b.x2 - b.x1, b.y2 - b.y1);
    }
  }

  /** Overlap is symmetric and lies between 0 and 1, also for degenerate boxes. */
  lemma IouBounds(a: Box, b: Box)
    ensures 0.0 <= Iou(a, b) <= 1.0
    ensures Iou(a, b) == Iou(b, a)
  {
    hide Iou, Ratio, Times;
    var w, h := Overlap(a.x1, a.x2, b.x1, b.x2), Overlap(a.y1, a.y2, b.y1, b.y2);
    IouWhenOverlapping(a, b, w, h);
    IouWhenOverlapping(b, a, w, h);
    if 0.0 < w && 0.0 < h {
      RatioSymmetric(Times(w, h), a.Area(), b.Area());
      RatioBounds(Times(w, h), a.Area(), b.Area());
    }
  }

  /** The two services' formulas are the same function. */
  lemma IouFormulasAgree(a: Box, b: Box)
    ensures Iou(a, b) == IouClamped(a, b)
  {
    var w, h := Overlap(a.x1, a.x2, b.x1, b.x2), Overlap(a.y1, a.y2, b.y1, b.y2);
    if w <= 0.0 || h <= 0.0 {
      assert Times(Max(0.0, w), Max(0.0, h)) == 0.0;
      assert Ratio(0.0, a.Area(), b.Area()) == 0.0;
    }
  }

  /** Moving both boxes alike leaves their overlap as it was. */
  lemma IouMoved(a: Box, b: Box, dx: real, dy: real)
    ensures Iou(a.Moved(dx, dy), b.Moved(dx, dy)) == Iou(a, b)
  {
    hide Ratio, Times;
    assert Overlap(a.x1 + dx, a.x2 + dx, b.x1 + dx, b.x2 + dx) == Overlap(a.x1, a.x2, b.x1, b.x2);
    assert Overlap(a.y1 + dy, a.y2 + dy, b.y1 + dy, b.y2 + dy) == Overlap(a.y1, a.y2, b.y1, b.y2);
  }

  /** Two boxes overlap exactly when some point lies strictly inside both. */
  lemma IouPositiveExactly(a: Box, b: Box)
    requires a.Proper() && b.Proper()
    ensures Iou(a, b) > 0.0 <==> exists p: Point :: a.Inside(p) && b.Inside(p)
  {
    hide Iou, Ratio, Times;
    var w, h := Overlap(a.x1, a.x2, b.x1, b.x2), Overlap(a.y1, a.y2, b.y1, b.y2);
    IouWhenOverlapping(a, b, w, h);
    if 0.0 < w && 0.0 < h {
      var p := Point(Max(a.x1, b.x1) + w / 2.0, Max(a.y1, b.y1) + h / 2.0);
      assert a.Inside(p) && b.Inside(p);
      TimesPositive(w, h);
      RatioPositive(Times(w, h), a.Area(), b.Area());
    }
  }

  lemma TimesPositive(a: real, b: real)
    requires 0.0 < a && 0.0 < b
    ensures 0.0 < Times(a, b)
  {
  }

  lemma RatioPositive(inter: real, area1: real, area2: real)
    requires 0.0 < inter <= area1 && inter <= area2
    ensures 0.0 < Ratio(inter, area1, area2)
  {
    var d := area1 + area2 - inter;
    var q := inter / d;
    assert q * d == inter;
    assert q <= 0.0 ==> q * d <= 0.0;
  }

  /** A box inside another covers its share of the larger one; so a box overlaps itself by exactly 1. */
  lemma IouNested(a: Box, b: Box)
    requires a.Proper() && b.x1 <= a.x1 && a.x2 <= b.x2 && b.y1 <= a.y1 && a.y2 <= b.y2
    ensures 0.0 < a.Area() <= b.Area() && Iou(a, b) == a.Area() / b.Area()
    ensures a == b ==> Iou(a, b) == 1.0
  {
    hide Times;
    TimesPositive(a.x2 - a.x1, a.y2 - a.y1);
    TimesGrows(a.x2 - a.x1, a.y2 - a.y1, b.x2 - b.x1, b.y2 - b.y1);
    Same(a.Area());
  }

  lemma Same(x: real)
    requires 0.0 < x
    ensures x / x == 1.0
  {
  }

  function Abs(x: real): real {
    if x < 0.0 then -x else x
  }

  /** A box and the same box moved: what they share is what the step leaves of width and height. */
  lemma IouAfterStep(b: Box, dx: real, dy: real)
    requires b.Proper()
    ensures var w, h := b.x2 - b.x1 - Abs(dx), b.y2 - b.y1 - Abs(dy);
            && 0.0 < b.Area()
            && (w <= 0.0 || h <= 0.0 ==> Iou(b, b.Moved(dx, dy)) == 0.0)
            && (0.0 < w && 0.0 < h ==>
                  && Times(w, h) <= b.Area()
                  && Iou(b, b.Moved(dx, dy)) == Times(w, h) / (2.0 * b.Area() - Times(w, h)))
  {
    hide Times;
    var w, h := b.x2 - b.x1 - Abs(dx), b.y2 - b.y1 - Abs(dy);
    TimesPositive(b.x2 - b.x1, b.y2 - b.y1);
    assert Overlap(b.x1, b.x2, b.x1 + dx, b.x2 + dx) == w;
    assert Overlap(b.y1, b.y2, b.y1 + dy, b.y2 + dy) == h;
    assert b.Moved(dx, dy).Area() == b.Area();
    if 0.0 < w && 0.0 < h {
      TimesGrows(w, h, b.x2 - b.x1, b.y2 - b.y1);
    }
  }
}
