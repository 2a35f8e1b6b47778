/** Coordinates and bounding boxes (src/model/Coordinate.ts, src/model/BoundingBox.ts).
    All numbers are modelled as `real`; floating-point rounding is not modelled. */
module Geometry {

  /** A point `{x, y}`; the same record also carries a pair of scale factors. */
  datatype Coordinate = Coordinate(x: real, y: real)

  /** An axis-aligned box: its top-left corner and its extents. */
  datatype Aabb = Aabb(x: real, y: real, width: real, height: real)

  /** An oriented box: centre, extents and a rotation in degrees. */
  datatype Obb = Obb(center: Coordinate, width: real, height: real, rotation: real)

  /** `aabbIntersects`: the boxes overlap on both axes, with strict comparisons,
      so boxes that only touch along an edge do not intersect. Boxes can only intersect
      when, on each axis, their extents add up to a positive length. */
  predicate AabbIntersects(a: Aabb, b: Aabb)
    ensures AabbIntersects(a, b) ==> a.width + b.width > 0.0 && a.height + b.height > 0.0
  {
    var xIntersect := a.x < b.x + b.width && a.x + a.width > b.x;
    var yIntersect := a.y < b.y + b.height && a.y + a.height > b.y;
    xIntersect && yIntersect
  }

  /** `p` lies in the open interior of `b`. */
  predicate StrictlyInside(b: Aabb, p: Coordinate) {
    b.x < p.x < b.x + b.width && b.y < p.y < b.y + b.height
  }

  /** Reference definition of overlap: the two open boxes share a point. */
  ghost predicate ShareInteriorPoint(a: Aabb, b: Aabb) {
    exists p: Coordinate :: StrictlyInside(a, p) && StrictlyInside(b, p)
  }

  predicate HasPositiveExtent(b: Aabb) {
    b.width > 0.0 && b.height > 0.0
  }

  /** `p` lies in the open interval (lo, hi). */
  predicate Between(lo: real, p: real, hi: real) {
    lo < p < hi
  }

  /** The open intervals (lo1, hi1) and (lo2, hi2), both non-empty, share a point
      exactly when each starts before the other ends. */
  lemma OpenIntervalsOverlap(lo1: real, hi1: real, lo2: real, hi2: real)
    requires lo1 < hi1 && lo2 < hi2
    ensures (lo1 < hi2 && lo2 < hi1) <==> exists p :: Between(lo1, p, hi1) && Between(lo2, p, hi2)
  {
    if lo1 < hi2 && lo2 < hi1 {
      var lo := if lo1 < lo2 then lo2 else lo1;
      var hi := if hi1 < hi2 then hi1 else hi2;
      var p := (lo + hi) / 2.0;
      assert Between(lo1, p, hi1) && Between(lo2, p, hi2);
    }
  }

  /** A shared interior point always makes `aabbIntersects` true, whatever the extents. */
  lemma SharedPointIntersects(a: Aabb, b: Aabb, p: Coordinate)
    requires StrictlyInside(a, p) && StrictlyInside(b, p)
    ensures AabbIntersects(a, b) && AabbIntersects(b, a)
  {
  }

  /** For boxes of positive extent, `aabbIntersects` is exactly "the open x-intervals
      overlap and the open y-intervals overlap", i.e. the open boxes share a point. */
  lemma IntersectsIffShareInteriorPoint(a: Aabb, b: Aabb)
    requires HasPositiveExtent(a) && HasPositiveExtent(b)
    ensures AabbIntersects(a, b) <==> ShareInteriorPoint(a, b)
  {
    OpenIntervalsOverlap(a.x, a.x + a.width, b.x, b.x + b.width);
    OpenIntervalsOverlap(a.y, a.y + a.height, b.y, b.y + b.height);
    if AabbIntersects(a, b) {
      var px :| Between(a.x, px, a.x + a.width) && Between(b.x, px, b.x + b.width);
      var py :| Between(a.y, py, a.y + a.height) && Between(b.y, py, b.y + b.height);
      assert StrictlyInside(a, Coordinate(px, py)) && StrictlyInside(b, Coordinate(px, py));
    }
    if ShareInteriorPoint(a, b) {
      var p :| StrictlyInside(a, p) && StrictlyInside(b, p);
      SharedPointIntersects(a, b, p);
    }
  }

  /** `aabbIntersects` does not depend on the order of its arguments. */
  lemma IntersectsSymmetric(a: Aabb, b: Aabb)
    ensures AabbIntersects(a, b) == AabbIntersects(b, a)
  {
  }

  /** Boxes that meet only along a vertical or a horizontal edge do not intersect. */
  lemma TouchingBoxesDoNotIntersect(a: Aabb, b: Aabb)
    requires a.x + a.width == b.x || b.x + b.width == a.x
          || a.y + a.height == b.y || b.y + b.height == a.y
    ensures !AabbIntersects(a, b)
  {
  }

  /** A box intersects itself exactly when both of its extents are positive; in
      particular a box of zero width or zero height never intersects itself. */
  lemma SelfIntersection(a: Aabb)
    ensures AabbIntersects(a, a) <==> HasPositiveExtent(a)
  {
  }

  /** Quadrant `k` of `b`, in the order top-left, top-right, bottom-left, bottom-right:
      a box of half the width and half the height, offset by 0 or by one half-extent.
      What the four quadrants mean together is stated by `QuadrantsCoverOverlap`. */
  function Quadrant(b: Aabb, k: nat): (q: Aabb)
    requires k < 4
    ensures q.width == b.width / 2.0 && q.height == b.height / 2.0
    ensures q.x == (if k == 0 || k == 2 then b.x else b.x + b.width / 2.0)
    ensures q.y == (if k < 2 then b.y else b.y + b.height / 2.0)
  {
    var halfWidth := b.width / 2.0;
    var halfHeight := b.height / 2.0;
    var dx := if k % 2 == 0 then 0.0 else halfWidth;
    var dy := if k / 2 == 0 then 0.0 else halfHeight;
    Aabb(b.x + dx, b.y + dy, halfWidth, halfHeight)
  }

  /** One axis of `QuadrantsCoverOverlap`: if the item's interval (lo, lo + w) has positive
      length and overlaps the parent's interval (a, a + aw), it overlaps one of the halves. */
  lemma HalfOverlap(a: real, aw: real, lo: real, w: real)
    requires w > 0.0
    requires a < lo + w && a + aw > lo
    ensures (a < lo + w && a + aw / 2.0 > lo) || (a + aw / 2.0 < lo + w && a + aw / 2.0 + aw / 2.0 > lo)
  {
  }

  /** An item box of positive extent that intersects a region intersects at least one of
      the region's four quadrants, so splitting a region never strands such an item. */
  lemma QuadrantsCoverOverlap(region: Aabb, item: Aabb) returns (k: nat)
    requires HasPositiveExtent(item) && AabbIntersects(region, item)
    ensures k < 4 && AabbIntersects(Quadrant(region, k), item)
  {
    HalfOverlap(region.x, region.width, item.x, item.width);
    HalfOverlap(region.y, region.height, item.y, item.height);
    var col := if region.x + region.width / 2.0 > item.x then 0 else 1;
    var row := if region.y + region.height / 2.0 > item.y then 0 else 1;
    k := 2 * row + col;
  }

  /** Without positive extent the previous fact fails: a zero-width item lying exactly on
      the vertical midline intersects the region and none of its quadrants. */
  lemma MidlineItemMissesAllQuadrants()
    ensures var region := Aabb(0.0, 0.0, 2.0, 2.0);
            var item := Aabb(1.0, 0.0, 0.0, 2.0);
            AabbIntersects(region, item)
            && forall k: nat :: k < 4 ==> !AabbIntersects(Quadrant(region, k), item)
  {
  }

  /** `w` lies inside the closed box `b`. */
  predicate Within(w: Aabb, b: Aabb) {
    b.x <= w.x && w.x + w.width <= b.x + b.width &&
    b.y <= w.y && w.y + w.height <= b.y + b.height
  }

  function Max(a: real, b: real): real {
    if a < b then b else a
  }

  function Min(a: real, b: real): real {
    if a < b then a else b
  }

  /** The overlap of two boxes: a box of positive extent inside both when they intersect
      and each has positive extent. */
  function Meet(a: Aabb, b: Aabb): (m: Aabb)
    ensures HasPositiveExtent(a) && HasPositiveExtent(b) && AabbIntersects(a, b) ==>
              HasPositiveExtent(m) && Within(m, a) && Within(m, b)
  {
    var x := Max(a.x, b.x);
    var y := Max(a.y, b.y);
    Aabb(x, y, Min(a.x + a.width, b.x + b.width) - x, Min(a.y + a.height, b.y + b.height) - y)
  }

  /** Two boxes that both contain a box of positive extent intersect. */
  lemma WithinBothIntersect(w: Aabb, a: Aabb, b: Aabb)
    requires HasPositiveExtent(w) && Within(w, a) && Within(w, b)
    ensures AabbIntersects(a, b)
  {
  }

  lemma WithinTransitive(u: Aabb, w: Aabb, b: Aabb)
    requires Within(u, w) && Within(w, b)
    ensures Within(u, b)
  {
  }
}
