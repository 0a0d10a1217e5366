/** The raw per-slot signal of one evaluated frame (core_ai/detector.py, lines 73-83):
    a slot is seen as occupied when the centre of some detected box lies inside or
    on the edge of its polygon. */
module Signal {
  import opened Geometry

  /** A detected bounding box in pixel coordinates. The confidence and class the
      detector also returns are not used by the slot test. */
  datatype Box = Box(xmin: nat, ymin: nat, xmax: nat, ymax: nat)

  /** The box centre, truncated to integers as `int((a + b) / 2)` does for
      non-negative coordinates. */
  function Centre(b: Box): (c: Point)
    ensures 2 * c.x <= b.xmin + b.xmax < 2 * c.x + 2
    ensures 2 * c.y <= b.ymin + b.ymax < 2 * c.y + 2
    ensures b.xmin <= b.xmax ==> b.xmin <= c.x <= b.xmax
    ensures b.ymin <= b.ymax ==> b.ymin <= c.y <= b.ymax
  {
    Point((b.xmin + b.xmax) / 2, (b.ymin + b.ymax) / 2)
  }

  predicate CentreInside(poly: Polygon, b: Box) {
    InsideOrOnEdge(poly, Centre(b))
  }

  /** The detections are tried in order and the first match decides. */
  function AnyInside(poly: Polygon, detections: seq<Box>): (r: bool)
    ensures !r ==> forall k :: 0 <= k < |detections| ==> !CentreInside(poly, detections[k])
    decreases |detections|
  {
    detections != [] && (CentreInside(poly, detections[0]) || AnyInside(poly, detections[1..]))
  }

  /** The slot is occupied iff at least one detection's centre passes the inclusive test. */
  lemma {:induction false} AnyInsideIff(poly: Polygon, detections: seq<Box>)
    ensures AnyInside(poly, detections) <==> exists k :: 0 <= k < |detections| && CentreInside(poly, detections[k])
    decreases |detections|
  {
    if detections != [] {
      AnyInsideIff(poly, detections[1..]);
      if !CentreInside(poly, detections[0]) && exists k :: 0 <= k < |detections| && CentreInside(poly, detections[k]) {
        var k :| 0 <= k < |detections| && CentreInside(poly, detections[k]);
        assert detections[1..][k - 1] == detections[k];
      }
    }
  }

  /** Neither the order of the detections nor repeated detections change the signal. */
  lemma OrderAndDuplicatesIrrelevant(poly: Polygon, d1: seq<Box>, d2: seq<Box>)
    requires forall b :: b in d1 <==> b in d2
    ensures AnyInside(poly, d1) == AnyInside(poly, d2)
  {
    AnyInsideIff(poly, d1);
    AnyInsideIff(poly, d2);
    if AnyInside(poly, d1) {
      var k :| 0 <= k < |d1| && CentreInside(poly, d1[k]);
      assert d1[k] in d2;
    }
    if AnyInside(poly, d2) {
      var k :| 0 <= k < |d2| && CentreInside(poly, d2[k]);
      assert d2[k] in d1;
    }
  }

  /** The inner loop for one slot: scan the detections and stop at the first
      whose centre is inside or on the edge of the polygon. */
  method SlotSignal(poly: Polygon, detections: seq<Box>) returns (occupied: bool)
    ensures occupied == AnyInside(poly, detections)
    ensures occupied <==> exists k :: 0 <= k < |detections| && CentreInside(poly, detections[k])
  {
    occupied := false;
    var k := 0;
    while k < |detections|
      invariant 0 <= k <= |detections|
      invariant !occupied
      invariant forall j :: 0 <= j < k ==> !CentreInside(poly, detections[j])
    {
      var c := Centre(detections[k]);
      if PointPolygonTest(poly, c) >= 0 {
        occupied := true;
        break;
      }
      k := k + 1;
    }
    AnyInsideIff(poly, detections);
  }
}
