/** Geometric primitives of the quadtree: points, axis-aligned rectangles and the
    rectangle/rectangle, rectangle/circle and point/circle tests (QuadTree.ts:1-72).
    Coordinates are mathematical reals. */
module Geometry {

  datatype Point = Point(x: real, y: real)

  function Abs(v: real): (r: real)
    ensures r >= 0.0 && (r == v || r == -v)
  {
    if v < 0.0 then -v else v
  }

  /** The box with corners (x1, y1) and (x2, y2). Corners are taken as given and
      never normalised, so a box with x1 > x2 or y1 > y2 contains no point. */
  datatype Rectangle = Rectangle(x1: real, y1: real, x2: real, y2: real)
  {
    predicate WellFormed()
    {
      x1 <= x2 && y1 <= y2
    }

    /** Inclusive on all four edges. */
    predicate ContainsPoint(p: Point)
    {
      if p.x >= x1 && p.x <= x2 && p.y >= y1 && p.y <= y2 then true else false
    }

    predicate IntersectsWithRect(other: Rectangle)
    {
      RectanglesIntersect(x1, y1, x2, y2, other.x1, other.y1, other.x2, other.y2)
    }

    predicate IntersectsWithCircle(cx: real, cy: real, cr: real)
    {
      RectangleIntersectsCircle(this, cx, cy, cr)
    }
  }

  /** Two boxes intersect unless one lies strictly to one side of the other. */
  predicate RectanglesIntersect(minAx: real, minAy: real, maxAx: real, maxAy: real,
                                minBx: real, minBy: real, maxBx: real, maxBy: real)
  {
    var aLeftOfB := maxAx < minBx;
    var aRightOfB := minAx > maxBx;
    var aAboveB := minAy > maxBy;
    var aBelowB := maxAy < minBy;
    !(aLeftOfB || aRightOfB || aAboveB || aBelowB)
  }

  /** Box/circle test through the box's centre and half-extents. */
  predicate RectangleIntersectsCircle(rect: Rectangle, cx: real, cy: real, cr: real)
  {
    var midX := rect.x1 + (rect.x2 - rect.x1) / 2.0;
    var midY := rect.y1 + (rect.y2 - rect.y1) / 2.0;
    var width := rect.x2 - rect.x1;
    var height := rect.y2 - rect.y1;
    var distX := Abs(cx - midX);
    var distY := Abs(cy - midY);
    if distX > width / 2.0 + cr then false
    else if distY > height / 2.0 + cr then false
    else if distX <= width / 2.0 then true
    else if distY <= height / 2.0 then true
    else
      var dx := distX - width / 2.0;
      var dy := distY - height / 2.0;
      dx * dx + dy * dy <= cr * cr
  }

  /** Squared distance from (x, y) to the centre is at most rad * rad. */
  predicate PointInCircle(circleX: real, circleY: real, rad: real, x: real, y: real)
  {
    if (x - circleX) * (x - circleX) + (y - circleY) * (y - circleY) <= rad * rad then true else false
  }

  // ---------------------------------------------------------------------------
  // Containment

  /** A box that contains some point is well formed. */
  lemma ContainsPointImpliesWellFormed(r: Rectangle, p: Point)
    requires r.ContainsPoint(p)
    ensures r.WellFormed()
  {
  }

  /** Every edge is inclusive: a well-formed box contains its four corners. */
  lemma CornersAreContained(r: Rectangle)
    requires r.WellFormed()
    ensures r.ContainsPoint(Point(r.x1, r.y1)) && r.ContainsPoint(Point(r.x2, r.y1))
    ensures r.ContainsPoint(Point(r.x1, r.y2)) && r.ContainsPoint(Point(r.x2, r.y2))
  {
  }

  /** A zero-area box contains exactly the one point it degenerates to. */
  lemma DegenerateRectangleContainsOnlyItsCorner(r: Rectangle, p: Point)
    requires r.x1 == r.x2 && r.y1 == r.y2
    ensures r.ContainsPoint(p) <==> p == Point(r.x1, r.y1)
  {
  }

  // ---------------------------------------------------------------------------
  // Rectangle / rectangle

  lemma IntersectsWithRectSymmetric(a: Rectangle, b: Rectangle)
    ensures a.IntersectsWithRect(b) <==> b.IntersectsWithRect(a)
  {
  }

  /** Pruning by the rectangle test is sound: a point common to both boxes makes
      the test succeed. */
  lemma RectPruningSound(a: Rectangle, b: Rectangle, p: Point)
    requires a.ContainsPoint(p) && b.ContainsPoint(p)
    ensures a.IntersectsWithRect(b)
  {
  }

  /** For well-formed boxes the test is exact: it succeeds iff the boxes share a
      point. Boxes that touch only along an edge or at a corner share that point. */
  lemma RectanglesIntersectIffCommonPoint(a: Rectangle, b: Rectangle)
    requires a.WellFormed() && b.WellFormed()
    ensures a.IntersectsWithRect(b) <==> exists p :: a.ContainsPoint(p) && b.ContainsPoint(p)
  {
    if a.IntersectsWithRect(b) {
      var w := Point(if a.x1 < b.x1 then b.x1 else a.x1, if a.y1 < b.y1 then b.y1 else a.y1);
      assert a.ContainsPoint(w) && b.ContainsPoint(w);
    }
  }

  /** The edge rule: boxes that meet only along an edge, or only at a corner, with
      b to the right of or below a, intersect. */
  lemma EdgeTouchingRectanglesIntersect(a: Rectangle, b: Rectangle)
    requires a.WellFormed() && b.WellFormed()
    requires a.x2 == b.x1 || a.y2 == b.y1
    requires a.x1 <= b.x2 && b.x1 <= a.x2 && a.y1 <= b.y2 && b.y1 <= a.y2
    ensures a.IntersectsWithRect(b) && b.IntersectsWithRect(a)
  {
  }

  // ---------------------------------------------------------------------------
  // Rectangle / circle

  lemma SquareOfAbs(v: real)
    ensures Abs(v) * Abs(v) == v * v
  {
  }

  lemma SquareNonNegative(v: real)
    ensures v * v >= 0.0
  {
    if v < 0.0 {
      assert v * v == (-v) * (-v);
    }
  }

  lemma SquareMonotone(a: real, b: real)
    requires 0.0 <= a <= b
    ensures a * a <= b * b
  {
    assert a * a <= a * b;
    assert a * b <= b * b;
  }

  lemma ProductPositive(u: real, v: real)
    requires u > 0.0 && v > 0.0
    ensures u * v > 0.0
  {
  }

  lemma RootMonotone(a: real, b: real)
    requires 0.0 <= a && 0.0 <= b && a * a <= b * b
    ensures a <= b
  {
    if a > b {
      ProductPositive(a - b, a + b);
    }
  }

  /** Pruning by the circle test is sound for a non-negative radius: a point of the
      box that lies in the circle makes the test succeed. */
  lemma CirclePruningSound(rect: Rectangle, cx: real, cy: real, cr: real, p: Point)
    requires cr >= 0.0
    requires rect.ContainsPoint(p) && PointInCircle(cx, cy, cr, p.x, p.y)
    ensures rect.IntersectsWithCircle(cx, cy, cr)
  {
    var ax, ay := Abs(p.x - cx), Abs(p.y - cy);
    SquareOfAbs(p.x - cx);
    SquareOfAbs(p.y - cy);
    SquareNonNegative(ax);
    SquareNonNegative(ay);
    RootMonotone(ax, cr);
    RootMonotone(ay, cr);
    var hw, hh := (rect.x2 - rect.x1) / 2.0, (rect.y2 - rect.y1) / 2.0;
    var distX := Abs(cx - (rect.x1 + (rect.x2 - rect.x1) / 2.0));
    var distY := Abs(cy - (rect.y1 + (rect.y2 - rect.y1) / 2.0));
    assert distX <= ax + hw;
    assert distY <= ay + hh;
    if distX > hw && distY > hh {
      SquareMonotone(distX - hw, ax);
      SquareMonotone(distY - hh, ay);
    }
  }

  function Clamp(v: real, lo: real, hi: real): (r: real)
    requires lo <= hi
    ensures lo <= r <= hi
    ensures lo <= v <= hi ==> r == v
  {
    if v < lo then lo else if v > hi then hi else v
  }

  /** Whenever the circle test succeeds on a well-formed box, the point of the box
      closest to the centre lies in the circle (this holds for every radius). */
  lemma CircleTestHasWitness(rect: Rectangle, cx: real, cy: real, cr: real)
    requires rect.WellFormed() && rect.IntersectsWithCircle(cx, cy, cr)
    ensures exists p :: rect.ContainsPoint(p) && PointInCircle(cx, cy, cr, p.x, p.y)
  {
    var hw, hh := (rect.x2 - rect.x1) / 2.0, (rect.y2 - rect.y1) / 2.0;
    var distX := Abs(cx - (rect.x1 + (rect.x2 - rect.x1) / 2.0));
    var distY := Abs(cy - (rect.y1 + (rect.y2 - rect.y1) / 2.0));
    var q := Point(Clamp(cx, rect.x1, rect.x2), Clamp(cy, rect.y1, rect.y2));
    var ex, ey := Abs(q.x - cx), Abs(q.y - cy);
    assert ex == if distX <= hw then 0.0 else distX - hw;
    assert ey == if distY <= hh then 0.0 else distY - hh;
    SquareOfAbs(q.x - cx);
    SquareOfAbs(q.y - cy);
    if distX <= hw {
      if ey > 0.0 {
        SquareMonotone(ey, cr);
      } else {
        SquareNonNegative(cr);
      }
    } else if distY <= hh {
      if ex > 0.0 {
        SquareMonotone(ex, cr);
      } else {
        SquareNonNegative(cr);
      }
    }
    assert rect.ContainsPoint(q) && PointInCircle(cx, cy, cr, q.x, q.y);
  }

  /** For a well-formed box and a non-negative radius the circle test is exact: it
      succeeds iff the box and the disc share a point. */
  lemma RectangleIntersectsCircleIffCommonPoint(rect: Rectangle, cx: real, cy: real, cr: real)
    requires rect.WellFormed() && cr >= 0.0
    ensures rect.IntersectsWithCircle(cx, cy, cr) <==>
            exists p :: rect.ContainsPoint(p) && PointInCircle(cx, cy, cr, p.x, p.y)
  {
    if rect.IntersectsWithCircle(cx, cy, cr) {
      CircleTestHasWitness(rect, cx, cy, cr);
    } else if p :| rect.ContainsPoint(p) && PointInCircle(cx, cy, cr, p.x, p.y) {
      CirclePruningSound(rect, cx, cy, cr, p);
    }
  }
}
