/** The value of a quadtree node, as a datatype: its boundary, its own bucket and,
    once split, its four children in the order top-left, top-right, bottom-left,
    bottom-right. The functions here give the meaning of splitIntoQuads,
    insertPoint and the two range queries of QuadTree.ts:92-169; the imperative
    class in module QuadTrees is proved to follow them. */
module TreeModel {
  import opened Geometry

  datatype Tree =
    | Leaf(boundary: Rectangle, points: seq<Point>)
    | Split(boundary: Rectangle, points: seq<Point>, tl: Tree, tr: Tree, bl: Tree, br: Tree)

  // ---------------------------------------------------------------------------
  // Quadrants (QuadTree.ts:93-106)

  function Midpoint(r: Rectangle): Point
  {
    Point(r.x1 + (r.x2 - r.x1) / 2.0, r.y1 + (r.y2 - r.y1) / 2.0)
  }

  function TopLeftQuad(r: Rectangle): Rectangle
  {
    Rectangle(r.x1, r.y1, Midpoint(r).x, Midpoint(r).y)
  }

  function TopRightQuad(r: Rectangle): Rectangle
  {
    Rectangle(Midpoint(r).x, r.y1, r.x2, Midpoint(r).y)
  }

  function BottomLeftQuad(r: Rectangle): Rectangle
  {
    Rectangle(r.x1, Midpoint(r).y, Midpoint(r).x, r.y2)
  }

  function BottomRightQuad(r: Rectangle): Rectangle
  {
    Rectangle(Midpoint(r).x, Midpoint(r).y, r.x2, r.y2)
  }

  /** The quadrants by index, in the order the children are tried. */
  function Quadrant(r: Rectangle, i: nat): Rectangle
    requires i < 4
  {
    if i == 0 then TopLeftQuad(r)
    else if i == 1 then TopRightQuad(r)
    else if i == 2 then BottomLeftQuad(r)
    else BottomRightQuad(r)
  }

  /** The children of a split node by index, in the same order. */
  function Child(t: Tree, i: nat): Tree
    requires t.Split? && i < 4
  {
    if i == 0 then t.tl else if i == 1 then t.tr else if i == 2 then t.bl else t.br
  }

  /** Index of the first child, in the order TL, TR, BL, BR, whose boundary
      contains p, or 4 if none does. */
  function FirstChildContaining(t: Tree, p: Point): (i: nat)
    requires t.Split?
    ensures i <= 4
    ensures i < 4 ==> Child(t, i).boundary.ContainsPoint(p)
    ensures forall j :: 0 <= j < i && j < 4 ==> !Child(t, j).boundary.ContainsPoint(p)
  {
    if t.tl.boundary.ContainsPoint(p) then 0
    else if t.tr.boundary.ContainsPoint(p) then 1
    else if t.bl.boundary.ContainsPoint(p) then 2
    else if t.br.boundary.ContainsPoint(p) then 3
    else 4
  }

  /** A split node with child i replaced by c. */
  function WithChild(t: Tree, i: nat, c: Tree): (r: Tree)
    requires t.Split? && i < 4
    ensures r.Split? && r.boundary == t.boundary && r.points == t.points
    ensures forall j :: 0 <= j < 4 ==> Child(r, j) == if j == i then c else Child(t, j)
  {
    if i == 0 then t.(tl := c) else if i == 1 then t.(tr := c) else if i == 2 then t.(bl := c) else t.(br := c)
  }

  /** Index of the first quadrant that contains p, or 4 if none does. */
  function FirstQuadrant(r: Rectangle, p: Point): (i: nat)
    ensures i <= 4
    ensures i < 4 ==> Quadrant(r, i).ContainsPoint(p)
    ensures forall j :: 0 <= j < i && j < 4 ==> !Quadrant(r, j).ContainsPoint(p)
  {
    if TopLeftQuad(r).ContainsPoint(p) then 0
    else if TopRightQuad(r).ContainsPoint(p) then 1
    else if BottomLeftQuad(r).ContainsPoint(p) then 2
    else if BottomRightQuad(r).ContainsPoint(p) then 3
    else 4
  }

  predicate Within(inner: Rectangle, outer: Rectangle)
  {
    outer.x1 <= inner.x1 && inner.x2 <= outer.x2 && outer.y1 <= inner.y1 && inner.y2 <= outer.y2
  }

  /** The quadrants of a well-formed box are well formed, lie inside it and are each
      half as wide and half as high. */
  lemma QuadrantsWellFormedAndInside(r: Rectangle)
    requires r.WellFormed()
    ensures forall i :: 0 <= i < 4 ==> Quadrant(r, i).WellFormed() && Within(Quadrant(r, i), r)
    ensures forall i :: 0 <= i < 4 ==>
      Quadrant(r, i).x2 - Quadrant(r, i).x1 == (r.x2 - r.x1) / 2.0 &&
      Quadrant(r, i).y2 - Quadrant(r, i).y1 == (r.y2 - r.y1) / 2.0
  {
  }

  /** Every point of the parent lies in some quadrant. */
  lemma QuadrantsCover(r: Rectangle, p: Point)
    requires r.ContainsPoint(p)
    ensures FirstQuadrant(r, p) < 4
    ensures TopLeftQuad(r).ContainsPoint(p) || TopRightQuad(r).ContainsPoint(p) ||
            BottomLeftQuad(r).ContainsPoint(p) || BottomRightQuad(r).ContainsPoint(p)
  {
  }

  /** Every point of a quadrant lies in the parent (even for an inverted parent, whose
      quadrants contain nothing). */
  lemma QuadrantWithinParent(r: Rectangle, i: nat, p: Point)
    requires i < 4 && Quadrant(r, i).ContainsPoint(p)
    ensures r.ContainsPoint(p)
  {
  }

  /** Quadrants overlap only on the two split lines through the midpoint. */
  lemma QuadrantsOverlapOnlyOnSplitLines(r: Rectangle, i: nat, j: nat, p: Point)
    requires i < 4 && j < 4 && i != j
    requires Quadrant(r, i).ContainsPoint(p) && Quadrant(r, j).ContainsPoint(p)
    ensures p.x == Midpoint(r).x || p.y == Midpoint(r).y
  {
  }

  // ---------------------------------------------------------------------------
  // Stored points and the structural invariants

  /** All points stored in the subtree: the node's own bucket, then the children's. */
  function Elements(t: Tree): seq<Point>
  {
    match t
    case Leaf(_, pts) => pts
    case Split(_, pts, tl, tr, bl, br) => pts + Elements(tl) + Elements(tr) + Elements(bl) + Elements(br)
  }

  /** Every bucket point lies in its node's boundary, and every child's boundary is
      the matching quadrant of its parent's. */
  predicate Placed(t: Tree)
  {
    (forall q :: q in t.points ==> t.boundary.ContainsPoint(q)) &&
    match t
    case Leaf(_, _) => true
    case Split(b, _, tl, tr, bl, br) =>
      tl.boundary == TopLeftQuad(b) && tr.boundary == TopRightQuad(b) &&
      bl.boundary == BottomLeftQuad(b) && br.boundary == BottomRightQuad(b) &&
      Placed(tl) && Placed(tr) && Placed(bl) && Placed(br)
  }

  /** Every bucket holds at most cap points. */
  predicate Bounded(t: Tree, cap: nat)
  {
    |t.points| <= cap &&
    match t
    case Leaf(_, _) => true
    case Split(_, _, tl, tr, bl, br) => Bounded(tl, cap) && Bounded(tr, cap) && Bounded(bl, cap) && Bounded(br, cap)
  }

  /** Every split node has a full bucket: a node splits only when its bucket is full,
      and after that its bucket never changes. */
  predicate Saturated(t: Tree, cap: nat)
  {
    match t
    case Leaf(_, _) => true
    case Split(_, pts, tl, tr, bl, br) =>
      |pts| == cap && Saturated(tl, cap) && Saturated(tr, cap) && Saturated(bl, cap) && Saturated(br, cap)
  }

  /** Containment invariant: every stored point lies in the root boundary. */
  lemma {:induction false} ElementsInBoundary(t: Tree)
    requires Placed(t)
    ensures forall q :: q in Elements(t) ==> t.boundary.ContainsPoint(q)
  {
    match t
    case Leaf(_, _) =>
    case Split(b, pts, tl, tr, bl, br) =>
      ElementsInBoundary(tl);
      ElementsInBoundary(tr);
      ElementsInBoundary(bl);
      ElementsInBoundary(br);
      forall q | q in Elements(t)
        ensures b.ContainsPoint(q)
      {
        if q in Elements(tl) {
          QuadrantWithinParent(b, 0, q);
        } else if q in Elements(tr) {
          QuadrantWithinParent(b, 1, q);
        } else if q in Elements(bl) {
          QuadrantWithinParent(b, 2, q);
        } else if q in Elements(br) {
          QuadrantWithinParent(b, 3, q);
        }
      }
  }

  // ---------------------------------------------------------------------------
  // splitIntoQuads (QuadTree.ts:92-109)

  /** The node with four fresh empty children on its quadrants; its own bucket is
      kept as it is. Any children it had before are replaced. */
  function Subdivided(t: Tree): (r: Tree)
    ensures r.Split? && r.boundary == t.boundary && r.points == t.points
    ensures forall i :: 0 <= i < 4 ==> Child(r, i) == Leaf(Quadrant(t.boundary, i), [])
  {
    var b := t.boundary;
    Split(b, t.points,
          Leaf(TopLeftQuad(b), []), Leaf(TopRightQuad(b), []),
          Leaf(BottomLeftQuad(b), []), Leaf(BottomRightQuad(b), []))
  }

  /** Splitting keeps the placement and capacity invariants, and splitting an
      unsplit node loses no point. */
  lemma SubdivideKeepsInvariants(t: Tree, cap: nat)
    ensures Placed(t) ==> Placed(Subdivided(t))
    ensures Bounded(t, cap) ==> Bounded(Subdivided(t), cap)
    ensures t.Leaf? ==> Elements(Subdivided(t)) == Elements(t)
  {
    assert Elements(Subdivided(t)) == t.points + [] + [] + [] + [];
  }

  /** The stored points as a multiset, node by node. */
  function Stored(t: Tree): multiset<Point>
  {
    match t
    case Leaf(_, pts) => multiset(pts)
    case Split(_, pts, tl, tr, bl, br) => multiset(pts) + Stored(tl) + Stored(tr) + Stored(bl) + Stored(br)
  }

  /** Stored counts exactly the points Elements lists. */
  lemma {:induction false} StoredIsElements(t: Tree)
    ensures Stored(t) == multiset(Elements(t))
  {
    match t
    case Leaf(_, _) =>
    case Split(_, _, tl, tr, bl, br) =>
      StoredIsElements(tl);
      StoredIsElements(tr);
      StoredIsElements(bl);
      StoredIsElements(br);
  }

  // ---------------------------------------------------------------------------
  // insertPoint (QuadTree.ts:111-129)

  /** Number of nodes whose bucket is full: the measure that makes insertion stop. */
  function FullCount(t: Tree, cap: nat): nat
  {
    (if |t.points| >= cap then 1 else 0) +
    match t
    case Leaf(_, _) => 0
    case Split(_, _, tl, tr, bl, br) => FullCount(tl, cap) + FullCount(tr, cap) + FullCount(bl, cap) + FullCount(br, cap)
  }

  /** Splitting an unsplit node adds only empty children, so the measure stays. */
  lemma SubdivideKeepsFullCount(t: Tree, cap: nat)
    requires cap > 0 && t.Leaf?
    ensures FullCount(Subdivided(t), cap) == FullCount(t, cap)
  {
  }

  /** The children of a split node with a full bucket have a smaller measure than
      the node. */
  lemma FullNodeChildrenSmaller(t: Tree, cap: nat)
    requires t.Split? && |t.points| >= cap
    ensures forall i :: 0 <= i < 4 ==> FullCount(Child(t, i), cap) < FullCount(t, cap)
  {
  }

  /** Insert p: drop it if it is outside the boundary; otherwise append it to the
      bucket while the bucket has room; otherwise split (once) and hand p to the
      first child, in the order TL, TR, BL, BR, whose boundary contains it. */
  function Insert(t: Tree, p: Point, cap: nat): (r: Tree)
    requires cap > 0
    ensures r.boundary == t.boundary
    ensures t.Split? ==> r.Split?
    ensures |t.points| >= cap ==> r.points == t.points
    decreases FullCount(t, cap)
  {
    if !t.boundary.ContainsPoint(p) then t
    else if |t.points| < cap then t.(points := t.points + [p])
    else
      var s := if t.Split? then t else Subdivided(t);
      if s.tl.boundary.ContainsPoint(p) then s.(tl := Insert(s.tl, p, cap))
      else if s.tr.boundary.ContainsPoint(p) then s.(tr := Insert(s.tr, p, cap))
      else if s.bl.boundary.ContainsPoint(p) then s.(bl := Insert(s.bl, p, cap))
      else if s.br.boundary.ContainsPoint(p) then s.(br := Insert(s.br, p, cap))
      else s
  }

  /** A point outside the boundary leaves the node exactly as it was. */
  lemma InsertOutsideIsNoOp(t: Tree, p: Point, cap: nat)
    requires cap > 0 && !t.boundary.ContainsPoint(p)
    ensures Insert(t, p, cap) == t
  {
  }

  /** Insertion keeps every bucket inside its boundary, every bucket within capacity
      and every child on its quadrant. */
  lemma {:induction false} InsertPreservesInvariants(t: Tree, p: Point, cap: nat)
    requires cap > 0 && Placed(t) && Bounded(t, cap)
    ensures Placed(Insert(t, p, cap)) && Bounded(Insert(t, p, cap), cap)
    decreases FullCount(t, cap)
  {
    if t.boundary.ContainsPoint(p) && |t.points| >= cap {
      var s := if t.Split? then t else Subdivided(t);
      if t.Leaf? {
        SubdivideKeepsInvariants(t, cap);
      }
      if s.tl.boundary.ContainsPoint(p) {
        InsertPreservesInvariants(s.tl, p, cap);
      } else if s.tr.boundary.ContainsPoint(p) {
        InsertPreservesInvariants(s.tr, p, cap);
      } else if s.bl.boundary.ContainsPoint(p) {
        InsertPreservesInvariants(s.bl, p, cap);
      } else if s.br.boundary.ContainsPoint(p) {
        InsertPreservesInvariants(s.br, p, cap);
      }
    }
  }

  /** A split node stays split and keeps a full bucket: the pre-split bucket is never
      redistributed into the children. */
  lemma {:induction false} InsertPreservesSaturated(t: Tree, p: Point, cap: nat)
    requires cap > 0 && Saturated(t, cap) && Bounded(t, cap)
    ensures Saturated(Insert(t, p, cap), cap)
    decreases FullCount(t, cap)
  {
    if t.boundary.ContainsPoint(p) && |t.points| >= cap {
      var s := if t.Split? then t else Subdivided(t);
      if s.tl.boundary.ContainsPoint(p) {
        InsertPreservesSaturated(s.tl, p, cap);
      } else if s.tr.boundary.ContainsPoint(p) {
        InsertPreservesSaturated(s.tr, p, cap);
      } else if s.bl.boundary.ContainsPoint(p) {
        InsertPreservesSaturated(s.bl, p, cap);
      } else if s.br.boundary.ContainsPoint(p) {
        InsertPreservesSaturated(s.br, p, cap);
      }
    }
  }

  /** Nothing already stored moves: the boundary stays, a bucket only grows at its
      end, a full bucket stays exactly as it was, and every child of a split node
      is kept in the same sense by the matching new child. */
  predicate Kept(o: Tree, n: Tree, cap: nat)
  {
    n.boundary == o.boundary && o.points <= n.points &&
    (|o.points| >= cap ==> n.points == o.points) &&
    match o
    case Leaf(_, _) => true
    case Split(_, _, tl, tr, bl, br) =>
      n.Split? && Kept(tl, n.tl, cap) && Kept(tr, n.tr, cap) && Kept(bl, n.bl, cap) && Kept(br, n.br, cap)
  }

  lemma {:induction false} KeptRefl(t: Tree, cap: nat)
    ensures Kept(t, t, cap)
  {
    match t
    case Leaf(_, _) =>
    case Split(_, _, tl, tr, bl, br) =>
      KeptRefl(tl, cap);
      KeptRefl(tr, cap);
      KeptRefl(bl, cap);
      KeptRefl(br, cap);
  }

  /** Insertion never redistributes: at every depth, existing bucket contents stay
      where they are and full buckets are left untouched. */
  lemma {:induction false} InsertKeeps(t: Tree, p: Point, cap: nat)
    requires cap > 0
    ensures Kept(t, Insert(t, p, cap), cap)
    decreases FullCount(t, cap)
  {
    if t.Split? {
      KeptRefl(t.tl, cap);
      KeptRefl(t.tr, cap);
      KeptRefl(t.bl, cap);
      KeptRefl(t.br, cap);
      if t.boundary.ContainsPoint(p) && |t.points| >= cap {
        FullNodeChildrenSmaller(t, cap);
        if t.tl.boundary.ContainsPoint(p) {
          InsertKeeps(t.tl, p, cap);
        } else if t.tr.boundary.ContainsPoint(p) {
          InsertKeeps(t.tr, p, cap);
        } else if t.bl.boundary.ContainsPoint(p) {
          InsertKeeps(t.bl, p, cap);
        } else if t.br.boundary.ContainsPoint(p) {
          InsertKeeps(t.br, p, cap);
        }
      }
    }
  }

  /** An in-bounds point is stored exactly once more; an out-of-bounds point is not
      stored at all. */
  lemma InsertAddsPoint(t: Tree, p: Point, cap: nat)
    requires cap > 0 && Placed(t)
    ensures multiset(Elements(Insert(t, p, cap))) ==
            multiset(Elements(t)) + (if t.boundary.ContainsPoint(p) then multiset{p} else multiset{})
  {
    InsertStoresPoint(t, p, cap);
    StoredIsElements(t);
    StoredIsElements(Insert(t, p, cap));
  }

  /** InsertAddsPoint, counted with Stored. */
  lemma {:induction false} InsertStoresPoint(t: Tree, p: Point, cap: nat)
    requires cap > 0 && Placed(t)
    ensures Stored(Insert(t, p, cap)) == Stored(t) + (if t.boundary.ContainsPoint(p) then multiset{p} else multiset{})
    decreases FullCount(t, cap)
  {
    if t.boundary.ContainsPoint(p) && |t.points| >= cap {
      var s := if t.Split? then t else Subdivided(t);
      InsertIntoFullNode(t, p, cap);
      var k := FirstQuadrant(t.boundary, p);
      InsertStoresPoint(Child(s, k), p, cap);
      InsertIntoChild(s, k, Insert(Child(s, k), p, cap), p);
    }
  }

  /** The shape of an insertion into a node with a full bucket: split if needed,
      then update the first child whose quadrant contains p. */
  lemma InsertIntoFullNode(t: Tree, p: Point, cap: nat)
    requires cap > 0 && Placed(t) && t.boundary.ContainsPoint(p) && |t.points| >= cap
    ensures var s := if t.Split? then t else Subdivided(t);
      var k := FirstQuadrant(t.boundary, p);
      k < 4 && Child(s, k).boundary == Quadrant(t.boundary, k) &&
      Insert(t, p, cap) == WithChild(s, k, Insert(Child(s, k), p, cap))
    ensures var s := if t.Split? then t else Subdivided(t);
      var k := FirstQuadrant(t.boundary, p);
      k < 4 && Placed(Child(s, k)) && Stored(s) == Stored(t) &&
      FullCount(Child(s, k), cap) < FullCount(t, cap)
  {
    QuadrantsCover(t.boundary, p);
    var s := if t.Split? then t else Subdivided(t);
    if t.Leaf? {
      SubdivideKeepsInvariants(t, cap);
      SubdivideKeepsFullCount(t, cap);
    }
    FullNodeChildrenSmaller(s, cap);
  }

  /** Once the bucket is full, inserting splits the node if needed and hands p to
      the first child whose boundary contains it; no child contains it, nothing
      more happens. */
  lemma InsertFullNodeStep(t: Tree, p: Point, cap: nat)
    requires cap > 0 && t.boundary.ContainsPoint(p) && |t.points| >= cap
    ensures var s := if t.Split? then t else Subdivided(t);
      var k := FirstChildContaining(s, p);
      Insert(t, p, cap) == if k < 4 then WithChild(s, k, Insert(Child(s, k), p, cap)) else s
  {
  }

  /** Replacing child k by a subtree with one more copy of p adds one copy of p. */
  lemma InsertIntoChild(s: Tree, k: nat, c: Tree, p: Point)
    requires s.Split? && k < 4
    requires Stored(c) == Stored(Child(s, k)) + multiset{p}
    ensures Stored(WithChild(s, k, c)) == Stored(s) + multiset{p}
  {
    var r := WithChild(s, k, c);
    assert Stored(r) == multiset(s.points) + Stored(Child(r, 0)) + Stored(Child(r, 1)) + Stored(Child(r, 2)) + Stored(Child(r, 3));
    assert Stored(s) == multiset(s.points) + Stored(Child(s, 0)) + Stored(Child(s, 1)) + Stored(Child(s, 2)) + Stored(Child(s, 3));
  }

  /** Routing: once the bucket is full, the bucket and boundary stay as they are, the
      node is split, and p goes into the subtree of the first quadrant (TL, TR, BL,
      BR) that contains it; the other three subtrees keep their points. */
  lemma InsertRoutesToFirstQuadrant(t: Tree, p: Point, cap: nat)
    requires cap > 0 && Placed(t) && t.boundary.ContainsPoint(p) && |t.points| >= cap
    ensures var r := Insert(t, p, cap);
      r.Split? && r.boundary == t.boundary && r.points == t.points &&
      FirstQuadrant(t.boundary, p) < 4 &&
      forall i :: 0 <= i < 4 ==>
        Stored(Child(r, i)) ==
          (if t.Split? then Stored(Child(t, i)) else multiset{}) +
          (if i == FirstQuadrant(t.boundary, p) then multiset{p} else multiset{})
  {
    var s := if t.Split? then t else Subdivided(t);
    if t.Leaf? {
      SubdivideKeepsInvariants(t, cap);
    }
    InsertIntoFullNode(t, p, cap);
    var k := FirstQuadrant(t.boundary, p);
    assert Placed(Child(s, k));
    InsertStoresPoint(Child(s, k), p, cap);
  }

  // ---------------------------------------------------------------------------
  // Range queries (QuadTree.ts:131-169)

  /** The points of s that rect contains, in order. */
  function PointsInRectangle(s: seq<Point>, rect: Rectangle): (r: seq<Point>)
    ensures |r| <= |s|
    ensures forall q :: q in r ==> q in s && rect.ContainsPoint(q)
  {
    if s == [] then []
    else PointsInRectangle(s[..|s| - 1], rect) + (if rect.ContainsPoint(s[|s| - 1]) then [s[|s| - 1]] else [])
  }

  /** The points of s inside the circle of radius rad around c, in order. */
  function PointsInCircle(s: seq<Point>, c: Point, rad: real): (r: seq<Point>)
    ensures |r| <= |s|
    ensures forall q :: q in r ==> q in s && PointInCircle(c.x, c.y, rad, q.x, q.y)
  {
    if s == [] then []
    else
      var last := s[|s| - 1];
      PointsInCircle(s[..|s| - 1], c, rad) + (if PointInCircle(c.x, c.y, rad, last.x, last.y) then [last] else [])
  }

  lemma {:induction false} PointsInRectangleConcat(s: seq<Point>, u: seq<Point>, rect: Rectangle)
    ensures PointsInRectangle(s + u, rect) == PointsInRectangle(s, rect) + PointsInRectangle(u, rect)
    decreases |u|
  {
    if u == [] {
      assert s + u == s;
    } else {
      var u' := u[..|u| - 1];
      assert (s + u)[..|s + u| - 1] == s + u';
      PointsInRectangleConcat(s, u', rect);
    }
  }

  lemma {:induction false} PointsInCircleConcat(s: seq<Point>, u: seq<Point>, c: Point, rad: real)
    ensures PointsInCircle(s + u, c, rad) == PointsInCircle(s, c, rad) + PointsInCircle(u, c, rad)
    decreases |u|
  {
    if u == [] {
      assert s + u == s;
    } else {
      var u' := u[..|u| - 1];
      assert (s + u)[..|s + u| - 1] == s + u';
      PointsInCircleConcat(s, u', c, rad);
    }
  }

  /** Each filter keeps every point of s that it accepts. */
  lemma {:induction false} PointsInRectangleComplete(s: seq<Point>, rect: Rectangle, q: Point)
    requires q in s && rect.ContainsPoint(q)
    ensures q in PointsInRectangle(s, rect)
    decreases |s|
  {
    if s[|s| - 1] != q {
      assert q in s[..|s| - 1] by {
        var k :| 0 <= k < |s| && s[k] == q;
        assert s[..|s| - 1][k] == q;
      }
      PointsInRectangleComplete(s[..|s| - 1], rect, q);
    }
  }

  lemma {:induction false} PointsInCircleComplete(s: seq<Point>, c: Point, rad: real, q: Point)
    requires q in s && PointInCircle(c.x, c.y, rad, q.x, q.y)
    ensures q in PointsInCircle(s, c, rad)
    decreases |s|
  {
    if s[|s| - 1] != q {
      assert q in s[..|s| - 1] by {
        var k :| 0 <= k < |s| && s[k] == q;
        assert s[..|s| - 1][k] == q;
      }
      PointsInCircleComplete(s[..|s| - 1], c, rad, q);
    }
  }

  lemma {:induction false} PointsInRectangleNone(s: seq<Point>, rect: Rectangle)
    requires forall q :: q in s ==> !rect.ContainsPoint(q)
    ensures PointsInRectangle(s, rect) == []
  {
    if s != [] {
      PointsInRectangleNone(s[..|s| - 1], rect);
    }
  }

  lemma {:induction false} PointsInCircleNone(s: seq<Point>, c: Point, rad: real)
    requires forall q :: q in s ==> !PointInCircle(c.x, c.y, rad, q.x, q.y)
    ensures PointsInCircle(s, c, rad) == []
  {
    if s != [] {
      PointsInCircleNone(s[..|s| - 1], c, rad);
    }
  }

  /** The query square of getNearbyPointsInRectangle: half-side `radius` around b. */
  function SquareAround(b: Point, radius: real): (r: Rectangle)
    ensures forall q :: r.ContainsPoint(q) <==>
      b.x - radius <= q.x <= b.x + radius && b.y - radius <= q.y <= b.y + radius
  {
    Rectangle(b.x - radius, b.y - radius, b.x + radius, b.y + radius)
  }

  /** The source's recursive rectangle query, pruning subtrees whose boundary does
      not intersect the query square. */
  function RectangleQuery(t: Tree, b: Point, radius: real): seq<Point>
  {
    var square := SquareAround(b, radius);
    if t.boundary.IntersectsWithRect(square) then
      match t
      case Leaf(_, pts) => PointsInRectangle(pts, square)
      case Split(_, pts, tl, tr, bl, br) =>
        PointsInRectangle(pts, square) +
        RectangleQuery(tl, b, radius) + RectangleQuery(tr, b, radius) +
        RectangleQuery(bl, b, radius) + RectangleQuery(br, b, radius)
    else []
  }

  /** The source's recursive circle query, pruning subtrees whose boundary does not
      intersect the circle. */
  function CircleQuery(t: Tree, b: Point, radius: real): seq<Point>
  {
    if t.boundary.IntersectsWithCircle(b.x, b.y, radius) then
      match t
      case Leaf(_, pts) => PointsInCircle(pts, b, radius)
      case Split(_, pts, tl, tr, bl, br) =>
        PointsInCircle(pts, b, radius) +
        CircleQuery(tl, b, radius) + CircleQuery(tr, b, radius) +
        CircleQuery(bl, b, radius) + CircleQuery(br, b, radius)
    else []
  }

  /** Filtering a split node's stored points filters its bucket and each child's. */
  lemma PointsInRectangleOfSplit(t: Tree, rect: Rectangle)
    requires t.Split?
    ensures PointsInRectangle(Elements(t), rect) ==
      PointsInRectangle(t.points, rect) + PointsInRectangle(Elements(t.tl), rect) +
      PointsInRectangle(Elements(t.tr), rect) + PointsInRectangle(Elements(t.bl), rect) +
      PointsInRectangle(Elements(t.br), rect)
  {
    var pts, e1, e2, e3, e4 := t.points, Elements(t.tl), Elements(t.tr), Elements(t.bl), Elements(t.br);
    PointsInRectangleConcat(pts + e1 + e2 + e3, e4, rect);
    PointsInRectangleConcat(pts + e1 + e2, e3, rect);
    PointsInRectangleConcat(pts + e1, e2, rect);
    PointsInRectangleConcat(pts, e1, rect);
  }

  lemma PointsInCircleOfSplit(t: Tree, c: Point, rad: real)
    requires t.Split?
    ensures PointsInCircle(Elements(t), c, rad) ==
      PointsInCircle(t.points, c, rad) + PointsInCircle(Elements(t.tl), c, rad) +
      PointsInCircle(Elements(t.tr), c, rad) + PointsInCircle(Elements(t.bl), c, rad) +
      PointsInCircle(Elements(t.br), c, rad)
  {
    var pts, e1, e2, e3, e4 := t.points, Elements(t.tl), Elements(t.tr), Elements(t.bl), Elements(t.br);
    PointsInCircleConcat(pts + e1 + e2 + e3, e4, c, rad);
    PointsInCircleConcat(pts + e1 + e2, e3, c, rad);
    PointsInCircleConcat(pts + e1, e2, c, rad);
    PointsInCircleConcat(pts, e1, c, rad);
  }

  /** A subtree whose boundary misses the query square stores no point of it. */
  lemma PrunedByRectangle(t: Tree, rect: Rectangle)
    requires Placed(t) && !t.boundary.IntersectsWithRect(rect)
    ensures PointsInRectangle(Elements(t), rect) == []
  {
    ElementsInBoundary(t);
    forall q | q in Elements(t)
      ensures !rect.ContainsPoint(q)
    {
      if rect.ContainsPoint(q) {
        RectPruningSound(t.boundary, rect, q);
      }
    }
    PointsInRectangleNone(Elements(t), rect);
  }

  /** A subtree whose boundary fails the circle test stores no point of the circle. */
  lemma PrunedByCircle(t: Tree, c: Point, rad: real)
    requires Placed(t) && rad >= 0.0 && !t.boundary.IntersectsWithCircle(c.x, c.y, rad)
    ensures PointsInCircle(Elements(t), c, rad) == []
  {
    ElementsInBoundary(t);
    forall q | q in Elements(t)
      ensures !PointInCircle(c.x, c.y, rad, q.x, q.y)
    {
      if PointInCircle(c.x, c.y, rad, q.x, q.y) {
        CirclePruningSound(t.boundary, c.x, c.y, rad, q);
      }
    }
    PointsInCircleNone(Elements(t), c, rad);
  }

  /** Rectangle-query completeness: pruning is only an optimisation. The query yields
      exactly the stored points inside the square, in storage order and with their
      multiplicities, for every radius. */
  lemma {:induction false} RectangleQueryComplete(t: Tree, b: Point, radius: real)
    requires Placed(t)
    ensures RectangleQuery(t, b, radius) == PointsInRectangle(Elements(t), SquareAround(b, radius))
  {
    var square := SquareAround(b, radius);
    if !t.boundary.IntersectsWithRect(square) {
      PrunedByRectangle(t, square);
    } else if t.Split? {
      RectangleQueryComplete(t.tl, b, radius);
      RectangleQueryComplete(t.tr, b, radius);
      RectangleQueryComplete(t.bl, b, radius);
      RectangleQueryComplete(t.br, b, radius);
      PointsInRectangleOfSplit(t, square);
    }
  }

  /** Circle-query completeness for a non-negative radius: the query yields exactly
      the stored points whose squared distance to b is at most radius * radius. */
  lemma {:induction false} CircleQueryComplete(t: Tree, b: Point, radius: real)
    requires Placed(t) && radius >= 0.0
    ensures CircleQuery(t, b, radius) == PointsInCircle(Elements(t), b, radius)
  {
    if !t.boundary.IntersectsWithCircle(b.x, b.y, radius) {
      PrunedByCircle(t, b, radius);
    } else if t.Split? {
      CircleQueryComplete(t.tl, b, radius);
      CircleQueryComplete(t.tr, b, radius);
      CircleQueryComplete(t.bl, b, radius);
      CircleQueryComplete(t.br, b, radius);
      PointsInCircleOfSplit(t, b, radius);
    }
  }

  /** Out-of-bounds drop: a point outside the root boundary is never returned by a
      query, however the tree was built. */
  lemma OutsidePointNeverReported(t: Tree, q: Point, b: Point, radius: real)
    requires Placed(t) && !t.boundary.ContainsPoint(q)
    ensures q !in RectangleQuery(t, b, radius)
    ensures q !in CircleQuery(t, b, radius)
  {
    ElementsInBoundary(t);
    RectangleQueryComplete(t, b, radius);
    if q in CircleQuery(t, b, radius) {
      if radius >= 0.0 {
        CircleQueryComplete(t, b, radius);
      } else {
        CircleQueryReportsStored(t, b, radius, q);
      }
    }
  }

  /** Whatever the radius, the circle query reports only stored points. */
  lemma {:induction false} CircleQueryReportsStored(t: Tree, b: Point, radius: real, q: Point)
    requires q in CircleQuery(t, b, radius)
    ensures q in Elements(t)
  {
    match t
    case Leaf(_, _) =>
    case Split(_, pts, tl, tr, bl, br) =>
      if q !in pts {
        if q in CircleQuery(tl, b, radius) {
          CircleQueryReportsStored(tl, b, radius, q);
        } else if q in CircleQuery(tr, b, radius) {
          CircleQueryReportsStored(tr, b, radius, q);
        } else if q in CircleQuery(bl, b, radius) {
          CircleQueryReportsStored(bl, b, radius, q);
        } else {
          CircleQueryReportsStored(br, b, radius, q);
        }
      }
  }
}
