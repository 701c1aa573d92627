/** A worked example: a 100 x 100 tree holding three points, one point dropped for
    lying outside, and one query of each kind, first on the model and then on the
    class. */
module Scenario {
  import opened Geometry
  import opened TreeModel
  import opened QuadTrees

  function Root(): Rectangle
  {
    Rectangle(0.0, 0.0, 100.0, 100.0)
  }

  /** The root after (10, 10) has filled its bucket. */
  function OnePoint(): Tree
  {
    Leaf(Root(), [Point(10.0, 10.0)])
  }

  /** The root after (10, 20) has split it and landed in the top-left quadrant. */
  function TwoPoints(): Tree
  {
    Split(Root(), [Point(10.0, 10.0)],
          Leaf(TopLeftQuad(Root()), [Point(10.0, 20.0)]), Leaf(TopRightQuad(Root()), []),
          Leaf(BottomLeftQuad(Root()), []), Leaf(BottomRightQuad(Root()), []))
  }

  /** The root after (90, 90) has landed in the bottom-right quadrant. */
  function ThreePoints(): Tree
  {
    Split(Root(), [Point(10.0, 10.0)],
          Leaf(TopLeftQuad(Root()), [Point(10.0, 20.0)]), Leaf(TopRightQuad(Root()), []),
          Leaf(BottomLeftQuad(Root()), []), Leaf(BottomRightQuad(Root()), [Point(90.0, 90.0)]))
  }

  lemma FirstInsertFillsBucket()
    ensures Insert(Leaf(Root(), []), Point(10.0, 10.0), 1) == OnePoint()
  {
  }

  lemma SecondInsertSplits()
    ensures Insert(OnePoint(), Point(10.0, 20.0), 1) == TwoPoints()
  {
    var s := Subdivided(OnePoint());
    assert s.tl.boundary.ContainsPoint(Point(10.0, 20.0));
    assert Insert(s.tl, Point(10.0, 20.0), 1) == Leaf(TopLeftQuad(Root()), [Point(10.0, 20.0)]);
  }

  lemma ThirdInsertGoesBottomRight()
    ensures Insert(TwoPoints(), Point(90.0, 90.0), 1) == ThreePoints()
  {
    var t := TwoPoints();
    var p := Point(90.0, 90.0);
    assert !t.tl.boundary.ContainsPoint(p) && !t.tr.boundary.ContainsPoint(p) && !t.bl.boundary.ContainsPoint(p);
    assert t.br.boundary.ContainsPoint(p);
    assert Insert(t.br, p, 1) == Leaf(BottomRightQuad(Root()), [p]);
  }

  lemma OutsidePointIsDropped()
    ensures Insert(ThreePoints(), Point(150.0, 150.0), 1) == ThreePoints()
  {
  }

  lemma ThreePointsStored()
    ensures Elements(ThreePoints()) == [Point(10.0, 10.0), Point(10.0, 20.0), Point(90.0, 90.0)]
  {
    assert Elements(ThreePoints()) == [Point(10.0, 10.0)] + [Point(10.0, 20.0)] + [] + [] + [Point(90.0, 90.0)];
  }

  /** The circle of radius 10 around (10, 15) catches (10, 10) and (10, 20). */
  lemma CircleQueryOnExample()
    ensures CircleQuery(ThreePoints(), Point(10.0, 15.0), 10.0) == [Point(10.0, 10.0), Point(10.0, 20.0)]
  {
    var t, c := ThreePoints(), Point(10.0, 15.0);
    assert CircleQuery(t.tl, c, 10.0) == [Point(10.0, 20.0)];
    assert CircleQuery(t.tr, c, 10.0) == [];
    assert CircleQuery(t.bl, c, 10.0) == [];
    assert CircleQuery(t.br, c, 10.0) == [];
  }

  /** The square of half-side 60 around (50, 50) covers the whole tree. */
  lemma RectangleQueryOnExample()
    ensures RectangleQuery(ThreePoints(), Point(50.0, 50.0), 60.0) ==
            [Point(10.0, 10.0), Point(10.0, 20.0), Point(90.0, 90.0)]
  {
    var t, c := ThreePoints(), Point(50.0, 50.0);
    assert RectangleQuery(t.tl, c, 60.0) == [Point(10.0, 20.0)];
    assert RectangleQuery(t.tr, c, 60.0) == [];
    assert RectangleQuery(t.bl, c, 60.0) == [];
    assert RectangleQuery(t.br, c, 60.0) == [Point(90.0, 90.0)];
  }

  /** The example's inserts on the class: the tree stays valid and ends with the
      model computed above; the point outside the boundary changes nothing. */
  method BuildExample() returns (tree: QuadTree)
    ensures tree.Valid() && tree.model == ThreePoints()
  {
    tree := new QuadTree(Root());
    assert tree.capacity == 1 && tree.model == Leaf(Root(), []);
    FirstInsertFillsBucket();
    tree.InsertPoint(Point(10.0, 10.0));
    assert tree.Valid() && tree.model == OnePoint();
    SecondInsertSplits();
    tree.InsertPoint(Point(10.0, 20.0));
    assert tree.Valid() && tree.model == TwoPoints();
    ThirdInsertGoesBottomRight();
    tree.InsertPoint(Point(90.0, 90.0));
    assert tree.Valid() && tree.model == ThreePoints();
    OutsidePointIsDropped();
    tree.InsertPoint(Point(150.0, 150.0));
  }

  /** The example's circle query on the class. */
  method CircleExample(tree: QuadTree) returns (inCircle: seq<Point>)
    requires tree.Valid() && tree.model == ThreePoints()
    ensures inCircle == [Point(10.0, 10.0), Point(10.0, 20.0)]
  {
    CircleQueryOnExample();
    inCircle := tree.GetNearbyPointsInCircle(Point(10.0, 15.0), 10.0);
  }

  /** The example's square query on the class. */
  method SquareExample(tree: QuadTree) returns (inSquare: seq<Point>)
    requires tree.Valid() && tree.model == ThreePoints()
    ensures inSquare == [Point(10.0, 10.0), Point(10.0, 20.0), Point(90.0, 90.0)]
  {
    RectangleQueryOnExample();
    inSquare := tree.GetNearbyPointsInRectangle(Point(50.0, 50.0), 60.0);
  }
}
