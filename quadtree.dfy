/** The quadtree node of QuadTree.ts:74-170 as a class whose methods update its
    fields in place. Each node keeps a ghost `model`, the value of its subtree as a
    TreeModel.Tree, and a ghost `Repr`, the nodes of its subtree; every method is
    proved against the TreeModel function that gives its meaning. */
module QuadTrees {
  import opened Geometry
  import opened TreeModel

  class QuadTree {
    const boundary: Rectangle
    var split: bool
    var topLeft: QuadTree?
    var topRight: QuadTree?
    var bottomLeft: QuadTree?
    var bottomRight: QuadTree?
    var points: seq<Point>
    const capacity: nat

    ghost var model: Tree
    ghost var Repr: set<object>

    /** The object invariant: the linked structure agrees with the model, and the
        model keeps the placement and capacity invariants. */
    ghost predicate Valid()
      reads this, Repr
      ensures Valid() ==> this in Repr
    {
      Linked() && Placed(model) && Bounded(model, capacity)
    }

    /** The fields agree with the model, and the children exist iff the node is
        split. */
    ghost predicate Linked()
      reads this, Repr
      ensures Linked() ==> this in Repr
      decreases Repr, 1
    {
      this in Repr &&
      capacity == 1 &&
      model.boundary == boundary && model.points == points &&
      split == model.Split? &&
      (!split ==> topLeft == null && topRight == null && bottomLeft == null && bottomRight == null) &&
      (split ==> ChildrenLinked())
    }

    /** The children by index, in the order they are tried: top-left, top-right,
        bottom-left, bottom-right. */
    function Quad(i: nat): QuadTree?
      requires i < 4
      reads this`topLeft, this`topRight, this`bottomLeft, this`bottomRight
    {
      if i == 0 then topLeft else if i == 1 then topRight else if i == 2 then bottomLeft else bottomRight
    }

    /** The four children are linked, own disjoint parts of Repr that do not contain
        this node, and carry the models of the four subtrees. */
    ghost predicate ChildrenLinked()
      requires this in Repr
      reads this, Repr
      decreases Repr, 0
    {
      (forall i :: 0 <= i < 4 ==> Quad(i) != null && Quad(i) in Repr && Quad(i).Repr <= Repr && this !in Quad(i).Repr) &&
      (forall i, j :: 0 <= i < j < 4 ==> Quad(i).Repr !! Quad(j).Repr) &&
      model.Split? &&
      (forall i :: 0 <= i < 4 ==> Quad(i).Linked() && Quad(i).model == Child(model, i))
    }

    /** The node as the constructor leaves it. */
    ghost predicate EmptyLeaf()
      reads this
    {
      Repr == {this} && capacity == 1 && !split && points == [] &&
      topLeft == null && topRight == null && bottomLeft == null && bottomRight == null &&
      model == Leaf(boundary, [])
    }

    /** A new node: unsplit, empty, capacity 1. */
    constructor (boundary: Rectangle)
      ensures Valid() && EmptyLeaf() && this.boundary == boundary
    {
      this.boundary := boundary;
      split := false;
      points := [];
      capacity := 1;
      topLeft, topRight, bottomLeft, bottomRight := null, null, null, null;
      model := Leaf(boundary, []);
      Repr := {this};
    }

    /** Gives the node four new empty children on the quadrants around the midpoint
        of its boundary and marks it split; the bucket stays where it is. */
    method SplitIntoQuads()
      requires Linked() && !split
      modifies this
      ensures Linked() && fresh(Repr - old(Repr))
      ensures model == Subdivided(old(model))
      ensures split && points == old(points)
      ensures fresh(topLeft) && fresh(topRight) && fresh(bottomLeft) && fresh(bottomRight)
      ensures old(Valid()) ==> Valid()
    {
      var tl, tr, bl, br := NewQuadrants(boundary);
      SubdivideKeepsInvariants(model, capacity);
      topLeft, topRight, bottomLeft, bottomRight, split := tl, tr, bl, br, true;
      model, Repr := Subdivided(model), Repr + {tl, tr, bl, br};
      LinkEmptyChildren();
    }

    /** A split node whose four distinct children are fresh empty leaves carrying
        the models of its subtrees is linked. */
    lemma LinkEmptyChildren()
      requires this in Repr && capacity == 1 && split
      requires topLeft != null && topRight != null && bottomLeft != null && bottomRight != null
      requires topLeft.EmptyLeaf() && topLeft in Repr && topLeft != this
      requires topRight.EmptyLeaf() && topRight in Repr && topRight != this
      requires bottomLeft.EmptyLeaf() && bottomLeft in Repr && bottomLeft != this
      requires bottomRight.EmptyLeaf() && bottomRight in Repr && bottomRight != this
      requires topLeft != topRight && topLeft != bottomLeft && topLeft != bottomRight
      requires topRight != bottomLeft && topRight != bottomRight && bottomLeft != bottomRight
      requires model == Split(boundary, points, topLeft.model, topRight.model, bottomLeft.model, bottomRight.model)
      ensures Linked()
    {
    }

    /** The children of a linked split node, by name: each is linked, owns a part
        of Repr without this node, carries its capacity and the subtree's model. */
    lemma ChildrenOfLinked()
      requires Linked() && split
      ensures ChildrenLinked()
      ensures topLeft != null && topRight != null && bottomLeft != null && bottomRight != null
      ensures topLeft.Linked() && topLeft.Repr < Repr && this !in topLeft.Repr && model.tl == topLeft.model
      ensures topRight.Linked() && topRight.Repr < Repr && this !in topRight.Repr && model.tr == topRight.model
      ensures bottomLeft.Linked() && bottomLeft.Repr < Repr && this !in bottomLeft.Repr && model.bl == bottomLeft.model
      ensures bottomRight.Linked() && bottomRight.Repr < Repr && this !in bottomRight.Repr && model.br == bottomRight.model
    {
      assert Quad(0) == topLeft && Quad(1) == topRight && Quad(2) == bottomLeft && Quad(3) == bottomRight;
    }

    /** Child i of a linked split node is linked, owns a part of Repr without this
        node, carries its capacity and the model of subtree i. */
    lemma QuadOfLinked(i: nat)
      requires Linked() && split && i < 4
      ensures ChildrenLinked()
      ensures Quad(i) != null && Quad(i) in Repr && Quad(i).Repr < Repr && this !in Quad(i).Repr
      ensures Quad(i).Linked() && Quad(i).capacity == capacity && Quad(i).model == Child(model, i)
    {
    }

    /** Four new empty nodes on the quadrants around the midpoint of b. */
    static method NewQuadrants(b: Rectangle) returns (tl: QuadTree, tr: QuadTree, bl: QuadTree, br: QuadTree)
      ensures fresh(tl) && fresh(tr) && fresh(bl) && fresh(br)
      ensures tl.EmptyLeaf() && tl.model == Leaf(TopLeftQuad(b), [])
      ensures tr.EmptyLeaf() && tr.model == Leaf(TopRightQuad(b), [])
      ensures bl.EmptyLeaf() && bl.model == Leaf(BottomLeftQuad(b), [])
      ensures br.EmptyLeaf() && br.model == Leaf(BottomRightQuad(b), [])
      ensures tl != tr && tl != bl && tl != br && tr != bl && tr != br && bl != br
    {
      var middle := Midpoint(b);
      tl := new QuadTree(Rectangle(b.x1, b.y1, middle.x, middle.y));
      tr := new QuadTree(Rectangle(middle.x, b.y1, b.x2, middle.y));
      bl := new QuadTree(Rectangle(b.x1, middle.y, middle.x, b.y2));
      br := new QuadTree(Rectangle(middle.x, middle.y, b.x2, b.y2));
    }

    /** Inserts p as insertPoint does; the model changes as TreeModel.Insert says,
        which keeps the placement and capacity invariants. A point outside the
        boundary changes nothing at all; a split node stays split with the same
        children, and a full bucket stays as it was. */
    method InsertPoint(p: Point)
      requires Linked()
      modifies Repr
      ensures Linked() && fresh(Repr - old(Repr))
      ensures model == Insert(old(model), p, capacity)
      ensures old(Valid()) ==> Valid()
      ensures !boundary.ContainsPoint(p) ==> Repr == old(Repr) && unchanged(Repr)
      ensures old(|points|) >= capacity ==> points == old(points)
      ensures old(split) ==> (split &&
        topLeft == old(topLeft) && topRight == old(topRight) &&
        bottomLeft == old(bottomLeft) && bottomRight == old(bottomRight))
      decreases FullCount(model, capacity), 2
    {
      if !boundary.ContainsPoint(p) {
        return;
      }
      ghost var before := model;
      if Valid() {
        InsertPreservesInvariants(before, p, capacity);
      }
      if |points| < capacity {
        points := points + [p];
        model := model.(points := points);
        RelinkBucket();
      } else {
        PassDown(p);
      }
    }

    /** The full-bucket branch of insertPoint: split the node if it is not split yet,
        then hand p to the first child, in the order top-left, top-right,
        bottom-left, bottom-right, whose boundary contains it. */
    method PassDown(p: Point)
      requires Linked() && boundary.ContainsPoint(p) && |points| >= capacity
      modifies Repr
      ensures Linked() && fresh(Repr - old(Repr))
      ensures model == Insert(old(model), p, capacity)
      ensures split && points == old(points)
      ensures old(split) ==> (
        topLeft == old(topLeft) && topRight == old(topRight) &&
        bottomLeft == old(bottomLeft) && bottomRight == old(bottomRight))
      decreases FullCount(model, capacity), 1
    {
      ghost var before := model;
      if !split {
        SplitIntoQuads();
        SubdivideKeepsFullCount(before, capacity);
      }
      InsertFullNodeStep(before, p, capacity);
      ChildrenOfLinked();
      var k := if topLeft.boundary.ContainsPoint(p) then 0
               else if topRight.boundary.ContainsPoint(p) then 1
               else if bottomLeft.boundary.ContainsPoint(p) then 2
               else if bottomRight.boundary.ContainsPoint(p) then 3
               else 4;
      assert k == FirstChildContaining(model, p);
      if k < 4 {
        InsertIntoQuad(k, p);
      }
    }

    /** Hands p to child k of a split node with a full bucket: the child inserts it,
        and the node's model takes the child's new model. */
    method InsertIntoQuad(k: nat, p: Point)
      requires Linked() && split && k < 4 && |points| >= capacity
      modifies Repr
      ensures Linked() && fresh(Repr - old(Repr))
      ensures model == WithChild(old(model), k, Insert(Child(old(model), k), p, capacity))
      ensures split && points == old(points)
      ensures topLeft == old(topLeft) && topRight == old(topRight)
      ensures bottomLeft == old(bottomLeft) && bottomRight == old(bottomRight)
      decreases FullCount(model, capacity), 0
    {
      QuadOfLinked(k);
      FullNodeChildrenSmaller(model, capacity);
      var quad := Quad(k);
      quad.InsertPoint(p);
      Repr := Repr + quad.Repr;
      model := WithChild(model, k, quad.model);
      RelinkChild(k);
    }

    /** After the node's own bucket, and nothing else, has changed, the node with its
        model's bucket updated to match is linked again. */
    twostate lemma RelinkBucket()
      requires old(Linked())
      requires forall o: object :: o in old(Repr) && o != this ==> unchanged(o)
      requires unchanged(this`split, this`topLeft, this`topRight, this`bottomLeft, this`bottomRight, this`Repr)
      requires model == old(model).(points := points)
      ensures Linked()
    {
    }

    /** After child k, and nothing else below this node, has changed, the node with
        its Repr and model updated from the child's is linked again. */
    twostate lemma RelinkChild(k: nat)
      requires old(Linked()) && old(split) && k < 4 && old(Quad(k)) != null
      requires unchanged(this`split, this`points, this`topLeft, this`topRight, this`bottomLeft, this`bottomRight)
      requires forall o: object :: o in old(Repr) && o != this && o !in old(Quad(k).Repr) ==> unchanged(o)
      requires Quad(k).Linked() && fresh(Quad(k).Repr - old(Quad(k).Repr))
      requires Repr == old(Repr) + Quad(k).Repr && model == WithChild(old(model), k, Quad(k).model)
      ensures Linked()
    {
    }

    /** getNearbyPointsInRectangle: the stored points inside the square of half-side
        radius around b, found by the pruned recursive walk; the tree is not changed. */
    method GetNearbyPointsInRectangle(b: Point, radius: real) returns (res: seq<Point>)
      requires Linked()
      ensures res == RectangleQuery(model, b, radius)
      ensures Placed(model) ==> res == PointsInRectangle(Elements(model), SquareAround(b, radius))
      decreases Repr
    {
      var radiusRectangle := Rectangle(b.x - radius, b.y - radius, b.x + radius, b.y + radius);
      assert radiusRectangle == SquareAround(b, radius);
      res := [];
      if boundary.IntersectsWithRect(radiusRectangle) {
        for i := 0 to |points|
          invariant res == PointsInRectangle(points[..i], radiusRectangle)
        {
          assert points[..i + 1][..i] == points[..i];
          if radiusRectangle.ContainsPoint(points[i]) {
            res := res + [points[i]];
          }
        }
        assert points[..|points|] == points;
        if split {
          ChildrenOfLinked();
          var fromTopLeft := topLeft.GetNearbyPointsInRectangle(b, radius);
          res := res + fromTopLeft;
          var fromTopRight := topRight.GetNearbyPointsInRectangle(b, radius);
          res := res + fromTopRight;
          var fromBottomLeft := bottomLeft.GetNearbyPointsInRectangle(b, radius);
          res := res + fromBottomLeft;
          var fromBottomRight := bottomRight.GetNearbyPointsInRectangle(b, radius);
          res := res + fromBottomRight;
        }
      }
      if Placed(model) {
        RectangleQueryComplete(model, b, radius);
      }
    }

    /** getNearbyPointsInCircle: the stored points within distance radius of b (for a
        non-negative radius), found by the pruned recursive walk; the tree is not
        changed. */
    method GetNearbyPointsInCircle(b: Point, radius: real) returns (res: seq<Point>)
      requires Linked()
      ensures res == CircleQuery(model, b, radius)
      ensures Placed(model) && radius >= 0.0 ==> res == PointsInCircle(Elements(model), b, radius)
      decreases Repr
    {
      res := [];
      if boundary.IntersectsWithCircle(b.x, b.y, radius) {
        for i := 0 to |points|
          invariant res == PointsInCircle(points[..i], b, radius)
        {
          assert points[..i + 1][..i] == points[..i];
          if PointInCircle(b.x, b.y, radius, points[i].x, points[i].y) {
            res := res + [points[i]];
          }
        }
        assert points[..|points|] == points;
        if split {
          ChildrenOfLinked();
          var fromTopLeft := topLeft.GetNearbyPointsInCircle(b, radius);
          res := res + fromTopLeft;
          var fromTopRight := topRight.GetNearbyPointsInCircle(b, radius);
          res := res + fromTopRight;
          var fromBottomLeft := bottomLeft.GetNearbyPointsInCircle(b, radius);
          res := res + fromBottomLeft;
          var fromBottomRight := bottomRight.GetNearbyPointsInCircle(b, radius);
          res := res + fromBottomRight;
        }
      }
      if Placed(model) && radius >= 0.0 {
        CircleQueryComplete(model, b, radius);
      }
    }
  }
}
