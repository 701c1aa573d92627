# QuadTree in Dafny

This project gives a verified model of `QuadTree.ts`. That file is a point quadtree over an axis-aligned rectangle.

- Every node has a boundary and a bucket of points. The bucket's capacity is 1.
- A point outside the boundary is silently dropped.
- A point that arrives at a node with a full bucket splits the node into four quadrants: top-left, top-right, bottom-left, bottom-right. The split happens once, around the boundary's midpoint. The point then goes to the first quadrant, in that order, whose boundary contains it. Edges are inclusive, so a point on a split line goes to the earliest quadrant that contains it.
- The pre-split bucket is never moved into the children.
- Two range queries collect the stored points inside a square or inside a circle around a centre. Each query walks the tree and skips any subtree whose boundary fails the intersection test.

The project has four modules:

- `Geometry` (`geometry.dfy`) holds points, rectangles and the three free predicates `RectanglesIntersect`, `RectangleIntersectsCircle` and `PointInCircle`. It also holds `Rectangle.ContainsPoint`, `IntersectsWithRect` and `IntersectsWithCircle`, plus lemmas on how exact the two intersection tests are.
- `TreeModel` (`tree_model.dfy`) gives the value of a subtree as a datatype `Tree`. It defines:
  - the functions that give the meaning of `splitIntoQuads` (`Subdivided`), `insertPoint` (`Insert`) and the two queries (`RectangleQuery` and `CircleQuery`, the source's pruned recursion);
  - the invariants those operations keep: `Placed` (every point lies in its node's boundary and every child sits on its quadrant) and `Bounded` (every bucket is within capacity);
  - reference definitions of the queries as plain filters over all stored points.
- `QuadTrees` (`quadtree.dfy`) holds the class `QuadTree`. Its fields are updated in place as in the source. The class keeps a ghost `model` of its subtree and a ghost footprint `Repr`. Every method is proved against the `TreeModel` function that gives its meaning.
- `Scenario` (`scenario.dfy`) works through a concrete 100 x 100 tree. It inserts three points, drops a fourth, and runs one query of each kind, both on the model and on the class.

## Model

| member | source | states |
|---|---|---|
| Geometry.Rectangle.ContainsPoint | QuadTree.ts:54-58 | definition, no contract: the source's inclusive test on all four edges |
| Geometry.Rectangle.IntersectsWithRect | QuadTree.ts:60-62 | definition, no contract: the source's delegation to `rectanglesIntersect` with both boxes' corners |
| Geometry.Rectangle.IntersectsWithCircle | QuadTree.ts:64-66 | definition, no contract: the source's delegation to `rectangleIntersectsCircle` |
| Geometry.RectanglesIntersect | QuadTree.ts:13-20 | definition, no contract: the source's separation test, false exactly when one box lies strictly left of, right of, above or below the other |
| Geometry.RectangleIntersectsCircle | QuadTree.ts:22-39 | definition, no contract: the source's centre and half-extent test, branch for branch |
| Geometry.PointInCircle | QuadTree.ts:69-72 | definition, no contract: the source's squared-distance test against rad * rad |
| Geometry.Abs | QuadTree.ts:28-29 | the absolute value is non-negative and equals either v or -v |
| Geometry.ContainsPointImpliesWellFormed | QuadTree.ts:54-58 | a rectangle that contains any point has x1 <= x2 and y1 <= y2; corners are never normalised, so an inverted rectangle contains nothing |
| Geometry.CornersAreContained | QuadTree.ts:54-58 | containment is inclusive on all four edges: a well-formed rectangle contains its four corners |
| Geometry.DegenerateRectangleContainsOnlyItsCorner | QuadTree.ts:54-58 | a rectangle with x1 == x2 and y1 == y2 contains exactly the point (x1, y1) |
| Geometry.IntersectsWithRectSymmetric | QuadTree.ts:60-62 | the rectangle intersection test gives the same answer with its arguments swapped |
| Geometry.RectPruningSound | QuadTree.ts:13-20 | if two rectangles share a point, the intersection test succeeds, so pruning by it never loses a point |
| Geometry.RectanglesIntersectIffCommonPoint | QuadTree.ts:13-20 | for well-formed rectangles the test succeeds if and only if they share a point |
| Geometry.EdgeTouchingRectanglesIntersect | QuadTree.ts:13-20 | well-formed rectangles whose ranges overlap or touch, with a's right edge on b's left edge or a's bottom edge on b's top edge (partial edge overlap and corner contact included), count as intersecting, in both orders |
| Geometry.CirclePruningSound | QuadTree.ts:22-39 | for a non-negative radius, if a point of the rectangle lies in the circle, the rectangle/circle test succeeds |
| Geometry.CircleTestHasWitness | QuadTree.ts:22-39 | whenever the test succeeds on a well-formed rectangle, for any radius, the rectangle's point nearest the centre passes `PointInCircle` |
| Geometry.RectangleIntersectsCircleIffCommonPoint | QuadTree.ts:64-66 | for a well-formed rectangle and a non-negative radius, `intersectsWithCircle` holds if and only if some point of the rectangle is in the circle |
| TreeModel.Midpoint | QuadTree.ts:93-94 | definition, no contract: the source's midpoint x1 + (x2 - x1) / 2, y1 + (y2 - y1) / 2 |
| TreeModel.TopLeftQuad | QuadTree.ts:96 | definition, no contract: the source's top-left rectangle |
| TreeModel.TopRightQuad | QuadTree.ts:99 | definition, no contract: the source's top-right rectangle |
| TreeModel.BottomLeftQuad | QuadTree.ts:102 | definition, no contract: the source's bottom-left rectangle |
| TreeModel.BottomRightQuad | QuadTree.ts:105 | definition, no contract: the source's bottom-right rectangle |
| TreeModel.Elements | QuadTree.ts:82 | definition, no contract: all points stored in a subtree, its own bucket first and then TL, TR, BL, BR |
| TreeModel.Placed | QuadTree.ts:111-112 | definition, no contract: the invariant that every bucket point lies in its node's boundary and every child sits on its quadrant |
| TreeModel.Bounded | QuadTree.ts:114 | definition, no contract: the invariant that every bucket holds at most cap points |
| TreeModel.RectangleQuery | QuadTree.ts:131-150 | definition, no contract: the source's pruned recursion on the value, bucket filter first and then TL, TR, BL, BR; its meaning is `RectangleQueryComplete` |
| TreeModel.CircleQuery | QuadTree.ts:152-169 | definition, no contract: the source's pruned circle recursion on the value; its meaning is `CircleQueryComplete` and `CircleQueryReportsStored` |
| TreeModel.FirstQuadrant | QuadTree.ts:119-127 | the index of the first quadrant, in the order TL, TR, BL, BR, that contains the point; no earlier quadrant contains it; the index is 4 when none does |
| TreeModel.FirstChildContaining | QuadTree.ts:119-127 | the same choice, made over a split node's children's boundaries |
| TreeModel.QuadrantsWellFormedAndInside | QuadTree.ts:93-106 | the quadrants of a well-formed boundary are well formed, lie inside it, and are half as wide and half as high |
| TreeModel.QuadrantsCover | QuadTree.ts:93-106 | every point of the boundary lies in some quadrant, so a point passed down always finds a child |
| TreeModel.QuadrantWithinParent | QuadTree.ts:93-106 | every point of a quadrant lies in the parent boundary |
| TreeModel.QuadrantsOverlapOnlyOnSplitLines | QuadTree.ts:93-106 | a point in two different quadrants lies on one of the split lines through the midpoint |
| TreeModel.ElementsInBoundary | QuadTree.ts:111-112 | in a placed tree every stored point lies inside the root boundary |
| TreeModel.Subdivided | QuadTree.ts:92-109 | the split node keeps its boundary and bucket and gets four empty leaves, one on each quadrant |
| TreeModel.SubdivideKeepsInvariants | QuadTree.ts:92-109 | splitting keeps placement and capacity, and splitting a leaf loses no point |
| TreeModel.StoredIsElements | QuadTree.ts:82 | counting bucket by bucket gives the multiset of all stored points |
| TreeModel.SubdivideKeepsFullCount | QuadTree.ts:117 | splitting a leaf does not change the number of nodes with a full bucket |
| TreeModel.FullNodeChildrenSmaller | QuadTree.ts:116-127 | each child of a full split node has fewer full nodes than the node, so the recursive insert terminates |
| TreeModel.Insert | QuadTree.ts:111-129 | the boundary never changes, a split node stays split, and a full bucket is left as it is |
| TreeModel.InsertOutsideIsNoOp | QuadTree.ts:112 | inserting a point outside the boundary leaves the tree unchanged |
| TreeModel.InsertPreservesInvariants | QuadTree.ts:111-129 | insertion keeps every bucket point inside its boundary, every child on its quadrant and every bucket within capacity |
| TreeModel.InsertPreservesSaturated | QuadTree.ts:114-118 | split nodes keep full buckets: a node splits only when its bucket is full, and that bucket keeps cap points |
| TreeModel.Kept | QuadTree.ts:111-129 | definition, no contract: the relation between a tree and its successor in which boundaries stay, buckets only grow at their end, full buckets stay exactly as they were, and split nodes stay split with each child kept |
| TreeModel.KeptRefl | QuadTree.ts:111-129 | every tree is kept by itself |
| TreeModel.InsertKeeps | QuadTree.ts:111-129 | at every depth, insertion leaves existing bucket contents where they are: the pre-split bucket is never redistributed, full buckets are untouched, and a non-full bucket only gains the point at its end |
| TreeModel.InsertAddsPoint | QuadTree.ts:111-129 | the multiset of stored points gains exactly one copy of an in-bounds point and nothing for an out-of-bounds one |
| TreeModel.InsertStoresPoint | QuadTree.ts:111-129 | the same statement, counted bucket by bucket |
| TreeModel.InsertIntoFullNode | QuadTree.ts:116-127 | at a full node the insert is the node, split if needed, with its first containing quadrant's subtree replaced by the insert into that subtree; that subtree is placed and smaller |
| TreeModel.InsertFullNodeStep | QuadTree.ts:116-127 | at a full node the insert tries the children in order TL, TR, BL, BR and changes only the first whose boundary contains the point, or none |
| TreeModel.InsertIntoChild | QuadTree.ts:119-127 | replacing one child by a subtree holding one more copy of p adds one copy of p to the whole node |
| TreeModel.InsertRoutesToFirstQuadrant | QuadTree.ts:116-127 | past a full bucket the node is split, with the same boundary and bucket; the point lands in exactly the first quadrant containing it, and the other three subtrees keep their points |
| TreeModel.PointsInRectangle | QuadTree.ts:137-139 | the filter returns only points of the bucket that the rectangle contains and is no longer than the bucket |
| TreeModel.PointsInCircle | QuadTree.ts:156-158 | the filter returns only points of the bucket that pass `PointInCircle` and is no longer than the bucket |
| TreeModel.PointsInRectangleConcat | QuadTree.ts:142-145 | filtering a concatenation concatenates the filtered parts |
| TreeModel.PointsInCircleConcat | QuadTree.ts:161-164 | filtering a concatenation concatenates the filtered parts |
| TreeModel.PointsInRectangleComplete | QuadTree.ts:137-139 | the filter keeps every accepted point |
| TreeModel.PointsInCircleComplete | QuadTree.ts:156-158 | the circle filter keeps every accepted point |
| TreeModel.PointsInRectangleNone | QuadTree.ts:137-139 | a sequence with no accepted point filters to the empty sequence |
| TreeModel.PointsInCircleNone | QuadTree.ts:156-158 | a sequence with no accepted point filters to the empty sequence |
| TreeModel.SquareAround | QuadTree.ts:132 | a point is in the query square exactly when both coordinates are within radius of b's |
| TreeModel.PointsInRectangleOfSplit | QuadTree.ts:141-146 | filtering a split node's stored points is the same as filtering its bucket and then each child's points, in the order TL, TR, BL, BR |
| TreeModel.PointsInCircleOfSplit | QuadTree.ts:160-165 | the same for the circle filter |
| TreeModel.PrunedByRectangle | QuadTree.ts:136 | a placed subtree whose boundary misses the square stores no point of the square, so skipping it loses nothing |
| TreeModel.PrunedByCircle | QuadTree.ts:155 | a placed subtree whose boundary fails the circle test, with a non-negative radius, stores no point of the circle |
| TreeModel.RectangleQueryComplete | QuadTree.ts:131-150 | on a placed tree, the pruned rectangle query equals, for any radius, the stored points inside the square in storage order with multiplicities |
| TreeModel.CircleQueryComplete | QuadTree.ts:152-169 | on a placed tree with a non-negative radius, the pruned circle query equals the stored points within the circle in storage order with multiplicities |
| TreeModel.CircleQueryReportsStored | QuadTree.ts:152-169 | for every radius, the circle query reports only stored points |
| TreeModel.OutsidePointNeverReported | QuadTree.ts:112 | a point outside the root boundary is never returned by either query |
| QuadTrees.QuadTree.constructor | QuadTree.ts:85-90 | a new node is a valid, unsplit, empty leaf with capacity 1 on the given boundary |
| QuadTrees.QuadTree.NewQuadrants | QuadTree.ts:93-106 | the four new children are distinct, fresh, empty leaves on the TL, TR, BL and BR quadrants |
| QuadTrees.QuadTree.SplitIntoQuads | QuadTree.ts:92-109 | the node becomes split with four fresh children and the model becomes `Subdivided` of the old one; the bucket is unchanged and validity is kept |
| QuadTrees.QuadTree.InsertPoint | QuadTree.ts:111-129 | the model becomes `Insert(old model, p, capacity)` and validity is kept; an out-of-bounds point changes no object; a full bucket stays the same; a split node keeps its children |
| QuadTrees.QuadTree.PassDown | QuadTree.ts:116-127 | the full-bucket branch: the node is split if it was not, and the model becomes `Insert` of the old model |
| QuadTrees.QuadTree.InsertIntoQuad | QuadTree.ts:119-127 | the recursive insert into child k: the model's child k becomes `Insert` of its old value, and the bucket and child links stay |
| QuadTrees.QuadTree.GetNearbyPointsInRectangle | QuadTree.ts:131-150 | returns `RectangleQuery(model, b, radius)`; on a placed tree that is exactly the stored points inside the square |
| QuadTrees.QuadTree.GetNearbyPointsInCircle | QuadTree.ts:152-169 | returns `CircleQuery(model, b, radius)`; on a placed tree with a non-negative radius that is exactly the stored points within the circle |
| Scenario.FirstInsertFillsBucket | QuadTree.ts:114-115 | the first point goes into the empty root's bucket |
| Scenario.SecondInsertSplits | QuadTree.ts:116-120 | the second point splits the root and lands in the top-left quadrant; the root keeps the first point |
| Scenario.ThirdInsertGoesBottomRight | QuadTree.ts:119-127 | the point (90, 90) skips TL, TR and BL and lands in the bottom-right quadrant |
| Scenario.OutsidePointIsDropped | QuadTree.ts:112 | the point (150, 150) outside the root leaves the tree unchanged |
| Scenario.ThreePointsStored | QuadTree.ts:111-129 | the example tree stores exactly the three inserted points |
| Scenario.CircleQueryOnExample | QuadTree.ts:152-169 | the circle of radius 10 around (10, 15) yields (10, 10) and (10, 20) |
| Scenario.RectangleQueryOnExample | QuadTree.ts:131-150 | the square of half-side 60 around (50, 50) yields all three points |
| Scenario.BuildExample | QuadTree.ts:85-129 | building the example with the class gives a valid tree whose model is the one computed on the datatype |
| Scenario.CircleExample | QuadTree.ts:152-169 | the class's circle query on the example returns (10, 10) and (10, 20) |
| Scenario.SquareExample | QuadTree.ts:131-150 | the class's rectangle query on the example returns all three points |

## Left out

- Numbers are mathematical reals, not IEEE doubles. Rounding, NaN and infinities are not modelled, and neither is the midpoint's rounding at very small or very large scales.
- `Vec2` is the value datatype `Point`. The source stores references to the caller's `Vec2` objects, so a caller that later mutates one would move a stored point without re-placing it. In the same way the root keeps the caller's `Rectangle` object by reference, and every field of `Rectangle` and `QuadTree` (including `capacity`, `split`, `points` and the four children) is public, so outside code can change a boundary, a bucket or the capacity behind the tree's back. None of that aliasing or outside mutation is modelled: the class's fields change only through its own methods, `boundary` and `capacity` are constants, and the invariant holds under that assumption.
- `createVec2` (QuadTree.ts:6-11) is not modelled. Its optional-argument defaulting is a JavaScript convenience; points are built directly.
- `Rectangle` is a value datatype, not a mutable class: the source's own code never assigns its fields after construction (outside mutation is the aliasing case above). The `Rectangle` constructor (QuadTree.ts:47-52) is the datatype constructor.
- Capacity is the constant 1, as the constructor sets it, and the class's invariant records this. The `TreeModel` functions and lemmas hold for any positive capacity.
- QuadTrees.QuadTree.SplitIntoQuads: requires an unsplit node. The source calls it only from `insertPoint` and only when the node is not split (QuadTree.ts:117). Re-splitting, which in the source would discard the old children, is not covered by the method. `TreeModel.Subdivided` states what it would do.
- QuadTrees.QuadTree.PassDown: the source's chain of four `if` tests with a recursive call in each branch is modelled as choosing the first containing child's index and then making one recursive call (`InsertIntoQuad`). The choice is proved equal to `FirstChildContaining`.
- QuadTrees.QuadTree.InsertPoint: requires only that the linked structure agrees with the model (`Linked`). The placement and capacity invariants are carried through as `old(Valid()) ==> Valid()`, not demanded.
- QuadTrees.QuadTree.GetNearbyPointsInRectangle: completeness against the plain filter is stated for placed trees (`Placed`, which `Valid` implies). On an arbitrary linked tree the method is still proved equal to `RectangleQuery`.
- QuadTrees.QuadTree.GetNearbyPointsInCircle: completeness is stated for placed trees and a non-negative radius. With a negative radius the box/circle test and `PointInCircle` (which squares the radius) disagree; there the method is proved equal to `CircleQuery`, and `TreeModel.CircleQueryReportsStored` shows it reports only stored points.
- The source's `push(...array)` onto a fresh array is modelled as sequence concatenation. The result's order is the source's order: the bucket, then TL, TR, BL, BR.
- Running time and how much the pruning saves are not modelled. Neither is concurrency, which the source does not have.
