# power-pencil spatial index and transforms, in Dafny

This project models the core of power-pencil, a 2D drawing board written in TypeScript. The core is the part with real invariants:

- the region quadtree `QuadTreeNode`, with its shared `shapeToNodes` reverse index;
- the older `QuadTree`, which keeps an object at the parent unless it fits one quadrant;
- the `CollisionDetector`, which runs a broad-phase quadtree query and then a first-passing pixel test;
- the strict AABB overlap test `aabbIntersects`;
- the transform state of `Camera` and `Shape`, with the 3×3 matrices built from it;
- the `Stage` shape map;
- the `MathUtils` helpers (canvas transform extraction, point, vector and box transforms);
- the pixel-hit arithmetic of `CanvasObject`.

Numbers are `real`. The mathjs matrix operations are written out as 3×3 arithmetic (module `Matrices`). The inverse that `viewMatrix` takes is the closed-form inverse of a translate·scale matrix.

Modelling choices:

- **Quadtree nodes are values.** A `Node` datatype holds `items` and `children`. Trees are never shared, so updating a node in place is modelled as returning the new node.
- **Node identity is a path.** The `shapeToNodes` map of `QuadTreeNode` names a node by its path of child indices from the root (`NodeIndex = map<string, set<Path>>`). `Agrees` states that the map records exactly which nodes hold which ids.
- **The insert and query loops are methods.** `InsertAt`, `Redistribute`, `MoveItems`, `MoveOne`, `Forward`, `QueryFrom` and `QueryChildren` keep the source's loops and recursion. Each is proved equal to a specification function (`InsertTree`, `SplitTree`, `ForwardTree`, `QueryTree`, `MergeChildren`). The lemmas state what those functions mean:
  - every leaf an item overlaps holds it;
  - the tree invariants are kept;
  - `query` reports only stored items, with no id twice, and finds every covered item that meets the probe.
- **The query result keeps its order.** It is the JavaScript `Map` as an ordered sequence of bindings: `set` updates an entry in place or appends a new one. So `hit` really is "the first passing candidate in query order".
- **Classes wrap mutable state.** `RootNode`, `CollisionDetector`, `QuadTree`, `Camera`, `Shape`, `Stage` and `CanvasObject` are classes whose methods update their fields.

Some behaviour of the code is easy to miss; the model follows it as written:

- `query` does not filter a node's own items by their boxes.
- Region pruning uses the strict `aabbIntersects`, not an edge-inclusive test.
- A leaf at or beyond `maxDepth` takes items without limit.
- `transformVector` keeps the translation. This one is logged under Findings.
- The camera does not clamp the zoom factor, so a zero scale makes `viewMatrix` fail.

One boundary case is modelled as the code behaves:

- A full leaf splits and hands its items to its quadrants.
- An item of zero width lying exactly on the vertical midline overlaps the leaf but none of its quadrants.
- So the item is dropped and no query reports it (`QuadTreeNode.MidlineItemLost`).
- An item of positive extent is never lost (`Geometry.QuadrantsCoverOverlap`, `QuadTreeNode.InsertThenQuery`).

## Model

| member | source | states |
|---|---|---|
| Geometry.AabbIntersects | src/model/BoundingBox.ts:15-19 | boxes can intersect only when, on each axis, their two extents add up to a positive length |
| Geometry.IntersectsIffShareInteriorPoint | src/model/BoundingBox.ts:15-19 | for boxes of positive extent, `aabbIntersects` holds exactly when the two open boxes share a point (both directions) |
| Geometry.OpenIntervalsOverlap | src/model/BoundingBox.ts:16-17 | the per-axis test (each interval starts before the other ends) holds exactly when the open intervals share a point |
| Geometry.SharedPointIntersects | src/model/BoundingBox.ts:15-19 | a point inside both open boxes makes the test true in both argument orders, whatever the extents |
| Geometry.IntersectsSymmetric | src/model/BoundingBox.ts:15-19 | `aabbIntersects(a, b) == aabbIntersects(b, a)` |
| Geometry.TouchingBoxesDoNotIntersect | src/model/BoundingBox.ts:16-17 | boxes that meet only along an edge do not intersect |
| Geometry.SelfIntersection | src/model/BoundingBox.ts:16-18 | a box intersects itself exactly when its width and height are positive |
| Geometry.Meet | src/model/BoundingBox.ts:15-19 | two intersecting boxes of positive extent have an overlap box of positive extent inside both |
| Geometry.WithinBothIntersect | src/model/BoundingBox.ts:15-19 | two boxes that both contain a box of positive extent intersect |
| Geometry.Quadrant | src/model/CollisionDetector.ts/QuadTreeNode.ts:69-87 | quadrant k has half the width and height, offset by 0 or one half-extent in the order TL, TR, BL, BR |
| Geometry.QuadrantsCoverOverlap | src/model/CollisionDetector.ts/QuadTreeNode.ts:34-44 | an item of positive extent that intersects a region intersects one of its quadrants |
| Geometry.MidlineItemMissesAllQuadrants | src/model/CollisionDetector.ts/QuadTreeNode.ts:69-87 | a zero-width box on the vertical midline intersects the region and none of its four quadrants |
| QuadTreeNode.AddToMap | src/model/CollisionDetector.ts/QuadTreeNode.ts:89-96 | afterwards the map records (id, node) and every pair it recorded before, nothing else; the id becomes a key |
| QuadTreeNode.RemoveFromMap | src/model/CollisionDetector.ts/QuadTreeNode.ts:98-102 | only the pair (id, node) is dropped; an absent id stays absent; the key set is unchanged |
| QuadTreeNode.AddThenRemove | src/model/CollisionDetector.ts/QuadTreeNode.ts:89-102 | removing a freshly added pair restores the recorded pairs |
| QuadTreeNode.AgreesMeaning | src/model/CollisionDetector.ts/QuadTreeNode.ts:24 | when the map agrees with a subtree, it records (id, path) exactly when the node at that path holds an item with the id |
| QuadTreeNode.NewNode | src/model/CollisionDetector.ts/QuadTreeNode.ts:24 | a new node is a well-formed empty leaf with the given options |
| QuadTreeNode.IsLeaf | src/model/CollisionDetector.ts/QuadTreeNode.ts:65-67 | in a well-formed tree a node that is not a leaf holds no items, has four children and lies above maxDepth |
| QuadTreeNode.HasRoom | src/model/CollisionDetector.ts/QuadTreeNode.ts:29 | with room, a leaf below maxDepth stays within capacity after one more item; without room, the leaf is below maxDepth and full |
| QuadTreeNode.Split | src/model/CollisionDetector.ts/QuadTreeNode.ts:69-87 | four empty well-formed leaves over the quadrants, one level deeper, with the same maxDepth and capacity |
| QuadTreeNode.InsertTree | src/model/CollisionDetector.ts/QuadTreeNode.ts:26-47 | insert keeps the invariants: every item overlaps its node, a leaf below maxDepth holds at most capacity items, an inner node has no items and four quadrant children; the options are unchanged; an item that misses the node's region leaves it unchanged |
| QuadTreeNode.SplitTree | src/model/CollisionDetector.ts/QuadTreeNode.ts:34-43 | after the split the node keeps its invariants, has four children and no items of its own |
| QuadTreeNode.InsertAll | src/model/CollisionDetector.ts/QuadTreeNode.ts:36-41 | re-inserting the old items one by one keeps a child well formed |
| QuadTreeNode.ForwardTree | src/model/CollisionDetector.ts/QuadTreeNode.ts:44 | sending the item to the four children keeps the node well formed, with no items of its own |
| QuadTreeNode.AppendKeeps | src/model/CollisionDetector.ts/QuadTreeNode.ts:29-33 | appending to a leaf adds exactly that item and keeps every earlier item covered |
| QuadTreeNode.InsertCovers | src/model/CollisionDetector.ts/QuadTreeNode.ts:26-47 | after insert, every leaf the item overlaps holds it, every earlier item stays in every leaf it overlaps, and no other item appears |
| QuadTreeNode.SplitCovers | src/model/CollisionDetector.ts/QuadTreeNode.ts:34-43 | the split hands every item the leaf covered to every quadrant it overlaps, and invents none |
| QuadTreeNode.InsertAllCovers | src/model/CollisionDetector.ts/QuadTreeNode.ts:36-41 | each re-inserted item is covered, earlier coverage is kept, only those items are added |
| QuadTreeNode.ForwardCovers | src/model/CollisionDetector.ts/QuadTreeNode.ts:44 | forwarding covers the item in every child, keeps earlier coverage and adds only the item |
| QuadTreeNode.InsertAt | src/model/CollisionDetector.ts/QuadTreeNode.ts:26-47 | the tree becomes `InsertTree`. The answer is whether the item overlaps the region. The map keeps agreeing and changes only below the node: unchanged on refusal, `addToMap` at a leaf with room, and after a split or at an inner node the node itself is in no id's set |
| QuadTreeNode.Redistribute | src/model/CollisionDetector.ts/QuadTreeNode.ts:34-43 | split plus the nested loops give `SplitTree`, and the map agrees with the result |
| QuadTreeNode.MoveItems | src/model/CollisionDetector.ts/QuadTreeNode.ts:36-41 | one child receives all the leaf's items in order; afterwards the leaf is in no id's set |
| QuadTreeNode.MoveOne | src/model/CollisionDetector.ts/QuadTreeNode.ts:37-40 | one item leaves the leaf's record and is inserted into the child; the map changes only below the leaf |
| QuadTreeNode.Forward | src/model/CollisionDetector.ts/QuadTreeNode.ts:44 | the item is inserted into each child in turn, giving `ForwardTree`; the map agrees and records nothing at the node |
| QuadTreeNode.MapSet | src/model/CollisionDetector.ts/QuadTreeNode.ts:53 | `Map.set` keeps the key order and appends a new key at the end |
| QuadTreeNode.MapSetLookup | src/model/CollisionDetector.ts/QuadTreeNode.ts:53 | after `set(id, data)`, `get(id)` is data and every other key keeps its value |
| QuadTreeNode.MapSetDistinct | src/model/CollisionDetector.ts/QuadTreeNode.ts:50-60 | `set` never repeats a key |
| QuadTreeNode.SetAllIds | src/model/CollisionDetector.ts/QuadTreeNode.ts:56-61 | setting a list of entries: the keys are the old keys and the list's keys |
| QuadTreeNode.SetAllDistinct | src/model/CollisionDetector.ts/QuadTreeNode.ts:56-61 | setting a list of entries keeps the keys distinct |
| QuadTreeNode.SetAllFrom | src/model/CollisionDetector.ts/QuadTreeNode.ts:56-61 | every value found afterwards came from the old map or from the list |
| QuadTreeNode.ItemBindings | src/model/CollisionDetector.ts/QuadTreeNode.ts:53 | one entry per own item, its id with its data, in order |
| QuadTreeNode.QueryTree | src/model/CollisionDetector.ts/QuadTreeNode.ts:49-63 | the result of `query` never holds an id twice |
| QuadTreeNode.MergeChildren | src/model/CollisionDetector.ts/QuadTreeNode.ts:56-61 | merging the children's results gives distinct keys, and the keys are exactly the union of the children's keys |
| QuadTreeNode.QueryFrom | src/model/CollisionDetector.ts/QuadTreeNode.ts:49-63 | the recursive query with its loops computes `QueryTree` |
| QuadTreeNode.QueryChildren | src/model/CollisionDetector.ts/QuadTreeNode.ts:56-61 | the loop over the children computes their merged results |
| QuadTreeNode.MergeNext | src/model/CollisionDetector.ts/QuadTreeNode.ts:57-60 | one child's result set into the accumulated map gives the merge of one more child |
| QuadTreeNode.SetEach | src/model/CollisionDetector.ts/QuadTreeNode.ts:58-60 | the entry-by-entry `set` loop computes `SetAll` |
| QuadTreeNode.QuerySound | src/model/CollisionDetector.ts/QuadTreeNode.ts:49-63 | every reported entry is a stored item's id with that item's data |
| QuadTreeNode.QueryFinds | src/model/CollisionDetector.ts/QuadTreeNode.ts:49-63 | an item the tree covers is reported by a probe that shares a box of positive extent with the item inside the node's region |
| QuadTreeNode.InsertThenQuery | src/model/CollisionDetector.ts/QuadTreeNode.ts:26-63 | an item of positive extent inside the region is reported by every later query whose probe, of positive extent, overlaps it |
| QuadTreeNode.MidlineItemLost | src/model/CollisionDetector.ts/QuadTreeNode.ts:34-44 | a zero-width item on the midline, inserted into a full leaf, overlaps it but ends up stored nowhere, and the query over the region is empty |
| QuadTreeNode.RootNode.constructor | src/model/CollisionDetector.ts/QuadTreeNode.ts:24 | a valid empty leaf with an empty map |
| QuadTreeNode.RootNode.Insert | src/model/CollisionDetector.ts/QuadTreeNode.ts:26-47 | the root becomes `InsertTree` and stays valid, the map agreeing with it; the answer is whether the box overlaps the root; the map is unchanged on refusal and gets `addToMap` at a root leaf with room |
| QuadTreeNode.RootNode.Query | src/model/CollisionDetector.ts/QuadTreeNode.ts:49-63 | returns `QueryTree` of the root, with distinct ids |
| CollisionDetector.Values | src/model/CollisionDetector.ts/CollisionDetector.ts:31 | the map's values in its order, one per entry |
| CollisionDetector.HitProbe | src/model/CollisionDetector.ts/CollisionDetector.ts:35-40 | the probe is the 1×1 cell with an integer corner that holds the world point |
| CollisionDetector.HitProbeMeetsContainingBoxes | src/model/CollisionDetector.ts/CollisionDetector.ts:35-40 | the probe intersects every box holding the world point in its interior |
| CollisionDetector.CollisionDetector.constructor | src/model/CollisionDetector.ts/CollisionDetector.ts:19-21 | the root is an empty leaf at depth 0 over the stage with the configured capacity and maxDepth, and an empty map |
| CollisionDetector.CollisionDetector.AddShape | src/model/CollisionDetector.ts/CollisionDetector.ts:23-27 | the shape goes into the root under its aabb; the answer is exactly the insert's, i.e. whether the aabb overlaps the stage |
| CollisionDetector.CollisionDetector.Query | src/model/CollisionDetector.ts/CollisionDetector.ts:29-32 | the values of the root's query result; each is a stored shape and no two share an id |
| CollisionDetector.CollisionDetector.Hit | src/model/CollisionDetector.ts/CollisionDetector.ts:34-52 | the first broad-phase candidate, in query order, whose pixel test passes at the floored view point; none exactly when all fail; a hit is a stored shape |
| CollisionDetector.FirstPassing | src/model/CollisionDetector.ts/CollisionDetector.ts:41-51 | the loop returns the first candidate with positive alpha, every earlier one failing, or none when all fail |
| CollisionDetector.InsertThrowsWithoutMap | src/model/CollisionDetector.ts/CollisionDetector.ts:19-21 | whether an insert reaches `addToMap` or `removeFromMap`; that happens only when the box overlaps the region |
| CollisionDetector.FirstOverlappingShapeThrows | src/model/CollisionDetector.ts/CollisionDetector.ts:19-27 | with no map, the first shape overlapping the stage reaches the map and throws |
| QuadTree.GetIndex | src/QuadTree.ts:63-82 | 0, 1, 2 or 3 exactly when the rect lies strictly on one side of both midlines (TL, TR, BL, BR), −1 otherwise |
| QuadTree.GetIndices | src/QuadTree.ts:134-154 | every index returned names one of the four quadrants (0 to 3) |
| QuadTree.GetIndicesMembers | src/QuadTree.ts:134-154 | `getIndices` lists exactly the quadrants the rect reaches |
| QuadTree.GetIndicesIncreasing | src/QuadTree.ts:134-154 | each index appears once, in increasing order |
| QuadTree.GetIndexInIndices | src/QuadTree.ts:63-82 | a rect that fits quadrant k is among the quadrants retrieval visits for it |
| QuadTree.GetIndexOnlyIndex | src/QuadTree.ts:63-82 | a rect that fits quadrant k reaches that quadrant only |
| QuadTree.FitsQuadrantIntersects | src/QuadTree.ts:63-82 | a rect that fits quadrant k and touches the region touches that quadrant |
| QuadTree.FitReached | src/QuadTree.ts:134-154 | a rect touching an object that fits quadrant k reaches quadrant k |
| QuadTree.TouchingBoxesIntersect | src/QuadTree.ts:27-32 | `intersects` counts boxes that only share an edge, unlike `aabbIntersects` |
| QuadTree.Intersects | src/QuadTree.ts:27-32 | holds exactly when the closed boxes overlap on both axes, so boxes that only touch intersect |
| QuadTree.IntersectsSymmetric | src/QuadTree.ts:27-32 | `intersects` is symmetric |
| QuadTree.StrictOverlapImpliesIntersects | src/QuadTree.ts:27-32 | whatever `aabbIntersects` accepts, `intersects` accepts |
| QuadTree.WithIndexPartition | src/QuadTree.ts:102-109 | sorting objects by their index keeps each object exactly once |
| QuadTree.WithIndexFits | src/QuadTree.ts:102-109 | the objects sent to quadrant k all fit quadrant k |
| QuadTree.Intersecting | src/QuadTree.ts:117-121 | the filter keeps only objects of the list that intersect the rect, and never lengthens it |
| QuadTree.IntersectingCount | src/QuadTree.ts:117-121 | the own-objects filter keeps every copy of an intersecting object and no other |
| QuadTree.NewNode | src/QuadTree.ts:14-24 | a new node is well formed, empty, with the given options |
| QuadTree.Split | src/QuadTree.ts:34-61 | four empty children over the quadrants one level down; the node's objects and contents are unchanged |
| QuadTree.InsertInto | src/QuadTree.ts:84-111 | the subtree gains exactly the one object and stays well formed. A fitting object goes only into its child. A non-fitting one is appended. An overflowing leaf above maxLevels splits; fitting objects move down, the rest stay in order |
| QuadTree.InsertBelow | src/QuadTree.ts:86-91 | only the child the object fits changes, and it gains the object |
| QuadTree.SplitAndRedistribute | src/QuadTree.ts:98-110 | the split leaf keeps the non-fitting objects in order; child k holds exactly those fitting quadrant k; nothing is lost |
| QuadTree.Redistribute | src/QuadTree.ts:101-109 | the loop after the split leaves the non-fitting objects in order and child k with the objects of index k |
| QuadTree.PushDown | src/QuadTree.ts:102-109 | the splice loop leaves the non-fitting objects in order and moves each fitting one to its child |
| QuadTree.PushOne | src/QuadTree.ts:103-108 | one pass of the splice loop keeps the loop invariant and shortens the remaining objects |
| QuadTree.InsertIntoChild | src/QuadTree.ts:105 | only the chosen child changes, and it gains the object |
| QuadTree.PartitionContents | src/QuadTree.ts:102-109 | what stays and what moved down is, together, what the node held |
| QuadTree.Retrieved | src/QuadTree.ts:113-132 | everything retrieve returns intersects the rect |
| QuadTree.RetrievedFrom | src/QuadTree.ts:124-129 | everything the visited children return intersects the rect |
| QuadTree.RetrievedCount | src/QuadTree.ts:113-132 | retrieve returns each stored object that touches the rect as often as it is stored, and nothing else |
| QuadTree.RetrieveFrom | src/QuadTree.ts:113-132 | the loops of `retrieve`: own intersecting objects in order, then the reached children's results |
| QuadTree.RetrieveChildren | src/QuadTree.ts:124-129 | the children named by `getIndices` are asked in order and their results appended |
| QuadTree.RetrieveNext | src/QuadTree.ts:126-128 | one pass appends one reached child's result |
| QuadTree.Cleared | src/QuadTree.ts:156-162 | after `clear` the node is empty with the same options |
| QuadTree.QuadTree.constructor | src/QuadTree.ts:14-24 | a valid empty tree with the defaults 10 objects, 4 levels, level 0 |
| QuadTree.QuadTree.Insert | src/QuadTree.ts:84-111 | the tree gains exactly the object and stays well formed |
| QuadTree.QuadTree.Retrieve | src/QuadTree.ts:113-132 | the result holds exactly the stored objects that touch the rect, with their multiplicity |
| QuadTree.QuadTree.Clear | src/QuadTree.ts:156-162 | the tree holds nothing and has no children |
| MathUtils.MatrixToCanvasTransform | src/model/MathUtils.ts:5-25 | fails exactly when there are not 3 rows or the first row lacks 3 entries; otherwise a canvas reads the six numbers back as the matrix's top two rows over (0, 0, 1) |
| MathUtils.CanvasMatrixInjective | src/model/MathUtils.ts:17-24 | the canvas reading is one-to-one, so that contract fixes the six numbers |
| MathUtils.CanvasRoundTrip | src/model/MathUtils.ts:17-24 | an affine matrix survives the conversion to a canvas transform and back |
| MathUtils.CanvasTransformIgnoresBottomRow | src/model/MathUtils.ts:17-24 | matrices differing only in the bottom row give the same output |
| MathUtils.TransformPointOrVector | src/model/MathUtils.ts:35-39 | the first two entries of m·(x, y, w) |
| MathUtils.TransformPoint | src/model/MathUtils.ts:27-29 | the first two entries of m·(x, y, 1) |
| MathUtils.CanvasAgreesWithTransformPoint | src/model/MathUtils.ts:5-29 | a canvas given the extracted transform maps points as `transformPoint` does |
| MathUtils.TransformPointMultiply | src/model/MathUtils.ts:35-39 | transforming by a product of affine matrices is transforming by the right factor, then the left |
| MathUtils.TransformVector | src/model/MathUtils.ts:31-33 | as written, `transformVector` equals `transformPoint`, translation included |
| MathUtils.TransformVectorAddsTranslation | src/model/MathUtils.ts:31-39 | for every matrix and vector, `transformVector` as written is the linear transform plus the translation column |
| MathUtils.TransformVectorKeepsTranslation | src/model/MathUtils.ts:31-33 | under a translation by (5, 0) the vector (1, 0) becomes (6, 0) |
| MathUtils.TransformVectorLinear | src/model/MathUtils.ts:31-39 | the vector transform with w = 0: the linear part only |
| MathUtils.TransformVectorOfDifference | src/model/MathUtils.ts:31-39 | the corrected transform maps the difference of two points to the difference of their images |
| MathUtils.TransformAabb | src/model/MathUtils.ts:41-61 | the corner is scaled by the diagonal and moved by the translation column; width and height are scaled by the diagonal |
| MathUtils.TransformAabbMapsCorners | src/model/MathUtils.ts:41-61 | with no rotation or shear, `transformAABB` moves both corners where `transformPoint` moves them |
| MathUtils.TransformAabbIdentity | src/model/MathUtils.ts:41-61 | the identity matrix leaves a box unchanged |
| UtilsMathUtils.MatrixToCanvasTransform | src/utils/MathUtils.ts:4-24 | fails exactly on a non-3×3 outer or first-row length; otherwise six entries, entry k being m[k mod 2][k div 2] |
| UtilsMathUtils.AgreesWithModelCopy | src/utils/MathUtils.ts:4-24 | the utils copy agrees with the model copy on every matrix |
| UtilsMathUtils.IgnoresBottomRow | src/utils/MathUtils.ts:16-23 | matrices differing only in the bottom row give identical output |
| Camera.Camera.constructor | src/model/Camera.ts:42-45 | width and height from the options, translation (0, 0), scale 1 |
| Camera.Camera.TranslateMatrix | src/model/Camera.ts:26-32 | a 3×3 affine matrix |
| Camera.Camera.ScaleMatrix | src/model/Camera.ts:34-40 | a 3×3 affine matrix |
| Camera.Camera.InvViewMatrix | src/model/Camera.ts:18-20 | translateMatrix·scaleMatrix is [[s, 0, tx], [0, s, ty], [0, 0, 1]] |
| Camera.Camera.ViewMatrix | src/model/Camera.ts:22-24 | fails exactly when the scale is 0; otherwise a two-sided inverse of `invViewMatrix` |
| Camera.Camera.ToWorld | src/model/Camera.ts:56-59 | fails exactly when the scale is 0; otherwise (p − t)/s, which `invViewMatrix` maps back to p |
| Camera.Camera.Translate | src/model/Camera.ts:47-50 | adds to both translation components; scale, width and height unchanged |
| Camera.Camera.Scale | src/model/Camera.ts:52-54 | multiplies the scale; translation, width and height unchanged |
| Camera.InverseTranslateScaleIsInverse | src/model/Camera.ts:22-24 | the closed form is the inverse of the translate·scale matrix on both sides |
| Camera.ToWorldSolves | src/model/Camera.ts:56-59 | the view matrix sends p to (p − t)/s, which solves s·r + t = p |
| Shape.Shape.constructor | src/model/Shape.ts:10-22 | rotation 0, translation (0, 0), scale (1, 1), identity rotation matrix |
| Shape.Shape.TranslateMatrix | src/model/Shape.ts:28-34 | a 3×3 affine matrix |
| Shape.Shape.ScaleMatrix | src/model/Shape.ts:36-42 | a 3×3 linear part, with no translation |
| Shape.Shape.TransformMatrix | src/model/Shape.ts:24-26 | bottom row (0, 0, 1) and last column the translation (tx, ty, 1) |
| Shape.Shape.Rotate | src/model/Shape.ts:48-59 | sets the rotation (not adding) and the rotation matrix; translation and scale unchanged |
| Shape.Shape.Scale | src/model/Shape.ts:61-64 | multiplies each scale factor; translation and rotation unchanged |
| Shape.Shape.Translate | src/model/Shape.ts:66-69 | adds to each translation component; scale and rotation unchanged |
| Shape.TranslateRotateColumn | src/model/Shape.ts:24-26 | translate·rotate keeps the translation column and the affine bottom row |
| Shape.TransformOrder | src/model/Shape.ts:24-42 | the transform applies scaling first, then rotation, then translation |
| Stage.WithShape | src/model/Stage.ts:17-19 | the shape is found under its id, other keys are kept with their shapes, and the map grows only for a new id |
| Stage.WithShapeIdempotent | src/model/Stage.ts:17-19 | adding the same shape twice equals adding it once |
| Stage.WithShapeReplaces | src/model/Stage.ts:17-19 | a later shape with the same id replaces the earlier one |
| Stage.Stage.constructor | src/model/Stage.ts:9-15 | no shapes and a fresh camera from the options |
| Stage.Stage.AddShape | src/model/Stage.ts:17-19 | the map becomes `WithShape` of the old map; the camera is kept |
| Stage.AddShapeTwice | src/model/Stage.ts:17-19 | two calls with one shape leave the stage as one call does |
| CanvasObject.Ceil | src/CanvasObject.ts:26-27 | the least whole number at or above the argument |
| CanvasObject.CanvasObject.constructor | src/CanvasObject.ts:8-19 | the given box and no pixel data |
| CanvasObject.CanvasObject.Bounds | src/CanvasObject.ts:22-29 | the whole-pixel box: corner rounded down, extents rounded up |
| CanvasObject.CanvasObject.CapturePixelData | src/CanvasObject.ts:39-45 | keeps the buffer only when both rounded extents are positive; the box is unchanged |
| CanvasObject.CanvasObject.IsPointInPixel | src/CanvasObject.ts:48-67 | false without data or outside [0, width) × [0, height); otherwise whether the alpha byte at (floor ly·ceil w + floor lx)·4 + 3 is positive |
| CanvasObject.AlphaIndex | src/CanvasObject.ts:63-66 | the index is the fourth (alpha) byte of pixel number pixelY·rowWidth + pixelX |
| CanvasObject.AlphaIndexInBuffer | src/CanvasObject.ts:56-66 | for a point passing the bounds check, the index read is below 4·ceil(width)·ceil(height) |
| CanvasObject.PixelTestReadsBuffer | src/CanvasObject.ts:48-67 | with a buffer matching the bounds, the test never reads past its end |

## Left out

- Identity and aliasing of quadtree nodes are not modelled. Nodes are values, a path from the root names a node in `shapeToNodes`, and nodes are never shared.
- Floating point is not modelled. Every number is `real`, so there is no IEEE rounding.
- The trigonometry of `rotate` is not modelled. The host passes the cosine and sine to `Shape.Shape.Rotate`.
- mathjs is not modelled. `multiply`, `inv` and `transpose` are replaced by 3×3 arithmetic and the closed-form inverse of translate·scale.
- Rendering is not modelled: `Shape.render`, `Stage.render`, `CanvasObject.draw`, and the canvas that `hit` creates.
- The narrow phase of `hit` is a parameter, `alphaAt(shape, px, py)`. It gives the alpha byte read after rendering the shape, or none when no drawing context exists.
- `shape.aabb` and `stage.bounding` are given to the model, since the shape and stage classes do not define them.
- The insertion order of `Stage.shapes` is not modelled. It is a Dafny `map`, and only `render`, which is left out, walks it in order.
- `nanoid` is not modelled. Ids are constructor inputs.
- The `console.log` in `addShape` has no effect on state and is left out.
- CollisionDetector.CollisionDetector.constructor: gives the root an empty map, which is the corrected behaviour (see Findings).
- QuadTreeNode.RootNode.Insert: after a split, the map is stated through its agreement with the tree (which nodes hold which ids), not as the sequence of `addToMap`/`removeFromMap` calls. Ids whose node set became empty stay as keys in the source, and agreement does not state whether they do.
- QuadTreeNode.QueryFinds: requires a probe overlap of positive extent. Boxes of zero width or height can be lost on a split (`QuadTreeNode.MidlineItemLost`).

## Findings

| source | as written | input that shows it | evidently intended | confidence | as-written member | corrected member |
|---|---|---|---|---|---|---|
| src/model/MathUtils.ts:31-33 | `transformVector` passes w = 1, so it adds the translation like `transformPoint` | a translation by (5, 0) and the vector (1, 0) give (6, 0) | w = 0, so a vector is moved by the linear part only: (1, 0) | not executed | MathUtils.TransformVectorAddsTranslation | MathUtils.TransformVectorOfDifference |
| src/model/CollisionDetector.ts/CollisionDetector.ts:20 | the root `QuadTreeNode` is built without its `shapeToNodes` map, so `addToMap` reads `get` of undefined | a new detector with capacity 1 and a shape whose aabb overlaps the stage: the first `addShape` reaches `addToMap` and throws | the constructor passes a new empty `Map` | not executed | CollisionDetector.FirstOverlappingShapeThrows | CollisionDetector.CollisionDetector.AddShape |
