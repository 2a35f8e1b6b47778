/** The collision detector of src/model/CollisionDetector.ts/CollisionDetector.ts: a quad
    tree of shapes over the stage, a broad phase that asks it for the shapes near a
    point, and a narrow phase that keeps the first candidate whose pixel test passes. */
module CollisionDetector {
  import opened Geometry
  import opened Wrappers
  import opened QuadTreeNode
  import Shape

  /** `Array.from(resultMap.values())`: the stored values, in the map's order. */
  function Values<D>(m: seq<Binding<D>>): (vs: seq<D>)
    ensures |vs| == |m| && forall i :: 0 <= i < |m| ==> vs[i] == m[i].data
  {
    seq(|m|, i requires 0 <= i < |m| => m[i].data)
  }

  /** The broad-phase probe of `hit`: the 1×1 cell whose corner is the floored world
      point. */
  function HitProbe(world: Coordinate): (b: Aabb)
    ensures b.width == 1.0 && b.height == 1.0
    ensures b.x <= world.x < b.x + 1.0 && b.y <= world.y < b.y + 1.0
    ensures b.x == b.x.Floor as real && b.y == b.y.Floor as real
  {
    Aabb(world.x.Floor as real, world.y.Floor as real, 1.0, 1.0)
  }

  /** The probe reaches every shape whose box holds the world point in its interior. */
  lemma HitProbeMeetsContainingBoxes(world: Coordinate, box: Aabb)
    requires StrictlyInside(box, world)
    ensures AabbIntersects(HitProbe(world), box)
  {
    var b := HitProbe(world);
    assert b.x <= world.x < b.x + 1.0;
    assert b.y <= world.y < b.y + 1.0;
  }

  /** The narrow-phase test of `hit`: the alpha byte sampled under the view point, if a
      drawing context could be made, is positive. */
  predicate PixelPasses(alpha: Option<int>) {
    alpha.Some? && alpha.value > 0
  }

  class CollisionDetector {
    /** `stage.bounding`, which the stage model does not define; given here. */
    const stageBounding: Aabb
    const maxDepth: int
    const capacity: int
    var quadTree: RootNode<Shape.Shape>

    /** The quad tree is a valid root over the stage with the configured limits, and
        every item is stored under its shape's id. */
    ghost predicate Valid()
      reads this, quadTree
    {
      quadTree.Valid() &&
      quadTree.root.bounding == stageBounding && quadTree.root.depth == 0 &&
      quadTree.root.maxDepth == maxDepth && quadTree.root.capacity == capacity &&
      forall y :: y in Elements(quadTree.root) ==> y.id == y.data.id
    }

    /** The shapes stored in the tree. */
    ghost function Stored(): set<Shape.Shape>
      reads this, quadTree
    {
      set y | y in Elements(quadTree.root) :: y.data
    }

    /** The root is an empty leaf at depth 0 covering the stage, with its own empty
        `shapeToNodes` map. */
    constructor (maxDepth: int, capacity: int, stageBounding: Aabb)
      ensures Valid() && fresh(quadTree)
      ensures this.stageBounding == stageBounding && this.maxDepth == maxDepth && this.capacity == capacity
      ensures quadTree.root == NewNode(stageBounding, maxDepth, capacity, 0)
      ensures quadTree.shapeToNodes == map[]
    {
      this.stageBounding := stageBounding;
      this.maxDepth := maxDepth;
      this.capacity := capacity;
      quadTree := new RootNode(stageBounding, maxDepth, capacity, 0);
      assert ItemSet<Shape.Shape>([]) == {};
    }

    /** `addShape(shape)`, with `aabb` standing for `shape.aabb`: the shape goes into the
        tree under its own id, and the result is exactly the root insert's. */
    method AddShape(shape: Shape.Shape, aabb: Aabb) returns (ok: bool)
      requires Valid()
      modifies quadTree
      ensures Valid()
      ensures quadTree.root == InsertTree(old(quadTree.root), Item(shape.id, aabb, shape))
      ensures ok == AabbIntersects(stageBounding, aabb)
    {
      ghost var before := quadTree.root;
      ok := quadTree.Insert(shape.id, shape, aabb);
      InsertCovers(before, Item(shape.id, aabb, shape));
    }

    /** `query(bounding)`: the shapes of the tree's id-keyed result, in its order; each is
        a stored shape and no two share an id. */
    method Query(probe: Aabb) returns (shapes: seq<Shape.Shape>)
      requires Valid()
      ensures shapes == Values(QueryTree(quadTree.root, probe))
      ensures forall i :: 0 <= i < |shapes| ==> shapes[i] in Stored()
      ensures forall i, j :: 0 <= i < j < |shapes| ==> shapes[i].id != shapes[j].id
    {
      var result := quadTree.Query(probe);
      QuerySound(quadTree.root, probe);
      shapes := Values(result);
      forall i | 0 <= i < |shapes|
        ensures shapes[i] in Stored() && shapes[i].id == result[i].id
      {
        assert result[i] in result;
        var y :| y in Elements(quadTree.root) && result[i] == Binding(y.id, y.data);
      }
    }

    /** `hit(view, world)`: the broad phase asks for the shapes near the floored world
        point; the result is the first of them, in that order, whose pixel test passes,
        and None when none passes. `alphaAt(shape, px, py)` stands for rendering the
        shape with the stage's camera and reading the alpha byte at pixel (px, py); None
        when no drawing context is available. */
    method Hit(view: Coordinate, world: Coordinate, alphaAt: (Shape.Shape, int, int) -> Option<int>)
      returns (hit: Option<Shape.Shape>)
      requires Valid()
      ensures var candidates := Values(QueryTree(quadTree.root, HitProbe(world)));
              IsFirstPassing(hit, candidates, alphaAt, view.x.Floor, view.y.Floor)
      ensures hit.Some? ==> hit.value in Stored()
    {
      var candidates := Query(HitProbe(world));
      hit := FirstPassing(candidates, alphaAt, view.x.Floor, view.y.Floor);
    }
  }

  /** `hit` is the first candidate whose pixel test at (px, py) passes, every candidate
      before it failing; None exactly when every candidate fails. */
  predicate IsFirstPassing<S(==)>(hit: Option<S>, candidates: seq<S>, alphaAt: (S, int, int) -> Option<int>, px: int, py: int) {
    (hit.Some? ==> exists i :: 0 <= i < |candidates| && candidates[i] == hit.value &&
                     PixelPasses(alphaAt(candidates[i], px, py)) &&
                     forall j :: 0 <= j < i ==> !PixelPasses(alphaAt(candidates[j], px, py))) &&
    (hit.None? ==> forall i :: 0 <= i < |candidates| ==> !PixelPasses(alphaAt(candidates[i], px, py)))
  }

  /** The narrow-phase loop of `hit`: the candidates in order, returning at the first
      whose alpha byte is positive. */
  method FirstPassing<S(==)>(candidates: seq<S>, alphaAt: (S, int, int) -> Option<int>, px: int, py: int)
    returns (hit: Option<S>)
    ensures IsFirstPassing(hit, candidates, alphaAt, px, py)
    ensures hit.Some? ==> hit.value in candidates
  {
    var i := 0;
    while i < |candidates|
      invariant 0 <= i <= |candidates|
      invariant forall j :: 0 <= j < i ==> !PixelPasses(alphaAt(candidates[j], px, py))
    {
      var alpha := alphaAt(candidates[i], px, py);
      if alpha.Some? && alpha.value > 0 {
        return Some(candidates[i]);
      }
      i := i + 1;
    }
    return None;
  }

  // ---------------------------------------------------------------------------------------
  // The constructor as written: no `shapeToNodes` map

  /** Whether `insert` reaches the shared map on the way, so that with no map (`undefined`)
      it throws a TypeError: a leaf with room calls `addToMap`, a full leaf calls
      `removeFromMap` for each of its items, and otherwise the insert goes on into the
      children (of the split, for a full empty leaf). */
  function InsertThrowsWithoutMap<D>(n: Node<D>, x: Item<D>): (throws: bool)
    requires WellFormed(n)
    ensures throws ==> AabbIntersects(n.bounding, x.bounding)
    decreases n.maxDepth - n.depth
  {
    AabbIntersects(n.bounding, x.bounding) &&
    if IsLeaf(n) then
      HasRoom(n) || |n.items| > 0 ||
      exists k :: 0 <= k < 4 && InsertThrowsWithoutMap(Split(n)[k], x)
    else
      exists k :: 0 <= k < 4 && InsertThrowsWithoutMap(n.children[k], x)
  }

  /** The constructor builds the root with `new QuadTreeNode(options)`, leaving its map
      undefined: the first shape whose box overlaps the stage makes `addShape` throw. */
  lemma FirstOverlappingShapeThrows(maxDepth: int, capacity: int, stageBounding: Aabb, x: Item<Shape.Shape>)
    requires capacity > 0 || maxDepth <= 0
    requires AabbIntersects(stageBounding, x.bounding)
    ensures InsertThrowsWithoutMap(NewNode(stageBounding, maxDepth, capacity, 0), x)
  {
  }
}
