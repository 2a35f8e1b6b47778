/** The region quadtree of src/model/CollisionDetector.ts/QuadTreeNode.ts. A leaf takes
    items until it holds `capacity` of them (or without limit at `maxDepth`); a full leaf
    splits into its four quadrants and re-inserts every item into every child it overlaps.
    One `shapeToNodes` map, shared by all nodes, records which nodes hold each id.

    Nodes are values here: a node is named by its path, the child indices leading to it
    from the root, and the shared map records paths. */
module QuadTreeNode {
  import opened Geometry
  import opened Wrappers

  /** The child indices (0 to 3) that lead from the root to a node. */
  type Path = seq<nat>

  /** `QuadTreeItem`: the id of the data, the box it was inserted under, and the data. */
  datatype Item<D> = Item(id: string, bounding: Aabb, data: D)

  /** `shapeToNodes`: for each id, the set of nodes (by path) that hold an item with it. */
  type NodeIndex = map<string, set<Path>>

  /** A node: its options (region, `maxDepth`, `capacity`, `depth`), `items` and
      `children`. */
  datatype Node<D> = Node(bounding: Aabb, maxDepth: int, capacity: int, depth: int,
                          items: seq<Item<D>>, children: seq<Node<D>>)

  /** `isLeaf`. */
  predicate IsLeaf<D>(n: Node<D>)
    ensures WellFormed(n) && !IsLeaf(n) ==> n.items == [] && |n.children| == 4 && n.depth < n.maxDepth
  {
    |n.children| == 0
  }

  /** The leaf test of `insert`: the leaf may take one more item without splitting. */
  predicate HasRoom<D>(n: Node<D>)
    ensures HasRoom(n) && n.depth < n.maxDepth ==> |n.items| + 1 <= Room(n.capacity)
    ensures !HasRoom(n) ==> n.depth < n.maxDepth && |n.items| >= Room(n.capacity)
  {
    |n.items| < n.capacity || n.depth >= n.maxDepth
  }

  /** The most items a leaf below `maxDepth` can hold. */
  function Room(capacity: int): nat {
    if capacity < 0 then 0 else capacity
  }

  /** The ids of a list of items. */
  ghost function ItemIds<D>(items: seq<Item<D>>): set<string> {
    set i | 0 <= i < |items| :: items[i].id
  }

  /** The items of a list, as a set. */
  ghost function ItemSet<D>(items: seq<Item<D>>): set<Item<D>> {
    set i | 0 <= i < |items| :: items[i]
  }

  // ---------------------------------------------------------------------------------------
  // Paths and the shared map

  /** `q` is the path of `p`'s node or of a node below it. */
  predicate Under(p: Path, q: Path) {
    |p| <= |q| && q[..|p|] == p
  }

  /** `q` is the path of a node strictly below `p`'s node. */
  predicate StrictlyUnder(p: Path, q: Path) {
    |p| < |q| && q[..|p|] == p
  }

  /** The map records that the node at `q` holds an item with `id`. */
  predicate InMap(m: NodeIndex, id: string, q: Path) {
    id in m && q in m[id]
  }

  /** A path below child `k` of `p` is strictly below `p`, and its next step is `k`. */
  lemma UnderChild(p: Path, k: nat, q: Path)
    requires Under(p + [k], q)
    ensures StrictlyUnder(p, q) && q[|p|] == k
  {
    assert q[..|p|] == (q[..|p| + 1])[..|p|];
  }

  /** `addToMap`: the node joins the id's set, which is created when the id is new. */
  function AddToMap(m: NodeIndex, id: string, p: Path): (r: NodeIndex)
    ensures forall i, q :: InMap(r, i, q) <==> InMap(m, i, q) || (i == id && q == p)
    ensures r.Keys == m.Keys + {id}
  {
    if id !in m then m[id := {p}] else m[id := m[id] + {p}]
  }

  /** `removeFromMap`: the node leaves the id's set; an absent id is left absent, and a set
      that becomes empty stays in the map. */
  function RemoveFromMap(m: NodeIndex, id: string, p: Path): (r: NodeIndex)
    ensures forall i, q :: InMap(r, i, q) <==> InMap(m, i, q) && !(i == id && q == p)
    ensures r.Keys == m.Keys
  {
    if id !in m then m else m[id := m[id] - {p}]
  }

  /** Adding a node and removing it again leaves the recorded pairs as they were, when
      the pair was not recorded before. */
  lemma AddThenRemove(m: NodeIndex, id: string, p: Path)
    requires !InMap(m, id, p)
    ensures forall i, q :: InMap(RemoveFromMap(AddToMap(m, id, p), id, p), i, q) <==> InMap(m, i, q)
  {
  }

  /** The map is unchanged outside the subtree at `p`. */
  ghost predicate SameOutside(m: NodeIndex, m': NodeIndex, p: Path) {
    forall id, q :: !Under(p, q) ==> (InMap(m', id, q) <==> InMap(m, id, q))
  }

  /** The map agrees with the subtree `n` stored at path `p`: it records `p` for exactly
      the ids of `n`'s items, records nothing strictly below `p` except below a child,
      and agrees with each child at its own path. */
  ghost predicate Agrees<D>(m: NodeIndex, n: Node<D>, p: Path)
    decreases n
  {
    (forall id :: InMap(m, id, p) <==> id in ItemIds(n.items)) &&
    (forall id, q :: InMap(m, id, q) && StrictlyUnder(p, q) ==> |n.children| == 4 && q[|p|] < 4) &&
    (forall k :: 0 <= k < |n.children| ==> Agrees(m, n.children[k], p + [k]))
  }

  /** The item ids held by the node reached from `n` along `rel`, if there is one. */
  ghost function HeldAt<D>(n: Node<D>, rel: Path): set<string>
    decreases |rel|
  {
    if rel == [] then ItemIds(n.items)
    else if rel[0] < |n.children| then HeldAt(n.children[rel[0]], rel[1..])
    else {}
  }

  /** What agreement means: below `p`, the map records exactly the pairs (id, node path)
      for which that node holds an item with the id. */
  lemma {:induction false} AgreesMeaning<D>(m: NodeIndex, n: Node<D>, p: Path, rel: Path, id: string)
    requires Agrees(m, n, p)
    ensures InMap(m, id, p + rel) <==> id in HeldAt(n, rel)
    decreases |rel|
  {
    if rel != [] {
      var q := p + rel;
      assert q[..|p|] == p && q[|p|] == rel[0];
      assert StrictlyUnder(p, q);
      if rel[0] < |n.children| {
        var k := rel[0];
        assert q == (p + [k]) + rel[1..];
        AgreesMeaning(m, n.children[k], p + [k], rel[1..], id);
        assert HeldAt(n, rel) == HeldAt(n.children[k], rel[1..]);
      } else {
        assert HeldAt(n, rel) == {};
        assert !InMap(m, id, q);
      }
    } else {
      assert p + rel == p;
    }
  }

  /** Agreement with a subtree depends only on the map below the subtree's path. */
  lemma {:induction false} AgreesFrame<D>(m: NodeIndex, m': NodeIndex, n: Node<D>, p: Path)
    requires Agrees(m, n, p)
    requires forall id, q :: Under(p, q) ==> (InMap(m', id, q) <==> InMap(m, id, q))
    ensures Agrees(m', n, p)
    decreases n
  {
    forall id, q | InMap(m', id, q) && StrictlyUnder(p, q)
      ensures |n.children| == 4 && q[|p|] < 4
    {
      assert Under(p, q);
    }
    forall k | 0 <= k < |n.children|
      ensures Agrees(m', n.children[k], p + [k])
    {
      forall id, q | Under(p + [k], q)
        ensures InMap(m', id, q) <==> InMap(m, id, q)
      {
        UnderChild(p, k, q);
      }
      AgreesFrame(m, m', n.children[k], p + [k]);
    }
  }

  /** A change made below child `k` of `p` keeps agreement below every other child `j`. */
  lemma SiblingFrame<D>(m: NodeIndex, m': NodeIndex, c: Node<D>, p: Path, j: nat, k: nat)
    requires j != k && Agrees(m, c, p + [j]) && SameOutside(m, m', p + [k])
    ensures Agrees(m', c, p + [j])
  {
    forall id, q | Under(p + [j], q)
      ensures InMap(m', id, q) <==> InMap(m, id, q)
    {
      UnderChild(p, j, q);
      if Under(p + [k], q) {
        UnderChild(p, k, q);
      }
    }
    AgreesFrame(m, m', c, p + [j]);
  }

  /** A change below child `k` of `p` is a change below `p`. */
  lemma SameOutsideChild(m: NodeIndex, m1: NodeIndex, m2: NodeIndex, p: Path, k: nat)
    requires SameOutside(m, m1, p) && SameOutside(m1, m2, p + [k])
    ensures SameOutside(m, m2, p)
  {
    forall id, q | !Under(p, q)
      ensures InMap(m2, id, q) <==> InMap(m, id, q)
    {
      if Under(p + [k], q) {
        UnderChild(p, k, q);
      }
    }
  }

  // ---------------------------------------------------------------------------------------
  // Shape of the tree

  /** The options a child of `n` gets in `split`: quadrant `k` of the region, one level
      deeper, the same `maxDepth` and `capacity`. */
  predicate ChildOf<D>(n: Node<D>, c: Node<D>, k: nat)
    requires k < 4
  {
    c.bounding == Quadrant(n.bounding, k) && c.depth == n.depth + 1 &&
    c.maxDepth == n.maxDepth && c.capacity == n.capacity
  }

  /** The invariants `insert` keeps: every item overlaps its node's region; a leaf below
      `maxDepth` holds at most `capacity` items; a node with children has none of its own,
      lies above `maxDepth` and has exactly the four quadrant children. */
  ghost predicate WellFormed<D>(n: Node<D>)
    decreases n
  {
    (forall i :: 0 <= i < |n.items| ==> AabbIntersects(n.bounding, n.items[i].bounding)) &&
    if |n.children| == 0 then
      n.depth < n.maxDepth ==> |n.items| <= Room(n.capacity)
    else
      |n.children| == 4 && n.depth < n.maxDepth && |n.items| == 0 &&
      forall k :: 0 <= k < 4 ==> ChildOf(n, n.children[k], k) && WellFormed(n.children[k])
  }

  /** Two nodes have the same options. */
  predicate SameConfig<D>(n: Node<D>, r: Node<D>) {
    r.bounding == n.bounding && r.maxDepth == n.maxDepth && r.capacity == n.capacity && r.depth == n.depth
  }

  /** `x` is held by every leaf of `n` whose region it overlaps. */
  ghost predicate Covers<D>(n: Node<D>, x: Item<D>)
    decreases n
  {
    AabbIntersects(n.bounding, x.bounding) ==>
      if |n.children| == 0 then x in n.items
      else forall k :: 0 <= k < |n.children| ==> Covers(n.children[k], x)
  }

  /** The items held anywhere in `n`. */
  ghost function Elements<D>(n: Node<D>): set<Item<D>>
    decreases n
  {
    ItemSet(n.items) +
    (set k, y | 0 <= k < |n.children| && y in Elements(n.children[k]) :: y)
  }

  /** `new QuadTreeNode(options, shapeToNodes)`: a leaf with no items. */
  function NewNode<D>(bounding: Aabb, maxDepth: int, capacity: int, depth: int): (n: Node<D>)
    ensures WellFormed(n) && IsLeaf(n) && n.items == []
    ensures n.bounding == bounding && n.maxDepth == maxDepth && n.capacity == capacity && n.depth == depth
  {
    Node(bounding, maxDepth, capacity, depth, [], [])
  }

  /** The children `split` creates: four empty leaves, one per quadrant. */
  function Split<D>(n: Node<D>): (cs: seq<Node<D>>)
    ensures |cs| == 4
    ensures forall k :: 0 <= k < 4 ==> ChildOf(n, cs[k], k) && WellFormed(cs[k]) && IsLeaf(cs[k]) && cs[k].items == []
  {
    seq(4, k requires 0 <= k < 4 => NewNode(Quadrant(n.bounding, k), n.maxDepth, n.capacity, n.depth + 1))
  }

  /** The map agrees with each of `cs` at its child path below `p`. */
  ghost predicate ChildrenAgree<D>(m: NodeIndex, cs: seq<Node<D>>, p: Path) {
    forall k :: 0 <= k < |cs| ==> Agrees(m, cs[k], p + [k])
  }

  /** Below `p`, the map records paths of child nodes only. */
  ghost predicate OnlyChildPaths(m: NodeIndex, p: Path) {
    forall id, q :: InMap(m, id, q) && StrictlyUnder(p, q) ==> q[|p|] < 4
  }

  /** The map agrees with the leaf `n` after one item is appended and `p` is added to the
      item's id. */
  lemma AppendAgrees<D>(m: NodeIndex, n: Node<D>, p: Path, x: Item<D>)
    requires Agrees(m, n, p) && IsLeaf(n)
    ensures Agrees(AddToMap(m, x.id, p), n.(items := n.items + [x]), p)
  {
    var items := n.items + [x];
    assert ItemIds(items) == ItemIds(n.items) + {x.id} by {
      assert items[|n.items|] == x;
      forall id | id in ItemIds(n.items)
        ensures id in ItemIds(items)
      {
        var i :| 0 <= i < |n.items| && n.items[i].id == id;
        assert items[i] == n.items[i];
      }
    }
  }

  /** The fresh children of a split leaf agree with the map, which records nothing below
      the leaf. */
  lemma SplitAgrees<D>(m: NodeIndex, n: Node<D>, p: Path)
    requires Agrees(m, n, p) && IsLeaf(n)
    ensures ChildrenAgree(m, Split(n), p) && OnlyChildPaths(m, p)
  {
    var cs := Split(n);
    forall k | 0 <= k < 4
      ensures Agrees(m, cs[k], p + [k])
    {
      assert StrictlyUnder(p, p + [k]) by {
        assert (p + [k])[..|p|] == p;
      }
      forall id, q | InMap(m, id, q) && StrictlyUnder(p + [k], q)
        ensures false
      {
        UnderChild(p, k, q);
      }
      assert ItemIds(cs[k].items) == {};
    }
  }

  /** Replacing child `k` by `c` after a change below it: the other children still agree,
      nothing appears below `p` outside the children, and `p` itself is untouched. */
  lemma ChildStep<D>(m1: NodeIndex, m2: NodeIndex, cs: seq<Node<D>>, c: Node<D>, k: nat, p: Path)
    requires |cs| == 4 && k < 4
    requires ChildrenAgree(m1, cs, p) && OnlyChildPaths(m1, p)
    requires Agrees(m2, c, p + [k]) && SameOutside(m1, m2, p + [k])
    ensures ChildrenAgree(m2, cs[k := c], p) && OnlyChildPaths(m2, p)
    ensures forall id :: InMap(m2, id, p) <==> InMap(m1, id, p)
  {
    forall j | 0 <= j < 4 && j != k
      ensures Agrees(m2, cs[j], p + [j])
    {
      SiblingFrame(m1, m2, cs[j], p, j, k);
    }
    forall id, q | InMap(m2, id, q) && StrictlyUnder(p, q)
      ensures q[|p|] < 4
    {
      if Under(p + [k], q) {
        UnderChild(p, k, q);
      }
    }
  }

  /** A node whose items are gone and whose children agree with the map agrees with it. */
  lemma AssembleAgrees<D>(m: NodeIndex, n: Node<D>, cs: seq<Node<D>>, p: Path)
    requires |cs| == 4 && ChildrenAgree(m, cs, p) && OnlyChildPaths(m, p)
    requires forall id :: !InMap(m, id, p)
    ensures Agrees(m, n.(items := [], children := cs), p)
  {
    assert ItemIds(n.(items := [], children := cs).items) == {};
  }

  // ---------------------------------------------------------------------------------------
  // What `insert` does to the tree

  /** The tree part of `insert`: the node `n` after `x` is inserted into it. */
  function InsertTree<D>(n: Node<D>, x: Item<D>): (r: Node<D>)
    requires WellFormed(n)
    ensures WellFormed(r) && SameConfig(n, r)
    ensures !AabbIntersects(n.bounding, x.bounding) ==> r == n
    decreases n.maxDepth - n.depth, 2
  {
    if !AabbIntersects(n.bounding, x.bounding) then n
    else if IsLeaf(n) && HasRoom(n) then n.(items := n.items + [x])
    else if IsLeaf(n) then ForwardTree(SplitTree(n), x)
    else ForwardTree(n, x)
  }

  /** `split` and the nested loops after it: each fresh quadrant child receives all the
      leaf's items in order, and the leaf keeps none. */
  function SplitTree<D>(n: Node<D>): (r: Node<D>)
    requires WellFormed(n) && IsLeaf(n) && n.depth < n.maxDepth
    ensures WellFormed(r) && SameConfig(n, r) && |r.children| == 4 && r.items == []
    decreases n.maxDepth - n.depth, 1
  {
    var cs := Split(n);
    n.(items := [], children := seq(4, k requires 0 <= k < 4 => InsertAll(cs[k], n.items)))
  }

  /** The items inserted one after another into `c`. */
  function InsertAll<D>(c: Node<D>, items: seq<Item<D>>): (r: Node<D>)
    requires WellFormed(c)
    ensures WellFormed(r) && SameConfig(c, r)
    decreases c.maxDepth - c.depth, 3, |items|
  {
    if |items| == 0 then c
    else InsertTree(InsertAll(c, items[..|items| - 1]), items[|items| - 1])
  }

  /** The last line of `insert`: the item goes to each of the four children. */
  function ForwardTree<D>(n: Node<D>, x: Item<D>): (r: Node<D>)
    requires WellFormed(n) && |n.children| == 4
    ensures WellFormed(r) && SameConfig(n, r) && |r.children| == 4 && r.items == []
    decreases n.maxDepth - n.depth, 1
  {
    n.(children := seq(4, k requires 0 <= k < 4 => InsertTree(n.children[k], x)))
  }

  /** One more item inserted after the first `i`. */
  lemma InsertAllStep<D>(c: Node<D>, items: seq<Item<D>>, i: nat)
    requires WellFormed(c) && i < |items|
    ensures InsertAll(c, items[..i + 1]) == InsertTree(InsertAll(c, items[..i]), items[i])
  {
    assert items[..i + 1][..i] == items[..i];
  }

  /** Appending to a leaf keeps what it covered, and adds only the new item. */
  lemma AppendKeeps<D>(n: Node<D>, x: Item<D>)
    requires IsLeaf(n)
    ensures forall y :: Covers(n, y) ==> Covers(n.(items := n.items + [x]), y)
    ensures Elements(n.(items := n.items + [x])) == Elements(n) + {x}
    ensures AabbIntersects(n.bounding, x.bounding) ==> Covers(n.(items := n.items + [x]), x)
  {
    var r := n.(items := n.items + [x]);
    assert r.items[|n.items|] == x;
    forall y | Covers(n, y)
      ensures Covers(r, y)
    {
      if AabbIntersects(n.bounding, y.bounding) {
        var i :| 0 <= i < |n.items| && n.items[i] == y;
        assert r.items[i] == y;
      }
    }
    assert ItemSet(r.items) == ItemSet(n.items) + {x} by {
      forall y | y in ItemSet(n.items)
        ensures y in ItemSet(r.items)
      {
        var i :| 0 <= i < |n.items| && n.items[i] == y;
        assert r.items[i] == y;
      }
    }
  }

  /** The items of a node with four children and no items of its own. */
  lemma ElementsOfChildren<D>(n: Node<D>)
    requires |n.children| == 4 && n.items == []
    ensures Elements(n) == Elements(n.children[0]) + Elements(n.children[1]) +
                           Elements(n.children[2]) + Elements(n.children[3])
  {
    assert ItemSet(n.items) == {};
  }

  /** Inserting `x` puts it into every leaf of `n` it overlaps, keeps every item `n`
      covered in every leaf that item overlaps, and adds no item other than `x`. */
  lemma {:induction false} InsertCovers<D>(n: Node<D>, x: Item<D>)
    requires WellFormed(n)
    ensures Covers(InsertTree(n, x), x)
    ensures forall y :: Covers(n, y) ==> Covers(InsertTree(n, x), y)
    ensures Elements(InsertTree(n, x)) <= Elements(n) + {x}
    decreases n.maxDepth - n.depth, 2
  {
    if !AabbIntersects(n.bounding, x.bounding) {
    } else if IsLeaf(n) && HasRoom(n) {
      AppendKeeps(n, x);
    } else if IsLeaf(n) {
      SplitCovers(n);
      ForwardCovers(SplitTree(n), x);
    } else {
      ForwardCovers(n, x);
    }
  }

  /** After the split every child covers every item of the leaf, and holds only the
      leaf's items. */
  lemma {:induction false} SplitCovers<D>(n: Node<D>)
    requires WellFormed(n) && IsLeaf(n) && n.depth < n.maxDepth
    ensures forall y :: Covers(n, y) ==> Covers(SplitTree(n), y)
    ensures Elements(SplitTree(n)) <= Elements(n)
    decreases n.maxDepth - n.depth, 1
  {
    var r := SplitTree(n);
    var cs := Split(n);
    forall j | 0 <= j < 4
      ensures forall i :: 0 <= i < |n.items| ==> Covers(r.children[j], n.items[i])
      ensures Elements(r.children[j]) <= ItemSet(n.items)
    {
      InsertAllCovers(cs[j], n.items);
      assert Elements(cs[j]) == {} by {
        assert ItemSet(cs[j].items) == {};
      }
    }
    forall y | Covers(n, y) && AabbIntersects(n.bounding, y.bounding)
      ensures Covers(r, y)
    {
      var i :| 0 <= i < |n.items| && n.items[i] == y;
      assert forall j :: 0 <= j < 4 ==> Covers(r.children[j], n.items[i]);
    }
    ElementsOfChildren(r);
  }

  /** Inserting a list of items: each of them is covered, earlier coverage is kept, and
      only they are added. */
  lemma {:induction false} InsertAllCovers<D>(c: Node<D>, items: seq<Item<D>>)
    requires WellFormed(c)
    ensures forall i :: 0 <= i < |items| ==> Covers(InsertAll(c, items), items[i])
    ensures forall y :: Covers(c, y) ==> Covers(InsertAll(c, items), y)
    ensures Elements(InsertAll(c, items)) <= Elements(c) + ItemSet(items)
    decreases c.maxDepth - c.depth, 3, |items|
  {
    if |items| > 0 {
      var init, last := items[..|items| - 1], items[|items| - 1];
      InsertAllCovers(c, init);
      InsertCovers(InsertAll(c, init), last);
      assert ItemSet(items) == ItemSet(init) + {last} by {
        forall y | y in ItemSet(items)
          ensures y in ItemSet(init) + {last}
        {
          var i :| 0 <= i < |items| && items[i] == y;
          if i < |items| - 1 {
            assert init[i] == y;
          }
        }
        forall y | y in ItemSet(init)
          ensures y in ItemSet(items)
        {
          var i :| 0 <= i < |init| && init[i] == y;
          assert items[i] == y;
        }
      }
      forall i | 0 <= i < |items| - 1
        ensures Covers(InsertAll(c, items), items[i])
      {
        assert items[i] == init[i];
      }
    }
  }

  /** Sending the item to every child covers it in each of them. */
  lemma {:induction false} ForwardCovers<D>(n: Node<D>, x: Item<D>)
    requires WellFormed(n) && |n.children| == 4
    ensures Covers(ForwardTree(n, x), x)
    ensures forall y :: Covers(n, y) ==> Covers(ForwardTree(n, x), y)
    ensures Elements(ForwardTree(n, x)) <= Elements(n) + {x}
    decreases n.maxDepth - n.depth, 1
  {
    var r := ForwardTree(n, x);
    forall j | 0 <= j < 4
      ensures Covers(r.children[j], x)
      ensures forall y :: Covers(n.children[j], y) ==> Covers(r.children[j], y)
      ensures Elements(r.children[j]) <= Elements(n.children[j]) + {x}
    {
      InsertCovers(n.children[j], x);
    }
    forall y | Covers(n, y) && AabbIntersects(n.bounding, y.bounding)
      ensures Covers(r, y)
    {
      forall j | 0 <= j < 4
        ensures Covers(r.children[j], y)
      {
        assert Covers(n.children[j], y);
      }
    }
    ElementsOfChildren(n);
    ElementsOfChildren(r);
  }

  // ---------------------------------------------------------------------------------------
  // `insert` with the shared map

  /** `insert(data, bounding)` on the node at path `p`, with `id` standing for `data.id`.
      The tree becomes `InsertTree` of the item, and the answer is whether the item
      overlaps the region: after a split, or at a node with children, it is `true` whatever
      the children answered. The map keeps agreeing with the tree and changes only below
      `p`: not at all for a refused item, by `addToMap` at a leaf that takes the item, and
      a split leaf is left out of every id's set. */
  method InsertAt<D>(n: Node<D>, p: Path, m: NodeIndex, id: string, data: D, bounding: Aabb)
      returns (r: Node<D>, m': NodeIndex, ok: bool)
    requires WellFormed(n) && Agrees(m, n, p)
    ensures r == InsertTree(n, Item(id, bounding, data))
    ensures ok == AabbIntersects(n.bounding, bounding)
    ensures Agrees(m', r, p) && SameOutside(m, m', p)
    ensures !ok ==> m' == m
    ensures ok && IsLeaf(n) && HasRoom(n) ==> m' == AddToMap(m, id, p)
    ensures ok && !(IsLeaf(n) && HasRoom(n)) ==> forall i :: !InMap(m', i, p)
    decreases n.maxDepth - n.depth, 3
  {
    var item := Item(id, bounding, data);
    if !AabbIntersects(n.bounding, bounding) {
      return n, m, false;
    }
    if IsLeaf(n) && HasRoom(n) {
      r := n.(items := n.items + [item]);
      m' := AddToMap(m, id, p);
      AppendAgrees(m, n, p, item);
      return r, m', true;
    }
    r, m' := n, m;
    if IsLeaf(n) {
      r, m' := Redistribute(n, p, m);
    }
    var r1, m1 := r, m';
    r, m' := Forward(r1, p, m1, item);
    ok := true;
  }

  /** `split` followed by the nested loops of `insert`: for each child in turn, every item
      of the leaf leaves the leaf's record and is inserted into that child; then the leaf's
      items are dropped. */
  method Redistribute<D>(n: Node<D>, p: Path, m: NodeIndex) returns (r: Node<D>, m': NodeIndex)
    requires WellFormed(n) && Agrees(m, n, p) && IsLeaf(n) && n.depth < n.maxDepth
    ensures r == SplitTree(n) && Agrees(m', r, p) && SameOutside(m, m', p)
    decreases n.maxDepth - n.depth, 2
  {
    var empties := Split(n);
    var cs := empties;
    SplitAgrees(m, n, p);
    m' := m;
    var k := 0;
    while k < 4
      invariant 0 <= k <= 4 && |cs| == 4
      invariant forall j :: 0 <= j < k ==> cs[j] == InsertAll(empties[j], n.items)
      invariant forall j :: k <= j < 4 ==> cs[j] == empties[j]
      invariant ChildrenAgree(m', cs, p) && OnlyChildPaths(m', p) && SameOutside(m, m', p)
      invariant forall id :: InMap(m', id, p) ==> k == 0 && id in ItemIds(n.items)
    {
      var m1 := m';
      cs, m' := MoveItems(n, k, cs, p, m1);
      k := k + 1;
    }
    r := n.(items := [], children := cs);
    AssembleAgrees(m', n, cs, p);
    assert cs == SplitTree(n).children;
  }

  /** One pass of the inner loop, for child `k`: each item of the leaf leaves the leaf's
      record and is inserted into the child. Afterwards the leaf is in no id's set. */
  method MoveItems<D>(n: Node<D>, k: nat, cs: seq<Node<D>>, p: Path, m: NodeIndex)
      returns (cs': seq<Node<D>>, m': NodeIndex)
    requires WellFormed(n) && IsLeaf(n) && n.depth < n.maxDepth
    requires k < 4 && |cs| == 4 && cs[k] == Split(n)[k]
    requires ChildrenAgree(m, cs, p) && OnlyChildPaths(m, p)
    requires forall id :: InMap(m, id, p) ==> id in ItemIds(n.items)
    ensures cs' == cs[k := InsertAll(Split(n)[k], n.items)]
    ensures ChildrenAgree(m', cs', p) && OnlyChildPaths(m', p) && SameOutside(m, m', p)
    ensures forall id :: !InMap(m', id, p)
    decreases n.maxDepth - n.depth, 1
  {
    var empty := Split(n)[k];
    cs', m' := cs, m;
    var i := 0;
    while i < |n.items|
      invariant 0 <= i <= |n.items|
      invariant cs' == cs[k := InsertAll(empty, n.items[..i])]
      invariant ChildrenAgree(m', cs', p) && OnlyChildPaths(m', p) && SameOutside(m, m', p)
      invariant forall id :: InMap(m', id, p) ==> id in ItemIds(n.items)
      invariant forall i' :: 0 <= i' < i ==> !InMap(m', n.items[i'].id, p)
    {
      cs', m' := MoveOne(n, k, i, cs', p, m, m');
      i := i + 1;
    }
    assert n.items[..i] == n.items;
  }

  /** One step of the inner loop: item `i` leaves the leaf's record and is inserted into
      child `k`. */
  method MoveOne<D>(n: Node<D>, k: nat, i: nat, cs: seq<Node<D>>, p: Path, m0: NodeIndex, m: NodeIndex)
      returns (cs': seq<Node<D>>, m': NodeIndex)
    requires WellFormed(n) && IsLeaf(n) && n.depth < n.maxDepth
    requires k < 4 && |cs| == 4 && i < |n.items| && cs[k] == InsertAll(Split(n)[k], n.items[..i])
    requires ChildrenAgree(m, cs, p) && OnlyChildPaths(m, p) && SameOutside(m0, m, p)
    requires forall id :: InMap(m, id, p) ==> id in ItemIds(n.items)
    ensures cs' == cs[k := InsertAll(Split(n)[k], n.items[..i + 1])]
    ensures ChildrenAgree(m', cs', p) && OnlyChildPaths(m', p) && SameOutside(m0, m', p)
    ensures forall id :: InMap(m', id, p) ==> InMap(m, id, p) && id != n.items[i].id
    decreases n.maxDepth - n.depth, 0
  {
    var it := n.items[i];
    var m1 := RemoveFromMap(m, it.id, p);
    AgreesFrameRemove(m, m1, cs, p, it.id);
    var c, m2, _ := InsertAt(cs[k], p + [k], m1, it.id, it.data, it.bounding);
    InsertAllStep(Split(n)[k], n.items, i);
    assert c == InsertAll(Split(n)[k], n.items[..i + 1]) by {
      assert Item(it.id, it.bounding, it.data) == n.items[i];
    }
    assert !InMap(m1, it.id, p);
    ChildStep(m1, m2, cs, c, k, p);
    SameOutsideChild(m0, m1, m2, p, k);
    cs', m' := cs[k := c], m2;
  }

  /** Removing a record at `p` itself keeps the children's agreement and changes nothing
      outside `p`. */
  lemma AgreesFrameRemove<D>(m: NodeIndex, m1: NodeIndex, cs: seq<Node<D>>, p: Path, id: string)
    requires m1 == RemoveFromMap(m, id, p)
    requires |cs| == 4 && ChildrenAgree(m, cs, p) && OnlyChildPaths(m, p)
    ensures ChildrenAgree(m1, cs, p) && OnlyChildPaths(m1, p) && SameOutside(m, m1, p)
  {
    forall k | 0 <= k < 4
      ensures Agrees(m1, cs[k], p + [k])
    {
      forall i, q | Under(p + [k], q)
        ensures InMap(m1, i, q) <==> InMap(m, i, q)
      {
        UnderChild(p, k, q);
      }
      AgreesFrame(m, m1, cs[k], p + [k]);
    }
    assert Under(p, p) by {
      assert p[..|p|] == p;
    }
  }

  /** The last line of `insert`: the item goes to each of the four children in turn. */
  method Forward<D>(n: Node<D>, p: Path, m: NodeIndex, x: Item<D>) returns (r: Node<D>, m': NodeIndex)
    requires WellFormed(n) && Agrees(m, n, p) && |n.children| == 4
    ensures r == ForwardTree(n, x) && Agrees(m', r, p) && SameOutside(m, m', p)
    ensures forall i :: !InMap(m', i, p)
    decreases n.maxDepth - n.depth, 1
  {
    var cs := n.children;
    m' := m;
    var k := 0;
    while k < 4
      invariant 0 <= k <= 4 && |cs| == 4
      invariant forall j :: 0 <= j < k ==> cs[j] == InsertTree(n.children[j], x)
      invariant forall j :: k <= j < 4 ==> cs[j] == n.children[j]
      invariant ChildrenAgree(m', cs, p) && OnlyChildPaths(m', p) && SameOutside(m, m', p)
      invariant forall id :: !InMap(m', id, p)
    {
      var c, m2, _ := InsertAt(cs[k], p + [k], m', x.id, x.data, x.bounding);
      ChildStep(m', m2, cs, c, k, p);
      SameOutsideChild(m, m', m2, p, k);
      cs, m' := cs[k := c], m2;
      k := k + 1;
    }
    r := n.(children := cs);
    AssembleAgrees(m', n, cs, p);
    assert cs == ForwardTree(n, x).children;
  }

  // ---------------------------------------------------------------------------------------
  // `query` and the id-keyed result map

  /** An entry of the JavaScript `Map` that `query` returns. */
  datatype Binding<D> = Binding(id: string, data: D)

  /** The ids of a map's entries, in insertion order. */
  function Ids<D>(m: seq<Binding<D>>): (ids: seq<string>)
    ensures |ids| == |m| && forall i :: 0 <= i < |m| ==> ids[i] == m[i].id
  {
    if |m| == 0 then [] else [m[0].id] + Ids(m[1..])
  }

  /** No two entries share an id. */
  predicate DistinctIds<D>(m: seq<Binding<D>>) {
    forall i, j :: 0 <= i < j < |m| ==> m[i].id != m[j].id
  }

  /** `map.get(id)`. */
  function Lookup<D>(m: seq<Binding<D>>, id: string): Option<D> {
    if |m| == 0 then None else if m[0].id == id then Some(m[0].data) else Lookup(m[1..], id)
  }

  /** `map.set(id, data)`: an entry with the id keeps its place and takes the new data,
      otherwise a new entry goes at the end. */
  function MapSet<D>(m: seq<Binding<D>>, id: string, data: D): (r: seq<Binding<D>>)
    ensures Ids(r) == if id in Ids(m) then Ids(m) else Ids(m) + [id]
  {
    if |m| == 0 then [Binding(id, data)]
    else if m[0].id == id then [Binding(id, data)] + m[1..]
    else
      var rest := MapSet(m[1..], id, data);
      assert Ids(m) == [m[0].id] + Ids(m[1..]);
      [m[0]] + rest
  }

  /** After `map.set(id, data)`, `get(id)` is `data` and every other id keeps its data. */
  lemma {:induction false} MapSetLookup<D>(m: seq<Binding<D>>, id: string, data: D, other: string)
    ensures Lookup(MapSet(m, id, data), other) == if other == id then Some(data) else Lookup(m, other)
  {
    if |m| > 0 && m[0].id != id {
      MapSetLookup(m[1..], id, data, other);
    }
  }

  /** `map.set` never repeats an id. */
  lemma {:induction false} MapSetDistinct<D>(m: seq<Binding<D>>, id: string, data: D)
    requires DistinctIds(m)
    ensures DistinctIds(MapSet(m, id, data))
  {
    if |m| > 0 && m[0].id != id {
      MapSetDistinct(m[1..], id, data);
      var r := MapSet(m, id, data);
      assert m[0].id !in Ids(m[1..]);
      assert Ids(r) == [m[0].id] + Ids(MapSet(m[1..], id, data));
    }
  }

  /** Each entry of `bs` set, in order, into `m`. */
  function SetAll<D>(m: seq<Binding<D>>, bs: seq<Binding<D>>): seq<Binding<D>> {
    if |bs| == 0 then m
    else MapSet(SetAll(m, bs[..|bs| - 1]), bs[|bs| - 1].id, bs[|bs| - 1].data)
  }

  lemma SetAllStep<D>(m: seq<Binding<D>>, bs: seq<Binding<D>>, j: nat)
    requires j < |bs|
    ensures SetAll(m, bs[..j + 1]) == MapSet(SetAll(m, bs[..j]), bs[j].id, bs[j].data)
  {
    assert bs[..j + 1][..j] == bs[..j];
  }

  lemma IdsSnoc<D>(bs: seq<Binding<D>>)
    requires |bs| > 0
    ensures Ids(bs) == Ids(bs[..|bs| - 1]) + [bs[|bs| - 1].id]
  {
    var l, r := Ids(bs), Ids(bs[..|bs| - 1]) + [bs[|bs| - 1].id];
    assert |l| == |r|;
    forall i | 0 <= i < |l|
      ensures l[i] == r[i]
    {
      if i < |bs| - 1 {
        assert r[i] == Ids(bs[..|bs| - 1])[i] == bs[..|bs| - 1][i].id;
      }
    }
  }

  /** Setting a list of entries: the ids are those of `m` and of `bs`. */
  lemma {:induction false} SetAllIds<D>(m: seq<Binding<D>>, bs: seq<Binding<D>>)
    ensures forall id :: id in Ids(SetAll(m, bs)) <==> id in Ids(m) || id in Ids(bs)
  {
    if |bs| > 0 {
      SetAllIds(m, bs[..|bs| - 1]);
      IdsSnoc(bs);
    }
  }

  /** Setting a list of entries into a map with distinct ids keeps them distinct. */
  lemma {:induction false} SetAllDistinct<D>(m: seq<Binding<D>>, bs: seq<Binding<D>>)
    requires DistinctIds(m)
    ensures DistinctIds(SetAll(m, bs))
  {
    if |bs| > 0 {
      var init := bs[..|bs| - 1];
      SetAllDistinct(m, init);
      MapSetDistinct(SetAll(m, init), bs[|bs| - 1].id, bs[|bs| - 1].data);
    }
  }

  /** Setting a list of entries: every entry of the result was in `m` or in `bs`. */
  lemma {:induction false} SetAllFrom<D>(m: seq<Binding<D>>, bs: seq<Binding<D>>, id: string)
    ensures Lookup(SetAll(m, bs), id).Some? ==>
              Binding(id, Lookup(SetAll(m, bs), id).value) in m + bs
  {
    if |bs| > 0 {
      var init := bs[..|bs| - 1];
      var last := bs[|bs| - 1];
      SetAllFrom(m, init, id);
      MapSetLookup(SetAll(m, init), last.id, last.data, id);
      assert forall b :: b in m + init ==> b in m + bs;
      assert last in m + bs;
    } else {
      LookupFound(m, id);
    }
  }

  /** A value found under an id is an entry of the map. */
  lemma {:induction false} LookupFound<D>(m: seq<Binding<D>>, id: string)
    ensures Lookup(m, id).Some? ==> Binding(id, Lookup(m, id).value) in m
  {
    if |m| > 0 && m[0].id != id {
      LookupFound(m[1..], id);
    }
  }

  /** The entries `query` sets for a node's own items. */
  function ItemBindings<D>(items: seq<Item<D>>): (bs: seq<Binding<D>>)
    ensures |bs| == |items|
    ensures forall i :: 0 <= i < |items| ==> bs[i] == Binding(items[i].id, items[i].data)
  {
    seq(|items|, i requires 0 <= i < |items| => Binding(items[i].id, items[i].data))
  }

  /** What `query(probe)` returns at node `n`: nothing when the region misses the probe;
      all the node's own items when it has any, whatever their boxes; otherwise the
      children's results merged in child order. */
  function QueryTree<D>(n: Node<D>, probe: Aabb): (r: seq<Binding<D>>)
    ensures DistinctIds(r)
    decreases n, 1
  {
    if !AabbIntersects(n.bounding, probe) then []
    else if |n.items| > 0 then
      SetAllDistinct([], ItemBindings(n.items));
      SetAll([], ItemBindings(n.items))
    else MergeChildren(n, probe, |n.children|)
  }

  /** The results of the first `k` children, merged in order. */
  function MergeChildren<D>(n: Node<D>, probe: Aabb, k: nat): (r: seq<Binding<D>>)
    requires k <= |n.children|
    ensures DistinctIds(r)
    ensures forall id :: id in Ids(r) <==>
              exists j :: 0 <= j < k && id in Ids(QueryTree(n.children[j], probe))
    decreases n, 0, k
  {
    if k == 0 then []
    else
      var acc := MergeChildren(n, probe, k - 1);
      var cr := QueryTree(n.children[k - 1], probe);
      SetAllDistinct(acc, cr);
      SetAllIds(acc, cr);
      SetAll(acc, cr)
  }

  /** `query(bounding)`: the node's own items, or each child's result copied entry by
      entry. */
  method QueryFrom<D>(n: Node<D>, probe: Aabb) returns (result: seq<Binding<D>>)
    ensures result == QueryTree(n, probe)
    decreases n, 2
  {
    result := [];
    if !AabbIntersects(n.bounding, probe) {
      return;
    }
    if |n.items| > 0 {
      result := SetEach(result, ItemBindings(n.items));
    } else {
      result := QueryChildren(n, probe);
    }
  }

  /** The loop of `query` over the children: each child's result merged in order. */
  method QueryChildren<D>(n: Node<D>, probe: Aabb) returns (result: seq<Binding<D>>)
    ensures result == MergeChildren(n, probe, |n.children|)
    decreases n, 1
  {
    result := [];
    var k := 0;
    while k < |n.children|
      invariant 0 <= k <= |n.children|
      invariant result == MergeChildren(n, probe, k)
    {
      result := MergeNext(n, probe, k, result);
      k := k + 1;
    }
  }

  /** One pass of that loop: child `k`'s result, set entry by entry into `acc`. */
  method MergeNext<D>(n: Node<D>, probe: Aabb, k: nat, acc: seq<Binding<D>>) returns (result: seq<Binding<D>>)
    requires k < |n.children| && acc == MergeChildren(n, probe, k)
    ensures result == MergeChildren(n, probe, k + 1)
    decreases n, 0
  {
    var c := n.children[k];
    assert c < n;
    var childResult := QueryFrom(c, probe);
    MergeStep(n, probe, k, acc, childResult);
    result := SetEach(acc, childResult);
  }

  lemma MergeStep<D>(n: Node<D>, probe: Aabb, k: nat, acc: seq<Binding<D>>, cr: seq<Binding<D>>)
    requires k < |n.children|
    requires acc == MergeChildren(n, probe, k) && cr == QueryTree(n.children[k], probe)
    ensures SetAll(acc, cr) == MergeChildren(n, probe, k + 1)
  {
  }

  /** The `forEach` / `for ... of` loops of `query`: `set` each entry in order. */
  method SetEach<D>(m: seq<Binding<D>>, bs: seq<Binding<D>>) returns (r: seq<Binding<D>>)
    ensures r == SetAll(m, bs)
  {
    r := m;
    var j := 0;
    while j < |bs|
      invariant 0 <= j <= |bs|
      invariant r == SetAll(m, bs[..j])
    {
      SetAllStep(m, bs, j);
      r := MapSet(r, bs[j].id, bs[j].data);
      j := j + 1;
    }
    assert bs[..j] == bs;
  }

  // ---------------------------------------------------------------------------------------
  // What `query` returns

  /** Every entry after `map.set(id, data)` was already there or is the one just set. */
  lemma {:induction false} MapSetEntries<D>(m: seq<Binding<D>>, id: string, data: D)
    ensures forall b :: b in MapSet(m, id, data) ==> b in m || b == Binding(id, data)
  {
    if |m| > 0 && m[0].id != id {
      MapSetEntries(m[1..], id, data);
      assert MapSet(m, id, data) == [m[0]] + MapSet(m[1..], id, data);
      assert forall b :: b in m[1..] ==> b in m;
    } else if |m| > 0 {
      assert forall b :: b in m[1..] ==> b in m;
    }
  }

  /** Every entry after setting a list of entries was in `m` or in the list. */
  lemma {:induction false} SetAllEntries<D>(m: seq<Binding<D>>, bs: seq<Binding<D>>)
    ensures forall b :: b in SetAll(m, bs) ==> b in m || b in bs
  {
    if |bs| > 0 {
      var init := bs[..|bs| - 1];
      SetAllEntries(m, init);
      MapSetEntries(SetAll(m, init), bs[|bs| - 1].id, bs[|bs| - 1].data);
      assert forall b :: b in init ==> b in bs;
      assert Binding(bs[|bs| - 1].id, bs[|bs| - 1].data) == bs[|bs| - 1];
    }
  }

  /** The entries the items stored in `n` would give: each item's id with its data. */
  ghost function ElementBindings<D>(n: Node<D>): set<Binding<D>> {
    set y | y in Elements(n) :: Binding(y.id, y.data)
  }

  /** `query` only reports items stored in the tree, each under its own id and with its
      own data. */
  lemma {:induction false} QuerySound<D>(n: Node<D>, probe: Aabb)
    ensures forall b :: b in QueryTree(n, probe) ==> b in ElementBindings(n)
    decreases n, 1
  {
    if AabbIntersects(n.bounding, probe) {
      if |n.items| > 0 {
        var bs := ItemBindings(n.items);
        SetAllEntries([], bs);
        forall b | b in QueryTree(n, probe)
          ensures b in ElementBindings(n)
        {
          var i :| 0 <= i < |bs| && bs[i] == b;
          assert n.items[i] in ItemSet(n.items);
        }
      } else {
        MergeSound(n, probe, |n.children|);
      }
    }
  }

  lemma {:induction false} MergeSound<D>(n: Node<D>, probe: Aabb, k: nat)
    requires k <= |n.children|
    ensures forall b :: b in MergeChildren(n, probe, k) ==> b in ElementBindings(n)
    decreases n, 0, k
  {
    if k > 0 {
      var acc := MergeChildren(n, probe, k - 1);
      var c := n.children[k - 1];
      var cr := QueryTree(c, probe);
      MergeSound(n, probe, k - 1);
      QuerySound(c, probe);
      MergeStep(n, probe, k - 1, acc, cr);
      SetAllEntries(acc, cr);
      ChildBindings(n, k - 1);
    }
  }

  lemma ChildBindings<D>(n: Node<D>, k: nat)
    requires k < |n.children|
    ensures ElementBindings(n.children[k]) <= ElementBindings(n)
  {
    forall b | b in ElementBindings(n.children[k])
      ensures b in ElementBindings(n)
    {
      var y :| y in Elements(n.children[k]) && b == Binding(y.id, y.data);
      assert y in Elements(n);
    }
  }

  /** `query` finds every item the tree covers whose box meets the probe inside the node's
      region: `w` is a box of positive extent lying in all three. */
  lemma {:induction false} QueryFinds<D>(n: Node<D>, probe: Aabb, x: Item<D>, w: Aabb)
    requires WellFormed(n) && Covers(n, x)
    requires HasPositiveExtent(w) && Within(w, n.bounding) && Within(w, x.bounding) && Within(w, probe)
    ensures x.id in Ids(QueryTree(n, probe))
    decreases n
  {
    WithinBothIntersect(w, n.bounding, probe);
    WithinBothIntersect(w, n.bounding, x.bounding);
    if |n.children| == 0 {
      var bs := ItemBindings(n.items);
      var i :| 0 <= i < |n.items| && n.items[i] == x;
      assert Ids(bs)[i] == x.id;
      SetAllIds([], bs);
    } else {
      var k := QuadrantsCoverOverlap(n.bounding, w);
      var c := n.children[k];
      assert ChildOf(n, c, k) && WellFormed(c) && Covers(c, x);
      var w' := Meet(c.bounding, w);
      assert Within(w', c.bounding) && Within(w', w);
      QueryFinds(c, probe, x, w');
    }
  }

  /** An item of positive extent inserted into a node whose region contains it is reported
      by every later query whose probe, of positive extent, overlaps the item. */
  lemma InsertThenQuery<D>(n: Node<D>, x: Item<D>, probe: Aabb)
    requires WellFormed(n)
    requires HasPositiveExtent(x.bounding) && Within(x.bounding, n.bounding)
    requires HasPositiveExtent(probe) && AabbIntersects(x.bounding, probe)
    ensures x.id in Ids(QueryTree(InsertTree(n, x), probe))
  {
    InsertCovers(n, x);
    var w := Meet(x.bounding, probe);
    WithinTransitive(w, x.bounding, n.bounding);
    QueryFinds(InsertTree(n, x), probe, x, w);
  }

  /** A node whose four children are empty leaves stores nothing and reports nothing. */
  lemma EmptyChildrenReportNothing<D>(r: Node<D>, probe: Aabb)
    requires r.items == [] && |r.children| == 4
    requires forall k :: 0 <= k < 4 ==> r.children[k].items == [] && r.children[k].children == []
    ensures Elements(r) == {} && Ids(QueryTree(r, probe)) == []
  {
    forall k | 0 <= k < 4
      ensures Elements(r.children[k]) == {} && QueryTree(r.children[k], probe) == []
    {
      assert ItemSet(r.children[k].items) == {};
    }
    ElementsOfChildren(r);
    assert MergeChildren(r, probe, 1) == [];
    assert MergeChildren(r, probe, 2) == [];
    assert MergeChildren(r, probe, 3) == [];
  }

  /** The boundary case `insert` does not handle: a full leaf that splits hands its items
      to the quadrants, and an item of zero width lying exactly on the vertical midline
      overlaps the leaf but none of its quadrants, so it is dropped from the tree and no
      query reports it. */
  lemma MidlineItemLost()
    ensures var n := NewNode<int>(Aabb(0.0, 0.0, 2.0, 2.0), 1, 0, 0);
            var x := Item("a", Aabb(1.0, 0.0, 0.0, 2.0), 0);
            var r := InsertTree(n, x);
            AabbIntersects(n.bounding, x.bounding) && x !in Elements(r) &&
            Ids(QueryTree(r, n.bounding)) == []
  {
    var n := NewNode<int>(Aabb(0.0, 0.0, 2.0, 2.0), 1, 0, 0);
    var x := Item("a", Aabb(1.0, 0.0, 0.0, 2.0), 0);
    var s := SplitTree(n);
    MidlineItemMissesAllQuadrants();
    forall k | 0 <= k < 4
      ensures s.children[k] == Split(n)[k]
      ensures InsertTree(s.children[k], x) == s.children[k]
    {
      assert InsertAll(Split(n)[k], []) == Split(n)[k];
    }
    var r := InsertTree(n, x);
    assert r == s;
    EmptyChildrenReportNothing(r, n.bounding);
  }

  // ---------------------------------------------------------------------------------------
  // The root object: the tree and the `shapeToNodes` map shared by all its nodes

  /** A root `QuadTreeNode` together with the map it shares with its descendants. The
      nodes are values; the path from the root names a node in the map. */
  class RootNode<D> {
    var root: Node<D>
    var shapeToNodes: NodeIndex

    /** The tree keeps its shape invariants and the map records exactly which nodes hold
        each id. */
    ghost predicate Valid()
      reads this
    {
      WellFormed(root) && Agrees(shapeToNodes, root, [])
    }

    /** `new QuadTreeNode(options, shapeToNodes)` with an empty map: an empty leaf. */
    constructor(bounding: Aabb, maxDepth: int, capacity: int, depth: int)
      ensures Valid()
      ensures root == NewNode(bounding, maxDepth, capacity, depth) && shapeToNodes == map[]
    {
      root := NewNode(bounding, maxDepth, capacity, depth);
      shapeToNodes := map[];
    }

    /** `insert(data, bounding)` on the root, with `id` the data's id. */
    method Insert(id: string, data: D, bounding: Aabb) returns (ok: bool)
      requires Valid()
      modifies this
      ensures Valid()
      ensures root == InsertTree(old(root), Item(id, bounding, data))
      ensures ok == AabbIntersects(root.bounding, bounding)
      ensures !ok ==> shapeToNodes == old(shapeToNodes)
      ensures ok && IsLeaf(old(root)) && HasRoom(old(root)) ==>
                shapeToNodes == AddToMap(old(shapeToNodes), id, [])
    {
      var r, m, b := InsertAt(root, [], shapeToNodes, id, data, bounding);
      root, shapeToNodes, ok := r, m, b;
    }

    /** `query(bounding)` on the root. */
    method Query(probe: Aabb) returns (result: seq<Binding<D>>)
      ensures result == QueryTree(root, probe) && DistinctIds(result)
    {
      result := QueryFrom(root, probe);
    }
  }
}
