/** The older quadtree of src/QuadTree.ts. An object moves into a child only when it fits
    strictly inside a single quadrant; otherwise it stays with the parent. Retrieval filters
    each node's own objects with an edge-inclusive overlap test. */
module QuadTree {
  import opened Geometry

  /** A stored object: the source only reads its `bounds`, and `value` stands for the rest. */
  datatype Entry<T> = Entry(bounds: Aabb, value: T)

  /** `intersects`: the closed boxes overlap, so boxes that only touch count. */
  predicate Intersects(a: Aabb, b: Aabb)
    ensures Intersects(a, b) <==>
      b.x <= a.x + a.width && a.x <= b.x + b.width && b.y <= a.y + a.height && a.y <= b.y + b.height
  {
    !(a.x + a.width < b.x || a.y + a.height < b.y || a.x > b.x + b.width || a.y > b.y + b.height)
  }

  /** The midlines of a region: x of the vertical one, y of the horizontal one. */
  function VerticalMidpoint(b: Aabb): real { b.x + b.width / 2.0 }
  function HorizontalMidpoint(b: Aabb): real { b.y + b.height / 2.0 }

  /** The rect starts and ends strictly before the midline `mid` (its extent added). */
  predicate BeforeMidline(lo: real, extent: real, mid: real) {
    lo < mid && lo + extent < mid
  }

  /** The rect starts strictly after the midline `mid`. */
  predicate AfterMidline(lo: real, mid: real) {
    lo > mid
  }

  /** `getIndex`: 0, 1, 2 or 3 (top-left, top-right, bottom-left, bottom-right) when the
      rect lies strictly on one side of both midlines, and −1 otherwise. */
  function GetIndex(bounds: Aabb, rect: Aabb): (i: int)
    ensures -1 <= i < 4
    ensures var west := BeforeMidline(rect.x, rect.width, VerticalMidpoint(bounds));
            var east := AfterMidline(rect.x, VerticalMidpoint(bounds));
            var north := BeforeMidline(rect.y, rect.height, HorizontalMidpoint(bounds));
            var south := AfterMidline(rect.y, HorizontalMidpoint(bounds));
            (i == 0 <==> west && north) && (i == 1 <==> east && north)
            && (i == 2 <==> west && south) && (i == 3 <==> east && south)
  {
    var verticalMidpoint := bounds.x + bounds.width / 2.0;
    var horizontalMidpoint := bounds.y + bounds.height / 2.0;
    var top := rect.y < horizontalMidpoint && rect.y + rect.height < horizontalMidpoint;
    var bottom := rect.y > horizontalMidpoint;
    var left := rect.x < verticalMidpoint && rect.x + rect.width < verticalMidpoint;
    var right := rect.x > verticalMidpoint;
    if left then
      if top then 0 else if bottom then 2 else -1
    else if right then
      if top then 1 else if bottom then 3 else -1
    else -1
  }

  /** No entry is repeated and the entries are in increasing order. */
  predicate Increasing(s: seq<int>) {
    forall i, j :: 0 <= i < j < |s| ==> s[i] < s[j]
  }

  /** `indices.push(k)` when `c` holds, on a list of quadrant numbers below `k`. */
  function PushIf(s: seq<int>, c: bool, k: int): (r: seq<int>)
    requires 0 <= k && forall i :: 0 <= i < |s| ==> 0 <= s[i] < k
    ensures forall i :: 0 <= i < |r| ==> 0 <= r[i] <= k
    ensures forall j :: j in r <==> j in s || (c && j == k)
  {
    if c then s + [k] else s
  }

  /** The rect reaches quadrant `k` of `bounds`: it starts above (left of) the horizontal
      (vertical) midline for a top (left) quadrant and ends below (right of) it for a
      bottom (right) one, all comparisons strict. */
  predicate Reaches(bounds: Aabb, rect: Aabb, k: int) {
    var startIsNorth := rect.y < HorizontalMidpoint(bounds);
    var startIsWest := rect.x < VerticalMidpoint(bounds);
    var endIsEast := rect.x + rect.width > VerticalMidpoint(bounds);
    var endIsSouth := rect.y + rect.height > HorizontalMidpoint(bounds);
    (k == 0 && startIsNorth && startIsWest) || (k == 1 && startIsNorth && endIsEast)
    || (k == 2 && endIsSouth && startIsWest) || (k == 3 && endIsSouth && endIsEast)
  }

  /** `getIndices`: quadrant numbers; which ones is stated by `GetIndicesMembers`, and
      that each comes once and in increasing order by `GetIndicesIncreasing`. */
  function GetIndices(bounds: Aabb, rect: Aabb): (indices: seq<int>)
    ensures forall i :: 0 <= i < |indices| ==> 0 <= indices[i] < 4
  {
    var verticalMidpoint := bounds.x + bounds.width / 2.0;
    var horizontalMidpoint := bounds.y + bounds.height / 2.0;
    var startIsNorth := rect.y < horizontalMidpoint;
    var startIsWest := rect.x < verticalMidpoint;
    var endIsEast := rect.x + rect.width > verticalMidpoint;
    var endIsSouth := rect.y + rect.height > horizontalMidpoint;
    var topLeft := PushIf([], startIsNorth && startIsWest, 0);
    var topRight := PushIf(topLeft, startIsNorth && endIsEast, 1);
    var bottomLeft := PushIf(topRight, endIsSouth && startIsWest, 2);
    PushIf(bottomLeft, endIsSouth && endIsEast, 3)
  }

  /** `getIndices` lists exactly the quadrants the rect reaches. */
  lemma GetIndicesMembers(bounds: Aabb, rect: Aabb)
    ensures forall k :: k in GetIndices(bounds, rect) <==> Reaches(bounds, rect, k)
  {
  }

  /** `getIndices` names each quadrant at most once, in increasing order. */
  lemma GetIndicesIncreasing(bounds: Aabb, rect: Aabb)
    ensures Increasing(GetIndices(bounds, rect))
  {
  }

  /** A rect of non-negative extent that fits quadrant k is among the quadrants that
      retrieval visits for it, so an object stored in a child is reachable by probing with
      its own bounds. */
  lemma GetIndexInIndices(bounds: Aabb, rect: Aabb)
    requires rect.width >= 0.0 && rect.height >= 0.0
    requires GetIndex(bounds, rect) != -1
    ensures GetIndex(bounds, rect) in GetIndices(bounds, rect)
  {
    GetIndicesMembers(bounds, rect);
  }

  /** A rect of non-negative extent that fits quadrant k is reached only in quadrant k. */
  lemma GetIndexOnlyIndex(bounds: Aabb, rect: Aabb)
    requires rect.width >= 0.0 && rect.height >= 0.0
    requires GetIndex(bounds, rect) != -1
    ensures GetIndices(bounds, rect) == [GetIndex(bounds, rect)]
  {
    GetIndicesMembers(bounds, rect);
  }

  /** A rect that fits quadrant k of a region with non-negative extents touches that
      quadrant's closed box whenever it touches the region: the quadrant is the only part
      of the region it can meet. */
  lemma FitsQuadrantIntersects(bounds: Aabb, rect: Aabb)
    requires bounds.width >= 0.0 && bounds.height >= 0.0
    requires rect.width >= 0.0 && rect.height >= 0.0
    requires GetIndex(bounds, rect) != -1 && Intersects(rect, bounds)
    ensures Intersects(rect, Quadrant(bounds, GetIndex(bounds, rect) as nat))
  {
  }

  /** `intersects` counts boxes that share only an edge, unlike `aabbIntersects`. */
  lemma TouchingBoxesIntersect(a: Aabb, b: Aabb)
    requires a.width >= 0.0 && a.height >= 0.0 && b.width >= 0.0 && b.height >= 0.0
    requires a.x + a.width == b.x && a.y == b.y
    ensures Intersects(a, b) && !AabbIntersects(a, b)
  {
  }

  /** `intersects` does not depend on the order of its arguments. */
  lemma IntersectsSymmetric(a: Aabb, b: Aabb)
    ensures Intersects(a, b) == Intersects(b, a)
  {
  }

  /** The objects of `s`, in order, whose `GetIndex` in `bounds` is `k`. With k = −1 these
      are the objects that stay in a node after its split. */
  function WithIndex<T>(bounds: Aabb, s: seq<Entry<T>>, k: int): (r: seq<Entry<T>>)
  {
    if s == [] then []
    else
      var last := s[|s| - 1];
      WithIndex(bounds, s[..|s| - 1], k) + (if GetIndex(bounds, last.bounds) == k then [last] else [])
  }

  /** Splitting a sequence by `GetIndex` keeps every object exactly once. */
  lemma WithIndexPartition<T>(bounds: Aabb, s: seq<Entry<T>>)
    ensures multiset(s) == multiset(WithIndex(bounds, s, -1)) + multiset(WithIndex(bounds, s, 0))
                           + multiset(WithIndex(bounds, s, 1)) + multiset(WithIndex(bounds, s, 2))
                           + multiset(WithIndex(bounds, s, 3))
  {
    forall x {
      WithIndexCount(bounds, s, x);
    }
  }

  /** The copies of `x` in `s` all go to the one index of `x`. */
  lemma {:induction false} WithIndexCount<T>(bounds: Aabb, s: seq<Entry<T>>, x: Entry<T>)
    ensures multiset(s)[x] == multiset(WithIndex(bounds, s, -1))[x] + multiset(WithIndex(bounds, s, 0))[x]
                              + multiset(WithIndex(bounds, s, 1))[x] + multiset(WithIndex(bounds, s, 2))[x]
                              + multiset(WithIndex(bounds, s, 3))[x]
  {
    if s != [] {
      var init, last := s[..|s| - 1], s[|s| - 1];
      WithIndexCount(bounds, init, x);
      CountLast(s, x);
      WithIndexLast(bounds, s, -1, x);
      WithIndexLast(bounds, s, 0, x);
      WithIndexLast(bounds, s, 1, x);
      WithIndexLast(bounds, s, 2, x);
      WithIndexLast(bounds, s, 3, x);
    }
  }

  /** The copies of `x` in a non-empty sequence: those before the last element, plus the
      last one if it is `x`. */
  lemma CountLast<E>(s: seq<E>, x: E)
    requires s != []
    ensures multiset(s)[x] == multiset(s[..|s| - 1])[x] + if s[|s| - 1] == x then 1 else 0
  {
    assert s == s[..|s| - 1] + [s[|s| - 1]];
  }

  /** One more object at the end of `s` joins the objects of its own index only. */
  lemma WithIndexLast<T>(bounds: Aabb, s: seq<Entry<T>>, k: int, x: Entry<T>)
    requires s != []
    ensures multiset(WithIndex(bounds, s, k))[x]
            == multiset(WithIndex(bounds, s[..|s| - 1], k))[x]
               + if GetIndex(bounds, s[|s| - 1].bounds) == k && s[|s| - 1] == x then 1 else 0
  {
  }

  /** The objects of `s` whose bounds intersect `rect`, in order. */
  function Intersecting<T>(s: seq<Entry<T>>, rect: Aabb): (r: seq<Entry<T>>)
    ensures |r| <= |s| && forall e :: e in r ==> e in s && Intersects(e.bounds, rect)
  {
    if s == [] then []
    else
      var last := s[|s| - 1];
      Intersecting(s[..|s| - 1], rect) + (if Intersects(last.bounds, rect) then [last] else [])
  }

  /** Every object of `s` kept by `WithIndex(bounds, s, k)` has index `k`. */
  lemma {:induction false} WithIndexFits<T>(bounds: Aabb, s: seq<Entry<T>>, k: int)
    ensures forall e :: e in WithIndex(bounds, s, k) ==> GetIndex(bounds, e.bounds) == k
  {
    if s != [] {
      WithIndexFits(bounds, s[..|s| - 1], k);
    }
  }

  /** The filter keeps every copy of an object that intersects `rect` and none of the
      others. */
  lemma {:induction false} IntersectingCount<T>(s: seq<Entry<T>>, rect: Aabb, e: Entry<T>)
    ensures multiset(Intersecting(s, rect))[e] == if Intersects(e.bounds, rect) then multiset(s)[e] else 0
  {
    if s != [] {
      IntersectingCount(s[..|s| - 1], rect, e);
      assert s == s[..|s| - 1] + [s[|s| - 1]];
    }
  }

  /** One node of the tree and, through `nodes`, the subtree below it. Nodes are values
      here: a child belongs to exactly one parent and is never shared. */
  datatype Node<T> = Node(bounds: Aabb, maxObjects: int, maxLevels: int, level: int,
                          objects: seq<Entry<T>>, nodes: seq<Node<T>>)

  /** The constructor: a node over `bounds` with no objects and no children. */
  function NewNode<T>(bounds: Aabb, maxObjects: int, maxLevels: int, level: int): (n: Node<T>)
    ensures WellFormed(n) && Contents(n) == multiset{}
    ensures n.bounds == bounds && n.maxObjects == maxObjects && n.maxLevels == maxLevels && n.level == level
  {
    Node(bounds, maxObjects, maxLevels, level, [], [])
  }

  /** Every object stored in the subtree, counted with multiplicity. */
  ghost function Contents<T>(n: Node<T>): multiset<Entry<T>>
  {
    multiset(n.objects)
    + if |n.nodes| == 4
      then Contents(n.nodes[0]) + Contents(n.nodes[1]) + Contents(n.nodes[2]) + Contents(n.nodes[3])
      else multiset{}
  }

  /** `child` sits over quadrant `k` of `parent`'s region, one level down, with the same
      limits. */
  predicate Placed<T>(parent: Node<T>, child: Node<T>, k: nat)
    requires k < 4
  {
    child.bounds == Quadrant(parent.bounds, k) && child.level == parent.level + 1
    && child.maxObjects == parent.maxObjects && child.maxLevels == parent.maxLevels
  }

  /** Every object of `ms` fits quadrant `k` of `bounds`. */
  ghost predicate AllFit<T>(bounds: Aabb, ms: multiset<Entry<T>>, k: int) {
    forall e :: e in ms ==> GetIndex(bounds, e.bounds) == k
  }

  /** A well-formed tree: a node has no children or four, placed over its quadrants; only
      a node above `maxLevels` has children; and every object below child k fits
      quadrant k. */
  ghost predicate WellFormed<T>(n: Node<T>) {
    (|n.nodes| == 0 || |n.nodes| == 4) &&
    (|n.nodes| == 4 ==>
      n.level < n.maxLevels &&
      forall k: nat :: k < 4 ==>
        Placed(n, n.nodes[k], k) && WellFormed(n.nodes[k]) && AllFit(n.bounds, Contents(n.nodes[k]), k))
  }

  /** Four well-formed children placed over the quadrants of `n`'s region. */
  ghost predicate ChildrenPlaced<T>(n: Node<T>, nodes: seq<Node<T>>)
    requires |nodes| == 4
  {
    forall k: nat :: k < 4 ==> Placed(n, nodes[k], k) && WellFormed(nodes[k])
  }

  /** The same region, limits and level. */
  predicate SameConfig<T>(a: Node<T>, b: Node<T>) {
    a.bounds == b.bounds && a.maxObjects == b.maxObjects && a.maxLevels == b.maxLevels && a.level == b.level
  }

  /** `split`: four empty children over the quadrants, one level down. */
  function Split<T>(n: Node<T>): (r: Node<T>)
    requires WellFormed(n) && |n.nodes| == 0 && n.level < n.maxLevels
    ensures WellFormed(r) && SameConfig(r, n) && r.objects == n.objects && |r.nodes| == 4
    ensures forall k: nat :: k < 4 ==> r.nodes[k].objects == [] && r.nodes[k].nodes == [] && Placed(r, r.nodes[k], k)
    ensures Contents(r) == Contents(n)
  {
    var child := (k: nat) requires k < 4 =>
      NewNode(Quadrant(n.bounds, k), n.maxObjects, n.maxLevels, n.level + 1);
    n.(nodes := [child(0), child(1), child(2), child(3)])
  }

  /** `insert`: the object goes down into the one child it fits, or is appended here; a
      leaf that then holds more than `maxObjects` and lies above `maxLevels` splits and
      pushes each of its objects that fits a quadrant down into that child. The subtree
      gains exactly the one object and stays well formed. */
  method InsertInto<T>(n: Node<T>, obj: Entry<T>) returns (r: Node<T>)
    requires WellFormed(n)
    ensures WellFormed(r) && SameConfig(r, n)
    ensures Contents(r) == Contents(n) + multiset{obj}
    ensures |n.nodes| == 4 && GetIndex(n.bounds, obj.bounds) != -1 ==>
              var k := GetIndex(n.bounds, obj.bounds);
              r.objects == n.objects && |r.nodes| == 4 &&
              Contents(r.nodes[k]) == Contents(n.nodes[k]) + multiset{obj} &&
              forall j :: 0 <= j < 4 && j != k ==> r.nodes[j] == n.nodes[j]
    ensures |n.nodes| == 4 && GetIndex(n.bounds, obj.bounds) == -1 ==>
              r == n.(objects := n.objects + [obj])
    ensures |n.nodes| == 0 && !(|n.objects| + 1 > n.maxObjects && n.level < n.maxLevels) ==>
              r == n.(objects := n.objects + [obj])
    ensures |n.nodes| == 0 && |n.objects| + 1 > n.maxObjects && n.level < n.maxLevels ==>
              |r.nodes| == 4 && r.objects == WithIndex(n.bounds, n.objects + [obj], -1) &&
              forall k :: 0 <= k < 4 ==> Contents(r.nodes[k]) == multiset(WithIndex(n.bounds, n.objects + [obj], k))
    decreases n.maxLevels - n.level, 6
  {
    if |n.nodes| > 0 {
      var index := GetIndex(n.bounds, obj.bounds);
      if index != -1 {
        r := InsertBelow(n, index, obj);
        return;
      }
      r := Assemble(n, n.objects + [obj], n.nodes);
      return;
    }
    r := n.(objects := n.objects + [obj]);
    if |r.objects| > r.maxObjects && r.level < r.maxLevels && |r.nodes| == 0 {
      r := SplitAndRedistribute(n, obj);
    }
  }

  /** `this.nodes[index].insert(pRect)` for an object that fits quadrant `index`: only
      that child changes, and it gains the object. */
  method InsertBelow<T>(n: Node<T>, index: int, obj: Entry<T>) returns (r: Node<T>)
    requires WellFormed(n) && |n.nodes| == 4 && index == GetIndex(n.bounds, obj.bounds) != -1
    ensures WellFormed(r) && SameConfig(r, n)
    ensures Contents(r) == Contents(n) + multiset{obj}
    ensures r.objects == n.objects && |r.nodes| == 4
    ensures Contents(r.nodes[index]) == Contents(n.nodes[index]) + multiset{obj}
    ensures forall j :: 0 <= j < 4 && j != index ==> r.nodes[j] == n.nodes[j]
    decreases n.maxLevels - n.level, 2
  {
    var nodes := InsertIntoChild(n, n.nodes, index, obj);
    GrowChild(n, nodes, index, obj);
    GrowChildFits(n, nodes, index, obj);
    r := Assemble(n, n.objects, nodes);
  }

  /** A leaf that overflows with `obj`: `split`, then the loop that pushes objects down. */
  method SplitAndRedistribute<T>(n: Node<T>, obj: Entry<T>) returns (r: Node<T>)
    requires WellFormed(n) && |n.nodes| == 0 && n.level < n.maxLevels
    ensures WellFormed(r) && SameConfig(r, n) && |r.nodes| == 4
    ensures r.objects == WithIndex(n.bounds, n.objects + [obj], -1)
    ensures forall k :: 0 <= k < 4 ==> Contents(r.nodes[k]) == multiset(WithIndex(n.bounds, n.objects + [obj], k))
    ensures Contents(r) == Contents(n) + multiset{obj}
    decreases n.maxLevels - n.level, 5
  {
    var all := n.objects + [obj];
    var grown := n.(objects := all);
    assert Contents(grown) == multiset(all) == Contents(n) + multiset{obj};
    r := Split(grown);
    r := Redistribute(r);
  }

  /** Child `k` gaining `obj`, the other children unchanged, makes the node gain `obj`. */
  lemma GrowChild<T>(n: Node<T>, nodes: seq<Node<T>>, k: int, obj: Entry<T>)
    requires |n.nodes| == 4 && |nodes| == 4 && 0 <= k < 4
    requires Contents(nodes[k]) == Contents(n.nodes[k]) + multiset{obj}
    requires forall j :: 0 <= j < 4 && j != k ==> nodes[j] == n.nodes[j]
    ensures multiset(n.objects) + (Contents(nodes[0]) + Contents(nodes[1]) + Contents(nodes[2]) + Contents(nodes[3]))
            == Contents(n) + multiset{obj}
  {
    var c0, c1, c2, c3 := Contents(n.nodes[0]), Contents(n.nodes[1]), Contents(n.nodes[2]), Contents(n.nodes[3]);
    var d0, d1, d2, d3 := Contents(nodes[0]), Contents(nodes[1]), Contents(nodes[2]), Contents(nodes[3]);
    SumGrows(c0, c1, c2, c3, d0, d1, d2, d3, k, multiset{obj});
  }

  /** Four counts of which one grows by `one` and the others stay: their sum grows by
      `one`. */
  lemma SumGrows<E>(c0: multiset<E>, c1: multiset<E>, c2: multiset<E>, c3: multiset<E>,
                    d0: multiset<E>, d1: multiset<E>, d2: multiset<E>, d3: multiset<E>,
                    k: int, one: multiset<E>)
    requires 0 <= k < 4
    requires d0 == (if k == 0 then c0 + one else c0) && d1 == (if k == 1 then c1 + one else c1)
    requires d2 == (if k == 2 then c2 + one else c2) && d3 == (if k == 3 then c3 + one else c3)
    ensures d0 + d1 + d2 + d3 == c0 + c1 + c2 + c3 + one
  {
  }

  /** Child `k` gaining an object that fits quadrant `k`, the other children unchanged,
      leaves every child holding only objects that fit its quadrant. */
  lemma GrowChildFits<T>(n: Node<T>, nodes: seq<Node<T>>, k: int, obj: Entry<T>)
    requires WellFormed(n) && |n.nodes| == 4 && |nodes| == 4 && 0 <= k < 4
    requires GetIndex(n.bounds, obj.bounds) == k
    requires Contents(nodes[k]) == Contents(n.nodes[k]) + multiset{obj}
    requires forall j :: 0 <= j < 4 && j != k ==> nodes[j] == n.nodes[j]
    ensures forall j: nat :: j < 4 ==> AllFit(n.bounds, Contents(nodes[j]), j)
  {
  }

  /** The loop after `split`: every object that fits a quadrant is spliced out, in order,
      and inserted into that child; the others stay, in order. */
  method Redistribute<T>(n: Node<T>) returns (r: Node<T>)
    requires WellFormed(n) && |n.nodes| == 4
    requires forall k: nat :: k < 4 ==> Contents(n.nodes[k]) == multiset{}
    ensures WellFormed(r) && SameConfig(r, n) && |r.nodes| == 4
    ensures r.objects == WithIndex(n.bounds, n.objects, -1)
    ensures forall k: nat :: k < 4 ==> Contents(r.nodes[k]) == multiset(WithIndex(n.bounds, n.objects, k))
    ensures Contents(r) == Contents(n)
    decreases n.maxLevels - n.level, 4
  {
    var objects, nodes := PushDown(n);
    forall k: nat | k < 4
      ensures AllFit(n.bounds, Contents(nodes[k]), k)
    {
      WithIndexFits(n.bounds, n.objects, k);
    }
    PartitionContents(n.bounds, n.objects, objects, nodes);
    r := Assemble(n, objects, nodes);
  }

  /** The `while` loop of `insert` after a split: each object that fits a quadrant is
      spliced out and inserted into that child, the others stay in order. */
  method PushDown<T>(n: Node<T>) returns (objects: seq<Entry<T>>, nodes: seq<Node<T>>)
    requires WellFormed(n) && |n.nodes| == 4
    requires forall k: nat :: k < 4 ==> Contents(n.nodes[k]) == multiset{}
    ensures |nodes| == 4 && ChildrenPlaced(n, nodes)
    ensures objects == WithIndex(n.bounds, n.objects, -1)
    ensures forall k: nat :: k < 4 ==> Contents(nodes[k]) == multiset(WithIndex(n.bounds, n.objects, k))
    decreases n.maxLevels - n.level, 3
  {
    var all := n.objects;
    objects := n.objects;
    nodes := n.nodes;
    var i := 0;
    ghost var j := 0;
    while i < |objects|
      invariant 0 <= i <= |objects| && 0 <= j <= |all| && |nodes| == 4
      invariant objects[..i] == WithIndex(n.bounds, all[..j], -1) && objects[i..] == all[j..]
      invariant ChildrenPlaced(n, nodes)
      invariant forall k: nat :: k < 4 ==> Contents(nodes[k]) == multiset(WithIndex(n.bounds, all[..j], k))
      decreases |objects| - i
    {
      objects, nodes, i := PushOne(n, all, objects, nodes, i, j);
      j := j + 1;
    }
    SpliceDone(all, objects, i, j);
  }

  /** One pass of that loop: the object at `i`, which is `all[j]`, is spliced out and
      inserted into its quadrant's child if it fits one, and stepped over otherwise. */
  method PushOne<T>(n: Node<T>, all: seq<Entry<T>>, objects: seq<Entry<T>>, nodes: seq<Node<T>>, i: nat, ghost j: nat)
      returns (objects': seq<Entry<T>>, nodes': seq<Node<T>>, i': nat)
    requires n.level < n.maxLevels && i < |objects| && j <= |all| && |nodes| == 4
    requires objects[..i] == WithIndex(n.bounds, all[..j], -1) && objects[i..] == all[j..]
    requires ChildrenPlaced(n, nodes)
    requires forall k: nat :: k < 4 ==> Contents(nodes[k]) == multiset(WithIndex(n.bounds, all[..j], k))
    ensures j < |all| && i' <= |objects'| && |objects'| - i' < |objects| - i && |nodes'| == 4
    ensures objects'[..i'] == WithIndex(n.bounds, all[..j + 1], -1) && objects'[i'..] == all[j + 1..]
    ensures ChildrenPlaced(n, nodes')
    ensures forall k: nat :: k < 4 ==> Contents(nodes'[k]) == multiset(WithIndex(n.bounds, all[..j + 1], k))
    decreases n.maxLevels - n.level, 2
  {
    SpliceStep(n.bounds, all, objects, i, j);
    var index := GetIndex(n.bounds, objects[i].bounds);
    if index != -1 {
      var o := objects[i];
      objects' := objects[..i] + objects[i + 1..];
      nodes' := InsertIntoChild(n, nodes, index, o);
      i' := i;
    } else {
      objects', nodes', i' := objects, nodes, i + 1;
    }
  }


  /** What stays in the node and what went down into the four children is, together,
      what the node held. */
  lemma PartitionContents<T>(bounds: Aabb, all: seq<Entry<T>>, objects: seq<Entry<T>>, nodes: seq<Node<T>>)
    requires |nodes| == 4 && objects == WithIndex(bounds, all, -1)
    requires forall k: nat :: k < 4 ==> Contents(nodes[k]) == multiset(WithIndex(bounds, all, k))
    ensures multiset(objects) + (Contents(nodes[0]) + Contents(nodes[1]) + Contents(nodes[2]) + Contents(nodes[3]))
            == multiset(all)
  {
    WithIndexPartition(bounds, all);
    assert Contents(nodes[0]) == multiset(WithIndex(bounds, all, 0));
    assert Contents(nodes[1]) == multiset(WithIndex(bounds, all, 1));
    assert Contents(nodes[2]) == multiset(WithIndex(bounds, all, 2));
    assert Contents(nodes[3]) == multiset(WithIndex(bounds, all, 3));
  }

  /** `this.nodes[index].insert(obj)` on the children of a node like `n`: only child
      `index` changes, and it gains `obj`. */
  method InsertIntoChild<T>(n: Node<T>, nodes: seq<Node<T>>, index: int, obj: Entry<T>)
    returns (r: seq<Node<T>>)
    requires n.level < n.maxLevels && |nodes| == 4 && 0 <= index < 4 && ChildrenPlaced(n, nodes)
    ensures |r| == 4 && ChildrenPlaced(n, r)
    ensures Contents(r[index]) == Contents(nodes[index]) + multiset{obj}
    ensures forall k :: 0 <= k < 4 && k != index ==> r[k] == nodes[k]
    decreases n.maxLevels - n.level, 0
  {
    var child := InsertInto(nodes[index], obj);
    r := nodes[index := child];
  }

  /** One step of the loop after `split`: the object at `i` is `all[j]`; splicing it out
      keeps what stays before `i` and leaves `all[j + 1..]` after it, and stepping over it
      adds it to what stays. */
  lemma SpliceStep<T>(bounds: Aabb, all: seq<Entry<T>>, objects: seq<Entry<T>>, i: nat, j: nat)
    requires i < |objects| && j <= |all|
    requires objects[..i] == WithIndex(bounds, all[..j], -1) && objects[i..] == all[j..]
    ensures j < |all| && objects[i] == all[j]
    ensures forall k :: WithIndex(bounds, all[..j + 1], k)
                        == WithIndex(bounds, all[..j], k) + if GetIndex(bounds, all[j].bounds) == k then [all[j]] else []
    ensures (objects[..i] + objects[i + 1..])[..i] == objects[..i]
    ensures (objects[..i] + objects[i + 1..])[i..] == all[j + 1..]
    ensures objects[..i + 1] == objects[..i] + [all[j]] && objects[i + 1..] == all[j + 1..]
  {
    assert objects[i..][0] == all[j..][0];
    assert all[..j + 1][..j] == all[..j];
    assert objects[i..][1..] == all[j..][1..];
  }

  /** The loop after `split` has seen every object once it has stepped past the last. */
  lemma SpliceDone<T>(all: seq<Entry<T>>, objects: seq<Entry<T>>, i: nat, j: nat)
    requires i <= |objects| && j <= |all| && objects[i..] == all[j..] && i >= |objects|
    ensures all[..j] == all && objects[..i] == objects
  {
  }

  /** A node of `n`'s region and level, above `maxLevels`, with four well-formed children
      placed over its quadrants, each holding only objects that fit its quadrant, is well
      formed. */
  function Assemble<T>(n: Node<T>, objects: seq<Entry<T>>, nodes: seq<Node<T>>): (r: Node<T>)
    requires n.level < n.maxLevels && |nodes| == 4 && ChildrenPlaced(n, nodes)
    requires forall k: nat :: k < 4 ==> AllFit(n.bounds, Contents(nodes[k]), k)
    ensures WellFormed(r) && SameConfig(r, n) && r.objects == objects && r.nodes == nodes
    ensures r == n.(objects := objects, nodes := nodes)
    ensures Contents(r) == multiset(objects) + (Contents(nodes[0]) + Contents(nodes[1])
                                               + Contents(nodes[2]) + Contents(nodes[3]))
  {
    var r := n.(objects := objects, nodes := nodes);
    assert forall k: nat :: k < 4 ==> Placed(n, nodes[k], k) && Placed(r, nodes[k], k);
    r
  }

  /** `retrieve` as a value: this node's objects that intersect `rect`, in order, followed
      by what the children named by `GetIndices` return. A well-formed node has no
      children or four. */
  function Retrieved<T>(n: Node<T>, rect: Aabb): (r: seq<Entry<T>>)
    ensures forall e :: e in r ==> Intersects(e.bounds, rect)
    decreases n, 1, 0
  {
    var own := Intersecting(n.objects, rect);
    if |n.nodes| == 4 then own + RetrievedFrom(n, GetIndices(n.bounds, rect), rect) else own
  }

  /** What the children named by `indices` return, concatenated in that order. */
  function RetrievedFrom<T>(n: Node<T>, indices: seq<int>, rect: Aabb): (r: seq<Entry<T>>)
    requires |n.nodes| == 4 && forall i :: 0 <= i < |indices| ==> 0 <= indices[i] < 4
    ensures forall e :: e in r ==> Intersects(e.bounds, rect)
    decreases n, 0, |indices|
  {
    if indices == [] then []
    else RetrievedFrom(n, indices[..|indices| - 1], rect) + Retrieved(n.nodes[indices[|indices| - 1]], rect)
  }

  /** The contents of the children named by `indices`, counted once per mention. */
  ghost function ChildContents<T>(n: Node<T>, indices: seq<int>): multiset<Entry<T>>
    requires |n.nodes| == 4 && forall i :: 0 <= i < |indices| ==> 0 <= indices[i] < 4
  {
    if indices == [] then multiset{}
    else ChildContents(n, indices[..|indices| - 1]) + Contents(n.nodes[indices[|indices| - 1]])
  }

  /** When only child `k` can hold `e`, the children named by distinct `indices` hold the
      copies of `e` in child `k` if `k` is named, and none otherwise. */
  lemma {:induction false} ChildContentsOfOne<T>(n: Node<T>, indices: seq<int>, k: int, e: Entry<T>)
    requires |n.nodes| == 4 && forall i :: 0 <= i < |indices| ==> 0 <= indices[i] < 4
    requires Increasing(indices) && 0 <= k < 4
    requires forall j :: 0 <= j < 4 && j != k ==> Contents(n.nodes[j])[e] == 0
    ensures ChildContents(n, indices)[e] == if k in indices then Contents(n.nodes[k])[e] else 0
  {
    if indices != [] {
      var init, last := indices[..|indices| - 1], indices[|indices| - 1];
      ChildContentsOfOne(n, init, k, e);
      assert indices == init + [last];
      assert last == k ==> k !in init;
    }
  }

  /** An object that fits quadrant k and touches `rect` makes the rect reach quadrant k:
      `retrieve` never skips the child that can hold it. */
  lemma FitReached(bounds: Aabb, obj: Aabb, rect: Aabb)
    requires GetIndex(bounds, obj) != -1 && Intersects(obj, rect)
    ensures Reaches(bounds, rect, GetIndex(bounds, obj))
  {
  }

  /** Retrieval returns exactly the stored objects that intersect `rect`, each as many times
      as it is stored: none is missed, none is invented, none is repeated. */
  lemma {:induction false} RetrievedCount<T>(n: Node<T>, rect: Aabb, e: Entry<T>)
    requires WellFormed(n)
    ensures multiset(Retrieved(n, rect))[e] == if Intersects(e.bounds, rect) then Contents(n)[e] else 0
    decreases n, 1, 0
  {
    IntersectingCount(n.objects, rect, e);
    if |n.nodes| == 4 {
      var indices := GetIndices(n.bounds, rect);
      RetrievedFromCount(n, indices, rect, e);
      var g := GetIndex(n.bounds, e.bounds);
      var k := if g == -1 then 0 else g;
      OnlyItsChild(n, e);
      GetIndicesIncreasing(n.bounds, rect);
      ChildContentsOfOne(n, indices, k, e);
      if Intersects(e.bounds, rect) && g != -1 {
        FitReached(n.bounds, e.bounds, rect);
        GetIndicesMembers(n.bounds, rect);
        assert k in indices;
      }
    }
  }

  /** In a well-formed node, only the child whose quadrant an object fits can hold it. */
  lemma OnlyItsChild<T>(n: Node<T>, e: Entry<T>)
    requires WellFormed(n) && |n.nodes| == 4
    ensures forall j :: 0 <= j < 4 && j != GetIndex(n.bounds, e.bounds) ==> Contents(n.nodes[j])[e] == 0
  {
  }

  lemma {:induction false} RetrievedFromCount<T>(n: Node<T>, indices: seq<int>, rect: Aabb, e: Entry<T>)
    requires WellFormed(n) && |n.nodes| == 4
    requires forall i :: 0 <= i < |indices| ==> 0 <= indices[i] < 4
    ensures multiset(RetrievedFrom(n, indices, rect))[e]
            == if Intersects(e.bounds, rect) then ChildContents(n, indices)[e] else 0
    decreases n, 0, |indices|
  {
    if indices != [] {
      RetrievedFromCount(n, indices[..|indices| - 1], rect, e);
      RetrievedCount(n.nodes[indices[|indices| - 1]], rect, e);
    }
  }

  lemma IntersectingPrefix<T>(s: seq<Entry<T>>, i: nat, rect: Aabb)
    requires i < |s|
    ensures Intersecting(s[..i + 1], rect)
            == Intersecting(s[..i], rect) + if Intersects(s[i].bounds, rect) then [s[i]] else []
  {
    assert s[..i + 1][..i] == s[..i];
  }

  lemma AppendAssociative<E>(a: seq<E>, b: seq<E>, c: seq<E>)
    ensures (a + b) + c == a + (b + c)
  {
  }

  lemma RetrievedFromPrefix<T>(n: Node<T>, indices: seq<int>, m: nat, rect: Aabb)
    requires |n.nodes| == 4 && forall i :: 0 <= i < |indices| ==> 0 <= indices[i] < 4
    requires m < |indices|
    ensures RetrievedFrom(n, indices[..m + 1], rect)
            == RetrievedFrom(n, indices[..m], rect) + Retrieved(n.nodes[indices[m]], rect)
  {
    assert indices[..m + 1][..m] == indices[..m];
  }

  /** `retrieve` with the source's loops: the own objects are filtered first, then each
      child named by `GetIndices` is asked in turn. */
  method RetrieveFrom<T>(n: Node<T>, rect: Aabb) returns (found: seq<Entry<T>>)
    requires WellFormed(n)
    ensures found == Retrieved(n, rect)
    decreases n, 2
  {
    found := [];
    var i := 0;
    while i < |n.objects|
      invariant 0 <= i <= |n.objects|
      invariant found == Intersecting(n.objects[..i], rect)
    {
      IntersectingPrefix(n.objects, i, rect);
      if Intersects(n.objects[i].bounds, rect) {
        found := found + [n.objects[i]];
      }
      i := i + 1;
    }
    assert n.objects[..i] == n.objects;
    if |n.nodes| > 0 {
      found := RetrieveChildren(n, rect, found);
    }
  }

  /** The loop of `retrieve` over `getIndices(pRect)`: each reached child's objects are
      appended to `own`, child by child. */
  method RetrieveChildren<T>(n: Node<T>, rect: Aabb, own: seq<Entry<T>>) returns (found: seq<Entry<T>>)
    requires WellFormed(n) && |n.nodes| == 4
    ensures found == own + RetrievedFrom(n, GetIndices(n.bounds, rect), rect)
    decreases n, 1
  {
    var indices := GetIndices(n.bounds, rect);
    found := own;
    var m := 0;
    while m < |indices|
      invariant 0 <= m <= |indices|
      invariant found == own + RetrievedFrom(n, indices[..m], rect)
    {
      found := RetrieveNext(n, rect, own, indices, m, found);
      m := m + 1;
    }
    assert indices[..m] == indices;
  }

  /** One pass of that loop: the objects of child `indices[m]` appended. */
  method RetrieveNext<T>(n: Node<T>, rect: Aabb, own: seq<Entry<T>>, indices: seq<int>, m: nat, found: seq<Entry<T>>)
      returns (found': seq<Entry<T>>)
    requires WellFormed(n) && |n.nodes| == 4 && forall i :: 0 <= i < |indices| ==> 0 <= indices[i] < 4
    requires m < |indices| && found == own + RetrievedFrom(n, indices[..m], rect)
    ensures found' == own + RetrievedFrom(n, indices[..m + 1], rect)
    decreases n, 0
  {
    var c := n.nodes[indices[m]];
    assert c < n;
    var sub := RetrieveFrom(c, rect);
    RetrievedFromPrefix(n, indices, m, rect);
    AppendAssociative(own, RetrievedFrom(n, indices[..m], rect), sub);
    found' := found + sub;
  }

  /** `clear`: no objects and no children are left; the dropped children are unreachable. */
  function Cleared<T>(n: Node<T>): (r: Node<T>)
    ensures WellFormed(r) && SameConfig(r, n) && Contents(r) == multiset{}
  {
    n.(objects := [], nodes := [])
  }

  /** A quadtree as its users hold it: one mutable handle on the root node. */
  class QuadTree<T> {
    var root: Node<T>

    ghost predicate Valid()
      reads this
    {
      WellFormed(root)
    }

    /** A tree over `bounds`; the source's defaults are 10 objects, 4 levels and level 0. */
    constructor (bounds: Aabb, maxObjects: int := 10, maxLevels: int := 4, level: int := 0)
      ensures Valid() && root == NewNode(bounds, maxObjects, maxLevels, level)
    {
      root := NewNode(bounds, maxObjects, maxLevels, level);
    }

    /** `insert`: the tree gains exactly the one object. */
    method Insert(obj: Entry<T>)
      requires Valid()
      modifies this
      ensures Valid() && SameConfig(root, old(root))
      ensures Contents(root) == old(Contents(root)) + multiset{obj}
    {
      root := InsertInto(root, obj);
    }

    /** `retrieve`: the stored objects that intersect `rect`, with their multiplicity. */
    method Retrieve(rect: Aabb) returns (found: seq<Entry<T>>)
      requires Valid()
      ensures forall e :: multiset(found)[e] == if Intersects(e.bounds, rect) then Contents(root)[e] else 0
    {
      found := RetrieveFrom(root, rect);
      forall e {
        RetrievedCount(root, rect, e);
      }
    }

    /** `clear`: the tree holds nothing and keeps its region and limits. */
    method Clear()
      requires Valid()
      modifies this
      ensures Valid() && SameConfig(root, old(root)) && root.nodes == [] && Contents(root) == multiset{}
    {
      root := Cleared(root);
    }
  }

  /** Objects of positive extent and positive-extent regions: what `aabbIntersects` accepts
      `intersects` accepts too, so this tree's filter is the more permissive one. */
  lemma StrictOverlapImpliesIntersects(a: Aabb, b: Aabb)
    requires AabbIntersects(a, b)
    ensures Intersects(a, b)
  {
  }
}
