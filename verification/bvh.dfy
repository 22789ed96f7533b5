/**
 * The bounding volume hierarchy of `scene/bvh.rs`: a binary tree over shared primitives, built
 * by sorting on a randomly chosen axis and splitting at the midpoint, each node caching the
 * union of its children's boxes; a ray skips a node whose box it misses.
 *
 * The random axis is a parameter `axisOf` giving the axis chosen for each slice; the build's
 * endless recursion on an empty slice is modelled by a fuel bound, so `Diverges` stands for a
 * build that never returns.
 */
module Bvh {
  import opened Vec
  import opened Wrappers
  import Aabb
  import opened Hittable
  import HittableList

  datatype BuildError = NoBoundingBox | Diverges

  /** `Ordering`. */
  datatype Ordering = Less | Equal | Greater

  /** A child pointer: a primitive from the input, or a node made by the build. */
  datatype Child = Prim(obj: Obj) | Sub(node: Node)

  /** `BvhNode`. */
  datatype Node = Node(left: Child, right: Child, bbox: Aabb.Box)

  /**
   * `Arc::ptr_eq(left, right)`: the same primitive on both sides. A node made by the build is a
   * fresh allocation, so it is never shared between the two sides.
   */
  predicate Aliased(left: Child, right: Child) {
    left.Prim? && right.Prim? && left.obj == right.obj
  }

  /** `bounding_box` of a child; a node always has one. */
  function BoxOf(c: Child): Option<Aabb.Box> {
    match c
    case Prim(o) => o.box
    case Sub(n) => Some(n.bbox)
  }

  predicate AllBoxed(objs: seq<Obj>) {
    forall o :: o in objs ==> o.box.Some?
  }

  /** The sort key of a boxed primitive: its box's minimum on `axis`. */
  function Key(o: Obj, axis: Axis): real
    requires o.box.Some?
  {
    Comp(o.box.value.minimum, axis)
  }

  /** `f64::total_cmp` on reals. */
  function Cmp(a: real, b: real): Ordering {
    if a < b then Less else if a == b then Equal else Greater
  }

  /**
   * `box_compare`: fails unless both primitives have a box, and otherwise orders them by their
   * minima on the axis.
   */
  function BoxCompare(a: Obj, b: Obj, axis: Axis): (r: Result<Ordering, BuildError>)
    ensures r.Err? <==> a.box.None? || b.box.None?
    ensures r.Ok? ==> (r.value == Less <==> Key(a, axis) < Key(b, axis))
    ensures r.Ok? ==> (r.value == Greater <==> Key(b, axis) < Key(a, axis))
  {
    match (a.box, b.box)
    case (Some(ba), Some(bb)) => Ok(Cmp(Comp(ba.minimum, axis), Comp(bb.minimum, axis)))
    case _ => Err(NoBoundingBox)
  }

  predicate Sorted(objs: seq<Obj>, axis: Axis)
    requires AllBoxed(objs)
  {
    forall i, j :: 0 <= i < j < |objs| ==> Key(objs[i], axis) <= Key(objs[j], axis)
  }

  /** Insert `x` after every element of `s` whose key is not greater than its own. */
  function Insert(s: seq<Obj>, x: Obj, axis: Axis): (r: seq<Obj>)
    requires AllBoxed(s) && x.box.Some?
    ensures multiset(r) == multiset(s) + multiset{x} && |r| == |s| + 1
    decreases |s|
  {
    if s == [] || Key(s[|s| - 1], axis) <= Key(x, axis) then s + [x]
    else
      var init, last := s[..|s| - 1], s[|s| - 1];
      assert s == init + [last];
      Insert(init, x, axis) + [last]
  }

  /** Inserting into a sorted slice keeps it sorted. */
  lemma {:induction false} InsertSorted(s: seq<Obj>, x: Obj, axis: Axis)
    requires AllBoxed(s) && Sorted(s, axis) && x.box.Some?
    ensures AllBoxed(Insert(s, x, axis)) && Sorted(Insert(s, x, axis), axis)
    decreases |s|
  {
    InsertBoxed(s, x, axis);
    if s == [] || Key(s[|s| - 1], axis) <= Key(x, axis) {
      SnocSorted(s, x, axis);
    } else {
      var init, last := s[..|s| - 1], s[|s| - 1];
      assert s == init + [last];
      assert Sorted(init, axis);
      InsertSorted(init, x, axis);
      InsertBelow(init, x, last, axis);
      SnocSorted(Insert(init, x, axis), last, axis);
    }
  }

  lemma InsertBoxed(s: seq<Obj>, x: Obj, axis: Axis)
    requires AllBoxed(s) && x.box.Some?
    ensures AllBoxed(Insert(s, x, axis))
  {
    var r := Insert(s, x, axis);
    forall o | o in r ensures o.box.Some? {
      assert o in multiset(r);
    }
  }

  /** Every element of `Insert(s, x)` comes from `s` or is `x`, so a bound on both bounds it. */
  lemma InsertBelow(s: seq<Obj>, x: Obj, y: Obj, axis: Axis)
    requires AllBoxed(s) && x.box.Some? && y.box.Some? && Key(x, axis) <= Key(y, axis)
    requires forall i :: 0 <= i < |s| ==> Key(s[i], axis) <= Key(y, axis)
    ensures AllBoxed(Insert(s, x, axis))
    ensures forall i :: 0 <= i < |Insert(s, x, axis)| ==> Key(Insert(s, x, axis)[i], axis) <= Key(y, axis)
  {
    InsertBoxed(s, x, axis);
    var r := Insert(s, x, axis);
    forall i | 0 <= i < |r| ensures Key(r[i], axis) <= Key(y, axis) {
      assert r[i] in multiset(r);
      if r[i] != x {
        assert r[i] in s;
        var k :| 0 <= k < |s| && s[k] == r[i];
      }
    }
  }

  /** A sorted slice stays sorted when an element no smaller than all of it is appended. */
  lemma SnocSorted(s: seq<Obj>, y: Obj, axis: Axis)
    requires AllBoxed(s) && Sorted(s, axis) && y.box.Some?
    requires s == [] || Key(s[|s| - 1], axis) <= Key(y, axis)
    ensures AllBoxed(s + [y]) && Sorted(s + [y], axis)
  {
    var r := s + [y];
    assert forall i :: 0 <= i < |s| ==> r[i] == s[i];
  }

  /**
   * `objects.sort_by(...)` on slices whose primitives all have boxes: a stable insertion sort
   * by key, giving the same primitives in order of their keys.
   */
  function Sort(s: seq<Obj>, axis: Axis): (r: seq<Obj>)
    requires AllBoxed(s)
    ensures AllBoxed(r) && Sorted(r, axis)
    ensures multiset(r) == multiset(s) && |r| == |s|
    decreases |s|
  {
    if s == [] then []
    else
      var init, last := s[..|s| - 1], s[|s| - 1];
      assert s == init + [last];
      var sorted := Sort(init, axis);
      InsertSorted(sorted, last, axis);
      Insert(sorted, last, axis)
  }

  /** The end of `BvhNode::new`: both children must report a box, and the node keeps their union. */
  function Finish(left: Child, right: Child): Result<Node, BuildError> {
    match (BoxOf(left), BoxOf(right))
    case (Some(bl), Some(br)) => Ok(Node(left, right, Aabb.SurroundingBox(bl, br)))
    case _ => Err(NoBoundingBox)
  }

  /**
   * `BvhNode::new`: one primitive goes on both sides, two go left and right in order, and more
   * are sorted on the axis `axisOf` picks (failing if a comparison meets a missing box) and
   * split at `len / 2` into two sub-trees, the first failure of either side passed on.
   */
  function Build(objs: seq<Obj>, axisOf: seq<Obj> -> Axis, fuel: nat): Result<Node, BuildError>
    decreases fuel, 0
  {
    if fuel == 0 then Err(Diverges)
    else if |objs| == 1 then Finish(Prim(objs[0]), Prim(objs[0]))
    else if |objs| == 2 then Finish(Prim(objs[0]), Prim(objs[1]))
    else if !AllBoxed(objs) then Err(NoBoundingBox)
    else Halves(Sort(objs, axisOf(objs)), axisOf, fuel - 1)
  }

  /** The two sub-trees of a sorted slice split at `len / 2`, the left one built first. */
  function Halves(sorted: seq<Obj>, axisOf: seq<Obj> -> Axis, fuel: nat): Result<Node, BuildError>
    decreases fuel, 1
  {
    var mid := |sorted| / 2;
    var left :- Build(sorted[..mid], axisOf, fuel);
    var right :- Build(sorted[mid..], axisOf, fuel);
    Finish(Sub(left), Sub(right))
  }

  /** An empty slice recurses into itself without end, whatever the fuel. */
  lemma {:induction false} BuildEmpty(axisOf: seq<Obj> -> Axis, fuel: nat)
    ensures Build([], axisOf, fuel) == Err(Diverges)
    decreases fuel
  {
    if fuel > 0 {
      BuildEmpty(axisOf, fuel - 1);
      assert Sort([], axisOf([]))[..0] == [];
    }
  }

  /**
   * On a non-empty slice the build returns within `|objs|` levels, and then it fails exactly
   * when some primitive has no box, always with `NoBoundingBox`.
   */
  lemma {:induction false} BuildOutcome(objs: seq<Obj>, axisOf: seq<Obj> -> Axis, fuel: nat)
    requires 0 < |objs| <= fuel
    ensures Build(objs, axisOf, fuel).Ok? <==> AllBoxed(objs)
    ensures Build(objs, axisOf, fuel).Err? ==> Build(objs, axisOf, fuel).error == NoBoundingBox
    decreases fuel
  {
    if |objs| > 2 && AllBoxed(objs) {
      var sorted := Sort(objs, axisOf(objs));
      var mid := |objs| / 2;
      SliceBoxed(sorted, mid);
      BuildOutcome(sorted[..mid], axisOf, fuel - 1);
      BuildOutcome(sorted[mid..], axisOf, fuel - 1);
    }
  }

  lemma SliceBoxed(s: seq<Obj>, mid: nat)
    requires AllBoxed(s) && mid <= |s|
    ensures AllBoxed(s[..mid]) && AllBoxed(s[mid..])
  {
    assert forall k :: 0 <= k < |s[mid..]| ==> s[mid..][k] == s[mid + k];
  }

  /** Once there is enough fuel, more changes nothing: the bound is no part of the result. */
  lemma {:induction false} BuildFuelIrrelevant(objs: seq<Obj>, axisOf: seq<Obj> -> Axis, fuel: nat, more: nat)
    requires 0 < |objs| <= fuel <= more
    ensures Build(objs, axisOf, more) == Build(objs, axisOf, fuel)
    decreases fuel, 0
  {
    if |objs| > 2 && AllBoxed(objs) {
      var sorted := Sort(objs, axisOf(objs));
      assert Build(objs, axisOf, more) == Halves(sorted, axisOf, more - 1);
      assert Build(objs, axisOf, fuel) == Halves(sorted, axisOf, fuel - 1);
      HalvesFuelIrrelevant(sorted, axisOf, fuel - 1, more - 1);
    }
  }

  lemma {:induction false} HalvesFuelIrrelevant(sorted: seq<Obj>, axisOf: seq<Obj> -> Axis, fuel: nat, more: nat)
    requires 2 < |sorted| <= fuel + 1 && fuel <= more
    ensures Halves(sorted, axisOf, more) == Halves(sorted, axisOf, fuel)
    decreases fuel, 1
  {
    var mid := |sorted| / 2;
    BuildFuelIrrelevant(sorted[..mid], axisOf, fuel, more);
    BuildFuelIrrelevant(sorted[mid..], axisOf, fuel, more);
  }

  /** The primitives under a node, a shared primitive counted once. */
  function Leaves(n: Node): seq<Obj>
    decreases n
  {
    if Aliased(n.left, n.right) then ChildLeaves(n.left)
    else ChildLeaves(n.left) + ChildLeaves(n.right)
  }

  function ChildLeaves(c: Child): seq<Obj>
    decreases c
  {
    match c
    case Prim(o) => [o]
    case Sub(m) => Leaves(m)
  }

  /** No primitive occurs twice (the input slice holds distinct pointers). */
  ghost predicate NoDup(objs: seq<Obj>) {
    forall o :: multiset(objs)[o] <= 1
  }

  /** A successful split is the union node over two successfully built halves. */
  lemma HalvesParts(sorted: seq<Obj>, axisOf: seq<Obj> -> Axis, fuel: nat)
    requires Halves(sorted, axisOf, fuel).Ok?
    ensures Build(sorted[..|sorted| / 2], axisOf, fuel).Ok? && Build(sorted[|sorted| / 2..], axisOf, fuel).Ok?
    ensures Halves(sorted, axisOf, fuel)
         == Finish(Sub(Build(sorted[..|sorted| / 2], axisOf, fuel).value), Sub(Build(sorted[|sorted| / 2..], axisOf, fuel).value))
  {
  }

  /** Both halves of a slice without repeats are without repeats, and together they are the slice. */
  lemma SplitNoDup(s: seq<Obj>, mid: nat)
    requires NoDup(s) && mid <= |s|
    ensures NoDup(s[..mid]) && NoDup(s[mid..])
    ensures multiset(s) == multiset(s[..mid]) + multiset(s[mid..])
  {
    assert s == s[..mid] + s[mid..];
    forall o ensures multiset(s[..mid])[o] <= 1 && multiset(s[mid..])[o] <= 1 {
      assert multiset(s)[o] == multiset(s[..mid])[o] + multiset(s[mid..])[o];
    }
  }

  /** The tree holds exactly the input primitives, each once. */
  lemma {:induction false} BuildLeaves(objs: seq<Obj>, axisOf: seq<Obj> -> Axis, fuel: nat)
    requires Build(objs, axisOf, fuel).Ok? && NoDup(objs)
    ensures multiset(Leaves(Build(objs, axisOf, fuel).value)) == multiset(objs)
    decreases fuel, 0
  {
    if 1 <= |objs| <= 2 {
      SmallLeaves(objs, axisOf, fuel);
    } else {
      var sorted := Sort(objs, axisOf(objs));
      assert Build(objs, axisOf, fuel) == Halves(sorted, axisOf, fuel - 1);
      assert NoDup(sorted);
      HalvesLeaves(sorted, axisOf, fuel - 1);
    }
  }

  /** One or two primitives make a leaf node that holds them. */
  lemma SmallLeaves(objs: seq<Obj>, axisOf: seq<Obj> -> Axis, fuel: nat)
    requires Build(objs, axisOf, fuel).Ok? && NoDup(objs) && 1 <= |objs| <= 2
    ensures multiset(Leaves(Build(objs, axisOf, fuel).value)) == multiset(objs)
  {
    var a, b := objs[0], objs[|objs| - 1];
    BuildSmall(objs, axisOf, fuel);
    FinishLeaves(a, b);
    if |objs| == 1 {
      assert objs == [a];
    } else {
      assert objs == [a, b];
      NoDupPair(a, b);
    }
  }

  lemma BuildSmall(objs: seq<Obj>, axisOf: seq<Obj> -> Axis, fuel: nat)
    requires Build(objs, axisOf, fuel).Ok? && 1 <= |objs| <= 2
    ensures Build(objs, axisOf, fuel) == Finish(Prim(objs[0]), Prim(objs[|objs| - 1]))
  {
  }

  lemma NoDupPair(a: Obj, b: Obj)
    requires NoDup([a, b])
    ensures a != b
  {
    assert multiset([a, b])[a] == if a == b then 2 else 1;
  }

  /** A leaf node over one primitive, or over two different ones. */
  lemma FinishLeaves(a: Obj, b: Obj)
    requires Finish(Prim(a), Prim(b)).Ok?
    ensures multiset(Leaves(Finish(Prim(a), Prim(b)).value)) == if a == b then multiset{a} else multiset{a, b}
  {
    var n := Finish(Prim(a), Prim(b)).value;
    assert n.left == Prim(a) && n.right == Prim(b);
    if a == b {
      assert Leaves(n) == [a];
    } else {
      assert Leaves(n) == [a] + [b];
    }
  }

  lemma {:induction false} HalvesLeaves(sorted: seq<Obj>, axisOf: seq<Obj> -> Axis, fuel: nat)
    requires Halves(sorted, axisOf, fuel).Ok? && NoDup(sorted)
    ensures multiset(Leaves(Halves(sorted, axisOf, fuel).value)) == multiset(sorted)
    decreases fuel, 1
  {
    var mid := |sorted| / 2;
    HalvesParts(sorted, axisOf, fuel);
    SplitNoDup(sorted, mid);
    BuildLeaves(sorted[..mid], axisOf, fuel);
    BuildLeaves(sorted[mid..], axisOf, fuel);
  }

  /** Every node caches the union of its children's boxes, and both children have one. */
  predicate WellBoxed(n: Node)
    decreases n
  {
    BoxOf(n.left).Some? && BoxOf(n.right).Some? &&
    n.bbox == Aabb.SurroundingBox(BoxOf(n.left).value, BoxOf(n.right).value) &&
    ChildWellBoxed(n.left) && ChildWellBoxed(n.right)
  }

  predicate ChildWellBoxed(c: Child)
    decreases c
  {
    match c
    case Prim(_) => true
    case Sub(m) => WellBoxed(m)
  }

  /** A built tree keeps the box invariant at every node. */
  lemma {:induction false} BuildWellBoxed(objs: seq<Obj>, axisOf: seq<Obj> -> Axis, fuel: nat)
    requires Build(objs, axisOf, fuel).Ok?
    ensures WellBoxed(Build(objs, axisOf, fuel).value)
    decreases fuel
  {
    if |objs| == 1 || |objs| == 2 {
      assert ChildWellBoxed(Prim(objs[0])) && ChildWellBoxed(Prim(objs[|objs| - 1]));
    } else {
      var sorted := Sort(objs, axisOf(objs));
      var mid := |sorted| / 2;
      HalvesParts(sorted, axisOf, fuel - 1);
      BuildWellBoxed(sorted[..mid], axisOf, fuel - 1);
      BuildWellBoxed(sorted[mid..], axisOf, fuel - 1);
    }
  }

  /** `bounding_box`: the cached box, whatever the time interval. */
  function BoundingBox(n: Node, time0: real, time1: real): Option<Aabb.Box> {
    Some(n.bbox)
  }

  /** The hulls of two lists unite into the hull of their concatenation. */
  lemma HullUnion(a: Aabb.Box, xs: seq<Obj>, b: Aabb.Box, ys: seq<Obj>)
    requires HittableList.IsHull(a, xs) && HittableList.IsHull(b, ys)
    ensures HittableList.IsHull(Aabb.SurroundingBox(a, b), xs + ys)
  {
    var u := Aabb.SurroundingBox(a, b);
    var all := xs + ys;
    Aabb.SurroundingIsHull(a, b, u);
    forall k | 0 <= k < |all|
      ensures all[k].box.Some? && Aabb.Contains(u, all[k].box.value)
    {
      if k < |xs| {
        assert all[k] == xs[k];
        Aabb.ContainsOrder(u, a, xs[k].box.value);
      } else {
        assert all[k] == ys[k - |xs|];
        Aabb.ContainsOrder(u, b, ys[k - |xs|].box.value);
      }
    }
    forall outer | HittableList.Encloses(outer, all)
      ensures Aabb.Contains(outer, u)
    {
      assert HittableList.Encloses(outer, xs) by {
        forall k | 0 <= k < |xs| ensures xs[k].box.Some? && Aabb.Contains(outer, xs[k].box.value) {
          assert all[k] == xs[k];
        }
      }
      assert HittableList.Encloses(outer, ys) by {
        forall k | 0 <= k < |ys| ensures ys[k].box.Some? && Aabb.Contains(outer, ys[k].box.value) {
          assert all[|xs| + k] == ys[k];
        }
      }
      Aabb.SurroundingIsHull(a, b, outer);
    }
  }

  /**
   * The cached box is the least box around the boxes of the primitives below, which is what the
   * list's `bounding_box` reports for them.
   */
  lemma {:induction false} CachedBoxIsHull(n: Node)
    requires WellBoxed(n)
    ensures HittableList.IsHull(n.bbox, Leaves(n))
    decreases n
  {
    if Aliased(n.left, n.right) {
      var o := n.left.obj;
      Aabb.SurroundingAlgebra(o.box.value, o.box.value, o.box.value);
      HittableList.HullOne(o);
    } else {
      ChildHull(n.left);
      ChildHull(n.right);
      HullUnion(BoxOf(n.left).value, ChildLeaves(n.left), BoxOf(n.right).value, ChildLeaves(n.right));
    }
  }

  lemma {:induction false} ChildHull(c: Child)
    requires ChildWellBoxed(c) && BoxOf(c).Some?
    ensures HittableList.IsHull(BoxOf(c).value, ChildLeaves(c))
    decreases c
  {
    match c
    case Prim(o) => HittableList.HullOne(o);
    case Sub(m) => CachedBoxIsHull(m);
  }

  /**
   * `Hittable::hit` for a node: nothing when the ray misses the node's box; a shared primitive
   * asked once; otherwise the left side over the full interval, then the right side over the
   * interval cut at the left hit, the right answer winning when there is one.
   */
  function HitNode(n: Node, hit: HitFn, r: Aabb.Ray, tMin: real, tMax: real): Option<Rec>
    decreases n
  {
    if !Aabb.Hit(n.bbox, r, tMin, tMax) then None
    else if Aliased(n.left, n.right) then HitChild(n.left, hit, r, tMin, tMax)
    else
      var hitLeft := HitChild(n.left, hit, r, tMin, tMax);
      var hitRight := HitChild(n.right, hit, r, tMin, if hitLeft.Some? then hitLeft.value.t else tMax);
      if hitRight.None? then hitLeft else hitRight
  }

  function HitChild(c: Child, hit: HitFn, r: Aabb.Ray, tMin: real, tMax: real): Option<Rec>
    decreases c
  {
    match c
    case Prim(o) => Query(hit, o, tMin, tMax)
    case Sub(m) => HitNode(m, hit, r, tMin, tMax)
  }

  /** The primitives a node's `hit` asks, in order. */
  function Asked(n: Node, hit: HitFn, r: Aabb.Ray, tMin: real, tMax: real): seq<Obj>
    decreases n
  {
    if !Aabb.Hit(n.bbox, r, tMin, tMax) then []
    else if Aliased(n.left, n.right) then AskedChild(n.left, hit, r, tMin, tMax)
    else
      var hitLeft := HitChild(n.left, hit, r, tMin, tMax);
      AskedChild(n.left, hit, r, tMin, tMax) +
      AskedChild(n.right, hit, r, tMin, if hitLeft.Some? then hitLeft.value.t else tMax)
  }

  function AskedChild(c: Child, hit: HitFn, r: Aabb.Ray, tMin: real, tMax: real): seq<Obj>
    decreases c
  {
    match c
    case Prim(o) => [o]
    case Sub(m) => Asked(m, hit, r, tMin, tMax)
  }

  /** No primitive below a node is asked more often than it occurs there; a shared one once. */
  lemma {:induction false} AskedAtMostOnce(n: Node, hit: HitFn, r: Aabb.Ray, tMin: real, tMax: real)
    ensures multiset(Asked(n, hit, r, tMin, tMax)) <= multiset(Leaves(n))
    decreases n
  {
    if Aabb.Hit(n.bbox, r, tMin, tMax) {
      AskedChildAtMostOnce(n.left, hit, r, tMin, tMax);
      if !Aliased(n.left, n.right) {
        var hitLeft := HitChild(n.left, hit, r, tMin, tMax);
        AskedChildAtMostOnce(n.right, hit, r, tMin, if hitLeft.Some? then hitLeft.value.t else tMax);
      }
    }
  }

  lemma {:induction false} AskedChildAtMostOnce(c: Child, hit: HitFn, r: Aabb.Ray, tMin: real, tMax: real)
    ensures multiset(AskedChild(c, hit, r, tMin, tMax)) <= multiset(ChildLeaves(c))
    decreases c
  {
    match c
    case Prim(o) =>
    case Sub(m) => AskedAtMostOnce(m, hit, r, tMin, tMax);
  }

  /** A primitive that is hit passes the slab test of its own box. */
  ghost predicate BoxedHits(hit: HitFn, r: Aabb.Ray) {
    forall o, tMin, tMax :: hit(o, tMin, tMax).Some? ==> o.box.Some? && Aabb.Hit(o.box.value, r, tMin, tMax)
  }

  /** Under a missed box no primitive below is hit. */
  lemma MissedBox(n: Node, hit: HitFn, r: Aabb.Ray, tMin: real, tMax: real)
    requires BoxedHits(hit, r) && WellBoxed(n) && !Aabb.Hit(n.bbox, r, tMin, tMax)
    ensures Best(Leaves(n), hit, tMin, tMax).None?
  {
    var ls := Leaves(n);
    CachedBoxIsHull(n);
    forall k | 0 <= k < |ls|
      ensures hit(ls[k], tMin, tMax).None?
    {
      if hit(ls[k], tMin, tMax).Some? {
        Aabb.HitMonotone(n.bbox, ls[k].box.value, r, tMin, tMax, tMin, tMax);
        assert false;
      }
    }
    BestNone(ls, hit, tMin, tMax);
  }

  /** The answer of a closest-hit oracle lies in its interval. */
  lemma BestInInterval(objs: seq<Obj>, hit: HitFn, tMin: real, tMax: real)
    requires Closest(hit) && Best(objs, hit, tMin, tMax).Some?
    ensures tMin <= Best(objs, hit, tMin, tMax).value.t <= tMax
  {
    var k := BestSome(objs, hit, tMin, tMax);
  }

  /** The right side, asked with the interval cut at the left hit, then preferred when it answers. */
  lemma Combine(left: Option<Rec>, right: Option<Rec>, cut: Option<Rec>)
    requires cut == (if left.Some? then CutRec(right, left.value.t) else right)
    ensures (if cut.None? then left else cut) == Pick(left, right)
  {
  }

  /**
   * Traversal finds the reference closest hit over the primitives below the node, given that
   * primitives answer with their closest hit and every hit passes the strict slab test of the
   * primitive's own box: the skipped boxes and the narrowed interval lose nothing, and a tie
   * goes to the right. A hit lying exactly where a box is touched at a single time escapes the
   * strict test; `TieAtBoxFace` shows what the traversal does then.
   */
  lemma {:induction false} HitIsBest(n: Node, hit: HitFn, r: Aabb.Ray, tMin: real, tMax: real)
    requires Closest(hit) && BoxedHits(hit, r) && WellBoxed(n)
    ensures HitNode(n, hit, r, tMin, tMax) == Best(Leaves(n), hit, tMin, tMax)
    decreases n
  {
    if !Aabb.Hit(n.bbox, r, tMin, tMax) {
      MissedBox(n, hit, r, tMin, tMax);
    } else if Aliased(n.left, n.right) {
      assert Leaves(n) == [n.left.obj];
    } else {
      var ls, rs := ChildLeaves(n.left), ChildLeaves(n.right);
      ChildHitIsBest(n.left, hit, r, tMin, tMax);
      var hitLeft := HitChild(n.left, hit, r, tMin, tMax);
      if hitLeft.Some? {
        BestInInterval(ls, hit, tMin, tMax);
        ChildHitIsBest(n.right, hit, r, tMin, hitLeft.value.t);
        BestNarrow(rs, hit, tMin, tMax, hitLeft.value.t);
      } else {
        ChildHitIsBest(n.right, hit, r, tMin, tMax);
      }
      var hitRight := HitChild(n.right, hit, r, tMin, if hitLeft.Some? then hitLeft.value.t else tMax);
      Combine(hitLeft, Best(rs, hit, tMin, tMax), hitRight);
      BestAppend(ls, rs, hit, tMin, tMax);
    }
  }

  lemma {:induction false} ChildHitIsBest(c: Child, hit: HitFn, r: Aabb.Ray, tMin: real, tMax: real)
    requires Closest(hit) && BoxedHits(hit, r) && ChildWellBoxed(c)
    ensures HitChild(c, hit, r, tMin, tMax) == Best(ChildLeaves(c), hit, tMin, tMax)
    decreases c
  {
    match c
    case Prim(o) =>
      assert ChildLeaves(c) == [o];
    case Sub(m) =>
      HitIsBest(m, hit, r, tMin, tMax);
  }

  /**
   * A built hierarchy answers every query as the plain list of its primitives does: `None`
   * exactly when no primitive hits, and otherwise the nearest hit.
   */
  lemma BuiltHitIsBest(objs: seq<Obj>, axisOf: seq<Obj> -> Axis, fuel: nat, hit: HitFn, r: Aabb.Ray,
                       tMin: real, tMax: real)
    requires Build(objs, axisOf, fuel).Ok? && Closest(hit) && BoxedHits(hit, r)
    ensures HitNode(Build(objs, axisOf, fuel).value, hit, r, tMin, tMax)
         == Best(Leaves(Build(objs, axisOf, fuel).value), hit, tMin, tMax)
  {
    BuildWellBoxed(objs, axisOf, fuel);
    HitIsBest(Build(objs, axisOf, fuel).value, hit, r, tMin, tMax);
  }

  // ---------------------------------------------------------------------------------------
  // Hits on a box's faces

  /** The answer comes from a primitive below the node, as that primitive's own closest hit. */
  ghost predicate Answers(h: Option<Rec>, objs: seq<Obj>, hit: HitFn, tMin: real, tMax: real) {
    h.Some? ==> h.value.obj in objs && Query(hit, h.value.obj, tMin, tMax) == h
  }

  /**
   * Whatever the boxes, the traversal only reports a genuine hit: one of the primitives below,
   * with the hit that primitive has over the whole interval, so never nearer than the closest.
   */
  lemma {:induction false} HitNodeSound(n: Node, hit: HitFn, r: Aabb.Ray, tMin: real, tMax: real)
    requires Closest(hit)
    ensures Answers(HitNode(n, hit, r, tMin, tMax), Leaves(n), hit, tMin, tMax)
    ensures HitNode(n, hit, r, tMin, tMax).Some? ==>
      Best(Leaves(n), hit, tMin, tMax).Some?
      && Best(Leaves(n), hit, tMin, tMax).value.t <= HitNode(n, hit, r, tMin, tMax).value.t
    decreases n, 1
  {
    var h := HitNode(n, hit, r, tMin, tMax);
    if Aabb.Hit(n.bbox, r, tMin, tMax) {
      if Aliased(n.left, n.right) {
        ChildSound(n.left, hit, r, tMin, tMax);
      } else {
        var hl := HitChild(n.left, hit, r, tMin, tMax);
        ChildSound(n.left, hit, r, tMin, tMax);
        if hl.Some? {
          var cut := hl.value.t;
          assert hit(hl.value.obj, tMin, tMax) == Some(cut);
          ChildSound(n.right, hit, r, tMin, cut);
          var hr := HitChild(n.right, hit, r, tMin, cut);
          if hr.Some? {
            QueryNarrow(hit, hr.value.obj, tMin, tMax, cut);
          }
        } else {
          ChildSound(n.right, hit, r, tMin, tMax);
        }
      }
    }
    if h.Some? {
      NoNearer(Leaves(n), hit, tMin, tMax, h.value);
    }
  }

  lemma {:induction false} ChildSound(c: Child, hit: HitFn, r: Aabb.Ray, tMin: real, tMax: real)
    requires Closest(hit)
    ensures Answers(HitChild(c, hit, r, tMin, tMax), ChildLeaves(c), hit, tMin, tMax)
    decreases c, 0
  {
    match c
    case Prim(o) =>
      assert ChildLeaves(c) == [o];
    case Sub(m) =>
      HitNodeSound(m, hit, r, tMin, tMax);
  }

  /** A primitive's own hit is never nearer than the closest hit of a set holding it. */
  lemma NoNearer(objs: seq<Obj>, hit: HitFn, tMin: real, tMax: real, rec: Rec)
    requires rec.obj in objs && Query(hit, rec.obj, tMin, tMax) == Some(rec)
    ensures Best(objs, hit, tMin, tMax).Some? && Best(objs, hit, tMin, tMax).value.t <= rec.t
  {
    var j :| 0 <= j < |objs| && objs[j] == rec.obj;
    BestNone(objs, hit, tMin, tMax);
    var k := BestSome(objs, hit, tMin, tMax);
    assert hit(objs[j], tMin, tMax).Some?;
  }

  /** The point of the ray at `t` lies in the closed box. */
  predicate OnBox(b: Aabb.Box, r: Aabb.Ray, t: real) {
    forall a: Axis :: Comp(b.minimum, a) <= Comp(r.origin, a) + t * Comp(r.direction, a) <= Comp(b.maximum, a)
  }

  /** Every hit lies in the primitive's closed box, faces included, as a sphere's hits do. */
  ghost predicate ClosedBoxedHits(hit: HitFn, r: Aabb.Ray) {
    forall o, tMin, tMax :: hit(o, tMin, tMax).Some? ==>
      o.box.Some? && OnBox(o.box.value, r, hit(o, tMin, tMax).value)
  }

  /** A slab `[-1, 1] x [-1, 1] x [-3, -1]`, entered through its face `z = -1`. */
  const FaceBox: Aabb.Box := Aabb.Box(Vec3(-1.0, -1.0, -3.0), Vec3(1.0, 1.0, -1.0))

  /** A ray from the origin down the negative z axis. */
  const DownZ: Aabb.Ray := Aabb.Ray(Vec3(0.0, 0.0, 0.0), Vec3(0.0, 0.0, -1.0))

  /** Two primitives sharing `FaceBox`, both hit at `t = 1` on its face whenever 1 is in range. */
  function FaceHit(o: Obj, lo: real, hi: real): Option<real> {
    if o.box == Some(FaceBox) && lo <= 1.0 <= hi then Some(1.0) else None
  }

  /**
   * With hits allowed on the faces of a box, the traversal can settle a tie to the left where
   * the list settles it to the right: once the left side hits at `t = 1`, the right subtree is
   * asked up to 1, and its box, entered exactly at 1, fails the strict slab test.
   */
  lemma TieAtBoxFace()
    ensures var a, b := Obj(0, Some(FaceBox)), Obj(1, Some(FaceBox));
      var top := Node(Sub(Node(Prim(a), Prim(a), FaceBox)), Sub(Node(Prim(b), Prim(b), FaceBox)), FaceBox);
      Closest(FaceHit) && ClosedBoxedHits(FaceHit, DownZ) && WellBoxed(top)
      && HitNode(top, FaceHit, DownZ, 0.001, 10.0) == Some(Rec(1.0, a))
      && Best(Leaves(top), FaceHit, 0.001, 10.0) == Some(Rec(1.0, b))
  {
    var a, b := Obj(0, Some(FaceBox)), Obj(1, Some(FaceBox));
    var left, right := Node(Prim(a), Prim(a), FaceBox), Node(Prim(b), Prim(b), FaceBox);
    var top := Node(Sub(left), Sub(right), FaceBox);
    FaceHitOracle();
    FaceBoxSlabs();
    assert Aabb.SurroundingBox(FaceBox, FaceBox) == FaceBox;
    assert HitNode(left, FaceHit, DownZ, 0.001, 10.0) == Some(Rec(1.0, a));
    assert HitNode(right, FaceHit, DownZ, 0.001, 1.0) == None;
    assert Leaves(top) == [a, b];
    assert Best([a], FaceHit, 0.001, 10.0) == Some(Rec(1.0, a));
  }

  /** `FaceHit` is a closest-hit oracle whose hits lie on the closed box. */
  lemma FaceHitOracle()
    ensures Closest(FaceHit) && ClosedBoxedHits(FaceHit, DownZ)
  {
    assert OnBox(FaceBox, DownZ, 1.0) by {
      forall ax: Axis ensures Comp(FaceBox.minimum, ax) <= Comp(DownZ.origin, ax) + 1.0 * Comp(DownZ.direction, ax) <= Comp(FaceBox.maximum, ax) {
      }
    }
  }

  /** The ray meets the box over `[0.001, 10]`, but not over `[0.001, 1]`, which ends at the face. */
  lemma FaceBoxSlabs()
    ensures Aabb.Hit(FaceBox, DownZ, 0.001, 10.0) && !Aabb.Hit(FaceBox, DownZ, 0.001, 1.0)
  {
    Aabb.HitIff(FaceBox, DownZ, 0.001, 10.0);
    Aabb.HitIff(FaceBox, DownZ, 0.001, 1.0);
  }
}
