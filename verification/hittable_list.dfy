/**
 * `HittableList` of `scene/hittable_list.rs`: primitives in insertion order, a closest-hit scan
 * that narrows its interval as it goes, and a bounding box that is the union of all the boxes.
 */
module HittableList {
  import opened Wrappers
  import Aabb
  import opened Hittable

  datatype List = List(objects: seq<Obj>)

  /** `HittableList::new`. */
  function New(): (l: List)
    ensures |l.objects| == 0
  {
    List([])
  }

  /** `HittableList::add`: one more object, at the end. */
  function Add(l: List, o: Obj): (res: List)
    ensures |res.objects| == |l.objects| + 1 && res.objects[|l.objects|] == o
    ensures res.objects[..|l.objects|] == l.objects
  {
    List(l.objects + [o])
  }

  /** `as_ref`: the objects, in the order they were added. */
  function AsRef(l: List): seq<Obj> {
    l.objects
  }

  /** Add the objects of `xs` one after another. */
  function AddAll(l: List, xs: seq<Obj>): List
    decreases |xs|
  {
    if xs == [] then l else AddAll(Add(l, xs[0]), xs[1..])
  }

  /** A list built by adding `xs` in turn exposes exactly `xs`, in that order. */
  lemma {:induction false} AddAllOrder(l: List, xs: seq<Obj>)
    ensures AsRef(AddAll(l, xs)) == AsRef(l) + xs
    decreases |xs|
  {
    if xs != [] {
      AddAllOrder(Add(l, xs[0]), xs[1..]);
      assert l.objects + [xs[0]] + xs[1..] == l.objects + xs;
    }
  }

  /**
   * `Hittable::hit` for the list: ask each object in turn, with the upper end of the interval
   * lowered to the nearest hit found so far. The result is the reference closest hit: `None`
   * exactly when no object hits in `[tMin, tMax]`, and otherwise the nearest hit, a tie going
   * to the object added later.
   */
  method Hit(l: List, hit: HitFn, tMin: real, tMax: real) returns (rec: Option<Rec>)
    requires Closest(hit)
    ensures rec == Best(l.objects, hit, tMin, tMax)
    ensures rec.None? <==> forall k :: 0 <= k < |l.objects| ==> hit(l.objects[k], tMin, tMax).None?
  {
    var objs := l.objects;
    rec := None;
    var closest := tMax;
    var i := 0;
    while i < |objs|
      invariant i <= |objs|
      invariant rec == Best(objs[..i], hit, tMin, tMax)
      invariant closest == (if rec.Some? then rec.value.t else tMax)
      invariant rec.Some? ==> tMin <= rec.value.t <= tMax
    {
      var o := objs[i];
      if rec.Some? {
        QueryNarrow(hit, o, tMin, tMax, closest);
      }
      match hit(o, tMin, closest) {
        case Some(t) =>
          closest := t;
          rec := Some(Rec(t, o));
        case None =>
      }
      assert objs[..i + 1][..i] == objs[..i];
      i := i + 1;
    }
    assert objs[..i] == objs;
    BestNone(objs, hit, tMin, tMax);
  }

  /** Every object of `objs` has a box, and `outer` encloses all of them. */
  predicate Encloses(outer: Aabb.Box, objs: seq<Obj>) {
    forall k :: 0 <= k < |objs| ==> objs[k].box.Some? && Aabb.Contains(outer, objs[k].box.value)
  }

  /** `b` is the least box enclosing every box of `objs`. */
  ghost predicate IsHull(b: Aabb.Box, objs: seq<Obj>) {
    Encloses(b, objs) && forall outer :: Encloses(outer, objs) ==> Aabb.Contains(outer, b)
  }

  /** The hull grows by one box through `surrounding_box`. */
  lemma HullStep(h: Aabb.Box, objs: seq<Obj>, o: Obj)
    requires IsHull(h, objs) && o.box.Some?
    ensures IsHull(Aabb.SurroundingBox(o.box.value, h), objs + [o])
  {
    var u := Aabb.SurroundingBox(o.box.value, h);
    var all := objs + [o];
    forall k | 0 <= k < |all|
      ensures all[k].box.Some? && Aabb.Contains(u, all[k].box.value)
    {
      Aabb.SurroundingIsHull(o.box.value, h, u);
      if k < |objs| {
        assert all[k] == objs[k];
        Aabb.ContainsOrder(u, h, objs[k].box.value);
      }
    }
    forall outer | Encloses(outer, all)
      ensures Aabb.Contains(outer, u)
    {
      assert Encloses(outer, objs) by {
        forall k | 0 <= k < |objs| ensures objs[k].box.Some? && Aabb.Contains(outer, objs[k].box.value) {
          assert all[k] == objs[k];
        }
      }
      assert all[|objs|] == o;
      Aabb.SurroundingIsHull(o.box.value, h, outer);
    }
  }

  /** A single box is its own hull. */
  lemma HullOne(o: Obj)
    requires o.box.Some?
    ensures IsHull(o.box.value, [o])
  {
    Aabb.ContainsOrder(o.box.value, o.box.value, o.box.value);
    forall outer | Encloses(outer, [o])
      ensures Aabb.Contains(outer, o.box.value)
    {
      assert [o][0] == o;
    }
  }

  /**
   * `bounding_box`: `None` for an empty list or as soon as an object has no box; otherwise the
   * least box enclosing every object's box.
   */
  method BoundingBox(l: List) returns (res: Option<Aabb.Box>)
    ensures res.None? <==> |l.objects| == 0 || exists k :: 0 <= k < |l.objects| && l.objects[k].box.None?
    ensures res.Some? ==> IsHull(res.value, l.objects)
  {
    var objs := l.objects;
    if |objs| == 0 {
      return None;
    }
    var temp: Option<Aabb.Box> := None;
    var i := 0;
    while i < |objs|
      invariant i <= |objs|
      invariant forall k :: 0 <= k < i ==> objs[k].box.Some?
      invariant temp.None? <==> i == 0
      invariant temp.Some? ==> IsHull(temp.value, objs[..i])
    {
      var o := objs[i];
      assert objs[..i + 1] == objs[..i] + [o];
      match o.box {
        case Some(bb) =>
          match temp {
            case Some(bb2) =>
              HullStep(bb2, objs[..i], o);
              temp := Some(Aabb.SurroundingBox(bb, bb2));
            case None =>
              HullOne(o);
              temp := Some(bb);
          }
        case None =>
          return None;
      }
      i := i + 1;
    }
    assert objs[..i] == objs;
    return temp;
  }
}
