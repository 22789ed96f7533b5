/**
 * The first `HittableList`, `hittable_list.rs`: the same insertion-ordered scan as the later
 * list, over `Rc` pointers and without a bounding box. Its contract is stated directly, without
 * the reference closest hit: the answer lies in the interval, belongs to a listed object, and
 * no listed object hits nearer.
 */
module RcHittableList {
  import opened Wrappers
  import opened Hittable

  datatype List = List(objects: seq<Obj>)

  /** `HittableList::new`. */
  function New(): (l: List)
    ensures |l.objects| == 0
  {
    List([])
  }

  /** `HittableList::add`: one more object, at the end, the others unchanged. */
  function Add(l: List, o: Obj): (res: List)
    ensures |res.objects| == |l.objects| + 1 && res.objects[|l.objects|] == o
    ensures forall k :: 0 <= k < |l.objects| ==> res.objects[k] == l.objects[k]
  {
    List(l.objects + [o])
  }

  /** `Hittable::hit` for the list: each object asked in turn, the interval narrowed to the last hit. */
  method Hit(l: List, hit: HitFn, tMin: real, tMax: real) returns (rec: Option<Rec>)
    requires Closest(hit)
    ensures rec.None? <==> forall k :: 0 <= k < |l.objects| ==> hit(l.objects[k], tMin, tMax).None?
    ensures rec.Some? ==> tMin <= rec.value.t <= tMax
    ensures rec.Some? ==> rec.value.obj in l.objects && hit(rec.value.obj, tMin, tMax) == Some(rec.value.t)
    ensures rec.Some? ==> forall k :: 0 <= k < |l.objects| && hit(l.objects[k], tMin, tMax).Some? ==>
      rec.value.t <= hit(l.objects[k], tMin, tMax).value
  {
    var objs := l.objects;
    rec := None;
    var closest := tMax;
    for i := 0 to |objs|
      invariant closest == (if rec.Some? then rec.value.t else tMax)
      invariant rec.Some? ==> tMin <= rec.value.t <= tMax
      invariant rec.Some? ==> rec.value.obj in objs[..i] && hit(rec.value.obj, tMin, tMax) == Some(rec.value.t)
      invariant forall k :: 0 <= k < i && hit(objs[k], tMin, tMax).Some? ==>
        rec.Some? && rec.value.t <= hit(objs[k], tMin, tMax).value
    {
      var o := objs[i];
      assert hit(o, tMin, closest) == Cut(hit(o, tMin, tMax), closest);
      match hit(o, tMin, closest) {
        case Some(t) =>
          closest := t;
          rec := Some(Rec(t, o));
        case None =>
      }
      assert objs[..i + 1] == objs[..i] + [o];
    }
    assert objs[..|objs|] == objs;
  }
}
