/**
 * The `Hittable` interface of `object/hittable.rs` and the face-normal rule of its `HitRecord`.
 *
 * A primitive is seen only through its interface: an identity (the shared pointer that holds
 * it), an optional bounding box, and a hit oracle that, for the ray being traced, answers a
 * query interval `[tMin, tMax]` with the parameter `t` of a hit or with `None`. The closest hit
 * over a set of primitives is defined here once, without any narrowing of intervals, as the
 * reference against which the list and the hierarchy are proved.
 */
module Hittable {
  import opened Vec
  import opened Wrappers
  import Aabb

  /** `HitRecord`, with the material pointer left abstract. */
  datatype HitRecord<M> = HitRecord(p: Vec3, normal: Vec3, mat: M, t: real, frontFace: bool)

  function Abs(x: real): real {
    if x < 0.0 then -x else x
  }

  /**
   * `HitRecord::set_face_normal`: the record faces the ray. `front_face` says whether the ray
   * arrives against the outward normal, the stored normal points against the ray in either
   * case, and nothing but the two orientation fields changes.
   */
  function SetFaceNormal<M>(rec: HitRecord<M>, r: Aabb.Ray, outward: Vec3): (res: HitRecord<M>)
    ensures res.frontFace <==> Dot(r.direction, outward) < 0.0
    ensures res.normal == outward || res.normal == Neg(outward)
    ensures Dot(r.direction, res.normal) == -Abs(Dot(r.direction, outward)) <= 0.0
    ensures res.(normal := rec.normal, frontFace := rec.frontFace) == rec
  {
    var front := Dot(r.direction, outward) < 0.0;
    rec.(frontFace := front, normal := if front then outward else Neg(outward))
  }

  /**
   * The stored normal does not depend on which way the primitive's own normal points, except
   * at a grazing ray: only `front_face` records the side the ray came from.
   */
  lemma {:induction false} FaceNormalIgnoresSide<M>(rec: HitRecord<M>, r: Aabb.Ray, outward: Vec3)
    requires Dot(r.direction, outward) != 0.0
    ensures SetFaceNormal(rec, r, Neg(outward)).normal == SetFaceNormal(rec, r, outward).normal
    ensures SetFaceNormal(rec, r, Neg(outward)).frontFace == !SetFaceNormal(rec, r, outward).frontFace
  {
    var d := r.direction;
    assert Dot(d, Neg(outward)) == -Dot(d, outward);
    assert Neg(Neg(outward)) == outward;
  }

  /**
   * A primitive behind an `Arc<dyn Hittable>`: `id` stands for the pointer, so two values are
   * the same object exactly when they are equal, and `box` is what `bounding_box` reports.
   */
  datatype Obj = Obj(id: nat, box: Option<Aabb.Box>)

  /** The hit oracle for the traced ray: `hit(o, tMin, tMax)` is the `t` of `o.hit(r, tMin, tMax)`. */
  type HitFn = (Obj, real, real) -> Option<real>

  /** A hit together with the primitive that produced it. */
  datatype Rec = Rec(t: real, obj: Obj)

  /** Every answer lies in the query interval, ends included. */
  ghost predicate InInterval(hit: HitFn) {
    forall o, tMin, tMax :: hit(o, tMin, tMax).Some? ==> tMin <= hit(o, tMin, tMax).value <= tMax
  }

  /** `h` with answers beyond `tMax` dropped. */
  function Cut(h: Option<real>, tMax: real): Option<real> {
    if h.Some? && h.value <= tMax then h else None
  }

  /**
   * A closest-root oracle: every answer lies in the query interval, and narrowing the upper end
   * keeps the answer when it is still inside and otherwise finds nothing. A primitive that
   * reports its nearest intersection in `[tMin, tMax]` behaves so.
   */
  ghost predicate Closest(hit: HitFn) {
    InInterval(hit) &&
    forall o, tMin, tMax, tMax' :: tMin <= tMax' <= tMax ==> hit(o, tMin, tMax') == Cut(hit(o, tMin, tMax), tMax')
  }

  /** The hit of one primitive as a record. */
  function Query(hit: HitFn, o: Obj, tMin: real, tMax: real): Option<Rec> {
    match hit(o, tMin, tMax)
    case None => None
    case Some(t) => Some(Rec(t, o))
  }

  /** The nearer of two hits; a tie goes to the second. */
  function Pick(a: Option<Rec>, b: Option<Rec>): Option<Rec> {
    if b.Some? && (a.None? || b.value.t <= a.value.t) then b else a
  }

  /** The reference closest hit: every primitive asked about the full interval, nearest kept. */
  function Best(objs: seq<Obj>, hit: HitFn, tMin: real, tMax: real): Option<Rec>
    decreases |objs|
  {
    if objs == [] then None
    else Pick(Best(objs[..|objs| - 1], hit, tMin, tMax), Query(hit, objs[|objs| - 1], tMin, tMax))
  }

  /** `Pick` is associative, so the closest hit of a concatenation is that of the parts. */
  lemma PickAssoc(a: Option<Rec>, b: Option<Rec>, c: Option<Rec>)
    ensures Pick(Pick(a, b), c) == Pick(a, Pick(b, c))
  {
  }

  lemma {:induction false} BestAppend(xs: seq<Obj>, ys: seq<Obj>, hit: HitFn, tMin: real, tMax: real)
    ensures Best(xs + ys, hit, tMin, tMax) == Pick(Best(xs, hit, tMin, tMax), Best(ys, hit, tMin, tMax))
    decreases |ys|
  {
    if ys == [] {
      assert xs + ys == xs;
    } else {
      var init := ys[..|ys| - 1];
      var last := ys[|ys| - 1];
      assert (xs + ys)[..|xs + ys| - 1] == xs + init;
      BestAppend(xs, init, hit, tMin, tMax);
      PickAssoc(Best(xs, hit, tMin, tMax), Best(init, hit, tMin, tMax), Query(hit, last, tMin, tMax));
    }
  }

  /** `Cut` on records. */
  function CutRec(h: Option<Rec>, tMax: real): Option<Rec> {
    if h.Some? && h.value.t <= tMax then h else None
  }

  lemma CutPick(a: Option<Rec>, b: Option<Rec>, tMax: real)
    ensures CutRec(Pick(a, b), tMax) == Pick(CutRec(a, tMax), CutRec(b, tMax))
  {
  }

  lemma QueryNarrow(hit: HitFn, o: Obj, tMin: real, tMax: real, tMax': real)
    requires Closest(hit) && tMin <= tMax' <= tMax
    ensures Query(hit, o, tMin, tMax') == CutRec(Query(hit, o, tMin, tMax), tMax')
  {
    assert hit(o, tMin, tMax') == Cut(hit(o, tMin, tMax), tMax');
  }

  /** Narrowing the interval of the whole set keeps the closest hit if it is still inside. */
  lemma {:induction false} BestNarrow(objs: seq<Obj>, hit: HitFn, tMin: real, tMax: real, tMax': real)
    requires Closest(hit) && tMin <= tMax' <= tMax
    ensures Best(objs, hit, tMin, tMax') == CutRec(Best(objs, hit, tMin, tMax), tMax')
    decreases |objs|
  {
    if objs != [] {
      var init, last := objs[..|objs| - 1], objs[|objs| - 1];
      BestNarrow(init, hit, tMin, tMax, tMax');
      QueryNarrow(hit, last, tMin, tMax, tMax');
      CutPick(Best(init, hit, tMin, tMax), Query(hit, last, tMin, tMax), tMax');
    }
  }

  /** `objs[k]` hits, no primitive hits nearer, and every later one hits strictly farther. */
  predicate LastNearest(objs: seq<Obj>, hit: HitFn, tMin: real, tMax: real, k: nat)
    requires k < |objs|
  {
    hit(objs[k], tMin, tMax).Some? &&
    forall j :: 0 <= j < |objs| && hit(objs[j], tMin, tMax).Some? ==>
      (if j <= k then hit(objs[k], tMin, tMax).value <= hit(objs[j], tMin, tMax).value
       else hit(objs[k], tMin, tMax).value < hit(objs[j], tMin, tMax).value)
  }

  /** There is no hit exactly when no primitive hits. */
  lemma {:induction false} BestNone(objs: seq<Obj>, hit: HitFn, tMin: real, tMax: real)
    ensures Best(objs, hit, tMin, tMax).None? <==> forall k :: 0 <= k < |objs| ==> hit(objs[k], tMin, tMax).None?
    decreases |objs|
  {
    if objs != [] {
      var init := objs[..|objs| - 1];
      BestNone(init, hit, tMin, tMax);
      assert forall k :: 0 <= k < |init| ==> init[k] == objs[k];
    }
  }

  /** A hit comes from the last of the primitives whose hit is nearest. */
  lemma {:induction false} BestSome(objs: seq<Obj>, hit: HitFn, tMin: real, tMax: real) returns (k: nat)
    requires Best(objs, hit, tMin, tMax).Some?
    ensures k < |objs| && LastNearest(objs, hit, tMin, tMax, k)
    ensures Best(objs, hit, tMin, tMax) == Query(hit, objs[k], tMin, tMax)
    decreases |objs|
  {
    var n := |objs| - 1;
    var init, last := objs[..n], objs[n];
    assert forall j :: 0 <= j < n ==> init[j] == objs[j];
    var b := Best(init, hit, tMin, tMax);
    var q := Query(hit, last, tMin, tMax);
    if q.Some? && (b.None? || q.value.t <= b.value.t) {
      k := n;
      if b.None? {
        BestNone(init, hit, tMin, tMax);
      } else {
        var i := BestSome(init, hit, tMin, tMax);
      }
    } else {
      k := BestSome(init, hit, tMin, tMax);
    }
  }
}
