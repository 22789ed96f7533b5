/**
 * Axis-aligned bounding boxes (`aabb.rs`): a box is its two corners, two boxes unite into the
 * smallest box around both, and the slab test decides whether a ray meets a box inside an
 * interval of its parameter `t`. Coordinates are reals; the infinities that a zero direction
 * component produces are modelled by their effect on the interval.
 */
module Aabb {
  import opened Vec

  datatype Box = Box(minimum: Vec3, maximum: Vec3)

  datatype Ray = Ray(origin: Vec3, direction: Vec3)

  /** `f64::min` and `f64::max` on numbers. */
  function Min(a: real, b: real): real {
    if a <= b then a else b
  }

  function Max(a: real, b: real): real {
    if a >= b then a else b
  }

  /** `u <= v` on every component. */
  predicate Below(u: Vec3, v: Vec3) {
    u.x <= v.x && u.y <= v.y && u.z <= v.z
  }

  /** `outer` encloses `inner` on every axis. */
  predicate Contains(outer: Box, inner: Box) {
    Below(outer.minimum, inner.minimum) && Below(inner.maximum, outer.maximum)
  }

  /** `Aabb::new`; `min` and `max` read back the corners it was given. */
  function New(minimum: Vec3, maximum: Vec3): (b: Box)
    ensures b.minimum == minimum && b.maximum == maximum
  {
    Box(minimum, maximum)
  }

  /** `Aabb::surrounding_box`: the component-wise minimum of the minima and maximum of the maxima. */
  function SurroundingBox(box0: Box, box1: Box): Box {
    var small := Vec3(Min(box0.minimum.x, box1.minimum.x), Min(box0.minimum.y, box1.minimum.y),
                      Min(box0.minimum.z, box1.minimum.z));
    var big := Vec3(Max(box0.maximum.x, box1.maximum.x), Max(box0.maximum.y, box1.maximum.y),
                    Max(box0.maximum.z, box1.maximum.z));
    New(small, big)
  }

  /**
   * The union encloses both boxes, and it is the least box that does: every box enclosing both
   * encloses the union.
   */
  lemma SurroundingIsHull(box0: Box, box1: Box, outer: Box)
    ensures Contains(SurroundingBox(box0, box1), box0) && Contains(SurroundingBox(box0, box1), box1)
    ensures Contains(outer, box0) && Contains(outer, box1) <==> Contains(outer, SurroundingBox(box0, box1))
  {
  }

  /** The order of the operands does not matter, nor does repeating one. */
  lemma SurroundingAlgebra(box0: Box, box1: Box, box2: Box)
    ensures SurroundingBox(box0, box1) == SurroundingBox(box1, box0)
    ensures SurroundingBox(box0, box0) == box0
    ensures SurroundingBox(SurroundingBox(box0, box1), box2) == SurroundingBox(box0, SurroundingBox(box1, box2))
  {
  }

  /** Enclosure is a partial order on boxes. */
  lemma ContainsOrder(a: Box, b: Box, c: Box)
    ensures Contains(a, a)
    ensures Contains(a, b) && Contains(b, c) ==> Contains(a, c)
    ensures Contains(a, b) && Contains(b, a) ==> a == b
  {
  }

  /**
   * `t0` and `t1` of axis `a` after the swap, for a direction component that is not zero: the
   * parameters at which the ray enters and leaves the slab of the box on that axis.
   */
  function Entry(b: Box, r: Ray, a: Axis): real
    requires Comp(r.direction, a) != 0.0
  {
    var invD := 1.0 / Comp(r.direction, a);
    if invD < 0.0 then (Comp(b.maximum, a) - Comp(r.origin, a)) * invD
    else (Comp(b.minimum, a) - Comp(r.origin, a)) * invD
  }

  function Exit(b: Box, r: Ray, a: Axis): real
    requires Comp(r.direction, a) != 0.0
  {
    var invD := 1.0 / Comp(r.direction, a);
    if invD < 0.0 then (Comp(b.minimum, a) - Comp(r.origin, a)) * invD
    else (Comp(b.maximum, a) - Comp(r.origin, a)) * invD
  }

  /**
   * A ray parallel to the slab of axis `a` (direction component zero) meets it at every `t`
   * when its origin lies between the two faces, and never otherwise. In IEEE arithmetic
   * `1.0 / 0.0` is infinite, so `t0` and `t1` are infinities of the sign of `min - o` and
   * `max - o` (NaN on a face, which the comparisons ignore): an origin below `min` raises `t_min`
   * to +inf and one above `max` lowers `t_max` to -inf, either of which fails the test.
   */
  predicate InSlab(b: Box, r: Ray, a: Axis) {
    Comp(b.minimum, a) <= Comp(r.origin, a) <= Comp(b.maximum, a)
  }

  /** The slab of axis `a` is not closed to the ray: it is crossed, or the ray runs inside it. */
  predicate Meets(b: Box, r: Ray, a: Axis) {
    Comp(r.direction, a) != 0.0 || InSlab(b, r, a)
  }

  /** The entry of axis `a`, or `t` itself when the ray runs parallel to that slab. */
  function EntryOr(b: Box, r: Ray, a: Axis, t: real): real {
    if Comp(r.direction, a) == 0.0 then t else Entry(b, r, a)
  }

  function ExitOr(b: Box, r: Ray, a: Axis, t: real): real {
    if Comp(r.direction, a) == 0.0 then t else Exit(b, r, a)
  }

  /**
   * The loop of `Aabb::hit` from axis `a` on, with `tMin` and `tMax` as narrowed by the axes
   * before it: raise `tMin` to the entry, lower `tMax` to the exit, and give up as soon as the
   * interval is empty. A parallel slab either leaves the interval as it is or empties it.
   */
  function HitFrom(b: Box, r: Ray, a: nat, tMin: real, tMax: real): bool
    requires a <= 3
    decreases 3 - a
  {
    if a == 3 then true
    else if Comp(r.direction, a) == 0.0 then
      if !InSlab(b, r, a) || tMax <= tMin then false else HitFrom(b, r, a + 1, tMin, tMax)
    else
      var t0, t1 := Entry(b, r, a), Exit(b, r, a);
      var lo := if t0 > tMin then t0 else tMin;
      var hi := if t1 < tMax then t1 else tMax;
      if hi <= lo then false else HitFrom(b, r, a + 1, lo, hi)
  }

  /** `Aabb::hit`. */
  function Hit(b: Box, r: Ray, tMin: real, tMax: real): bool {
    HitFrom(b, r, 0, tMin, tMax)
  }

  /** The ray meets all three slabs. */
  predicate MeetsAll(b: Box, r: Ray) {
    Meets(b, r, 0) && Meets(b, r, 1) && Meets(b, r, 2)
  }

  /** The latest entry over the crossed slabs and `tMin`. */
  function LastEntry(b: Box, r: Ray, tMin: real): real {
    Max(tMin, Max(EntryOr(b, r, 0, tMin), Max(EntryOr(b, r, 1, tMin), EntryOr(b, r, 2, tMin))))
  }

  /** The earliest exit over the crossed slabs and `tMax`. */
  function FirstExit(b: Box, r: Ray, tMax: real): real {
    Min(tMax, Min(ExitOr(b, r, 0, tMax), Min(ExitOr(b, r, 1, tMax), ExitOr(b, r, 2, tMax))))
  }

  /** One turn of the loop: axis `a` narrows the interval to its entry and exit, or stops it. */
  lemma HitStep(b: Box, r: Ray, a: Axis, tMin: real, tMax: real)
    ensures HitFrom(b, r, a, tMin, tMax)
         == (Meets(b, r, a) && Max(tMin, EntryOr(b, r, a, tMin)) < Min(tMax, ExitOr(b, r, a, tMax))
             && HitFrom(b, r, a + 1, Max(tMin, EntryOr(b, r, a, tMin)), Min(tMax, ExitOr(b, r, a, tMax))))
  {
  }

  /**
   * The slab test holds exactly when no slab parallel to the ray shuts it out and the ray is
   * inside all crossed slabs at once within the interval: the latest entry comes strictly before
   * the earliest exit. Since `tMin` only rises and `tMax` only falls from axis to axis, an early
   * exit never hides a later success.
   */
  lemma HitIff(b: Box, r: Ray, tMin: real, tMax: real)
    ensures Hit(b, r, tMin, tMax) <==> MeetsAll(b, r) && LastEntry(b, r, tMin) < FirstExit(b, r, tMax)
  {
    var lo1, hi1 := Max(tMin, EntryOr(b, r, 0, tMin)), Min(tMax, ExitOr(b, r, 0, tMax));
    var lo2, hi2 := Max(lo1, EntryOr(b, r, 1, lo1)), Min(hi1, ExitOr(b, r, 1, hi1));
    var lo3, hi3 := Max(lo2, EntryOr(b, r, 2, lo2)), Min(hi2, ExitOr(b, r, 2, hi2));
    HitStep(b, r, 0, tMin, tMax);
    HitStep(b, r, 1, lo1, hi1);
    HitStep(b, r, 2, lo2, hi2);
    EntryChain(b, r, tMin);
    ExitChain(b, r, tMax);
  }

  /** Narrowing axis by axis ends at the latest entry. */
  lemma EntryChain(b: Box, r: Ray, tMin: real)
    ensures var lo1 := Max(tMin, EntryOr(b, r, 0, tMin));
            var lo2 := Max(lo1, EntryOr(b, r, 1, lo1));
            Max(lo2, EntryOr(b, r, 2, lo2)) == LastEntry(b, r, tMin)
  {
    var e0, e1, e2 := EntryOr(b, r, 0, tMin), EntryOr(b, r, 1, tMin), EntryOr(b, r, 2, tMin);
    var lo1 := Max(tMin, e0);
    NeutralEntry(b, r, 1, tMin, lo1);
    var lo2 := Max(lo1, e1);
    NeutralEntry(b, r, 2, tMin, lo2);
    assert LastEntry(b, r, tMin) == Max(tMin, Max(e0, Max(e1, e2)));
  }

  /** Narrowing axis by axis ends at the earliest exit. */
  lemma ExitChain(b: Box, r: Ray, tMax: real)
    ensures var hi1 := Min(tMax, ExitOr(b, r, 0, tMax));
            var hi2 := Min(hi1, ExitOr(b, r, 1, hi1));
            Min(hi2, ExitOr(b, r, 2, hi2)) == FirstExit(b, r, tMax)
  {
    var x0, x1, x2 := ExitOr(b, r, 0, tMax), ExitOr(b, r, 1, tMax), ExitOr(b, r, 2, tMax);
    var hi1 := Min(tMax, x0);
    NeutralExit(b, r, 1, tMax, hi1);
    var hi2 := Min(hi1, x1);
    NeutralExit(b, r, 2, tMax, hi2);
    assert FirstExit(b, r, tMax) == Min(tMax, Min(x0, Min(x1, x2)));
  }

  /** A parallel slab leaves the lower end where it is, whatever neutral value stands for it. */
  lemma NeutralEntry(b: Box, r: Ray, a: Axis, t: real, lo: real)
    requires t <= lo
    ensures Max(lo, EntryOr(b, r, a, lo)) == Max(lo, EntryOr(b, r, a, t))
  {
  }

  /** A parallel slab leaves the upper end where it is, whatever neutral value stands for it. */
  lemma NeutralExit(b: Box, r: Ray, a: Axis, t: real, hi: real)
    requires hi <= t
    ensures Min(hi, ExitOr(b, r, a, hi)) == Min(hi, ExitOr(b, r, a, t))
  {
  }

  /** `x * k` is monotone in `x` for `k > 0` and antitone for `k < 0`. */
  lemma ScaleOrder(x: real, y: real, k: real)
    requires x <= y
    ensures k > 0.0 ==> x * k <= y * k
    ensures k < 0.0 ==> y * k <= x * k
  {
    assert y * k - x * k == (y - x) * k;
  }

  /**
   * A larger box shuts out no parallel ray the smaller one lets in, and a crossed slab of the
   * larger box is entered no later and left no earlier.
   */
  lemma SlabWidens(outer: Box, inner: Box, r: Ray, a: Axis)
    requires Contains(outer, inner)
    ensures Meets(inner, r, a) ==> Meets(outer, r, a)
    ensures Comp(r.direction, a) != 0.0 ==>
              Entry(outer, r, a) <= Entry(inner, r, a) && Exit(inner, r, a) <= Exit(outer, r, a)
  {
    assert Comp(outer.minimum, a) <= Comp(inner.minimum, a) && Comp(inner.maximum, a) <= Comp(outer.maximum, a);
    if Comp(r.direction, a) != 0.0 {
      var invD := 1.0 / Comp(r.direction, a);
      var o := Comp(r.origin, a);
      assert invD != 0.0;
      ScaleOrder(Comp(outer.minimum, a) - o, Comp(inner.minimum, a) - o, invD);
      ScaleOrder(Comp(inner.maximum, a) - o, Comp(outer.maximum, a) - o, invD);
    }
  }

  /**
   * The test is monotone: a ray that meets a box within an interval meets every enclosing box
   * within every wider interval. This is what lets a node of a hierarchy skip its children.
   */
  lemma HitMonotone(outer: Box, inner: Box, r: Ray, tMin: real, tMax: real, tMin': real, tMax': real)
    requires Contains(outer, inner) && tMin' <= tMin && tMax <= tMax'
    requires Hit(inner, r, tMin, tMax)
    ensures Hit(outer, r, tMin', tMax')
  {
    HitIff(inner, r, tMin, tMax);
    SlabWidens(outer, inner, r, 0);
    SlabWidens(outer, inner, r, 1);
    SlabWidens(outer, inner, r, 2);
    assert MeetsAll(outer, r);
    BoundsWiden(outer, inner, r, tMin, tMax, tMin', tMax');
    HitIff(outer, r, tMin', tMax');
  }

  /** The latest entry into the larger box over the wider interval is no later, the exit no earlier. */
  lemma BoundsWiden(outer: Box, inner: Box, r: Ray, tMin: real, tMax: real, tMin': real, tMax': real)
    requires Contains(outer, inner) && tMin' <= tMin && tMax <= tMax'
    ensures LastEntry(outer, r, tMin') <= LastEntry(inner, r, tMin)
    ensures FirstExit(inner, r, tMax) <= FirstExit(outer, r, tMax')
  {
    SlabWidens(outer, inner, r, 0);
    SlabWidens(outer, inner, r, 1);
    SlabWidens(outer, inner, r, 2);
  }
}
