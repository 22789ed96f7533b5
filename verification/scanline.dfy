/**
 * The first renderer, `raytracer.rs`: whole scanlines from the top of the image (row
 * `height - 1`) down, each appended left to right to the output vector, with a shared counter
 * of finished scanlines. Its `ray_color` has no emission: a ray that is absorbed is black and
 * a ray that escapes takes the sky gradient of its direction.
 */
module Scanline {
  import opened Vec
  import opened Wrappers
  import Arith
  import Render

  /**
   * `ray_color`: `world(r)` is `None` on a miss and otherwise the material's optional
   * scatter; `sky(r)` is the gradient `(1 - t) * white + t * blue` for the ray's direction.
   */
  function RayColor<Ray>(world: Ray -> Option<Option<Render.Scatter<Ray>>>, sky: Ray -> Vec3, r: Ray,
                         depth: int): Vec3
    decreases Render.Max0(depth)
  {
    if depth <= 0 then Zero()
    else match world(r)
      case None => sky(r)
      case Some(None) => Zero()
      case Some(Some(s)) => Mul(s.attenuation, RayColor(world, sky, s.scattered, depth - 1))
  }

  /** The same scene seen by the later `ray_color`: every hit emits nothing. */
  function Dark<Ray>(world: Ray -> Option<Option<Render.Scatter<Ray>>>): Ray -> Option<Render.Hit<Ray>> {
    r => match world(r)
      case None => None
      case Some(s) => Some(Render.Hit(Zero(), s))
  }

  /**
   * Under a uniform sky, the first `ray_color` is the later one on a scene without emission:
   * the later version only added the emission term and a fixed background.
   */
  lemma {:induction false} DarkScene<Ray>(world: Ray -> Option<Option<Render.Scatter<Ray>>>, sky: Ray -> Vec3,
                                          background: Vec3, r: Ray, depth: int)
    requires forall q :: sky(q) == background
    ensures RayColor(world, sky, r, depth) == Render.RayColor(Dark(world), r, background, depth).0
    decreases Render.Max0(depth)
  {
    if depth > 0 && world(r).Some? && world(r).value.Some? {
      var s := world(r).value.value;
      DarkScene(world, sky, background, s.scattered, depth - 1);
      assert Dark(world)(r) == Some(Render.Hit(Zero(), Some(s)));
    }
  }

  /** Scanline `j`, left to right. */
  function Line(width: nat, j: nat, pixel: (nat, nat) -> Vec3): (r: seq<Vec3>)
    ensures |r| == width && forall i :: 0 <= i < width ==> r[i] == pixel(i, j)
  {
    seq(width, i requires 0 <= i < width => pixel(i, j))
  }

  /** Scanlines `from - 1` down to `to`, in that order. */
  function Lines(width: nat, from: nat, to: nat, pixel: (nat, nat) -> Vec3): seq<Vec3>
    decreases from
  {
    if from <= to then [] else Line(width, from - 1, pixel) + Lines(width, from - 1, to, pixel)
  }

  /** One more scanline at the bottom. */
  lemma {:induction false} LinesSnoc(width: nat, from: nat, to: nat, pixel: (nat, nat) -> Vec3)
    requires to < from
    ensures Lines(width, from, to, pixel) == Lines(width, from, to + 1, pixel) + Line(width, to, pixel)
    decreases from
  {
    if from - 1 > to {
      LinesSnoc(width, from - 1, to, pixel);
    }
  }

  /**
   * `render`: for `j` from `height - 1` down to 0, bump the shared counter, then append the
   * colours of row `j` for `i` from 0 up. `pixel(i, j)` is the summed colour of pixel `(i, j)`.
   */
  method RenderImage(v0: seq<Vec3>, counter0: nat, width: nat, height: nat, pixel: (nat, nat) -> Vec3)
    returns (v: seq<Vec3>, counter: nat)
    ensures v == v0 + Lines(width, height, 0, pixel)
    ensures counter == counter0 + height
  {
    v := v0;
    counter := counter0;
    var j: nat := height;
    while j > 0
      invariant j <= height
      invariant v == v0 + Lines(width, height, j, pixel)
      invariant counter == counter0 + (height - j)
    {
      j := j - 1;
      counter := counter + 1;
      var i := 0;
      ghost var start := v;
      while i < width
        invariant i <= width
        invariant v == start + Line(width, j, pixel)[..i]
      {
        v := v + [pixel(i, j)];
        i := i + 1;
      }
      LinesSnoc(width, height, j, pixel);
    }
  }

  /** The element at position `k` of the output. */
  function Sample(width: nat, height: nat, pixel: (nat, nat) -> Vec3, k: nat): Vec3
    requires width > 0 && k < height * width
  {
    Arith.RowOf(k, width, height);
    pixel(k % width, height - 1 - k / width)
  }

  /**
   * The output holds `width * height` colours, row-major from the top: position `r * width + c`
   * is pixel `(c, height - 1 - r)`.
   */
  lemma {:induction false} LinesLayout(width: nat, height: nat, pixel: (nat, nat) -> Vec3)
    requires width > 0
    ensures |Lines(width, height, 0, pixel)| == height * width
    ensures forall k :: 0 <= k < height * width ==> Lines(width, height, 0, pixel)[k] == Sample(width, height, pixel, k)
    decreases height
  {
    if height > 0 {
      var h := height - 1;
      var top := Line(width, h, pixel);
      var rest := Lines(width, h, 0, pixel);
      assert Lines(width, height, 0, pixel) == top + rest;
      Arith.Distrib(h, 1, width);
      LinesLayout(width, h, pixel);
      forall k | 0 <= k < height * width
        ensures (top + rest)[k] == Sample(width, height, pixel, k)
      {
        LayoutAt(width, h, pixel, k);
      }
    }
  }

  lemma LayoutAt(width: nat, h: nat, pixel: (nat, nat) -> Vec3, k: nat)
    requires width > 0 && k < h * width + width
    requires |Lines(width, h, 0, pixel)| == h * width
    requires forall k :: 0 <= k < h * width ==> Lines(width, h, 0, pixel)[k] == Sample(width, h, pixel, k)
    ensures (Line(width, h, pixel) + Lines(width, h, 0, pixel))[k] == Sample(width, h + 1, pixel, k)
  {
    if k < width {
      TopRow(width, h, pixel, k);
    } else {
      Arith.Distrib(h, 1, width);
      LowerRow(width, h, pixel, k);
    }
  }

  lemma TopRow(width: nat, h: nat, pixel: (nat, nat) -> Vec3, k: nat)
    requires k < width
    ensures k < (h + 1) * width && Sample(width, h + 1, pixel, k) == pixel(k, h)
  {
    Arith.RowOfLast(k, width, 0);
  }

  lemma LowerRow(width: nat, h: nat, pixel: (nat, nat) -> Vec3, k: nat)
    requires width <= k < h * width + width
    ensures k - width < h * width && k < (h + 1) * width
    ensures Sample(width, h, pixel, k - width) == Sample(width, h + 1, pixel, k)
  {
    Arith.Distrib(h, 1, width);
    Arith.ShiftRow(k, width);
  }
}
