/**
 * The per-tile work of `render` in `common/raytracer.rs`: the pixel loops of one claimed tile,
 * the generator seed of a tile, the averaging of a pixel's samples, and `ray_color` with its
 * depth cap and `peak_depth` counter. Geometry, materials and the random generator are
 * outside the model: a scene is an oracle from a ray to what it hits, and a pixel's samples
 * arrive as colours.
 */
module Render {
  import opened Vec
  import opened Wrappers
  import Tiles

  const TILE_SIZE: nat := Tiles.TILE_SIZE

  // ---------------------------------------------------------------------------------------
  // The pixel loops of one tile

  /** The pixel array of a tile, indexed `[j - y][i - x]`. */
  type Pixels = seq<seq<Vec3>>

  predicate Square(px: Pixels) {
    |px| == TILE_SIZE && forall r :: 0 <= r < TILE_SIZE ==> |px[r]| == TILE_SIZE
  }

  predicate BlankRow(row: seq<Vec3>) {
    forall c :: 0 <= c < |row| ==> row[c] == Zero()
  }

  /** `Tile::new`: every pixel zero. */
  function Blank(): (px: Pixels)
    ensures Square(px)
  {
    seq(TILE_SIZE, _ => seq(TILE_SIZE, _ => Zero()))
  }

  /**
   * What a finished tile holds at `[r][c]`: the colour of image pixel `(x + c, y + r)` when
   * that pixel is inside the image, zero otherwise.
   */
  function Expected(width: nat, height: nat, t: Tiles.Cursor, color: (nat, nat) -> Vec3,
                    r: nat, c: nat): Vec3 {
    if t.x + c < width && t.y + r < height then color(t.x + c, t.y + r) else Zero()
  }

  /** In-image rows of the tile at or below row `j` (the rows the descending loop has done). */
  function RowsDone(height: nat, j: nat, top: nat): nat {
    if j >= height || j >= top then 0 else if height < top then height - j else top - j
  }

  /**
   * The loops of `render` for the tile at `t`: rows `y+15` down to `y`, columns `x` up to
   * `x+15`, skipping pixels outside the image; each pixel inside is written at
   * `[j - y][i - x]` and counted. `color(i, j)` is the pixel's finished colour.
   */
  method RenderTile(width: nat, height: nat, t: Tiles.Cursor, color: (nat, nat) -> Vec3)
    returns (px: Pixels, count: nat)
    ensures Square(px)
    ensures forall r, c :: 0 <= r < TILE_SIZE && 0 <= c < TILE_SIZE ==>
      px[r][c] == Expected(width, height, t, color, r, c)
    ensures count == Tiles.TilePixels(width, height, t)
  {
    px := Blank();
    count := 0;
    var top := t.y + TILE_SIZE;
    var j := top;
    while j > t.y
      invariant t.y <= j <= top
      invariant Square(px)
      invariant forall r, c :: 0 <= r < TILE_SIZE && 0 <= c < TILE_SIZE ==>
        px[r][c] == (if t.y + r >= j then Expected(width, height, t, color, r, c) else Zero())
      invariant count == Tiles.Span(width, t.x) * RowsDone(height, j, top)
    {
      j := j - 1;
      if j >= height {
        continue;
      }
      px, count := RenderRow(width, height, t, color, px, count, j);
      assert RowsDone(height, j, top) == RowsDone(height, j + 1, top) + 1;
    }
  }

  /** The inner loop: one row of the tile. */
  method RenderRow(width: nat, height: nat, t: Tiles.Cursor, color: (nat, nat) -> Vec3,
                   px0: Pixels, count0: nat, j: nat)
    returns (px: Pixels, count: nat)
    requires Square(px0) && t.y <= j < t.y + TILE_SIZE && j < height
    requires BlankRow(px0[j - t.y])
    ensures Square(px)
    ensures forall r, c :: 0 <= r < TILE_SIZE && 0 <= c < TILE_SIZE ==>
      px[r][c] == (if r == j - t.y then Expected(width, height, t, color, r, c) else px0[r][c])
    ensures count == count0 + Tiles.Span(width, t.x)
  {
    px := px0;
    count := count0;
    var row := j - t.y;
    var i := t.x;
    while i < t.x + TILE_SIZE
      invariant t.x <= i <= t.x + TILE_SIZE
      invariant Square(px)
      invariant forall r, c :: 0 <= r < TILE_SIZE && 0 <= c < TILE_SIZE ==>
        px[r][c] == (if r == row && t.x + c < i then Expected(width, height, t, color, r, c) else px0[r][c])
      invariant count == count0 + Tiles.Min(i, width) - Tiles.Min(t.x, width)
    {
      if i >= width {
        i := i + 1;
        continue;
      }
      px := px[row := px[row][i - t.x := color(i, j)]];
      count := count + 1;
      i := i + 1;
    }
    Tiles.SpanMin(width, t.x);
  }

  // ---------------------------------------------------------------------------------------
  // The generator seed of a tile

  const TWO_64: nat := 0x1_0000_0000_0000_0000

  /** `seed ^ x as u64 ^ y as u64`: the seed of the generator that renders the tile at `t`. */
  function TileSeed(seed: bv64, t: Tiles.Cursor): bv64
    requires t.x < TWO_64 && t.y < TWO_64
  {
    Mix(seed, t.x as bv64, t.y as bv64)
  }

  /** The mixing of a tile origin `(x, y)`, already converted to `u64`, into the global seed. */
  function Mix(seed: bv64, x: bv64, y: bv64): bv64 {
    seed ^ x ^ y
  }

  /**
   * The global seed is recovered from a tile's seed and origin, so different global seeds give
   * every tile a different generator.
   */
  lemma MixRecovers(seed: bv64, x: bv64, y: bv64)
    ensures Mix(seed, x, y) ^ x ^ y == seed
    ensures forall other: bv64 :: Mix(other, x, y) == Mix(seed, x, y) <==> other == seed
  {
    Unmix(seed, x, y);
    forall other: bv64 ensures Mix(other, x, y) == Mix(seed, x, y) <==> other == seed {
      SameMix(other, seed, x, y);
    }
  }

  lemma SameMix(a: bv64, b: bv64, x: bv64, y: bv64)
    ensures Mix(a, x, y) == Mix(b, x, y) <==> a == b
  {
    if Mix(a, x, y) == Mix(b, x, y) {
      Unmix(a, x, y);
      Unmix(b, x, y);
    }
  }

  /** Mixing in the same origin twice cancels. */
  lemma Unmix(seed: bv64, x: bv64, y: bv64)
    ensures Mix(seed, x, y) ^ x ^ y == seed
  {
  }

  /**
   * The seed depends on the origin only through `x ^ y`: mirrored tiles `(a, b)` and `(b, a)`
   * share a generator, and every tile on the diagonal gets the global seed itself.
   */
  lemma MixSymmetric(seed: bv64, x: bv64, y: bv64)
    ensures Mix(seed, x, y) == Mix(seed, y, x)
    ensures Mix(seed, x, x) == seed
  {
  }

  // ---------------------------------------------------------------------------------------
  // The colour of a pixel

  /** `pixel_color += color` over the samples, in order. */
  function Sum(samples: seq<Vec3>): Vec3 {
    if |samples| == 0 then Zero() else Add(Sum(samples[..|samples| - 1]), samples[|samples| - 1])
  }

  /** `pixel_color * (1.0 / samples_per_pixel)`. */
  function Average(samples: seq<Vec3>): Vec3
    requires |samples| > 0
  {
    Scale(1.0 / (|samples| as real), Sum(samples))
  }

  predicate AllEqual(samples: seq<Vec3>, c: Vec3) {
    forall k :: 0 <= k < |samples| ==> samples[k] == c
  }

  /** `n` equal samples sum to `n` times the sample. */
  lemma {:induction false} SumConstant(samples: seq<Vec3>, c: Vec3)
    requires AllEqual(samples, c)
    ensures Sum(samples) == Scale(|samples| as real, c)
    decreases |samples|
  {
    if |samples| > 0 {
      var init := samples[..|samples| - 1];
      assert AllEqual(init, c) by {
        forall k | 0 <= k < |init| ensures init[k] == c {
          assert init[k] == samples[k];
        }
      }
      SumConstant(init, c);
      assert samples[|samples| - 1] == c;
    }
  }

  /** The average of agreeing samples is the sample itself: averaging does not change a colour. */
  lemma AverageConstant(samples: seq<Vec3>, c: Vec3)
    requires |samples| > 0 && AllEqual(samples, c)
    ensures Average(samples) == c
  {
    SumConstant(samples, c);
    var n := |samples| as real;
    assert 1.0 / n * (n * c.x) == c.x && 1.0 / n * (n * c.y) == c.y && 1.0 / n * (n * c.z) == c.z;
  }

  // ---------------------------------------------------------------------------------------
  // ray_color

  /** What a material's `scatter` returns: the attenuation and the scattered ray. */
  datatype Scatter<Ray> = Scatter(attenuation: Vec3, scattered: Ray)

  /** What the scene reports for a ray that hits: the emitted light and the optional scatter. */
  datatype Hit<Ray> = Hit(emitted: Vec3, scatter: Option<Scatter<Ray>>)

  function Max0(d: int): nat {
    if d < 0 then 0 else d
  }

  /**
   * `ray_color` of `common/raytracer.rs`, with the scene as an oracle `world` from a ray to what
   * it hits in `[0.001, inf)`. The second component is how much the call adds to
   * `*peak_depth`: one per call, so at least one and at most the depth cap plus one.
   */
  function RayColor<Ray>(world: Ray -> Option<Hit<Ray>>, r: Ray, background: Vec3, depth: int)
    : (res: (Vec3, nat))
    ensures 1 <= res.1 <= Max0(depth) + 1
    decreases Max0(depth)
  {
    if depth <= 0 then (Zero(), 1)
    else match world(r)
      case None => (background, 1)
      case Some(h) =>
        match h.scatter
        case None => (h.emitted, 1)
        case Some(s) =>
          var inner := RayColor(world, s.scattered, background, depth - 1);
          (Add(h.emitted, Mul(s.attenuation, inner.0)), inner.1 + 1)
  }

  /** One bounce folded into a running sum and throughput. */
  lemma Fold(acc: Vec3, thr: Vec3, e: Vec3, a: Vec3, c: Vec3)
    ensures Add(acc, Mul(thr, Add(e, Mul(a, c)))) == Add(Add(acc, Mul(thr, e)), Mul(Mul(thr, a), c))
  {
    assert thr.x * (e.x + a.x * c.x) == thr.x * e.x + (thr.x * a.x) * c.x;
    assert thr.y * (e.y + a.y * c.y) == thr.y * e.y + (thr.y * a.y) * c.y;
    assert thr.z * (e.z + a.z * c.z) == thr.z * e.z + (thr.z * a.z) * c.z;
  }

  lemma Unit(c: Vec3)
    ensures Add(Zero(), Mul(Vec3(1.0, 1.0, 1.0), c)) == c
  {
  }

  /** The running sum and throughput before a bounce account for the same colour after it. */
  lemma Bounce<Ray>(world: Ray -> Option<Hit<Ray>>, r: Ray, background: Vec3, depth: int, h: Hit<Ray>,
                    s: Scatter<Ray>, acc: Vec3, thr: Vec3)
    requires depth > 0 && world(r) == Some(h) && h.scatter == Some(s)
    ensures var inner := RayColor(world, s.scattered, background, depth - 1);
      var here := RayColor(world, r, background, depth);
      Add(acc, Mul(thr, here.0)) == Add(Add(acc, Mul(thr, h.emitted)), Mul(Mul(thr, s.attenuation), inner.0))
      && here.1 == inner.1 + 1
  {
    Fold(acc, thr, h.emitted, s.attenuation, RayColor(world, s.scattered, background, depth - 1).0);
  }

  /** The three ways a path ends, each closing the running sum with the colour `ray_color` gives. */
  lemma PathEnds<Ray>(world: Ray -> Option<Hit<Ray>>, r: Ray, background: Vec3, depth: int, acc: Vec3, thr: Vec3)
    ensures depth <= 0 ==> Add(acc, Mul(thr, RayColor(world, r, background, depth).0)) == acc
    ensures depth > 0 && world(r).None? ==> Add(acc, Mul(thr, RayColor(world, r, background, depth).0)) == Add(acc, Mul(thr, background))
    ensures depth > 0 && world(r).Some? && world(r).value.scatter.None? ==>
      Add(acc, Mul(thr, RayColor(world, r, background, depth).0)) == Add(acc, Mul(thr, world(r).value.emitted))
    ensures depth <= 0 || world(r).None? || world(r).value.scatter.None? ==> RayColor(world, r, background, depth).1 == 1
  {
  }

  /**
   * An independent, iterative reading of `ray_color`: follow the path bounce by bounce,
   * adding each hit's emission, weighted by the product `thr` of the attenuations so far, to
   * the running sum `acc`; `calls` counts the bounces.
   */
  function TraceFrom<Ray>(world: Ray -> Option<Hit<Ray>>, r: Ray, background: Vec3, depth: int,
                          acc: Vec3, thr: Vec3, calls: nat): (Vec3, nat)
    decreases Max0(depth)
  {
    if depth <= 0 then (acc, calls + 1)
    else match world(r)
      case None => (Add(acc, Mul(thr, background)), calls + 1)
      case Some(h) =>
        match h.scatter
        case None => (Add(acc, Mul(thr, h.emitted)), calls + 1)
        case Some(s) =>
          TraceFrom(world, s.scattered, background, depth - 1, Add(acc, Mul(thr, h.emitted)),
                    Mul(thr, s.attenuation), calls + 1)
  }

  /** The iterative reading continues the recursive one from any point of the path. */
  lemma {:induction false} TraceAgrees<Ray>(world: Ray -> Option<Hit<Ray>>, r: Ray, background: Vec3,
                                            depth: int, acc: Vec3, thr: Vec3, calls: nat)
    ensures var rc := RayColor(world, r, background, depth);
      TraceFrom(world, r, background, depth, acc, thr, calls) == (Add(acc, Mul(thr, rc.0)), calls + rc.1)
    decreases Max0(depth)
  {
    PathEnds(world, r, background, depth, acc, thr);
    if depth > 0 && world(r).Some? && world(r).value.scatter.Some? {
      var h := world(r).value;
      var s := h.scatter.value;
      TraceAgrees(world, s.scattered, background, depth - 1, Add(acc, Mul(thr, h.emitted)),
                  Mul(thr, s.attenuation), calls + 1);
      Bounce(world, r, background, depth, h, s, acc, thr);
    }
  }

  /** From the camera ray, with nothing gathered yet, the two readings agree. */
  lemma TraceIsRayColor<Ray>(world: Ray -> Option<Hit<Ray>>, r: Ray, background: Vec3, depth: int)
    ensures TraceFrom(world, r, background, depth, Zero(), Vec3(1.0, 1.0, 1.0), 0)
      == RayColor(world, r, background, depth)
  {
    TraceAgrees(world, r, background, depth, Zero(), Vec3(1.0, 1.0, 1.0), 0);
    Unit(RayColor(world, r, background, depth).0);
  }
}
