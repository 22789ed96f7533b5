/**
 * The earlier tiled renderer of `lib/raytracer.rs`. Its cursor step and its tile loops are the
 * ones of the later version (`Tiles.Step`, `Render.RenderTile`); it differs in that
 * `ray_color` keeps no depth counter, and in that a pixel stores the plain sum of its samples
 * rather than their average.
 */
module LibRender {
  import opened Vec
  import opened Wrappers
  import Tiles
  import Render

  /** `ray_color` without `peak_depth`. */
  function RayColor<Ray>(world: Ray -> Option<Render.Hit<Ray>>, r: Ray, background: Vec3, depth: int)
    : Vec3
    decreases Render.Max0(depth)
  {
    if depth <= 0 then Zero()
    else match world(r)
      case None => background
      case Some(h) =>
        match h.scatter
        case None => h.emitted
        case Some(s) => Add(h.emitted, Mul(s.attenuation, RayColor(world, s.scattered, background, depth - 1)))
  }

  /** The two snapshots compute the same colour; the later one only adds the call count. */
  lemma {:induction false} SameColor<Ray>(world: Ray -> Option<Render.Hit<Ray>>, r: Ray, background: Vec3,
                                          depth: int)
    ensures RayColor(world, r, background, depth) == Render.RayColor(world, r, background, depth).0
    decreases Render.Max0(depth)
  {
    if depth > 0 && world(r).Some? && world(r).value.scatter.Some? {
      SameColor(world, world(r).value.scatter.value.scattered, background, depth - 1);
    }
  }

  /** `tile.pixels[j - y][i - x] = pixel_color`: the sum of the samples, not divided. */
  function Pixel(samples: seq<Vec3>): Vec3 {
    Render.Sum(samples)
  }

  /** The stored pixel is `samples_per_pixel` times what the later version stores. */
  lemma PixelIsScaledAverage(samples: seq<Vec3>)
    requires |samples| > 0
    ensures Pixel(samples) == Scale(|samples| as real, Render.Average(samples))
  {
    var n := |samples| as real;
    var s := Render.Sum(samples);
    assert n * (1.0 / n * s.x) == s.x && n * (1.0 / n * s.y) == s.y && n * (1.0 / n * s.z) == s.z;
  }

  /**
   * The tile loops of `render`, with `samples(i, j)` the colours the sample loop gathers for
   * pixel `(i, j)`: each in-image pixel holds their sum, every other cell stays zero, and
   * `total_pixels` grows by the tile's in-image pixels.
   */
  method RenderTile(width: nat, height: nat, t: Tiles.Cursor, samples: (nat, nat) -> seq<Vec3>)
    returns (px: Render.Pixels, count: nat)
    ensures Render.Square(px)
    ensures forall r, c :: 0 <= r < Render.TILE_SIZE && 0 <= c < Render.TILE_SIZE ==>
      px[r][c] == (if t.x + c < width && t.y + r < height then Pixel(samples(t.x + c, t.y + r)) else Zero())
    ensures count == Tiles.TilePixels(width, height, t)
  {
    px, count := Render.RenderTile(width, height, t, (i: nat, j: nat) => Pixel(samples(i, j)));
  }
}
