/**
 * The receiving side of `main.rs`: finished tiles are copied into a framebuffer of
 * `image_height` rows of `image_width` colours, stored top row first while the renderer numbers
 * rows from the bottom, so every tile row lands vertically flipped. `pixels_so_far` counts the
 * copied pixels. For EXR output the framebuffer is then flattened one colour channel at a time.
 */
module Framebuffer {
  import opened Vec
  import opened Wrappers
  import Tiles
  import Render
  import Arith

  const TILE_SIZE: nat := Tiles.TILE_SIZE

  /** `image: Vec<Vec<Color>>`, row 0 at the top. */
  type Image = seq<seq<Vec3>>

  predicate Shaped(img: Image, width: nat, height: nat) {
    |img| == height && forall r :: 0 <= r < |img| ==> |img[r]| == width
  }

  /** `vec![vec![Color::zero(); image_width]; image_height]`. */
  function BlankImage(width: nat, height: nat): (img: Image)
    ensures Shaped(img, width, height)
  {
    seq(height, _ => seq(width, _ => Zero()))
  }

  /** What the framebuffer holds for image pixel `(c, j)` of the renderer: row `height - 1 - j`. */
  function At(img: Image, j: nat, c: nat): Vec3
    requires j < |img| && c < |img[|img| - 1 - j]|
  {
    img[|img| - 1 - j][c]
  }

  /** A finished tile as it arrives on the channel. */
  datatype Tile = Tile(origin: Tiles.Cursor, pixels: Render.Pixels)

  /** The framebuffer and `pixels_so_far`. */
  datatype Frame = Frame(image: Image, sofar: nat)

  // ---------------------------------------------------------------------------------------
  // Copying one tile

  /**
   * The loop over tile rows `i` from `y` on: rows at or below the image bottom are skipped;
   * otherwise `width = min(16, image_width - x)` colours of tile row `i - y` overwrite
   * framebuffer row `image_height - i - 1` from column `x`, and `pixels_so_far` grows by
   * `width`. The subtraction underflows (a panic) when the tile starts right of the image.
   */
  function PlaceRows(f: Frame, width: nat, height: nat, t: Tiles.Cursor, px: Render.Pixels, i: nat)
    : (r: Option<Frame>)
    requires Shaped(f.image, width, height) && Render.Square(px) && t.y <= i <= t.y + TILE_SIZE
    ensures r.None? <==> t.x > width && i < height && i < t.y + TILE_SIZE
    ensures r.Some? ==> Shaped(r.value.image, width, height)
    decreases t.y + TILE_SIZE - i
  {
    if i == t.y + TILE_SIZE then Some(f)
    else if i >= height then PlaceRows(f, width, height, t, px, i + 1)
    else if t.x > width then None
    else
      var w := Tiles.Min(TILE_SIZE, width - t.x);
      PlaceRows(Frame(CopyRow(f.image, width, height, t.x, px[i - t.y][..w], i), f.sofar + w),
                width, height, t, px, i + 1)
  }

  /** `image[image_height - i - 1][x..x + |src|].copy_from_slice(src)`. */
  function CopyRow(img: Image, width: nat, height: nat, x: nat, src: seq<Vec3>, i: nat): (r: Image)
    requires Shaped(img, width, height) && i < height && x + |src| <= width
    ensures Shaped(r, width, height)
  {
    var row := height - i - 1;
    img[row := img[row][..x] + src + img[row][x + |src|..]]
  }

  /** One received tile: `for i in tile.y..(tile.y + TILE_SIZE)`. */
  function PlaceTile(f: Frame, width: nat, height: nat, tile: Tile): (r: Option<Frame>)
    requires Shaped(f.image, width, height) && Render.Square(tile.pixels)
    ensures r.None? <==> tile.origin.x > width && tile.origin.y < height
    ensures r.Some? ==> Shaped(r.value.image, width, height)
  {
    PlaceRows(f, width, height, tile.origin, tile.pixels, tile.origin.y)
  }

  /** The in-image rows of the tile at `t` from row `i` on. */
  function RowsFrom(height: nat, t: Tiles.Cursor, i: nat): nat
    requires i <= t.y + TILE_SIZE
  {
    Tiles.Min(height, t.y + TILE_SIZE) - Tiles.Min(height, i)
  }

  /** `after` is `before` with the part of tile `t` from row `i` on painted from `px`. */
  predicate Painted(before: Image, after: Image, width: nat, height: nat, t: Tiles.Cursor,
                    px: Render.Pixels, i: nat)
    requires Shaped(before, width, height) && Shaped(after, width, height) && Render.Square(px)
    requires t.y <= i
  {
    forall j, c :: 0 <= j < height && 0 <= c < width ==>
      At(after, j, c) == (if i <= j < t.y + TILE_SIZE && t.x <= c < t.x + TILE_SIZE
                          then px[j - t.y][c - t.x] else At(before, j, c))
  }

  /** One row copy paints exactly the in-image cells of tile row `i`. */
  lemma CopyRowEffect(img: Image, width: nat, height: nat, t: Tiles.Cursor, px: Render.Pixels, i: nat)
    requires Shaped(img, width, height) && Render.Square(px) && t.y <= i < t.y + TILE_SIZE
    requires i < height && t.x <= width
    ensures var w := Tiles.Min(TILE_SIZE, width - t.x);
      var next := CopyRow(img, width, height, t.x, px[i - t.y][..w], i);
      forall j, c :: 0 <= j < height && 0 <= c < width ==>
        At(next, j, c) == (if j == i && t.x <= c < t.x + TILE_SIZE then px[j - t.y][c - t.x] else At(img, j, c))
  {
    var w := Tiles.Min(TILE_SIZE, width - t.x);
    var src := px[i - t.y][..w];
    var next := CopyRow(img, width, height, t.x, src, i);
    var row := height - i - 1;
    var prev := img[row];
    assert next[row] == prev[..t.x] + src + prev[t.x + w..];
    forall j, c | 0 <= j < height && 0 <= c < width
      ensures At(next, j, c) == (if j == i && t.x <= c < t.x + TILE_SIZE then px[j - t.y][c - t.x] else At(img, j, c))
    {
      if j == i {
        if c < t.x {
          assert next[row][c] == prev[c];
        } else if c < t.x + w {
          assert next[row][c] == src[c - t.x];
        } else {
          assert next[row][c] == prev[c];
        }
      } else {
        assert next[height - 1 - j] == img[height - 1 - j];
      }
    }
  }

  /** Painting row `i` and then the rows after it paints the tile from row `i` on. */
  lemma PaintedCompose(img: Image, mid: Image, last: Image, width: nat, height: nat, t: Tiles.Cursor,
                       px: Render.Pixels, i: nat)
    requires Shaped(img, width, height) && Shaped(mid, width, height) && Shaped(last, width, height)
    requires Render.Square(px) && t.y <= i < t.y + TILE_SIZE
    requires forall j, c :: 0 <= j < height && 0 <= c < width ==>
      At(mid, j, c) == (if j == i && t.x <= c < t.x + TILE_SIZE then px[j - t.y][c - t.x] else At(img, j, c))
    requires Painted(mid, last, width, height, t, px, i + 1)
    ensures Painted(img, last, width, height, t, px, i)
  {
  }

  /**
   * Copying a tile that does not start right of the image succeeds, paints exactly the
   * in-image cells of the tile from its pixels and counts them.
   */
  lemma {:induction false} PlaceRowsEffect(f: Frame, width: nat, height: nat, t: Tiles.Cursor,
                                           px: Render.Pixels, i: nat)
    requires Shaped(f.image, width, height) && Render.Square(px) && t.y <= i <= t.y + TILE_SIZE
    requires t.x <= width || i >= height
    ensures var r := PlaceRows(f, width, height, t, px, i);
      r.Some? && r.value.sofar == f.sofar + Tiles.Span(width, t.x) * RowsFrom(height, t, i)
      && Painted(f.image, r.value.image, width, height, t, px, i)
    decreases t.y + TILE_SIZE - i
  {
    if i == t.y + TILE_SIZE {
    } else if i >= height {
      PlaceRowsEffect(f, width, height, t, px, i + 1);
      PaintedLater(f.image, PlaceRows(f, width, height, t, px, i + 1).value.image, width, height, t, px, i);
    } else {
      var w := Tiles.Min(TILE_SIZE, width - t.x);
      var mid := Frame(CopyRow(f.image, width, height, t.x, px[i - t.y][..w], i), f.sofar + w);
      CopyRowEffect(f.image, width, height, t, px, i);
      PlaceRowsEffect(mid, width, height, t, px, i + 1);
      PaintedCompose(f.image, mid.image, PlaceRows(mid, width, height, t, px, i + 1).value.image,
                     width, height, t, px, i);
      CountRow(width, height, t, i);
    }
  }

  /** Below the image bottom there is nothing to paint. */
  lemma PaintedLater(img: Image, last: Image, width: nat, height: nat, t: Tiles.Cursor,
                     px: Render.Pixels, i: nat)
    requires Shaped(img, width, height) && Shaped(last, width, height)
    requires Render.Square(px) && t.y <= i < t.y + TILE_SIZE && i >= height
    requires Painted(img, last, width, height, t, px, i + 1)
    ensures Painted(img, last, width, height, t, px, i)
  {
  }

  lemma CountRow(width: nat, height: nat, t: Tiles.Cursor, i: nat)
    requires t.y <= i < t.y + TILE_SIZE && i < height && t.x <= width
    ensures Tiles.Min(TILE_SIZE, width - t.x) + Tiles.Span(width, t.x) * RowsFrom(height, t, i + 1)
      == Tiles.Span(width, t.x) * RowsFrom(height, t, i)
  {
    assert Tiles.Min(TILE_SIZE, width - t.x) == Tiles.Span(width, t.x);
    assert RowsFrom(height, t, i) == RowsFrom(height, t, i + 1) + 1;
    Arith.Distrib(RowsFrom(height, t, i + 1), 1, Tiles.Span(width, t.x));
  }

  // ---------------------------------------------------------------------------------------
  // The receive loop

  predicate AllSquare(tiles: seq<Tile>) {
    forall k :: 0 <= k < |tiles| ==> Render.Square(tiles[k].pixels)
  }

  /** `while let Ok(tile) = recv.recv()`: the tiles in the order they arrive. */
  function PlaceAll(f: Frame, width: nat, height: nat, tiles: seq<Tile>): (r: Option<Frame>)
    requires Shaped(f.image, width, height) && AllSquare(tiles)
    ensures r.Some? ==> Shaped(r.value.image, width, height)
    decreases |tiles|
  {
    if |tiles| == 0 then Some(f)
    else
      var next :- PlaceTile(f, width, height, tiles[0]);
      PlaceAll(next, width, height, tiles[1..])
  }

  function Origins(tiles: seq<Tile>): (r: seq<Tiles.Cursor>)
    ensures |r| == |tiles|
    ensures forall k :: 0 <= k < |tiles| ==> r[k] == tiles[k].origin
  {
    seq(|tiles|, k requires 0 <= k < |tiles| => tiles[k].origin)
  }

  /** The grid tile that covers image pixel `(c, j)`. */
  function Owner(c: nat, j: nat): Tiles.Cursor {
    Tiles.Cursor(TILE_SIZE * (c / TILE_SIZE), TILE_SIZE * (j / TILE_SIZE))
  }

  predicate Aligned(t: Tiles.Cursor) {
    t.x % TILE_SIZE == 0 && t.y % TILE_SIZE == 0
  }

  /** An aligned tile covers exactly the pixels it owns. */
  lemma OwnerCovers(t: Tiles.Cursor, c: nat, j: nat)
    requires Aligned(t)
    ensures (t.y <= j < t.y + TILE_SIZE && t.x <= c < t.x + TILE_SIZE) <==> Owner(c, j) == t
  {
    DivBlock(t.x, c);
    DivBlock(t.y, j);
  }

  lemma DivBlock(o: nat, c: nat)
    requires o % TILE_SIZE == 0
    ensures (o <= c < o + TILE_SIZE) <==> TILE_SIZE * (c / TILE_SIZE) == o
  {
    var q := o / TILE_SIZE;
    assert o == TILE_SIZE * q;
    if o <= c < o + TILE_SIZE {
      assert c == TILE_SIZE * q + (c - o);
    }
  }

  /**
   * A tile as `render` sends it: every cell holds the colour of its image pixel, zero outside
   * the image.
   */
  predicate Rendered(width: nat, height: nat, color: (nat, nat) -> Vec3, tile: Tile) {
    Render.Square(tile.pixels)
    && forall r, c :: 0 <= r < TILE_SIZE && 0 <= c < TILE_SIZE ==>
      tile.pixels[r][c] == Render.Expected(width, height, tile.origin, color, r, c)
  }

  /** What a worker sends: a rendered, aligned tile that is in the image or wholly below it. */
  predicate Sendable(width: nat, height: nat, color: (nat, nat) -> Vec3, tile: Tile) {
    Rendered(width, height, color, tile) && Aligned(tile.origin)
    && (Tiles.InImage(width, height, tile.origin) || tile.origin.y >= height)
  }

  predicate AllSendable(width: nat, height: nat, color: (nat, nat) -> Vec3, tiles: seq<Tile>) {
    forall k :: 0 <= k < |tiles| ==> Sendable(width, height, color, tiles[k])
  }

  /** Each pixel shows its colour once its tile has arrived, and is untouched before. */
  predicate Shows(before: Image, after: Image, width: nat, height: nat, color: (nat, nat) -> Vec3,
                  origins: seq<Tiles.Cursor>)
    requires Shaped(before, width, height) && Shaped(after, width, height)
  {
    forall j, c :: 0 <= j < height && 0 <= c < width ==>
      At(after, j, c) == (if Owner(c, j) in origins then color(c, j) else At(before, j, c))
  }

  /** Placing one rendered tile. */
  lemma PlaceRendered(f: Frame, width: nat, height: nat, color: (nat, nat) -> Vec3, tile: Tile)
    requires Shaped(f.image, width, height) && Sendable(width, height, color, tile)
    ensures var r := PlaceTile(f, width, height, tile);
      r.Some? && r.value.sofar == f.sofar + Tiles.TilePixels(width, height, tile.origin)
      && Shows(f.image, r.value.image, width, height, color, [tile.origin])
  {
    var t := tile.origin;
    PlaceRowsEffect(f, width, height, t, tile.pixels, t.y);
    var r := PlaceTile(f, width, height, tile).value;
    assert Tiles.Span(height, t.y) == RowsFrom(height, t, t.y);
    forall j, c | 0 <= j < height && 0 <= c < width
      ensures At(r.image, j, c) == (if Owner(c, j) in [t] then color(c, j) else At(f.image, j, c))
    {
      OwnerCovers(t, c, j);
      if t.y <= j < t.y + TILE_SIZE && t.x <= c < t.x + TILE_SIZE {
        assert tile.pixels[j - t.y][c - t.x] == Render.Expected(width, height, t, color, j - t.y, c - t.x);
      }
    }
  }

  /** The receive loop over any sequence of rendered tiles. */
  lemma {:induction false} PlaceAllShows(f: Frame, width: nat, height: nat, color: (nat, nat) -> Vec3,
                                         tiles: seq<Tile>)
    requires Shaped(f.image, width, height) && AllSendable(width, height, color, tiles)
    ensures AllSquare(tiles)
    ensures var r := PlaceAll(f, width, height, tiles);
      r.Some? && r.value.sofar == f.sofar + Tiles.PixelTotal(width, height, Origins(tiles))
      && Shows(f.image, r.value.image, width, height, color, Origins(tiles))
    decreases |tiles|
  {
    assert AllSquare(tiles) by {
      forall k | 0 <= k < |tiles| ensures Render.Square(tiles[k].pixels) {
        assert Sendable(width, height, color, tiles[k]);
      }
    }
    if |tiles| > 0 {
      var rest := tiles[1..];
      assert Sendable(width, height, color, tiles[0]);
      assert AllSendable(width, height, color, rest) by {
        forall k | 0 <= k < |rest| ensures rest[k] == tiles[k + 1] { }
      }
      PlaceRendered(f, width, height, color, tiles[0]);
      var next := PlaceTile(f, width, height, tiles[0]).value;
      PlaceAllShows(next, width, height, color, rest);
      var last := PlaceAll(next, width, height, rest).value;
      assert PlaceAll(f, width, height, tiles) == PlaceAll(next, width, height, rest);
      var os := Origins(tiles);
      assert os == [tiles[0].origin] + Origins(rest);
      forall j, c | 0 <= j < height && 0 <= c < width
        ensures At(last.image, j, c) == (if Owner(c, j) in os then color(c, j) else At(f.image, j, c))
      {
        assert Owner(c, j) in os <==> Owner(c, j) in [tiles[0].origin] || Owner(c, j) in Origins(rest);
      }
    }
  }

  // ---------------------------------------------------------------------------------------
  // The whole image

  lemma {:induction false} PixelTotalAppend(width: nat, height: nat, a: seq<Tiles.Cursor>, b: seq<Tiles.Cursor>)
    ensures Tiles.PixelTotal(width, height, a + b) == Tiles.PixelTotal(width, height, a) + Tiles.PixelTotal(width, height, b)
    decreases |a|
  {
    if |a| > 0 {
      assert (a + b)[1..] == a[1..] + b;
      PixelTotalAppend(width, height, a[1..], b);
    } else {
      assert a + b == b;
    }
  }

  /** The pixel count does not depend on the order in which the tiles arrive. */
  lemma {:induction false} PixelTotalPermutation(width: nat, height: nat, a: seq<Tiles.Cursor>, b: seq<Tiles.Cursor>)
    requires multiset(a) == multiset(b)
    ensures Tiles.PixelTotal(width, height, a) == Tiles.PixelTotal(width, height, b)
    decreases |a|
  {
    if |a| > 0 {
      assert a[0] in multiset(b);
      var k :| 0 <= k < |b| && b[k] == a[0];
      var rest := b[..k] + b[k + 1..];
      RestSame(a, b, k);
      PixelTotalPermutation(width, height, a[1..], rest);
      PixelTotalRemove(width, height, b, k);
      assert Tiles.PixelTotal(width, height, a)
        == Tiles.TilePixels(width, height, a[0]) + Tiles.PixelTotal(width, height, a[1..]);
    }
  }

  /** Taking the same element out of two permutations of each other leaves permutations. */
  lemma RestSame<T>(a: seq<T>, b: seq<T>, k: nat)
    requires |a| > 0 && k < |b| && b[k] == a[0] && multiset(a) == multiset(b)
    ensures multiset(a[1..]) == multiset(b[..k] + b[k + 1..])
  {
    var x := a[0];
    var r := b[..k] + b[k + 1..];
    assert a == [x] + a[1..];
    assert multiset(a) == multiset{x} + multiset(a[1..]);
    assert b == b[..k] + ([x] + b[k + 1..]);
    assert multiset(b) == multiset(b[..k]) + (multiset{x} + multiset(b[k + 1..]));
    assert multiset(r) == multiset(b[..k]) + multiset(b[k + 1..]);
    assert multiset(b) == multiset(r) + multiset{x};
    assert multiset(a[1..]) == multiset(a) - multiset{x};
    assert multiset(r) == multiset(b) - multiset{x};
  }

  lemma PixelTotalRemove(width: nat, height: nat, b: seq<Tiles.Cursor>, k: nat)
    requires k < |b|
    ensures Tiles.PixelTotal(width, height, b)
      == Tiles.TilePixels(width, height, b[k]) + Tiles.PixelTotal(width, height, b[..k] + b[k + 1..])
  {
    assert b == b[..k] + ([b[k]] + b[k + 1..]);
    PixelTotalAppend(width, height, b[..k], [b[k]] + b[k + 1..]);
    PixelTotalAppend(width, height, b[..k], b[k + 1..]);
    assert ([b[k]] + b[k + 1..])[1..] == b[k + 1..];
  }

  /** Tiles wholly below the image add no pixels. */
  lemma {:induction false} VisibleTotal(width: nat, height: nat, ts: seq<Tiles.Cursor>)
    requires forall k :: 0 <= k < |ts| ==> Tiles.InImage(width, height, ts[k]) || ts[k].y >= height
    ensures Tiles.PixelTotal(width, height, Tiles.Visible(width, height, ts)) == Tiles.PixelTotal(width, height, ts)
    ensures forall t :: t in Tiles.Visible(width, height, ts) ==> t in ts
    decreases |ts|
  {
    if |ts| > 0 {
      VisibleTotal(width, height, ts[1..]);
      var v := Tiles.Visible(width, height, ts[1..]);
      if Tiles.InImage(width, height, ts[0]) {
        assert Tiles.Visible(width, height, ts) == [ts[0]] + v;
      } else {
        assert Tiles.Visible(width, height, ts) == v;
      }
      forall t | t in Tiles.Visible(width, height, ts) ensures t in ts {
        if t != ts[0] {
          assert t in v;
        }
      }
    }
  }

  /**
   * Receiving every grid tile once, in any order and interleaved with any tiles below the
   * image, leaves each image pixel showing its colour in the flipped framebuffer, and
   * `pixels_so_far` at `image_width * image_height`.
   */
  lemma Assemble(width: nat, height: nat, color: (nat, nat) -> Vec3, tiles: seq<Tile>)
    requires width > 0 && AllSendable(width, height, color, tiles)
    requires multiset(Tiles.Visible(width, height, Origins(tiles))) == multiset(Tiles.Grid(width, height))
    ensures AllSquare(tiles)
    ensures var r := PlaceAll(Frame(BlankImage(width, height), 0), width, height, tiles);
      r.Some? && r.value.sofar == width * height
      && forall j, c :: 0 <= j < height && 0 <= c < width ==> At(r.value.image, j, c) == color(c, j)
  {
    var f := Frame(BlankImage(width, height), 0);
    var os := Origins(tiles);
    PlaceAllShows(f, width, height, color, tiles);
    var r := PlaceAll(f, width, height, tiles).value;
    assert forall k :: 0 <= k < |os| ==> Tiles.InImage(width, height, os[k]) || os[k].y >= height by {
      forall k | 0 <= k < |os| ensures Tiles.InImage(width, height, os[k]) || os[k].y >= height {
        assert os[k] == tiles[k].origin && Sendable(width, height, color, tiles[k]);
      }
    }
    VisibleTotal(width, height, os);
    PixelTotalPermutation(width, height, Tiles.Visible(width, height, os), Tiles.Grid(width, height));
    Tiles.GridPixels(width, height);
    forall j, c | 0 <= j < height && 0 <= c < width
      ensures At(r.image, j, c) == color(c, j)
    {
      var o := Owner(c, j);
      OwnerInGrid(width, height, c, j);
      assert o in multiset(Tiles.Grid(width, height));
      assert o in Tiles.Visible(width, height, os);
    }
  }

  lemma OwnerInGrid(width: nat, height: nat, c: nat, j: nat)
    requires width > 0 && c < width && j < height
    ensures Owner(c, j) in Tiles.Grid(width, height)
  {
    Tiles.GridExactlyOnce(width, height, Owner(c, j));
  }

  // ---------------------------------------------------------------------------------------
  // EXR channels

  /**
   * `channel_from_image::<CHANNEL>`: one colour component of every pixel, row after row. The
   * channel is an `Axis`, so the `CHANNEL < 3` assertion holds by construction; a bit depth
   * other than 16 or 32 reaches `unreachable!()`.
   */
  function ChannelFromImage(image: Image, bitDepth: nat, channel: Axis): (r: Option<seq<real>>)
    ensures r.Some? <==> bitDepth == 16 || bitDepth == 32
  {
    if bitDepth == 16 || bitDepth == 32 then Some(Flatten(image, channel)) else None
  }

  /** The `flat_map` over rows. */
  function Flatten(image: Image, channel: Axis): seq<real>
    decreases |image|
  {
    if |image| == 0 then []
    else
      Flatten(image[..|image| - 1], channel) + RowSamples(image[|image| - 1], channel)
  }

  /** The `map` over one row. */
  function RowSamples(row: seq<Vec3>, channel: Axis): (r: seq<real>)
    ensures |r| == |row| && forall c :: 0 <= c < |row| ==> r[c] == Comp(row[c], channel)
  {
    seq(|row|, c requires 0 <= c < |row| => Comp(row[c], channel))
  }

  /** Sample `k` is component `channel` of row `k / width`, column `k % width`. */
  predicate RowMajor(image: Image, width: nat, channel: Axis, samples: seq<real>)
    requires width > 0 && Shaped(image, width, |image|)
  {
    |samples| == |image| * width
    && forall k :: 0 <= k < |samples| ==> samples[k] == SampleAt(image, width, channel, k)
  }

  /** Component `channel` of row `k / width`, column `k % width`. */
  function SampleAt(image: Image, width: nat, channel: Axis, k: nat): real
    requires width > 0 && Shaped(image, width, |image|) && k < |image| * width
  {
    Arith.RowOf(k, width, |image|);
    Comp(image[k / width][k % width], channel)
  }

  /** The samples come out in row-major order. */
  lemma {:induction false} FlattenRowMajor(image: Image, width: nat, channel: Axis)
    requires width > 0 && Shaped(image, width, |image|)
    ensures RowMajor(image, width, channel, Flatten(image, channel))
    decreases |image|
  {
    if |image| > 0 {
      var h := |image| - 1;
      var init := image[..h];
      assert Shaped(init, width, h) by {
        forall r | 0 <= r < h ensures |init[r]| == width {
          assert init[r] == image[r];
        }
      }
      FlattenRowMajor(init, width, channel);
      FlattenStep(image, width, channel);
    }
  }

  /** Adding the last row to a row-major prefix. */
  lemma FlattenStep(image: Image, width: nat, channel: Axis)
    requires width > 0 && Shaped(image, width, |image|) && |image| > 0
    requires Shaped(image[..|image| - 1], width, |image| - 1)
    requires RowMajor(image[..|image| - 1], width, channel, Flatten(image[..|image| - 1], channel))
    ensures RowMajor(image, width, channel, Flatten(image, channel))
  {
    var s := Flatten(image, channel);
    Arith.Distrib(|image| - 1, 1, width);
    forall k | 0 <= k < |s|
      ensures s[k] == SampleAt(image, width, channel, k)
    {
      FlattenIndex(image, width, channel, k);
    }
  }

  lemma FlattenIndex(image: Image, width: nat, channel: Axis, k: nat)
    requires width > 0 && Shaped(image, width, |image|) && |image| > 0
    requires Shaped(image[..|image| - 1], width, |image| - 1)
    requires RowMajor(image[..|image| - 1], width, channel, Flatten(image[..|image| - 1], channel))
    requires k < |image| * width
    ensures Flatten(image, channel)[k] == SampleAt(image, width, channel, k)
  {
    var h := |image| - 1;
    var init := image[..h];
    var prefix := Flatten(init, channel);
    var last := RowSamples(image[h], channel);
    assert Flatten(image, channel) == prefix + last;
    if k < h * width {
      Arith.RowOf(k, width, h);
      assert init[k / width] == image[k / width];
    } else {
      Arith.Distrib(h, 1, width);
      Arith.RowOfLast(k, width, h);
    }
  }
}
