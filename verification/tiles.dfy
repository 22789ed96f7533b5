/**
 * The shared tile cursor of `render` (`common/raytracer.rs`, and the identical critical
 * section of `lib/raytracer.rs`): every worker locks the cursor, takes its value as the origin
 * of its next tile and moves it 16 pixels right, wrapping to the next band of 16 rows at the
 * right edge. The mutex makes the claims one sequence of steps on the cursor; which worker
 * makes each claim is a schedule.
 */
module Tiles {
  import opened Wrappers
  import Arith

  const TILE_SIZE: nat := 16

  /** The `(x, y)` behind the mutex: the origin of the next tile to hand out. */
  datatype Cursor = Cursor(x: nat, y: nat)

  /**
   * One pass through the critical section: the tile to render (`None` for the early return),
   * whether the worker leaves its loop afterwards (`done`), and the cursor it leaves behind.
   */
  datatype Claim = Claim(tile: Option<Cursor>, done: bool, next: Cursor)

  /**
   * The critical section. The cursor moves one tile right; past the right edge it wraps to
   * column 0 of the next band. Once it is past the bottom the worker is done, and if the
   * moved cursor sits at column 16 the previous value was an exhausted cursor left by another
   * worker: it is put back to column 0 and no tile is returned.
   */
  function Step(width: nat, height: nat, c: Cursor): Claim {
    var x := c.x + TILE_SIZE;
    var moved := if x >= width then Cursor(0, c.y + TILE_SIZE) else Cursor(x, c.y);
    if moved.y >= height then
      if moved.x == TILE_SIZE then Claim(None, true, Cursor(0, moved.y))
      else Claim(Some(c), true, moved)
    else Claim(Some(c), false, moved)
  }

  /** Tile columns: `ceil(width / 16)`, and one column of empty tiles when the width is 0. */
  function Cols(width: nat): (r: nat)
    ensures r >= 1
  {
    if width == 0 then 1 else (width + TILE_SIZE - 1) / TILE_SIZE
  }

  /** Tile rows: `ceil(height / 16)`. */
  function Rows(height: nat): nat {
    (height + TILE_SIZE - 1) / TILE_SIZE
  }

  /** `k` tiles of 16 stay inside `n` pixels exactly when `k` is below `ceil(n / 16)`. */
  lemma Ceil16(n: nat, k: nat)
    ensures k < (n + TILE_SIZE - 1) / TILE_SIZE <==> TILE_SIZE * k < n
  {
  }

  /**
   * The tile origins from column `a` of band `b` on, in row-major order: the rest of band `b`,
   * then every later band from column 0.
   */
  function From(cols: nat, rows: nat, a: nat, b: nat): seq<Cursor>
    decreases rows - b, cols - a
  {
    if b >= rows then []
    else if a >= cols then From(cols, rows, 0, b + 1)
    else [Cursor(TILE_SIZE * a, TILE_SIZE * b)] + From(cols, rows, a + 1, b)
  }

  /** Every tile origin of the image, row-major: the order in which the cursor hands them out. */
  function Grid(width: nat, height: nat): seq<Cursor> {
    From(Cols(width), Rows(height), 0, 0)
  }

  // ---------------------------------------------------------------------------------------
  // Runs of claims

  /** `n` claims in a row from cursor `c`, whichever workers make them. */
  function Run(width: nat, height: nat, c: Cursor, n: nat): (r: seq<Claim>)
    ensures |r| == n
    decreases n
  {
    if n == 0 then [] else var cl := Step(width, height, c); [cl] + Run(width, height, cl.next, n - 1)
  }

  /** The cursor after a run. */
  function After(c: Cursor, claims: seq<Claim>): Cursor {
    if |claims| == 0 then c else claims[|claims| - 1].next
  }

  /** The tiles a run hands out, in order (early returns hand out none). */
  function Claimed(claims: seq<Claim>): seq<Cursor>
    decreases |claims|
  {
    if |claims| == 0 then [] else Out(claims[0]) + Claimed(claims[1..])
  }

  /** The tile one claim hands out, if any. */
  function Out(cl: Claim): seq<Cursor> {
    if cl.tile.Some? then [cl.tile.value] else []
  }

  /** A tile with at least one pixel in the image. */
  predicate InImage(width: nat, height: nat, t: Cursor) {
    t.x < width && t.y < height
  }

  function Visible(width: nat, height: nat, ts: seq<Cursor>): seq<Cursor>
    decreases |ts|
  {
    if |ts| == 0 then []
    else (if InImage(width, height, ts[0]) then [ts[0]] else []) + Visible(width, height, ts[1..])
  }

  lemma {:induction false} ClaimedAppend(a: seq<Claim>, b: seq<Claim>)
    ensures Claimed(a + b) == Claimed(a) + Claimed(b)
    decreases |a|
  {
    if |a| == 0 {
      assert a + b == b;
    } else {
      var ab := a + b;
      assert ab[0] == a[0] && ab[1..] == a[1..] + b;
      ClaimedAppend(a[1..], b);
      assert Claimed(ab) == Out(a[0]) + (Claimed(a[1..]) + Claimed(b));
    }
  }

  lemma {:induction false} VisibleAppend(width: nat, height: nat, a: seq<Cursor>, b: seq<Cursor>)
    ensures Visible(width, height, a + b) == Visible(width, height, a) + Visible(width, height, b)
    decreases |a|
  {
    if |a| == 0 {
      assert a + b == b;
    } else {
      var ab := a + b;
      assert ab[0] == a[0] && ab[1..] == a[1..] + b;
      VisibleAppend(width, height, a[1..], b);
      var h := if InImage(width, height, a[0]) then [a[0]] else [];
      assert Visible(width, height, ab) == h + (Visible(width, height, a[1..]) + Visible(width, height, b));
      assert Visible(width, height, a) == h + Visible(width, height, a[1..]);
    }
  }

  /** A run of `m + n` claims is a run of `m` followed by a run of `n` from where it stopped. */
  lemma {:induction false} RunSplit(width: nat, height: nat, c: Cursor, m: nat, n: nat)
    ensures Run(width, height, c, m + n)
      == Run(width, height, c, m) + Run(width, height, After(c, Run(width, height, c, m)), n)
    decreases m
  {
    if m > 0 {
      var cl := Step(width, height, c);
      RunSplit(width, height, cl.next, m - 1, n);
      var rest := Run(width, height, cl.next, m - 1);
      assert After(c, Run(width, height, c, m)) == After(cl.next, rest);
    }
  }

  /** A claim in the middle of the grid: the tile `(16a, 16b)` and the cursor moved on by one. */
  lemma StepInGrid(width: nat, height: nat, a: nat, b: nat)
    requires width > 0 && a < Cols(width) && b < Rows(height)
    ensures var cl := Step(width, height, Cursor(TILE_SIZE * a, TILE_SIZE * b));
      cl.tile == Some(Cursor(TILE_SIZE * a, TILE_SIZE * b))
      && cl.next == (if a + 1 < Cols(width) then Cursor(TILE_SIZE * (a + 1), TILE_SIZE * b)
                     else Cursor(0, TILE_SIZE * (b + 1)))
      && (cl.done <==> a + 1 == Cols(width) && b + 1 == Rows(height))
  {
    Ceil16(width, a + 1);
    Ceil16(height, b);
    Ceil16(height, b + 1);
  }

  /**
   * From cursor `c`, as many claims as there are tiles in `ts` hand out exactly `ts`, only the
   * last claim is `done`, and the cursor ends at `end`.
   */
  predicate HandsOut(width: nat, height: nat, c: Cursor, ts: seq<Cursor>, end: Cursor) {
    var claims := Run(width, height, c, |ts|);
    |ts| > 0 && Claimed(claims) == ts && DoneLast(claims) && After(c, claims) == end
  }

  /**
   * From the cursor `(16a, 16b)` inside the grid, as many claims as tiles remain hand out
   * exactly those tiles in row-major order, only the last claim is `done`, and the cursor ends
   * at `(0, 16 * rows)`, below the image.
   */
  lemma {:induction false} RunFrom(width: nat, height: nat, a: nat, b: nat)
    requires width > 0 && a < Cols(width) && b < Rows(height)
    ensures HandsOut(width, height, Cursor(TILE_SIZE * a, TILE_SIZE * b),
                     From(Cols(width), Rows(height), a, b), Cursor(0, TILE_SIZE * Rows(height)))
    decreases Rows(height) - b, Cols(width) - a
  {
    var cols, rows := Cols(width), Rows(height);
    var c := Cursor(TILE_SIZE * a, TILE_SIZE * b);
    var end := Cursor(0, TILE_SIZE * rows);
    StepInGrid(width, height, a, b);
    if a + 1 < cols {
      RunFrom(width, height, a + 1, b);
      RunCons(width, height, c, From(cols, rows, a + 1, b), end);
      assert From(cols, rows, a, b) == [c] + From(cols, rows, a + 1, b);
    } else if b + 1 < rows {
      RunFrom(width, height, 0, b + 1);
      assert From(cols, rows, a + 1, b) == From(cols, rows, 0, b + 1);
      RunCons(width, height, c, From(cols, rows, 0, b + 1), end);
      assert From(cols, rows, a, b) == [c] + From(cols, rows, 0, b + 1);
    } else {
      assert From(cols, rows, a + 1, b) == From(cols, rows, 0, b + 1) == [];
      assert From(cols, rows, a, b) == [c];
      LastClaim(width, height, c);
    }
  }

  /** The last tile of the grid: one claim hands it out and is `done`. */
  lemma LastClaim(width: nat, height: nat, c: Cursor)
    requires Step(width, height, c).tile == Some(c) && Step(width, height, c).done
    ensures HandsOut(width, height, c, [c], Step(width, height, c).next)
  {
    var claims := Run(width, height, c, 1);
    assert claims == [Step(width, height, c)] + [];
    assert Claimed(claims) == [c] + Claimed([]);
  }

  /** One claim that hands out `c` and is not `done`, followed by a run that `HandsOut` describes. */
  lemma RunCons(width: nat, height: nat, c: Cursor, rest: seq<Cursor>, end: Cursor)
    requires Step(width, height, c).tile == Some(c) && !Step(width, height, c).done
    requires HandsOut(width, height, Step(width, height, c).next, rest, end)
    ensures HandsOut(width, height, c, [c] + rest, end)
  {
    var cl := Step(width, height, c);
    var tail := Run(width, height, cl.next, |rest|);
    var claims := Run(width, height, c, 1 + |rest|);
    assert claims == [cl] + tail;
    assert claims[1..] == tail;
    assert Claimed(claims) == [c] + Claimed(tail);
    assert After(c, claims) == After(cl.next, tail);
    forall i | 0 <= i < |claims|
      ensures claims[i].done <==> i == |claims| - 1
    {
      if i > 0 {
        assert claims[i] == tail[i - 1];
      }
    }
  }

  /**
   * With the image wider than one tile, a claim at the exhausted cursor `(0, y)`, `y` at or
   * below the bottom, returns early without a tile and leaves the cursor as it found it.
   */
  lemma ExhaustedWide(width: nat, height: nat, y: nat)
    requires width > TILE_SIZE && y >= height
    ensures Step(width, height, Cursor(0, y)) == Claim(None, true, Cursor(0, y))
  {
  }

  /**
   * At most one tile wide, the moved cursor wraps to column 0 and the `== TILE_SIZE` test
   * never fires: the claim hands out the tile `(0, y)`, entirely below the image, and
   * pushes the cursor down another band.
   */
  lemma ExhaustedNarrow(width: nat, height: nat, y: nat)
    requires width <= TILE_SIZE && y >= height
    ensures Step(width, height, Cursor(0, y)) == Claim(Some(Cursor(0, y)), true, Cursor(0, y + TILE_SIZE))
    ensures !InImage(width, height, Cursor(0, y))
  {
  }

  /** Any number of claims at an exhausted cursor hand out nothing inside the image. */
  lemma {:induction false} RunExhausted(width: nat, height: nat, y: nat, n: nat)
    requires y >= height
    ensures Visible(width, height, Claimed(Run(width, height, Cursor(0, y), n))) == []
    ensures forall i :: 0 <= i < n ==> Run(width, height, Cursor(0, y), n)[i].done
    decreases n
  {
    if n > 0 {
      var claims := Run(width, height, Cursor(0, y), n);
      var cl := Step(width, height, Cursor(0, y));
      var y' := if width > TILE_SIZE then y else y + TILE_SIZE;
      if width > TILE_SIZE {
        ExhaustedWide(width, height, y);
      } else {
        ExhaustedNarrow(width, height, y);
      }
      assert cl.next == Cursor(0, y');
      RunExhausted(width, height, y', n - 1);
      var tail := Run(width, height, Cursor(0, y'), n - 1);
      assert claims == [cl] + tail && claims[1..] == tail;
      var first := Out(cl);
      assert Claimed(claims) == first + Claimed(tail);
      VisibleAppend(width, height, first, Claimed(tail));
      assert Visible(width, height, first) == [] by {
        if cl.tile.Some? {
          assert Visible(width, height, first) == [] + Visible(width, height, []);
        }
      }
      forall i | 0 <= i < n
        ensures claims[i].done
      {
        if i > 0 {
          assert claims[i] == tail[i - 1];
        }
      }
    }
  }

  /** The grid tiles all lie in the image. */
  lemma {:induction false} FromInImage(width: nat, height: nat, a: nat, b: nat)
    requires width > 0
    ensures AllInImage(width, height, From(Cols(width), Rows(height), a, b))
    decreases Rows(height) - b, Cols(width) - a
  {
    var cols, rows := Cols(width), Rows(height);
    if b < rows {
      if a >= cols {
        assert From(cols, rows, a, b) == From(cols, rows, 0, b + 1);
        FromInImage(width, height, 0, b + 1);
      } else {
        Ceil16(width, a);
        Ceil16(height, b);
        var t := Cursor(TILE_SIZE * a, TILE_SIZE * b);
        assert InImage(width, height, t);
        var rest := From(cols, rows, a + 1, b);
        FromInImage(width, height, a + 1, b);
        var ts := From(cols, rows, a, b);
        assert ts == [t] + rest;
        forall i | 0 <= i < |ts|
          ensures InImage(width, height, ts[i])
        {
          if i == 0 {
            assert ts[i] == t;
          } else {
            assert ts[i] == rest[i - 1];
          }
        }
      }
    }
  }

  predicate AllInImage(width: nat, height: nat, ts: seq<Cursor>) {
    forall i :: 0 <= i < |ts| ==> InImage(width, height, ts[i])
  }

  /** `Visible` keeps a sequence of tiles that all lie in the image. */
  lemma {:induction false} VisibleAll(width: nat, height: nat, ts: seq<Cursor>)
    requires AllInImage(width, height, ts)
    ensures Visible(width, height, ts) == ts
    decreases |ts|
  {
    if |ts| > 0 {
      assert InImage(width, height, ts[0]);
      VisibleAll(width, height, ts[1..]);
    }
  }

  /**
   * However many claims the workers make from the initial cursor `(0, 0)`, the tiles inside
   * the image are handed out in row-major order, each once: the first `n` of the grid, or the
   * whole grid once there have been as many claims as tiles. Every claim before the last tile
   * keeps its worker going; the claim of the last tile and every later one ends its worker.
   */
  lemma Claims(width: nat, height: nat, n: nat)
    requires width > 0
    ensures var g := Grid(width, height);
      var claims := Run(width, height, Cursor(0, 0), n);
      Visible(width, height, Claimed(claims)) == g[..if n < |g| then n else |g|]
      && DoneFrom(claims, |g|)
  {
    var g := Grid(width, height);
    if height == 0 {
      assert g == [];
      RunExhausted(width, height, 0, n);
    } else if n <= |g| {
      ClaimsWithin(width, height, n);
    } else {
      ClaimsBeyond(width, height, n);
    }
  }

  /** The claims of a run are `done` from the `k`-th on (counting from 1), and not before. */
  predicate DoneFrom(claims: seq<Claim>, k: nat) {
    forall i :: 0 <= i < |claims| ==> (claims[i].done <==> i + 1 >= k)
  }

  /** Only the last claim of a run is `done`. */
  predicate DoneLast(claims: seq<Claim>) {
    forall i :: 0 <= i < |claims| ==> (claims[i].done <==> i == |claims| - 1)
  }

  /** The whole grid from `(0, 0)`: each claim hands out the next tile, only the last is `done`. */
  lemma GridRun(width: nat, height: nat)
    requires width > 0 && height > 0
    ensures var g := Grid(width, height);
      var claims := Run(width, height, Cursor(0, 0), |g|);
      Claimed(claims) == g && DoneLast(claims) && |g| > 0
      && After(Cursor(0, 0), claims) == Cursor(0, TILE_SIZE * Rows(height))
      && AllInImage(width, height, g)
  {
    Ceil16(height, 0);
    RunFrom(width, height, 0, 0);
    FromInImage(width, height, 0, 0);
  }

  lemma ClaimsWithin(width: nat, height: nat, n: nat)
    requires width > 0 && height > 0 && n <= |Grid(width, height)|
    ensures var claims := Run(width, height, Cursor(0, 0), n);
      Visible(width, height, Claimed(claims)) == Grid(width, height)[..n]
      && DoneFrom(claims, |Grid(width, height)|)
  {
    var g := Grid(width, height);
    var start := Cursor(0, 0);
    GridRun(width, height);
    var full := Run(width, height, start, |g|);
    RunPrefix(width, height, start, |g|, n);
    PrefixInImage(width, height, g, n);
    VisibleAll(width, height, g[..n]);
    var claims := Run(width, height, start, n);
    forall i | 0 <= i < n
      ensures claims[i].done <==> i + 1 >= |g|
    {
      assert claims[i] == full[i];
    }
  }

  lemma PrefixInImage(width: nat, height: nat, ts: seq<Cursor>, n: nat)
    requires AllInImage(width, height, ts) && n <= |ts|
    ensures AllInImage(width, height, ts[..n])
  {
    forall i | 0 <= i < n
      ensures InImage(width, height, ts[..n][i])
    {
      assert ts[..n][i] == ts[i];
    }
  }

  lemma ClaimsBeyond(width: nat, height: nat, n: nat)
    requires width > 0 && height > 0 && n > |Grid(width, height)|
    ensures var claims := Run(width, height, Cursor(0, 0), n);
      Visible(width, height, Claimed(claims)) == Grid(width, height)
      && DoneFrom(claims, |Grid(width, height)|)
  {
    var g := Grid(width, height);
    var start := Cursor(0, 0);
    GridRun(width, height);
    RunSplit(width, height, start, |g|, n - |g|);
    var first := Run(width, height, start, |g|);
    var bottom := TILE_SIZE * Rows(height);
    var later := Run(width, height, Cursor(0, bottom), n - |g|);
    Ceil16(height, Rows(height));
    RunExhausted(width, height, bottom, n - |g|);
    assert Run(width, height, start, n) == first + later;
    AppendVisible(width, height, first, later);
    AppendDone(first, later);
  }

  /** A run handing out all of an in-image `g`, then claims that hand out nothing in the image. */
  lemma AppendVisible(width: nat, height: nat, first: seq<Claim>, later: seq<Claim>)
    requires AllInImage(width, height, Claimed(first))
    requires Visible(width, height, Claimed(later)) == []
    ensures Visible(width, height, Claimed(first + later)) == Claimed(first)
  {
    ClaimedAppend(first, later);
    VisibleAll(width, height, Claimed(first));
    VisibleAppend(width, height, Claimed(first), Claimed(later));
    assert Claimed(first) + [] == Claimed(first);
  }

  /** A run whose last claim alone is `done`, then claims that are all `done`. */
  lemma AppendDone(first: seq<Claim>, later: seq<Claim>)
    requires DoneLast(first) && |first| > 0
    requires forall i :: 0 <= i < |later| ==> later[i].done
    ensures DoneFrom(first + later, |first|)
  {
    var claims := first + later;
    forall i | 0 <= i < |claims|
      ensures claims[i].done <==> i + 1 >= |first|
    {
      if i >= |first| {
        assert claims[i] == later[i - |first|];
      } else {
        assert claims[i] == first[i];
      }
    }
  }

  /** Cutting a run after `n` claims: the first `n` tiles and done flags, when each claim hands out one. */
  lemma RunPrefix(width: nat, height: nat, c: Cursor, m: nat, n: nat)
    requires n <= m
    requires var claims := Run(width, height, c, m);
      (forall i :: 0 <= i < m ==> claims[i].tile.Some?)
      || |Claimed(claims)| == m
    ensures var claims := Run(width, height, c, m);
      Run(width, height, c, n) == claims[..n]
      && (|Claimed(claims)| == m ==> Claimed(claims[..n]) == Claimed(claims)[..n])
  {
    var claims := Run(width, height, c, m);
    RunSplit(width, height, c, n, m - n);
    assert claims[..n] == Run(width, height, c, n);
    if |Claimed(claims)| == m {
      ClaimedPrefix(claims, n);
    }
  }

  /**
   * Claimed tiles never outnumber claims; when every claim hands out one, cutting commutes with
   * `Claimed`.
   */
  lemma {:induction false} ClaimedPrefix(claims: seq<Claim>, n: nat)
    requires n <= |claims| && |Claimed(claims)| == |claims|
    ensures |Claimed(claims[..n])| == n && Claimed(claims[..n]) == Claimed(claims)[..n]
    decreases |claims|
  {
    ClaimedAtMost(claims);
    if |claims| > 0 {
      ClaimedAtMost(claims[1..]);
      assert claims[0].tile.Some?;
      if n > 0 {
        ClaimedPrefix(claims[1..], n - 1);
        assert claims[..n][0] == claims[0] && claims[..n][1..] == claims[1..][..n - 1];
      }
    }
  }

  lemma {:induction false} ClaimedAtMost(claims: seq<Claim>)
    ensures |Claimed(claims)| <= |claims|
    decreases |claims|
  {
    if |claims| > 0 {
      ClaimedAtMost(claims[1..]);
    }
  }

  // ---------------------------------------------------------------------------------------
  // Workers

  /**
   * What the workers share: the cursor, the workers still inside their `while !done` loop,
   * the tiles claimed so far, in the order of the claims (the channel carries them in the order
 * their renders finish), and the number of claims made.
   */
  datatype Pool = Pool(cursor: Cursor, active: set<nat>, claimed: seq<Cursor>, claims: nat)

  /** The worker numbers `0..n`. */
  function Workers(n: nat): set<nat>
    decreases n
  {
    if n == 0 then {} else Workers(n - 1) + {n - 1}
  }

  /** `n` workers about to enter their loops, the cursor at `(0, 0)` as `main` creates it. */
  function Start(n: nat): Pool {
    Pool(Cursor(0, 0), Workers(n), [], 0)
  }

  /**
   * Worker `w` takes the lock for one iteration of its loop: it renders and sends the tile it
   * claimed (if any) and leaves the loop once the claim is `done`. A worker that has left makes
   * no claims.
   */
  function ClaimBy(width: nat, height: nat, p: Pool, w: nat): Pool {
    if w !in p.active then p
    else
      var cl := Step(width, height, p.cursor);
      Pool(cl.next, if cl.done then p.active - {w} else p.active,
           p.claimed + Out(cl), p.claims + 1)
  }

  /** The order in which workers get the lock. */
  function Schedule(width: nat, height: nat, p: Pool, order: seq<nat>): Pool
    decreases |order|
  {
    if |order| == 0 then p else Schedule(width, height, ClaimBy(width, height, p, order[0]), order[1..])
  }

  /**
   * The pool agrees with the single run of claims it has made, and nobody has left before the
   * claim of the last grid tile.
   */
  predicate Consistent(width: nat, height: nat, n: nat, p: Pool) {
    var claims := Run(width, height, Cursor(0, 0), p.claims);
    p.cursor == After(Cursor(0, 0), claims) && p.claimed == Claimed(claims)
    && p.active <= Workers(n) && (p.claims < |Grid(width, height)| ==> p.active == Workers(n))
  }

  /** One more claim extends the run by one step from where it stood. */
  lemma RunSnoc(width: nat, height: nat, c: Cursor, n: nat)
    ensures var claims := Run(width, height, c, n);
      Run(width, height, c, n + 1) == claims + [Step(width, height, After(c, claims))]
  {
    RunSplit(width, height, c, n, 1);
    var c' := After(c, Run(width, height, c, n));
    assert Run(width, height, c', 1) == [Step(width, height, c')] + Run(width, height, Step(width, height, c').next, 0);
  }

  lemma ClaimKeeps(width: nat, height: nat, n: nat, p: Pool, w: nat)
    requires width > 0 && Consistent(width, height, n, p)
    ensures Consistent(width, height, n, ClaimBy(width, height, p, w))
  {
    if w in p.active {
      var start := Cursor(0, 0);
      var claims := Run(width, height, start, p.claims);
      var cl := Step(width, height, p.cursor);
      RunSnoc(width, height, start, p.claims);
      var claims' := Run(width, height, start, p.claims + 1);
      assert claims' == claims + [cl];
      ClaimedAppend(claims, [cl]);
      assert Claimed([cl]) == Out(cl) + Claimed([]);
      Claims(width, height, p.claims + 1);
      assert claims'[p.claims] == cl;
    }
  }

  lemma {:induction false} ScheduleKeeps(width: nat, height: nat, n: nat, p: Pool, order: seq<nat>)
    requires width > 0 && Consistent(width, height, n, p)
    ensures Consistent(width, height, n, Schedule(width, height, p, order))
    decreases |order|
  {
    if |order| > 0 {
      ClaimKeeps(width, height, n, p, order[0]);
      ScheduleKeeps(width, height, n, ClaimBy(width, height, p, order[0]), order[1..]);
    }
  }

  /**
   * Whatever order `n > 0` workers get the lock in, once every one of them has left its loop
   * the tiles claimed inside the image are the whole grid, in row-major claim order, each once.
   */
  lemma AllStopped(width: nat, height: nat, n: nat, order: seq<nat>)
    requires width > 0 && n > 0
    requires Schedule(width, height, Start(n), order).active == {}
    ensures Visible(width, height, Schedule(width, height, Start(n), order).claimed) == Grid(width, height)
  {
    var p := Schedule(width, height, Start(n), order);
    assert Run(width, height, Cursor(0, 0), 0) == [];
    ScheduleKeeps(width, height, n, Start(n), order);
    assert n - 1 in Workers(n);
    Claims(width, height, p.claims);
  }

  // ---------------------------------------------------------------------------------------
  // The grid as a set

  /**
   * The grid holds exactly the tile-aligned points of the image (for a nonzero width), each
   * once.
   */
  lemma GridExactlyOnce(width: nat, height: nat, t: Cursor)
    requires width > 0
    ensures t in Grid(width, height)
      <==> t.x % TILE_SIZE == 0 && t.y % TILE_SIZE == 0 && t.x < width && t.y < height
    ensures Distinct(Grid(width, height))
  {
    var cols, rows := Cols(width), Rows(height);
    FromMembers(cols, rows, 0, 0, t);
    if t.x % TILE_SIZE == 0 && t.y % TILE_SIZE == 0 {
      Ceil16(width, t.x / TILE_SIZE);
      Ceil16(height, t.y / TILE_SIZE);
    } else {
    }
    FromDistinct(cols, rows, 0, 0);
  }

  /** Position of `(16a', 16b')` relative to `(a, b)` in row-major order. */
  predicate NotBefore(a: nat, b: nat, a': nat, b': nat) {
    b' > b || (b' == b && a' >= a)
  }

  lemma {:induction false} FromMembers(cols: nat, rows: nat, a: nat, b: nat, t: Cursor)
    ensures t in From(cols, rows, a, b)
      <==> t.x % TILE_SIZE == 0 && t.y % TILE_SIZE == 0
           && t.x / TILE_SIZE < cols && t.y / TILE_SIZE < rows
           && NotBefore(a, b, t.x / TILE_SIZE, t.y / TILE_SIZE)
    decreases rows - b, cols - a
  {
    if b < rows {
      if a >= cols {
        FromMembers(cols, rows, 0, b + 1, t);
      } else {
        FromMembers(cols, rows, a + 1, b, t);
      }
    }
  }

  /** No tile occurs twice. */
  predicate Distinct(ts: seq<Cursor>) {
    forall i, j :: 0 <= i < j < |ts| ==> ts[i] != ts[j]
  }

  lemma {:induction false} FromDistinct(cols: nat, rows: nat, a: nat, b: nat)
    ensures Distinct(From(cols, rows, a, b))
    decreases rows - b, cols - a
  {
    if b < rows {
      if a >= cols {
        assert From(cols, rows, a, b) == From(cols, rows, 0, b + 1);
        FromDistinct(cols, rows, 0, b + 1);
      } else {
        FromDistinct(cols, rows, a + 1, b);
        DistinctStep(cols, rows, a, b);
      }
    }
  }

  /** Tile `(16a, 16b)` is not among the tiles after it. */
  lemma DistinctStep(cols: nat, rows: nat, a: nat, b: nat)
    requires a < cols && b < rows && Distinct(From(cols, rows, a + 1, b))
    ensures Distinct(From(cols, rows, a, b))
  {
    var t := Cursor(TILE_SIZE * a, TILE_SIZE * b);
    var rest := From(cols, rows, a + 1, b);
    FromLater(cols, rows, a + 1, b);
    assert t !in rest;
    ConsDistinct(t, rest);
    assert From(cols, rows, a, b) == [t] + rest;
  }

  /** Tile `t` comes at or after `(16a, 16b)` in row-major order. */
  predicate AtOrAfter(t: Cursor, a: nat, b: nat) {
    t.y > TILE_SIZE * b || (t.y == TILE_SIZE * b && t.x >= TILE_SIZE * a)
  }

  lemma {:induction false} FromLater(cols: nat, rows: nat, a: nat, b: nat)
    ensures forall t :: t in From(cols, rows, a, b) ==> AtOrAfter(t, a, b)
    decreases rows - b, cols - a
  {
    if b < rows {
      if a >= cols {
        assert From(cols, rows, a, b) == From(cols, rows, 0, b + 1);
        FromLater(cols, rows, 0, b + 1);
      } else {
        FromLater(cols, rows, a + 1, b);
        assert From(cols, rows, a, b) == [Cursor(TILE_SIZE * a, TILE_SIZE * b)] + From(cols, rows, a + 1, b);
      }
    }
  }

  lemma ConsDistinct(t: Cursor, rest: seq<Cursor>)
    requires Distinct(rest) && t !in rest
    ensures Distinct([t] + rest)
  {
    var ts := [t] + rest;
    forall i, j | 0 <= i < j < |ts|
      ensures ts[i] != ts[j]
    {
      assert ts[j] == rest[j - 1];
      if i > 0 {
        assert ts[i] == rest[i - 1];
      }
    }
  }

  // ---------------------------------------------------------------------------------------
  // Pixels per tile

  /** The pixels of a tile inside `n` along one axis: the loop `o..o+16` skipping `>= n`. */
  function Span(n: nat, o: nat): nat {
    if o >= n then 0 else if n - o < TILE_SIZE then n - o else TILE_SIZE
  }

  function Min(a: nat, b: nat): nat {
    if a <= b then a else b
  }

  /** The pixels the loops of one tile count into `total_pixels`. */
  function TilePixels(width: nat, height: nat, t: Cursor): nat {
    Span(width, t.x) * Span(height, t.y)
  }

  function PixelTotal(width: nat, height: nat, ts: seq<Cursor>): nat
    decreases |ts|
  {
    if |ts| == 0 then 0 else TilePixels(width, height, ts[0]) + PixelTotal(width, height, ts[1..])
  }

  lemma SpanMin(n: nat, o: nat)
    ensures Span(n, o) == Min(n, o + TILE_SIZE) - Min(n, o)
  {
  }

  /** The pixels not yet covered before tile `(16a, 16b)`: the rest of its band, then all later bands. */
  function Remaining(width: nat, height: nat, a: nat, b: nat): nat {
    (width - Min(width, TILE_SIZE * a)) * Span(height, TILE_SIZE * b)
    + (height - Min(height, TILE_SIZE * (b + 1))) * width
  }

  /** What the tiles from `(a, b)` on count: the rest of band `b`, then all later bands. */
  lemma {:induction false} FromPixels(width: nat, height: nat, a: nat, b: nat)
    requires width > 0 && a <= Cols(width) && b < Rows(height)
    ensures PixelTotal(width, height, From(Cols(width), Rows(height), a, b)) == Remaining(width, height, a, b)
    decreases Rows(height) - b, Cols(width) - a
  {
    var cols, rows := Cols(width), Rows(height);
    if a >= cols {
      if b + 1 < rows {
        FromPixels(width, height, 0, b + 1);
        PixelsWrap(width, height, a, b);
      } else {
        PixelsEnd(width, height, a, b);
      }
    } else {
      FromPixels(width, height, a + 1, b);
      PixelsStep(width, height, a, b);
    }
  }

  /** Past the last column the count is that of the next band from column 0. */
  lemma PixelsWrap(width: nat, height: nat, a: nat, b: nat)
    requires width > 0 && a == Cols(width) && b + 1 < Rows(height)
    requires PixelTotal(width, height, From(Cols(width), Rows(height), 0, b + 1)) == Remaining(width, height, 0, b + 1)
    ensures PixelTotal(width, height, From(Cols(width), Rows(height), a, b)) == Remaining(width, height, a, b)
  {
    var cols, rows := Cols(width), Rows(height);
    assert From(cols, rows, a, b) == From(cols, rows, 0, b + 1);
    Ceil16(width, cols);
    var sp := Span(height, TILE_SIZE * (b + 1));
    var later := height - Min(height, TILE_SIZE * (b + 2));
    assert Remaining(width, height, 0, b + 1) == width * sp + later * width;
    SpanMin(height, TILE_SIZE * (b + 1));
    assert TILE_SIZE * (b + 1) + TILE_SIZE == TILE_SIZE * (b + 2);
    assert sp + later == height - Min(height, TILE_SIZE * (b + 1));
    Arith.Distrib(sp, later, width);
    assert Min(width, TILE_SIZE * a) == width;
    assert Remaining(width, height, a, b) == (sp + later) * width;
  }

  /** Past the last tile nothing is left. */
  lemma PixelsEnd(width: nat, height: nat, a: nat, b: nat)
    requires width > 0 && a >= Cols(width) && b + 1 == Rows(height)
    ensures PixelTotal(width, height, From(Cols(width), Rows(height), a, b)) == Remaining(width, height, a, b)
  {
    var cols, rows := Cols(width), Rows(height);
    assert From(cols, rows, a, b) == From(cols, rows, 0, b + 1) == [];
    Ceil16(width, cols);
    Ceil16(height, b + 1);
    assert Min(width, TILE_SIZE * a) == width;
    assert Min(height, TILE_SIZE * (b + 1)) == height;
  }

  /** Tile `(16a, 16b)` adds its pixels to the count of the tiles after it. */
  lemma PixelsStep(width: nat, height: nat, a: nat, b: nat)
    requires width > 0 && a < Cols(width) && b < Rows(height)
    requires PixelTotal(width, height, From(Cols(width), Rows(height), a + 1, b)) == Remaining(width, height, a + 1, b)
    ensures PixelTotal(width, height, From(Cols(width), Rows(height), a, b)) == Remaining(width, height, a, b)
  {
    var cols, rows := Cols(width), Rows(height);
    var t := Cursor(TILE_SIZE * a, TILE_SIZE * b);
    var rest := From(cols, rows, a + 1, b);
    assert From(cols, rows, a, b) == [t] + rest;
    assert PixelTotal(width, height, [t] + rest) == TilePixels(width, height, t) + PixelTotal(width, height, rest);
    SpanMin(width, TILE_SIZE * a);
    assert TILE_SIZE * a + TILE_SIZE == TILE_SIZE * (a + 1);
    Arith.Distrib(Span(width, TILE_SIZE * a), width - Min(width, TILE_SIZE * (a + 1)), Span(height, TILE_SIZE * b));
  }

  /** The tiles of the grid together count every pixel of the image once: `width * height`. */
  lemma GridPixels(width: nat, height: nat)
    requires width > 0
    ensures PixelTotal(width, height, Grid(width, height)) == width * height
  {
    if height > 0 {
      Ceil16(height, 0);
      FromPixels(width, height, 0, 0);
      SpanMin(height, 0);
      Arith.Distrib(Min(height, TILE_SIZE), height - Min(height, TILE_SIZE), width);
    }
  }
}
