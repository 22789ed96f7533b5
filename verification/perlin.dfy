/**
 * The lattice bookkeeping of Perlin noise (`object/perlin.rs`): three permutations of
 * `0..256` made by shuffling the identity, 256 random values, and the hash that picks the
 * value of a lattice corner by XOR-ing one entry of each permutation.
 *
 * The random generator is a parameter: `draws[i]` is the target drawn at step `i` of a
 * shuffle, and `gen(i)` the `i`-th random value. The smoothing and the trilinear interpolation
 * of `noise` are floating point and are not modelled.
 */
module Perlin {

  const POINT_COUNT: nat := 256

  datatype Perlin = Perlin(floats: seq<real>, permX: seq<nat>, permY: seq<nat>, permZ: seq<nat>)

  /** `0, 1, ..., n - 1`, the vector `generate_perm` starts from. */
  function Identity(n: nat): (r: seq<nat>)
    ensures |r| == n && forall i :: 0 <= i < n ==> r[i] == i
  {
    seq(n, i => i)
  }

  /** Every value below `n` occurs once in the identity, and nothing else occurs. */
  lemma {:induction false} IdentityCounts(n: nat)
    ensures forall v: nat :: multiset(Identity(n))[v] == if v < n then 1 else 0
    decreases n
  {
    if n == 0 {
      assert Identity(n) == [];
    } else {
      IdentityCounts(n - 1);
      assert Identity(n) == Identity(n - 1) + [n - 1];
      forall v: nat ensures multiset(Identity(n))[v] == if v < n then 1 else 0 {
        assert multiset(Identity(n))[v] == multiset(Identity(n - 1))[v] + multiset([n - 1])[v];
      }
    }
  }

  lemma IdentityDistinct(n: nat)
    ensures Distinct(Identity(n))
  {
  }

  /** `p.swap(i, j)`. */
  function SwapAt(p: seq<nat>, i: nat, j: nat): (r: seq<nat>)
    requires i < |p| && j < |p|
    ensures |r| == |p| && multiset(r) == multiset(p)
  {
    p[i := p[j]][j := p[i]]
  }

  /** The draws of the first `n` steps are targets in `0..i`, the source's `gen_range(0..i)`. */
  predicate Exclusive(draws: seq<nat>, n: nat) {
    n <= |draws| && forall i :: 0 < i < n ==> draws[i] < i
  }

  /** The draws of the first `n` steps are targets in `0..=i`. */
  predicate Inclusive(draws: seq<nat>, n: nat) {
    n <= |draws| && forall i :: 0 < i < n ==> draws[i] <= i
  }

  /**
   * The loop of `permute` over the first `n` positions, from `n - 1` down to 1: swap position
   * `i` with its drawn target. It only rearranges, and it leaves positions from `n` on alone.
   */
  function Steps(p: seq<nat>, draws: seq<nat>, n: nat): (r: seq<nat>)
    requires n <= |p| && Inclusive(draws, n)
    ensures |r| == |p| && multiset(r) == multiset(p)
    ensures r[n..] == p[n..]
    decreases n
  {
    if n <= 1 then p
    else Steps(SwapAt(p, n - 1, draws[n - 1]), draws, n - 1)
  }

  /** `Perlin::permute` as written: step `i` swaps with a target drawn from `0..i`. */
  function Permute(p: seq<nat>, draws: seq<nat>): (r: seq<nat>)
    requires Exclusive(draws, |p|)
    ensures |r| == |p| && multiset(r) == multiset(p)
  {
    Steps(p, draws, |p|)
  }

  predicate Distinct(p: seq<nat>) {
    forall i, j :: 0 <= i < j < |p| ==> p[i] != p[j]
  }

  /**
   * As written, the shuffle moves every entry: on distinct entries no position keeps its value,
   * whatever is drawn. This is Sattolo's algorithm, which only makes cyclic permutations.
   */
  lemma PermuteMovesEverything(p: seq<nat>, draws: seq<nat>)
    requires Exclusive(draws, |p|) && Distinct(p) && |p| >= 2
    ensures forall k :: 0 <= k < |p| ==> Permute(p, draws)[k] != p[k]
    ensures Permute(p, draws) != p
  {
    StepsMove(p, p, draws, |p|);
  }

  /**
   * The invariant of the exclusive loop before the step at `n - 1`: positions from `n` on
   * already differ from the original, and no unprocessed position holds the original value of
   * another unprocessed position.
   */
  lemma {:induction false} StepsMove(orig: seq<nat>, cur: seq<nat>, draws: seq<nat>, n: nat)
    requires |cur| == |orig| && 2 <= n <= |cur| && Exclusive(draws, n)
    requires forall k :: n <= k < |cur| ==> cur[k] != orig[k]
    requires forall j, k :: 0 <= j < n && 0 <= k < n && j != k ==> cur[j] != orig[k]
    ensures forall k :: 0 <= k < |cur| ==> Steps(cur, draws, n)[k] != orig[k]
    decreases n
  {
    var t := draws[n - 1];
    var next := SwapAt(cur, n - 1, t);
    assert next[n - 1] == cur[t] && next[t] == cur[n - 1];
    assert forall k :: 0 <= k < |cur| && k != n - 1 && k != t ==> next[k] == cur[k];
    if n > 2 {
      StepsMove(orig, next, draws, n - 1);
    }
  }

  /** The smallest case in full: two entries always come out exchanged. */
  lemma PermuteTwo(draws: seq<nat>)
    requires Exclusive(draws, 2)
    ensures Permute([0, 1], draws) == [1, 0]
  {
    assert draws[1] == 0;
  }

  /** The shuffle with targets drawn from `0..=i`: the Fisher-Yates shuffle. */
  function Shuffle(p: seq<nat>, draws: seq<nat>): (r: seq<nat>)
    requires Inclusive(draws, |p|)
    ensures |r| == |p| && multiset(r) == multiset(p)
  {
    Steps(p, draws, |p|)
  }

  /** Swaps inside the first `n` positions keep their multiset. */
  lemma SwapPrefix(c: seq<nat>, i: nat, j: nat, n: nat)
    requires i < n && j < n && n <= |c|
    ensures multiset(SwapAt(c, i, j)[..n]) == multiset(c[..n])
    ensures SwapAt(c, i, j)[n..] == c[n..]
  {
    assert SwapAt(c, i, j)[..n] == SwapAt(c[..n], i, j);
  }

  /** The loop reads no draw at or beyond `n`. */
  lemma {:induction false} StepsPrefix(p: seq<nat>, d1: seq<nat>, d2: seq<nat>, n: nat)
    requires n <= |p| && Inclusive(d1, n) && Inclusive(d2, n) && d1[..n] == d2[..n]
    ensures Steps(p, d1, n) == Steps(p, d2, n)
    decreases n
  {
    if n > 1 {
      assert d1[n - 1] == d1[..n][n - 1] == d2[..n][n - 1] == d2[n - 1];
      assert d1[..n - 1] == d1[..n][..n - 1];
      assert d2[..n - 1] == d2[..n][..n - 1];
      assert Inclusive(d1, n - 1) && Inclusive(d2, n - 1);
      var next := SwapAt(p, n - 1, d1[n - 1]);
      StepsPrefix(next, d1, d2, n - 1);
      assert Steps(p, d1, n) == Steps(next, d1, n - 1);
      assert Steps(p, d2, n) == Steps(next, d2, n - 1);
    }
  }

  /** A value of the last of the first `n` positions of `q` is found among the first `n` of `cur`. */
  lemma PickTarget(cur: seq<nat>, q: seq<nat>, n: nat) returns (t: nat)
    requires 1 <= n <= |cur| && n <= |q| && multiset(cur[..n]) == multiset(q[..n])
    ensures t < n && cur[t] == q[n - 1]
  {
    assert q[..n] == q[..n - 1] + [q[n - 1]];
    assert q[n - 1] in multiset(cur[..n]);
    t :| 0 <= t < n && cur[..n][t] == q[n - 1];
  }

  /** Equal multisets with equal last elements stay equal without them. */
  lemma CancelLast(a: seq<nat>, b: seq<nat>)
    requires |a| > 0 && |b| > 0 && a[|a| - 1] == b[|b| - 1] && multiset(a) == multiset(b)
    ensures multiset(a[..|a| - 1]) == multiset(b[..|b| - 1])
  {
    var x := a[|a| - 1];
    assert a == a[..|a| - 1] + [x] && b == b[..|b| - 1] + [x];
    var ma, mb := multiset(a[..|a| - 1]), multiset(b[..|b| - 1]);
    forall v ensures ma[v] == mb[v] {
      assert multiset(a)[v] == ma[v] + multiset{x}[v];
      assert multiset(b)[v] == mb[v] + multiset{x}[v];
    }
    assert ma == mb;
  }

  /** After the swap that puts `q[n - 1]` in place, one fewer position is left to arrange. */
  lemma AfterSwap(cur: seq<nat>, q: seq<nat>, n: nat, t: nat)
    requires |cur| == |q| && 1 <= n <= |cur| && t < n && cur[t] == q[n - 1]
    requires multiset(cur[..n]) == multiset(q[..n]) && cur[n..] == q[n..]
    ensures multiset(SwapAt(cur, n - 1, t)[..n - 1]) == multiset(q[..n - 1])
    ensures SwapAt(cur, n - 1, t)[n - 1..] == q[n - 1..]
  {
    var next := SwapAt(cur, n - 1, t);
    SwapPrefix(cur, n - 1, t, n);
    assert next[n - 1] == q[n - 1];
    SwapSuffix(next, q, n);
    SwapRest(next, q, n);
  }

  /** The arranged suffix grows by the position just filled. */
  lemma SwapSuffix(next: seq<nat>, q: seq<nat>, n: nat)
    requires |next| == |q| && 1 <= n <= |q| && next[n - 1] == q[n - 1] && next[n..] == q[n..]
    ensures next[n - 1..] == q[n - 1..]
  {
    assert next[n - 1..] == [q[n - 1]] + next[n..];
    assert q[n - 1..] == [q[n - 1]] + q[n..];
  }

  /** The values left to arrange are those of `q` below the position just filled. */
  lemma SwapRest(next: seq<nat>, q: seq<nat>, n: nat)
    requires |next| == |q| && 1 <= n <= |q| && next[n - 1] == q[n - 1]
    requires multiset(next[..n]) == multiset(q[..n])
    ensures multiset(next[..n - 1]) == multiset(q[..n - 1])
  {
    CancelLast(next[..n], q[..n]);
    assert next[..n][..n - 1] == next[..n - 1] && q[..n][..n - 1] == q[..n - 1];
  }

  /** Two slices that agree from `n` on and hold one and the same value below `n <= 1` are equal. */
  lemma ReachBase(cur: seq<nat>, q: seq<nat>, n: nat)
    requires |cur| == |q| && n <= 1 && n <= |cur|
    requires multiset(cur[..n]) == multiset(q[..n]) && cur[n..] == q[n..]
    ensures cur == q
  {
    if n == 1 {
      assert cur[..1] == [cur[0]] && q[..1] == [q[0]];
      assert multiset{cur[0]}[q[0]] == multiset{q[0]}[q[0]];
    }
    assert cur == cur[..n] + cur[n..] && q == q[..n] + q[n..];
  }

  /** One more draw, for the step at `n - 1`, after those of the steps below it. */
  function Extend(rest: seq<nat>, t: nat, n: nat): (draws: seq<nat>)
    requires 1 <= n && |rest| == n - 1 && Inclusive(rest, n - 1) && t < n
    ensures |draws| == n && Inclusive(draws, n) && draws[n - 1] == t
    ensures draws[..n - 1] == rest[..n - 1]
  {
    assert (rest + [t])[..n - 1] == rest == rest[..n - 1];
    rest + [t]
  }

  /**
   * With targets from `0..=i` every rearrangement is reachable: some draws turn `cur` into `q`,
   * when the two agree from `n` on and hold the same values below `n`.
   */
  lemma {:induction false} StepsReach(cur: seq<nat>, q: seq<nat>, n: nat) returns (draws: seq<nat>)
    requires |cur| == |q| && n <= |cur|
    requires multiset(cur[..n]) == multiset(q[..n]) && cur[n..] == q[n..]
    ensures |draws| == n && Inclusive(draws, n) && Steps(cur, draws, n) == q
    decreases n
  {
    if n <= 1 {
      draws := seq(n, i => 0);
      ReachBase(cur, q, n);
      assert Steps(cur, draws, n) == q;
    } else {
      var t := PickTarget(cur, q, n);
      AfterSwap(cur, q, n, t);
      var next := SwapAt(cur, n - 1, t);
      var rest := StepsReach(next, q, n - 1);
      draws := Extend(rest, t, n);
      assert Steps(cur, draws, n) == Steps(next, draws, n - 1);
      StepsPrefix(next, draws, rest, n - 1);
      assert Steps(cur, draws, n) == q;
    }
  }

  /** The corrected shuffle can produce every rearrangement of its input, the input itself included. */
  lemma ShuffleReaches(p: seq<nat>, q: seq<nat>) returns (draws: seq<nat>)
    requires multiset(p) == multiset(q)
    ensures Inclusive(draws, |p|) && Shuffle(p, draws) == q
  {
    assert |p| == |multiset(p)| == |q|;
    assert p[..|p|] == p && q[..|q|] == q;
    draws := StepsReach(p, q, |p|);
  }

  /** The entries of a permutation of `0..n`: each value below `n` once, nothing else. */
  ghost predicate IsPermutation(r: seq<nat>, n: nat) {
    |r| == n && forall v: nat :: multiset(r)[v] == if v < n then 1 else 0
  }

  /** A permutation of `0..n` holds only indices below `n`. */
  lemma PermutationBounded(r: seq<nat>, n: nat)
    requires IsPermutation(r, n)
    ensures forall k :: 0 <= k < |r| ==> r[k] < n
  {
    forall k | 0 <= k < |r| ensures r[k] < n {
      assert r[k] in multiset(r);
    }
  }

  /** `generate_perm`, with the corrected shuffle: a permutation of `0..256`. */
  function GeneratePerm(draws: seq<nat>): (r: seq<nat>)
    requires Inclusive(draws, POINT_COUNT)
    ensures IsPermutation(r, POINT_COUNT)
    ensures forall k :: 0 <= k < |r| ==> r[k] < POINT_COUNT
  {
    IdentityCounts(POINT_COUNT);
    var r := Shuffle(Identity(POINT_COUNT), draws);
    PermutationBounded(r, POINT_COUNT);
    r
  }

  /** `generate_perm` as written, with `permute`: also a permutation of `0..256`, but a cyclic one. */
  function GeneratePermAsWritten(draws: seq<nat>): (r: seq<nat>)
    requires Exclusive(draws, POINT_COUNT)
    ensures IsPermutation(r, POINT_COUNT)
    ensures forall k :: 0 <= k < |r| ==> r[k] != k
  {
    PermuteIdentity(POINT_COUNT, draws);
    Permute(Identity(POINT_COUNT), draws)
  }

  lemma PermuteIdentity(n: nat, draws: seq<nat>)
    requires Exclusive(draws, n) && n >= 2
    ensures IsPermutation(Permute(Identity(n), draws), n)
    ensures forall k :: 0 <= k < n ==> Permute(Identity(n), draws)[k] != k
  {
    IdentityCounts(n);
    IdentityDistinct(n);
    PermuteMovesEverything(Identity(n), draws);
  }

  /** Sizes and ranges that make every lookup of `noise` fall inside `floats`. */
  predicate Valid(p: Perlin) {
    |p.floats| == POINT_COUNT &&
    |p.permX| == POINT_COUNT && |p.permY| == POINT_COUNT && |p.permZ| == POINT_COUNT &&
    (forall k :: 0 <= k < POINT_COUNT ==> p.permX[k] < POINT_COUNT) &&
    (forall k :: 0 <= k < POINT_COUNT ==> p.permY[k] < POINT_COUNT) &&
    (forall k :: 0 <= k < POINT_COUNT ==> p.permZ[k] < POINT_COUNT)
  }

  /** `Perlin::new`: 256 random values, then three permutations. */
  function New(gen: nat -> real, dx: seq<nat>, dy: seq<nat>, dz: seq<nat>): (p: Perlin)
    requires Inclusive(dx, POINT_COUNT) && Inclusive(dy, POINT_COUNT) && Inclusive(dz, POINT_COUNT)
    ensures Valid(p)
    ensures IsPermutation(p.permX, POINT_COUNT) && IsPermutation(p.permY, POINT_COUNT)
    ensures IsPermutation(p.permZ, POINT_COUNT)
    ensures forall i :: 0 <= i < POINT_COUNT ==> p.floats[i] == gen(i)
  {
    Perlin(Floats(gen), GeneratePerm(dx), GeneratePerm(dy), GeneratePerm(dz))
  }

  /** The loop that fills `floats`: one random value per lattice point. */
  function Floats(gen: nat -> real): (r: seq<real>)
    ensures |r| == POINT_COUNT && forall i :: 0 <= i < POINT_COUNT ==> r[i] == gen(i)
  {
    seq(POINT_COUNT, i requires 0 <= i => gen(i))
  }

  /** `i.rem_euclid(256)`: the residue in `0..256`, also for negative `i`. */
  function Wrap(i: int): (r: nat)
    ensures r < POINT_COUNT && (i - r) % POINT_COUNT == 0
  {
    i % POINT_COUNT
  }

  /** Shifting a coordinate by whole periods does not change its residue. */
  lemma WrapPeriodic(i: int, m: int)
    ensures Wrap(i + POINT_COUNT * m) == Wrap(i)
  {
    var q, r := i / POINT_COUNT, i % POINT_COUNT;
    assert i + POINT_COUNT * m == POINT_COUNT * (q + m) + r;
  }

  function Pow2(k: nat): nat {
    if k == 0 then 1 else 2 * Pow2(k - 1)
  }

  /** `a ^ b` on unsigned integers, bit by bit from the lowest. */
  function Xor(a: nat, b: nat): nat
    decreases a + b
  {
    if a == 0 && b == 0 then 0
    else 2 * Xor(a / 2, b / 2) + (if a % 2 == b % 2 then 0 else 1)
  }

  /** XOR never sets a bit above the operands' width. */
  lemma {:induction false} XorBelow(a: nat, b: nat, k: nat)
    requires a < Pow2(k) && b < Pow2(k)
    ensures Xor(a, b) < Pow2(k)
    decreases k
  {
    if k > 0 && (a != 0 || b != 0) {
      XorBelow(a / 2, b / 2, k - 1);
    }
  }

  /**
   * The hash of `noise`: `perm_x[i] ^ perm_y[j] ^ perm_z[k]` at the wrapped coordinates. Each
   * entry is below 256 = 2^8, so the XOR is too, and it indexes `floats` in bounds.
   */
  function Hash(p: Perlin, i: int, j: int, k: int): (h: nat)
    requires Valid(p)
    ensures h < |p.floats|
  {
    var a, b, c := p.permX[Wrap(i)], p.permY[Wrap(j)], p.permZ[Wrap(k)];
    assert Pow2(8) == POINT_COUNT;
    XorBelow(a, b, 8);
    XorBelow(Xor(a, b), c, 8);
    Xor(Xor(a, b), c)
  }

  /** `c[di][dj][dk]`: the random value at lattice corner `(i + di, j + dj, k + dk)`. */
  function Corner(p: Perlin, i: int, j: int, k: int, di: nat, dj: nat, dk: nat): real
    requires Valid(p) && di < 2 && dj < 2 && dk < 2
  {
    p.floats[Hash(p, i + di, j + dj, k + dk)]
  }

  /** The lattice repeats every 256 units along each axis, negative coordinates included. */
  lemma HashPeriodic(p: Perlin, i: int, j: int, k: int, mi: int, mj: int, mk: int)
    requires Valid(p)
    ensures Hash(p, i + POINT_COUNT * mi, j + POINT_COUNT * mj, k + POINT_COUNT * mk) == Hash(p, i, j, k)
  {
    WrapPeriodic(i, mi);
    WrapPeriodic(j, mj);
    WrapPeriodic(k, mk);
  }
}
