/** Small facts of integer arithmetic that the layouts of rows and tiles rest on. */
module Arith {

  lemma Distrib(y: int, z: int, s: int)
    ensures (y + z) * s == y * s + z * s
  {
  }

  /** The row of index `k` in a `width`-wide layout of `h` rows is below `h`. */
  lemma RowOf(k: nat, width: nat, h: nat)
    requires width > 0 && k < h * width
    ensures k / width < h
  {
    var q := k / width;
    assert q * width <= k;
    MulLe(h, q, width);
  }

  /** The indices of the last of `h + 1` rows. */
  lemma RowOfLast(k: nat, width: nat, h: nat)
    requires width > 0 && h * width <= k < h * width + width
    ensures k / width == h && k % width == k - h * width
  {
    var q, r := k / width, k % width;
    assert k == q * width + r && r < width;
    MulLe(h + 1, q, width);
    MulLe(q + 1, h, width);
  }

  lemma MulLe(a: nat, b: nat, w: nat)
    ensures a <= b ==> a * w <= b * w
  {
    if a <= b {
      assert b * w == a * w + (b - a) * w;
    }
  }

  /** Dropping the first row of a layout moves an index one row up and keeps its column. */
  lemma ShiftRow(k: nat, width: nat)
    requires width <= k && width > 0
    ensures (k - width) / width == k / width - 1 && (k - width) % width == k % width
  {
    var q, r := (k - width) / width, (k - width) % width;
    assert k - width == q * width + r && r < width;
    assert k == (q + 1) * width + r;
    RowOfLast(k, width, q + 1);
  }
}
