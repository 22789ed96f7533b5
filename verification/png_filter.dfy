/**
 * The scanline filter writer of `output/png/mod.rs` (`FilterWriter`): it passes the bytes
 * through unchanged and puts the filter-type byte in front of every scanline. Only filter
 * type 0 ("None", section 9.2 of the PNG Specification) exists, so the byte is always 0.
 */
module PngFilter {
  import opened Bytes

  /** Scanline size and position within the current scanline. */
  datatype Filter = Filter(size: nat, pos: nat)

  /** The state `FilterWriter::new` starts in (position 0) and every write keeps. */
  predicate Valid(f: Filter) {
    f.size > 0 && f.pos < f.size
  }

  /** What one `write` call produces: bytes for the inner writer, the count reported, the new state. */
  datatype Step = Step(out: seq<byte>, amount: nat, next: Filter)

  /**
   * `FilterWriter::write`: take what is left of the current scanline (or all of `buf` if it
   * is shorter), with the filter byte in front when the position is 0 — even when `buf` is
   * empty — and advance the position modulo the scanline size.
   */
  function Write(f: Filter, buf: seq<byte>): (r: Step)
    requires Valid(f)
    ensures Valid(r.next) && r.next.size == f.size
    ensures r.amount <= |buf| && (|buf| > 0 ==> r.amount > 0)
    ensures r.amount == |buf| || f.pos + r.amount == f.size
    ensures r.out == (if f.pos == 0 then [0 as byte] else []) + buf[..r.amount]
  {
    var amount := if |buf| < f.size - f.pos then |buf| else f.size - f.pos;
    var head: seq<byte> := if f.pos == 0 then [0] else [];
    Step(head + buf[..amount], amount, Filter(f.size, (f.pos + amount) % f.size))
  }

  /**
   * `write_all` on the filter writer: repeat `write` until the buffer is consumed. Every call
   * on a non-empty buffer consumes at least one byte, so the zero-write error cannot occur.
   */
  function WriteAll(f: Filter, data: seq<byte>): (r: (seq<byte>, Filter))
    requires Valid(f)
    ensures Valid(r.1) && r.1.size == f.size
    decreases |data|
  {
    if |data| == 0 then ([], f)
    else
      var step := Write(f, data);
      var rest := WriteAll(step.next, data[step.amount..]);
      (step.out + rest.0, rest.1)
  }

  /** The position after one more byte. */
  function Next(size: nat, pos: nat): nat {
    if pos + 1 >= size then 0 else pos + 1
  }

  /** The position after `n` more bytes. */
  function Advance(size: nat, pos: nat, n: nat): nat
    decreases n
  {
    if n == 0 then pos else Advance(size, Next(size, pos), n - 1)
  }

  /** Reference: one byte at a time, a zero before every byte that starts a scanline. */
  function Filtered(size: nat, pos: nat, data: seq<byte>): seq<byte>
    decreases |data|
  {
    if |data| == 0 then []
    else (if pos == 0 then [0 as byte] else []) + [data[0]] + Filtered(size, Next(size, pos), data[1..])
  }

  lemma {:induction false} FilteredAppend(size: nat, pos: nat, a: seq<byte>, b: seq<byte>)
    ensures Filtered(size, pos, a + b) == Filtered(size, pos, a) + Filtered(size, Advance(size, pos, |a|), b)
    decreases |a|
  {
    if |a| == 0 {
      assert a + b == b;
    } else {
      assert (a + b)[0] == a[0] && (a + b)[1..] == a[1..] + b;
      FilteredAppend(size, Next(size, pos), a[1..], b);
    }
  }

  lemma {:induction false} AdvanceAdd(size: nat, pos: nat, m: nat, n: nat)
    ensures Advance(size, pos, m + n) == Advance(size, Advance(size, pos, m), n)
    decreases m
  {
    if m > 0 {
      AdvanceAdd(size, Next(size, pos), m - 1, n);
    }
  }

  /** Inside one scanline, no filter byte is inserted and the position counts up. */
  lemma {:induction false} FilteredInside(size: nat, pos: nat, a: seq<byte>)
    requires 0 < pos < size && pos + |a| <= size
    ensures Filtered(size, pos, a) == a
    ensures Advance(size, pos, |a|) == (if pos + |a| == size then 0 else pos + |a|)
    decreases |a|
  {
    if |a| > 0 {
      assert Advance(size, pos, |a|) == Advance(size, Next(size, pos), |a| - 1);
      assert Filtered(size, pos, a) == [a[0]] + Filtered(size, Next(size, pos), a[1..]);
      if pos + 1 < size {
        FilteredInside(size, pos + 1, a[1..]);
      } else {
        assert a[1..] == [] && Next(size, pos) == 0;
        assert Advance(size, 0, 0) == 0 && Filtered(size, 0, []) == [];
      }
      assert [a[0]] + a[1..] == a;
    }
  }

  /** The first byte of a write starts a scanline exactly when the position is 0. */
  lemma FilteredRun(size: nat, pos: nat, a: seq<byte>)
    requires pos < size && |a| > 0 && pos + |a| <= size
    ensures Filtered(size, pos, a) == (if pos == 0 then [0 as byte] else []) + a
    ensures Advance(size, pos, |a|) == (pos + |a|) % size
  {
    ModWithin(pos + |a|, size);
    FirstByte(size, pos, a);
  }

  lemma FirstByte(size: nat, pos: nat, a: seq<byte>)
    requires pos < size && |a| > 0 && pos + |a| <= size
    ensures Filtered(size, pos, a) == (if pos == 0 then [0 as byte] else []) + a
    ensures Advance(size, pos, |a|) == (if pos + |a| == size then 0 else pos + |a|)
  {
    var head: seq<byte> := if pos == 0 then [0] else [];
    FilteredStep(size, pos, a);
    RestOfScanline(size, pos, a);
    assert [a[0]] + a[1..] == a;
    AppendAssoc(head, [a[0]], a[1..]);
  }

  /** One step of the reference: the first byte, then the rest from the next position. */
  lemma FilteredStep(size: nat, pos: nat, a: seq<byte>)
    requires |a| > 0
    ensures Filtered(size, pos, a)
      == (if pos == 0 then [0 as byte] else []) + [a[0]] + Filtered(size, Next(size, pos), a[1..])
    ensures Advance(size, pos, |a|) == Advance(size, Next(size, pos), |a| - 1)
  {
  }

  /** After the first byte of a write that stays in its scanline, no filter byte follows. */
  lemma RestOfScanline(size: nat, pos: nat, a: seq<byte>)
    requires pos < size && |a| > 0 && pos + |a| <= size
    ensures Filtered(size, Next(size, pos), a[1..]) == a[1..]
    ensures Advance(size, Next(size, pos), |a| - 1) == (if pos + |a| == size then 0 else pos + |a|)
  {
    var rest := a[1..];
    if pos + 1 < size {
      assert Next(size, pos) == pos + 1;
      FilteredInside(size, pos + 1, rest);
    } else {
      assert Next(size, pos) == 0 && |rest| == 0 && pos + |a| == size;
      NothingLeft(size, rest);
    }
  }

  lemma NothingLeft(size: nat, rest: seq<byte>)
    requires |rest| == 0
    ensures Filtered(size, 0, rest) == rest && Advance(size, 0, |rest|) == 0
  {
  }

  lemma ModWithin(x: nat, size: nat)
    requires 0 < x <= size
    ensures x % size == (if x == size then 0 else x)
  {
  }

  /** One non-empty `write` produces what the reference produces for the bytes it took. */
  lemma WriteIsReference(f: Filter, buf: seq<byte>)
    requires Valid(f) && |buf| > 0
    ensures var step := Write(f, buf);
      step.out == Filtered(f.size, f.pos, buf[..step.amount])
      && step.next.pos == Advance(f.size, f.pos, step.amount)
  {
    var step := Write(f, buf);
    FilteredRun(f.size, f.pos, buf[..step.amount]);
  }

  /**
   * However the caller's bytes are split into writes, the filter writer emits the reference
   * stream and ends at the reference position.
   */
  lemma {:induction false} WriteAllIsReference(f: Filter, data: seq<byte>)
    requires Valid(f)
    ensures WriteAll(f, data).0 == Filtered(f.size, f.pos, data)
    ensures WriteAll(f, data).1.pos == Advance(f.size, f.pos, |data|)
    decreases |data|
  {
    if |data| > 0 {
      var step := Write(f, data);
      WriteIsReference(f, data);
      WriteAllIsReference(step.next, data[step.amount..]);
      FilteredAppend(f.size, f.pos, data[..step.amount], data[step.amount..]);
      assert data[..step.amount] + data[step.amount..] == data;
      AdvanceAdd(f.size, f.pos, step.amount, |data| - step.amount);
    }
  }

  /** Scanlines with the filter-type byte in front of each. */
  function FramedRows(rows: seq<seq<byte>>): seq<byte>
    decreases |rows|
  {
    if |rows| == 0 then [] else [0 as byte] + rows[0] + FramedRows(rows[1..])
  }

  /** Every row is one scanline long. */
  predicate Scanlines(rows: seq<seq<byte>>, size: nat) {
    forall k :: 0 <= k < |rows| ==> |rows[k]| == size
  }

  function Rows(rows: seq<seq<byte>>): seq<byte>
    decreases |rows|
  {
    if |rows| == 0 then [] else rows[0] + Rows(rows[1..])
  }

  /** Whole scanlines from a scanline start: each one gets exactly one filter byte in front. */
  lemma {:induction false} FilteredRows(size: nat, rows: seq<seq<byte>>)
    requires size > 0
    requires Scanlines(rows, size)
    ensures Filtered(size, 0, Rows(rows)) == FramedRows(rows)
    decreases |rows|
  {
    if |rows| > 0 {
      var row := rows[0];
      assert |row| == size;
      FilteredRun(size, 0, row);
      assert Advance(size, 0, |row|) == 0 by {
        ModWithin(|row|, size);
      }
      FilteredAppend(size, 0, row, Rows(rows[1..]));
      FilteredRows(size, rows[1..]);
      assert Rows(rows) == row + Rows(rows[1..]);
      assert FramedRows(rows) == [0 as byte] + row + FramedRows(rows[1..]);
    }
  }

  /** Writing whole scanlines gives each of them with a filter byte in front. */
  lemma WriteAllRows(size: nat, rows: seq<seq<byte>>)
    requires size > 0
    requires Scanlines(rows, size)
    ensures WriteAll(Filter(size, 0), Rows(rows)).0 == FramedRows(rows)
  {
    WriteAllIsReference(Filter(size, 0), Rows(rows));
    FilteredRows(size, rows);
  }

  /** Two whole scanlines: a filter byte in front of each. */
  lemma TwoScanlines(row: seq<byte>)
    requires |row| > 0
    ensures WriteAll(Filter(|row|, 0), row + row).0 == [0 as byte] + row + [0 as byte] + row
  {
    RowsOfTwo(row);
    WriteAllRows(|row|, [row, row]);
  }

  lemma RowsOfTwo(row: seq<byte>)
    ensures Scanlines([row, row], |row|)
    ensures Rows([row, row]) == row + row
    ensures FramedRows([row, row]) == [0 as byte] + row + [0 as byte] + row
  {
    var rows := [row, row];
    assert rows[1..] == [row] && rows[1..][1..] == [];
    assert Rows(rows[1..]) == row + [];
    assert FramedRows(rows[1..]) == [0 as byte] + row + [];
  }

  /** The filter writer's unit test: eight bytes 5 with scanlines of four. */
  const FILTER_TEST_INPUT: seq<byte> := [5, 5, 5, 5, 5, 5, 5, 5]
  const FILTER_TEST_OUTPUT: seq<byte> := [0, 5, 5, 5, 5, 0, 5, 5, 5, 5]

  lemma WriterTestVector()
    ensures WriteAll(Filter(4, 0), FILTER_TEST_INPUT).0 == FILTER_TEST_OUTPUT
  {
    var row: seq<byte> := [5, 5, 5, 5];
    TestVectorRows(row);
    TwoScanlines(row);
  }

  /** The test's input is two scanlines of four, its output each with a filter byte. */
  lemma TestVectorRows(row: seq<byte>)
    requires row == [5, 5, 5, 5]
    ensures FILTER_TEST_INPUT == row + row && |row| == 4
    ensures FILTER_TEST_OUTPUT == [0 as byte] + row + [0 as byte] + row
  {
  }
}
