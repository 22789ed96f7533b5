/**
 * The CRC-32 used by PNG chunks (section 5.5 of the PNG Specification, ISO/IEC 15948:2003):
 * reflected polynomial 0xEDB88320, register preset to all ones, result complemented.
 */
module Crc32 {
  import opened Bytes
  import opened Wrappers

  const POLY: bv32 := 0xEDB8_8320
  const INIT: bv32 := 0xFFFF_FFFF

  /** One bit step of the division: shift right, folding in the polynomial when bit 0 was set. */
  function Shift(c: bv32): bv32 {
    if c & 1 != 0 then POLY ^ (c >> 1) else c >> 1
  }

  function Shifts(c: bv32, k: nat): bv32
    decreases k
  {
    if k == 0 then c else Shifts(Shift(c), k - 1)
  }

  /** Entry `i` of the lookup table: `i` after eight bit steps. */
  function TableEntry(i: byte): bv32 {
    Shifts(i as bv32, 8)
  }

  /** The lazily built table of `update`, filled by the same nested loops as the source. */
  method BuildTable() returns (table: seq<bv32>)
    ensures |table| == 256
    ensures forall i :: 0 <= i < 256 ==> table[i] == TableEntry(i as byte)
  {
    table := [];
    var i := 0;
    while i < 256
      invariant 0 <= i <= 256
      invariant |table| == i
      invariant forall k :: 0 <= k < i ==> table[k] == TableEntry(k as byte)
    {
      var c: bv32 := (i as byte) as bv32;
      var n := 0;
      while n < 8
        invariant 0 <= n <= 8
        invariant Shifts(c, 8 - n) == TableEntry(i as byte)
      {
        c := Shift(c);
        n := n + 1;
      }
      table := table + [c];
      i := i + 1;
    }
  }

  /** One byte of `update`: `table[(crc ^ b) & 0xff] ^ (crc >> 8)`. */
  function Step(reg: bv32, b: byte): bv32 {
    TableEntry(((reg ^ (b as bv32)) & 0xFF) as byte) ^ (reg >> 8)
  }

  /** `update`: a left fold of `Step` over the bytes, first byte first. */
  function Update(reg: bv32, bs: seq<byte>): bv32
    decreases |bs|
  {
    if |bs| == 0 then reg else Update(Step(reg, bs[0]), bs[1..])
  }

  /** `get`: the bitwise complement of the register. */
  function Get(reg: bv32): bv32 {
    !reg
  }

  /** The CRC of a whole byte string, from a freshly created register. */
  function Checksum(bs: seq<byte>): bv32 {
    Get(Update(INIT, bs))
  }

  /** Updating over `a ++ b` is updating over `a`, then over `b`. */
  lemma {:induction false} UpdateAppend(reg: bv32, a: seq<byte>, b: seq<byte>)
    ensures Update(reg, a + b) == Update(Update(reg, a), b)
    decreases |a|
  {
    if |a| == 0 {
      assert a + b == b;
    } else {
      assert (a + b)[1..] == a[1..] + b;
      UpdateAppend(Step(reg, a[0]), a[1..], b);
    }
  }

  /** `get` reads the register without changing it: complementing twice gives it back. */
  lemma GetInvolutive(reg: bv32)
    ensures Get(Get(reg)) == reg && (Get(reg) == INIT <==> reg == 0)
  {
  }

  /** The CRC of the `IEND` chunk, the fixed trailer of every PNG file. */
  lemma IendChecksum()
    ensures Checksum([0x49, 0x45, 0x4E, 0x44]) == 0xAE42_6082
  {
  }

  /**
   * The `Crc32<W>` writer: the running register, and every byte the inner writer has
   * accepted since `new` (the bytes the register has been updated with).
   */
  datatype Writer = Writer(reg: bv32, accepted: seq<byte>)

  function NewWriter(): Writer {
    Writer(INIT, [])
  }

  /** What one call of the inner writer's `write` returned. */
  datatype WriteOutcome = Wrote(n: nat) | Interrupted | Failed

  /**
   * `Crc32::write`: forward to the inner writer, then fold exactly the `n` bytes it accepted;
   * on an error nothing is folded. The inner writer never reports more than it was given.
   */
  function Write(w: Writer, buf: seq<byte>, res: WriteOutcome): (w': Writer)
    requires res.Wrote? ==> res.n <= |buf|
    ensures !res.Wrote? ==> w' == w
    ensures res.Wrote? ==> w'.accepted == w.accepted + buf[..res.n]
  {
    match res
    case Wrote(n) => Writer(Update(w.reg, buf[..n]), w.accepted + buf[..n])
    case _ => w
  }

  /** The writer after the inner writer has taken all of `buf`. */
  function Feed(w: Writer, buf: seq<byte>): Writer {
    Writer(Update(w.reg, buf), w.accepted + buf)
  }

  /** Why a `write_all` stopped early. */
  datatype WriteAllError = WriteZero | IoError | OutOfOutcomes

  /**
   * `write_all` on a `Crc32` writer, the inner writer's answers to successive `write` calls
   * being `outcomes`: a zero-length write is an error, an interrupted write is retried, any
   * other error stops the loop. Running out of answers stands for a writer that never returns.
   */
  function WriteAll(w: Writer, buf: seq<byte>, outcomes: seq<WriteOutcome>)
    : (r: (Writer, Result<(), WriteAllError>))
    decreases |outcomes|
  {
    if |buf| == 0 then (w, Ok(()))
    else if |outcomes| == 0 then (w, Err(OutOfOutcomes))
    else match outcomes[0]
      case Wrote(n) =>
        if n == 0 then (w, Err(WriteZero))
        else if n > |buf| then (w, Err(IoError))
        else WriteAll(Write(w, buf, Wrote(n)), buf[n..], outcomes[1..])
      case Interrupted => WriteAll(w, buf, outcomes[1..])
      case Failed => (w, Err(IoError))
  }

  /** The register is the CRC state of exactly the bytes that reached the inner writer. */
  ghost predicate Valid(w: Writer) {
    w.reg == Update(INIT, w.accepted)
  }

  /** Any write, partial or failed, keeps the register in step with the accepted bytes. */
  lemma WriteKeepsValid(w: Writer, buf: seq<byte>, res: WriteOutcome)
    requires Valid(w)
    requires res.Wrote? ==> res.n <= |buf|
    ensures Valid(Write(w, buf, res))
    ensures Get(Write(w, buf, res).reg) == Checksum(Write(w, buf, res).accepted)
  {
    if res.Wrote? {
      UpdateAppend(INIT, w.accepted, buf[..res.n]);
    }
  }

  /**
   * However the inner writer splits the bytes, a `write_all` that succeeds has folded
   * exactly `buf`, once, in order; one that fails has folded a prefix of it.
   */
  lemma {:induction false} WriteAllFolds(w: Writer, buf: seq<byte>, outcomes: seq<WriteOutcome>)
    ensures WriteAll(w, buf, outcomes).1.Ok? ==> WriteAll(w, buf, outcomes).0 == Feed(w, buf)
    ensures exists k :: 0 <= k <= |buf| && WriteAll(w, buf, outcomes).0 == Feed(w, buf[..k])
    decreases |outcomes|
  {
    if |buf| == 0 {
      assert w.accepted + buf == w.accepted;
      assert Feed(w, buf[..0]) == w;
    } else if |outcomes| == 0 || outcomes[0].Failed? || (outcomes[0].Wrote? && (outcomes[0].n == 0 || outcomes[0].n > |buf|)) {
      assert buf[..0] == [] && w.accepted + [] == w.accepted;
      assert Feed(w, buf[..0]) == w;
    } else if outcomes[0].Interrupted? {
      WriteAllFolds(w, buf, outcomes[1..]);
    } else {
      var n := outcomes[0].n;
      WriteAllFolds(Write(w, buf, Wrote(n)), buf[n..], outcomes[1..]);
      WroteFolds(w, buf, outcomes);
    }
  }

  /** One accepted write of `n` bytes followed by a loop that folds a prefix of the rest. */
  lemma WroteFolds(w: Writer, buf: seq<byte>, outcomes: seq<WriteOutcome>)
    requires |outcomes| > 0 && outcomes[0].Wrote? && 0 < outcomes[0].n <= |buf|
    requires var n := outcomes[0].n; var w1 := Write(w, buf, Wrote(n));
      var r := WriteAll(w1, buf[n..], outcomes[1..]);
      (r.1.Ok? ==> r.0 == Feed(w1, buf[n..]))
      && exists k :: 0 <= k <= |buf[n..]| && r.0 == Feed(w1, buf[n..][..k])
    ensures WriteAll(w, buf, outcomes).1.Ok? ==> WriteAll(w, buf, outcomes).0 == Feed(w, buf)
    ensures exists k :: 0 <= k <= |buf| && WriteAll(w, buf, outcomes).0 == Feed(w, buf[..k])
  {
    var n := outcomes[0].n;
    var w1 := Write(w, buf, Wrote(n));
    var r := WriteAll(w1, buf[n..], outcomes[1..]);
    assert WriteAll(w, buf, outcomes) == r;
    assert w1 == Feed(w, buf[..n]);
    var k :| 0 <= k <= |buf[n..]| && r.0 == Feed(w1, buf[n..][..k]);
    FeedTwice(w, buf[..n], buf[n..][..k]);
    PrefixJoin(buf, n, k);
    if r.1.Ok? {
      FeedTwice(w, buf[..n], buf[n..]);
      assert buf[..n] + buf[n..] == buf;
    }
  }

  lemma PrefixJoin<T>(s: seq<T>, n: nat, k: nat)
    requires n + k <= |s|
    ensures s[..n] + s[n..][..k] == s[..n + k]
  {
  }

  lemma FeedTwice(w: Writer, a: seq<byte>, b: seq<byte>)
    ensures Feed(Feed(w, a), b) == Feed(w, a + b)
  {
    UpdateAppend(w.reg, a, b);
    assert w.accepted + a + b == w.accepted + (a + b);
  }

  /** Feeding a valid writer keeps it valid. */
  lemma FeedKeepsValid(w: Writer, buf: seq<byte>)
    requires Valid(w)
    ensures Valid(Feed(w, buf))
  {
    UpdateAppend(INIT, w.accepted, buf);
  }
}
