/** Byte streams and the fixed-width big-endian encodings used by the image writers. */
module Bytes {

  type byte = bv8

  const TWO_32: nat := 0x1_0000_0000

  /**
   * The byte whose value is `x`, as `x as u8` gives for `x < 256`. It is built by counting up
   * so that its value follows by induction instead of from the solver's int-to-bit-vector
   * conversion.
   */
  function ByteOf(x: nat): byte
    requires x < 0x100
    decreases x
  {
    if x == 0 then 0 else ByteOf(x - 1) + 1
  }

  lemma {:induction false} ByteOfValue(x: nat)
    requires x < 0x100
    ensures ByteOf(x) as nat == x
    decreases x
  {
    if x > 0 {
      ByteOfValue(x - 1);
      Increment(ByteOf(x - 1));
    }
  }

  /** `ByteOf` names the byte with the given value. */
  lemma ByteOfIs(x: nat, b: byte)
    requires x < 0x100 && b as nat == x
    ensures ByteOf(x) == b
  {
    ByteOfValue(x);
  }

  /** The value of a byte, counted down so that it stays apart from bit-vector arithmetic. */
  function ValueOf(b: byte): nat
    decreases b
  {
    if b == 0 then 0 else ValueOf(b - 1) + 1
  }

  lemma {:induction false} ValueOfByteOf(x: nat)
    requires x < 0x100
    ensures ValueOf(ByteOf(x)) == x
    decreases x
  {
    if x > 0 {
      ValueOfByteOf(x - 1);
      ByteOfValue(x - 1);
      Decrement(ByteOf(x - 1));
    }
  }

  lemma Decrement(b: byte)
    requires b as nat < 0xFF
    ensures b + 1 != 0 && (b + 1) - 1 == b
  {
  }

  lemma Increment(b: byte)
    requires b as nat < 0xFF
    ensures (b + 1) as nat == b as nat + 1
  {
  }

  /** `n.to_be_bytes()` for an unsigned 32-bit value held as a natural number. */
  function NatU32BE(n: nat): (r: seq<byte>)
    requires n < TWO_32
    ensures |r| == 4
  {
    [ByteOf(n / 0x100_0000), ByteOf(n / 0x1_0000 % 0x100), ByteOf(n / 0x100 % 0x100), ByteOf(n % 0x100)]
  }

  /** The reader's side of `NatU32BE`. */
  function NatFromU32BE(b: seq<byte>): nat
    requires |b| == 4
  {
    ValueOf(b[0]) * 0x100_0000 + ValueOf(b[1]) * 0x1_0000 + ValueOf(b[2]) * 0x100 + ValueOf(b[3])
  }

  lemma NatU32RoundTrip(n: nat)
    requires n < TWO_32
    ensures NatFromU32BE(NatU32BE(n)) == n
  {
    ValueOfByteOf(n / 0x100_0000);
    ValueOfByteOf(n / 0x1_0000 % 0x100);
    ValueOfByteOf(n / 0x100 % 0x100);
    ValueOfByteOf(n % 0x100);
    Digits256(n);
  }

  lemma Digits256(n: nat)
    requires n < TWO_32
    ensures n == (n / 0x100_0000) * 0x100_0000 + (n / 0x1_0000 % 0x100) * 0x1_0000
      + (n / 0x100 % 0x100) * 0x100 + n % 0x100
  {
    var a := n / 0x100;
    var b := a / 0x100;
    var c := b / 0x100;
    assert n == a * 0x100 + n % 0x100;
    assert a == b * 0x100 + a % 0x100;
    assert b == c * 0x100 + b % 0x100;
    assert n == b * 0x1_0000 + (a % 0x100) * 0x100 + n % 0x100;
    assert n / 0x1_0000 == b;
    assert n == c * 0x100_0000 + (b % 0x100) * 0x1_0000 + (a % 0x100) * 0x100 + n % 0x100;
    assert n / 0x100_0000 == c;
  }

  /** `u32::to_be_bytes` of a bit-vector register. */
  function U32BE(v: bv32): (r: seq<byte>)
    ensures |r| == 4
  {
    [((v >> 24) & 0xFF) as byte, ((v >> 16) & 0xFF) as byte,
     ((v >> 8) & 0xFF) as byte, (v & 0xFF) as byte]
  }

  /** `u32::from_be_bytes`, the reader's side of `U32BE`. */
  function FromU32BE(b: seq<byte>): bv32
    requires |b| == 4
  {
    ((b[0] as bv32) << 24) | ((b[1] as bv32) << 16) | ((b[2] as bv32) << 8) | (b[3] as bv32)
  }

  lemma U32RoundTrip(v: bv32)
    ensures FromU32BE(U32BE(v)) == v
  {
  }

  lemma U32BEInjective(u: bv32, v: bv32)
    ensures U32BE(u) == U32BE(v) ==> u == v
  {
    if U32BE(u) == U32BE(v) {
      U32RoundTrip(u);
      U32RoundTrip(v);
    }
  }

  /** `u16::to_be_bytes`. */
  function U16BE(v: bv16): (r: seq<byte>)
    ensures |r| == 2
  {
    [((v >> 8) & 0xFF) as byte, (v & 0xFF) as byte]
  }

  function FromU16BE(b: seq<byte>): bv16
    requires |b| == 2
  {
    ((b[0] as bv16) << 8) | (b[1] as bv16)
  }

  lemma U16RoundTrip(v: bv16)
    ensures FromU16BE(U16BE(v)) == v
  {
  }

  predicate IsAscii(s: string) {
    forall i :: 0 <= i < |s| ==> (s[i] as int) < 128
  }

  /** The UTF-8 bytes of an ASCII string (one byte per character). */
  function Ascii(s: string): (r: seq<byte>)
    requires IsAscii(s)
    ensures |r| == |s|
    ensures forall i :: 0 <= i < |s| ==> r[i] == ByteOf(s[i] as int)
  {
    seq(|s|, i requires 0 <= i < |s| => ByteOf(s[i] as int))
  }

  lemma AsciiAppend(a: string, b: string)
    requires IsAscii(a) && IsAscii(b)
    ensures IsAscii(a + b) && Ascii(a + b) == Ascii(a) + Ascii(b)
  {
  }

  lemma AppendAssoc<T>(a: seq<T>, b: seq<T>, c: seq<T>)
    ensures a + b + c == a + (b + c)
  {
  }

  /** Concatenation of a sequence of byte strings. */
  function Concat(parts: seq<seq<byte>>): seq<byte>
  {
    if |parts| == 0 then [] else Concat(parts[..|parts| - 1]) + parts[|parts| - 1]
  }

  lemma {:induction false} ConcatAppend(a: seq<seq<byte>>, b: seq<seq<byte>>)
    ensures Concat(a + b) == Concat(a) + Concat(b)
    decreases |b|
  {
    if |b| == 0 {
      assert a + b == a;
    } else {
      var init, last := b[..|b| - 1], b[|b| - 1];
      assert (a + b)[..|a + b| - 1] == a + init && (a + b)[|a + b| - 1] == last;
      ConcatAppend(a, init);
      assert Concat(b) == Concat(init) + last;
      assert Concat(a) + Concat(init) + last == Concat(a) + (Concat(init) + last);
    }
  }
}
