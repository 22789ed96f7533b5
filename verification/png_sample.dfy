/**
 * Sample scaling and pixel packing of `write_pixels` in `output/png/mod.rs`: each dithered
 * sample is shifted to the top of 8 or 16 bits and its bits are replicated downwards
 * (left-bit replication, section 12.5 of the PNG Specification), then stored as one byte or as
 * two big-endian bytes.
 */
module PngSample {
  import opened Bytes

  /** Bytes per sample in the file: one up to depth 8, two above. */
  function SampleBytes(bits: nat): nat {
    if bits <= 8 then 1 else 2
  }

  /** A bit count up to 16 as a shift amount. */
  function Sh(n: nat): bv16
    requires n <= 16
  {
    if n == 0 then 0 else if n == 1 then 1 else if n == 2 then 2 else if n == 3 then 3 else if n == 4 then 4 else if n == 5 then 5 else if n == 6 then 6 else if n == 7 then 7 else if n == 8 then 8 else if n == 9 then 9 else if n == 10 then 10 else if n == 11 then 11 else if n == 12 then 12 else if n == 13 then 13 else if n == 14 then 14 else if n == 15 then 15 else 16
  }

  /** Bits written per sample: 8 up to depth 8, else 16 (as a count and as a shift amount). */
  function Written(bits: nat): nat {
    if bits > 8 then 16 else 8
  }

  function WrittenBv(bits: nat): bv16 {
    if bits > 8 then 16 else 8
  }

  /** The left shift `written_bits - bits` that moves the sample to the top. */
  function Lift(bits: nat): bv16
    requires 1 <= bits <= 16
  {
    WrittenBv(bits) - Sh(bits)
  }

  /** The replication loop: while `written > bits`, OR in the value shifted right by `bits`. */
  function Replicate(p: bv16, written: nat, bits: nat): bv16
    requires 1 <= bits <= 16
    decreases written
  {
    if written > bits then Replicate(p | (p >> Sh(bits)), written - bits, bits) else p
  }

  /** One channel of `write_pixels` before packing. */
  function Scale(s: bv16, bits: nat): bv16
    requires 1 <= bits <= 16
  {
    Replicate(s << Lift(bits), Written(bits), bits)
  }

  /** The sample uses only its low `bits` bits (what the ditherer hands over). */
  predicate Fits(s: bv16, bits: nat)
    requires bits <= 16
  {
    s >> Sh(bits) == 0
  }

  /** The largest `bits`-bit sample, `2^bits - 1`. */
  function Max(bits: nat): bv16
    requires bits <= 16
  {
    0xFFFF >> Sh(16 - bits)
  }

  /** One pass of the loop keeps the value inside `w` bits and its top `b` bits unchanged. */
  lemma StepKeepsTop(p: bv16, w: bv16, b: bv16)
    requires 1 <= b <= w && (w == 8 || w == 16)
    requires p >> w == 0
    ensures (p | (p >> b)) >> w == 0
    ensures (p | (p >> b)) >> (w - b) == p >> (w - b)
  {
  }

  /** Replication never disturbs the top `bits` bits and never spills past the written width. */
  lemma {:induction false} ReplicateKeepsTop(p: bv16, written: nat, w: bv16, bits: nat)
    requires 1 <= bits <= 16 && 1 <= Sh(bits) <= w && (w == 8 || w == 16)
    requires p >> w == 0
    ensures Replicate(p, written, bits) >> w == 0
    ensures Replicate(p, written, bits) >> (w - Sh(bits)) == p >> (w - Sh(bits))
    decreases written
  {
    if written > bits {
      StepKeepsTop(p, w, Sh(bits));
      ReplicateKeepsTop(p | (p >> Sh(bits)), written - bits, w, bits);
    }
  }

  /** Shifting a `b`-bit sample to the top of `w` bits loses nothing. */
  lemma ShiftUp(s: bv16, w: bv16, b: bv16)
    requires 1 <= b <= w && (w == 8 || w == 16) && s >> b == 0
    ensures (s << (w - b)) >> w == 0 && (s << (w - b)) >> (w - b) == s
  {
  }

  /** At depth `bits`, every sample's scaled value keeps the sample in its top bits. */
  ghost predicate Recovers(bits: nat)
    requires 1 <= bits <= 16
  {
    forall s :: Fits(s, bits) ==> Scale(s, bits) >> Lift(bits) == s && Scale(s, bits) >> WrittenBv(bits) == 0
  }

  // One lemma per depth: with the depth fixed every shift amount is a constant.

  lemma RecoversAt1()
    ensures Recovers(1)
  {
    forall s: bv16 | Fits(s, 1) ensures Scale(s, 1) >> 7 == s && Scale(s, 1) >> 8 == 0 {
      ShiftUp(s, 8, 1);
      ReplicateKeepsTop(s << 7, 8, 8, 1);
    }
  }

  lemma RecoversAt2()
    ensures Recovers(2)
  {
    forall s: bv16 | Fits(s, 2) ensures Scale(s, 2) >> 6 == s && Scale(s, 2) >> 8 == 0 {
      ShiftUp(s, 8, 2);
      ReplicateKeepsTop(s << 6, 8, 8, 2);
    }
  }

  lemma RecoversAt3()
    ensures Recovers(3)
  {
    forall s: bv16 | Fits(s, 3) ensures Scale(s, 3) >> 5 == s && Scale(s, 3) >> 8 == 0 {
      ShiftUp(s, 8, 3);
      ReplicateKeepsTop(s << 5, 8, 8, 3);
    }
  }

  lemma RecoversAt4()
    ensures Recovers(4)
  {
    forall s: bv16 | Fits(s, 4) ensures Scale(s, 4) >> 4 == s && Scale(s, 4) >> 8 == 0 {
      ShiftUp(s, 8, 4);
      ReplicateKeepsTop(s << 4, 8, 8, 4);
    }
  }

  lemma RecoversAt5()
    ensures Recovers(5)
  {
    forall s: bv16 | Fits(s, 5) ensures Scale(s, 5) >> 3 == s && Scale(s, 5) >> 8 == 0 {
      ShiftUp(s, 8, 5);
      ReplicateKeepsTop(s << 3, 8, 8, 5);
    }
  }

  lemma RecoversAt6()
    ensures Recovers(6)
  {
    forall s: bv16 | Fits(s, 6) ensures Scale(s, 6) >> 2 == s && Scale(s, 6) >> 8 == 0 {
      ShiftUp(s, 8, 6);
      ReplicateKeepsTop(s << 2, 8, 8, 6);
    }
  }

  lemma RecoversAt7()
    ensures Recovers(7)
  {
    forall s: bv16 | Fits(s, 7) ensures Scale(s, 7) >> 1 == s && Scale(s, 7) >> 8 == 0 {
      ShiftUp(s, 8, 7);
      ReplicateKeepsTop(s << 1, 8, 8, 7);
    }
  }

  lemma RecoversAt8()
    ensures Recovers(8)
  {
    forall s: bv16 | Fits(s, 8) ensures Scale(s, 8) >> 0 == s && Scale(s, 8) >> 8 == 0 {
      ShiftUp(s, 8, 8);
      ReplicateKeepsTop(s << 0, 8, 8, 8);
    }
  }

  lemma RecoversAt9()
    ensures Recovers(9)
  {
    forall s: bv16 | Fits(s, 9) ensures Scale(s, 9) >> 7 == s && Scale(s, 9) >> 16 == 0 {
      ShiftUp(s, 16, 9);
      ReplicateKeepsTop(s << 7, 16, 16, 9);
    }
  }

  lemma RecoversAt10()
    ensures Recovers(10)
  {
    forall s: bv16 | Fits(s, 10) ensures Scale(s, 10) >> 6 == s && Scale(s, 10) >> 16 == 0 {
      ShiftUp(s, 16, 10);
      ReplicateKeepsTop(s << 6, 16, 16, 10);
    }
  }

  lemma RecoversAt11()
    ensures Recovers(11)
  {
    forall s: bv16 | Fits(s, 11) ensures Scale(s, 11) >> 5 == s && Scale(s, 11) >> 16 == 0 {
      ShiftUp(s, 16, 11);
      ReplicateKeepsTop(s << 5, 16, 16, 11);
    }
  }

  lemma RecoversAt12()
    ensures Recovers(12)
  {
    forall s: bv16 | Fits(s, 12) ensures Scale(s, 12) >> 4 == s && Scale(s, 12) >> 16 == 0 {
      ShiftUp(s, 16, 12);
      ReplicateKeepsTop(s << 4, 16, 16, 12);
    }
  }

  lemma RecoversAt13()
    ensures Recovers(13)
  {
    forall s: bv16 | Fits(s, 13) ensures Scale(s, 13) >> 3 == s && Scale(s, 13) >> 16 == 0 {
      ShiftUp(s, 16, 13);
      ReplicateKeepsTop(s << 3, 16, 16, 13);
    }
  }

  lemma RecoversAt14()
    ensures Recovers(14)
  {
    forall s: bv16 | Fits(s, 14) ensures Scale(s, 14) >> 2 == s && Scale(s, 14) >> 16 == 0 {
      ShiftUp(s, 16, 14);
      ReplicateKeepsTop(s << 2, 16, 16, 14);
    }
  }

  lemma RecoversAt15()
    ensures Recovers(15)
  {
    forall s: bv16 | Fits(s, 15) ensures Scale(s, 15) >> 1 == s && Scale(s, 15) >> 16 == 0 {
      ShiftUp(s, 16, 15);
      ReplicateKeepsTop(s << 1, 16, 16, 15);
    }
  }

  lemma RecoversAt16()
    ensures Recovers(16)
  {
    forall s: bv16 | Fits(s, 16) ensures Scale(s, 16) >> 0 == s && Scale(s, 16) >> 16 == 0 {
      ShiftUp(s, 16, 16);
      ReplicateKeepsTop(s << 0, 16, 16, 16);
    }
  }

  lemma RecoversAll(bits: nat)
    requires 1 <= bits <= 16
    ensures Recovers(bits)
  {
    if bits == 1 {
      RecoversAt1();
    } else if bits == 2 {
      RecoversAt2();
    } else if bits == 3 {
      RecoversAt3();
    } else if bits == 4 {
      RecoversAt4();
    } else if bits == 5 {
      RecoversAt5();
    } else if bits == 6 {
      RecoversAt6();
    } else if bits == 7 {
      RecoversAt7();
    } else if bits == 8 {
      RecoversAt8();
    } else if bits == 9 {
      RecoversAt9();
    } else if bits == 10 {
      RecoversAt10();
    } else if bits == 11 {
      RecoversAt11();
    } else if bits == 12 {
      RecoversAt12();
    } else if bits == 13 {
      RecoversAt13();
    } else if bits == 14 {
      RecoversAt14();
    } else if bits == 15 {
      RecoversAt15();
    } else {
      RecoversAt16();
    }
  }

  /**
   * The scaled sample fits the written width, and its top `bits` bits are the sample: a
   * reader shifting right by `written - bits` gets the sample back.
   */
  lemma ScaleRecovers(s: bv16, bits: nat)
    requires 1 <= bits <= 16 && Fits(s, bits)
    ensures Scale(s, bits) >> Lift(bits) == s
    ensures Scale(s, bits) >> WrittenBv(bits) == 0
  {
    RecoversAll(bits);
  }

  lemma {:induction false} ZeroStays(written: nat, bits: nat)
    requires 1 <= bits <= 16
    ensures Replicate(0, written, bits) == 0
    decreases written
  {
    if written > bits {
      ZeroStays(written - bits, bits);
    }
  }

  /** Black stays black. */
  lemma ScaleZero(bits: nat)
    requires 1 <= bits <= 16
    ensures Scale(0, bits) == 0
  {
    ZeroStays(Written(bits), bits);
  }

  /** At depths 8 and 16 scaling changes nothing. */
  lemma ScaleFullDepth(s: bv16)
    ensures Scale(s, 8) == s && Scale(s, 16) == s
  {
  }

  /** The largest sample becomes all ones in the written width, for every depth. */
  lemma ScaleMax(bits: nat)
    requires 1 <= bits <= 16
    ensures Scale(Max(bits), bits) == Max(Written(bits))
  {
    if bits <= 4 {
      ScaleMaxFrom1(bits);
    } else if bits <= 8 {
      ScaleMaxFrom5(bits);
    } else if bits <= 12 {
      ScaleMaxFrom9(bits);
    } else {
      ScaleMaxFrom13(bits);
    }
  }

  // Each depth unrolled: the shift amounts become constants.
  lemma ScaleMaxFrom1(bits: nat)
    requires 1 <= bits <= 4
    ensures Scale(Max(bits), bits) == Max(Written(bits))
  {
    if bits == 1 {
      assert Scale(0x1, 1) == Replicate(0x80, 8, 1) == Replicate(0xc0, 7, 1) == Replicate(0xe0, 6, 1)
        == Replicate(0xf0, 5, 1) == Replicate(0xf8, 4, 1) == Replicate(0xfc, 3, 1)
        == Replicate(0xfe, 2, 1) == Replicate(0xff, 1, 1) == 0xff;
    } else if bits == 2 {
      assert Scale(0x3, 2) == Replicate(0xc0, 8, 2) == Replicate(0xf0, 6, 2) == Replicate(0xfc, 4, 2)
        == Replicate(0xff, 2, 2) == 0xff;
    } else if bits == 3 {
      assert Scale(0x7, 3) == Replicate(0xe0, 8, 3) == Replicate(0xfc, 5, 3) == Replicate(0xff, 2, 3) == 0xff;
    } else {
      assert Scale(0xf, 4) == Replicate(0xf0, 8, 4) == Replicate(0xff, 4, 4) == 0xff;
    }
  }

  lemma ScaleMaxFrom5(bits: nat)
    requires 5 <= bits <= 8
    ensures Scale(Max(bits), bits) == Max(Written(bits))
  {
    if bits == 5 {
      assert Scale(0x1f, 5) == Replicate(0xf8, 8, 5) == Replicate(0xff, 3, 5) == 0xff;
    } else if bits == 6 {
      assert Scale(0x3f, 6) == Replicate(0xfc, 8, 6) == Replicate(0xff, 2, 6) == 0xff;
    } else if bits == 7 {
      assert Scale(0x7f, 7) == Replicate(0xfe, 8, 7) == Replicate(0xff, 1, 7) == 0xff;
    } else {
      assert Scale(0xff, 8) == Replicate(0xff, 8, 8) == 0xff;
    }
  }

  lemma ScaleMaxFrom9(bits: nat)
    requires 9 <= bits <= 12
    ensures Scale(Max(bits), bits) == Max(Written(bits))
  {
    if bits == 9 {
      assert Scale(0x1ff, 9) == Replicate(0xff80, 16, 9) == Replicate(0xffff, 7, 9) == 0xffff;
    } else if bits == 10 {
      assert Scale(0x3ff, 10) == Replicate(0xffc0, 16, 10) == Replicate(0xffff, 6, 10) == 0xffff;
    } else if bits == 11 {
      assert Scale(0x7ff, 11) == Replicate(0xffe0, 16, 11) == Replicate(0xffff, 5, 11) == 0xffff;
    } else {
      assert Scale(0xfff, 12) == Replicate(0xfff0, 16, 12) == Replicate(0xffff, 4, 12) == 0xffff;
    }
  }

  lemma ScaleMaxFrom13(bits: nat)
    requires 13 <= bits <= 16
    ensures Scale(Max(bits), bits) == Max(Written(bits))
  {
    if bits == 13 {
      assert Scale(0x1fff, 13) == Replicate(0xfff8, 16, 13) == Replicate(0xffff, 3, 13) == 0xffff;
    } else if bits == 14 {
      assert Scale(0x3fff, 14) == Replicate(0xfffc, 16, 14) == Replicate(0xffff, 2, 14) == 0xffff;
    } else if bits == 15 {
      assert Scale(0x7fff, 15) == Replicate(0xfffe, 16, 15) == Replicate(0xffff, 1, 15) == 0xffff;
    } else {
      assert Scale(0xffff, 16) == Replicate(0xffff, 16, 16) == 0xffff;
    }
  }

  /** A dithered pixel: three samples of `bits` significant bits each. */
  datatype Rgb = Rgb(r: bv16, g: bv16, b: bv16)

  predicate PixelFits(p: Rgb, bits: nat)
    requires bits <= 16
  {
    Fits(p.r, bits) && Fits(p.g, bits) && Fits(p.b, bits)
  }

  /** The bytes of one sample: the low byte up to depth 8 (`as u8`), else big-endian. */
  function SampleOut(v: bv16, bits: nat): seq<byte> {
    if bits <= 8 then [(v & 0xFF) as byte] else U16BE(v)
  }

  /** The packing step of `write_pixels` for one pixel. */
  function PackPixel(p: Rgb, bits: nat): (out: seq<byte>)
    requires 1 <= bits <= 16
    ensures |out| == 3 * SampleBytes(bits)
  {
    SampleOut(Scale(p.r, bits), bits) + SampleOut(Scale(p.g, bits), bits) + SampleOut(Scale(p.b, bits), bits)
  }

  /** The stored value of one packed sample, as a reader decodes it. */
  function Stored(b: seq<byte>, bits: nat): bv16
    requires |b| == SampleBytes(bits)
  {
    if bits <= 8 then b[0] as bv16 else FromU16BE(b)
  }

  /** Storing a value that fits the written width and decoding it gives the value back. */
  lemma StoredValue(v: bv16, bits: nat)
    requires v >> WrittenBv(bits) == 0
    ensures |SampleOut(v, bits)| == SampleBytes(bits)
    ensures Stored(SampleOut(v, bits), bits) == v
  {
    if bits <= 8 {
      LowByte(v);
    } else {
      U16RoundTrip(v);
    }
  }

  lemma LowByte(v: bv16)
    requires v >> 8 == 0
    ensures ((v & 0xFF) as byte) as bv16 == v
  {
  }

  /**
   * Every sample of a packed pixel decodes to the scaled sample, whose top bits are the
   * dithered sample (`ScaleRecovers`).
   */
  lemma PackPixelReads(p: Rgb, bits: nat)
    requires 1 <= bits <= 16 && PixelFits(p, bits)
    ensures var out := PackPixel(p, bits); var k := SampleBytes(bits);
      Stored(out[..k], bits) == Scale(p.r, bits) && Stored(out[k..2 * k], bits) == Scale(p.g, bits)
      && Stored(out[2 * k..], bits) == Scale(p.b, bits)
  {
    ScaleRecovers(p.r, bits);
    ScaleRecovers(p.g, bits);
    ScaleRecovers(p.b, bits);
    StoredValue(Scale(p.r, bits), bits);
    StoredValue(Scale(p.g, bits), bits);
    StoredValue(Scale(p.b, bits), bits);
    var out := PackPixel(p, bits);
    var k := SampleBytes(bits);
    assert out[..k] == SampleOut(Scale(p.r, bits), bits);
    assert out[k..2 * k] == SampleOut(Scale(p.g, bits), bits);
    assert out[2 * k..] == SampleOut(Scale(p.b, bits), bits);
  }

  /** The bytes `write_pixels` hands to the filter writer for a run of pixels. */
  function PackPixels(ps: seq<Rgb>, bits: nat): seq<byte>
    requires 1 <= bits <= 16
    decreases |ps|
  {
    if |ps| == 0 then [] else PackPixel(ps[0], bits) + PackPixels(ps[1..], bits)
  }

  /** Every pixel takes three samples of one or two bytes. */
  lemma {:induction false} PackPixelsLength(ps: seq<Rgb>, bits: nat)
    requires 1 <= bits <= 16
    ensures |PackPixels(ps, bits)| == |ps| * (3 * SampleBytes(bits))
    decreases |ps|
  {
    if |ps| > 0 {
      PackPixelsLength(ps[1..], bits);
    }
  }

  lemma {:induction false} PackPixelsAppend(a: seq<Rgb>, b: seq<Rgb>, bits: nat)
    requires 1 <= bits <= 16
    ensures PackPixels(a + b, bits) == PackPixels(a, bits) + PackPixels(b, bits)
    decreases |a|
  {
    if |a| == 0 {
      assert a + b == b;
    } else {
      assert (a + b)[1..] == a[1..] + b;
      PackPixelsAppend(a[1..], b, bits);
    }
  }

  /** Pixel `i` occupies bytes `[i*n, (i+1)*n)` of the packed run, `n` bytes per pixel. */
  lemma {:induction false} PackPixelsAt(ps: seq<Rgb>, bits: nat, i: nat, n: nat)
    requires 1 <= bits <= 16 && i < |ps| && n == 3 * SampleBytes(bits)
    ensures (i + 1) * n <= |PackPixels(ps, bits)|
    ensures PackPixels(ps, bits)[i * n..(i + 1) * n] == PackPixel(ps[i], bits)
    decreases i
  {
    var a := PackPixel(ps[0], bits);
    var rest := PackPixels(ps[1..], bits);
    assert PackPixels(ps, bits) == a + rest;
    MulSucc(i, n);
    if i > 0 {
      PackPixelsAt(ps[1..], bits, i - 1, n);
      MulSucc(i - 1, n);
      SliceAfter(a, rest, (i - 1) * n, i * n);
    }
  }

  lemma MulSucc(i: nat, n: nat)
    ensures (i + 1) * n == i * n + n
  {
  }

  lemma SliceAfter(a: seq<byte>, b: seq<byte>, lo: nat, hi: nat)
    requires lo <= hi <= |b|
    ensures (a + b)[|a| + lo..|a| + hi] == b[lo..hi]
  {
  }
}
