/**
 * The binary PPM writer of `output/ppm.rs` (`PpmWriter`): a "P6" text header with width,
 * height and maximum sample value, then three bytes per pixel. The ditherer is outside the
 * model; pixels arrive already dithered to at most 8 significant bits.
 */
module Ppm {
  import opened Bytes
  import opened Wrappers
  import opened Decimal
  import PngSample

  /** What `PpmWriter::new` keeps: the image size and the largest sample value. */
  datatype Config = Config(width: nat, height: nat, max: nat)

  function Pow2(n: nat): (r: nat)
    ensures r >= 1
    decreases n
  {
    if n == 0 then 1 else 2 * Pow2(n - 1)
  }

  /** `PpmWriter::new`: panics (here `None`) above 8 bits; `max` is `(1 << bits) - 1`. */
  function New(width: nat, height: nat, bits: nat): (r: Option<Config>)
    ensures r.None? <==> bits > 8
    ensures r.Some? ==> r.value.width == width && r.value.height == height
    ensures r.Some? ==> r.value.max + 1 == Pow2(bits) && r.value.max < 256
  {
    if bits > 8 then None
    else
      PowBound(bits);
      Some(Config(width, height, Pow2(bits) - 1))
  }

  lemma PowBound(n: nat)
    requires n <= 8
    ensures Pow2(n) <= 256
  {
    PowMonotone(n, 8);
    assert Pow2(8) == 256;
  }

  lemma {:induction false} PowMonotone(m: nat, n: nat)
    requires m <= n
    ensures Pow2(m) <= Pow2(n)
    decreases n - m
  {
    if m < n {
      PowMonotone(m, n - 1);
    }
  }

  /** The maximum for every accepted depth: one bit more doubles the range of values. */
  lemma NewMax(width: nat, height: nat, bits: nat)
    requires bits <= 8
    ensures New(width, height, bits).Some?
    ensures New(width, height, bits).value.max
      == [0, 1, 3, 7, 15, 31, 63, 127, 255][bits]
  {
    PowersOfTwo(bits);
  }

  lemma PowersOfTwo(n: nat)
    requires n <= 8
    ensures Pow2(n) == [1, 2, 4, 8, 16, 32, 64, 128, 256][n]
  {
    if n == 0 {
    } else if n == 1 {
    } else if n == 2 {
    } else if n == 3 {
    } else if n == 4 {
    } else if n == 5 {
    } else if n == 6 {
    } else if n == 7 {
    } else {
      assert Pow2(8) == 256;
    }
  }

  // ---------------------------------------------------------------------------------------
  // The header

  /** `write!(dest, "P6\n{} {}\n{}\n", width, height, max)`. */
  function HeaderText(c: Config): string {
    "P6\n" + Format(c.width) + " " + Format(c.height) + "\n" + Format(c.max) + "\n"
  }

  /** Read a PPM header: the magic "P6", a newline, width, a space, height, max, each ending a line. */
  function ParseHeader(s: string): Option<(Config, string)> {
    if |s| < 3 || s[..3] != "P6\n" then None
    else
      var w :- ParseField(s[3..], ' ');
      var h :- ParseField(w.1, '\n');
      var m :- ParseField(h.1, '\n');
      Some((Config(w.0, h.0, m.0), m.1))
  }

  /** The header reads back as the configuration it was written from, whatever follows it. */
  lemma HeaderReadsBack(c: Config, rest: string)
    ensures ParseHeader(HeaderText(c) + rest) == Some((c, rest))
  {
    var fw, fh, fm := Format(c.width), Format(c.height), Format(c.max);
    var tail := fm + "\n" + rest;
    var afterW := fh + "\n" + tail;
    var s := HeaderText(c) + rest;
    assert s == "P6\n" + (fw + " " + afterW);
    assert s[..3] == "P6\n" && s[3..] == fw + " " + afterW;
    ParseFormatted(c.width, ' ', afterW);
    ParseFormatted(c.height, '\n', tail);
    ParseFormatted(c.max, '\n', rest);
  }

  /** The header is plain ASCII, so its bytes are its characters. */
  lemma HeaderIsAscii(c: Config)
    ensures IsAscii(HeaderText(c))
  {
    var s := HeaderText(c);
    forall i | 0 <= i < |s|
      ensures (s[i] as int) < 128
    {
      HeaderChar(c, i);
    }
  }

  lemma HeaderChar(c: Config, i: nat)
    requires i < |HeaderText(c)|
    ensures IsDigit(HeaderText(c)[i]) || HeaderText(c)[i] in "P6 \n"
  {
    var fw, fh, fm := Format(c.width), Format(c.height), Format(c.max);
    var s := HeaderText(c);
    if i < 3 {
      assert s[i] == "P6\n"[i];
    } else if i < 3 + |fw| {
      assert s[i] == fw[i - 3];
    } else if i == 3 + |fw| {
      assert s[i] == ' ';
    } else if i < 4 + |fw| + |fh| {
      assert s[i] == fh[i - 4 - |fw|];
    } else if i == 4 + |fw| + |fh| {
      assert s[i] == '\n';
    } else if i < 5 + |fw| + |fh| + |fm| {
      assert s[i] == fm[i - 5 - |fw| - |fh|];
    } else {
      assert s[i] == '\n';
    }
  }

  /** `write_header`: the ASCII bytes of the header text. */
  function HeaderBytes(c: Config): (r: seq<byte>)
    ensures |r| == |HeaderText(c)|
  {
    HeaderIsAscii(c);
    Ascii(HeaderText(c))
  }

  // ---------------------------------------------------------------------------------------
  // The pixels

  /** `p.0 as u8`: the low byte of a dithered sample. */
  function LowByte(v: bv16): byte {
    (v & 0xFF) as byte
  }

  /** The three bytes `write_pixels` writes for one pixel. */
  function PixelBytes(p: PngSample.Rgb): seq<byte> {
    [LowByte(p.r), LowByte(p.g), LowByte(p.b)]
  }

  /** `write_pixels`: every pixel in order, three bytes each. */
  function PixelsBytes(ps: seq<PngSample.Rgb>): (r: seq<byte>)
    ensures |r| == 3 * |ps|
    decreases |ps|
  {
    if |ps| == 0 then [] else PixelBytes(ps[0]) + PixelsBytes(ps[1..])
  }

  /** A reader of the pixel data: three bytes make one pixel, a short tail is dropped. */
  function ReadPixels(b: seq<byte>): seq<PngSample.Rgb>
    decreases |b|
  {
    if |b| < 3 then [] else [PngSample.Rgb(b[0] as bv16, b[1] as bv16, b[2] as bv16)] + ReadPixels(b[3..])
  }

  /** Samples of at most 8 bits survive the `as u8` cast. */
  predicate Narrow(ps: seq<PngSample.Rgb>) {
    forall i :: 0 <= i < |ps| ==> PngSample.PixelFits(ps[i], 8)
  }

  /** Reading the pixel bytes back gives the pixels, in order, when each sample fits a byte. */
  lemma {:induction false} PixelsReadBack(ps: seq<PngSample.Rgb>)
    requires Narrow(ps)
    ensures ReadPixels(PixelsBytes(ps)) == ps
    decreases |ps|
  {
    if |ps| > 0 {
      var p := ps[0];
      assert PngSample.PixelFits(p, 8);
      var head, tail := PixelBytes(p), PixelsBytes(ps[1..]);
      assert (head + tail)[3..] == tail;
      assert Narrow(ps[1..]) by {
        forall i | 0 <= i < |ps[1..]|
          ensures PngSample.PixelFits(ps[1..][i], 8)
        {
          assert ps[1..][i] == ps[i + 1];
        }
      }
      PixelsReadBack(ps[1..]);
      PixelReadsBack(p);
      assert [p] + ps[1..] == ps;
    }
  }

  lemma PixelReadsBack(p: PngSample.Rgb)
    requires PngSample.PixelFits(p, 8)
    ensures PngSample.Rgb(LowByte(p.r) as bv16, LowByte(p.g) as bv16, LowByte(p.b) as bv16) == p
  {
    PngSample.LowByte(p.r);
    PngSample.LowByte(p.g);
    PngSample.LowByte(p.b);
  }

  lemma {:induction false} PixelsAppend(a: seq<PngSample.Rgb>, b: seq<PngSample.Rgb>)
    ensures PixelsBytes(a + b) == PixelsBytes(a) + PixelsBytes(b)
    decreases |a|
  {
    if |a| == 0 {
      assert a + b == b;
    } else {
      assert (a + b)[0] == a[0] && (a + b)[1..] == a[1..] + b;
      PixelsAppend(a[1..], b);
      AppendAssoc(PixelBytes(a[0]), PixelsBytes(a[1..]), PixelsBytes(b));
    }
  }

  // ---------------------------------------------------------------------------------------
  // The writer between calls

  /** The configuration and everything written to the destination so far. */
  datatype Writer = Writer(config: Config, out: seq<byte>)

  function WriteHeader(w: Writer): (w': Writer)
    ensures w'.config == w.config && |w'.out| == |w.out| + |HeaderText(w.config)|
    ensures w'.out[..|w.out|] == w.out
  {
    Writer(w.config, w.out + HeaderBytes(w.config))
  }

  function WritePixels(w: Writer, ps: seq<PngSample.Rgb>): (w': Writer)
    ensures w'.config == w.config && |w'.out| == |w.out| + 3 * |ps|
    ensures w'.out[..|w.out|] == w.out && w'.out[|w.out|..] == PixelsBytes(ps)
  {
    Writer(w.config, w.out + PixelsBytes(ps))
  }

  /** `end`: only a flush, so nothing is added. */
  function End(w: Writer): (out: seq<byte>)
    ensures out == w.out
  {
    w.out
  }

  function Flatten(batches: seq<seq<PngSample.Rgb>>): seq<PngSample.Rgb>
    decreases |batches|
  {
    if |batches| == 0 then [] else batches[0] + Flatten(batches[1..])
  }

  function WriteAllPixels(w: Writer, batches: seq<seq<PngSample.Rgb>>): (w': Writer)
    ensures w'.config == w.config
    decreases |batches|
  {
    if |batches| == 0 then w else WriteAllPixels(WritePixels(w, batches[0]), batches[1..])
  }

  /** A run of `write_pixels` calls appends the pixels of all batches, in order. */
  lemma {:induction false} WriteAllPixelsOut(w: Writer, batches: seq<seq<PngSample.Rgb>>)
    ensures WriteAllPixels(w, batches).out == w.out + PixelsBytes(Flatten(batches))
    decreases |batches|
  {
    if |batches| == 0 {
      assert w.out + [] == w.out;
    } else {
      WriteAllPixelsOut(WritePixels(w, batches[0]), batches[1..]);
      PixelsAppend(batches[0], Flatten(batches[1..]));
      AppendAssoc(w.out, PixelsBytes(batches[0]), PixelsBytes(Flatten(batches[1..])));
    }
  }

  /**
   * A whole file — header, then any number of `write_pixels` calls, then `end` — is the
   * header's bytes followed by three bytes for every pixel, in the order they were handed over.
   */
  lemma FileLayout(c: Config, batches: seq<seq<PngSample.Rgb>>)
    ensures var file := End(WriteAllPixels(WriteHeader(Writer(c, [])), batches));
      file == HeaderBytes(c) + PixelsBytes(Flatten(batches))
      && |file| == |HeaderText(c)| + 3 * |Flatten(batches)|
  {
    var w := WriteHeader(Writer(c, []));
    assert w.out == HeaderBytes(c);
    WriteAllPixelsOut(w, batches);
  }
}
