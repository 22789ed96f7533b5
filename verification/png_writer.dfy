/**
 * The PNG image writer of `output/png/mod.rs` (`PngWriter`): the header chunks, then the
 * pixels — scaled, packed, passed through the scanline filter writer and the zlib encoder
 * into IDAT chunks — then IEND. The zlib encoder and the ditherer are outside the model:
 * the encoder enters as a parameter and the pixels arrive already dithered.
 */
module PngWriter {
  import opened Bytes
  import opened Wrappers
  import PngChunk
  import PngStream
  import PngSample
  import PngFilter

  /** The eight bytes every PNG datastream starts with (section 5.2 of the PNG Specification). */
  const SIGNATURE: seq<byte> := [0x89, 0x50, 0x4E, 0x47, 0x0D, 0x0A, 0x1A, 0x0A]

  /** The arguments of `PngWriter::new`; `bits` is the bit depth per sample before scaling. */
  datatype Config = Config(
    width: nat, height: nat, bits: nat,
    time: Option<PngChunk.Timestamp>, srgb: Option<PngChunk.Intent>)

  predicate ValidConfig(c: Config) {
    0 < c.bits <= 16
  }

  /** `PngWriter::new`: the assertion `bits > 0 && bits <= 16` is the only way it fails. */
  function New(width: nat, height: nat, bits: nat, time: Option<PngChunk.Timestamp>,
               srgb: Option<PngChunk.Intent>): (r: Option<Config>)
    ensures r.None? <==> bits == 0 || bits > 16
    ensures r.Some? ==> ValidConfig(r.value) && r.value == Config(width, height, bits, time, srgb)
  {
    if bits > 0 && bits <= 16 then Some(Config(width, height, bits, time, srgb)) else None
  }

  /** The scanline size given to the filter writer: three samples per pixel. */
  function ScanlineSize(c: Config): nat {
    if c.bits <= 8 then c.width * 3 else c.width * 6
  }

  /** `usize as u32`: keep the low 32 bits. */
  function TruncU32(n: nat): bv32 {
    (n % TWO_32) as bv32
  }

  /** The depth written to IHDR: 8 up to 8 bits per sample, 16 above. */
  function FileDepth(bits: nat): byte {
    if bits <= 8 then 8 else 16
  }

  /**
   * The gamma `write_header` puts in gAMA next to an sRGB chunk: 1/2.2 whatever the intent
   * (section 11.3.3.5 of the PNG Specification recommends 45455 after rounding; the writer's
   * truncating cast gives 45454, see `PngChunk.GammaOfSrgb`).
   */
  function SrgbGamma(intent: PngChunk.Intent): (g: real)
    ensures g * 2.2 == 1.0
  {
    1.0 / 2.2
  }

  /** The chunks `write_header` emits after the signature, in order. */
  function HeaderChunks(c: Config): seq<PngChunk.Chunk> {
    [PngChunk.Ihdr(TruncU32(c.width), TruncU32(c.height), FileDepth(c.bits))]
      + SbitPart(c) + TimePart(c) + SrgbPart(c)
  }

  /** sBIT carries the true depth unless it is already 8 or 16. */
  function SbitPart(c: Config): seq<PngChunk.Chunk> {
    if c.bits != 8 && c.bits != 16 then [PngChunk.Sbit((c.bits % 256) as byte)] else []
  }

  function TimePart(c: Config): seq<PngChunk.Chunk> {
    if c.time.Some? then [PngChunk.Time(c.time.value)] else []
  }

  /** gAMA comes before sRGB, as section 5.6 of the PNG Specification orders them. */
  function SrgbPart(c: Config): seq<PngChunk.Chunk> {
    if c.srgb.Some? then [PngChunk.Gama(SrgbGamma(c.srgb.value)), PngChunk.Srgb(c.srgb.value)] else []
  }

  /**
   * Whatever the rendering intent, the gAMA chunk written next to sRGB carries the four bytes
   * `00 00 B1 8E`, the big-endian 45454.
   */
  lemma SrgbGamaData(c: Config)
    requires c.srgb.Some?
    ensures SrgbPart(c)[0] == PngChunk.Gama(SrgbGamma(c.srgb.value))
    ensures PngChunk.Data(SrgbPart(c)[0]) == NatU32BE(45454) == [0x00, 0x00, 0xB1, 0x8E]
  {
    var g := SrgbPart(c)[0];
    PngChunk.GammaOfSrgb();
    assert PngChunk.DataPieces(g) == [NatU32BE(45454)];
    assert Concat([NatU32BE(45454)]) == NatU32BE(45454) by {
      assert [NatU32BE(45454)][..0] == [];
    }
    GammaBytes();
  }

  /** 45454 is `B1 8E` in its two low bytes. */
  lemma GammaBytes()
    ensures NatU32BE(45454) == [0x00, 0x00, 0xB1, 0x8E]
  {
    assert 45454 / 0x100_0000 == 0 && 45454 / 0x1_0000 % 0x100 == 0;
    assert 45454 / 0x100 % 0x100 == 0xB1 && 45454 % 0x100 == 0x8E;
    ByteOfIs(0, 0x00);
    ByteOfIs(0xB1, 0xB1);
    ByteOfIs(0x8E, 0x8E);
  }

  /** `write_header`: the signature, then the header chunks. */
  function HeaderBytes(c: Config): seq<byte> {
    SIGNATURE + PngStream.ChunksBytes(HeaderChunks(c))
  }

  /** The tags a reader must find in the header, in order. */
  function HeaderTags(c: Config): seq<seq<byte>> {
    [PngStream.IHDR]
      + (if c.bits != 8 && c.bits != 16 then [PngStream.SBIT] else [])
      + (if c.time.Some? then [PngStream.TIME] else [])
      + (if c.srgb.Some? then [PngStream.GAMA, PngStream.SRGB] else [])
  }

  /**
   * The header reads back as the signature, then IHDR carrying the truncated width and height
   * and depth 8 or 16, then sBIT unless the depth is 8 or 16, then tIME when a time is given,
   * then gAMA and sRGB when an intent is given.
   */
  lemma HeaderReadsBack(c: Config)
    ensures HeaderBytes(c)[..8] == SIGNATURE
    ensures PngStream.ParseChunks(HeaderBytes(c)[8..]) == Some(PngStream.Views(HeaderChunks(c)))
    ensures PngStream.Tags(PngStream.Views(HeaderChunks(c))) == HeaderTags(c)
    ensures PngChunk.ParseIhdr(PngStream.Views(HeaderChunks(c))[0].data)
            == Some((TruncU32(c.width), TruncU32(c.height), FileDepth(c.bits)))
  {
    var cs := HeaderChunks(c);
    assert HeaderBytes(c)[8..] == PngStream.ChunksBytes(cs);
    HeaderFit(c);
    PngStream.ParseChunksBytes(cs);
    HeaderViewTags(c);
    PngChunk.IhdrRoundTrip(TruncU32(c.width), TruncU32(c.height), FileDepth(c.bits));
  }

  lemma HeaderFit(c: Config)
    ensures PngStream.Fit(HeaderChunks(c))
  {
    var cs := HeaderChunks(c);
    forall i | 0 <= i < |cs|
      ensures |PngChunk.Data(cs[i])| < TWO_32
    {
      PngChunk.LenMatchesData(cs[i]);
    }
  }

  lemma HeaderViewTags(c: Config)
    ensures var cs := HeaderChunks(c);
      PngStream.Tags(PngStream.Views(cs)) == HeaderTags(c)
      && PngStream.Views(cs)[0].data == PngChunk.Data(cs[0])
  {
    PngStream.TagsOfViews(HeaderChunks(c));
    HeaderChunkTags(c);
  }

  lemma HeaderChunkTags(c: Config)
    ensures PngStream.ChunkTags(HeaderChunks(c)) == HeaderTags(c)
  {
    var ihdr := [PngChunk.Ihdr(TruncU32(c.width), TruncU32(c.height), FileDepth(c.bits))];
    var sbit, time, srgb := SbitPart(c), TimePart(c), SrgbPart(c);
    PngStream.ChunkTagsAppend(ihdr + sbit + time, srgb);
    PngStream.ChunkTagsAppend(ihdr + sbit, time);
    PngStream.ChunkTagsAppend(ihdr, sbit);
    TagOfOne(ihdr);
    PartTags(c);
  }

  lemma PartTags(c: Config)
    ensures PngStream.ChunkTags(SbitPart(c)) == if c.bits != 8 && c.bits != 16 then [PngStream.SBIT] else []
    ensures PngStream.ChunkTags(TimePart(c)) == if c.time.Some? then [PngStream.TIME] else []
    ensures PngStream.ChunkTags(SrgbPart(c)) == if c.srgb.Some? then [PngStream.GAMA, PngStream.SRGB] else []
  {
    if |SbitPart(c)| > 0 { TagOfOne(SbitPart(c)); }
    if |TimePart(c)| > 0 { TagOfOne(TimePart(c)); }
    var srgb := SrgbPart(c);
    if |srgb| > 0 {
      TagOfOne(srgb[1..]);
      assert PngStream.ChunkTags(srgb) == [PngChunk.Tag(srgb[0])] + PngStream.ChunkTags(srgb[1..]);
    }
  }

  lemma TagOfOne(cs: seq<PngChunk.Chunk>)
    requires |cs| == 1
    ensures PngStream.ChunkTags(cs) == [PngChunk.Tag(cs[0])]
  {
    assert PngStream.ChunkTags(cs) == [PngChunk.Tag(cs[0])] + PngStream.ChunkTags([]);
  }

  // ---------------------------------------------------------------------------------------
  // The writer between calls

  /**
   * The bytes already on the destination, and — once `write_pixels` has created the pixel
   * chain — the pixels handed to it so far. The buffered writer in front of the filter
   * writer only changes how the packed bytes are split into writes, which
   * `BufferingInvisible` shows does not matter.
   */
  datatype Writer = Writer(config: Config, out: seq<byte>, pixels: Option<seq<PngSample.Rgb>>)

  function Open(c: Config): Writer {
    Writer(c, [], None)
  }

  /**
   * `write_header`: appends the header to the destination. Once `write_pixels` has moved the
   * destination into the pixel chain there is none left to write to, and the call panics.
   */
  function WriteHeader(w: Writer): (w': Option<Writer>)
    ensures w'.None? <==> w.pixels.Some?
    ensures w'.Some? ==> w'.value.config == w.config && w'.value.pixels == w.pixels
    ensures w'.Some? ==> w'.value.out == w.out + HeaderBytes(w.config)
  {
    if w.pixels.Some? then None else Some(w.(out := w.out + HeaderBytes(w.config)))
  }

  /**
   * `write_pixels`: the first call creates the pixel chain; every call appends its pixels.
   * Packing is pixel by pixel, so packing each call's pixels as they come and packing them all
   * at the end give the same bytes (`PngSample.PackPixelsAppend`); the model packs at the end.
   */
  function WritePixels(w: Writer, ps: seq<PngSample.Rgb>): (w': Writer)
    ensures w'.config == w.config && w'.out == w.out && w'.pixels.Some?
    ensures Pending(w') == Pending(w) + ps
  {
    w.(pixels := Some(Pending(w) + ps))
  }

  /** The pixels the chain has received so far (none before it exists). */
  function Pending(w: Writer): seq<PngSample.Rgb> {
    if w.pixels.Some? then w.pixels.value else []
  }

  /** `write_pixels` once per batch of pixels. */
  function WriteAllPixels(w: Writer, batches: seq<seq<PngSample.Rgb>>): (w': Writer)
    ensures w'.config == w.config && w'.out == w.out
    decreases |batches|
  {
    if |batches| == 0 then w
    else WriteAllPixels(WritePixels(w, batches[0]), batches[1..])
  }

  function Flatten(batches: seq<seq<PngSample.Rgb>>): seq<PngSample.Rgb>
    decreases |batches|
  {
    if |batches| == 0 then [] else batches[0] + Flatten(batches[1..])
  }

  /**
   * Batches only matter through their concatenation: a run of `write_pixels` calls hands the
   * chain the pixels in order, and any call at all creates the chain.
   */
  lemma {:induction false} WriteAllPixelsShape(w: Writer, batches: seq<seq<PngSample.Rgb>>)
    ensures Pending(WriteAllPixels(w, batches)) == Pending(w) + Flatten(batches)
    ensures WriteAllPixels(w, batches).pixels.Some? <==> w.pixels.Some? || |batches| > 0
    decreases |batches|
  {
    if |batches| == 0 {
      assert Pending(w) + [] == Pending(w);
    } else {
      var w1 := WritePixels(w, batches[0]);
      WriteAllPixelsShape(w1, batches[1..]);
      assert Pending(w) + batches[0] + Flatten(batches[1..]) == Pending(w) + (batches[0] + Flatten(batches[1..]));
    }
  }

  // ---------------------------------------------------------------------------------------
  // Ending the file

  /**
   * What the filter writer hands the zlib encoder once `end` flushes the chain. A scanline
   * size of 0 (width 0) leaves it nothing to pass on only when no pixel bytes arrived.
   */
  function ZlibInput(c: Config, pixels: seq<PngSample.Rgb>): seq<byte>
    requires ValidConfig(c)
    requires ScanlineSize(c) > 0 || |pixels| == 0
  {
    if ScanlineSize(c) == 0 then []
    else PngFilter.WriteAll(PngFilter.Filter(ScanlineSize(c), 0), PngSample.PackPixels(pixels, c.bits)).0
  }

  /**
   * `end`: flush the pixel chain (filter writer, zlib encoder, IDAT writer) if it exists,
   * then write IEND. `deflate` stands for the zlib encoder: the pieces it hands the IDAT
   * writer for a given input. With width 0 and pixel bytes pending, the filter writer's
   * `% scanline_size` divides by zero and the call panics: `None`.
   */
  function End(w: Writer, deflate: seq<byte> -> seq<seq<byte>>): (r: Option<seq<byte>>)
    requires ValidConfig(w.config)
    ensures r.None? <==> w.pixels.Some? && ScanlineSize(w.config) == 0 && |w.pixels.value| > 0
    ensures r.Some? ==> |w.out| <= |r.value| && r.value[..|w.out|] == w.out
  {
    if w.pixels.Some? && ScanlineSize(w.config) == 0 && |w.pixels.value| > 0 then None
    else
      var idats := if w.pixels.Some? then PngStream.IdatChunks(deflate(ZlibInput(w.config, w.pixels.value))) else [];
      Some(w.out + PngStream.ChunksBytes(idats) + PngChunk.IEND_CHUNK)
  }

  /**
   * However the buffered writer splits the pixel bytes into writes, the filter writer hands
   * the encoder the same stream: two `write_all` calls equal one of the concatenation.
   */
  lemma BufferingInvisible(size: nat, a: seq<byte>, b: seq<byte>)
    requires size > 0
    ensures var first := PngFilter.WriteAll(PngFilter.Filter(size, 0), a);
      first.0 + PngFilter.WriteAll(first.1, b).0 == PngFilter.WriteAll(PngFilter.Filter(size, 0), a + b).0
  {
    var f := PngFilter.Filter(size, 0);
    var first := PngFilter.WriteAll(f, a);
    PngFilter.WriteAllIsReference(f, a);
    PngFilter.WriteAllIsReference(first.1, b);
    PngFilter.WriteAllIsReference(f, a + b);
    PngFilter.FilteredAppend(size, 0, a, b);
  }

  /**
   * A file whose pixels are whole rows of `width` pixels: the encoder's input is every row
   * packed, each with the filter-type byte 0 in front.
   */
  lemma ZlibInputIsScanlines(c: Config, rows: seq<seq<PngSample.Rgb>>)
    requires ValidConfig(c) && c.width > 0
    requires forall i :: 0 <= i < |rows| ==> |rows[i]| == c.width
    ensures ZlibInput(c, Flatten(rows)) == PngFilter.FramedRows(PackedRows(rows, c.bits))
  {
    var size := ScanlineSize(c);
    var packed := PackedRows(rows, c.bits);
    var bytes := PngSample.PackPixels(Flatten(rows), c.bits);
    PackedRowsFlatten(rows, c.bits);
    PngFilter.WriteAllIsReference(PngFilter.Filter(size, 0), bytes);
    PackedRowSizes(c, rows);
    PngFilter.FilteredRows(size, packed);
  }

  lemma PackedRowSizes(c: Config, rows: seq<seq<PngSample.Rgb>>)
    requires ValidConfig(c)
    requires forall i :: 0 <= i < |rows| ==> |rows[i]| == c.width
    ensures PngFilter.Scanlines(PackedRows(rows, c.bits), ScanlineSize(c))
  {
    forall k | 0 <= k < |rows|
      ensures |PackedRows(rows, c.bits)[k]| == ScanlineSize(c)
    {
      PackedRowAt(rows, c.bits, k);
      RowLength(rows[k], c);
    }
  }

  /** A row of `width` pixels packs to exactly one scanline. */
  lemma RowLength(row: seq<PngSample.Rgb>, c: Config)
    requires ValidConfig(c) && |row| == c.width
    ensures |PngSample.PackPixels(row, c.bits)| == ScanlineSize(c)
  {
    PngSample.PackPixelsLength(row, c.bits);
  }

  /** Each row packed on its own. */
  function PackedRows(rows: seq<seq<PngSample.Rgb>>, bits: nat): (r: seq<seq<byte>>)
    requires 1 <= bits <= 16
    ensures |r| == |rows|
    decreases |rows|
  {
    if |rows| == 0 then [] else [PngSample.PackPixels(rows[0], bits)] + PackedRows(rows[1..], bits)
  }

  lemma {:induction false} PackedRowAt(rows: seq<seq<PngSample.Rgb>>, bits: nat, k: nat)
    requires 1 <= bits <= 16 && k < |rows|
    ensures PackedRows(rows, bits)[k] == PngSample.PackPixels(rows[k], bits)
    decreases k
  {
    if k > 0 {
      PackedRowAt(rows[1..], bits, k - 1);
    }
  }

  lemma {:induction false} PackedRowsFlatten(rows: seq<seq<PngSample.Rgb>>, bits: nat)
    requires 1 <= bits <= 16
    ensures PngFilter.Rows(PackedRows(rows, bits)) == PngSample.PackPixels(Flatten(rows), bits)
    decreases |rows|
  {
    if |rows| > 0 {
      PackedRowsFlatten(rows[1..], bits);
      PngSample.PackPixelsAppend(rows[0], Flatten(rows[1..]), bits);
    }
  }

  /**
   * A complete file: signature, header chunks, one IDAT chunk per piece of the encoder's
   * output, whose data concatenate to that output, and IEND last.
   */
  lemma FileReadsBack(c: Config, batches: seq<seq<PngSample.Rgb>>, deflate: seq<byte> -> seq<seq<byte>>)
    requires ValidConfig(c) && |batches| > 0 && ScanlineSize(c) > 0
    requires forall s :: forall i :: 0 <= i < |deflate(s)| ==> |deflate(s)[i]| < TWO_32
    ensures WriteHeader(Open(c)).Some?
    ensures var w := WriteAllPixels(WriteHeader(Open(c)).value, batches);
      var pixels := Flatten(batches);
      var pieces := deflate(ZlibInput(c, pixels));
      var file := End(w, deflate);
      file.Some? && file.value[..8] == SIGNATURE
      && PngStream.ParseChunks(file.value[8..])
         == Some(PngStream.Views(HeaderChunks(c)) + PngStream.Views(PngStream.IdatChunks(pieces))
                 + [PngStream.View(PngStream.IEND, [])])
      && PngStream.IdatData(PngStream.Views(PngStream.IdatChunks(pieces))) == Concat(pieces)
  {
    var w0 := WriteHeader(Open(c)).value;
    assert w0.out == SIGNATURE + PngStream.ChunksBytes(HeaderChunks(c)) by {
      assert [] + HeaderBytes(c) == HeaderBytes(c);
    }
    HeaderFit(c);
    PixelsReadBack(w0, HeaderChunks(c), batches, deflate);
  }

  /** The same, from any writer whose destination holds the signature and some chunks. */
  lemma PixelsReadBack(w0: Writer, header: seq<PngChunk.Chunk>, batches: seq<seq<PngSample.Rgb>>,
                       deflate: seq<byte> -> seq<seq<byte>>)
    requires ValidConfig(w0.config) && |batches| > 0 && ScanlineSize(w0.config) > 0 && w0.pixels.None?
    requires w0.out == SIGNATURE + PngStream.ChunksBytes(header) && PngStream.Fit(header)
    requires forall s :: forall i :: 0 <= i < |deflate(s)| ==> |deflate(s)[i]| < TWO_32
    ensures var w := WriteAllPixels(w0, batches);
      var pixels := Flatten(batches);
      var pieces := deflate(ZlibInput(w0.config, pixels));
      var file := End(w, deflate);
      file.Some? && file.value[..8] == SIGNATURE
      && PngStream.ParseChunks(file.value[8..])
         == Some(PngStream.Views(header) + PngStream.Views(PngStream.IdatChunks(pieces))
                 + [PngStream.View(PngStream.IEND, [])])
      && PngStream.IdatData(PngStream.Views(PngStream.IdatChunks(pieces))) == Concat(pieces)
  {
    var w := WriteAllPixels(w0, batches);
    var pixels := Flatten(batches);
    WriteAllPixelsShape(w0, batches);
    assert [] + pixels == pixels;
    assert w.pixels == Some(pixels);
    var pieces := deflate(ZlibInput(w0.config, pixels));
    var idats := PngStream.IdatChunks(pieces);
    var hb, ib := PngStream.ChunksBytes(header), PngStream.ChunksBytes(idats);
    EndWithPixels(w, deflate);
    Reassociate(hb, ib);
    PngStream.IdatFit(pieces);
    ChunksRead(header, idats);
    PngStream.IdatViews(pieces);
  }

  lemma Reassociate(hb: seq<byte>, ib: seq<byte>)
    ensures (SIGNATURE + hb + ib + PngChunk.IEND_CHUNK)[..8] == SIGNATURE
    ensures (SIGNATURE + hb + ib + PngChunk.IEND_CHUNK)[8..] == hb + (ib + PngChunk.IEND_CHUNK)
  {
    assert SIGNATURE + hb + ib + PngChunk.IEND_CHUNK == SIGNATURE + (hb + (ib + PngChunk.IEND_CHUNK));
    AfterSignature(hb + (ib + PngChunk.IEND_CHUNK));
  }

  /** With the pixel chain in place, `end` appends the IDAT chunks of the encoder's output and IEND. */
  lemma EndWithPixels(w: Writer, deflate: seq<byte> -> seq<seq<byte>>)
    requires ValidConfig(w.config) && ScanlineSize(w.config) > 0 && w.pixels.Some?
    ensures End(w, deflate) == Some(w.out + PngStream.ChunksBytes(
      PngStream.IdatChunks(deflate(ZlibInput(w.config, w.pixels.value)))) + PngChunk.IEND_CHUNK)
  {
  }

  lemma AfterSignature(rest: seq<byte>)
    ensures (SIGNATURE + rest)[..8] == SIGNATURE && (SIGNATURE + rest)[8..] == rest
  {
  }

  /** Header chunks, IDAT chunks and IEND, written in a row, read back in that order. */
  lemma ChunksRead(header: seq<PngChunk.Chunk>, idats: seq<PngChunk.Chunk>)
    requires PngStream.Fit(header) && PngStream.Fit(idats)
    ensures PngStream.ParseChunks(PngStream.ChunksBytes(header) + (PngStream.ChunksBytes(idats) + PngChunk.IEND_CHUNK))
            == Some(PngStream.Views(header) + PngStream.Views(idats) + [PngStream.View(PngStream.IEND, [])])
  {
    var ve := [PngStream.View(PngStream.IEND, [])];
    var vh, vi := PngStream.Views(header), PngStream.Views(idats);
    PngStream.IendReadsBack();
    PngStream.ParseChunksThen(idats, PngChunk.IEND_CHUNK, ve);
    PngStream.ParseChunksThen(header, PngStream.ChunksBytes(idats) + PngChunk.IEND_CHUNK, vi + ve);
    assert vh + (vi + ve) == vh + vi + ve;
  }

  /** Without any `write_pixels` call, `end` writes only the twelve bytes of IEND. */
  lemma EndWithoutPixels(w: Writer, deflate: seq<byte> -> seq<seq<byte>>)
    requires ValidConfig(w.config) && w.pixels.None?
    ensures End(w, deflate) == Some(w.out + PngChunk.IEND_CHUNK)
  {
    assert PngStream.ChunksBytes([]) == [];
  }
}
