/**
 * PNG chunks as `output/png/chunk.rs` writes them: a big-endian length, a four-letter type
 * code, the data, and the CRC-32 of type code and data (section 5.3 of the PNG Specification).
 * Text fields are held as the UTF-8 bytes `as_bytes` yields.
 */
module PngChunk {
  import opened Bytes
  import opened Wrappers
  import Crc32

  /** The rendering intents of the `sRGB` chunk (section 11.3.3.5 of the PNG Specification). */
  datatype Intent = Perceptual | RelativeColorimetric | Saturation | AbsoluteColorimetric

  function IntentCode(i: Intent): (b: byte)
    ensures b as int < 4
  {
    match i
    case Perceptual => 0
    case RelativeColorimetric => 1
    case Saturation => 2
    case AbsoluteColorimetric => 3
  }

  datatype TextData = Uncompressed(text: seq<byte>) | Compressed(bytes: seq<byte>)

  /** A `tIME` value already converted to UTC; the year is the calendar year before truncation. */
  datatype Timestamp = Timestamp(year: int, month: byte, day: byte, hour: byte, minute: byte, second: byte)

  datatype Chunk =
    | Ihdr(width: bv32, height: bv32, bitDepth: byte)
    | Idat(data: seq<byte>)
    | Iend
    | Sbit(bits: byte)
    | Gama(gamma: real)
    | Srgb(intent: Intent)
    | Itxt(keyword: seq<byte>, language: Option<seq<byte>>, translated: Option<seq<byte>>, text: TextData)
    | Time(time: Timestamp)

  /** The four-letter type code. */
  function Tag(c: Chunk): (t: seq<byte>)
    ensures |t| == 4
  {
    match c
    case Ihdr(_, _, _) => [0x49, 0x48, 0x44, 0x52]
    case Idat(_) => [0x49, 0x44, 0x41, 0x54]
    case Iend => [0x49, 0x45, 0x4E, 0x44]
    case Sbit(_) => [0x73, 0x42, 0x49, 0x54]
    case Gama(_) => [0x67, 0x41, 0x4D, 0x41]
    case Srgb(_) => [0x73, 0x52, 0x47, 0x42]
    case Itxt(_, _, _, _) => [0x69, 0x54, 0x58, 0x74]
    case Time(_) => [0x74, 0x49, 0x4D, 0x45]
  }

  /** Every tag is the ASCII spelling of its chunk's name, with the case bits of the name. */
  lemma TagNames(c: Chunk)
    ensures c.Ihdr? ==> Tag(c) == Ascii("IHDR")
    ensures c.Idat? ==> Tag(c) == Ascii("IDAT")
    ensures c.Iend? ==> Tag(c) == Ascii("IEND")
    ensures c.Sbit? ==> Tag(c) == Ascii("sBIT")
    ensures c.Gama? ==> Tag(c) == Ascii("gAMA")
    ensures c.Srgb? ==> Tag(c) == Ascii("sRGB")
    ensures c.Itxt? ==> Tag(c) == Ascii("iTXt")
    ensures c.Time? ==> Tag(c) == Ascii("tIME")
  {
    match c
    case Ihdr(_, _, _) => SpellsName("IHDR", Tag(c));
    case Idat(_) => SpellsName("IDAT", Tag(c));
    case Iend => SpellsName("IEND", Tag(c));
    case Sbit(_) => SpellsName("sBIT", Tag(c));
    case Gama(_) => SpellsName("gAMA", Tag(c));
    case Srgb(_) => SpellsName("sRGB", Tag(c));
    case Itxt(_, _, _, _) => SpellsName("iTXt", Tag(c));
    case Time(_) => SpellsName("tIME", Tag(c));
  }

  /** Four bytes with the code points of a four-letter ASCII name are its encoding. */
  lemma SpellsName(name: string, code: seq<byte>)
    requires |name| == 4 && |code| == 4
    requires forall i :: 0 <= i < 4 ==> name[i] as int == code[i] as int < 0x80
    ensures IsAscii(name) && Ascii(name) == code
  {
    forall i | 0 <= i < 4 ensures ByteOf(name[i] as int) == code[i] {
      ByteOfIs(name[i] as int, code[i]);
    }
  }

  function OptLen(s: Option<seq<byte>>): nat {
    if s.Some? then |s.value| else 0
  }

  function OptBytes(s: Option<seq<byte>>): seq<byte> {
    if s.Some? then s.value else []
  }

  function TextBytes(t: TextData): seq<byte> {
    match t
    case Uncompressed(s) => s
    case Compressed(v) => v
  }

  /** The data length the chunk announces, computed per kind without building the data. */
  function Len(c: Chunk): nat {
    match c
    case Ihdr(_, _, _) => 13
    case Idat(data) => |data|
    case Iend => 0
    case Sbit(_) => 3
    case Gama(_) => 4
    case Srgb(_) => 1
    case Itxt(keyword, language, translated, text) =>
      |keyword| + 1 + 1 + 1 + OptLen(language) + 1 + OptLen(translated) + 1
        + (match text case Uncompressed(s) => |s| case Compressed(v) => |v|)
    case Time(_) => 7
  }

  /** `(gamma * 100_000.0) as u32`: Rust's float-to-int cast truncates toward zero and saturates. */
  function GammaInt(gamma: real): (n: nat)
    ensures n < TWO_32
    ensures var x := gamma * 100_000.0; 0.0 <= x < (TWO_32 - 1) as real ==> n as real <= x < n as real + 1.0
  {
    var x := gamma * 100_000.0;
    if x <= 0.0 then 0
    else if x >= (TWO_32 - 1) as real then TWO_32 - 1
    else x.Floor
  }

  /** `year as u16` on the signed year: keep the low sixteen bits. */
  function YearU16(year: int): (n: nat)
    ensures n < 0x1_0000
  {
    year % 0x1_0000
  }

  /** The data of the chunk, as the separate `write_all` calls of `write_to` deliver it. */
  function DataPieces(c: Chunk): seq<seq<byte>> {
    match c
    case Ihdr(width, height, bitDepth) =>
      [U32BE(width), U32BE(height), [bitDepth, 2, 0, 0, 0]]
    case Idat(data) => [data]
    case Iend => []
    case Sbit(bits) => [[bits, bits, bits]]
    case Gama(gamma) => [NatU32BE(GammaInt(gamma))]
    case Srgb(intent) => [[IntentCode(intent)]]
    case Itxt(keyword, language, translated, text) =>
      [keyword, [0, if text.Compressed? then 1 else 0, 0]]
        + (if language.Some? then [language.value] else [])
        + [[0]]
        + (if translated.Some? then [translated.value] else [])
        + [[0], TextBytes(text)]
    case Time(t) =>
      [NatU32BE(YearU16(t.year))[2..], [t.month, t.day, t.hour, t.minute, t.second]]
  }

  function Data(c: Chunk): seq<byte> {
    Concat(DataPieces(c))
  }

  /** Pass every piece through the CRC writer in order. */
  function FeedAll(w: Crc32.Writer, pieces: seq<seq<byte>>): Crc32.Writer
    decreases |pieces|
  {
    if |pieces| == 0 then w else FeedAll(Crc32.Feed(w, pieces[0]), pieces[1..])
  }

  /**
   * `write_to` when every write succeeds: the length truncated to 32 bits (`len() as u32`),
   * then the tag and data through a fresh CRC writer, then the register's `get()`.
   */
  function WriteTo(c: Chunk): seq<byte> {
    var w := FeedAll(Crc32.NewWriter(), [Tag(c)] + DataPieces(c));
    NatU32BE(Len(c) % TWO_32) + w.accepted + U32BE(Crc32.Get(w.reg))
  }

  /** The announced length is the length of the data actually written, for every kind. */
  lemma LenMatchesData(c: Chunk)
    ensures Len(c) == |Data(c)|
  {
    match c {
      case Ihdr(width, height, bitDepth) =>
        ConcatThree(U32BE(width), U32BE(height), [bitDepth, 2, 0, 0, 0]);
      case Idat(data) =>
        ConcatSingle(data);
      case Iend =>
      case Sbit(_) =>
        ConcatSingle(DataPieces(c)[0]);
      case Gama(_) =>
        ConcatSingle(DataPieces(c)[0]);
      case Srgb(_) =>
        ConcatSingle(DataPieces(c)[0]);
      case Itxt(keyword, language, translated, text) =>
        ItxtLen(keyword, language, translated, text);
      case Time(_) =>
        ConcatTwo(DataPieces(c)[0], DataPieces(c)[1]);
    }
  }

  lemma ItxtLen(keyword: seq<byte>, language: Option<seq<byte>>, translated: Option<seq<byte>>, text: TextData)
    ensures var c := Itxt(keyword, language, translated, text); Len(c) == |Data(c)|
  {
    var c := Itxt(keyword, language, translated, text);
    var head: seq<seq<byte>> := [keyword, [0, if text.Compressed? then 1 else 0, 0]];
    var lang: seq<seq<byte>> := if language.Some? then [language.value] else [];
    var tr: seq<seq<byte>> := if translated.Some? then [translated.value] else [];
    assert DataPieces(c) == head + lang + [[0]] + tr + [[0], TextBytes(text)];
    ConcatAppend(head + lang + [[0]] + tr, [[0], TextBytes(text)]);
    ConcatAppend(head + lang + [[0]], tr);
    ConcatAppend(head + lang, [[0]]);
    ConcatAppend(head, lang);
    ConcatTwo(keyword, [0, if text.Compressed? then 1 else 0, 0]);
    ConcatSingle([0]);
    ConcatTwo([0], TextBytes(text));
    if language.Some? { ConcatSingle(language.value); }
    if translated.Some? { ConcatSingle(translated.value); }
  }

  lemma ConcatSingle(s: seq<byte>)
    ensures Concat([s]) == s
  {
    assert [s][..0] == [];
  }

  lemma ConcatTwo(a: seq<byte>, b: seq<byte>)
    ensures Concat([a, b]) == a + b
  {
    assert [a, b][..1] == [a];
    ConcatSingle(a);
  }

  lemma ConcatThree(a: seq<byte>, b: seq<byte>, c: seq<byte>)
    ensures Concat([a, b, c]) == a + b + c
  {
    assert [a, b, c][..2] == [a, b];
    ConcatTwo(a, b);
  }

  lemma {:induction false} FeedAllConcat(w: Crc32.Writer, pieces: seq<seq<byte>>)
    ensures FeedAll(w, pieces) == Crc32.Feed(w, Concat(pieces))
    decreases |pieces|
  {
    if |pieces| == 0 {
      assert w.accepted + [] == w.accepted;
    } else {
      FeedAllConcat(Crc32.Feed(w, pieces[0]), pieces[1..]);
      Crc32.FeedTwice(w, pieces[0], Concat(pieces[1..]));
      ConcatAppend([pieces[0]], pieces[1..]);
      assert [pieces[0]] + pieces[1..] == pieces;
      ConcatSingle(pieces[0]);
    }
  }

  /**
   * The bytes of a chunk: length, tag, data, and the CRC of tag and data only (the length
   * field is written before the CRC writer exists and the CRC field after it is read).
   */
  lemma WriteToLayout(c: Chunk)
    ensures WriteTo(c) == NatU32BE(|Data(c)| % TWO_32) + Tag(c) + Data(c)
                          + U32BE(Crc32.Checksum(Tag(c) + Data(c)))
    ensures |WriteTo(c)| == 12 + |Data(c)|
  {
    WriteToFields(c);
    LenMatchesData(c);
  }

  /** The fields of `write_to`, with the length as announced by `len()`. */
  lemma WriteToFields(c: Chunk)
    ensures WriteTo(c) == NatU32BE(Len(c) % TWO_32) + Tag(c) + Data(c)
                          + U32BE(Crc32.Checksum(Tag(c) + Data(c)))
  {
    var tag, pieces := Tag(c), DataPieces(c);
    var w := FeedAll(Crc32.NewWriter(), [tag] + pieces);
    FeedTagged(tag, pieces);
    assert w.accepted == tag + Data(c);
    assert Crc32.Get(w.reg) == Crc32.Checksum(tag + Data(c));
  }

  /** The CRC writer after the tag and then every data piece. */
  lemma FeedTagged(tag: seq<byte>, pieces: seq<seq<byte>>)
    ensures FeedAll(Crc32.NewWriter(), [tag] + pieces)
            == Crc32.Writer(Crc32.Update(Crc32.INIT, tag + Concat(pieces)), tag + Concat(pieces))
  {
    FeedAllConcat(Crc32.NewWriter(), [tag] + pieces);
    ConcatAppend([tag], pieces);
    ConcatSingle(tag);
    assert [] + (tag + Concat(pieces)) == tag + Concat(pieces);
  }

  /** A chunk as a reader splits it. */
  datatype Parsed = Parsed(tag: seq<byte>, data: seq<byte>, rest: seq<byte>)

  /**
   * Read one chunk from the front of `b`: `None` when the bytes run out before the announced
   * length or when the stored CRC is not the CRC of tag and data.
   */
  function ParseChunk(b: seq<byte>): Option<Parsed>
  {
    if |b| < 12 then None
    else
      var n := NatFromU32BE(b[..4]);
      if |b| < 12 + n then None
      else if b[8 + n..12 + n] != U32BE(Crc32.Checksum(b[4..8] + b[8..8 + n])) then None
      else Some(Parsed(b[4..8], b[8..8 + n], b[12 + n..]))
  }

  /**
   * What the reader accepts: a length, a tag, that many data bytes and a matching CRC over
   * tag and data; the rest is left for the next chunk.
   */
  lemma ParseChunkSound(b: seq<byte>)
    requires ParseChunk(b).Some?
    ensures var p := ParseChunk(b).value;
      |b| == 12 + |p.data| + |p.rest| && p.tag == b[4..8] && p.data == b[8..8 + |p.data|]
      && p.rest == b[12 + |p.data|..]
      && b[8 + |p.data|..12 + |p.data|] == U32BE(Crc32.Checksum(p.tag + p.data))
  {
  }

  /** Whatever follows it, a chunk whose data fits the length field reads back as written. */
  lemma ParseWriteTo(c: Chunk, rest: seq<byte>)
    requires |Data(c)| < TWO_32
    ensures ParseChunk(WriteTo(c) + rest) == Some(Parsed(Tag(c), Data(c), rest))
  {
    WriteToLayout(c);
    ParseFramed(Tag(c), Data(c), rest);
  }

  /** A correctly framed tag and data, followed by anything, parse back to themselves. */
  lemma ParseFramed(tag: seq<byte>, d: seq<byte>, rest: seq<byte>)
    requires |tag| == 4 && |d| < TWO_32
    ensures ParseChunk(NatU32BE(|d| % TWO_32) + tag + d + U32BE(Crc32.Checksum(tag + d)) + rest)
            == Some(Parsed(tag, d, rest))
  {
    var crc := Crc32.Checksum(tag + d);
    var len := NatU32BE(|d| % TWO_32);
    assert |d| % TWO_32 == |d|;
    NatU32RoundTrip(|d|);
    Fields(len, tag, d, U32BE(crc), rest);
    ParseChunkAt(len + tag + d + U32BE(crc) + rest, |d|);
  }

  /** What the reader does with a length field `n` that fits and a CRC field that matches. */
  lemma ParseChunkAt(b: seq<byte>, n: nat)
    requires |b| >= 12 + n && NatFromU32BE(b[..4]) == n
    requires b[8 + n..12 + n] == U32BE(Crc32.Checksum(b[4..8] + b[8..8 + n]))
    ensures ParseChunk(b) == Some(Parsed(b[4..8], b[8..8 + n], b[12 + n..]))
  {
    var m := NatFromU32BE(b[..4]);
    assert !(|b| < 12) && !(|b| < 12 + m);
  }

  /** Where the fields of a framed chunk sit. */
  lemma Fields(len: seq<byte>, tag: seq<byte>, d: seq<byte>, crc: seq<byte>, rest: seq<byte>)
    requires |len| == 4 && |tag| == 4 && |crc| == 4
    ensures var b := len + tag + d + crc + rest;
      |b| == 12 + |d| + |rest| && b[..4] == len && b[4..8] == tag && b[8..8 + |d|] == d
      && b[8 + |d|..12 + |d|] == crc && b[12 + |d|..] == rest
  {
  }

  /**
   * Bit 5 of the first type byte marks an ancillary chunk (section 5.4 of the PNG
   * Specification): set exactly for the optional metadata chunks, clear for IHDR, IDAT, IEND.
   */
  lemma AncillaryBit(c: Chunk)
    ensures (Tag(c)[0] & 0x20 != 0) <==> !(c.Ihdr? || c.Idat? || c.Iend?)
  {
  }

  /** Distinct kinds of chunk carry distinct tags. */
  lemma TagsDistinct(c: Chunk, d: Chunk)
    requires Tag(c) == Tag(d)
    ensures c.Ihdr? == d.Ihdr? && c.Idat? == d.Idat? && c.Iend? == d.Iend? && c.Sbit? == d.Sbit?
    ensures c.Gama? == d.Gama? && c.Srgb? == d.Srgb? && c.Itxt? == d.Itxt? && c.Time? == d.Time?
  {
    assert Tag(c)[0] == Tag(d)[0] && Tag(c)[1] == Tag(d)[1] && Tag(c)[2] == Tag(d)[2];
  }

  /** Reading the IHDR data back: width, height, depth; colour type 2, methods all zero. */
  function ParseIhdr(data: seq<byte>): Option<(bv32, bv32, byte)> {
    if |data| != 13 || data[9] != 2 || data[10] != 0 || data[11] != 0 || data[12] != 0 then None
    else Some((FromU32BE(data[..4]), FromU32BE(data[4..8]), data[8]))
  }

  lemma IhdrRoundTrip(width: bv32, height: bv32, depth: byte)
    ensures ParseIhdr(Data(Ihdr(width, height, depth))) == Some((width, height, depth))
  {
    var c := Ihdr(width, height, depth);
    ConcatThree(U32BE(width), U32BE(height), [depth, 2, 0, 0, 0]);
    var d := Data(c);
    assert d[..4] == U32BE(width);
    assert d[4..8] == U32BE(height);
    U32RoundTrip(width);
    U32RoundTrip(height);
  }

  /** The gamma the writer stores for a 1/2.2 encoding exponent (section 11.3.3.2). */
  lemma GammaOfSrgb()
    ensures GammaInt(1.0 / 2.2) == 45454
  {
    var x := (1.0 / 2.2) * 100_000.0;
    assert 45454.0 <= x < 45455.0;
  }

  /** The stored `tIME` year is the calendar year modulo 65536, and years 0..65535 are exact. */
  lemma YearField(year: int)
    ensures (YearU16(year) - year) % 0x1_0000 == 0
    ensures 0 <= year < 0x1_0000 ==> YearU16(year) == year
  {
  }

  /** The twelve bytes of the `IEND` chunk: a zero length, the tag and its constant CRC. */
  const IEND_CHUNK: seq<byte> := [0, 0, 0, 0] + [0x49, 0x45, 0x4E, 0x44] + [0xAE, 0x42, 0x60, 0x82]

  lemma IendBytes(c: Chunk)
    requires c.Iend?
    ensures WriteTo(c) == IEND_CHUNK
  {
    var tag: seq<byte> := [0x49, 0x45, 0x4E, 0x44];
    assert DataPieces(c) == [];
    assert Data(c) == [] && Tag(c) == tag;
    Crc32.IendChecksum();
    WriteToLayout(c);
    EmptyFrame(WriteTo(c), Tag(c), Data(c), 0xAE42_6082);
    ZeroLength();
    CrcField();
  }

  /** A framed chunk without data is its zero length, its tag and the CRC of the tag alone. */
  lemma EmptyFrame(w: seq<byte>, tag: seq<byte>, d: seq<byte>, crc: bv32)
    requires d == [] && Crc32.Checksum(tag) == crc
    requires w == NatU32BE(|d| % TWO_32) + tag + d + U32BE(Crc32.Checksum(tag + d))
    ensures w == NatU32BE(0) + tag + U32BE(crc)
  {
    assert tag + d == tag;
    DropEmpty(NatU32BE(0), tag, d, U32BE(crc));
  }

  lemma DropEmpty(len: seq<byte>, tag: seq<byte>, d: seq<byte>, crc: seq<byte>)
    requires d == []
    ensures len + tag + d + crc == len + tag + crc
  {
  }

  lemma CrcField()
    ensures U32BE(0xAE42_6082) == [0xAE, 0x42, 0x60, 0x82]
  {
  }

  lemma ZeroLength()
    ensures NatU32BE(0) == [0, 0, 0, 0]
  {
  }

  /** The `IEND` chunk, followed by anything, reads back as the tag with no data. */
  lemma IendParses(rest: seq<byte>)
    ensures ParseChunk(IEND_CHUNK + rest) == Some(Parsed([0x49, 0x45, 0x4E, 0x44], [], rest))
  {
    var tag: seq<byte> := [0x49, 0x45, 0x4E, 0x44];
    var none: seq<byte> := [];
    ParseFramed(tag, none, rest);
    assert tag + none == tag;
    Crc32.IendChecksum();
    ZeroLength();
    CrcField();
    assert NatU32BE(|none| % TWO_32) + tag + none + U32BE(Crc32.Checksum(tag + none)) == IEND_CHUNK;
  }
}
