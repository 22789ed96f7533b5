/**
 * The IDAT writer of `output/png/mod.rs` (`IdatWriter`): every buffer the zlib encoder hands
 * it becomes one IDAT chunk on the destination.
 */
module PngIdat {
  import opened Bytes
  import opened Wrappers
  import Crc32
  import PngChunk

  /**
   * `IdatWriter::write`: the whole buffer becomes one IDAT chunk on the inner writer, and the
   * whole buffer is reported written.
   */
  function IdatWrite(buf: seq<byte>): (r: (seq<byte>, nat))
    ensures r.1 == |buf|
    ensures |r.0| == |buf| + 12
  {
    PngChunk.WriteToLayout(PngChunk.Idat(buf));
    PngChunk.ConcatSingle(buf);
    (PngChunk.WriteTo(PngChunk.Idat(buf)), |buf|)
  }

  /** A reader of the destination finds one IDAT chunk carrying exactly the buffer. */
  lemma IdatWriteParses(buf: seq<byte>, rest: seq<byte>)
    requires |buf| < TWO_32
    ensures PngChunk.ParseChunk(IdatWrite(buf).0 + rest)
      == Some(PngChunk.Parsed(PngChunk.Tag(PngChunk.Idat(buf)), buf, rest))
  {
    PngChunk.ConcatSingle(buf);
    PngChunk.ParseWriteTo(PngChunk.Idat(buf), rest);
  }

  /** The zlib stream of the unit test for the IDAT writer. */
  const IDAT_TEST_DATA: seq<byte> := [
    0x78, 0x9c, 0x63, 0x38, 0xb4, 0x7f, 0xdd, 0xe6, 0xfd, 0x0a, 0x7c, 0x87, 0xe6, 0x70,
    0x6e, 0x52, 0xda, 0x20, 0x34, 0x77, 0x3b, 0x83, 0xa2, 0x30, 0xe3, 0x4a, 0x06, 0x90,
    0xe8, 0x01, 0xb0, 0xe8, 0x66, 0x90, 0xe8, 0x0e, 0xa0, 0x28, 0xc3, 0x4a, 0x86, 0x53,
    0x47, 0x36, 0x6e, 0xda, 0x2f, 0xc9, 0x7e, 0x64, 0x16, 0xc7, 0x2e, 0x85, 0xed, 0x42,
    0x8b, 0xf7, 0x33, 0x28, 0x0b, 0x33, 0xac, 0x67, 0xb0, 0xf3, 0x9f, 0x5d, 0x56, 0x15,
    0x54, 0x92, 0xb6, 0x52, 0xdc, 0xc1, 0xd0, 0xd2, 0xad, 0xd8, 0x99, 0x57, 0xd2, 0xc7,
    0xa5, 0x96, 0x81, 0xc1, 0x28, 0x69, 0xdf, 0xe5, 0x07, 0x3b, 0x7b, 0x4e, 0x6b, 0x32,
    0x44, 0x32, 0x30, 0x32, 0x00, 0x01, 0x0b, 0x2b, 0x03, 0x00, 0x9a, 0xf3, 0x27, 0x9d
  ]

  /** The layout of one IDAT chunk: length, tag, data, CRC of tag and data. */
  lemma IdatLayout(buf: seq<byte>)
    ensures IdatWrite(buf).0 == NatU32BE(|buf| % TWO_32) + [0x49, 0x44, 0x41, 0x54] + buf
                                + U32BE(Crc32.Checksum([0x49, 0x44, 0x41, 0x54] + buf))
  {
    PngChunk.WriteToLayout(PngChunk.Idat(buf));
    PngChunk.ConcatSingle(buf);
  }

  /**
   * The IDAT writer's unit test: the 112 data bytes are framed by the length 0x70, the tag
   * `IDAT` and the CRC of tag and data.
   */
  lemma IdatTestVector()
    ensures IdatWrite(IDAT_TEST_DATA).0 == [0x00, 0x00, 0x00, 0x70] + [0x49, 0x44, 0x41, 0x54]
      + IDAT_TEST_DATA + U32BE(Crc32.Checksum([0x49, 0x44, 0x41, 0x54] + IDAT_TEST_DATA))
  {
    IdatLayout(IDAT_TEST_DATA);
    assert |IDAT_TEST_DATA| == 112;
    LengthField112();
  }

  lemma LengthField112()
    ensures NatU32BE(112 % TWO_32) == [0x00, 0x00, 0x00, 0x70]
  {
    assert 112 % TWO_32 == 112;
    assert 112 / 0x100_0000 == 0 && 112 / 0x1_0000 % 0x100 == 0 && 112 / 0x100 % 0x100 == 0;
    assert 112 % 0x100 == 0x70;
    ByteOfIs(0x70, 0x70);
  }
}
