/**
 * Sequences of PNG chunks: writing them one after another, and a reader that splits a byte
 * string back into CRC-checked chunks (section 5.3 of the PNG Specification).
 */
module PngStream {
  import opened Bytes
  import opened Wrappers
  import PngChunk

  /** Chunks written one after another, each with `write_to`. */
  function ChunksBytes(cs: seq<PngChunk.Chunk>): seq<byte>
    decreases |cs|
  {
    if |cs| == 0 then [] else PngChunk.WriteTo(cs[0]) + ChunksBytes(cs[1..])
  }

  /** A chunk as read: its tag and data. */
  datatype View = View(tag: seq<byte>, data: seq<byte>)

  /** Split a byte string into CRC-checked chunks, failing unless it ends on a chunk boundary. */
  function ParseChunks(b: seq<byte>): Option<seq<View>>
    decreases |b|
  {
    if |b| == 0 then Some([])
    else match PngChunk.ParseChunk(b)
      case None => None
      case Some(p) =>
        match ParseChunks(p.rest)
        case None => None
        case Some(vs) => Some([View(p.tag, p.data)] + vs)
  }

  function Views(cs: seq<PngChunk.Chunk>): (vs: seq<View>)
    ensures |vs| == |cs|
    decreases |cs|
  {
    if |cs| == 0 then [] else [View(PngChunk.Tag(cs[0]), PngChunk.Data(cs[0]))] + Views(cs[1..])
  }

  predicate Fit(cs: seq<PngChunk.Chunk>) {
    forall i :: 0 <= i < |cs| ==> |PngChunk.Data(cs[i])| < TWO_32
  }

  /** A written chunk sequence reads back as the same tags and data, in the same order. */
  lemma ParseChunksBytes(cs: seq<PngChunk.Chunk>)
    requires Fit(cs)
    ensures ParseChunks(ChunksBytes(cs)) == Some(Views(cs))
  {
    ParseChunksThen(cs, [], []);
    assert ChunksBytes(cs) + [] == ChunksBytes(cs);
    assert Views(cs) + [] == Views(cs);
  }

  lemma {:induction false} ChunksBytesAppend(a: seq<PngChunk.Chunk>, b: seq<PngChunk.Chunk>)
    ensures ChunksBytes(a + b) == ChunksBytes(a) + ChunksBytes(b)
    decreases |a|
  {
    if |a| == 0 {
      assert a + b == b;
    } else {
      assert (a + b)[0] == a[0] && (a + b)[1..] == a[1..] + b;
      ChunksBytesAppend(a[1..], b);
      AppendAssoc(PngChunk.WriteTo(a[0]), ChunksBytes(a[1..]), ChunksBytes(b));
    }
  }

  lemma {:induction false} ViewsAppend(a: seq<PngChunk.Chunk>, b: seq<PngChunk.Chunk>)
    ensures Views(a + b) == Views(a) + Views(b)
    decreases |a|
  {
    if |a| == 0 {
      assert a + b == b;
    } else {
      assert (a + b)[1..] == a[1..] + b;
      ViewsAppend(a[1..], b);
    }
  }

  const IHDR: seq<byte> := [0x49, 0x48, 0x44, 0x52]
  const IDAT: seq<byte> := [0x49, 0x44, 0x41, 0x54]
  const IEND: seq<byte> := [0x49, 0x45, 0x4E, 0x44]
  const SBIT: seq<byte> := [0x73, 0x42, 0x49, 0x54]
  const TIME: seq<byte> := [0x74, 0x49, 0x4D, 0x45]
  const GAMA: seq<byte> := [0x67, 0x41, 0x4D, 0x41]
  const SRGB: seq<byte> := [0x73, 0x52, 0x47, 0x42]

  /** The tags of the header chunks, as a reader finds them. */
  function Tags(vs: seq<View>): seq<seq<byte>>
    decreases |vs|
  {
    if |vs| == 0 then [] else [vs[0].tag] + Tags(vs[1..])
  }

  lemma {:induction false} TagsAppend(a: seq<View>, b: seq<View>)
    ensures Tags(a + b) == Tags(a) + Tags(b)
    decreases |a|
  {
    if |a| == 0 {
      assert a + b == b;
    } else {
      assert (a + b)[1..] == a[1..] + b;
      TagsAppend(a[1..], b);
    }
  }

  /** The IDAT chunks the zlib encoder's output pieces become. */
  function IdatChunks(pieces: seq<seq<byte>>): (cs: seq<PngChunk.Chunk>)
    ensures |cs| == |pieces|
    decreases |pieces|
  {
    if |pieces| == 0 then [] else [PngChunk.Idat(pieces[0])] + IdatChunks(pieces[1..])
  }

  /** Concatenated data of the IDAT views. */
  function IdatData(vs: seq<View>): seq<byte>
    decreases |vs|
  {
    if |vs| == 0 then [] else (if vs[0].tag == IDAT then vs[0].data else []) + IdatData(vs[1..])
  }

  lemma {:induction false} IdatViews(pieces: seq<seq<byte>>)
    ensures Views(IdatChunks(pieces)) == seq(|pieces|, i requires 0 <= i < |pieces| => View(IDAT, pieces[i]))
    ensures IdatData(Views(IdatChunks(pieces))) == Concat(pieces)
    decreases |pieces|
  {
    if |pieces| > 0 {
      IdatViews(pieces[1..]);
      PngChunk.ConcatSingle(pieces[0]);
      ConcatAppend([pieces[0]], pieces[1..]);
      assert [pieces[0]] + pieces[1..] == pieces;
    }
  }

  lemma IdatFit(pieces: seq<seq<byte>>)
    requires forall i :: 0 <= i < |pieces| ==> |pieces[i]| < TWO_32
    ensures Fit(IdatChunks(pieces))
  {
    var cs := IdatChunks(pieces);
    forall i | 0 <= i < |cs|
      ensures |PngChunk.Data(cs[i])| < TWO_32
    {
      IdatAt(pieces, i);
      PngChunk.ConcatSingle(pieces[i]);
    }
  }

  lemma {:induction false} IdatAt(pieces: seq<seq<byte>>, i: nat)
    requires i < |pieces|
    ensures IdatChunks(pieces)[i] == PngChunk.Idat(pieces[i])
    decreases i
  {
    if i > 0 {
      IdatAt(pieces[1..], i - 1);
    }
  }

  lemma FitAppend(a: seq<PngChunk.Chunk>, b: seq<PngChunk.Chunk>)
    requires Fit(a) && Fit(b)
    ensures Fit(a + b)
  {
    forall i | 0 <= i < |a + b|
      ensures |PngChunk.Data((a + b)[i])| < TWO_32
    {
      if i < |a| {
        assert (a + b)[i] == a[i];
      } else {
        assert (a + b)[i] == b[i - |a|];
      }
    }
  }

  /** Written chunks in front of a readable byte string: their views come first, then the string's. */
  lemma {:induction false} ParseChunksThen(cs: seq<PngChunk.Chunk>, tail: seq<byte>, vs: seq<View>)
    requires Fit(cs) && ParseChunks(tail) == Some(vs)
    ensures ParseChunks(ChunksBytes(cs) + tail) == Some(Views(cs) + vs)
    decreases |cs|
  {
    if |cs| == 0 {
      assert ChunksBytes(cs) + tail == tail;
      assert Views(cs) + vs == vs;
    } else {
      ParseChunksThen(cs[1..], tail, vs);
      ParseChunksStep(cs, tail, vs);
    }
  }

  /** One chunk in front: the reader takes it off and continues with what follows. */
  lemma ParseChunksStep(cs: seq<PngChunk.Chunk>, tail: seq<byte>, vs: seq<View>)
    requires Fit(cs) && |cs| > 0
    requires ParseChunks(ChunksBytes(cs[1..]) + tail) == Some(Views(cs[1..]) + vs)
    ensures ParseChunks(ChunksBytes(cs) + tail) == Some(Views(cs) + vs)
  {
    var rest := ChunksBytes(cs[1..]) + tail;
    var v := View(PngChunk.Tag(cs[0]), PngChunk.Data(cs[0]));
    BytesCons(cs, tail);
    PngChunk.ParseWriteTo(cs[0], rest);
    ParseFront(PngChunk.WriteTo(cs[0]) + rest, v, rest, Views(cs[1..]) + vs);
    ViewsCons(cs, vs);
  }

  lemma BytesCons(cs: seq<PngChunk.Chunk>, tail: seq<byte>)
    requires |cs| > 0
    ensures ChunksBytes(cs) + tail == PngChunk.WriteTo(cs[0]) + (ChunksBytes(cs[1..]) + tail)
  {
  }

  lemma ViewsCons(cs: seq<PngChunk.Chunk>, vs: seq<View>)
    requires |cs| > 0
    ensures Views(cs) + vs == [View(PngChunk.Tag(cs[0]), PngChunk.Data(cs[0]))] + (Views(cs[1..]) + vs)
  {
    ViewsUnfold(cs);
    AppendAssoc([View(PngChunk.Tag(cs[0]), PngChunk.Data(cs[0]))], Views(cs[1..]), vs);
  }

  lemma ViewsUnfold(cs: seq<PngChunk.Chunk>)
    requires |cs| > 0
    ensures Views(cs) == [View(PngChunk.Tag(cs[0]), PngChunk.Data(cs[0]))] + Views(cs[1..])
  {
  }

  lemma ParseFront(b: seq<byte>, v: View, rest: seq<byte>, vs: seq<View>)
    requires PngChunk.ParseChunk(b) == Some(PngChunk.Parsed(v.tag, v.data, rest))
    requires ParseChunks(rest) == Some(vs)
    ensures ParseChunks(b) == Some([v] + vs)
  {
  }

  /** The IEND chunk on its own reads back as one view with no data. */
  lemma IendReadsBack()
    ensures ParseChunks(PngChunk.IEND_CHUNK) == Some([View(IEND, [])])
  {
    PngChunk.IendParses([]);
    assert PngChunk.IEND_CHUNK + [] == PngChunk.IEND_CHUNK;
    assert ParseChunks([]) == Some([]);
    ParseFront(PngChunk.IEND_CHUNK, View(IEND, []), [], []);
    assert [View(IEND, [])] + [] == [View(IEND, [])];
  }

  /** The tags of a chunk sequence, in order. */
  function ChunkTags(cs: seq<PngChunk.Chunk>): seq<seq<byte>>
    decreases |cs|
  {
    if |cs| == 0 then [] else [PngChunk.Tag(cs[0])] + ChunkTags(cs[1..])
  }

  /** A reader finds the tags of the chunks that were written, in order. */
  lemma {:induction false} TagsOfViews(cs: seq<PngChunk.Chunk>)
    ensures Tags(Views(cs)) == ChunkTags(cs)
    decreases |cs|
  {
    if |cs| > 0 {
      TagsOfViews(cs[1..]);
    }
  }

  lemma {:induction false} ChunkTagsAppend(a: seq<PngChunk.Chunk>, b: seq<PngChunk.Chunk>)
    ensures ChunkTags(a + b) == ChunkTags(a) + ChunkTags(b)
    decreases |a|
  {
    if |a| == 0 {
      assert a + b == b;
    } else {
      assert (a + b)[1..] == a[1..] + b;
      ChunkTagsAppend(a[1..], b);
    }
  }
}
