# rust-raytracing, integer and structural core, in Dafny

This project models the parts of the `rust-raytracing` path tracer that are not floating-point
shading. It covers:

- **Tile scheduling.** Worker threads claim 16×16 tiles through a shared `(x, y)` cursor. Each
  worker renders its tile's pixel loops, and `main` copies finished tiles into a vertically
  flipped framebuffer.
- **Recursion and progress.** The depth cap of `ray_color` and its `peak_depth` counter, and the
  `H:MM:SS` remaining-time display.
- **Image output.** The PNG writer: CRC-32 as in section 5.5 of the PNG Specification (ISO/IEC
  15948:2003, second edition), chunk framing (section 5.3), the IHDR, sBIT, gAMA, sRGB, iTXt and
  tIME payloads, the filter-type-0 scanline writer (section 9.2), sample scaling by left bit
  replication (section 12.5), and byte packing. Also the binary PPM ("P6") writer.
- **Intersection structures.** The axis-aligned bounding box, the two `HittableList` versions,
  and the bounding volume hierarchy (`BvhNode`). They are built over abstract primitives: each
  primitive has an identity, an optional box, and a hit oracle that answers a query interval with
  a parameter `t`.
- **Face normals.** The orientation rule of `HitRecord::set_face_normal`.
- **Perlin noise bookkeeping.** The permutation tables and the lattice hash index.
- **Command line.** Parsing and validation in both command-line front ends.

The repository contains three successive versions of the renderer, each modelled as its own
module:

- `raytracer.rs`: scanlines.
- `lib/raytracer.rs`: tiles, with summed samples.
- `common/raytracer.rs`: tiles, with averaged samples and a depth counter.

It likewise contains two versions of the list and of the hit record. Where versions differ, the
module comments say how.

**Representation.**

- Colours and ray parameters are reals.
- Bytes are `bv8`, the CRC register is `bv32`, samples are `bv16`.
- The random generator, the geometry and the materials are function-valued parameters: a scene
  is an oracle from a ray to what it hits.
- Compression is a parameter `deflate` from bytes to the IDAT pieces it produces.
- Where the source panics or loops forever, the model returns `None` or `Err`, or runs out of
  an explicit fuel.

**Two behaviours of the code worth knowing.**

- A claim usually yields one tile inside the image. With an image at most 16 pixels wide,
  though, a claim at the exhausted cursor yields one extra tile that lies wholly outside the
  image (`Tiles.ExhaustedNarrow`). Its pixel loops are empty, so coverage and the pixel count
  are unaffected.
- The earlier tiled renderer stores the sum of a pixel's samples, while the later one stores
  their average (`LibRender.PixelIsScaledAverage`).

## Model

| member | source | states |
|---|---|---|
| Bytes.NatU32RoundTrip | src/output/png/chunk.rs:152 | a 32-bit length written big-endian in four bytes reads back as the same number |
| Bytes.U32RoundTrip | src/output/png/chunk.rs:162-163 | `to_be_bytes` of a `u32` is decoded back to the same word by the big-endian reader |
| Bytes.U32BEInjective | src/output/png/chunk.rs:231 | two different CRC values never produce the same four trailer bytes |
| Bytes.U16RoundTrip | src/output/png/mod.rs:184-191 | the high byte and the low byte of a 16-bit sample, written in that order, read back as the sample |
| Bytes.AsciiAppend | src/output/ppm.rs:31-35 | the ASCII bytes of a concatenation are the concatenation of the ASCII bytes |
| Crc32.BuildTable | src/output/png/chunk.rs:51-65 | the table loop fills 256 entries, entry `i` being `i` after eight conditional shifts with 0xEDB88320 |
| Crc32.UpdateAppend | src/output/png/chunk.rs:67-69 | `update` over `a ++ b` is `update` over `a`, then over `b` |
| Crc32.GetInvolutive | src/output/png/chunk.rs:46-48 | `get` is the bitwise complement: applied twice it gives the register back, and a fresh register reads as 0 |
| Crc32.IendChecksum | src/output/png/chunk.rs:46-74 | the checksum of the tag "IEND" is 0xAE426082, the CRC every PNG file ends with |
| Crc32.Write | src/output/png/chunk.rs:82-88 | a failed inner write leaves the hash unchanged; a write that accepted `n` bytes extends the hashed text by exactly `buf[..n]` |
| Crc32.WriteKeepsValid | src/output/png/chunk.rs:82-88 | after any write, `get` equals the CRC-32 of exactly the bytes the inner writer has accepted |
| Crc32.WriteAllFolds | src/output/png/chunk.rs:82-88 | `write_all` that succeeds hashes the whole buffer; one that fails has hashed some prefix of it |
| Crc32.FeedTwice | src/output/png/chunk.rs:67-69 | hashing two buffers one after the other is hashing their concatenation |
| Crc32.FeedKeepsValid | src/output/png/chunk.rs:67-69 | feeding bytes keeps the register equal to the CRC of everything fed |
| PngChunk.Tag | src/output/png/chunk.rs:92-112 | every chunk type has a four-byte tag |
| PngChunk.TagNames | src/output/png/chunk.rs:92-112 | each tag is the ASCII spelling of its chunk name: IHDR, IDAT, IEND, sBIT, gAMA, sRGB, iTXt, tIME |
| PngChunk.IntentCode | src/output/png/chunk.rs:183-185 | the rendering intent byte is one of the four values of section 11.3.3.5 |
| PngChunk.GammaInt | src/output/png/chunk.rs:180 | the gamma written is a 32-bit unsigned integer, and within range it is `gamma · 100000` rounded down |
| PngChunk.YearU16 | src/output/png/chunk.rs:217 | the year written fits 16 bits |
| PngChunk.YearField | src/output/png/chunk.rs:217 | `year as u16` keeps the year modulo 65536, and years in range are written unchanged |
| PngChunk.GammaOfSrgb | src/output/png/mod.rs:144 | the gamma 1/2.2 that accompanies sRGB is written as 45454 |
| PngChunk.LenMatchesData | src/output/png/chunk.rs:114-149 | for every chunk type, `len()` is the number of data bytes `write_to` emits (IHDR 13, IEND 0, sBIT 3, gAMA 4, sRGB 1, tIME 7, IDAT its data) |
| PngChunk.ItxtLen | src/output/png/chunk.rs:126-146 | for iTXt, `len()` counts keyword, language, translation and text plus the five separator and flag bytes that `write_to` emits |
| PngChunk.WriteToLayout | src/output/png/chunk.rs:151-232 | a chunk is its length, tag, data and the CRC of tag and data, twelve bytes more than its data |
| PngChunk.WriteToFields | src/output/png/chunk.rs:152-154 | the length field written is `len()` as a big-endian `u32` |
| PngChunk.FeedAllConcat | src/output/png/chunk.rs:153-226 | hashing the data piece by piece, as the several `write_all` calls do, hashes their concatenation |
| PngChunk.FeedTagged | src/output/png/chunk.rs:153-231 | the CRC written covers the tag and the data and nothing else |
| PngChunk.ParseChunkSound | src/output/png/chunk.rs:151-232 | whatever a chunk reader accepts has the framing `write_to` produces: length, tag, data, matching CRC |
| PngChunk.ParseWriteTo | src/output/png/chunk.rs:151-232 | reading back what `write_to` wrote gives its tag and data, and leaves what follows untouched |
| PngChunk.ParseFramed | src/output/png/chunk.rs:151-232 | any tag and data, framed as section 5.3 prescribes, read back as themselves |
| PngChunk.AncillaryBit | src/output/png/chunk.rs:92-112 | the tags of IHDR, IDAT and IEND are critical (upper-case first letter) and all others ancillary |
| PngChunk.TagsDistinct | src/output/png/chunk.rs:92-112 | different chunk types have different tags |
| PngChunk.IhdrRoundTrip | src/output/png/chunk.rs:157-169 | IHDR data carries width and height big-endian and the bit depth, followed by colour type 2 and three zero bytes |
| PngChunk.IendBytes | src/output/png/chunk.rs:151-232 | the IEND chunk is exactly `00 00 00 00 'IEND' AE 42 60 82` |
| PngChunk.IendParses | src/output/png/chunk.rs:151-232 | the IEND bytes read back as an empty IEND chunk |
| PngStream.ParseChunksBytes | src/output/png/chunk.rs:151-232 | a sequence of chunks written one after another reads back as their tags and data, in order |
| PngStream.ChunksBytesAppend | src/output/png/chunk.rs:151-232 | writing two runs of chunks is writing their concatenation |
| PngStream.IdatViews | src/output/png/mod.rs:32-35 | IDAT chunks made from the compressor's pieces read back as those pieces, whose data concatenated is the compressed stream |
| PngStream.IdatFit | src/output/png/mod.rs:32-35 | pieces shorter than 2^32 bytes give chunks whose length fields are exact |
| PngStream.ParseChunksThen | src/output/png/chunk.rs:151-232 | reading chunks written in front of any readable tail gives their views followed by the tail's |
| PngStream.IendReadsBack | src/output/png/mod.rs:203 | the final IEND reads back as one empty IEND chunk |
| PngStream.TagsOfViews | src/output/png/chunk.rs:92-112 | the tags read back are the tags of the chunks written |
| PngFilter.Write | src/output/png/mod.rs:76-87 | one write takes `min(len, scanline_size - pos)` bytes, at least one from a nonempty buffer, puts the filter byte 0 in front iff `pos == 0`, and moves `pos` round the scanline |
| PngFilter.WriteAll | src/output/png/mod.rs:76-87 | `write_all` through the filter keeps the position inside the scanline |
| PngFilter.WriteIsReference | src/output/png/mod.rs:76-87 | one write emits what the byte-at-a-time reference filter emits for the bytes it took |
| PngFilter.WriteAllIsReference | src/output/png/mod.rs:76-87 | `write_all`, whatever the split into writes, emits the reference filtering of the whole input and ends at the same position |
| PngFilter.FilteredAppend | src/output/png/mod.rs:76-87 | filtering `a ++ b` is filtering `a`, then filtering `b` from where `a` left the position |
| PngFilter.AdvanceAdd | src/output/png/mod.rs:84 | the scanline position after `m + n` bytes is the position after `m`, advanced by `n` |
| PngFilter.FilteredRows | src/output/png/mod.rs:76-87 | whole scanlines come out as `[0] ++ scanline` each, in order |
| PngFilter.WriteAllRows | src/output/png/mod.rs:76-87 | `write_all` of whole scanlines from position 0 frames every scanline with one filter byte |
| PngFilter.TwoScanlines | src/output/png/mod.rs:238-245 | two copies of a scanline come out as `0, row, 0, row` |
| PngFilter.WriterTestVector | src/output/png/mod.rs:238-245 | eight bytes `5` with scanline size 4 come out as `[0,5,5,5,5,0,5,5,5,5]` |
| PngIdat.IdatWrite | src/output/png/mod.rs:32-35 | a write reports the whole buffer taken and emits twelve bytes more than it |
| PngIdat.IdatWriteParses | src/output/png/mod.rs:32-35 | what one write emits reads back as a single IDAT chunk holding exactly the buffer |
| PngIdat.IdatLayout | src/output/png/mod.rs:32-35 | a write emits the length, "IDAT", the buffer, and the CRC of "IDAT" and the buffer |
| PngIdat.IdatTestVector | src/output/png/mod.rs:213-235 | the 112-byte test buffer is framed as `00 00 00 70 'IDAT'`, the buffer, and the CRC of tag and buffer |
| PngSample.ReplicateKeepsTop | src/output/png/mod.rs:174-179 | the replication loop never changes the sample's top bits and never overflows the written width |
| PngSample.RecoversAll | src/output/png/mod.rs:167-179 | for every depth from 1 to 16, every sample that fits the depth can be read back from the top bits of its scaled value |
| PngSample.ScaleRecovers | src/output/png/mod.rs:167-179 | the scaled sample fits 8 or 16 bits and its top `bits` bits are the original sample |
| PngSample.ScaleZero | src/output/png/mod.rs:167-179 | zero scales to zero at every depth |
| PngSample.ScaleMax | src/output/png/mod.rs:167-179 | the largest sample of a depth scales to all ones, the largest value of 8 or 16 bits |
| PngSample.ScaleFullDepth | src/output/png/mod.rs:167-179 | at depths 8 and 16 the scaling changes nothing |
| PngSample.PackPixel | src/output/png/mod.rs:181-192 | a pixel takes three bytes up to depth 8, six above |
| PngSample.StoredValue | src/output/png/mod.rs:181-192 | a sample is stored as one byte up to depth 8 and as two big-endian bytes above, and reads back |
| PngSample.PackPixelReads | src/output/png/mod.rs:181-192 | the three stored samples of a packed pixel are its scaled red, green and blue, in that order |
| PngSample.PackPixelsLength | src/output/png/mod.rs:164-193 | the bytes packed for `n` pixels are `n` times the pixel size |
| PngSample.PackPixelsAppend | src/output/png/mod.rs:164-193 | packing two batches is packing their concatenation |
| PngSample.PackPixelsAt | src/output/png/mod.rs:164-193 | pixel `i` is packed at bytes `[i·n, (i+1)·n)` |
| PngWriter.New | src/output/png/mod.rs:102-120 | a writer exists exactly when `0 < bits <= 16` (the source asserts it) and keeps the configuration |
| PngWriter.SrgbGamaData | src/output/png/mod.rs:143-146 | for every rendering intent, the gAMA chunk written before sRGB carries the gamma 1/2.2 as the four bytes `00 00 B1 8E` (45454) |
| PngWriter.HeaderReadsBack | src/output/png/mod.rs:124-149 | the header is the signature, then chunks IHDR, sBIT iff `bits` is not 8 or 16, tIME iff a time is given, gAMA and sRGB iff an intent is given; the IHDR reads back as the truncated width, height and a depth of 8 or 16 |
| PngWriter.PartTags | src/output/png/mod.rs:137-146 | each optional header chunk is written exactly under its condition |
| PngWriter.WriteHeader | src/output/png/mod.rs:124-149 | writing the header appends the header bytes to the output and changes nothing else; once `write_pixels` has taken the destination, it fails (the source panics on `unwrap`) |
| PngWriter.WritePixels | src/output/png/mod.rs:151-195 | pixels are queued behind the ones already handed over, and the bytes already on the destination stay as they are |
| PngWriter.WriteAllPixelsShape | src/output/png/mod.rs:151-195 | several `write_pixels` calls queue the concatenation of their batches |
| PngWriter.BufferingInvisible | src/output/png/mod.rs:76-87 | splitting the pixel bytes across several filter writes does not change the filtered stream |
| PngWriter.ZlibInputIsScanlines | src/output/png/mod.rs:151-192 | the compressor receives each image row, packed, behind a filter byte 0 |
| PngWriter.PackedRowSizes | src/output/png/mod.rs:158 | every packed row is exactly `width·3·(1 or 2)` bytes, the scanline size |
| PngWriter.End | src/output/png/mod.rs:197-205 | `end` only appends to what was written; it fails only when pixels were written with a scanline size of zero |
| PngWriter.EndWithoutPixels | src/output/png/mod.rs:197-203 | with no pixels written, `end` appends only IEND |
| PngWriter.FileReadsBack | src/output/png/mod.rs:124-205 | a whole file is the signature, the header chunks, IDAT chunks whose data is the compressed scanlines, and IEND last |
| PngWriter.PixelsReadBack | src/output/png/mod.rs:151-205 | after any header, pixels and `end` add IDAT chunks holding the compressed scanlines, then IEND |
| Ppm.New | src/output/ppm.rs:15-26 | a writer exists exactly when `bits <= 8` (the source panics otherwise), with `max = 2^bits − 1` |
| Ppm.NewMax | src/output/ppm.rs:24 | the maximum sample for depths 0 to 8 is 0, 1, 3, …, 255 |
| Ppm.HeaderReadsBack | src/output/ppm.rs:30-36 | the header `P6\n<width> <height>\n<max>\n` reads back as the width, height and maximum, leaving what follows |
| Ppm.HeaderIsAscii | src/output/ppm.rs:31-35 | the header is plain ASCII |
| Ppm.HeaderChar | src/output/ppm.rs:31-35 | the header holds only digits, `P`, `6`, spaces and newlines |
| Ppm.PixelsBytes | src/output/ppm.rs:38-43 | three bytes per pixel |
| Ppm.PixelsReadBack | src/output/ppm.rs:38-43 | pixels whose samples fit a byte read back from the byte stream, in order |
| Ppm.PixelsAppend | src/output/ppm.rs:38-43 | writing two batches is writing their concatenation |
| Ppm.WritePixels | src/output/ppm.rs:38-43 | `write_pixels` appends exactly the bytes of its batch, three per pixel, and keeps what was written |
| Ppm.End | src/output/ppm.rs:45-47 | `end` appends nothing |
| Ppm.WriteAllPixelsOut | src/output/ppm.rs:38-43 | several batches append the bytes of their concatenation |
| Ppm.FileLayout | src/output/ppm.rs:15-47 | a file is the header followed by three bytes per pixel, in input order |
| Decimal.ValueOfFormat | src/output/ppm.rs:33 | a number printed in decimal reads back as itself |
| Decimal.FormatInjective | src/output/ppm.rs:33 | different numbers print differently |
| Decimal.ParseFormatted | src/output/ppm.rs:33 | a printed number followed by a separator reads back with the rest of the text |
| Eta.Split | src/main.rs:54-57 | hours, minutes and seconds add back up to the total, with minutes and seconds below 60 |
| Eta.SplitUnique | src/main.rs:54-57 | that split is the only one with minutes and seconds below 60 |
| Eta.TextReadsBack | src/main.rs:58-64 | the display reads back as the total number of seconds |
| Eta.ReadJoin | src/main.rs:58-63 | runs of digits joined by `:` read back as their base-60 value |
| Eta.FieldsValue | src/main.rs:58-63 | the fields printed for `H:MM:SS`, `M:SS` and `S` are runs of digits whose base-60 value is `3600·H + 60·M + S` |
| Eta.JoinColon | src/main.rs:58-63 | the printed text has a colon exactly when it has more than one field |
| Eta.TextShape | src/main.rs:58-64 | below a minute the display is the bare seconds, and it has a colon exactly from one minute up |
| Tiles.StepInGrid | src/common/raytracer.rs:80-99 | at a grid tile, a claim returns that tile and moves the cursor 16 to the right, or to the start of the next tile row at the edge, and stops the worker exactly at the last tile |
| Tiles.RunFrom | src/common/raytracer.rs:80-99 | claims from any grid tile return the rest of the grid in row-major order, the last one stopping the worker, and leave the cursor at `(0, rows·16)` |
| Tiles.ExhaustedWide | src/common/raytracer.rs:88-95 | for an image wider than 16, a claim at the exhausted cursor restores it and returns without a tile |
| Tiles.ExhaustedNarrow | src/common/raytracer.rs:88-95 | for an image at most 16 wide, a claim at the exhausted cursor returns a tile outside the image and pushes the cursor down a tile row |
| Tiles.RunExhausted | src/common/raytracer.rs:79-99 | once the cursor is exhausted, every further claim stops its worker and no in-image tile is handed out |
| Tiles.GridRun | src/common/raytracer.rs:79-99 | from `(0, 0)` the claims return exactly the grid in row-major order, and only the last claim stops its worker |
| Tiles.ClaimsWithin | src/common/raytracer.rs:79-99 | the first `n` claims return the first `n` grid tiles |
| Tiles.ClaimsBeyond | src/common/raytracer.rs:79-99 | however many more claims follow, the in-image tiles returned are the grid, each once |
| Tiles.Claims | src/common/raytracer.rs:79-99 | any number of claims returns a row-major prefix of the grid, plus only out-of-image tiles |
| Tiles.ClaimKeeps | src/common/raytracer.rs:79-99 | a claim by any active worker keeps the shared state consistent with the sequential run of claims |
| Tiles.ScheduleKeeps | src/common/raytracer.rs:79-99 | under any interleaving of workers the state stays consistent with the sequential run |
| Tiles.AllStopped | src/common/raytracer.rs:79-99 | when every worker has stopped, the in-image tiles claimed are exactly the grid, in row-major claim order, whatever the interleaving |
| Tiles.GridExactlyOnce | src/common/raytracer.rs:80-99 | the grid holds exactly the origins that are multiples of 16 inside the image, each once |
| Tiles.FromMembers | src/common/raytracer.rs:80-99 | the tiles from a grid position on are the aligned origins at or after it in row-major order |
| Tiles.FromDistinct | src/common/raytracer.rs:80-99 | no tile is claimed twice |
| Tiles.GridPixels | src/common/raytracer.rs:105-114 | the in-image pixels of all grid tiles add up to `width·height` |
| Tiles.FromPixels | src/common/raytracer.rs:105-114 | the pixels of the tiles from a grid position on are those of the image part not yet covered |
| Render.RenderTile | src/common/raytracer.rs:101-141 | a tile holds at `[j−y][i−x]` the colour of every in-image pixel and zero elsewhere, and counts `min(16, W−x)·min(16, H−y)` pixels |
| Render.RenderRow | src/common/raytracer.rs:105-140 | one row of the tile loop writes that row's in-image pixels only and counts them |
| Render.MixRecovers | src/common/raytracer.rs:102 | the tile seed `seed ^ x ^ y` determines the global seed, so different seeds give a tile different generators |
| Render.MixSymmetric | src/common/raytracer.rs:102 | the tile seed is the same for `(x, y)` and `(y, x)`, and the global seed on the diagonal |
| Render.SumConstant | src/common/raytracer.rs:115-136 | summing `n` equal samples gives `n` times the sample |
| Render.AverageConstant | src/common/raytracer.rs:137-138 | the stored pixel of equal samples is that sample |
| Render.RayColor | src/common/raytracer.rs:32-57 | each call raises `peak_depth` by at least 1 and at most `max(depth, 0) + 1` |
| Render.PathEnds | src/common/raytracer.rs:41-56 | depth at most 0 gives black, a miss gives the background, an absorbed hit gives its emission, each counted as one call |
| Render.Bounce | src/common/raytracer.rs:45-50 | a scattered hit adds its emission and the attenuated colour of the next bounce, one call deeper |
| Render.TraceAgrees | src/common/raytracer.rs:32-57 | the recursion equals an iterative path tracer that carries a throughput and an accumulated colour |
| Render.TraceIsRayColor | src/common/raytracer.rs:32-57 | from black and unit throughput the iterative tracer gives `ray_color` and its call count |
| LibRender.SameColor | src/lib/raytracer.rs:28-49 | the earlier `ray_color` gives the colour of the later one |
| LibRender.PixelIsScaledAverage | src/lib/raytracer.rs:105-112 | the earlier renderer stores the sum of the samples, `samples_per_pixel` times the later average |
| LibRender.RenderTile | src/lib/raytracer.rs:92-115 | a tile holds the sample sums of its in-image pixels, zero elsewhere, and counts exactly those pixels |
| Scanline.DarkScene | src/raytracer.rs:10-27 | with a constant sky, the first `ray_color` is the later one over a scene that emits nothing |
| Scanline.Line | src/raytracer.rs:58-67 | a scanline is the `width` pixels of its row, left to right |
| Scanline.RenderImage | src/raytracer.rs:46-68 | `render` appends the rows from `height − 1` down to 0 and raises the counter by `height` |
| Scanline.LinesLayout | src/raytracer.rs:46-67 | `render` appends `width·height` colours, the `k`-th being pixel `(k % width, height − 1 − k / width)` |
| Framebuffer.PlaceTile | src/main.rs:191-202 | placing a tile fails only when its column start lies beyond the image (the subtraction underflows) with a row inside it |
| Framebuffer.CopyRowEffect | src/main.rs:197-200 | copying a tile row changes the cells `[x, x+16)` of the flipped row only |
| Framebuffer.PlaceRowsEffect | src/main.rs:191-202 | placing a tile writes its in-image pixels to the flipped rows, changes no other cell, and raises the pixel count by the copied widths |
| Framebuffer.PlaceRendered | src/main.rs:191-202 | a rendered tile shows its in-image pixels in the framebuffer and adds its in-image pixel count |
| Framebuffer.PlaceAllShows | src/main.rs:191-202 | after any sequence of rendered tiles, each pixel inside a received tile shows its rendered colour in the flipped row, every other pixel keeps its value, and the count grows by the tiles' in-image pixels |
| Framebuffer.PixelTotalPermutation | src/main.rs:191-202 | the final pixel count does not depend on the order in which tiles arrive |
| Framebuffer.Assemble | src/main.rs:191-202 | when the tiles received are the grid in any order, the framebuffer holds every pixel of the image, flipped, and the count reaches `width·height` |
| Framebuffer.OwnerCovers | src/main.rs:192-200 | each pixel lies in exactly one aligned tile |
| Framebuffer.ChannelFromImage | src/main.rs:82-117 | only bit depths 16 and 32 give samples |
| Framebuffer.RowSamples | src/main.rs:88-97 | a row gives one sample per pixel, the chosen channel of that pixel |
| Framebuffer.FlattenRowMajor | src/main.rs:84-115 | sample `k` is the chosen channel of row `k / width`, column `k % width` |
| Aabb.New | src/aabb.rs:11-21 | `min` and `max` return the corners given to `new` |
| Aabb.SurroundingIsHull | src/aabb.rs:40-52 | the surrounding box contains both boxes and is contained in every box that contains both |
| Aabb.SurroundingAlgebra | src/aabb.rs:40-52 | the surrounding box is commutative, idempotent and associative |
| Aabb.ContainsOrder | src/aabb.rs:40-52 | box containment is reflexive, transitive and antisymmetric |
| Aabb.HitIff | src/aabb.rs:23-38 | the slab test succeeds iff every slab the ray runs parallel to holds its origin, and the latest entry into the crossed slabs, starting from `t_min`, comes before the earliest exit, starting from `t_max` |
| Aabb.SlabWidens | src/aabb.rs:24-37 | a larger box lets in every parallel ray the smaller one does, and on every crossed axis it is entered no later and left no earlier |
| Aabb.HitMonotone | src/aabb.rs:23-38 | a ray that hits a box within an interval hits every box containing it within any wider interval |
| Hittable.SetFaceNormal | src/object/hittable.rs:18-25 | `front_face` is `dot(dir, outward) < 0`; the normal is `outward` or its negation, faces the ray (`dot(dir, normal) = −|dot(dir, outward)|`); no other field changes |
| Hittable.FaceNormalIgnoresSide | src/object/hittable.rs:18-25 | off the tangent plane, flipping the outward normal leaves the stored normal unchanged and flips `front_face` |
| Hittable.BestAppend | src/scene/hittable_list.rs:29-34 | the closest hit over two runs of objects is the nearer of the two, a tie going to the later run |
| Hittable.PickAssoc | src/scene/hittable_list.rs:29-34 | choosing the nearer hit is associative |
| Hittable.QueryNarrow | src/scene/hittable_list.rs:30 | asking an object with a lowered upper bound gives its hit only if it lies below that bound |
| Hittable.BestNarrow | src/scene/hittable_list.rs:30 | the closest hit under a lowered bound is the closest hit, if it lies below the bound |
| Hittable.BestNone | src/scene/hittable_list.rs:26-36 | there is no closest hit iff no object hits in the interval |
| Hittable.BestSome | src/scene/hittable_list.rs:26-36 | a closest hit is the hit of one object that no other object beats, ties going to the later one |
| HittableList.New | src/scene/hittable_list.rs:13-17 | a new list is empty |
| HittableList.Add | src/scene/hittable_list.rs:19-21 | `add` puts the object at the end and keeps all others in place |
| HittableList.AddAllOrder | src/scene/hittable_list.rs:19-21 | `as_ref` shows the objects in the order they were added |
| HittableList.Hit | src/scene/hittable_list.rs:25-37 | the narrowing scan returns the nearest hit over all objects, ties to the later object, and `None` iff no object hits |
| HittableList.HullStep | src/scene/hittable_list.rs:46-53 | surrounding the hull so far with one more box gives the hull of one more object |
| HittableList.BoundingBox | src/scene/hittable_list.rs:39-58 | `None` iff the list is empty or some object lacks a box; otherwise the least box enclosing every object's box |
| RcHittable.SetFaceNormal | src/hittable.rs:18-25 | the first face-normal rule: the same sign test and orientation, and no other field changes |
| RcHittable.SameAsLater | src/hittable.rs:18-25 | the first face-normal rule is the later one |
| RcHittableList.New | src/hittable_list.rs:11-15 | a new list is empty |
| RcHittableList.Add | src/hittable_list.rs:17-19 | `add` puts the object at the end and keeps all others in place |
| RcHittableList.Hit | src/hittable_list.rs:23-35 | the answer lies in `[t_min, t_max]`, is the hit of a listed object, no listed object hits nearer, and it is `None` iff nothing hits |
| Bvh.BoxCompare | src/scene/bvh.rs:15-27 | the comparison fails iff a box is missing, and otherwise orders by the minimum corner on the axis |
| Bvh.Sort | src/scene/bvh.rs:60-71 | the objects are sorted by the chosen key and are a permutation of the input |
| Bvh.InsertSorted | src/scene/bvh.rs:65-71 | inserting into a sorted run keeps it sorted |
| Bvh.BuildEmpty | src/scene/bvh.rs:55-58 | an empty slice never finishes building, as the source recurses forever on it |
| Bvh.BuildOutcome | src/scene/bvh.rs:49-94 | a nonempty slice builds iff every object has a box, and the only error is `NoBoundingBox` |
| Bvh.BuildFuelIrrelevant | src/scene/bvh.rs:49-94 | once the slice is nonempty, the fuel bound does not change the outcome |
| Bvh.BuildLeaves | src/scene/bvh.rs:55-81 | the leaves of a built tree are a permutation of the input objects |
| Bvh.SplitNoDup | src/scene/bvh.rs:76-81 | the two halves together hold the objects of the slice |
| Bvh.BuildWellBoxed | src/scene/bvh.rs:86-90 | every node of a built tree caches the surrounding box of its children's boxes |
| Bvh.CachedBoxIsHull | src/scene/bvh.rs:86-90 | a node's cached box is the least box enclosing its leaves |
| Bvh.HullUnion | src/scene/bvh.rs:89 | surrounding the hulls of two halves gives the hull of both |
| Bvh.AskedAtMostOnce | src/scene/bvh.rs:98-124 | a traversal asks each leaf object at most as often as it occurs, so an aliased child is asked once |
| Bvh.MissedBox | src/scene/bvh.rs:99-100 | for primitives hit only where their box passes the strict slab test, when the node's box is missed no leaf could have been hit, so returning `None` loses nothing |
| Bvh.Combine | src/scene/bvh.rs:107-122 | querying the right child below the left hit and preferring it gives the nearer of the two, ties to the right |
| Bvh.HitIsBest | src/scene/bvh.rs:98-124 | for primitives hit only where their box passes the strict slab test, the traversal returns the closest hit over the node's leaves, as the linear list does |
| Bvh.HitNodeSound | src/scene/bvh.rs:98-124 | whatever the boxes, the traversal answers only with a primitive below the node and that primitive's own hit over the whole interval, never nearer than the closest hit |
| Bvh.TieAtBoxFace | src/scene/bvh.rs:98-124 | for two primitives hit at the same `t` on the face of their box, the traversal keeps the left one while the list keeps the right one: the right subtree, asked up to that `t`, fails the strict slab test |
| Bvh.BuiltHitIsBest | src/scene/bvh.rs:49-124 | for primitives hit only where their box passes the strict slab test, a built tree answers every ray with the closest hit over its leaves |
| Perlin.SwapAt | src/object/perlin.rs:70 | a swap keeps the multiset of entries |
| Perlin.Permute | src/object/perlin.rs:67-72 | `permute` with targets drawn from `0..i` rearranges the entries |
| Perlin.PermuteMovesEverything | src/object/perlin.rs:67-72 | with targets strictly below `i`, every entry of a table of distinct entries leaves its place |
| Perlin.PermuteTwo | src/object/perlin.rs:67-72 | a two-entry table always comes out swapped |
| Perlin.GeneratePermAsWritten | src/object/perlin.rs:58-72 | the table generated as written is a permutation of `0..256` without a fixed point |
| Perlin.Shuffle | src/object/perlin.rs:67-72 | the shuffle with targets drawn from `0..=i` rearranges the entries |
| Perlin.ShuffleReaches | src/object/perlin.rs:67-72 | with targets from `0..=i`, every rearrangement of the input is produced by some sequence of draws |
| Perlin.GeneratePerm | src/object/perlin.rs:58-65 | `generate_perm` gives a permutation of `0..256`, all entries below 256 |
| Perlin.IdentityCounts | src/object/perlin.rs:59-62 | the starting table holds each of `0..n` once |
| Perlin.PermutationBounded | src/object/perlin.rs:58-65 | the entries of a permutation of `0..n` are below `n` |
| Perlin.New | src/object/perlin.rs:16-28 | `new` gives 256 random values and three permutations of `0..256` |
| Perlin.Wrap | src/object/perlin.rs:49-51 | `rem_euclid(256)` lies in `[0, 256)` and differs from its argument by a multiple of 256, negatives included |
| Perlin.WrapPeriodic | src/object/perlin.rs:49-51 | the wrapped coordinate has period 256 |
| Perlin.XorBelow | src/object/perlin.rs:48-51 | the XOR of two numbers below `2^k` is below `2^k` |
| Perlin.Hash | src/object/perlin.rs:48-51 | the XOR of the three permutation entries always indexes inside `floats` |
| Perlin.HashPeriodic | src/object/perlin.rs:48-51 | the lattice lookup has period 256 in each integer coordinate |
| LibArgs.FromStr | src/lib/args.rs:30-44 | a name is accepted only as the scene it names, and anything else is refused with `unknown scene: ` and the input |
| LibArgs.FromStrRoundTrip | src/lib/args.rs:30-44 | each of the seven scenes is selected by its own name, no two share a name, and exactly the seven names are accepted |
| LibArgs.SceneOf | src/lib/args.rs:148-151 | no scene option selects the weekend scene, and a refused name is reported as an argument error quoting it |
| LibArgs.Parse | src/lib/args.rs:122-187 | `--help` wins; an accepted command has a nonzero thread count, no empty output name and nothing left over, and keeps the verbose flag |
| LibArgs.ParseDefaults | src/lib/args.rs:131-156 | without options: every processor, 600 pixels wide, 100 samples, 50 bounces, a seed from the system, no output file, the weekend scene |
| LibArgs.ParseAccepts | src/lib/args.rs:122-187 | a command is accepted iff no help is asked, every option reads, threads are nonzero, the output name is not empty and nothing is left over; the values are those given or the defaults |
| LibArgs.ValidationOrder | src/lib/args.rs:158-180 | a zero thread count is reported before an empty output name, and that before leftover arguments |
| LibArgs.FirstLookupErrorWins | src/lib/args.rs:131-156 | options are read before anything is checked, and the first option that fails to read is the error |
| CliArgs.ShowHelp | src/args.rs:47-55 | the usage text is `HELP` with `{bin}` replaced by the program name, which is inserted verbatim |
| CliArgs.ReplaceFront | src/args.rs:47-55 | an occurrence of the placeholder at the front is replaced and the search resumes after it |
| CliArgs.ReplaceAbsent | src/args.rs:47-55 | text without a brace is left as it is |
| CliArgs.Parse | src/args.rs:57-113 | `--help` wins; an accepted command has a nonzero thread count, no empty output name and nothing left over |
| CliArgs.ParseDefaults | src/args.rs:64-86 | without options: every processor, 600 pixels wide, 100 samples, 50 bounces, the entropy seed, no output file |
| CliArgs.SameAsLater | src/args.rs:57-113 | the first parser accepts and refuses the same commands as the later one, with the same values and errors |

## Left out

- **Floating point.** Colours, ray parameters and box corners are reals, so IEEE rounding,
  infinities and NaN are not modelled. This also leaves out the `u, v` sample jitter, the sky
  gradient (`Scanline.RayColor` takes it as a function), and `f16`/`f32` conversion in
  `channel_from_image`.
- **Aabb.Entry:** a zero direction component is not divided by. The signed infinities that
  `1.0/0.0` gives are modelled by their effect: the slab shuts the ray out unless the origin
  lies inside it. An origin exactly on a slab face, where the source computes `0 · ∞ = NaN`,
  is counted as inside.
- **Geometry, materials and textures.** Spheres, rectangles, media, cameras and textures are
  not modelled. A scene is an oracle from a ray to what it hits and how it scatters.
- **Concurrency.** Threads, the mutex and the tile channel are left out. The cursor step is
  modelled as a sequential state machine. Worker interleavings are an explicit schedule
  (`Tiles.Schedule`), and tile arrival order is an arbitrary permutation.
- **I/O.**
  - `BufWriter` buffering is not modelled. `PngWriter.BufferingInvisible` shows that splitting
    the writes does not change the filtered stream.
  - Standard error output, progress percentages, ray rates and the seed print are not modelled.
  - Write and flush errors are not modelled. The `io::Result` that `write_all(..)?` and
    `flush()?` pass up is left out of `PngChunk.WriteTo`, `PngIdat.IdatWrite`, the `Ppm`
    writers and `PngWriter.End` (chunk.rs:151-232, ppm.rs:30-47, mod.rs:197-205). Only
    `Crc32.Write` and `Crc32.WriteAll` model a failing inner writer.
- **PngWriter.WritePixels:** the destination is described only as of `end`. Once the 8 KiB
  buffer in front of the filter writer fills (`IDAT_SIZE`, mod.rs:153-161), compressed data
  may reach the destination during `write_pixels`. The bytes and their order are the same.
- **Compression.** The zlib encoder is the parameter `deflate`: it maps the filtered scanlines
  to the IDAT pieces it writes.
- **Dither.** Dithering is not modelled. The pixel writers receive already-quantised samples.
- **PngChunk.GammaInt:** the product `gamma * 100000.0` is exact real arithmetic. The
  truncation toward zero and the saturation of the cast are modelled; IEEE rounding of the
  product is not. The sRGB case is stated as 45454.
- **PngChunk.YearU16:** the UTC conversion of `OffsetDateTime` is not modelled. The timestamp
  fields arrive already split.
- **PngIdat.IdatTestVector:** does not check the four CRC bytes `62 60 9a cd` of the test. The
  trailer is stated as the CRC-32 of the tag and data rather than evaluated over 116 bytes.
- **Integer widths.**
  - `usize` and `u64` values are unbounded naturals. The `u32` casts of the width, height and
    length fields are written out as reductions modulo 2^32.
  - The `i32` of `peak_depth` is unbounded.
  - The `max_depth as i32` cast is not modelled.
- **Bvh.BuildLeaves:** assumes the input holds no object twice. The traversal's "aliased child"
  test is pointer equality, which the model reads as equality of object identities.
- **Bvh.HitIsBest:** assumes every hit passes the strict slab test of the primitive's own box
  (`BoxedHits`). A sphere hit exactly on its box face, at the end of the query interval, does
  not: the source then skips a subtree that holds a hit tied with the left side's, and keeps
  the left hit where the list keeps the later one (`Bvh.TieAtBoxFace`). For such hits only
  `Bvh.HitNodeSound` is promised: the answer is a genuine hit, never nearer than the closest.
- **Bvh.MissedBox:** assumes the same strict premise. A box touched by the ray at a single time
  fails the slab test, so a primitive hit at that very time is skipped.
- **Bvh.BuiltHitIsBest:** assumes the same strict premise as `Bvh.HitIsBest`.
- **Bvh.Sort:** does not state stability. The comparator's failure is modelled as "some object
  lacks a box", which is exactly when `box_compare` fails.
- **BVH construction.** The random axis choice is a function of the slice being split, rather
  than a draw from a threaded generator. A primitive has one box (`Obj.box`): the box the
  sort compares, which the source asks for at times (0, 0) (bvh.rs:20-21), and the box the node
  encloses, asked for at (`time0`, `time1`) (bvh.rs:86-87), are taken to be the same. For a
  moving sphere they differ, so its tree shape, and the node boxes, can differ from the model's.
- **Hit records.** `HitRecord` is reduced to the parameter `t` and the object hit, apart from
  the face-normal rule.
- **Perlin noise.** The smoothing, trilinear interpolation and `floor` of `noise` are left out.
  The `as isize` cast of the floored coordinate is an integer argument. The random draws of
  `permute` and `new` are sequences of numbers given as parameters.
- **Render.RayColor:** does not model the debug depth shading. Samples-per-pixel of zero (a
  division by zero in floating point) is excluded from `Render.AverageConstant` by its
  precondition.
- **Image width of zero.** The tile lemmas that need a grid take `width > 0`. With width 0 the
  cursor step still advances, but there is no image to cover.
- **Scene presets and `main` orchestration.** The preset scenes, the choice of output format,
  and the EXR encoder are left out.
- **LibArgs.Parse:** option lookups of the argument library are abstracted. Each option is
  absent, given and parsed, or given and unparsable. The leftover arguments and the entropy
  source are parameters. `show_help` of `lib/args.rs`, which formats the program name and
  thread count, is not modelled.
- **CliArgs.Parse:** the panics of `getrandom(..).unwrap()` and of `args_os().next().unwrap()`
  are not modelled. The entropy is a given number and the program name a given string.

## Findings

| source | as written | input that shows it | evidently intended | confidence | as-written member | corrected member |
|---|---|---|---|---|---|---|
| src/object/perlin.rs:67-72 | `permute` draws each swap target with `gen_range(0..i)`, which excludes `i`. That is Sattolo's algorithm: it only produces cyclic permutations, so no entry can stay in place | the table `[0, 1]` always comes out `[1, 0]`; every generated 256-entry table is a permutation with no fixed point | a uniform Fisher–Yates shuffle with targets from `0..=i`, as in the algorithm the code follows, which can produce every permutation | medium, not executed | Perlin.PermuteTwo | Perlin.ShuffleReaches |
