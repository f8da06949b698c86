# A verified model of the icon generator's PNG writer

The icon generator draws its icons in memory and writes each one with
`png_bytes(width, height, pixels)`. That function turns a row-major list of
`(r, g, b, a)` tuples into a complete PNG file. The file is made of:

- the eight-byte signature `89 50 4E 47 0D 0A 1A 0A`;
- an IHDR chunk giving the width, the height and the fixed settings: 8 bits
  per channel, colour type 6 (truecolour with alpha), compression 0, filter
  method 0 and no interlacing;
- one IDAT chunk holding the compressed scanlines, where every row is a
  filter-type byte 0 ("None") followed by four octets per pixel;
- an empty IEND chunk.

The inner helper `chunk(tag, data)` frames each chunk. It writes the data
length as a big-endian 32-bit field, then the type and the data, then the
CRC-32 of type and data, masked to 32 bits.

The model has these modules:

- `BigEndian`: octets and the `'>I'` field that `struct.pack` writes. The
  unpacking `UnpackU32` is its inverse.
- `PngFormat`: the signature and chunk framing, and the IHDR data. It also
  holds a chunk reader (`ReadChunk`, `ReadChunks`, `ParsePng`) that serves as
  the inverse the framing is proved against.
- `Scanlines`: the uncompressed image data. It has the buffer as a function of
  the pixels (`Raw`), the row layout, and its inverse `Unfilter`.
- `PngEncoder`: `png_bytes` itself.
  - The method `PngBytes` runs the nested loops in the methods
    `ScanlineLoop` and `WriteRow`.
  - `PngBytes` is proved equal to the specification function `EncodePng`,
    and `ScanlineLoop` to `ScanlineData`. The contract of `WriteRow` gives
    the row it appends, or the exception the whole loop raises.
  - Lemmas about those functions state when the call succeeds, what it raises
    and the layout of the file.
- `PngDecoder`: a reader for files of exactly the writer's shape, returning
  the image.
- `RoundTrip`: the writer and that reader are inverse to each other, as far
  as the compressor allows.
  - Decoding a written file gives back the image, when decompression inverts
    compression.
  - Every file the reader accepts is the one the writer produces for the
    image it decodes, provided compressing the decompressed IDAT data gives
    that data back. Without that condition it fails: IDAT data written by
    another compressor, or at another zlib level, decompresses to the same
    scanlines but differs from what `png_bytes` writes.

Python's exceptions become the `Err` side of a `Result`:

- `struct.error` is raised for a dimension, or a compressed length, outside
  0 .. 2^32 - 1.
- `IndexError` is raised when the pixel list ends too early.
- `ValueError` is raised when `bytes([r, g, b, a])` meets a channel outside
  0 .. 255.

Failures are decided in the order the source meets them: the IHDR field first,
then the first faulty pixel in row-major order, then the IDAT length. The
mask `& 0xFFFFFFFF` is modelled as `% 2^32`, which agrees with Python for
every integer, negative ones included.

`zlib.compress` and `zlib.crc32` are parameters of the model, as function
values `compress` and `crc32`.

## Model

| member | source | states |
|---|---|---|
| `BigEndian.PackU32` | icons/generate_icons.py:19 | `struct.pack('>I', n)` accepts exactly 0 .. 2^32 - 1 and gives four octets whose big-endian value is `n` |
| `BigEndian.PackUnpackU32` | icons/generate_icons.py:19 | conversely, every four-octet field is the packing of the value it holds, so the `'>I'` encoding is a bijection onto four-byte strings |
| `PngFormat.Chunk` | icons/generate_icons.py:17-19 | `chunk` succeeds exactly when `len(data) < 2^32` (else `struct.error`) and writes `len(tag) + len(data) + 8` bytes |
| `PngFormat.ChunkCrc` | icons/generate_icons.py:19 | the CRC field `zlib.crc32(c) & 0xFFFFFFFF` is always in 0 .. 2^32 - 1, so its `'>I'` packing never raises |
| `PngFormat.ChunkLayout` | icons/generate_icons.py:17-19 | the chunk is the length field decoding to `len(data)`, then the type, then the data, then a field decoding to `crc32(tag + data) & 0xFFFFFFFF` |
| `PngFormat.ChunkReadBack` | icons/generate_icons.py:17-19 | reading a written chunk followed by any bytes recovers the type, the data and a matching CRC, and leaves exactly the following bytes |
| `PngFormat.ReadChunkIsChunk` | icons/generate_icons.py:17-19 | conversely, every chunk the reader accepts with a matching CRC is byte for byte what `chunk` writes for its type and data |
| `PngFormat.IhdrData` | icons/generate_icons.py:21 | `struct.pack('>IIBBBBB', width, height, 8, 6, 0, 0, 0)` succeeds exactly when both dimensions fit 32 bits, is 13 bytes, and decodes to width, height, 8, 6, 0, 0, 0 in that order |
| `PngFormat.IhdrDataOfHeader` | icons/generate_icons.py:21 | conversely, any 13 header bytes that decode to 8-bit RGBA with zero compression, filter and interlace are what `struct.pack` writes for their dimensions |
| `PngFormat.IendChunk` | icons/generate_icons.py:31 | the IEND chunk is 12 bytes and starts with length field 0 and the type `IEND` |
| `PngFormat.ThreeChunksFramed` | icons/generate_icons.py:30-32 | a stream of three chunks with matching CRCs is exactly the concatenation of what `chunk` writes for each of them |
| `Scanlines.FirstFault` | icons/generate_icons.py:26-28 | finds nothing exactly when the first `n` pixels exist with octet channels; otherwise finds the first index that is missing or out of range |
| `Scanlines.Channels` | icons/generate_icons.py:28 | `bytes([r, g, b, a])` needs every channel in 0 .. 255 and gives exactly four octets |
| `Scanlines.Raw` | icons/generate_icons.py:23-28 | the buffer the loop builds for the first `height * width` pixels has exactly `height * (1 + 4 * width)` bytes |
| `Scanlines.RawFilterByte` | icons/generate_icons.py:24-25 | row `y` starts with filter type 0 at offset `y * (1 + 4 * width)` |
| `Scanlines.RawChannel` | icons/generate_icons.py:26-28 | channel `c` of pixel `(x, y)` is at offset `y * (1 + 4 * width) + 1 + 4 * x + c` and holds that channel of `pixels[y * width + x]` |
| `Scanlines.Unfilter` | icons/generate_icons.py:23-28 | stripping the filter bytes of `rows` scanlines gives `rows * width` pixels, or nothing when a row's filter type is not 0 |
| `Scanlines.UnfilterRaw` | icons/generate_icons.py:23-28 | stripping each row's filter byte and regrouping in fours gives back the first `width * height` pixels in row-major order |
| `Scanlines.RawUnfilter` | icons/generate_icons.py:23-28 | conversely, every buffer `Unfilter` accepts is the one the loop writes for the pixels it recovers |
| `PngEncoder.ScanlineData` | icons/generate_icons.py:23-28 | the loop finishes exactly when the first `width * height` pixels fit, and then gives a buffer of `height * (1 + 4 * width)` bytes; otherwise it raises `IndexError` or `ValueError` for the first faulty pixel |
| `PngEncoder.WriteRow` | icons/generate_icons.py:25-28 | the inner loop appends filter byte 0 and the channels of row `y`; or it raises the same exception as the whole loop, for a pixel index inside row `y` |
| `PngEncoder.ScanlineLoop` | icons/generate_icons.py:23-28 | the nested loops produce exactly `ScanlineData`: the buffer, or the first pixel's exception |
| `PngEncoder.EncodePng` | icons/generate_icons.py:15-32 | `png_bytes` as a function: a returned file starts with the signature and holds at least the signature and three chunk frames with 13 header bytes |
| `PngEncoder.PngBytes` | icons/generate_icons.py:15-32 | `png_bytes` returns or raises exactly what `EncodePng` says |
| `PngEncoder.EncodePngSucceeds` | icons/generate_icons.py:15-32 | `png_bytes` returns (rather than raises) if and only if both dimensions fit 32 bits, the first `width * height` pixels fit, and the compressed data is shorter than 2^32 bytes |
| `PngEncoder.EncodePngErrors` | icons/generate_icons.py:15-32 | what is raised: `struct.error` for bad dimensions, else the first faulty pixel's error, else `struct.error` for an oversized IDAT |
| `PngEncoder.EncodePngReportsFirstFault` | icons/generate_icons.py:26-28 | with valid dimensions, the first missing pixel raises `IndexError` and the first out-of-range pixel raises `ValueError`; the model also records that pixel's index |
| `PngEncoder.EncodePngLayout` | icons/generate_icons.py:30-32 | the file is the signature followed by exactly IHDR (13 data bytes, the dimensions, 8-bit RGBA), IDAT (the compressed buffer) and an empty IEND, in that order, each with a valid CRC, with total length `8 + 25 + (12 + len(idat data)) + 12` |
| `PngDecoder.DecodePng` | icons/generate_icons.py:15-32 | a file of the writer's shape decodes to an image of 32-bit dimensions with `height * width` pixels |
| `RoundTrip.EncodeThenDecode` | icons/generate_icons.py:15-32 | decoding what `png_bytes` writes gives back the dimensions and the first `width * height` pixels, if decompression inverts compression |
| `RoundTrip.DecodeThenEncode` | icons/generate_icons.py:15-32 | every file the reader accepts is exactly what `png_bytes` writes for the decoded image, if compressing the decompressed IDAT data gives back that stored data (true of IDAT data the same compressor produced) |

## Left out

- `draw_icon`, `lerp` and `main` (icons/generate_icons.py:35-113) are not part of this model. They are floating-point drawing and file output.
- `zlib.compress(raw, 9)` is the parameter `compress`. DEFLATE and the compression level are not modelled. Decoding a written file assumes `decompress(compress(b)) == b`, which zlib guarantees. The converse round trip assumes only that compressing the decompressed IDAT data of the file gives that data back.
- `zlib.crc32` is the parameter `crc32`. The CRC-32 algorithm of section 5.5 of the PNG specification is not modelled, so a "valid CRC" means one that agrees with that parameter.
- Pixels are 4-field records of integers. A tuple of the wrong arity, or a non-integer channel, would make Python raise during unpacking or in `bytes(...)`; neither is modelled.
- The errors `IndexError(k)` and `ValueError(k)` carry the failing pixel index `k`. That index exists only in the model: Python's messages ("list index out of range", "bytes must be in range(0, 256)") do not contain it, and a caller sees only the exception type.
- Python rebinds `raw` to a new immutable `bytes` object on each `+=`. The model reassigns a sequence, so the quadratic copying cost is not captured.
- Pixels past index `width * height` are ignored by the source and by the model.
- `PngDecoder.DecodePng` is a reader written for this model as the writer's inverse. It is not in the source. It accepts only the writer's shape: three chunks IHDR, IDAT and IEND, 8-bit RGBA, and filter type 0 on every row. It does not handle ancillary chunks, several IDAT chunks or other filter types.
