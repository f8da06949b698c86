/** The PNG container as `png_bytes` writes it: the signature, chunk framing
    (length, type, data, CRC), the IHDR data for 8-bit RGBA, and a reader for the
    chunk stream that serves as the framing's inverse. */
module PngFormat {
  import opened BigEndian

  /** The exceptions `png_bytes` can raise, one per library call that can fail. */
  datatype PngError =
    | StructError             // struct.pack: an '>I' field outside 0 .. 2^32 - 1
    | IndexError(index: nat)  // pixels[index]: the pixel list ended before index
    | ValueError(index: nat)  // bytes([r, g, b, a]): a channel of pixels[index] outside 0 .. 255

  datatype Result<T> = Ok(value: T) | Err(error: PngError)

  datatype Option<T> = None | Some(value: T)

  /** The eight-byte PNG signature (section 5.2 of the PNG specification). */
  const SIGNATURE: Bytes := [0x89, 0x50, 0x4E, 0x47, 0x0D, 0x0A, 0x1A, 0x0A]

  /** Chunk type codes, ASCII "IHDR", "IDAT" and "IEND" (section 11.2 of the
      PNG specification). */
  const IHDR: Bytes := [0x49, 0x48, 0x44, 0x52]
  const IDAT: Bytes := [0x49, 0x44, 0x41, 0x54]
  const IEND: Bytes := [0x49, 0x45, 0x4E, 0x44]

  /** IHDR fields the icon generator always writes: 8 bits per channel, colour
      type 6 (truecolour with alpha), compression 0, filter method 0, no interlace. */
  const BIT_DEPTH: byte := 8
  const COLOUR_TYPE_RGBA: byte := 6

  /** Length of a chunk's framing: four length bytes, four type bytes, four CRC bytes. */
  const CHUNK_OVERHEAD: nat := 12

  /** The inner helper `chunk(tag, data)`: the data length as '>I', the type, the
      data, then the CRC-32 of type and data masked to 32 bits as '>I'.
      `crc32` stands for `zlib.crc32`; `& 0xFFFFFFFF` is `% 2^32` on every integer. */
  function Chunk(crc32: Bytes -> int, tag: Bytes, data: Bytes): (r: Result<Bytes>)
    ensures r.Ok? <==> IsU32(|data|)
    ensures r.Ok? ==> |r.value| == |tag| + |data| + 8
  {
    if IsU32(|data|) then
      var c := tag + data;
      Ok(PackU32(|data|) + c + PackU32(crc32(c) % U32_BOUND))
    else
      Err(StructError)
  }

  /** The CRC field `chunk` writes for a type and its data. */
  function ChunkCrc(crc32: Bytes -> int, tag: Bytes, data: Bytes): (n: int)
    ensures IsU32(n)
  {
    crc32(tag + data) % U32_BOUND
  }

  /** The four fields of a chunk as it stands in the byte stream. */
  datatype ChunkRecord = ChunkRecord(tag: Bytes, data: Bytes, crc: int)

  /** Reads one chunk off the front of `s` (section 5.3 of the PNG
      specification): the length field says how many data bytes follow the
      type; the CRC follows the data. */
  function ReadChunk(s: Bytes): (r: Option<(ChunkRecord, Bytes)>)
    ensures r.Some? ==> |r.value.0.tag| == 4
    ensures r.Some? ==> |s| == CHUNK_OVERHEAD + |r.value.0.data| + |r.value.1|
  {
    if |s| < CHUNK_OVERHEAD then None
    else
      var n := UnpackU32(s[..4]);
      if |s| - CHUNK_OVERHEAD < n then None
      else Some((ChunkRecord(s[4..8], s[8..8 + n], UnpackU32(s[8 + n..12 + n])), s[12 + n..]))
  }

  /** A chunk whose CRC field matches its type and data. */
  predicate CrcValid(crc32: Bytes -> int, c: ChunkRecord) {
    c.crc == ChunkCrc(crc32, c.tag, c.data)
  }

  /** Reads chunks until the bytes run out; None if a chunk is cut short. */
  function ReadChunks(s: Bytes): Option<seq<ChunkRecord>>
    decreases |s|
  {
    if s == [] then Some([])
    else
      match ReadChunk(s)
      case None => None
      case Some((c, rest)) =>
        match ReadChunks(rest)
        case None => None
        case Some(cs) => Some([c] + cs)
  }

  /** A PNG datastream: the signature, then a sequence of chunks. */
  function ParsePng(s: Bytes): Option<seq<ChunkRecord>> {
    if |s| >= |SIGNATURE| && s[..|SIGNATURE|] == SIGNATURE then ReadChunks(s[|SIGNATURE|..]) else None
  }

  lemma Append3(a: Bytes, b: Bytes, c: Bytes)
    ensures a + b + c == a + (b + c)
  {
  }

  lemma ConcatAssoc(a: Bytes, b: Bytes, c: Bytes, d: Bytes)
    ensures a + b + c + d == a + (b + (c + d))
  {
  }

  /** A datastream that starts with the signature is the signature and the rest. */
  lemma SignatureSplit(s: Bytes)
    requires |s| >= |SIGNATURE| && s[..|SIGNATURE|] == SIGNATURE
    ensures s == SIGNATURE + s[|SIGNATURE|..]
  {
  }

  /** A datastream is parsed as the chunks that follow its signature. */
  lemma ParseAfterSignature(rest: Bytes)
    ensures (SIGNATURE + rest)[..|SIGNATURE|] == SIGNATURE
    ensures ParsePng(SIGNATURE + rest) == ReadChunks(rest)
  {
  }

  /** `chunk` frames exactly as section 5.3 of the PNG specification lays out:
      length, type, data, CRC. */
  lemma ChunkLayout(crc32: Bytes -> int, tag: Bytes, data: Bytes)
    requires IsU32(|data|)
    ensures var r := Chunk(crc32, tag, data).value;
      && |r| == |data| + |tag| + 8
      && UnpackU32(r[..4]) == |data|
      && r[4..4 + |tag|] == tag
      && r[4 + |tag|..4 + |tag| + |data|] == data
      && UnpackU32(r[4 + |tag| + |data|..]) == ChunkCrc(crc32, tag, data)
  {
  }

  /** Reading back what `chunk` wrote, with anything after it, recovers the type,
      the data and a valid CRC, and leaves exactly what followed. */
  lemma ChunkReadBack(crc32: Bytes -> int, tag: Bytes, data: Bytes, rest: Bytes)
    requires |tag| == 4 && IsU32(|data|)
    ensures ReadChunk(Chunk(crc32, tag, data).value + rest)
         == Some((ChunkRecord(tag, data, ChunkCrc(crc32, tag, data)), rest))
    ensures CrcValid(crc32, ChunkRecord(tag, data, ChunkCrc(crc32, tag, data)))
  {
    var len, crc := PackU32(|data|), PackU32(ChunkCrc(crc32, tag, data));
    var s := Chunk(crc32, tag, data).value + rest;
    var n := |data|;
    assert s == len + tag + data + crc + rest;
    assert s[..4] == len;
    assert s[4..8] == tag;
    assert s[8..8 + n] == data;
    assert s[8 + n..12 + n] == crc;
    assert s[12 + n..] == rest;
  }

  /** Conversely, every chunk the reader accepts with a valid CRC is exactly the
      bytes `chunk` writes for its type and data. */
  lemma ReadChunkIsChunk(crc32: Bytes -> int, s: Bytes)
    requires ReadChunk(s).Some? && CrcValid(crc32, ReadChunk(s).value.0)
    ensures var (c, rest) := ReadChunk(s).value;
      Chunk(crc32, c.tag, c.data) == Ok(s[..|s| - |rest|])
  {
    var (c, rest) := ReadChunk(s).value;
    var n := |c.data|;
    PackUnpackU32(s[..4]);
    PackUnpackU32(s[8 + n..12 + n]);
    assert PackU32(n) == s[..4];
    assert PackU32(ChunkCrc(crc32, c.tag, c.data)) == s[8 + n..12 + n];
    assert Chunk(crc32, c.tag, c.data).value == s[..4] + (s[4..8] + s[8..8 + n]) + s[8 + n..12 + n];
    assert s[..|s| - |rest|] == s[..4] + (s[4..8] + s[8..8 + n]) + s[8 + n..12 + n];
  }

  /** The IEND chunk `png_bytes` appends has a zero length field and is twelve bytes. */
  lemma IendChunk(crc32: Bytes -> int)
    ensures var r := Chunk(crc32, IEND, []);
      && r.Ok?
      && |r.value| == CHUNK_OVERHEAD
      && r.value[..8] == [0, 0, 0, 0] + IEND
  {
  }

  /** The decoded fields of an IHDR chunk (section 11.2.2 of the PNG specification). */
  datatype Header = Header(width: int, height: int, bitDepth: byte, colourType: byte,
                           compression: byte, filter: byte, interlace: byte)

  function DecodeHeader(d: Bytes): Header
    requires |d| == 13
  {
    Header(UnpackU32(d[..4]), UnpackU32(d[4..8]), d[8], d[9], d[10], d[11], d[12])
  }

  /** `struct.pack('>IIBBBBB', width, height, 8, 6, 0, 0, 0)`: raises unless both
      dimensions fit in 32 bits; otherwise 13 bytes that decode to the dimensions
      and the fixed 8-bit RGBA, non-interlaced settings. */
  function IhdrData(width: int, height: int): (r: Result<Bytes>)
    ensures r.Ok? <==> IsU32(width) && IsU32(height)
    ensures r.Ok? ==> |r.value| == 13
    ensures r.Ok? ==> DecodeHeader(r.value) == Header(width, height, BIT_DEPTH, COLOUR_TYPE_RGBA, 0, 0, 0)
  {
    if IsU32(width) && IsU32(height) then
      var d := PackU32(width) + PackU32(height) + [BIT_DEPTH, COLOUR_TYPE_RGBA, 0, 0, 0];
      assert d[..4] == PackU32(width) && d[4..8] == PackU32(height);
      Ok(d)
    else
      Err(StructError)
  }

  /** Conversely, 13 header bytes that decode to the 8-bit RGBA settings are
      exactly what `struct.pack` writes for the dimensions they hold. */
  lemma IhdrDataOfHeader(d: Bytes)
    requires |d| == 13
    requires var h := DecodeHeader(d);
      h == Header(h.width, h.height, BIT_DEPTH, COLOUR_TYPE_RGBA, 0, 0, 0)
    ensures IhdrData(DecodeHeader(d).width, DecodeHeader(d).height) == Ok(d)
  {
    PackUnpackU32(d[..4]);
    PackUnpackU32(d[4..8]);
    assert d == d[..4] + d[4..8] + [d[8], d[9], d[10], d[11], d[12]];
  }

  /** A non-empty chunk list read from `s` starts with the chunk at the front. */
  lemma ReadChunksFirst(s: Bytes)
    requires ReadChunks(s).Some? && |ReadChunks(s).value| > 0
    ensures ReadChunk(s).Some?
    ensures var (c, rest) := ReadChunk(s).value;
      ReadChunks(rest).Some? && ReadChunks(s).value == [c] + ReadChunks(rest).value
  {
  }

  /** An empty chunk list is read only from nothing. */
  lemma ReadChunksNone(s: Bytes)
    requires ReadChunks(s) == Some([])
    ensures s == []
  {
  }

  /** A stream that reads as chunks, the first with a valid CRC, starts with
      exactly what `chunk` writes for that first chunk. */
  lemma ChunksFramedFirst(crc32: Bytes -> int, s: Bytes)
    requires ReadChunks(s).Some? && |ReadChunks(s).value| > 0
    requires CrcValid(crc32, ReadChunks(s).value[0])
    ensures ReadChunk(s).Some?
    ensures var c := ReadChunks(s).value[0];
            var rest := ReadChunk(s).value.1;
      && Chunk(crc32, c.tag, c.data).Ok?
      && s == Chunk(crc32, c.tag, c.data).value + rest
      && ReadChunks(rest) == Some(ReadChunks(s).value[1..])
  {
    ReadChunksFirst(s);
    ReadChunkIsChunk(crc32, s);
    ReadChunkSplit(s);
  }

  /** The bytes of a chunk the reader accepts, followed by what it leaves, are the input. */
  lemma ReadChunkSplit(s: Bytes)
    requires ReadChunk(s).Some?
    ensures var rest := ReadChunk(s).value.1;
      |rest| <= |s| && s == s[..|s| - |rest|] + rest
  {
    var rest := ReadChunk(s).value.1;
    assert rest == s[|s| - |rest|..];
  }

  /** A stream of exactly three chunks with valid CRCs is the concatenation of
      what `chunk` writes for each of them. */
  lemma ThreeChunksFramed(crc32: Bytes -> int, t: Bytes)
    requires ReadChunks(t).Some? && |ReadChunks(t).value| == 3
    requires var cs := ReadChunks(t).value;
      CrcValid(crc32, cs[0]) && CrcValid(crc32, cs[1]) && CrcValid(crc32, cs[2])
    ensures var cs := ReadChunks(t).value;
      && Chunk(crc32, cs[0].tag, cs[0].data).Ok?
      && Chunk(crc32, cs[1].tag, cs[1].data).Ok?
      && Chunk(crc32, cs[2].tag, cs[2].data).Ok?
      && t == Chunk(crc32, cs[0].tag, cs[0].data).value + Chunk(crc32, cs[1].tag, cs[1].data).value
              + Chunk(crc32, cs[2].tag, cs[2].data).value
  {
    var cs := ReadChunks(t).value;
    ChunksFramedFirst(crc32, t);
    var t1 := ReadChunk(t).value.1;
    assert cs[1..][0] == cs[1];
    ChunksFramedFirst(crc32, t1);
    var t2 := ReadChunk(t1).value.1;
    assert cs[1..][1..][0] == cs[2];
    ChunksFramedFirst(crc32, t2);
    var t3 := ReadChunk(t2).value.1;
    assert cs[1..][1..][1..] == [];
    ReadChunksNone(t3);
  }
}
