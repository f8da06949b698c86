/** `png_bytes(width, height, pixels)`: the whole file for a `width` by
    `height` RGBA image. `compress` stands for `zlib.compress(raw, 9)` and
    `crc32` for `zlib.crc32`; both are parameters because their algorithms are
    not part of this model. */
module PngEncoder {
  import opened BigEndian
  import opened PngFormat
  import opened Scanlines

  /** What `png_bytes` returns or raises, as a function of its arguments.
      The steps run in the source's order: the IHDR chunk (struct.pack raises
      for dimensions outside 32 bits), the scanline loop (the first pixel in
      row-major order that is missing or not four octets raises), then the
      IDAT chunk (struct.pack raises if the compressed data is 2^32 bytes or
      longer); IEND cannot fail. */
  function EncodePng(width: int, height: int, pixels: seq<Pixel>,
                     compress: Bytes -> Bytes, crc32: Bytes -> int): (r: Result<Bytes>)
    ensures r.Ok? ==> |r.value| >= |SIGNATURE| + 3 * CHUNK_OVERHEAD + 13
    ensures r.Ok? ==> r.value[..|SIGNATURE|] == SIGNATURE
  {
    match IhdrData(width, height)
    case Err(e) => Err(e)
    case Ok(header) =>
      match ScanlineData(width, height, pixels)
      case Err(e) => Err(e)
      case Ok(raw) =>
        match Chunk(crc32, IDAT, compress(raw))
        case Err(e) => Err(e)
        case Ok(idat) =>
          Ok(SIGNATURE + Chunk(crc32, IHDR, header).value + idat + Chunk(crc32, IEND, []).value)
  }

  /** The outcome of the scanline loop: the uncompressed image data, or the
      exception of the first pixel, in row-major order, that is missing or has
      a channel outside 0 .. 255. */
  function ScanlineData(width: nat, height: nat, pixels: seq<Pixel>): (r: Result<Bytes>)
    ensures r.Ok? <==> AllFit(pixels, height * width)
    ensures r.Ok? ==> |r.value| == height * (1 + 4 * width)
    ensures r.Err? ==> !r.error.StructError? && r.error.index < height * width
                       && Faulty(pixels, r.error.index) && AllFit(pixels, r.error.index)
                       && r.error == FaultAt(pixels, r.error.index)
  {
    match FirstFault(pixels, height * width)
    case Some(k) => Err(FaultAt(pixels, k))
    case None =>
      Ok(Raw(width, height, pixels))
  }

  /** When every pixel fits, the loop's outcome is the buffer `Raw` describes. */
  lemma ScanlineDataOk(width: nat, height: nat, pixels: seq<Pixel>)
    requires AllFit(pixels, height * width)
    ensures ScanlineData(width, height, pixels) == Ok(Raw(width, height, pixels))
  {
  }

  /** `png_bytes` returns, rather than raises, exactly when both dimensions fit
      in 32 bits, the first `height * width` pixels exist with octet channels,
      and the compressed scanlines are shorter than 2^32 bytes. */
  lemma EncodePngSucceeds(width: int, height: int, pixels: seq<Pixel>,
                          compress: Bytes -> Bytes, crc32: Bytes -> int)
    ensures EncodePng(width, height, pixels, compress, crc32).Ok?
        <==> IsU32(width) && IsU32(height) && AllFit(pixels, height * width)
             && IsU32(|compress(Raw(width, height, pixels))|)
  {
  }

  /** Whatever `png_bytes` raises is one of its three failures: struct.error
      for the dimensions or for the compressed length, or the error of a pixel
      among the first `height * width` that is missing or out of range. */
  lemma EncodePngErrors(width: int, height: int, pixels: seq<Pixel>,
                        compress: Bytes -> Bytes, crc32: Bytes -> int)
    requires EncodePng(width, height, pixels, compress, crc32).Err?
    ensures var e := EncodePng(width, height, pixels, compress, crc32).error;
      if !(IsU32(width) && IsU32(height)) then e == StructError
      else if AllFit(pixels, height * width) then
        e == StructError && !IsU32(|compress(Raw(width, height, pixels))|)
      else
        !e.StructError? && e.index < height * width && e == FaultAt(pixels, e.index)
        && Faulty(pixels, e.index) && AllFit(pixels, e.index)
  {
  }

  /** The exception the loop raises names the first pixel, in row-major order,
      that is missing or has a channel outside 0 .. 255. */
  lemma EncodePngReportsFirstFault(width: int, height: int, pixels: seq<Pixel>,
                                   compress: Bytes -> Bytes, crc32: Bytes -> int, k: nat)
    requires IsU32(width) && IsU32(height) && k < height * width
    requires Faulty(pixels, k) && AllFit(pixels, k)
    ensures EncodePng(width, height, pixels, compress, crc32) == Err(FaultAt(pixels, k))
    ensures k < |pixels| ==> EncodePng(width, height, pixels, compress, crc32) == Err(ValueError(k))
    ensures k >= |pixels| ==> EncodePng(width, height, pixels, compress, crc32) == Err(IndexError(k))
  {
    FirstFaultIs(pixels, height * width, k);
  }

  /** Reading a chunk `chunk` wrote, followed by a readable chunk stream. */
  lemma ReadChunksCons(crc32: Bytes -> int, tag: Bytes, data: Bytes, rest: Bytes)
    requires |tag| == 4 && IsU32(|data|) && ReadChunks(rest).Some?
    ensures ReadChunks(Chunk(crc32, tag, data).value + rest)
         == Some([ChunkRecord(tag, data, ChunkCrc(crc32, tag, data))] + ReadChunks(rest).value)
  {
    ChunkReadBack(crc32, tag, data, rest);
  }

  /** A successful result is the signature and the three chunks. */
  lemma EncodePngValue(width: int, height: int, pixels: seq<Pixel>,
                       compress: Bytes -> Bytes, crc32: Bytes -> int)
    requires EncodePng(width, height, pixels, compress, crc32).Ok?
    ensures IsU32(width) && IsU32(height) && AllFit(pixels, height * width)
    ensures var z := compress(Raw(width, height, pixels));
      && IsU32(|z|)
      && EncodePng(width, height, pixels, compress, crc32).value
         == SIGNATURE + Chunk(crc32, IHDR, IhdrData(width, height).value).value
            + Chunk(crc32, IDAT, z).value + Chunk(crc32, IEND, []).value
  {
  }

  /** Conversely, when the header packs, every pixel fits and the compressed
      data fits a length field, `png_bytes` returns the file those parts make. */
  lemma EncodePngOfParts(width: int, height: int, pixels: seq<Pixel>,
                         compress: Bytes -> Bytes, crc32: Bytes -> int, header: Bytes, raw: Bytes)
    requires IhdrData(width, height) == Ok(header)
    requires ScanlineData(width, height, pixels) == Ok(raw) && IsU32(|compress(raw)|)
    ensures EncodePng(width, height, pixels, compress, crc32)
         == Ok(SIGNATURE + Chunk(crc32, IHDR, header).value
               + Chunk(crc32, IDAT, compress(raw)).value + Chunk(crc32, IEND, []).value)
  {
  }

  /** The three chunks `png_bytes` writes read back as three chunk records. */
  lemma ReadThreeChunks(crc32: Bytes -> int, header: Bytes, z: Bytes)
    requires |header| == 13 && IsU32(|z|)
    ensures ReadChunks(Chunk(crc32, IHDR, header).value
                       + (Chunk(crc32, IDAT, z).value + Chunk(crc32, IEND, []).value))
         == Some([ChunkRecord(IHDR, header, ChunkCrc(crc32, IHDR, header)),
                  ChunkRecord(IDAT, z, ChunkCrc(crc32, IDAT, z)),
                  ChunkRecord(IEND, [], ChunkCrc(crc32, IEND, []))])
  {
    var ihdr := Chunk(crc32, IHDR, header).value;
    var idat := Chunk(crc32, IDAT, z).value;
    var iend := Chunk(crc32, IEND, []).value;
    assert iend == iend + [];
    ReadChunksCons(crc32, IEND, [], []);
    ReadChunksCons(crc32, IDAT, z, iend);
    ReadChunksCons(crc32, IHDR, header, idat + iend);
    var r1 := ChunkRecord(IHDR, header, ChunkCrc(crc32, IHDR, header));
    var r2 := ChunkRecord(IDAT, z, ChunkCrc(crc32, IDAT, z));
    var r3 := ChunkRecord(IEND, [], ChunkCrc(crc32, IEND, []));
    assert [r1] + ([r2] + ([r3] + [])) == [r1, r2, r3];
  }

  /** The signature and the three chunks parse back into those three chunks. */
  lemma ParseThreeChunks(crc32: Bytes -> int, header: Bytes, z: Bytes)
    requires |header| == 13 && IsU32(|z|)
    ensures var s := SIGNATURE + Chunk(crc32, IHDR, header).value
                     + Chunk(crc32, IDAT, z).value + Chunk(crc32, IEND, []).value;
      && |s| == |SIGNATURE| + (CHUNK_OVERHEAD + 13) + (CHUNK_OVERHEAD + |z|) + CHUNK_OVERHEAD
      && s[..|SIGNATURE|] == SIGNATURE
      && ParsePng(s) == Some([ChunkRecord(IHDR, header, ChunkCrc(crc32, IHDR, header)),
                              ChunkRecord(IDAT, z, ChunkCrc(crc32, IDAT, z)),
                              ChunkRecord(IEND, [], ChunkCrc(crc32, IEND, []))])
  {
    var ihdr := Chunk(crc32, IHDR, header).value;
    var idat := Chunk(crc32, IDAT, z).value;
    var iend := Chunk(crc32, IEND, []).value;
    ReadThreeChunks(crc32, header, z);
    ParseAfterSignature(ihdr + (idat + iend));
    ConcatAssoc(SIGNATURE, ihdr, idat, iend);
  }

  /** The file is the signature followed by exactly three chunks, each with a
      valid CRC: IHDR with the dimensions and the 8-bit RGBA settings, IDAT with
      the compressed scanlines, and an empty IEND. */
  lemma EncodePngLayout(width: int, height: int, pixels: seq<Pixel>,
                        compress: Bytes -> Bytes, crc32: Bytes -> int)
    requires EncodePng(width, height, pixels, compress, crc32).Ok?
    ensures AllFit(pixels, height * width)
    ensures var s := EncodePng(width, height, pixels, compress, crc32).value;
            var z := compress(Raw(width, height, pixels));
      && |s| == |SIGNATURE| + (CHUNK_OVERHEAD + 13) + (CHUNK_OVERHEAD + |z|) + CHUNK_OVERHEAD
      && s[..|SIGNATURE|] == SIGNATURE
      && ParsePng(s).Some?
      && var cs := ParsePng(s).value;
      && |cs| == 3
      && cs[0].tag == IHDR && |cs[0].data| == 13
      && DecodeHeader(cs[0].data) == Header(width, height, BIT_DEPTH, COLOUR_TYPE_RGBA, 0, 0, 0)
      && cs[1].tag == IDAT && cs[1].data == z
      && cs[2].tag == IEND && cs[2].data == []
      && CrcValid(crc32, cs[0]) && CrcValid(crc32, cs[1]) && CrcValid(crc32, cs[2])
  {
    EncodePngValue(width, height, pixels, compress, crc32);
    ParseThreeChunks(crc32, IhdrData(width, height).value, compress(Raw(width, height, pixels)));
  }

  /** One pass of the outer loop of `png_bytes`: appends row `y`'s filter
      byte 0 and the four channels of each of its pixels, raising at the first
      pixel that is missing or has a channel outside 0 .. 255. */
  method WriteRow(width: nat, height: nat, pixels: seq<Pixel>, y: nat, raw: Bytes)
    returns (r: Result<Bytes>)
    requires y < height && AllFit(pixels, Mul(y, width))
    ensures r.Ok? ==> AllFit(pixels, Mul(y + 1, width)) && Mul(y + 1, width) <= |pixels|
    ensures r.Ok? ==> AllInByteRange(pixels[Mul(y, width)..Mul(y + 1, width)])
    ensures r.Ok? ==> r.value == raw + [FILTER_NONE] + PixelRun(pixels[Mul(y, width)..Mul(y + 1, width)])
    ensures r.Err? ==> r == ScanlineData(width, height, pixels)
    ensures r.Err? ==> Mul(y, width) <= r.error.index < Mul(y + 1, width)
  {
    ghost var start := Mul(y, width);  // y * width, the index of the row's first pixel
    MulIsProduct(height, width);
    MulIsProduct(y, width);
    MulIsProduct(y + 1, width);
    RowBounds(width, height, y);
    AllFitBelow(pixels, start, start);
    var row := raw + [FILTER_NONE];
    var x: nat := 0;
    while x < width
      invariant x <= width && start + x <= |pixels|
      invariant AllFit(pixels, start + x)
      invariant AllInByteRange(pixels[start..start + x])
      invariant row == raw + [FILTER_NONE] + PixelRun(pixels[start..start + x])
    {
      var k := y * width + x;
      if k >= |pixels| || !InByteRange(pixels[k]) {
        FirstFaultIs(pixels, height * width, k);
        return Err(FaultAt(pixels, k));
      }
      AllFitExtend(pixels, k);
      PixelRunSnoc(pixels, start, k);
      Append3(raw + [FILTER_NONE], PixelRun(pixels[start..k]), Channels(pixels[k]));
      row := row + Channels(pixels[k]);
      x := x + 1;
    }
    return Ok(row);
  }

  /** The scanline loop of `png_bytes`: for each row a filter byte 0, then
      for each pixel `pixels[y * width + x]` its four channels, raising at the
      first pixel that is missing or has a channel outside 0 .. 255. */
  method ScanlineLoop(width: nat, height: nat, pixels: seq<Pixel>) returns (r: Result<Bytes>)
    ensures r == ScanlineData(width, height, pixels)
  {
    var raw: Bytes := [];
    var y: nat := 0;
    while y < height
      invariant y <= height && AllFit(pixels, Mul(y, width))
      invariant raw == Rows(width, y, pixels)
    {
      var next := WriteRow(width, height, pixels, y, raw);
      if next.Err? {
        return next;
      }
      RowsStep(width, y + 1, pixels);
      raw := next.value;
      y := y + 1;
    }
    MulIsProduct(height, width);
    return Ok(raw);
  }

  /** `png_bytes` itself: packs the header, runs the scanline loop, then frames
      the compressed buffer and the end marker. It returns or raises exactly as
      `EncodePng` says. */
  method PngBytes(width: int, height: int, pixels: seq<Pixel>,
                  compress: Bytes -> Bytes, crc32: Bytes -> int) returns (r: Result<Bytes>)
    ensures r == EncodePng(width, height, pixels, compress, crc32)
  {
    var header := IhdrData(width, height);
    if header.Err? {
      return Err(header.error);
    }
    var ihdr := Chunk(crc32, IHDR, header.value).value;
    var raw := ScanlineLoop(width, height, pixels);
    if raw.Err? {
      return Err(raw.error);
    }
    var idat := Chunk(crc32, IDAT, compress(raw.value));
    if idat.Err? {
      return Err(idat.error);
    }
    var iend := Chunk(crc32, IEND, []).value;
    r := Ok(SIGNATURE + ihdr + idat.value + iend);
  }
}
