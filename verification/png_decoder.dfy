/** A reader for the files `png_bytes` writes: the inverse against which the
    writer is proved. It accepts exactly the shape the writer produces (the
    signature, then IHDR, IDAT and IEND chunks with valid CRCs, 8-bit RGBA,
    no interlacing, every scanline with filter type 0) and returns the image. */
module PngDecoder {
  import opened BigEndian
  import opened PngFormat
  import opened Scanlines

  /** A decoded image: its dimensions and its pixels in row-major order. */
  datatype Image = Image(width: nat, height: nat, pixels: seq<Pixel>)

  /** The IHDR settings of an 8-bit RGBA, non-interlaced image. */
  predicate IsRgba8(h: Header) {
    h.bitDepth == BIT_DEPTH && h.colourType == COLOUR_TYPE_RGBA
    && h.compression == 0 && h.filter == 0 && h.interlace == 0
  }

  /** Decodes a datastream of the writer's shape; `decompress` stands for the
      zlib decompressor and `crc32` for the CRC-32 the chunks are checked with. */
  function DecodePng(s: Bytes, crc32: Bytes -> int, decompress: Bytes -> Bytes): (r: Option<Image>)
    ensures r.Some? ==> |r.value.pixels| == r.value.height * r.value.width
    ensures r.Some? ==> IsU32(r.value.width) && IsU32(r.value.height)
  {
    match ParsePng(s)
    case None => None
    case Some(cs) =>
      if |cs| != 3 || cs[0].tag != IHDR || cs[1].tag != IDAT || cs[2].tag != IEND then None
      else if !(CrcValid(crc32, cs[0]) && CrcValid(crc32, cs[1]) && CrcValid(crc32, cs[2])) then None
      else if |cs[0].data| != 13 || cs[2].data != [] then None
      else
        var h := DecodeHeader(cs[0].data);
        if !IsRgba8(h) then None
        else
          var width: nat, height: nat := h.width, h.height;
          var raw := decompress(cs[1].data);
          if |raw| != height * (1 + 4 * width) then None
          else
            match Unfilter(raw, width, height)
            case None => None
            case Some(ps) => Some(Image(width, height, ps))
  }

  /** The decoder on a stream of the writer's shape: three chunks IHDR, IDAT
      and IEND with valid CRCs, an 8-bit RGBA header, an empty IEND, and image
      data that decompresses to the size the header implies. */
  lemma DecodeWellFormed(s: Bytes, crc32: Bytes -> int, decompress: Bytes -> Bytes,
                         width: nat, height: nat)
    requires ParsePng(s).Some? && |ParsePng(s).value| == 3
    requires var cs := ParsePng(s).value;
      && cs[0].tag == IHDR && cs[1].tag == IDAT && cs[2].tag == IEND
      && CrcValid(crc32, cs[0]) && CrcValid(crc32, cs[1]) && CrcValid(crc32, cs[2])
      && |cs[0].data| == 13 && cs[2].data == []
      && DecodeHeader(cs[0].data) == Header(width, height, BIT_DEPTH, COLOUR_TYPE_RGBA, 0, 0, 0)
      && |decompress(cs[1].data)| == height * (1 + 4 * width)
    ensures var raw := decompress(ParsePng(s).value[1].data);
      DecodePng(s, crc32, decompress)
      == if Unfilter(raw, width, height).Some?
         then Some(Image(width, height, Unfilter(raw, width, height).value))
         else None
  {
  }

  /** Whatever the decoder accepts has the writer's shape, and the image it
      returns is read from the header and the unfiltered image data. */
  lemma DecodedShape(s: Bytes, crc32: Bytes -> int, decompress: Bytes -> Bytes)
    requires DecodePng(s, crc32, decompress).Some?
    ensures ParsePng(s).Some? && |ParsePng(s).value| == 3
    ensures var cs := ParsePng(s).value;
            var img := DecodePng(s, crc32, decompress).value;
      && cs[0].tag == IHDR && cs[1].tag == IDAT && cs[2].tag == IEND
      && CrcValid(crc32, cs[0]) && CrcValid(crc32, cs[1]) && CrcValid(crc32, cs[2])
      && |cs[0].data| == 13 && cs[2].data == []
      && DecodeHeader(cs[0].data) == Header(img.width, img.height, BIT_DEPTH, COLOUR_TYPE_RGBA, 0, 0, 0)
      && |decompress(cs[1].data)| == img.height * (1 + 4 * img.width)
      && Unfilter(decompress(cs[1].data), img.width, img.height) == Some(img.pixels)
  {
  }

  /** The image data of a file the decoder accepts is the buffer the writer's
      loop builds for the decoded pixels. */
  lemma DecodedRaw(s: Bytes, crc32: Bytes -> int, decompress: Bytes -> Bytes)
    requires DecodePng(s, crc32, decompress).Some?
    ensures ParsePng(s).Some? && |ParsePng(s).value| == 3
    ensures var img := DecodePng(s, crc32, decompress).value;
      && AllFit(img.pixels, img.height * img.width)
      && Raw(img.width, img.height, img.pixels) == decompress(ParsePng(s).value[1].data)
  {
    var img := DecodePng(s, crc32, decompress).value;
    DecodedShape(s, crc32, decompress);
    RawUnfilter(decompress(ParsePng(s).value[1].data), img.width, img.height);
  }
}
