/** The writer and the reader agree: decoding the file `png_bytes` writes
    recovers the image it was given. */
module RoundTrip {
  import opened BigEndian
  import opened PngFormat
  import opened Scanlines
  import opened PngDecoder
  import opened PngEncoder

  /** Decoding what `png_bytes` writes gives back the dimensions and the first
      `width * height` pixels, provided the decompressor inverts the compressor. */
  lemma EncodeThenDecode(width: nat, height: nat, pixels: seq<Pixel>, compress: Bytes -> Bytes,
                         decompress: Bytes -> Bytes, crc32: Bytes -> int)
    requires EncodePng(width, height, pixels, compress, crc32).Ok?
    requires forall b :: decompress(compress(b)) == b
    ensures 0 <= height * width <= |pixels|
    ensures DecodePng(EncodePng(width, height, pixels, compress, crc32).value, crc32, decompress)
         == Some(Image(width, height, pixels[..height * width]))
  {
    MulIsProduct(height, width);
    EncodePngLayout(width, height, pixels, compress, crc32);
    UnfilterRaw(width, height, pixels);
    DecodeWellFormed(EncodePng(width, height, pixels, compress, crc32).value, crc32, decompress,
                     width, height);
  }

  /** A file the decoder accepts is the signature and the three chunks
      `chunk` writes for its header, its image data and an empty IEND. */
  lemma DecodedFraming(s: Bytes, crc32: Bytes -> int, decompress: Bytes -> Bytes)
    requires DecodePng(s, crc32, decompress).Some?
    ensures ParsePng(s).Some? && |ParsePng(s).value| == 3
    ensures var cs := ParsePng(s).value;
      && |cs[0].data| == 13 && IsU32(|cs[1].data|)
      && s == SIGNATURE + Chunk(crc32, IHDR, cs[0].data).value
              + Chunk(crc32, IDAT, cs[1].data).value + Chunk(crc32, IEND, []).value
  {
    DecodedShape(s, crc32, decompress);
    SignatureSplit(s);
    ThreeChunksFramed(crc32, s[|SIGNATURE|..]);
  }

  /** Conversely, every file the decoder accepts is the one `png_bytes` writes
      for the decoded image, provided compressing the decompressed image data
      gives back the stored image data (as it does for IDAT data that the same
      compressor produced). */
  lemma DecodeThenEncode(s: Bytes, compress: Bytes -> Bytes, decompress: Bytes -> Bytes,
                         crc32: Bytes -> int)
    requires DecodePng(s, crc32, decompress).Some?
    requires ParsePng(s).Some? && |ParsePng(s).value| == 3
    requires compress(decompress(ParsePng(s).value[1].data)) == ParsePng(s).value[1].data
    ensures var img := DecodePng(s, crc32, decompress).value;
      EncodePng(img.width, img.height, img.pixels, compress, crc32) == Ok(s)
  {
    var img := DecodePng(s, crc32, decompress).value;
    DecodedShape(s, crc32, decompress);
    DecodedFraming(s, crc32, decompress);
    var cs := ParsePng(s).value;
    var raw := decompress(cs[1].data);
    IhdrDataOfHeader(cs[0].data);
    DecodedRaw(s, crc32, decompress);
    ScanlineDataOk(img.width, img.height, img.pixels);
    EncodePngOfParts(img.width, img.height, img.pixels, compress, crc32, cs[0].data, raw);
  }
}
