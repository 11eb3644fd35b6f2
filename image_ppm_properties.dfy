/** Properties of the image_ppm.cpp codec: what `read_int` reads back, how
    the header of `save` is decoded, the round trip, and trailing data. */
module ImagePpmProperties {
  import opened PpmBytes
  import opened Decimal
  import opened ImagePpm
  import opened Streams

  /** `read_int` on the text `to_string` renders, followed by a non-digit: it reads
      the value modulo 2^32 and consumes the digits and the terminator. */
  lemma ReadIntOfRendered(data: seq<Byte>, pos: nat, n: nat)
    requires pos + |ToDecimal(n)| < |data|
    requires data[pos..pos + |ToDecimal(n)|] == ToDecimal(n)
    requires !IsDigit(data[pos + |ToDecimal(n)|])
    ensures ReadIntAt(data, pos) == Some(Parsed(n % U32_MODULUS, pos + |ToDecimal(n)| + 1))
  {
    var s := ToDecimal(n);
    forall k | pos <= k < pos + |s|
      ensures IsDigit(data[k])
    {
      assert data[k] == s[k - pos];
    }
    RunLengthUnique(data, pos, IsDigit, |s|);
    FoldToDecimal(n);
  }

  /** `read_int` depends only on the bytes it consumes: any stream that agrees
      on them reads the same value and stops at the same place. */
  lemma ReadIntLocal(data: seq<Byte>, other: seq<Byte>, pos: nat)
    requires pos <= |data| && ReadIntAt(data, pos).Some?
    requires ReadIntAt(data, pos).value.next <= |other|
    requires forall k :: pos <= k < ReadIntAt(data, pos).value.next ==> other[k] == data[k]
    ensures ReadIntAt(other, pos) == ReadIntAt(data, pos)
  {
    var next := ReadIntAt(data, pos).value.next;
    RunLengthUnique(data, pos, IsDigit, next - 1 - pos);
    RunLengthUnique(other, pos, IsDigit, next - 1 - pos);
    assert other[pos..next - 1] == data[pos..next - 1];
  }

  /** The header decoder on any stream that starts with the magic bytes and three
      rendered fields, each followed by a non-digit. */
  lemma HeaderOfFields(data: seq<Byte>, height: nat, width: nat, maxBrightness: nat, p1: nat, p2: nat, p3: nat)
    requires 3 <= |data| && data[..3] == MAGIC
    requires p1 == 3 + |ToDecimal(height)| + 1 && p2 == p1 + |ToDecimal(width)| + 1
    requires p3 == p2 + |ToDecimal(maxBrightness)| + 1 && p3 <= |data|
    requires data[3..p1 - 1] == ToDecimal(height) && !IsDigit(data[p1 - 1])
    requires data[p1..p2 - 1] == ToDecimal(width) && !IsDigit(data[p2 - 1])
    requires data[p2..p3 - 1] == ToDecimal(maxBrightness) && !IsDigit(data[p3 - 1])
    ensures HeaderAt(data, 0)
         == if maxBrightness % U32_MODULUS > MAX_SUPPORTED_BRIGHTNESS then Err(MaxBrightnessUnsupported)
            else Ok(Header(height % U32_MODULUS, width % U32_MODULUS, maxBrightness % U32_MODULUS, p3))
  {
    ReadIntOfRendered(data, 3, height);
    ReadIntOfRendered(data, p1, width);
    ReadIntOfRendered(data, p2, maxBrightness);
    HeaderIsFields(data, 0);
    var h := ReadIntAt(data, 3).value;
    assert h.next == p1;
    var w := ReadIntAt(data, p1).value;
    assert w.next == p2;
    var m := ReadIntAt(data, p2).value;
    assert m.value == maxBrightness % U32_MODULUS && m.next == p3;
    if m.value > MAX_SUPPORTED_BRIGHTNESS {
      assert HeaderAt(data, 0) == Err(MaxBrightnessUnsupported);
    } else {
      assert HeaderAt(data, 0) == Ok(Header(h.value, w.value, m.value, m.next));
    }
  }

  /** Where `save` puts the three fields of its header text. */
  lemma RenderedLayout(height: nat, width: nat, maxBrightness: nat, rest: seq<Byte>,
                       data: seq<Byte>, p1: nat, p2: nat, p3: nat)
    requires data == HeaderText(height, width, maxBrightness) + rest
    requires p1 == 3 + |ToDecimal(height)| + 1 && p2 == p1 + |ToDecimal(width)| + 1
    requires p3 == p2 + |ToDecimal(maxBrightness)| + 1
    ensures |HeaderText(height, width, maxBrightness)| == p3 && 3 <= p3 <= |data|
    ensures data[..3] == MAGIC
    ensures data[3..p1 - 1] == ToDecimal(height) && !IsDigit(data[p1 - 1])
    ensures data[p1..p2 - 1] == ToDecimal(width) && !IsDigit(data[p2 - 1])
    ensures data[p2..p3 - 1] == ToDecimal(maxBrightness) && !IsDigit(data[p3 - 1])
  {
    HeaderLayout(data, MAGIC, ToDecimal(height), SPACE, ToDecimal(width), NEWLINE, ToDecimal(maxBrightness), NEWLINE,
                 rest, p1, p2, p3);
  }

  /** How the decoder reads a header in the layout `save` writes: height, then
      width, then maximum brightness, each modulo 2^32; a brightness above 255
      after that reduction is rejected, any other is accepted and the pixel
      array starts right after the header text. */
  lemma HeaderOfRendered(height: nat, width: nat, maxBrightness: nat, rest: seq<Byte>)
    ensures HeaderAt(HeaderText(height, width, maxBrightness) + rest, 0)
         == if maxBrightness % U32_MODULUS > MAX_SUPPORTED_BRIGHTNESS then Err(MaxBrightnessUnsupported)
            else Ok(Header(height % U32_MODULUS, width % U32_MODULUS, maxBrightness % U32_MODULUS,
                           |HeaderText(height, width, maxBrightness)|))
  {
    var data := HeaderText(height, width, maxBrightness) + rest;
    var p1 := 3 + |ToDecimal(height)| + 1;
    var p2 := p1 + |ToDecimal(width)| + 1;
    var p3 := p2 + |ToDecimal(maxBrightness)| + 1;
    RenderedLayout(height, width, maxBrightness, rest, data, p1, p2, p3);
    HeaderOfFields(data, height, width, maxBrightness, p1, p2, p3);
  }

  lemma SmallModulo(n: uint32)
    ensures n % U32_MODULUS == n
  {
  }

  /** Round trip: decoding what `save` writes for a well-formed image gives the
      image back, and the stream ends right after the pixels, so no warning. */
  lemma RoundTrip(img: Raster)
    requires WellFormed(img)
    ensures DecodeAt(Encode(img), 0) == Ok(Decoded(img, false))
  {
    var text := HeaderText(img.height, img.width, img.maxBrightness);
    var data := Encode(img);
    SmallModulo(img.height);
    SmallModulo(img.width);
    SmallModulo(img.maxBrightness);
    HeaderOfRendered(img.height, img.width, img.maxBrightness, Flatten(img.pixels));
    assert data == HeaderText(img.height, img.width, img.maxBrightness) + Flatten(img.pixels);
    assert HeaderAt(data, 0) == Ok(Header(img.height, img.width, img.maxBrightness, |text|));
    PixelsOfFlatten(text, img.pixels, []);
    assert text + Flatten(img.pixels) + [] == data;
    assert PixelsAt(data, |text|, |img.pixels|) == img.pixels;
    assert |data| == |text| + 3 * |img.pixels|;
  }

  /** The three header fields depend only on the bytes they are read from. */
  lemma FieldsLocal(data: seq<Byte>, other: seq<Byte>, pos: nat)
    requires pos <= |data| && FieldsAt(data, pos).Ok?
    requires FieldsAt(data, pos).value.pixelsStart <= |other|
    requires forall k :: pos <= k < FieldsAt(data, pos).value.pixelsStart ==> other[k] == data[k]
    ensures FieldsAt(other, pos) == FieldsAt(data, pos)
  {
    var h := ReadIntAt(data, pos).value;
    var w := ReadIntAt(data, h.next).value;
    ReadIntLocal(data, other, pos);
    ReadIntLocal(data, other, h.next);
    ReadIntLocal(data, other, w.next);
  }

  /** The header decoder depends only on the bytes it consumes. */
  lemma HeaderLocal(data: seq<Byte>, other: seq<Byte>, start: nat)
    requires start <= |data| && HeaderAt(data, start).Ok?
    requires HeaderAt(data, start).value.pixelsStart <= |other|
    requires forall k :: start <= k < HeaderAt(data, start).value.pixelsStart ==> other[k] == data[k]
    ensures HeaderAt(other, start) == HeaderAt(data, start)
  {
    HeaderIsFields(data, start);
    assert other[start..start + 3] == data[start..start + 3];
    HeaderIsFields(other, start);
    FieldsLocal(data, other, start + 3);
  }

  /** A successful decode, in terms of its header: the pixel array fits in the
      stream, the raster holds the header's fields and the pixels read from it,
      and the warning says whether bytes remain. */
  lemma DecodedFromHeader(data: seq<Byte>, start: nat, hd: Header, count: nat)
    requires start <= |data| && DecodeAt(data, start).Ok?
    requires HeaderAt(data, start) == Ok(hd) && count == PixelCount(hd.height, hd.width)
    ensures hd.pixelsStart + 3 * count <= |data|
    ensures DecodeAt(data, start).value
         == Decoded(Raster(hd.height, hd.width, hd.maxBrightness, PixelsAt(data, hd.pixelsStart, count)),
                    hd.pixelsStart + 3 * count < |data|)
  {
  }

  /** What `save` writes for a valid image into an empty file decodes to that
      image, with its pixels passed through the quantiser, and without the warning. */
  method SaveThenDecode(img: ImagePpm, out: Writer, quantise: Quantiser)
    requires img.Valid() && out.written == []
    modifies out
    ensures DecodeAt(out.written, 0)
         == Ok(Decoded(Raster(img.height, img.width, img.maxBrightness, Quantise(quantise, img.pixels[..])), false))
  {
    img.Save(out, quantise);
    ghost var raster := Raster(img.height, img.width, img.maxBrightness, Quantise(quantise, img.pixels[..]));
    assert out.written == Encode(raster);
    assert WellFormed(raster);
    RoundTrip(raster);
  }

  /** Bytes after a complete image never make decoding fail: the image decoded is
      the same, and the warning is issued exactly when at least one byte follows
      the pixel array. */
  lemma TrailingBytesOnlyWarn(data: seq<Byte>, extra: seq<Byte>)
    requires DecodeAt(data, 0).Ok?
    ensures DecodeAt(data + extra, 0)
         == Ok(Decoded(DecodeAt(data, 0).value.raster, DecodeAt(data, 0).value.warning || extra != []))
  {
    var all := data + extra;
    var hd := HeaderAt(data, 0).value;
    DecodedFromHeader(data, 0, hd, PixelCount(hd.height, hd.width));
    HeaderLocal(data, all, 0);
    PixelsOfPrefix(data, extra, hd.pixelsStart, PixelCount(hd.height, hd.width));
  }

  /** Hence the warning is issued exactly when a byte follows the pixel array:
      appending bytes to what `save` writes keeps the image and warns iff any were appended. */
  lemma WarningIffTrailingData(img: Raster, extra: seq<Byte>)
    requires WellFormed(img)
    ensures DecodeAt(Encode(img) + extra, 0) == Ok(Decoded(img, extra != []))
  {
    RoundTrip(img);
    TrailingBytesOnlyWarn(Encode(img), extra);
  }

  /** As written, a file that ends with a newline after the pixel array gets the
      warning: reading that one byte does not reach end of file. */
  lemma NewlineAfterPixelsWarns(img: Raster)
    requires WellFormed(img)
    ensures DecodeAt(Encode(img) + [NEWLINE], 0) == Ok(Decoded(img, true))
  {
    WarningIffTrailingData(img, [NEWLINE]);
  }

  /** The header of what `save` writes for a well-formed image, whatever follows it. */
  lemma HeaderOfEncoded(img: Raster, extra: seq<Byte>)
    requires WellFormed(img)
    ensures HeaderAt(Encode(img) + extra, 0)
         == Ok(Header(img.height, img.width, img.maxBrightness, |HeaderText(img.height, img.width, img.maxBrightness)|))
  {
    var text := HeaderText(img.height, img.width, img.maxBrightness);
    assert Encode(img) + extra == text + (Flatten(img.pixels) + extra);
    HeaderOfRendered(img.height, img.width, img.maxBrightness, Flatten(img.pixels) + extra);
    SmallModulo(img.height);
    SmallModulo(img.width);
    SmallModulo(img.maxBrightness);
  }

  /** With the intended reading of the final byte, the warning is issued exactly
      when more than the one skipped byte follows what `save` writes. */
  lemma IntendedWarningIffExtraData(img: Raster, extra: seq<Byte>)
    requires WellFormed(img)
    ensures DecodeIntendedAt(Encode(img) + extra, 0) == Ok(Decoded(img, |extra| > 1))
  {
    WarningIffTrailingData(img, extra);
    HeaderOfEncoded(img, extra);
  }
}
