/** Properties of the main.cpp codec: what `safe_read_int` reads back, the round
    trip through `Image::save`, and which files `read_image` rejects. */
module LegacyPpmProperties {
  import opened PpmBytes
  import opened Decimal
  import opened LegacyPpm
  import opened Streams

  /** `safe_read_int` on the digits `to_string` renders for a non-negative value,
      followed by whitespace: it reads the value back and consumes the whitespace. */
  lemma SafeReadIntOfRendered(data: seq<Byte>, failsAtEnd: bool, pos: nat, n: nat)
    requires pos + |ToDecimal(n)| < |data|
    requires data[pos..pos + |ToDecimal(n)|] == ToDecimal(n)
    requires IsSpace(data[pos + |ToDecimal(n)|])
    ensures SafeReadIntAt(data, failsAtEnd, pos) == Ok(Parsed(n, pos + |ToDecimal(n)| + 1))
  {
    var s := ToDecimal(n);
    forall k | pos <= k < pos + |s|
      ensures IsFieldByte(data[k])
    {
      assert data[k] == s[k - pos];
    }
    RunLengthUnique(data, pos, IsFieldByte, |s|);
    FoldToDecimal(n);
  }

  /** A successful `safe_read_int` depends only on the bytes it consumes, and not
      on how the device behaves after its data. */
  lemma SafeReadIntLocal(data: seq<Byte>, other: seq<Byte>, f: bool, g: bool, pos: nat)
    requires pos <= |data| && SafeReadIntAt(data, f, pos).Ok?
    requires SafeReadIntAt(data, f, pos).value.next <= |other|
    requires forall k :: pos <= k < SafeReadIntAt(data, f, pos).value.next ==> other[k] == data[k]
    ensures SafeReadIntAt(other, g, pos) == SafeReadIntAt(data, f, pos)
  {
    var next := SafeReadIntAt(data, f, pos).value.next;
    RunLengthUnique(data, pos, IsFieldByte, next - 1 - pos);
    RunLengthUnique(other, pos, IsFieldByte, next - 1 - pos);
    assert other[pos..next - 1] == data[pos..next - 1];
  }

  /** Cutting the file inside a field, or before the whitespace ending it, makes
      `safe_read_int` run out of data. */
  lemma SafeReadIntCut(data: seq<Byte>, f: bool, g: bool, pos: nat, k: nat)
    requires pos <= |data| && SafeReadIntAt(data, f, pos).Ok?
    requires pos <= k < SafeReadIntAt(data, f, pos).value.next
    ensures SafeReadIntAt(data[..k], g, pos) == Err(ShortReadError(g))
  {
    forall j | pos <= j < k
      ensures !IsSpace(data[..k][j])
    {
      assert data[..k][j] == data[j];
    }
  }

  /** `safe_read_int` reads the same from two files of the same length that agree from `pos` on. */
  lemma SafeReadIntSame(data: seq<Byte>, other: seq<Byte>, f: bool, pos: nat)
    requires pos <= |data| == |other|
    requires forall k :: pos <= k < |data| ==> other[k] == data[k]
    ensures SafeReadIntAt(other, f, pos) == SafeReadIntAt(data, f, pos)
  {
    if SafeReadIntAt(data, f, pos).Ok? {
      SafeReadIntLocal(data, other, f, f, pos);
    } else {
      assert forall k :: pos <= k < |other| ==> !IsSpace(other[k]);
    }
  }

  /** Past "P6" and the unchecked byte, the header reader is the field reader. */
  lemma HeaderIsFields(data: seq<Byte>, f: bool)
    requires 3 <= |data| && data[..2] == MAGIC_NUMBER
    ensures HeaderAt(data, f, 0) == FieldsAt(data, f, 3)
  {
    assert data[0..0 + 2] == data[..2];
  }

  /** The three header fields depend only on the bytes they are read from, and not
      on how the device behaves after its data. */
  lemma FieldsLocal(data: seq<Byte>, other: seq<Byte>, f: bool, g: bool, pos: nat)
    requires pos <= |data| && FieldsAt(data, f, pos).Ok?
    requires FieldsAt(data, f, pos).value.pixelsStart <= |other|
    requires forall k :: pos <= k < FieldsAt(data, f, pos).value.pixelsStart ==> other[k] == data[k]
    ensures FieldsAt(other, g, pos) == FieldsAt(data, f, pos)
  {
    var h := SafeReadIntAt(data, f, pos).value;
    var w := SafeReadIntAt(data, f, h.next).value;
    SafeReadIntLocal(data, other, f, g, pos);
    SafeReadIntLocal(data, other, f, g, h.next);
    SafeReadIntLocal(data, other, f, g, w.next);
  }

  /** The three header fields read the same from two files of the same length
      that agree from `pos` on. */
  lemma FieldsSame(data: seq<Byte>, other: seq<Byte>, f: bool, pos: nat)
    requires pos <= |data| == |other|
    requires forall k :: pos <= k < |data| ==> other[k] == data[k]
    ensures FieldsAt(other, f, pos) == FieldsAt(data, f, pos)
  {
    SafeReadIntSame(data, other, f, pos);
    var h := SafeReadIntAt(data, f, pos);
    if h.Ok? {
      SafeReadIntSame(data, other, f, h.value.next);
      var w := SafeReadIntAt(data, f, h.value.next);
      if w.Ok? {
        SafeReadIntSame(data, other, f, w.value.next);
      }
    }
  }

  /** Cutting the file before the whitespace that ends the last field makes the
      field reader run out of data. */
  lemma FieldsCut(data: seq<Byte>, g: bool, pos: nat, k: nat)
    requires pos <= |data| && FieldsAt(data, false, pos).Ok?
    requires pos <= k < FieldsAt(data, false, pos).value.pixelsStart
    ensures FieldsAt(data[..k], g, pos) == Err(ShortReadError(g))
  {
    var cut := data[..k];
    var h := SafeReadIntAt(data, false, pos).value;
    var w := SafeReadIntAt(data, false, h.next).value;
    if k < h.next {
      SafeReadIntCut(data, false, g, pos, k);
    } else if k < w.next {
      SafeReadIntLocal(data, cut, false, g, pos);
      SafeReadIntCut(data, false, g, h.next, k);
    } else {
      SafeReadIntLocal(data, cut, false, g, pos);
      SafeReadIntLocal(data, cut, false, g, h.next);
      SafeReadIntCut(data, false, g, w.next, k);
    }
  }

  /** The header reader on a file that starts with "P6", one more byte and three
      rendered non-negative fields, each followed by whitespace. */
  lemma HeaderOfFields(data: seq<Byte>, f: bool, height: nat, width: nat, maxBrightness: nat, p1: nat, p2: nat, p3: nat)
    requires 3 <= |data| && data[..2] == MAGIC_NUMBER
    requires p1 == 3 + |ToDecimal(height)| + 1 && p2 == p1 + |ToDecimal(width)| + 1
    requires p3 == p2 + |ToDecimal(maxBrightness)| + 1 && p3 <= |data|
    requires data[3..p1 - 1] == ToDecimal(height) && IsSpace(data[p1 - 1])
    requires data[p1..p2 - 1] == ToDecimal(width) && IsSpace(data[p2 - 1])
    requires data[p2..p3 - 1] == ToDecimal(maxBrightness) && IsSpace(data[p3 - 1])
    ensures HeaderAt(data, f, 0) == Ok(Header(height, width, maxBrightness, p3))
  {
    SafeReadIntOfRendered(data, f, 3, height);
    SafeReadIntOfRendered(data, f, p1, width);
    SafeReadIntOfRendered(data, f, p2, maxBrightness);
    HeaderIsFields(data, f);
    var h := SafeReadIntAt(data, f, 3).value;
    assert h.next == p1;
    var w := SafeReadIntAt(data, f, p1).value;
    assert w.next == p2;
    var m := SafeReadIntAt(data, f, p2).value;
    assert m.next == p3;
  }

  /** Where `Image::save` puts the three fields of its header text. */
  lemma RenderedLayout(height: nat, width: nat, maxBrightness: nat, rest: seq<Byte>,
                       data: seq<Byte>, p1: nat, p2: nat, p3: nat)
    requires data == HeaderText(height, width, maxBrightness) + rest
    requires p1 == 3 + |ToDecimal(height)| + 1 && p2 == p1 + |ToDecimal(width)| + 1
    requires p3 == p2 + |ToDecimal(maxBrightness)| + 1
    ensures |HeaderText(height, width, maxBrightness)| == p3 && 3 <= p3 <= |data|
    ensures data[..2] == MAGIC_NUMBER
    ensures data[3..p1 - 1] == ToDecimal(height) && IsSpace(data[p1 - 1])
    ensures data[p1..p2 - 1] == ToDecimal(width) && IsSpace(data[p2 - 1])
    ensures data[p2..p3 - 1] == ToDecimal(maxBrightness) && IsSpace(data[p3 - 1])
  {
    var dh, dw, dm := ToDecimal(height), ToDecimal(width), ToDecimal(maxBrightness);
    assert IntToString(height) == dh && IntToString(width) == dw && IntToString(maxBrightness) == dm;
    var magic := ['P' as int, '6' as int, NEWLINE];
    assert HeaderText(height, width, maxBrightness) == magic + dh + [SPACE] + dw + [NEWLINE] + dm + [NEWLINE];
    HeaderLayout(data, magic, dh, SPACE, dw, NEWLINE, dm, NEWLINE, rest, p1, p2, p3);
    assert data[..2] == magic[..2];
  }

  /** How `read_image` reads the header `Image::save` writes for non-negative fields:
      height, width and brightness come back, and the pixels start right after it. */
  lemma HeaderOfRendered(height: nat, width: nat, maxBrightness: nat, f: bool, rest: seq<Byte>)
    ensures HeaderAt(HeaderText(height, width, maxBrightness) + rest, f, 0)
         == Ok(Header(height, width, maxBrightness, |HeaderText(height, width, maxBrightness)|))
  {
    var data := HeaderText(height, width, maxBrightness) + rest;
    var p1 := 3 + |ToDecimal(height)| + 1;
    var p2 := p1 + |ToDecimal(width)| + 1;
    var p3 := p2 + |ToDecimal(maxBrightness)| + 1;
    RenderedLayout(height, width, maxBrightness, rest, data, p1, p2, p3);
    HeaderOfFields(data, f, height, width, maxBrightness, p1, p2, p3);
  }

  /** Round trip: `read_image` on a file holding exactly what `Image::save` writes
      (no quantisation) gives the image back, provided its fields are non-negative
      and it has `width * height` pixels, and the device reports end of file after the data. */
  lemma RoundTrip(p: Picture)
    requires p.height >= 0 && p.width >= 0 && p.maxBrightness >= 0
    requires |p.pixels| == p.width * p.height
    ensures ReadImageAt(Encode(p), false, 0) == Ok(p)
  {
    var text := HeaderText(p.height, p.width, p.maxBrightness);
    var data := Encode(p);
    HeaderOfRendered(p.height, p.width, p.maxBrightness, false, Flatten(p.pixels));
    assert HeaderAt(data, false, 0) == Ok(Header(p.height, p.width, p.maxBrightness, |text|));
    PixelsOfFlatten(text, p.pixels, []);
    assert text + Flatten(p.pixels) + [] == data;
    assert |data| == |text| + 3 * |p.pixels|;
  }

  /** What `Image::save` writes for an image with non-negative fields and
      `width * height` pixels into an empty file is read back by `read_image` as
      that image, with its pixels passed through the quantiser. */
  method SaveThenRead(img: Image, out: Writer, quantise: Quantiser)
    requires img.height >= 0 && img.width >= 0 && img.maxBrightness >= 0
    requires img.pixels.Length == img.width * img.height && out.written == []
    modifies out
    ensures ReadImageAt(out.written, false, 0)
         == Ok(Picture(img.height, img.width, img.maxBrightness, Quantise(quantise, img.pixels[..])))
  {
    img.Save(out, quantise);
    assert LoopCount(img.height, img.width) == img.pixels.Length;
    assert img.pixels[..img.pixels.Length] == img.pixels[..];
    ghost var p := Picture(img.height, img.width, img.maxBrightness, Quantise(quantise, img.pixels[..]));
    assert out.written == Encode(p);
    RoundTrip(p);
  }

  /** The header reader depends only on the bytes it consumes, not on how the device
      behaves after its data. */
  lemma HeaderLocal(data: seq<Byte>, other: seq<Byte>, f: bool, g: bool)
    requires HeaderAt(data, f, 0).Ok?
    requires HeaderAt(data, f, 0).value.pixelsStart <= |other|
    requires forall k :: 0 <= k < HeaderAt(data, f, 0).value.pixelsStart ==> other[k] == data[k]
    ensures HeaderAt(other, g, 0) == HeaderAt(data, f, 0)
  {
    HeaderIsFields(data, f);
    assert other[..2] == data[..2];
    HeaderIsFields(other, g);
    FieldsLocal(data, other, f, g, 3);
  }

  /** A successful `read_image`, in terms of its header: the file ends exactly after
      `width * height` pixels. */
  lemma ReadFromHeader(data: seq<Byte>, hd: Header, count: int)
    requires ReadImageAt(data, false, 0).Ok?
    requires HeaderAt(data, false, 0) == Ok(hd) && count == hd.width * hd.height
    ensures count >= 0 && hd.pixelsStart + 3 * count == |data|
    ensures ReadImageAt(data, false, 0).value == Picture(hd.height, hd.width, hd.maxBrightness, PixelsAt(data, hd.pixelsStart, count))
  {
  }

  /** Any byte after the pixel array makes `read_image` fail with "end of file not reached". */
  lemma TrailingDataRejected(data: seq<Byte>, extra: seq<Byte>, f: bool)
    requires ReadImageAt(data, false, 0).Ok?
    requires extra != []
    ensures ReadImageAt(data + extra, f, 0) == Err(EndOfFileNotReached)
  {
    var hd := HeaderAt(data, false, 0).value;
    ReadFromHeader(data, hd, hd.width * hd.height);
    HeaderLocal(data, data + extra, false, f);
  }

  /** On a device that reports a read error, rather than end of file, once its data is
      exhausted, the final probe of a complete image fails with "end of file not reached". */
  lemma FailingDeviceRejected(data: seq<Byte>)
    requires ReadImageAt(data, false, 0).Ok?
    ensures ReadImageAt(data, true, 0) == Err(EndOfFileNotReached)
  {
    var hd := HeaderAt(data, false, 0).value;
    ReadFromHeader(data, hd, hd.width * hd.height);
    HeaderLocal(data, data, false, true);
  }

  /** Cutting an accepted file inside its header makes the header reader run out of data. */
  lemma HeaderCut(data: seq<Byte>, g: bool, k: nat)
    requires HeaderAt(data, false, 0).Ok?
    requires k < HeaderAt(data, false, 0).value.pixelsStart
    ensures HeaderAt(data[..k], g, 0) == Err(ShortReadError(g))
  {
    var cut := data[..k];
    if 2 <= k {
      assert cut[..2] == data[..2];
    }
    if 3 <= k {
      HeaderIsFields(data, false);
      HeaderIsFields(cut, g);
      FieldsCut(data, g, 3, k);
    }
  }

  /** Every proper prefix of an accepted file is rejected with the short-read error:
      "premature end of file" on a file that ends, "file read error" on a failing device. */
  lemma TruncationRejected(data: seq<Byte>, k: nat, f: bool)
    requires ReadImageAt(data, false, 0).Ok?
    requires k < |data|
    ensures ReadImageAt(data[..k], f, 0) == Err(ShortReadError(f))
  {
    var hd := HeaderAt(data, false, 0).value;
    ReadFromHeader(data, hd, hd.width * hd.height);
    if k < hd.pixelsStart {
      HeaderCut(data, f, k);
    } else {
      forall j | 0 <= j < hd.pixelsStart
        ensures data[..k][j] == data[j]
      {
      }
      HeaderLocal(data, data[..k], false, f);
    }
  }

  /** The header reader does not look at the byte after "P6". */
  lemma HeaderIgnoresThirdByte(data: seq<Byte>, f: bool, b: Byte)
    requires 3 <= |data|
    ensures HeaderAt(data[2 := b], f, 0) == HeaderAt(data, f, 0)
  {
    var other := data[2 := b];
    assert other[0..2] == data[0..2];
    FieldsSame(data, other, f, 3);
  }

  /** The byte after "P6" is read but never checked: changing it does not change what
      `read_image` returns. */
  lemma ThirdMagicByteIgnored(data: seq<Byte>, f: bool, b: Byte)
    requires 3 <= |data|
    ensures ReadImageAt(data[2 := b], f, 0) == ReadImageAt(data, f, 0)
  {
    var other := data[2 := b];
    HeaderIgnoresThirdByte(data, f, b);
    var hd := HeaderAt(data, f, 0);
    if hd.Ok? {
      var start := hd.value.pixelsStart;
      var count := hd.value.width * hd.value.height;
      if count >= 0 && start + 3 * count <= |data| {
        PixelsIgnoreThirdByte(data, b, start, count);
      }
    }
  }

  /** The pixel array lies past the byte after "P6". */
  lemma PixelsIgnoreThirdByte(data: seq<Byte>, b: Byte, pos: nat, count: nat)
    requires 2 < pos && pos + 3 * count <= |data|
    ensures PixelsAt(data[2 := b], pos, count) == PixelsAt(data, pos, count)
  {
    var other := data[2 := b];
    forall i | 0 <= i < count
      ensures PixelAt(other, pos, i) == PixelAt(data, pos, i)
    {
    }
  }
}
