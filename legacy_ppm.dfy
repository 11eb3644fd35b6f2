/** The older P6 codec of main.cpp: `safe_read`, `safe_read_int`,
    `read_image` and `Image::save`, over a C `FILE*`. */
module LegacyPpm {
  import opened PpmBytes
  import opened Decimal
  import opened Streams

  /** The two bytes `read_image` checks: 'P', '6'. The byte after them is read but not checked. */
  const MAGIC_NUMBER: seq<Byte> := ['P' as int, '6' as int]

  datatype ReadError =
    | PrematureEndOfFile   // "Premature end of file."
    | FileReadError        // "File read error."
    | BadMagicNumber       // "Bad magic number. It isn't a P6 ppm file"
    | EndOfFileNotReached  // "Pixels were read, but end of file not reached"
    | BadArrayNewLength    // `new Color[width * height]` with a negative size throws std::bad_array_new_length

  /** What `safe_read` throws when fewer bytes than asked for are left: the end-of-file
      message on a file that ends, the read-error message on a device that fails. */
  function ShortReadError(failsAtEnd: bool): (e: ReadError)
    ensures e == FileReadError <==> failsAtEnd
    ensures e == PrematureEndOfFile <==> !failsAtEnd
  {
    if failsAtEnd then FileReadError else PrematureEndOfFile
  }

  /** The values an `Image` holds apart from the luminance bounds. */
  datatype Picture = Picture(height: int, width: int, maxBrightness: int, pixels: seq<Pixel>)

  /** The header fields and the position where the pixel array starts. */
  datatype Header = Header(height: int, width: int, maxBrightness: int, pixelsStart: nat)

  /** How many pixels `read_image` and `save` handle: the loops run while `i < width * height`. */
  function LoopCount(height: int, width: int): (n: nat)
    ensures width * height <= n && (n == 0 || n == width * height)
  {
    if width * height > 0 then width * height else 0
  }

  // ---------------------------------------------------------------------------
  // Decoding, as functions of the file's bytes

  /** `safe_read_int` started at `pos`: everything up to the first whitespace byte is
      folded as decimal digits, with no check that it is one; the whitespace byte is consumed. */
  function SafeReadIntAt(data: seq<Byte>, failsAtEnd: bool, pos: nat): (r: Result<Parsed<int>, ReadError>)
    requires pos <= |data|
    ensures r.Err? <==> forall k :: pos <= k < |data| ==> !IsSpace(data[k])
    ensures r.Err? ==> r.error == ShortReadError(failsAtEnd)
    ensures r.Ok? ==> pos < r.value.next <= |data| && IsSpace(data[r.value.next - 1])
    ensures r.Ok? ==> forall k :: pos <= k < r.value.next - 1 ==> !IsSpace(data[k])
  {
    var n := RunLength(data, pos, IsFieldByte);
    if pos + n < |data| then Ok(Parsed(DecimalFold(data[pos..pos + n]), pos + n + 1))
    else Err(ShortReadError(failsAtEnd))
  }

  /** The three header fields, height, width and brightness, each read by
      `safe_read_int` from `pos` on. */
  function FieldsAt(data: seq<Byte>, failsAtEnd: bool, pos: nat): (r: Result<Header, ReadError>)
    requires pos <= |data|
    ensures r.Ok? ==> pos < r.value.pixelsStart <= |data|
    ensures r.Err? ==> r.error == ShortReadError(failsAtEnd)
  {
    match SafeReadIntAt(data, failsAtEnd, pos)
    case Err(e) => Err(e)
    case Ok(h) =>
      match SafeReadIntAt(data, failsAtEnd, h.next)
      case Err(e) => Err(e)
      case Ok(w) =>
        match SafeReadIntAt(data, failsAtEnd, w.next)
        case Err(e) => Err(e)
        case Ok(b) => Ok(Header(h.value, w.value, b.value, b.next))
  }

  /** The header part of `read_image`: two magic bytes, one unchecked byte, then
      height, width and brightness, each read by `safe_read_int`. */
  function HeaderAt(data: seq<Byte>, failsAtEnd: bool, start: nat): (r: Result<Header, ReadError>)
    requires start <= |data|
    ensures r.Ok? ==> start + 3 < r.value.pixelsStart <= |data| && data[start..start + 2] == MAGIC_NUMBER
    ensures start + 2 <= |data| && data[start..start + 2] != MAGIC_NUMBER ==> r == Err(BadMagicNumber)
    ensures |data| < start + 2 ==> r == Err(ShortReadError(failsAtEnd))
  {
    if |data| - start < 2 then Err(ShortReadError(failsAtEnd))
    else if data[start..start + 2] != MAGIC_NUMBER then Err(BadMagicNumber)
    else if |data| - start < 3 then Err(ShortReadError(failsAtEnd))
    else FieldsAt(data, failsAtEnd, start + 3)
  }

  /** The part of `read_image` after the header: allocate `width * height` pixels,
      read them, then probe for end of file. */
  function PixelsAfter(data: seq<Byte>, failsAtEnd: bool, hd: Header): (r: Result<Picture, ReadError>)
    requires hd.pixelsStart <= |data|
    ensures r.Ok? ==> !failsAtEnd
    ensures r.Ok? ==> r.value.width * r.value.height >= 0
    ensures r.Ok? ==> |r.value.pixels| == r.value.width * r.value.height
  {
    var count := hd.width * hd.height;
    if count < 0 then Err(BadArrayNewLength)
    else if hd.pixelsStart + 3 * count > |data| then Err(ShortReadError(failsAtEnd))
    else if hd.pixelsStart + 3 * count < |data| || failsAtEnd then Err(EndOfFileNotReached)
    else Ok(Picture(hd.height, hd.width, hd.maxBrightness, PixelsAt(data, hd.pixelsStart, count)))
  }

  /** `read_image` on a file positioned at `start`. */
  function ReadImageAt(data: seq<Byte>, failsAtEnd: bool, start: nat): (r: Result<Picture, ReadError>)
    requires start <= |data|
    ensures r.Ok? ==> !failsAtEnd
    ensures r.Ok? ==> r.value.width * r.value.height >= 0
    ensures r.Ok? ==> |r.value.pixels| == r.value.width * r.value.height
  {
    match HeaderAt(data, failsAtEnd, start)
    case Err(e) => Err(e)
    case Ok(hd) => PixelsAfter(data, failsAtEnd, hd)
  }

  // ---------------------------------------------------------------------------
  // Encoding, as functions of the image

  /** The header text `Image::save` writes: "P6\n<height> <width>\n<max_brightness>\n". */
  function HeaderText(height: int, width: int, maxBrightness: int): (t: seq<Byte>)
    ensures |t| == |IntToString(height)| + |IntToString(width)| + |IntToString(maxBrightness)| + 6
    ensures t[..2] == MAGIC_NUMBER && t[2] == NEWLINE && t[|t| - 1] == NEWLINE
  {
    ['P' as int, '6' as int, NEWLINE] + IntToString(height) + [SPACE] + IntToString(width) + [NEWLINE]
      + IntToString(maxBrightness) + [NEWLINE]
  }

  /** Everything `Image::save` writes: the header text, then three bytes per pixel and nothing after. */
  function Encode(p: Picture): (data: seq<Byte>)
    ensures |data| == |HeaderText(p.height, p.width, p.maxBrightness)| + 3 * |p.pixels|
    ensures data[..|HeaderText(p.height, p.width, p.maxBrightness)|] == HeaderText(p.height, p.width, p.maxBrightness)
  {
    HeaderText(p.height, p.width, p.maxBrightness) + Flatten(p.pixels)
  }

  // ---------------------------------------------------------------------------
  // The stream decoder

  /** `safe_read(ptr, 1, cnt, fp)`: reads exactly cnt bytes or throws. */
  method SafeRead(fp: CFile, cnt: nat) returns (r: Result<seq<Byte>, ReadError>)
    requires fp.Valid()
    modifies fp
    ensures fp.Valid()
    ensures r.Ok? <==> old(fp.pos) + cnt <= |fp.data|
    ensures r.Ok? ==> r.value == fp.data[old(fp.pos)..old(fp.pos) + cnt] && fp.pos == old(fp.pos) + cnt
    ensures r.Ok? ==> fp.eof == old(fp.eof) && fp.error == old(fp.error)
    ensures r.Err? ==> r.error == ShortReadError(fp.failsAtEnd)
  {
    var got := fp.Read(cnt);
    if |got| != cnt {
      if fp.eof {
        return Err(PrematureEndOfFile);
      } else {
        return Err(FileReadError);
      }
    }
    r := Ok(got);
  }

  lemma FoldStep(data: seq<Byte>, start: nat, p: nat)
    requires start <= p < |data|
    ensures DecimalFold(data[start..p + 1]) == DecimalFold(data[start..p]) * 10 + (data[p] - '0' as int)
  {
    var s := data[start..p + 1];
    assert s[..|s| - 1] == data[start..p];
  }

  /** `safe_read_int` when the file ends before any whitespace. */
  lemma SafeReadIntAtEnd(data: seq<Byte>, failsAtEnd: bool, start: nat)
    requires start <= |data|
    requires forall k :: start <= k < |data| ==> !IsSpace(data[k])
    ensures SafeReadIntAt(data, failsAtEnd, start) == Err(ShortReadError(failsAtEnd))
  {
  }

  /** `safe_read_int` when a whitespace byte ends the field before `next`. */
  lemma SafeReadIntAtTerminated(data: seq<Byte>, failsAtEnd: bool, start: nat, next: nat)
    requires start < next <= |data|
    requires forall k :: start <= k < next - 1 ==> !IsSpace(data[k])
    requires IsSpace(data[next - 1])
    ensures SafeReadIntAt(data, failsAtEnd, start) == Ok(Parsed(DecimalFold(data[start..next - 1]), next))
  {
    RunLengthUnique(data, start, IsFieldByte, next - 1 - start);
  }

  /** `safe_read_int`: folds bytes as digits up to the first whitespace byte, which it consumes. */
  method SafeReadInt(fp: CFile) returns (r: Result<int, ReadError>)
    requires fp.Valid() && !fp.eof && !fp.error
    modifies fp
    ensures fp.Valid()
    ensures r.Ok? == SafeReadIntAt(fp.data, fp.failsAtEnd, old(fp.pos)).Ok?
    ensures r.Err? ==> r.error == ShortReadError(fp.failsAtEnd)
    ensures r.Ok? ==> && r.value == SafeReadIntAt(fp.data, fp.failsAtEnd, old(fp.pos)).value.value
                      && fp.pos == SafeReadIntAt(fp.data, fp.failsAtEnd, old(fp.pos)).value.next
                      && !fp.eof && !fp.error
  {
    ghost var start := fp.pos;
    var ans := 0;
    var buf := SafeRead(fp, 1);
    if buf.Err? {
      SafeReadIntAtEnd(fp.data, fp.failsAtEnd, start);
      return Err(buf.error);
    }
    while !IsSpace(buf.value[0])
      invariant fp.Valid() && !fp.eof && !fp.error
      invariant start < fp.pos <= |fp.data|
      invariant buf.Ok? && buf.value == [fp.data[fp.pos - 1]]
      invariant forall k :: start <= k < fp.pos - 1 ==> !IsSpace(fp.data[k])
      invariant ans == DecimalFold(fp.data[start..fp.pos - 1])
      decreases |fp.data| - fp.pos
    {
      FoldStep(fp.data, start, fp.pos - 1);
      ans := ans * 10 + (buf.value[0] - '0' as int);
      buf := SafeRead(fp, 1);
      if buf.Err? {
        SafeReadIntAtEnd(fp.data, fp.failsAtEnd, start);
        return Err(buf.error);
      }
    }
    SafeReadIntAtTerminated(fp.data, fp.failsAtEnd, start, fp.pos);
    r := Ok(ans);
  }

  /** The three header fields of `read_image`, on the file. */
  method ReadFields(fp: CFile) returns (r: Result<Header, ReadError>)
    requires fp.Valid() && !fp.eof && !fp.error
    modifies fp
    ensures fp.Valid()
    ensures r == FieldsAt(fp.data, fp.failsAtEnd, old(fp.pos))
    ensures r.Ok? ==> fp.pos == r.value.pixelsStart && !fp.eof && !fp.error
  {
    ghost var data, start := fp.data, fp.pos;
    var height := SafeReadInt(fp);
    if height.Err? {
      return Err(height.error);
    }
    ghost var p1 := fp.pos;
    var width := SafeReadInt(fp);
    assert SafeReadIntAt(data, fp.failsAtEnd, start) == Ok(Parsed(height.value, p1));
    if width.Err? {
      return Err(width.error);
    }
    ghost var p2 := fp.pos;
    var brightness := SafeReadInt(fp);
    assert SafeReadIntAt(data, fp.failsAtEnd, p1) == Ok(Parsed(width.value, p2));
    if brightness.Err? {
      return Err(brightness.error);
    }
    assert SafeReadIntAt(data, fp.failsAtEnd, p2) == Ok(Parsed(brightness.value, fp.pos));
    r := Ok(Header(height.value, width.value, brightness.value, fp.pos));
  }

  /** The header part of `read_image`, on the file. */
  method ReadHeader(fp: CFile) returns (r: Result<Header, ReadError>)
    requires fp.Valid() && !fp.eof && !fp.error
    modifies fp
    ensures fp.Valid()
    ensures r == HeaderAt(fp.data, fp.failsAtEnd, old(fp.pos))
    ensures r.Ok? ==> fp.pos == r.value.pixelsStart && !fp.eof && !fp.error
  {
    ghost var data, start := fp.data, fp.pos;
    var magic := SafeRead(fp, 2);
    if magic.Err? {
      return Err(magic.error);
    }
    if magic.value[0] != 'P' as int || magic.value[1] != '6' as int {
      assert magic.value != MAGIC_NUMBER;
      return Err(BadMagicNumber);
    }
    assert magic.value == MAGIC_NUMBER;
    var third := SafeRead(fp, 1);
    if third.Err? {
      return Err(third.error);
    }
    r := ReadFields(fp);
  }

  /** The pixel loop of `read_image`: pixel i from the next three bytes. */
  method ReadPixels(fp: CFile, pixels: array<Pixel>) returns (r: Result<(), ReadError>)
    requires fp.Valid() && !fp.eof && !fp.error
    modifies fp, pixels
    ensures fp.Valid()
    ensures r.Ok? == (old(fp.pos) + 3 * pixels.Length <= |fp.data|)
    ensures r.Err? ==> r.error == ShortReadError(fp.failsAtEnd)
    ensures r.Ok? ==> && fp.pos == old(fp.pos) + 3 * pixels.Length && !fp.eof && !fp.error
                      && pixels[..] == PixelsAt(fp.data, old(fp.pos), pixels.Length)
  {
    ghost var start := fp.pos;
    var i := 0;
    while i < pixels.Length
      modifies fp, pixels
      invariant fp.Valid() && !fp.eof && !fp.error
      invariant 0 <= i <= pixels.Length
      invariant fp.pos == start + 3 * i
      invariant forall j :: 0 <= j < i ==> pixels[j] == PixelAt(fp.data, start, j)
    {
      var group := SafeRead(fp, 3);
      if group.Err? {
        return Err(group.error);
      }
      pixels[i] := Pixel(group.value[0], group.value[1], group.value[2]);
      i := i + 1;
    }
    assert pixels[..] == PixelsAt(fp.data, start, pixels.Length);
    r := Ok(());
  }

  /** `Image`: header fields, the heap pixel array, and the luminance bounds
      `min_y`/`max_y` (doubles, which only the left-out contrast code reads). */
  class Image {
    var height: int
    var width: int
    var maxBrightness: int
    var pixels: array<Pixel>
    var minY: real
    var maxY: real

    ghost function Value(): Picture
      reads this, pixels
    {
      Picture(height, width, maxBrightness, pixels[..])
    }

    /** The aggregate initialisation `{height, width, brightness, pixels}`. */
    constructor (height: int, width: int, maxBrightness: int, pixels: array<Pixel>)
      ensures this.height == height && this.width == width && this.maxBrightness == maxBrightness
      ensures this.pixels == pixels
      ensures minY == 1.0 && maxY == -1.0
    {
      this.height := height;
      this.width := width;
      this.maxBrightness := maxBrightness;
      this.pixels := pixels;
      minY := 1.0;
      maxY := -1.0;
    }

    /** `Image::save` (once the file is open): the header text, then three quantised
        samples for each of the first `width * height` pixels, in index order. */
    method Save(out: Writer, quantise: Quantiser)
      requires width * height <= pixels.Length
      modifies out
      ensures out.written == old(out.written)
        + Encode(Picture(height, width, maxBrightness, Quantise(quantise, pixels[..LoopCount(height, width)])))
    {
      var magic := ['P' as int, '6' as int, NEWLINE];
      var res := IntToString(height) + [SPACE] + IntToString(width) + [NEWLINE] + IntToString(maxBrightness) + [NEWLINE];
      ghost var header := HeaderText(height, width, maxBrightness);
      assert header == magic + res;
      out.Write(magic);
      out.Write(res);
      assert out.written == old(out.written) + header;
      var count := LoopCount(height, width);
      WritePixels(out, quantise, count);
      ghost var body := Flatten(Quantise(quantise, pixels[..count]));
      assert out.written == old(out.written) + (header + body);
    }

    /** The pixel loop of `Image::save`: pixels 0 .. count-1, three samples each. */
    method WritePixels(out: Writer, quantise: Quantiser, count: nat)
      requires count <= pixels.Length
      modifies out
      ensures out.written == old(out.written) + Flatten(Quantise(quantise, pixels[..count]))
    {
      var i := 0;
      while i < count
        invariant 0 <= i <= count
        invariant out.written == old(out.written) + Flatten(Quantise(quantise, pixels[..i]))
      {
        var q := quantise(pixels[i]);
        assert Quantise(quantise, pixels[..i + 1]) == Quantise(quantise, pixels[..i]) + [q];
        out.Write([q.r, q.g, q.b]);
        i := i + 1;
      }
    }
  }

  /** `read_image`: header, a pixel array of `width * height` elements filled in
      stream order, then one more read, which must hit end of file. */
  method ReadImage(fp: CFile) returns (r: Result<Image, ReadError>)
    requires fp.Valid() && !fp.eof && !fp.error
    modifies fp
    ensures fp.Valid()
    ensures r.Ok? == ReadImageAt(fp.data, fp.failsAtEnd, old(fp.pos)).Ok?
    ensures r.Err? ==> r.error == ReadImageAt(fp.data, fp.failsAtEnd, old(fp.pos)).error
    ensures r.Ok? ==> && fresh(r.value) && fresh(r.value.pixels)
                      && r.value.Value() == ReadImageAt(fp.data, fp.failsAtEnd, old(fp.pos)).value
    ensures r.Ok? ==> r.value.minY == 1.0 && r.value.maxY == -1.0
  {
    ghost var data, start := fp.data, fp.pos;
    var header := ReadHeader(fp);
    if header.Err? {
      return Err(header.error);
    }
    var hd := header.value;
    if hd.width * hd.height < 0 {
      return Err(BadArrayNewLength);
    }
    var pixels := new Pixel[hd.width * hd.height];
    var filled := ReadPixels(fp, pixels);
    if filled.Err? {
      return Err(filled.error);
    }
    var probe := fp.Read(1);
    if !fp.eof {
      return Err(EndOfFileNotReached);
    }
    var image := new Image(hd.height, hd.width, hd.maxBrightness, pixels);
    assert ReadImageAt(data, fp.failsAtEnd, start) == Ok(image.Value());
    r := Ok(image);
  }
}
