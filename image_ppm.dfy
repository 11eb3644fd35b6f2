/** The P6 codec of image_ppm.cpp: `read_int`, the decoding constructor of
    `image_ppm`, `save`, `swap`, the copy constructor and `operator=`. */
module ImagePpm {
  import opened PpmBytes
  import opened Decimal
  import opened Streams

  /** The three bytes a P6 file must start with: 'P', '6', '\n'. */
  const MAGIC: seq<Byte> := ['P' as int, '6' as int, '\n' as int]

  const MAX_SUPPORTED_BRIGHTNESS: int := 255

  datatype DecodeError =
    | WrongFileFormat           // "Wrong file format"
    | MaxBrightnessUnsupported  // "Max brightness > 255 not supported"
    | EndOfInput                // a read came up short where the source does not check for it

  /** What an image holds apart from the luminance bounds: its header fields and pixel buffer. */
  datatype Raster = Raster(height: uint32, width: uint32, maxBrightness: uint32, pixels: seq<Pixel>)

  /** A decoded image, and whether "Pixels were read, but EOF not reached" was printed. */
  datatype Decoded = Decoded(raster: Raster, warning: bool)

  /** The header fields and the position where the pixel array starts. */
  datatype Header = Header(height: uint32, width: uint32, maxBrightness: uint32, pixelsStart: nat)

  /** `width_ * height_`, a `uint32_t` product. */
  function PixelCount(height: uint32, width: uint32): (n: uint32)
    ensures width * height < U32_MODULUS ==> n == width * height
    ensures (width * height - n) % U32_MODULUS == 0
  {
    (width * height) % U32_MODULUS
  }

  /** What every decoded image satisfies. */
  predicate WellFormed(r: Raster) {
    r.maxBrightness <= MAX_SUPPORTED_BRIGHTNESS && |r.pixels| == PixelCount(r.height, r.width)
  }

  // ---------------------------------------------------------------------------
  // Decoding, as functions of the input bytes

  /** `read_int` started at `pos`. None when the input ends before a byte that is not a
      digit: the source then either loops for ever or reads an indeterminate byte. */
  function ReadIntAt(data: seq<Byte>, pos: nat): (r: Option<Parsed<uint32>>)
    requires pos <= |data|
    ensures r.None? <==> forall k :: pos <= k < |data| ==> IsDigit(data[k])
    ensures r.Some? ==> pos < r.value.next <= |data|
    ensures r.Some? ==> forall k :: pos <= k < r.value.next - 1 ==> IsDigit(data[k])
    ensures r.Some? ==> !IsDigit(data[r.value.next - 1])
    ensures r.Some? ==> r.value.value == DecimalFold(data[pos..r.value.next - 1]) % U32_MODULUS
    ensures pos < |data| && !IsDigit(data[pos]) ==> r == Some(Parsed(0, pos + 1))
  {
    var n := RunLength(data, pos, IsDigit);
    if pos + n < |data| then
      Some(Parsed(AccumulateU32(data[pos..pos + n]), pos + n + 1))
    else
      None
  }

  /** The three header fields, height, width and maximum brightness, each read by
      `read_int` from `pos` on; a brightness above 255 is rejected. */
  function FieldsAt(data: seq<Byte>, pos: nat): (r: Result<Header, DecodeError>)
    requires pos <= |data|
    ensures r.Ok? ==> r.value.maxBrightness <= MAX_SUPPORTED_BRIGHTNESS
    ensures r.Ok? ==> pos < r.value.pixelsStart <= |data|
    ensures r.Err? ==> r.error != WrongFileFormat
  {
    match ReadIntAt(data, pos)
    case None => Err(EndOfInput)
    case Some(h) =>
      match ReadIntAt(data, h.next)
      case None => Err(EndOfInput)
      case Some(w) =>
        match ReadIntAt(data, w.next)
        case None => Err(EndOfInput)
        case Some(m) =>
          if m.value > MAX_SUPPORTED_BRIGHTNESS then Err(MaxBrightnessUnsupported)
          else Ok(Header(h.value, w.value, m.value, m.next))
  }

  /** The header part of the decoding constructor: the magic bytes, then the three fields. */
  function HeaderAt(data: seq<Byte>, start: nat): (r: Result<Header, DecodeError>)
    requires start <= |data|
    ensures r.Ok? ==> start + 3 <= |data| && data[start..start + 3] == MAGIC
    ensures start + 3 <= |data| && data[start..start + 3] != MAGIC ==> r == Err(WrongFileFormat)
    ensures r.Ok? ==> r.value.maxBrightness <= MAX_SUPPORTED_BRIGHTNESS
    ensures r.Ok? ==> start + 3 < r.value.pixelsStart <= |data|
  {
    var got := data[start..start + Min(3, |data| - start)];
    if got != MAGIC[..|got|] then Err(WrongFileFormat)
    else if |got| < 3 then Err(EndOfInput)
    else FieldsAt(data, start + 3)
  }

  /** The header decoder in terms of the (up to) three bytes read for the magic:
      past a complete magic it is the field reader. */
  lemma HeaderOfMagic(data: seq<Byte>, start: nat, got: seq<Byte>)
    requires start <= |data| && got == data[start..start + Min(3, |data| - start)]
    ensures got != MAGIC[..|got|] ==> HeaderAt(data, start) == Err(WrongFileFormat)
    ensures got == MAGIC[..|got|] && |got| < 3 ==> HeaderAt(data, start) == Err(EndOfInput)
    ensures got == MAGIC[..|got|] && |got| == 3 ==> HeaderAt(data, start) == FieldsAt(data, start + 3)
  {
  }

  /** Past the magic bytes, the header decoder is the field reader. */
  lemma HeaderIsFields(data: seq<Byte>, start: nat)
    requires start + 3 <= |data| && data[start..start + 3] == MAGIC
    ensures HeaderAt(data, start) == FieldsAt(data, start + 3)
  {
    HeaderOfMagic(data, start, data[start..start + 3]);
  }

  /** The decoding constructor `image_ppm(std::ifstream&)` on a stream positioned at `start`. */
  function DecodeAt(data: seq<Byte>, start: nat): (r: Result<Decoded, DecodeError>)
    requires start <= |data|
    ensures r.Ok? ==> WellFormed(r.value.raster)
  {
    match HeaderAt(data, start)
    case Err(e) => Err(e)
    case Ok(hd) =>
      var count := PixelCount(hd.height, hd.width);
      if hd.pixelsStart + 3 * count > |data| then Err(EndOfInput)
      else
        Ok(Decoded(Raster(hd.height, hd.width, hd.maxBrightness, PixelsAt(data, hd.pixelsStart, count)),
                   hd.pixelsStart + 3 * count < |data|))
  }

  /** The decoding constructor as intended: the read after the pixel array skips
      one byte, conventionally a newline, whatever its value, and the warning is
      issued only when bytes remain after that byte. */
  function DecodeIntendedAt(data: seq<Byte>, start: nat): (r: Result<Decoded, DecodeError>)
    requires start <= |data|
    ensures r.Ok? == DecodeAt(data, start).Ok?
    ensures r.Err? ==> r.error == DecodeAt(data, start).error
    ensures r.Ok? ==> r.value.raster == DecodeAt(data, start).value.raster
    ensures r.Ok? && r.value.warning ==> DecodeAt(data, start).value.warning
  {
    match DecodeAt(data, start)
    case Err(e) => Err(e)
    case Ok(decoded) =>
      var hd := HeaderAt(data, start).value;
      Ok(Decoded(decoded.raster, hd.pixelsStart + 3 * PixelCount(hd.height, hd.width) + 1 < |data|))
  }

  // ---------------------------------------------------------------------------
  // Encoding, as functions of the image

  /** The header text `save` writes: "P6\n", then "<height> <width>\n<max_brightness>\n". */
  function HeaderText(height: nat, width: nat, maxBrightness: nat): (t: seq<Byte>)
    ensures |t| == |ToDecimal(height)| + |ToDecimal(width)| + |ToDecimal(maxBrightness)| + 6
    ensures t[..3] == MAGIC && t[|t| - 1] == NEWLINE
  {
    MAGIC + ToDecimal(height) + [SPACE] + ToDecimal(width) + [NEWLINE] + ToDecimal(maxBrightness) + [NEWLINE]
  }

  /** Everything `save` writes: the header text, then three bytes per pixel and nothing after. */
  function Encode(img: Raster): (data: seq<Byte>)
    ensures |data| == |HeaderText(img.height, img.width, img.maxBrightness)| + 3 * |img.pixels|
    ensures data[..|HeaderText(img.height, img.width, img.maxBrightness)|]
         == HeaderText(img.height, img.width, img.maxBrightness)
  {
    HeaderText(img.height, img.width, img.maxBrightness) + Flatten(img.pixels)
  }

  lemma AccumulateStep(data: seq<Byte>, start: nat, p: nat)
    requires start <= p < |data|
    ensures DecimalFold(data[start..p + 1]) % U32_MODULUS
         == ((DecimalFold(data[start..p]) % U32_MODULUS) * 10 + (data[p] - '0' as int)) % U32_MODULUS
  {
    var s := data[start..p + 1];
    assert s[..|s| - 1] == data[start..p];
    ModuloAbsorbs(DecimalFold(data[start..p]), data[p] - '0' as int);
  }

  /** `read_int` when the input ends inside the digit run. */
  lemma ReadIntAtEnd(data: seq<Byte>, start: nat)
    requires start <= |data|
    requires forall k :: start <= k < |data| ==> IsDigit(data[k])
    ensures ReadIntAt(data, start).None?
  {
  }

  /** `read_int` when a non-digit ends the digit run before `next`. */
  lemma ReadIntAtTerminated(data: seq<Byte>, start: nat, next: nat)
    requires start < next <= |data|
    requires forall k :: start <= k < next - 1 ==> IsDigit(data[k])
    requires !IsDigit(data[next - 1])
    ensures ReadIntAt(data, start) == Some(Parsed(DecimalFold(data[start..next - 1]) % U32_MODULUS, next))
  {
    RunLengthUnique(data, start, IsDigit, next - 1 - start);
  }

  // ---------------------------------------------------------------------------
  // The stream decoder

  /** `read_int`: reads the maximal run of digits and the one byte after it. */
  method ReadInt(input: Reader) returns (r: Option<uint32>)
    requires input.Valid()
    modifies input
    ensures input.Valid()
    ensures r.Some? == ReadIntAt(input.data, old(input.pos)).Some?
    ensures r.Some? ==> && r.value == ReadIntAt(input.data, old(input.pos)).value.value
                        && input.pos == ReadIntAt(input.data, old(input.pos)).value.next
                        && !input.eof
  {
    var start := input.pos;
    var got := input.Read(1);
    if |got| == 0 {
      ReadIntAtEnd(input.data, start);
      return None;  // `buf` would be read uninitialised
    }
    var ans: uint32 := 0;
    var buf := got[0];
    while IsDigit(buf)
      invariant input.Valid() && !input.eof
      invariant start < input.pos <= |input.data|
      invariant buf == input.data[input.pos - 1]
      invariant forall k :: start <= k < input.pos - 1 ==> IsDigit(input.data[k])
      invariant ans == DecimalFold(input.data[start..input.pos - 1]) % U32_MODULUS
      decreases |input.data| - input.pos
    {
      AccumulateStep(input.data, start, input.pos - 1);
      ans := (ans * 10 + (buf - '0' as int)) % U32_MODULUS;
      got := input.Read(1);
      if |got| == 0 {
        ReadIntAtEnd(input.data, start);
        return None;  // `buf` keeps its digit and the source loops for ever
      }
      buf := got[0];
    }
    ReadIntAtTerminated(input.data, start, input.pos);
    r := Some(ans);
  }

  /** The three header fields of the decoding constructor, on the stream. */
  method ReadFields(input: Reader) returns (r: Result<Header, DecodeError>)
    requires input.Valid()
    modifies input
    ensures input.Valid()
    ensures r == FieldsAt(input.data, old(input.pos))
    ensures r.Ok? ==> input.pos == r.value.pixelsStart && !input.eof
  {
    ghost var data, start := input.data, input.pos;
    var height := ReadInt(input);
    if height.None? {
      return Err(EndOfInput);
    }
    ghost var p1 := input.pos;
    var width := ReadInt(input);
    if width.None? {
      assert ReadIntAt(data, start) == Some(Parsed(height.value, p1));
      return Err(EndOfInput);
    }
    ghost var p2 := input.pos;
    var maxBrightness := ReadInt(input);
    assert ReadIntAt(data, start) == Some(Parsed(height.value, p1));
    assert ReadIntAt(data, p1) == Some(Parsed(width.value, p2));
    if maxBrightness.None? {
      return Err(EndOfInput);
    }
    assert ReadIntAt(data, p2) == Some(Parsed(maxBrightness.value, input.pos));
    if maxBrightness.value > MAX_SUPPORTED_BRIGHTNESS {
      return Err(MaxBrightnessUnsupported);
    }
    r := Ok(Header(height.value, width.value, maxBrightness.value, input.pos));
  }

  /** The header part of the decoding constructor, on the stream. */
  method ReadHeader(input: Reader) returns (r: Result<Header, DecodeError>)
    requires input.Valid()
    modifies input
    ensures input.Valid()
    ensures r == HeaderAt(input.data, old(input.pos))
    ensures r.Ok? ==> input.pos == r.value.pixelsStart && !input.eof
  {
    ghost var data, start := input.data, input.pos;
    var magic := input.Read(3);
    HeaderOfMagic(data, start, magic);
    if magic != MAGIC[..|magic|] {
      return Err(WrongFileFormat);
    }
    if |magic| < 3 {
      return Err(EndOfInput);
    }
    assert input.pos == start + 3;
    r := ReadFields(input);
    assert r == HeaderAt(data, start);
  }

  /** The outcome of a successful decode: the new image and the warning flag. */
  datatype Loaded = Loaded(image: ImagePpm, warning: bool)

  /** `image_ppm`: header fields, the pixel buffer and the luminance bounds
      `min_y_`/`max_y_` (doubles, which only the left-out contrast code reads). */
  class ImagePpm {
    var height: uint32
    var width: uint32
    var maxBrightness: uint32
    var pixels: array<Pixel>
    var minY: real
    var maxY: real

    ghost predicate Valid()
      reads this
    {
      maxBrightness <= MAX_SUPPORTED_BRIGHTNESS && pixels.Length == PixelCount(height, width)
    }

    ghost function Value(): Raster
      reads this, pixels
    {
      Raster(height, width, maxBrightness, pixels[..])
    }

    /** The fields the decoding constructor sets once the header is read, with
        `pixels_.resize(width_ * height_)`: that many value-initialised pixels. */
    constructor Sized(height: uint32, width: uint32, maxBrightness: uint32)
      ensures this.height == height && this.width == width && this.maxBrightness == maxBrightness
      ensures fresh(pixels) && pixels.Length == PixelCount(height, width)
      ensures forall i :: 0 <= i < pixels.Length ==> pixels[i] == Pixel(0, 0, 0)
      ensures minY == 1.0 && maxY == -1.0
      ensures maxBrightness <= MAX_SUPPORTED_BRIGHTNESS ==> Valid()
    {
      this.height := height;
      this.width := width;
      this.maxBrightness := maxBrightness;
      pixels := new Pixel[PixelCount(height, width)](_ => Pixel(0, 0, 0));
      minY := 1.0;
      maxY := -1.0;
    }

    /** The defaulted copy constructor: every field, with the pixel buffer copied element by element. */
    constructor Copy(other: ImagePpm)
      ensures height == other.height && width == other.width && maxBrightness == other.maxBrightness
      ensures minY == other.minY && maxY == other.maxY
      ensures fresh(pixels) && pixels[..] == other.pixels[..]
      ensures other.Valid() ==> Valid()
    {
      height := other.height;
      width := other.width;
      maxBrightness := other.maxBrightness;
      minY := other.minY;
      maxY := other.maxY;
      var buffer := new Pixel[other.pixels.Length];
      var i := 0;
      while i < buffer.Length
        modifies buffer
        invariant 0 <= i <= buffer.Length
        invariant buffer[..i] == other.pixels[..i]
      {
        buffer[i] := other.pixels[i];
        i := i + 1;
      }
      pixels := buffer;
    }

    /** The decoding constructor `image_ppm(std::ifstream&)`: checks the magic bytes,
        reads the three header fields, rejects a brightness above 255, fills the
        buffer from 3-byte groups in stream order, then reads one more byte;
        `warning` is set when that read did not reach end of file. */
    static method Load(input: Reader) returns (r: Result<Loaded, DecodeError>)
      requires input.Valid()
      modifies input
      ensures input.Valid()
      ensures r.Ok? == DecodeAt(input.data, old(input.pos)).Ok?
      ensures r.Err? ==> r.error == DecodeAt(input.data, old(input.pos)).error
      ensures r.Ok? ==> && fresh(r.value.image) && fresh(r.value.image.pixels)
                        && r.value.image.Valid()
                        && r.value.image.Value() == DecodeAt(input.data, old(input.pos)).value.raster
                        && r.value.warning == DecodeAt(input.data, old(input.pos)).value.warning
      ensures r.Ok? ==> r.value.image.minY == 1.0 && r.value.image.maxY == -1.0
      ensures r.Ok? ==> input.eof == !r.value.warning
      ensures r.Ok? ==> && HeaderAt(input.data, old(input.pos)).Ok?
                        && input.pos == Min(|input.data|, HeaderAt(input.data, old(input.pos)).value.pixelsStart
                                                          + 3 * r.value.image.pixels.Length + 1)
    {
      ghost var data, start := input.data, input.pos;
      var header := ReadHeader(input);
      if header.Err? {
        assert DecodeAt(data, start) == Err(header.error);
        return Err(header.error);
      }
      var hd := header.value;
      var image := new ImagePpm.Sized(hd.height, hd.width, hd.maxBrightness);
      var complete := image.ReadPixels(input);
      if !complete {
        assert DecodeAt(data, start) == Err(EndOfInput);
        return Err(EndOfInput);
      }
      var probe := input.Read(1);
      r := Ok(Loaded(image, !input.eof));
      assert DecodeAt(data, start) == Ok(Decoded(image.Value(), r.value.warning));
    }

    /** The loop of the decoding constructor: each pixel in buffer order from
        the next three bytes of the stream. False when the input runs out. */
    method ReadPixels(input: Reader) returns (complete: bool)
      requires input.Valid() && !input.eof
      modifies input, pixels
      ensures input.Valid()
      ensures complete == (old(input.pos) + 3 * pixels.Length <= |input.data|)
      ensures complete ==> && input.pos == old(input.pos) + 3 * pixels.Length && !input.eof
                           && pixels[..] == PixelsAt(input.data, old(input.pos), pixels.Length)
    {
      ghost var start := input.pos;
      var i := 0;
      while i < pixels.Length
        modifies input, pixels
        invariant input.Valid() && !input.eof
        invariant 0 <= i <= pixels.Length
        invariant input.pos == start + 3 * i
        invariant forall j :: 0 <= j < i ==> pixels[j] == PixelAt(input.data, start, j)
      {
        var group := input.Read(3);
        if |group| < 3 {
          return false;
        }
        pixels[i] := Pixel(group[0], group[1], group[2]);
        i := i + 1;
      }
      assert pixels[..] == PixelsAt(input.data, start, pixels.Length);
      complete := true;
    }

    /** `save`: the header text, then three quantised samples per pixel in buffer order. */
    method Save(out: Writer, quantise: Quantiser)
      modifies out
      ensures out.written
           == old(out.written) + Encode(Raster(height, width, maxBrightness, Quantise(quantise, pixels[..])))
    {
      out.Write(MAGIC);
      out.Write(ToDecimal(height) + [SPACE] + ToDecimal(width) + [NEWLINE] + ToDecimal(maxBrightness) + [NEWLINE]);
      ghost var header := HeaderText(height, width, maxBrightness);
      ghost var before := out.written;
      assert before == old(out.written) + header;
      WritePixels(out, quantise);
      ghost var body := Flatten(Quantise(quantise, pixels[..]));
      assert out.written == old(out.written) + (header + body);
    }

    /** The pixel loop of `save`: every pixel in buffer order, three samples each. */
    method WritePixels(out: Writer, quantise: Quantiser)
      modifies out
      ensures out.written == old(out.written) + Flatten(Quantise(quantise, pixels[..]))
    {
      var i := 0;
      while i < pixels.Length
        invariant 0 <= i <= pixels.Length
        invariant out.written == old(out.written) + Flatten(Quantise(quantise, pixels[..i]))
      {
        var q := quantise(pixels[i]);
        assert Quantise(quantise, pixels[..i + 1]) == Quantise(quantise, pixels[..i]) + [q];
        out.Write([q.r, q.g, q.b]);
        i := i + 1;
      }
      assert pixels[..i] == pixels[..];
    }

    /** `swap`: exchanges all six fields with `other`. */
    method Swap(other: ImagePpm)
      modifies this, other
      ensures height == old(other.height) && other.height == old(height)
      ensures width == old(other.width) && other.width == old(width)
      ensures maxBrightness == old(other.maxBrightness) && other.maxBrightness == old(maxBrightness)
      ensures minY == old(other.minY) && other.minY == old(minY)
      ensures maxY == old(other.maxY) && other.maxY == old(maxY)
      ensures pixels == old(other.pixels) && other.pixels == old(pixels)
      ensures Valid() == old(other.Valid()) && other.Valid() == old(Valid())
    {
      var h := height;
      height := other.height;
      other.height := h;
      var w := width;
      width := other.width;
      other.width := w;
      var m := maxBrightness;
      maxBrightness := other.maxBrightness;
      other.maxBrightness := m;
      var lo := minY;
      minY := other.minY;
      other.minY := lo;
      var hi := maxY;
      maxY := other.maxY;
      other.maxY := hi;
      var p := pixels;
      pixels := other.pixels;
      other.pixels := p;
    }

    /** `operator=` as written: it copies `*this` instead of `other` and swaps with
        that copy, so the target keeps every value it had (in a fresh buffer). */
    method AssignAsWritten(other: ImagePpm)
      modifies this
      ensures height == old(height) && width == old(width) && maxBrightness == old(maxBrightness)
      ensures minY == old(minY) && maxY == old(maxY)
      ensures fresh(pixels) && pixels[..] == old(pixels[..])
      ensures Valid() == old(Valid())
    {
      var copy := new ImagePpm.Copy(this);
      Swap(copy);
    }

    /** `operator=` as intended (copy-and-swap from `other`): the target becomes a
        deep copy of `other`, also when `other` is the target itself. */
    method Assign(other: ImagePpm)
      modifies this
      ensures height == old(other.height) && width == old(other.width)
      ensures maxBrightness == old(other.maxBrightness)
      ensures minY == old(other.minY) && maxY == old(other.maxY)
      ensures fresh(pixels) && pixels[..] == old(other.pixels[..])
      ensures old(other.Valid()) ==> Valid()
    {
      var copy := new ImagePpm.Copy(other);
      Swap(copy);
    }
  }

  /** A concrete case of `operator=` as written: assigning a 2-row image to a
      1-row image leaves the target with 1 row. */
  method AssignmentKeepsTarget() returns (target: ImagePpm, source: ImagePpm)
    ensures target.height == 1 && source.height == 2
  {
    target := new ImagePpm.Sized(1, 1, 255);
    source := new ImagePpm.Sized(2, 1, 255);
    target.AssignAsWritten(source);
  }
}
