/** Byte-level vocabulary shared by both P6 codecs: bytes, 32-bit unsigned
    values, pixels, byte classes and the pixel-array layout. */
module PpmBytes {

  /** One byte of a file, as its unsigned value. */
  type Byte = b: int | 0 <= b < 256

  const U32_MODULUS: int := 0x1_0000_0000

  /** `uint32_t`: every arithmetic step on it is reduced modulo U32_MODULUS explicitly. */
  type uint32 = n: int | 0 <= n < U32_MODULUS

  const SPACE: Byte := ' ' as int
  const NEWLINE: Byte := '\n' as int

  datatype Option<+T> = None | Some(value: T)

  datatype Result<+T, +E> = Ok(value: T) | Err(error: E)

  /** A value read from the input, with the position just after the last byte consumed. */
  datatype Parsed<+T> = Parsed(value: T, next: nat)

  /** An ASCII decimal digit '0'..'9'. */
  predicate IsDigit(b: Byte) {
    '0' as int <= b <= '9' as int
  }

  /** C's `isspace` in the "C" locale: space, '\t', '\n', '\v', '\f' and '\r'. */
  predicate IsSpace(b: Byte) {
    b == SPACE || 9 <= b <= 13
  }

  /** A byte that does not end a whitespace-delimited header field. */
  predicate IsFieldByte(b: Byte) {
    !IsSpace(b)
  }

  /** Length of the longest run of bytes satisfying `keep` that starts at `pos`. */
  function RunLength(data: seq<Byte>, pos: nat, keep: Byte -> bool): (n: nat)
    requires pos <= |data|
    ensures pos + n <= |data|
    ensures forall k :: pos <= k < pos + n ==> keep(data[k])
    ensures pos + n == |data| || !keep(data[pos + n])
    decreases |data| - pos
  {
    if pos < |data| && keep(data[pos]) then 1 + RunLength(data, pos + 1, keep) else 0
  }

  /** A run is determined by its two ends: any run of `keep` bytes that is
      followed by the end of the data or by a byte failing `keep` is the longest one. */
  lemma RunLengthUnique(data: seq<Byte>, pos: nat, keep: Byte -> bool, m: nat)
    requires pos + m <= |data|
    requires forall k :: pos <= k < pos + m ==> keep(data[k])
    requires pos + m == |data| || !keep(data[pos + m])
    ensures RunLength(data, pos, keep) == m
  {
  }

  /** A stream that starts with `x + y` holds `x` first and `y` right after it. */
  lemma PieceOfPrefix(data: seq<Byte>, x: seq<Byte>, y: seq<Byte>)
    requires |x| + |y| <= |data| && data[..|x| + |y|] == x + y
    ensures data[..|x|] == x && data[|x|..|x| + |y|] == y
  {
    assert data[..|x|] == data[..|x| + |y|][..|x|];
    assert data[|x|..|x| + |y|] == data[..|x| + |y|][|x|..];
  }

  /** Where the pieces of a header text `magic f1 s1 f2 s2 f3 s3` lie in a stream
      that starts with it: each field ends one byte before its separator. */
  lemma HeaderLayout(data: seq<Byte>, magic: seq<Byte>, f1: seq<Byte>, s1: Byte, f2: seq<Byte>, s2: Byte,
                     f3: seq<Byte>, s3: Byte, rest: seq<Byte>, p1: nat, p2: nat, p3: nat)
    requires data == magic + f1 + [s1] + f2 + [s2] + f3 + [s3] + rest
    requires p1 == |magic| + |f1| + 1 && p2 == p1 + |f2| + 1 && p3 == p2 + |f3| + 1
    ensures p3 <= |data| && data[..|magic|] == magic
    ensures data[|magic|..p1 - 1] == f1 && data[p1 - 1] == s1
    ensures data[p1..p2 - 1] == f2 && data[p2 - 1] == s2
    ensures data[p2..p3 - 1] == f3 && data[p3 - 1] == s3
  {
    var a1 := magic + f1;
    var a2 := a1 + [s1];
    var a3 := a2 + f2;
    var a4 := a3 + [s2];
    var a5 := a4 + f3;
    var text := a5 + [s3];
    assert data[..|text|] == text;
    PieceOfPrefix(data, a5, [s3]);
    PieceOfPrefix(data, a4, f3);
    PieceOfPrefix(data, a3, [s2]);
    PieceOfPrefix(data, a2, f2);
    PieceOfPrefix(data, a1, [s1]);
    PieceOfPrefix(data, magic, f1);
    assert data[|a1|] == data[|a1|..|a1| + 1][0];
    assert data[|a3|] == data[|a3|..|a3| + 1][0];
    assert data[|a5|] == data[|a5|..|a5| + 1][0];
  }

  /** A pixel, abstracted to the three 8-bit samples (red, green, blue) it was initialised from. */
  datatype Pixel = Pixel(r: Byte, g: Byte, b: Byte)

  /** The conversion of a pixel back to the three samples written out. In the
      source it goes through floating point; here it is a parameter. */
  type Quantiser = Pixel -> Pixel

  function Samples(p: Pixel): seq<Byte> {
    [p.r, p.g, p.b]
  }

  /** The raw pixel array: three bytes per pixel, in buffer order. */
  function Flatten(ps: seq<Pixel>): (s: seq<Byte>)
    ensures |s| == 3 * |ps|
  {
    if ps == [] then [] else Flatten(ps[..|ps| - 1]) + Samples(ps[|ps| - 1])
  }

  /** Pixel i occupies bytes 3i, 3i+1 and 3i+2 of the raw array. */
  lemma {:induction false} FlattenAt(ps: seq<Pixel>, i: nat)
    requires i < |ps|
    ensures Flatten(ps)[3 * i] == ps[i].r
    ensures Flatten(ps)[3 * i + 1] == ps[i].g
    ensures Flatten(ps)[3 * i + 2] == ps[i].b
  {
    var init := ps[..|ps| - 1];
    assert Flatten(ps) == Flatten(init) + Samples(ps[|ps| - 1]);
    if i < |ps| - 1 {
      FlattenAt(init, i);
      assert init[i] == ps[i];
    }
  }

  /** The pixel made of the i-th 3-byte group that starts at `pos`. */
  function PixelAt(data: seq<Byte>, pos: nat, i: nat): Pixel
    requires pos + 3 * i + 3 <= |data|
  {
    Pixel(data[pos + 3 * i], data[pos + 3 * i + 1], data[pos + 3 * i + 2])
  }

  /** `count` pixels read from consecutive 3-byte groups starting at `pos`, in stream order. */
  function PixelsAt(data: seq<Byte>, pos: nat, count: nat): (ps: seq<Pixel>)
    requires pos + 3 * count <= |data|
    ensures |ps| == count
    ensures forall i :: 0 <= i < count ==> Samples(ps[i]) == data[pos + 3 * i..pos + 3 * i + 3]
  {
    seq(count, i requires 0 <= i < count => PixelAt(data, pos, i))
  }

  /** Reading pixels back from a raw pixel array gives the pixels it was made from. */
  lemma PixelsOfFlatten(prefix: seq<Byte>, ps: seq<Pixel>, suffix: seq<Byte>)
    ensures |prefix| + 3 * |ps| <= |prefix + Flatten(ps) + suffix|
    ensures PixelsAt(prefix + Flatten(ps) + suffix, |prefix|, |ps|) == ps
  {
    var data := prefix + Flatten(ps) + suffix;
    var got := PixelsAt(data, |prefix|, |ps|);
    forall i | 0 <= i < |ps|
      ensures got[i] == ps[i]
    {
      FlattenAt(ps, i);
      assert data[|prefix| + 3 * i] == Flatten(ps)[3 * i];
      assert data[|prefix| + 3 * i + 1] == Flatten(ps)[3 * i + 1];
      assert data[|prefix| + 3 * i + 2] == Flatten(ps)[3 * i + 2];
    }
  }

  /** Pixels read from a stream do not depend on what follows them. */
  lemma PixelsOfPrefix(data: seq<Byte>, extra: seq<Byte>, pos: nat, count: nat)
    requires pos + 3 * count <= |data|
    ensures PixelsAt(data + extra, pos, count) == PixelsAt(data, pos, count)
  {
    var all := data + extra;
    forall i | 0 <= i < count
      ensures PixelAt(all, pos, i) == PixelAt(data, pos, i)
    {
    }
  }

  /** Every pixel passed through the quantiser, in order. */
  function Quantise(q: Quantiser, ps: seq<Pixel>): (qs: seq<Pixel>)
    ensures |qs| == |ps|
  {
    seq(|ps|, i requires 0 <= i < |ps| => q(ps[i]))
  }

  function Min(a: int, b: int): int {
    if a < b then a else b
  }
}
