# Binary PPM (P6) codec of contrast_adjuster, in Dafny

contrast_adjuster reads a binary PPM image (P6, the Netpbm raw "ppm" format) and stretches its
luminance. Then it writes the image back. This project models the byte-level codec
and proves its properties. The repository has two variants of the codec:

- **image_ppm.cpp** has the class `image_ppm`:
  - `read_int`;
  - the decoding constructor `image_ppm(std::ifstream&)`;
  - `save`, `swap`, the defaulted copy constructor and `operator=`.
- **main.cpp** has an older variant:
  - `safe_read`, `safe_read_int` and `read_image`, over a C `FILE*`;
  - `Image::save`.

Both variants are modelled the same way. Each decoder is written twice:

- once as a function of the input bytes, such as `ImagePpm.DecodeAt` or `LegacyPpm.ReadImageAt`;
- once as an imperative method over a stream object, such as `ImagePpm.ImagePpm.Load` or
  `LegacyPpm.ReadImage`.

The method loops over a cursor like the source does, and it is proved to compute the function.
Each encoder is a method that appends to a `Writer`. It is proved to write `Encode` of the image.
The round trip, the trailing-data behaviour, truncation and the other properties are lemmas
about these functions.

Files and modules:

| file | module | contents |
|---|---|---|
| `ppm_bytes.dfy` | `PpmBytes` | bytes, `uint32`, pixels, byte classes, the 3-bytes-per-pixel layout |
| `decimal.dfy` | `Decimal` | `std::to_string` and the two decoders' digit accumulation |
| `streams.dfy` | `Streams` | `Reader` (an `ifstream`), `CFile` (a `FILE*` with its end-of-file and error indicators), `Writer` |
| `image_ppm.dfy` | `ImagePpm` | the image_ppm.cpp codec and the class `ImagePpm` |
| `image_ppm_properties.dfy` | `ImagePpmProperties` | round trip and trailing data for image_ppm.cpp |
| `legacy_ppm.dfy` | `LegacyPpm` | the main.cpp codec and the class `Image` |
| `legacy_ppm_properties.dfy` | `LegacyPpmProperties` | round trip, trailing data, truncation and the unchecked magic byte for main.cpp |

How things are modelled:

- **Pixels.** A pixel is the three 8-bit samples it was read from. The conversion back to
  samples goes through floating point in the source (`get_r`, `getR` and the rest). Here it is
  a function-valued parameter, `Quantiser`, that both `Save` methods take.
- **Integers.** image_ppm.cpp uses `uint32_t`. Its wrap-around modulo 2^32 is written out, both
  in the digit accumulation and in `width_ * height_`. The `int`s of main.cpp are unbounded,
  because signed overflow is undefined behaviour in C++.
- **End of input.** A read past the end of the stream in image_ppm.cpp is not checked by the
  source. The model makes it the explicit error `EndOfInput`.
- **Failing devices.** A `CFile` either reports end of file when its data is exhausted, or
  reports a read error when `failsAtEnd` is set. This way both messages of `safe_read` are
  reachable.

## Model

| member | source | states |
|---|---|---|
| `PpmBytes.PixelsOfFlatten` | image_ppm.cpp:33-39 | reading one 3-byte group per pixel from a raw pixel array gives back the pixels it was laid out from, whatever precedes and follows it |
| `PpmBytes.PixelsOfPrefix` | image_ppm.cpp:33-39 | pixels read from a stream do not depend on bytes after the pixel array |
| `PpmBytes.Flatten` | image_ppm.cpp:104-109 | the raw pixel array `save` writes has exactly three bytes per pixel |
| `PpmBytes.PixelsAt` | image_ppm.cpp:33-39 | `count` pixels, pixel i made of the i-th 3-byte group after `pos` |
| `Decimal.ToDecimal` | image_ppm.cpp:101-102 | `to_string` of a non-negative value is non-empty, all digits, and has no leading zero |
| `Decimal.IntToString` | main.cpp:92 | `to_string` of an `int` is non-empty, starts with `'-'` iff the value is negative, and is all digits otherwise |
| `Decimal.AccumulateU32` | image_ppm.cpp:6-13 | the `uint32_t` accumulation `ans * 10 + (buf - '0')`, wrapping at every step, equals the exact accumulation reduced once modulo 2^32 |
| `Decimal.FoldToDecimal` | main.cpp:193-199 | `DecimalFold`, the unbounded accumulation `ans * 10 + (b - 48)` over every byte read, gives the number back when run over the digits `to_string` renders |
| `Decimal.AccumulateToDecimal` | image_ppm.cpp:6-15 | the wrapping accumulation reads a rendered `uint32_t` back exactly |
| `Streams.Reader.Read` | image_ppm.cpp:22 | `istream::read` extracts the next `min(n, remaining)` bytes and sets eofbit exactly when it extracts fewer than `n` |
| `Streams.CFile.Read` | main.cpp:183-184 | `fread` returns the next `min(cnt, remaining)` bytes; a short read sets the end-of-file indicator, or the error indicator on a failing device |
| `Streams.Writer.Write` | image_ppm.cpp:108 | `ofstream::write` and `fwrite` append exactly the given bytes to what was written before |
| `ImagePpm.ReadIntAt` | image_ppm.cpp:5-15 | `read_int` consumes the maximal digit run and exactly one more byte, the first non-digit. The value is the decimal value of the run modulo 2^32. A leading non-digit gives 0 after one byte. There is no result iff the input ends inside the run |
| `ImagePpm.FieldsAt` | image_ppm.cpp:26-31 | the three fields are read in the order height, width, brightness; a brightness above 255 is rejected and no other outcome is "Wrong file format"; success consumes at least one byte and stays within the input |
| `ImagePpm.HeaderAt` | image_ppm.cpp:21-31 | any mismatch with `'P'`, `'6'`, `'\n'` among the first three bytes is "Wrong file format". Success means the magic bytes are present, a brightness of at most 255 was read, and three fields were consumed |
| `ImagePpm.DecodeAt` | image_ppm.cpp:17-44 | every decoded image has brightness at most 255 and exactly `width * height mod 2^32` pixels |
| `ImagePpm.PixelCount` | image_ppm.cpp:32 | `width_ * height_` in `uint32_t`: the exact product when it fits, and congruent to it modulo 2^32 in any case |
| `ImagePpm.HeaderText` | image_ppm.cpp:100-103 | the header text starts with `"P6\n"`, ends with a newline, and is the three rendered fields plus six bytes long |
| `ImagePpm.Encode` | image_ppm.cpp:98-110 | what `save` writes is the header text followed by exactly three bytes per pixel |
| `ImagePpm.DecodeIntendedAt` | image_ppm.cpp:40-43 | the corrected decoder fails exactly when `DecodeAt` does, with the same error, and otherwise yields the same image; only its warning differs, and it warns only where `DecodeAt` warns |
| `ImagePpm.ReadInt` | image_ppm.cpp:6-15 | the `read_int` loop returns `ReadIntAt`'s value and leaves the cursor just after the terminating byte |
| `ImagePpm.ReadFields` | image_ppm.cpp:26-31 | the three `read_int` calls and the brightness check give exactly `FieldsAt`, and stop at the pixel array |
| `ImagePpm.ReadHeader` | image_ppm.cpp:21-31 | the magic check and the three `read_int` calls give exactly `HeaderAt`, and stop at the pixel array |
| `ImagePpm.ImagePpm.Sized` | image_ppm.cpp:32 | `pixels_.resize(width_ * height_)`: a fresh buffer of `width * height mod 2^32` value-initialised pixels; `min_y_ = 1`, `max_y_ = -1`; the image is valid when `max_brightness` is supported |
| `ImagePpm.ImagePpm.Copy` | image_ppm.h:10 | the defaulted copy constructor copies every field, the pixel vector element by element into a fresh buffer; a copy of a valid image is valid |
| `ImagePpm.ImagePpm.Load` | image_ppm.cpp:17-44 | the decoding constructor fails with `DecodeAt`'s error or builds a fresh, valid image holding `DecodeAt`'s raster, with its warning flag, and with `min_y_ = 1`, `max_y_ = -1`; on success the caller's stream is left just past the one byte read after the pixel array (or at its end), with eofbit set exactly when the warning is not issued |
| `ImagePpm.ImagePpm.ReadPixels` | image_ppm.cpp:32-39 | pixel i is initialised from the i-th 3-byte group after the header, in stream order; it fails iff fewer than `3 * count` bytes remain |
| `ImagePpm.ImagePpm.Save` | image_ppm.cpp:98-110 | `save` appends exactly `"P6\n" height " " width "\n" max_brightness "\n"` and then 3 quantised bytes per pixel, in buffer order, with nothing after |
| `ImagePpm.ImagePpm.WritePixels` | image_ppm.cpp:104-109 | the pixel loop appends the 3 quantised samples of every pixel, in buffer order |
| `ImagePpm.ImagePpm.Swap` | image_ppm.cpp:46-54 | the six fields are exchanged with `other`, and with them validity |
| `ImagePpm.ImagePpm.AssignAsWritten` | image_ppm.cpp:56-60 | `operator=` as written: every field of the target keeps its old value, so validity is kept |
| `ImagePpm.ImagePpm.Assign` | image_ppm.cpp:56-60 | copy-and-swap from `other`: the target gets `other`'s fields and a fresh copy of its pixels, and is valid when `other` was |
| `ImagePpm.AssignmentKeepsTarget` | image_ppm.cpp:56-60 | assigning a 2-row image to a 1-row image leaves the target with 1 row |
| `ImagePpmProperties.ReadIntOfRendered` | image_ppm.cpp:6-15 | `read_int` on the digits of `n` followed by a non-digit reads `n mod 2^32` and consumes the digits and the terminator |
| `ImagePpmProperties.ReadIntLocal` | image_ppm.cpp:6-15 | a successful `read_int` depends only on the bytes it consumes |
| `ImagePpmProperties.HeaderOfFields` | image_ppm.cpp:21-31 | the magic bytes followed by three rendered fields, each with a non-digit after it, decode to those fields modulo 2^32, in the order height, width, brightness. A brightness above 255 is rejected |
| `ImagePpmProperties.RenderedLayout` | image_ppm.cpp:100-103 | in `save`'s header text the magic comes first, and each field's digits end one byte before its separator, which is not a digit |
| `ImagePpmProperties.HeaderOfRendered` | image_ppm.cpp:100-103 | the header text `save` writes decodes to its three fields modulo 2^32, and the pixel array starts right after it. A reduced brightness above 255 is rejected |
| `ImagePpmProperties.RoundTrip` | image_ppm.cpp:98-110 | decoding what `save` writes for a well-formed image gives the same height, width, brightness and pixels, without the warning |
| `ImagePpmProperties.FieldsLocal` | image_ppm.cpp:26-28 | the three header fields depend only on the bytes they are read from |
| `ImagePpmProperties.HeaderLocal` | image_ppm.cpp:21-31 | the header decoder depends only on the bytes before the pixel array |
| `ImagePpmProperties.TrailingBytesOnlyWarn` | image_ppm.cpp:40-43 | bytes appended to a decodable input do not change the image; the warning is then issued iff at least one byte follows the pixel array |
| `ImagePpmProperties.WarningIffTrailingData` | image_ppm.cpp:40-43 | decoding `save`'s output followed by `extra` gives the same image, with the warning iff `extra` is non-empty |
| `ImagePpmProperties.HeaderOfEncoded` | image_ppm.cpp:98-103 | the header of what `save` writes for a well-formed image decodes to its fields, whatever follows |
| `ImagePpmProperties.SaveThenDecode` | image_ppm.cpp:98-110 | `save` on a valid image into an empty file writes bytes that the decoding constructor reads back as that image with quantised pixels, without the warning |
| `ImagePpmProperties.NewlineAfterPixelsWarns` | image_ppm.cpp:40-43 | as written, a newline after the pixel array, the byte the final read is commented for, produces the warning |
| `ImagePpmProperties.IntendedWarningIffExtraData` | image_ppm.cpp:40-43 | with the corrected final read, the warning is issued iff more than one byte follows what `save` writes |
| `LegacyPpm.SafeReadIntAt` | main.cpp:192-202 | `safe_read_int` consumes up to and including the first whitespace byte, with no whitespace before it. It fails with the short-read error iff no whitespace byte remains |
| `LegacyPpm.ShortReadError` | main.cpp:184-188 | `safe_read` throws "File read error." exactly on a device that fails, and "Premature end of file." exactly on one that reports end of file |
| `LegacyPpm.LoopCount` | main.cpp:168 | the loop `for (i = 0; i < width * height; i++)` runs `width * height` times when that is positive and not at all otherwise |
| `LegacyPpm.HeaderText` | main.cpp:91-93 | the header text starts with `"P6\n"`, ends with a newline, and is the three rendered fields plus six bytes long |
| `LegacyPpm.Encode` | main.cpp:91-101 | what `Image::save` writes is the header text followed by exactly three bytes per pixel |
| `LegacyPpm.FieldsAt` | main.cpp:164-166 | the three fields are read in the order height, width, brightness; the only failure is the short-read error; success consumes at least one byte and stays within the file |
| `LegacyPpm.HeaderAt` | main.cpp:158-166 | fewer than two bytes is the short-read error; otherwise a mismatch with `'P'`, `'6'` is "Bad magic number". Success means the magic is present and three fields were read after one more byte |
| `LegacyPpm.PixelsAfter` | main.cpp:167-175 | after the header, success only on a file that reports end of file; the image then has a non-negative `width * height` and exactly that many pixels |
| `LegacyPpm.ReadImageAt` | main.cpp:156-180 | success only on a file that reports end of file; the image then has a non-negative `width * height` and exactly that many pixels |
| `LegacyPpm.SafeRead` | main.cpp:182-190 | it succeeds iff `cnt` bytes remain and returns them; otherwise it throws "Premature end of file." at end of file and "File read error." on a failing device |
| `LegacyPpm.SafeReadInt` | main.cpp:192-202 | the `safe_read_int` loop returns `SafeReadIntAt`'s value or error and leaves the cursor just after the whitespace byte |
| `LegacyPpm.ReadFields` | main.cpp:164-166 | the three `safe_read_int` calls give exactly `FieldsAt` and stop at the pixel array |
| `LegacyPpm.ReadHeader` | main.cpp:158-166 | the magic reads and the three `safe_read_int` calls give exactly `HeaderAt` and stop at the pixel array |
| `LegacyPpm.ReadPixels` | main.cpp:167-171 | pixel i comes from the i-th 3-byte group in stream order; it fails with the short-read error iff fewer than `3 * count` bytes remain |
| `LegacyPpm.Image.constructor` | main.cpp:177 | `Image image = {height, width, brightness, pixels}`: the four fields given, `min_y = 1`, `max_y = -1` |
| `LegacyPpm.Image.Save` | main.cpp:91-101 | `Image::save` appends `"P6\n" height " " width "\n" max_brightness "\n"` and then 3 quantised bytes for each of the first `width * height` pixels, in index order, with nothing after |
| `LegacyPpm.Image.WritePixels` | main.cpp:94-101 | the pixel loop appends the quantised samples of pixels `0 .. count-1`, in index order |
| `LegacyPpm.ReadImage` | main.cpp:156-180 | `read_image` fails with `ReadImageAt`'s error or returns a fresh image holding `ReadImageAt`'s picture in a fresh pixel array, with `minY = 1.0` and `maxY = -1.0` |
| `LegacyPpmProperties.SafeReadIntOfRendered` | main.cpp:192-202 | `safe_read_int` on the digits of a non-negative `n` followed by whitespace reads `n` and consumes the whitespace |
| `LegacyPpmProperties.SafeReadIntLocal` | main.cpp:192-202 | a successful `safe_read_int` depends only on the bytes it consumes, and not on how the device behaves after its data |
| `LegacyPpmProperties.SafeReadIntCut` | main.cpp:195-198 | a file cut inside a field, or before the whitespace that ends it, makes `safe_read_int` fail with the short-read error |
| `LegacyPpmProperties.SafeReadIntSame` | main.cpp:192-202 | two files of the same length that agree from the cursor on give the same `safe_read_int` result |
| `LegacyPpmProperties.FieldsLocal` | main.cpp:164-166 | the three header fields depend only on the bytes they are read from, and not on how the device behaves after its data |
| `LegacyPpmProperties.FieldsSame` | main.cpp:164-166 | two files of the same length that agree from the cursor on give the same three header fields |
| `LegacyPpmProperties.FieldsCut` | main.cpp:164-166 | a file cut before the whitespace that ends the brightness field makes the field reader fail with the short-read error |
| `LegacyPpmProperties.HeaderOfFields` | main.cpp:159-166 | "P6", any byte, then three rendered non-negative fields, each followed by whitespace, read back as those fields, in the order height, width, brightness |
| `LegacyPpmProperties.RenderedLayout` | main.cpp:91-93 | in `Image::save`'s header text "P6" comes first, and each field's digits end one byte before its separator, which is whitespace |
| `LegacyPpmProperties.HeaderOfRendered` | main.cpp:91-93 | the header text `Image::save` writes for non-negative fields reads back as those fields, and the pixel array starts right after it |
| `LegacyPpmProperties.RoundTrip` | main.cpp:91-101 | `read_image` on what `Image::save` writes recovers height, width, brightness and pixels. This holds for non-negative fields and `width * height` pixels, on a file that reports end of file |
| `LegacyPpmProperties.SaveThenRead` | main.cpp:91-101 | `Image::save` of an image with non-negative fields and `width * height` pixels into an empty file is read back by `read_image` as that image with quantised pixels |
| `LegacyPpmProperties.HeaderLocal` | main.cpp:159-166 | the header reader depends only on the bytes before the pixel array |
| `LegacyPpmProperties.TrailingDataRejected` | main.cpp:172-175 | any byte after the pixel array of an accepted file makes `read_image` throw "Pixels were read, but end of file not reached" |
| `LegacyPpmProperties.FailingDeviceRejected` | main.cpp:172-175 | on a device that reports a read error rather than end of file, the final probe of an otherwise accepted file throws "Pixels were read, but end of file not reached" |
| `LegacyPpmProperties.HeaderCut` | main.cpp:159-166 | an accepted file cut inside its header fails with the short-read error |
| `LegacyPpmProperties.TruncationRejected` | main.cpp:182-190 | every proper prefix of an accepted file is rejected: "Premature end of file." at end of file, "File read error." on a failing device |
| `LegacyPpmProperties.HeaderIgnoresThirdByte` | main.cpp:163 | the header reader gives the same result whatever the byte after "P6" is |
| `LegacyPpmProperties.ThirdMagicByteIgnored` | main.cpp:158-163 | the byte after "P6" is consumed without being checked: changing it never changes what `read_image` returns |
| `LegacyPpmProperties.PixelsIgnoreThirdByte` | main.cpp:168-171 | the pixel array lies past the byte after "P6" |

## Left out

- Colour: `image_ppm::pixel` (image_ppm.cpp:112-141) and `Color` (main.cpp:7-46) use double
  arithmetic. The quantisation back to bytes is the `Quantiser` parameter. So the model does
  not state the difference between the variants: image_ppm.cpp truncates, and main.cpp rounds.
- Contrast enhancement: `improve_contrast`, `update_min_max_y` and `increase_linearly_y`
  (image_ppm.cpp:62-96), and `find_min_max` and `color_adjustments` (main.cpp:56-84). This is
  floating point run in parallel with OpenMP. `min_y`/`max_y` are kept as fields, and only
  their initial values are stated.
- `main` (main.cpp:111-149) is not modelled: argument parsing, the thread count, timing and
  console output.
- File handles are not modelled: the `is_open` check (image_ppm.cpp:18-20), `fopen` and its
  failure in `Image::save` (main.cpp:87-90), and `fclose`. Streams are given already open, and
  the printed warning is a returned flag.
- Memory management is not modelled: the `new`/`delete[]` mismatch in `safe_read_int`, buffers
  leaked on a throw, and allocation failure.
- `ImagePpm.ReadIntAt`: the source does not check its reads. When the input ends inside a digit
  run, the failed read leaves the digit in `buf` and the loop never ends. When it ends before
  the first byte, `buf` is read uninitialised. The model returns no value, and the decoder
  reports `EndOfInput`.
- `ImagePpm.DecodeAt` rejects by choice a pixel array cut short, which the source accepts
  without any signal. `istream::read` stores only the bytes it extracts, so a short group
  keeps them over the stale bytes of the previous group (or of "P6\n"). Every later
  `in.read(buff, 3)` extracts nothing, so all remaining pixels repeat that `buff`. The read at
  image_ppm.cpp:40 also extracts nothing and leaves eofbit set, so no warning is printed and
  the constructor returns the padded image. The model returns `EndOfInput` instead and does
  not model that image.
- `ImagePpm.HeaderAt`: a short read of the magic bytes leaves the rest of the uninitialised
  `buff` (image_ppm.cpp:21-23) unspecified. The model reports "Wrong file format" when an
  available byte mismatches, and `EndOfInput` otherwise.
- `LegacyPpm.SafeReadIntAt` and `LegacyPpm.ReadImageAt` do not model `int` overflow in
  `ans * 10 + …` or in `width * height`; integers are unbounded. A negative product is the
  `std::bad_array_new_length` that `new Color[…]` throws.
- `LegacyPpmProperties.RoundTrip` requires non-negative fields: `to_string` writes a minus sign,
  which `safe_read_int` folds as the digit value -3.
- `ImagePpm.ImagePpm.Save` and `LegacyPpm.Image.Save` do not model stream write failures.

## Findings

| source | as written | input that shows it | evidently intended | confidence | as-written member | corrected member |
|---|---|---|---|---|---|---|
| image_ppm.cpp:56-60 | `operator=` copy-constructs `tmp` from `*this` and swaps with it, so the target keeps its own values | assign an image of height 2 to an image of height 1: the target still has height 1 | copy-and-swap from `other` (`image_ppm tmp(other)`), so the target becomes a copy of `other` | high (proved on the model, not executed) | `ImagePpm.ImagePpm.AssignAsWritten` | `ImagePpm.ImagePpm.Assign` |
| image_ppm.cpp:40-43 | the read after the pixel array is commented `// newline`, but extracting the last byte of a stream does not set eofbit, so the warning is printed whenever any byte follows the pixels, the expected newline included | what `save` writes followed by one `'\n'`: the warning is printed | the final read skips one byte, conventionally the newline, whatever its value, and the warning ("EOF not reached") is printed only when bytes remain after that byte | medium (proved on the model, not executed) | `ImagePpmProperties.NewlineAfterPixelsWarns` | `ImagePpm.DecodeIntendedAt` |

The stream decoder `ImagePpm.ImagePpm.Load` models the constructor as written and is proved
against `ImagePpm.DecodeAt`. `ImagePpm.DecodeIntendedAt` is the corrected reading, and
`ImagePpmProperties.IntendedWarningIffExtraData` proves its intended warning.
