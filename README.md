# A verified model of the `bitmap` 24-bit BMP codec

This project models the core of the `bitmap` command-line tool in Dafny. It
covers the `internal/bmp` package, which reads and writes uncompressed 24-bit
BMP files. A file is a 14-byte BITMAPFILEHEADER, a 40-byte BITMAPINFOHEADER,
then a pixel array of bottom-up rows, each padded to a multiple of four bytes.
The project also models the two string helpers of `internal/transform`: the
`---` flag rewrite and the repeatable flag value.

Files are byte sequences. An open file is a `Streams.Reader`, a class with the
file's bytes and a cursor that `Read`, `Seek` and `binary.Read` move the way
the Go calls do. An output file is a `Streams.Writer` that collects what is
written. On the read path, once the file is open, every `log.Fatalf` exit of
`ReadHeader` and `ReadImage`, and the panic of `ReadImage`'s `make` on a
negative length, becomes an `Err` value of `BmpTypes.Result`. Open, create
and write failures are not modelled (see "Left out").

The imperative parts stay imperative:
- the cursor walk of `ReadHeader`;
- the nested row and column loops of `ReadImage` and `writeImage`, over a
  reused row buffer (an `array<byte>`) and the pixel grid (an `array<Pixel>`);
- the append loop of `normalizeFlags`;
- `flagSlice.Set`, which appends in place.

Each loop method is proved against a specification function:
- `BmpHeader.DecodeHeader` for the header;
- `Bmp.DecodeImage` for the pixels read;
- `Bmp.ImageBytes` / `Bmp.DiskRows` for the bytes written;
- `Transform.NormalizeFlag` for each rewritten argument.

Lemmas about those functions give the properties: field offsets, rejection
conditions, stride arithmetic, the row layout on disk, and the header and
pixel round trips.

Modules, one per file:
- `LittleEndian` (`le.dfy`): Go's fixed-width integers, the uint32 wrap and
  truncating division, and little-endian field encoding and decoding.
- `Streams` (`streams.dfy`): the file reader and writer.
- `BmpTypes` (`types.dfy`): `types.go`, plus row-major index arithmetic.
- `RowSize` (`stride.dfy`): the two stride formulas.
- `BmpHeader` (`header.dfy`): `ReadHeader` and `buildHeader`.
- `Bmp` (`bmp.dfy`): `ReadBMP`, `ReadImage`, `WriteBMP`, `prepareHeader`,
  `writeHeader` and `writeImage`.
- `Transform` (`apply.dfy`): `normalizeFlags` and `flagSlice`.

The model follows the code where the code and its documented intent differ.
- A header is accepted once the 38 bytes up to the image-size field are
  present: the final 16-byte skip is a seek, which never fails.
- A pixel array whose last row is only partly present is accepted. The bytes
  missing from that row keep what the previous row left in the buffer
  (`Bmp.ShortTopRow`).
- The compression field is never checked.
- `buildHeader` computes the image size as stride plus height.
- `WriteBMP` writes the file type "BMP".

The last two are listed under Findings.

## Model

| member | source | states |
|---|---|---|
| LittleEndian.ToU32 | internal/bmp/bmp.go:86-87 | the `uint32(...)` conversion: the value itself when it fits in 32 bits, and in all cases congruent to it modulo 2^32 |
| LittleEndian.ToI32 | internal/bmp/header.go:127-128 | the `int32(...)` conversion: the value itself in the signed 32-bit range, and in all cases congruent to it modulo 2^32 |
| LittleEndian.Quot | internal/bmp/bmp.go:37 | Go's integer division truncates toward zero: the remainder has the sign of the dividend and is smaller than the divisor |
| LittleEndian.U16RoundTrip | internal/bmp/bmp.go:138-143 | a uint16 written little-endian is two bytes and reads back as the same value |
| LittleEndian.U32RoundTrip | internal/bmp/bmp.go:138-143 | a uint32 written little-endian is four bytes and reads back as the same value |
| LittleEndian.I32RoundTrip | internal/bmp/bmp.go:138-143 | an int32 written little-endian, two's complement, is four bytes and reads back as the same value |
| LittleEndian.U16BytesOfDecoded | internal/bmp/header.go:91-94 | re-encoding a decoded uint16 field gives back the two bytes it was read from |
| LittleEndian.U32BytesOfDecoded | internal/bmp/header.go:61-64 | re-encoding a decoded uint32 field gives back the four bytes it was read from |
| LittleEndian.I32BytesOfDecoded | internal/bmp/header.go:76-84 | re-encoding a decoded int32 field gives back the four bytes it was read from |
| Streams.ReadCount | internal/bmp/bmp.go:46 | a file read copies at most the buffer's length, never past the end of the file, and copies fewer bytes only when it reaches the end |
| Streams.Reader.Read | internal/bmp/bmp.go:46-49 | `file.Read` fails with EOF exactly when the buffer is non-empty and the cursor is at or past the end; otherwise it copies the next bytes, advances the cursor by their count and leaves the rest of the buffer as it was |
| Streams.Reader.Seek | internal/bmp/header.go:66-69 | a relative seek moves the cursor by the offset, even past the end of the file |
| Streams.Reader.ReadFull | internal/bmp/header.go:61-64 | `binary.Read` of a fixed-size field yields the next bytes and advances past them when enough remain, and fails otherwise |
| Streams.Reader.ReadU16 | internal/bmp/header.go:91-94 | reading a uint16 field yields the little-endian value at the cursor, or fails when fewer than two bytes remain |
| Streams.Reader.ReadU32 | internal/bmp/header.go:71-74 | reading a uint32 field yields the little-endian value at the cursor, or fails when fewer than four bytes remain |
| Streams.Reader.ReadI32 | internal/bmp/header.go:76-79 | reading an int32 field yields the little-endian value at the cursor, or fails when fewer than four bytes remain |
| Streams.Writer.Write | internal/bmp/bmp.go:122-125 | a write appends the bytes to the file |
| BmpTypes.DibHeaderBytes | internal/bmp/types.go:29-41 | the BITMAPINFOHEADER fields, at their Go widths, encode to exactly 40 bytes, the value of `bitmapInfoHeaderSize` |
| BmpTypes.RowMajorIndex | internal/bmp/types.go:19-23 | pixel (row y, column x) of a width x height grid is at index y * width + x, inside the grid, and that index gives back y and x |
| BmpTypes.RowOfIndex | internal/bmp/bmp.go:42 | every index of a `width * height` grid lies in a row below the height and a column below the width |
| BmpTypes.RowStartProduct | internal/bmp/bmp.go:52 | the offset of row y, with rows of `width` elements laid end to end, is y * width |
| RowSize.WriteRowSize | internal/bmp/bmp.go:111 | the write-side stride holds three bytes per pixel |
| RowSize.WriteRowSizeBounds | internal/bmp/bmp.go:85 | the write-side stride `((3w + 3) / 4) * 4` is a multiple of 4 between 3w and 3w + 3 |
| RowSize.StridesAgree | internal/bmp/bmp.go:37 | at 24 bits per pixel the read-side stride `((24w + 31) / 32) * 4` equals the write-side stride, for every width w >= 0 |
| RowSize.TwoPixelRow | internal/bmp/bmp.go:85 | a row of two pixels takes 8 bytes on both sides |
| BmpHeader.SignatureBytes | internal/bmp/header.go:51-56 | reading the two signature bytes keeps the first byte and, when the file has two, both; for a one-byte file the second byte stays the 0 that `make` put there |
| BmpHeader.ReadHeader | internal/bmp/header.go:41-115 | the cursor walk over the header yields exactly `DecodeHeader` of the file's bytes: the header, or the first failure it meets |
| BmpHeader.ReadFields | internal/bmp/header.go:61-112 | the field reads and seeks after a valid signature yield exactly `DecodeFields` of the file |
| BmpHeader.AcceptedHeader | internal/bmp/header.go:48-107 | the header is accepted if and only if the file starts with "BM", has the 38 bytes up to the image-size field and declares 24 bits per pixel. The result then has HeaderSize 14 and the little-endian fields at offsets 2, 14, 18, 22 and 34 |
| BmpHeader.SignatureRejected | internal/bmp/header.go:51-59 | a file whose first two bytes are not "BM", or that holds a single byte, is rejected as an invalid signature |
| BmpHeader.PixelDepthRejected | internal/bmp/header.go:91-97 | a "BM" file whose bits-per-pixel field is not 24 is rejected as an unsupported depth |
| BmpHeader.ShortInputRejected | internal/bmp/header.go:51-107 | every input shorter than 38 bytes is rejected |
| BmpHeader.SkippedBytesIgnored | internal/bmp/header.go:66-112 | two inputs of the same length that agree outside the skipped bytes 6..13, 26..27, 30..33 and from 38 on decode alike |
| BmpHeader.TrailingBytesIgnored | internal/bmp/header.go:109-114 | nothing after byte 38 affects the decoded header |
| BmpHeader.BuildHeader | internal/bmp/header.go:117-133 | `buildHeader` sets "BM", HeaderSize 14, DibHeaderSize 40 and 24 bits per pixel, keeps the width and height that fit in 32 bits, declares ImageSize = stride + height when that fits in 32 bits, and sets FileSize = ImageSize + 54 when no wrap occurs |
| BmpHeader.BuildHeaderUndersizes | internal/bmp/header.go:121 | for a 2 x 2 image `buildHeader` declares ImageSize 10 and FileSize 64, not the 16 bytes its rows take |
| BmpHeader.BuildHeaderUndersizesAll | internal/bmp/header.go:120-121 | for every image at least one pixel wide and two rows high whose rows fit in 32 bits, the declared ImageSize is smaller than stride * height |
| Bmp.Prepared | internal/bmp/bmp.go:77-88 | the derived header keeps width and height and sets the file type it is given, HeaderSize 14, DibHeaderSize 40 and 24 bits per pixel |
| Bmp.PreparedSizes | internal/bmp/bmp.go:85-87 | when the file fits in 32 bits, ImageSize is stride * height and FileSize is 14 + 40 + ImageSize |
| Bmp.PrepareHeader | internal/bmp/bmp.go:77-88 | `prepareHeader` replaces the header with the derived one, with the file type "BMP" |
| Bmp.PreparedTwoByTwo | internal/bmp/bmp.go:85-87 | a 2 x 2 image gets ImageSize 16 and FileSize 70 |
| Bmp.HeaderBytes | internal/bmp/bmp.go:90-106 | the written header is the file type followed by 52 bytes, so 54 bytes for a two-byte signature |
| Bmp.WriteHeader | internal/bmp/bmp.go:90-106 | `writeHeader` appends exactly the header bytes to the file |
| Bmp.HeaderSizeFields | internal/bmp/bmp.go:91-101 | with a two-byte signature, the signature is at 0 and FileSize, DibHeaderSize and ImageSize are the little-endian values at 2, 14 and 34 |
| Bmp.HeaderGeometryFields | internal/bmp/bmp.go:96-99 | with a two-byte signature, width and height are at 18 and 22 and the pixel size at 28 |
| Bmp.HeaderDerivedFields | internal/bmp/bmp.go:94-98 | the data-offset field at 10 is the 32-bit sum HeaderSize + DibHeaderSize and the planes field at 26 is 1 |
| Bmp.HeaderZeroFields | internal/bmp/bmp.go:93-105 | the reserved field, the compression field and the last 16 bytes of the header are zero |
| Bmp.HeaderRoundTrip | internal/bmp/header.go:41-115 | reading back a written header with signature "BM" and 24 bits per pixel recovers every field, HeaderSize becoming 14 |
| Bmp.PreparedFileTypeRejected | internal/bmp/bmp.go:78 | a header written with the file type "BMP" is 55 bytes long, its pixel-size field reads as 6144, and the reader rejects it |
| Bmp.RowBytes | internal/bmp/bmp.go:112-121 | one disk row is exactly one stride long |
| Bmp.DiskRowsLength | internal/bmp/bmp.go:114-126 | n disk rows take n strides |
| Bmp.DiskRowLayout | internal/bmp/bmp.go:114-121 | disk row d holds memory row height - 1 - d: byte 3x + c is channel c (blue, green, red) of pixel x, and the bytes from 3 * width to the stride are zero |
| Bmp.ImageBytesLength | internal/bmp/bmp.go:128-135 | `writeImage` emits stride * height bytes of rows, then zeros as many as the declared ImageSize exceeds the 32-bit count written |
| Bmp.FillRow | internal/bmp/bmp.go:115-121 | the inner write loop leaves the row buffer holding the B, G, R triples of memory row y, followed by the zero padding |
| Bmp.WriteRows | internal/bmp/bmp.go:114-126 | the row loop appends all disk rows, bottom row first |
| Bmp.WriteImage | internal/bmp/bmp.go:108-136 | `writeImage` appends exactly the image bytes: the padded rows bottom-up, then the zero padding up to the declared ImageSize |
| Bmp.ReadStrideCovers | internal/bmp/bmp.go:37-43 | when the grid allocation succeeds with a positive height, the width is non-negative and the read stride holds three bytes per pixel |
| Bmp.StoreRow | internal/bmp/bmp.go:50-58 | the inner read loop sets pixel x of memory row y from bytes 3x, 3x + 1, 3x + 2 of the buffer, and no other pixel |
| Bmp.RowRead | internal/bmp/bmp.go:46 | a row read that starts before the end of the file advances the cursor one row and leaves the buffer as the decode function predicts |
| Bmp.RowDecoded | internal/bmp/bmp.go:50-57 | after disk row height - 1 - y is read, storing the buffer gives memory row y its decoded pixels |
| Bmp.ReadRow | internal/bmp/bmp.go:46-49 | a row read fails exactly when the row starts at or past the end of the file; otherwise the cursor and buffer move on by one row |
| Bmp.ReadRows | internal/bmp/bmp.go:45-59 | the row loop fails exactly when the last disk row starts at or past the end of the file; otherwise every pixel holds its decoded value |
| Bmp.ImageDecoded | internal/bmp/bmp.go:39-43 | a grid holding the decoded pixel at every index, read from a file whose last row starts inside it, is the decoded image |
| Bmp.ReadImage | internal/bmp/bmp.go:28-62 | `ReadImage` yields exactly `DecodeImage`: a negative buffer length fails, a missing last row fails, and otherwise the top-down grid is read from offset HeaderSize + DibHeaderSize |
| Bmp.DiskRowsAt | internal/bmp/bmp.go:114-126 | byte i of disk row d of the written rows is byte i of memory row height - 1 - d |
| Bmp.ChannelRoundTrip | internal/bmp/bmp.go:50-58 | every channel of every pixel the reader takes from written rows is the channel the writer put there |
| Bmp.PixelRoundTrip | internal/bmp/bmp.go:45-59 | the pixel decoded at index k of a written pixel array is the original pixel k |
| Bmp.PixelsRoundTrip | internal/bmp/bmp.go:45-59 | every pixel decoded from a written pixel array is the original one |
| Bmp.ImageRoundTrip | internal/bmp/bmp.go:28-62 | reading a written pixel array, with the header placing it right after the header bytes, gives back the original image |
| Bmp.ImageAccepted | internal/bmp/bmp.go:45-49 | for a 24-bit header with non-negative dimensions, the pixel read succeeds if and only if every disk row starts inside the file |
| Bmp.ShortTopRow | internal/bmp/bmp.go:46-57 | when the last disk row is cut short, a channel missing from it keeps the value of the row below: the top row repeats the second row there |
| Bmp.ReadBMP | internal/bmp/bmp.go:10-26 | `ReadBMP` yields the decoded header and the image read with it, or the first failure |
| Bmp.WriteBMP | internal/bmp/bmp.go:64-75 | `WriteBMP` updates the header as `prepareHeader` does, with "BMP", and writes the header bytes followed by the image bytes |
| Bmp.NoTrailingPadding | internal/bmp/bmp.go:128-129 | after `prepareHeader` the declared ImageSize never exceeds what the rows take, so no padding is written |
| Bmp.RoundTrip | internal/bmp/bmp.go:10-26 | a well-formed image written with the signature "BM" reads back as the prepared header and the same image |
| Bmp.WrittenFileRejected | internal/bmp/bmp.go:78 | every file `WriteBMP` produces is rejected by `ReadBMP` as having an unsupported pixel depth |
| Transform.IndexFrom | internal/transform/apply.go:72 | the first occurrence of a pattern at or after a position, and no occurrence before it; none means none at all |
| Transform.ReplaceFirst | internal/transform/apply.go:72 | `strings.Replace(s, pat, repl, 1)`: without an occurrence `s` is returned unchanged; otherwise the text before the first occurrence is kept, `repl` takes the occurrence's place, the rest follows, and the length changes by the difference of the two lengths |
| Transform.ReplaceLeading | internal/transform/apply.go:72 | replacing the first "---" in an argument that starts with it replaces that prefix |
| Transform.NormalizeFlag | internal/transform/apply.go:71-75 | an argument starting with "---" becomes "--" followed by its characters from index 3 on, one character shorter and starting with "--"; any other argument is unchanged |
| Transform.OneDashRemoved | internal/transform/apply.go:71-72 | only one dash is removed: "----x" becomes "---x", and a second pass gives "--x" |
| Transform.NormalizeFlags | internal/transform/apply.go:68-78 | the result has one element per argument, in order, each normalized; unprefixed arguments are kept, prefixed ones start with "--" and are one shorter |
| Transform.FlagSlice.constructor | internal/transform/apply.go:14 | a new flag slice holds no values |
| Transform.FlagSlice.String | internal/transform/apply.go:16 | `String` always returns the empty string |
| Transform.FlagSlice.Set | internal/transform/apply.go:17-20 | `Set` appends the value after all earlier values, leaves those unchanged and never returns an error |

## Left out

- Opening, creating and closing files, and their errors, are not modelled. Files are byte sequences, and the two opens of one path in `ReadBMP` see the same bytes.
- Write failures are not modelled: the writer never fails.
- `log.Fatalf` is modelled as an `Err` result; message texts are not modelled.
- The reflection-based `writeLE`/`binary.Write` is replaced by explicit little-endian encoders of the three field types.
- `NewHeader` is not part of this model. `ReadHeader` sets every field the model keeps.
- Console output is not modelled: `printHeader`, `HandleHeaderCommand`, `HandleApplyCommand`, `main.go` and the usage helpers.
- `Bmp.ReadImage`: requires 24 bits per pixel. `ReadBMP`, its only caller, passes only headers the reader accepted, and those say 24. With other depths the source's buffer indexing can go out of range, which is not modelled.
- `Bmp.WriteImage`: requires a non-negative width and height and at least width * height pixels. The source panics on too few pixels. With width -1 or -2 it writes empty rows. A width of -3 or less gives a negative stride, and `make` panics on it. With a negative height it writes no rows. None of these cases is modelled.
- `Bmp.WriteBMP`: has the same requirement as `Bmp.WriteImage`, for the same reason.
- `Bmp.PrepareHeader`: the in-place update through the header pointer is modelled as a returned header. `Bmp.WriteBMP` returns the updated file record.
- `Streams.Reader.Read`: models regular-file reads only. A read copies as much as is left, and fails only at the end of the file; interrupted or short reads before the end are not modelled.
- Go strings are byte sequences, while the model's `string` is a sequence of characters. For the ASCII "---" rewrite the two views give the same results and lengths; multi-byte characters are not modelled.
- The image-size and file-size header fields are never compared with the file's length, because the source does not compare them.

## Findings

| source | as written | input that shows it | evidently intended | confidence | as-written member | corrected member |
|---|---|---|---|---|---|---|
| internal/bmp/bmp.go:78 | `prepareHeader` stores the file type "BMP", and `writeHeader` writes all three bytes, so every header field after it is one byte late | any image, for example 2 x 2: the written header is 55 bytes, the pixel-size field reads as 6144 and `ReadBMP` rejects the file | the two-byte signature "BM", which `buildHeader` and the reader use | high (not executed) | Bmp.WrittenFileRejected | Bmp.RoundTrip |
| internal/bmp/header.go:121 | `buildHeader` declares ImageSize = stride + height | a 2 x 2 image: ImageSize 10 and FileSize 64, though its rows take 16 bytes; every image at least 1 wide and 2 high is undersized | ImageSize = stride * height, as `prepareHeader` computes it | high (not executed) | BmpHeader.BuildHeaderUndersizesAll | Bmp.PreparedSizes |
