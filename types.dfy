/** The data model of the `bmp` package: the decoded header, the pixel grid,
    the two fixed header sizes and the 40-byte BITMAPINFOHEADER record. */
module BmpTypes {
  import opened LittleEndian

  /** Size of the BITMAPFILEHEADER (signature, file size, reserved, data offset). */
  const FileHeaderSize: u32 := 14
  /** Size of the BITMAPINFOHEADER that follows it. */
  const InfoHeaderSize: u32 := 40

  /** "BM", the signature every BMP file starts with. */
  const Signature: seq<byte> := [0x42, 0x4D]

  /** One pixel: three 8-bit channels in the order the file stores them. No alpha. */
  datatype Pixel = Pixel(b: byte, g: byte, r: byte)

  /** Channel c of a pixel in file order: 0 is blue, 1 green, 2 red. */
  function Channel(p: Pixel, c: nat): byte
    requires c < 3
  {
    if c == 0 then p.b else if c == 1 then p.g else p.r
  }

  /** The header fields the package keeps. `fileType` is a Go string, kept as its bytes. */
  datatype Header = Header(
    fileType: seq<byte>,
    fileSize: u32,
    headerSize: u32,
    dibHeaderSize: u32,
    width: i32,
    height: i32,
    pixelSize: u16,
    imageSize: u32)

  /** A pixel grid, row-major and top-down: pixel (row, col) is `pixels[row * width + col]`. */
  datatype Image = Image(width: int, height: int, pixels: seq<Pixel>)

  /** A decoded file: its header and its pixels. */
  datatype Bmp = Bmp(header: Header, image: Image)

  /** An image whose pixel sequence has exactly one entry per (row, col). */
  predicate WellFormed(img: Image)
  {
    img.width >= 0 && img.height >= 0 && |img.pixels| == img.width * img.height
  }

  /** The BITMAPINFOHEADER record, field by field with its Go widths. */
  datatype DibHeader = DibHeader(
    headerSize: u32,
    width: i32,
    height: i32,
    planes: u16,
    bitsPerPixel: u16,
    compression: u32,
    imageSize: u32,
    xPixelsPerMeter: i32,
    yPixelsPerMeter: i32,
    colorsUsed: u32,
    importantColors: u32)

  /** The record's little-endian encoding, fields in declaration order: its
      widths add up to exactly `InfoHeaderSize` bytes. */
  function DibHeaderBytes(d: DibHeader): (r: seq<byte>)
    ensures |r| == InfoHeaderSize as int
  {
    U32Bytes(d.headerSize) + I32Bytes(d.width) + I32Bytes(d.height)
    + U16Bytes(d.planes) + U16Bytes(d.bitsPerPixel) + U32Bytes(d.compression)
    + U32Bytes(d.imageSize) + I32Bytes(d.xPixelsPerMeter) + I32Bytes(d.yPixelsPerMeter)
    + U32Bytes(d.colorsUsed) + U32Bytes(d.importantColors)
  }

  /** The reasons a decode fails; each replaces one `log.Fatalf` exit of the source. */
  datatype Error =
    | TruncatedHeader        // a header field read found too few bytes
    | InvalidSignature       // the first two bytes are not "BM"
    | UnsupportedPixelDepth  // bits per pixel is not 24
    | TruncatedPixelData     // a pixel row read found no bytes at all
    | NegativeLength         // a negative buffer length, on which `make` panics

  datatype Result<T> = Ok(value: T) | Err(error: Error)

  /** Multiplying by a non-negative factor keeps the order. */
  lemma MulLe(a: int, b: int, c: int)
    requires a <= b && c >= 0
    ensures a * c <= b * c
  {
    assert b * c - a * c == (b - a) * c;
  }

  /** Division by a positive divisor is determined by any quotient and in-range remainder. */
  lemma DivModUnique(k: int, w: int, q: int, m: int)
    requires w > 0 && 0 <= m < w && k == q * w + m
    ensures k / w == q && k % w == m
  {
    var q', m' := k / w, k % w;
    assert k == q' * w + m';
    if q' > q {
      assert (q + 1) * w == q * w + w;
      MulLe(q + 1, q', w);
    } else if q' < q {
      assert (q' + 1) * w == q' * w + w;
      MulLe(q' + 1, q, w);
    }
  }

  /** Row-major indexing: (row y, col x) sits at `y * width + x`, inside the grid,
      and the index gives the row and column back. */
  lemma RowMajorIndex(y: int, x: int, width: int, height: int)
    requires 0 <= y < height && 0 <= x < width
    ensures 0 <= y * width + x < width * height
    ensures (y * width + x) / width == y && (y * width + x) % width == x
  {
    MulLe(0, y, width);
    MulLe(y + 1, height, width);
    assert (y + 1) * width == y * width + width;
    assert height * width == width * height;
    DivModUnique(y * width + x, width, y, x);
  }

  /** Every index of a `width * height` grid lies in one of its rows. */
  lemma RowOfIndex(k: int, width: int, height: int)
    requires 0 <= k < width * height && width >= 0
    ensures width > 0 && 0 <= k / width < height && 0 <= k % width < width
  {
    if width > 0 {
      var q := k / width;
      assert k == q * width + k % width;
      if q >= height {
        assert height * width == width * height;
        MulLe(height, q, width);
      }
      if q < 0 {
        MulLe(q, -1, width);
      }
    }
  }

  /** Where row y begins when rows of `width` elements are laid end to end:
      the index of its first pixel in a grid, or the offset of a stride-wide
      row in the pixel array. It equals y * width (`RowStartProduct`); the
      recursive form keeps row-by-row reasoning free of products. */
  function RowStart(y: nat, width: nat): nat
  {
    if y == 0 then 0 else RowStart(y - 1, width) + width
  }

  lemma {:induction false} RowStartProduct(y: nat, width: nat)
    ensures RowStart(y, width) == y * width
  {
    if y > 0 {
      RowStartProduct(y - 1, width);
      assert y * width == (y - 1) * width + width;
    }
  }

  /** Later rows begin no earlier. */
  lemma {:induction false} RowStartMonotone(a: nat, b: nat, width: nat)
    requires a <= b
    ensures RowStart(a, width) <= RowStart(b, width)
  {
    if a < b {
      RowStartMonotone(a, b - 1, width);
    }
  }

  /** Row y of a grid `height` rows high ends where a later row begins. */
  lemma {:induction false} RowWithin(y: nat, height: nat, width: nat)
    requires y < height
    ensures RowStart(y, width) + width <= RowStart(height, width)
  {
    RowStartMonotone(y + 1, height, width);
  }
}
