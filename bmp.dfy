/** Reading and writing whole 24-bit BMP files: the header derivation and
    encoding on the write side, and the row-padded, bottom-up pixel array in
    both directions. */
module Bmp {
  import opened LittleEndian
  import opened Streams
  import opened BmpTypes
  import opened RowSize
  import opened BmpHeader

  /** "BMP": the file type `prepareHeader` stores. It is one byte longer than the
      format's "BM" signature, and the header writer emits all of it. */
  const PreparedFileType: seq<byte> := [0x42, 0x4D, 0x50]

  // ---------------------------------------------------------------- header derivation

  /** The header `prepareHeader` derives from `h`, with the file type it stores
      taken as a parameter. Width and height are kept; the sizes are recomputed
      as 32-bit values, which are exact as long as the file stays under 4 GiB. */
  function Prepared(h: Header, fileType: seq<byte>): (r: Header)
    ensures r.fileType == fileType && r.width == h.width && r.height == h.height
    ensures r.headerSize == FileHeaderSize && r.dibHeaderSize == InfoHeaderSize && r.pixelSize == 24
  {
    var rowSize := WriteRowSize(h.width as int);
    var imageSize := ToU32(rowSize * h.height as int);
    h.(fileType := fileType, headerSize := FileHeaderSize, dibHeaderSize := InfoHeaderSize,
       pixelSize := 24, imageSize := imageSize,
       fileSize := ToU32(FileHeaderSize as int + InfoHeaderSize as int + imageSize))
  }

  /** For non-negative dimensions whose file stays under 4 GiB, the derived sizes
      are exact: ImageSize is stride times height, FileSize adds the 54 header bytes. */
  lemma PreparedSizes(h: Header, fileType: seq<byte>)
    requires h.width >= 0 && h.height >= 0
    requires WriteRowSize(h.width as int) * h.height + 54 < TwoTo32
    ensures var r := Prepared(h, fileType);
      r.imageSize as int == WriteRowSize(h.width as int) * h.height
      && r.fileSize as int == (FileHeaderSize + InfoHeaderSize) as int + r.imageSize as int
  {
    MulLe(0, h.height as int, WriteRowSize(h.width as int));
  }

  /** `prepareHeader`: updates the header one field at a time, storing "BMP" as the file type. */
  method PrepareHeader(h: Header) returns (r: Header)
    ensures r == Prepared(h, PreparedFileType)
  {
    r := h.(fileType := PreparedFileType);
    r := r.(headerSize := FileHeaderSize);
    r := r.(dibHeaderSize := InfoHeaderSize);
    r := r.(pixelSize := 24);
    var width := r.width as int;
    var height := r.height as int;
    var rowSize := WriteRowSize(width);
    r := r.(imageSize := ToU32(rowSize * height));
    r := r.(fileSize := ToU32(r.headerSize as int + r.dibHeaderSize as int + r.imageSize as int));
  }

  /** A 2 x 2 image gets an 8-byte stride, a 16-byte pixel array and a 70-byte file. */
  lemma PreparedTwoByTwo(h: Header)
    requires h.width == 2 && h.height == 2
    ensures Prepared(h, Signature).imageSize == 16 && Prepared(h, Signature).fileSize == 70
  {
    assert WriteRowSize(2) == 8;
  }

  // ---------------------------------------------------------------- header encoding

  lemma AppendAssoc(a: seq<byte>, b: seq<byte>, c: seq<byte>)
    ensures a + b + c == a + (b + c)
  {
  }

  /** The bytes `writeHeader` emits: the whole file type, then each field in
      little-endian order, with the data offset written as HeaderSize + DibHeaderSize
      (a 32-bit sum), one plane, and zero compression, resolution and palette fields. */
  function HeaderBytes(h: Header): (r: seq<byte>)
    ensures |r| == |h.fileType| + 52
  {
    h.fileType + U32Bytes(h.fileSize) + U32Bytes(0)
    + U32Bytes(ToU32(h.headerSize as int + h.dibHeaderSize as int))
    + U32Bytes(h.dibHeaderSize) + I32Bytes(h.width) + I32Bytes(h.height)
    + U16Bytes(1) + U16Bytes(h.pixelSize) + U32Bytes(0) + U32Bytes(h.imageSize)
    + U32Bytes(0) + U32Bytes(0) + U32Bytes(0) + U32Bytes(0)
  }

  lemma HeaderBytesAppended(s: seq<byte>, h: Header)
    ensures s + HeaderBytes(h) ==
      s + h.fileType + U32Bytes(h.fileSize) + U32Bytes(0)
      + U32Bytes(ToU32(h.headerSize as int + h.dibHeaderSize as int))
      + U32Bytes(h.dibHeaderSize) + I32Bytes(h.width) + I32Bytes(h.height)
      + U16Bytes(1) + U16Bytes(h.pixelSize) + U32Bytes(0) + U32Bytes(h.imageSize)
      + U32Bytes(0) + U32Bytes(0) + U32Bytes(0) + U32Bytes(0)
  {
  }

  /** `writeHeader`: appends the fields to the file one at a time. */
  method WriteHeader(file: Writer, h: Header)
    modifies file
    ensures file.written == old(file.written) + HeaderBytes(h)
  {
    ghost var start := file.written;
    file.Write(h.fileType);
    file.Write(U32Bytes(h.fileSize));
    file.Write(U32Bytes(0));
    file.Write(U32Bytes(ToU32(h.headerSize as int + h.dibHeaderSize as int)));
    file.Write(U32Bytes(h.dibHeaderSize));
    file.Write(I32Bytes(h.width));
    file.Write(I32Bytes(h.height));
    file.Write(U16Bytes(1));
    file.Write(U16Bytes(h.pixelSize));
    file.Write(U32Bytes(0));
    file.Write(U32Bytes(h.imageSize));
    file.Write(U32Bytes(0));
    file.Write(U32Bytes(0));
    file.Write(U32Bytes(0));
    file.Write(U32Bytes(0));
    HeaderBytesAppended(start, h);
  }

  /** The signature and the size fields of a header written with a 2-byte file
      type sit where the reader looks for them. */
  lemma {:induction false} HeaderSizeFields(h: Header)
    requires |h.fileType| == 2
    ensures var r := HeaderBytes(h);
      r[..2] == h.fileType && U32At(r, 2) == h.fileSize
      && U32At(r, 14) == h.dibHeaderSize && U32At(r, 34) == h.imageSize
  {
    var r := HeaderBytes(h);
    assert r[..2] == h.fileType;
    assert U32At(r, 2) == h.fileSize by { U32Field(r, 2, h.fileSize); }
    assert U32At(r, 14) == h.dibHeaderSize by { U32Field(r, 14, h.dibHeaderSize); }
    assert U32At(r, 34) == h.imageSize by { U32Field(r, 34, h.imageSize); }
  }

  /** The geometry fields of a header written with a 2-byte file type sit where
      the reader looks for them. */
  lemma {:induction false} HeaderGeometryFields(h: Header)
    requires |h.fileType| == 2
    ensures var r := HeaderBytes(h);
      I32At(r, 18) == h.width && I32At(r, 22) == h.height && U16At(r, 28) == h.pixelSize
  {
    var r := HeaderBytes(h);
    assert I32At(r, 18) == h.width by { I32Field(r, 18, h.width); }
    assert I32At(r, 22) == h.height by { I32Field(r, 22, h.height); }
    assert U16At(r, 28) == h.pixelSize by { U16Field(r, 28, h.pixelSize); }
  }

  /** The two fields the writer derives: the data offset is HeaderSize +
      DibHeaderSize (as a 32-bit sum), and there is one colour plane. */
  lemma {:induction false} HeaderDerivedFields(h: Header)
    requires |h.fileType| == 2
    ensures var r := HeaderBytes(h);
      U32At(r, 10) == ToU32(h.headerSize as int + h.dibHeaderSize as int) && U16At(r, 26) == 1
  {
    var r := HeaderBytes(h);
    var offset := ToU32(h.headerSize as int + h.dibHeaderSize as int);
    assert U32At(r, 10) == offset by { U32Field(r, 10, offset); }
    assert U16At(r, 26) == 1 by { U16Field(r, 26, 1); }
  }

  /** The reserved word (bytes 6..9), compression (30..33) and the last 16 bytes
      (resolutions and palette counts) are written as zeros. */
  lemma {:induction false} HeaderZeroFields(h: Header)
    requires |h.fileType| == 2
    ensures var r := HeaderBytes(h);
      (forall i :: 6 <= i < 10 ==> r[i] == 0)
      && (forall i :: 30 <= i < 34 ==> r[i] == 0)
      && (forall i :: 38 <= i < 54 ==> r[i] == 0)
  {
    assert U32Bytes(0) == [0, 0, 0, 0];
  }

  /** Header round trip: reading back a header written with the "BM" signature
      and 24 bits per pixel recovers every field the reader keeps, whatever follows it. */
  lemma {:induction false} HeaderRoundTrip(h: Header, rest: seq<byte>)
    requires h.fileType == Signature && h.pixelSize == 24
    ensures DecodeHeader(HeaderBytes(h) + rest) == Ok(h.(headerSize := FileHeaderSize))
  {
    var r := HeaderBytes(h);
    var data := r + rest;
    HeaderSizeFields(h);
    HeaderGeometryFields(h);
    assert data[..2] == r[..2];
    FieldsOfPrefix(r, rest, 2);
    FieldsOfPrefix(r, rest, 14);
    FieldsOfPrefix(r, rest, 18);
    FieldsOfPrefix(r, rest, 22);
    FieldsOfPrefix(r, rest, 28);
    FieldsOfPrefix(r, rest, 34);
  }

  /** The signature slip in `prepareHeader`: a header written with "BMP" is 55
      bytes, every later field moves one byte right, and the reader then finds
      the 24 of the pixel-size field in the high byte of bits per pixel (6144),
      so it rejects the file. */
  lemma {:induction false} PreparedFileTypeRejected(h: Header, rest: seq<byte>)
    requires h.fileType == PreparedFileType && h.pixelSize == 24
    ensures |HeaderBytes(h)| == 55
    ensures U16At(HeaderBytes(h), 28) == 6144
    ensures DecodeHeader(HeaderBytes(h) + rest) == Err(UnsupportedPixelDepth)
  {
    var r := HeaderBytes(h);
    assert r[28] == U16Bytes(1)[1] && r[29] == U16Bytes(h.pixelSize)[0];
    FieldsOfPrefix(r, rest, 28);
    assert (r + rest)[..2] == Signature;
  }

  // ---------------------------------------------------------------- pixel array encoding

  /** The memory row whose first pixel is at index `first`, as the writer puts
      it on disk: B, G, R for each pixel, then zeros up to the stride (the
      reused row buffer is zero-initialised and its tail is never written). */
  function RowBytes(pixels: seq<Pixel>, width: nat, rowSize: nat, first: nat): (r: seq<byte>)
    requires 3 * width <= rowSize && first + width <= |pixels|
    ensures |r| == rowSize
  {
    seq(rowSize, i requires 0 <= i < rowSize =>
      if i < 3 * width then Channel(pixels[first + i / 3], i % 3) else 0)
  }

  /** The first n disk rows: disk row d holds memory row height - 1 - d, so the
      bottom of the picture comes first. */
  function DiskRows(pixels: seq<Pixel>, width: nat, height: nat, rowSize: nat, n: nat): (r: seq<byte>)
    requires n <= height && 3 * width <= rowSize && RowStart(height, width) <= |pixels|
  {
    if n == 0 then []
    else
      RowWithin(height - n, height, width);
      DiskRows(pixels, width, height, rowSize, n - 1) + RowBytes(pixels, width, rowSize, RowStart(height - n, width))
  }

  /** n disk rows take n strides. */
  lemma {:induction false} DiskRowsLength(pixels: seq<Pixel>, width: nat, height: nat, rowSize: nat, n: nat)
    requires n <= height && 3 * width <= rowSize && RowStart(height, width) <= |pixels|
    ensures |DiskRows(pixels, width, height, rowSize, n)| == RowStart(n, rowSize)
  {
    if n > 0 {
      DiskRowsLength(pixels, width, height, rowSize, n - 1);
    }
  }

  /** Disk row d, at offset d * rowSize, carries memory row height - 1 - d: byte
      3x + c is channel c (blue, green, red) of pixel x of that row, and the
      bytes from 3 * width up to the stride are zero. */
  lemma {:induction false} DiskRowLayout(pixels: seq<Pixel>, width: nat, height: nat, rowSize: nat, d: nat, i: nat)
    requires 3 * width <= rowSize && RowStart(height, width) <= |pixels| && d < height && i < rowSize
    ensures RowStart(d, rowSize) + i < |DiskRows(pixels, width, height, rowSize, height)|
    ensures RowStart(height - 1 - d, width) + width <= |pixels|
    ensures i < 3 * width ==>
      DiskRows(pixels, width, height, rowSize, height)[RowStart(d, rowSize) + i]
        == Channel(pixels[RowStart(height - 1 - d, width) + i / 3], i % 3)
    ensures 3 * width <= i ==> DiskRows(pixels, width, height, rowSize, height)[RowStart(d, rowSize) + i] == 0
  {
    RowWithin(height - 1 - d, height, width);
    DiskRowsAt(pixels, width, height, rowSize, height, d, i);
  }

  /** All the disk rows of a width x height grid: the pixel array of the file. */
  function PixelArray(pixels: seq<Pixel>, width: nat, height: nat, rowSize: nat): seq<byte>
    requires 3 * width <= rowSize && width * height <= |pixels|
  {
    RowStartProduct(height, width);
    DiskRows(pixels, width, height, rowSize, height)
  }

  /** Everything `writeImage` emits for a width x height grid: the padded rows,
      bottom-up, then zeros up to a declared ImageSize larger than the 32-bit
      count of bytes written. */
  function ImageBytes(pixels: seq<Pixel>, width: nat, height: nat, imageSize: u32): seq<byte>
    requires width * height <= |pixels|
  {
    var rowSize := WriteRowSize(width);
    var writtenSize := ToU32(rowSize * height);
    PixelArray(pixels, width, height, rowSize)
    + if imageSize > writtenSize then Zeros(imageSize - writtenSize) else []
  }

  /** `writeImage` emits rowSize * height bytes of rows, then as many zeros as
      the declared ImageSize exceeds the 32-bit count of those bytes. */
  lemma {:induction false} ImageBytesLength(pixels: seq<Pixel>, width: nat, height: nat, imageSize: u32)
    requires width * height <= |pixels|
    ensures var rowSize := WriteRowSize(width);
      var writtenSize := ToU32(rowSize * height);
      |ImageBytes(pixels, width, height, imageSize)|
        == rowSize * height + (if imageSize > writtenSize then (imageSize - writtenSize) as int else 0)
    ensures forall i :: WriteRowSize(width) * height <= i < |ImageBytes(pixels, width, height, imageSize)| ==>
        ImageBytes(pixels, width, height, imageSize)[i] == 0
  {
    var rowSize := WriteRowSize(width);
    RowStartProduct(height, width);
    RowStartProduct(height, rowSize);
    DiskRowsLength(pixels, width, height, rowSize, height);
  }

  /** The inner loop of `writeImage`: copies memory row y into the row buffer
      as blue, green, red triples; the padding bytes after them stay zero. */
  method FillRow(pixelData: array<byte>, pixels: seq<Pixel>, width: nat, y: nat)
    requires pixelData.Length >= 3 * width && RowStart(y, width) + width <= |pixels|
    requires forall i :: 3 * width <= i < pixelData.Length ==> pixelData[i] == 0
    modifies pixelData
    ensures pixelData[..] == RowBytes(pixels, width, pixelData.Length, RowStart(y, width))
    ensures forall i :: 3 * width <= i < pixelData.Length ==> pixelData[i] == 0
  {
    RowStartProduct(y, width);
    ghost var row := RowBytes(pixels, width, pixelData.Length, RowStart(y, width));
    var x := 0;
    while x < width
      invariant 0 <= x <= width
      invariant forall i :: 3 * width <= i < pixelData.Length ==> pixelData[i] == 0
      invariant forall i :: 0 <= i < 3 * x ==> pixelData[i] == row[i]
    {
      var idx := x * 3;
      var pixelIdx := y * width + x;
      pixelData[idx] := pixels[pixelIdx].b;
      pixelData[idx + 1] := pixels[pixelIdx].g;
      pixelData[idx + 2] := pixels[pixelIdx].r;
      x := x + 1;
    }
    assert pixelData[..] == row;
  }

  /** Appending memory row y to the disk rows below it gives one more disk row. */
  lemma {:induction false} RowAppended(written: seq<byte>, pixels: seq<Pixel>, width: nat, height: nat, rowSize: nat, y: nat)
    requires y < height && 3 * width <= rowSize && RowStart(height, width) <= |pixels|
    requires RowStart(y, width) + width <= |pixels|
    ensures written + DiskRows(pixels, width, height, rowSize, height - 1 - y) + RowBytes(pixels, width, rowSize, RowStart(y, width))
         == written + DiskRows(pixels, width, height, rowSize, height - y)
  {
    var row := RowBytes(pixels, width, rowSize, RowStart(y, width));
    assert DiskRows(pixels, width, height, rowSize, height - y) == DiskRows(pixels, width, height, rowSize, height - 1 - y) + row;
    AppendAssoc(written, DiskRows(pixels, width, height, rowSize, height - 1 - y), row);
  }

  /** The row loop of `writeImage`: fills the reused row buffer with each memory
      row, from the bottom row up, and writes it. */
  method WriteRows(file: Writer, pixelData: array<byte>, pixels: seq<Pixel>, width: nat, height: nat)
    requires pixelData.Length == WriteRowSize(width) && RowStart(height, width) <= |pixels|
    requires forall i :: 3 * width <= i < pixelData.Length ==> pixelData[i] == 0
    modifies file, pixelData
    ensures file.written == old(file.written) + DiskRows(pixels, width, height, pixelData.Length, height)
  {
    var y := height - 1;
    while y >= 0
      invariant -1 <= y < height
      invariant file.written == old(file.written) + DiskRows(pixels, width, height, pixelData.Length, height - 1 - y)
      invariant forall i :: 3 * width <= i < pixelData.Length ==> pixelData[i] == 0
    {
      RowWithin(y, height, width);
      FillRow(pixelData, pixels, width, y);
      file.Write(pixelData[..]);
      RowAppended(old(file.written), pixels, width, height, pixelData.Length, y);
      y := y - 1;
    }
  }

  /** `writeImage`: fills one reused row buffer per memory row, from the bottom
      row up, writes it, and finally pads to the declared ImageSize. */
  method WriteImage(file: Writer, image: Image, header: Header)
    requires header.width >= 0 && header.height >= 0
    requires header.width * header.height <= |image.pixels|
    modifies file
    ensures file.written == old(file.written) + ImageBytes(image.pixels, header.width as nat, header.height as nat, header.imageSize)
  {
    var width := header.width as int;
    var height := header.height as int;
    var rowSize := WriteRowSize(width);
    var pixelData := new byte[rowSize](_ => 0);

    RowStartProduct(height, width);
    WriteRows(file, pixelData, image.pixels, width, height);
    assert file.written == old(file.written) + DiskRows(image.pixels, width, height, rowSize, height);
    var writtenSize := ToU32(rowSize * height);
    if header.imageSize > writtenSize {
      var padding := new byte[header.imageSize - writtenSize](_ => 0);
      assert padding[..] == Zeros(header.imageSize - writtenSize);
      file.Write(padding[..]);
    }
  }

  // ---------------------------------------------------------------- pixel array decoding

  /** Byte i of the row buffer once `ReadImage` has read disk row d of the pixel
      array that starts at offset `start`: the file's byte when the row reached
      it; past the end of the file the buffer still holds what the previous,
      complete row left there, or its initial zero for the first row. */
  function StoredByte(data: seq<byte>, start: nat, rowSize: nat, d: nat, i: nat): byte
  {
    if start + RowStart(d, rowSize) + i < |data| then data[start + RowStart(d, rowSize) + i]
    else if d > 0 && start + RowStart(d - 1, rowSize) + i < |data| then data[start + RowStart(d - 1, rowSize) + i]
    else 0
  }

  /** Byte i of the row buffer after `rows` rows have been read. */
  function BufferAfter(data: seq<byte>, start: nat, rowSize: nat, rows: nat, i: nat): byte
  {
    if rows == 0 then 0 else StoredByte(data, start, rowSize, rows - 1, i)
  }

  /** The cursor after `rows` row reads that did not fail: each read takes a
      whole row while one is left, a short read stops at the end of the file,
      and a cursor already past the end stays where the seek put it. */
  function PosAfter(start: nat, rowSize: nat, size: nat, rows: nat): nat
  {
    if start + RowStart(rows, rowSize) <= size then start + RowStart(rows, rowSize)
    else if start <= size then size
    else start
  }

  /** The pixel a buffer holds at column x: blue, green, red. */
  function BufferPixel(buf: seq<byte>, x: nat): Pixel
    requires 3 * x + 2 < |buf|
  {
    Pixel(buf[3 * x], buf[3 * x + 1], buf[3 * x + 2])
  }

  /** The pixel at column x of the row buffer once disk row d has been read. */
  function StoredPixel(data: seq<byte>, start: nat, rowSize: nat, d: nat, x: nat): Pixel
  {
    Pixel(StoredByte(data, start, rowSize, d, 3 * x),
          StoredByte(data, start, rowSize, d, 3 * x + 1),
          StoredByte(data, start, rowSize, d, 3 * x + 2))
  }

  /** The pixel `ReadImage` leaves at index k of the grid: memory row k / width
      comes from disk row height - 1 - k / width. */
  function DecodedPixel(data: seq<byte>, start: nat, rowSize: nat, width: int, height: int, k: nat): Pixel
  {
    if width <= 0 || height <= 0 || k / width >= height then Pixel(0, 0, 0)
    else StoredPixel(data, start, rowSize, height - 1 - k / width, k % width)
  }

  /** Where the pixel array starts for a read that begins at `pos`: the 32-bit
      sum HeaderSize + DibHeaderSize further on. */
  function PixelStart(pos: nat, h: Header): nat
  {
    pos + ToU32(h.headerSize as int + h.dibHeaderSize as int)
  }

  /** What `ReadImage` yields for a file read from `pos` with header `h`: a
      negative row or grid length panics in `make`; a row read fails only when
      it starts at or past the end of the file, which happens first (if at all)
      for the last row, at offset (height - 1) * rowSize; otherwise every pixel
      is decoded. */
  function DecodeImage(data: seq<byte>, pos: nat, h: Header): Result<Image>
  {
    var width := h.width as int;
    var height := h.height as int;
    var start := PixelStart(pos, h);
    var rowSize := ReadRowSize(h.pixelSize as int, width);
    if rowSize < 0 || width * height < 0 then Err(NegativeLength)
    else if rowSize > 0 && height > 0 && start + RowStart(height - 1, rowSize) >= |data| then Err(TruncatedPixelData)
    else Ok(Image(width, height, seq(width * height, k requires 0 <= k < width * height =>
      DecodedPixel(data, start, rowSize, width, height, k))))
  }

  /** A positive height with a non-negative grid size means a non-negative
      width, so the read stride covers three bytes per pixel. */
  lemma {:induction false} ReadStrideCovers(width: int, height: int)
    requires height > 0 && width * height >= 0
    ensures width >= 0 && 3 * width <= ReadRowSize(24, width)
  {
    if width < 0 {
      MulLe(width, -1, height);
    }
    StridesAgree(width);
  }

  /** The inner loop of `ReadImage`: pixel x of memory row y takes bytes 3x,
      3x + 1 and 3x + 2 of the row buffer; no other pixel changes. */
  method StoreRow(pixels: array<Pixel>, pixelData: array<byte>, width: nat, y: nat)
    requires 3 * width <= pixelData.Length && RowStart(y, width) + width <= pixels.Length
    modifies pixels
    ensures forall k :: 0 <= k < pixels.Length && !(RowStart(y, width) <= k < RowStart(y, width) + width) ==> pixels[k] == old(pixels[k])
    ensures forall k :: RowStart(y, width) <= k < RowStart(y, width) + width ==> pixels[k] == BufferPixel(pixelData[..], k - RowStart(y, width))
  {
    RowStartProduct(y, width);
    ghost var first := RowStart(y, width);
    var x := 0;
    while x < width
      invariant 0 <= x <= width
      invariant forall k :: 0 <= k < pixels.Length && !(first <= k < first + x) ==> pixels[k] == old(pixels[k])
      invariant forall k :: first <= k < first + x ==> pixels[k] == BufferPixel(pixelData[..], k - first)
    {
      var idx := x * 3;
      var pixelIdx := y * width + x;
      pixels[pixelIdx] := Pixel(pixelData[idx], pixelData[idx + 1], pixelData[idx + 2]);
      x := x + 1;
    }
  }

  /** One successful read of a non-empty row: the cursor stood on a byte of the
      file, moves on by what was copied, and the buffer then holds that row. */
  lemma {:induction false} RowRead(data: seq<byte>, start: nat, rowSize: nat, rows: nat, n: nat, before: seq<byte>, after: seq<byte>)
    requires rowSize > 0 && |before| == rowSize && |after| == rowSize
    requires PosAfter(start, rowSize, |data|, rows) < |data|
    requires n == ReadCount(|data|, PosAfter(start, rowSize, |data|, rows), rowSize)
    requires forall i :: 0 <= i < n ==> after[i] == data[PosAfter(start, rowSize, |data|, rows) + i]
    requires forall i :: n <= i < rowSize ==> after[i] == before[i]
    requires forall i :: 0 <= i < rowSize ==> before[i] == BufferAfter(data, start, rowSize, rows, i)
    ensures start + RowStart(rows, rowSize) < |data|
    ensures PosAfter(start, rowSize, |data|, rows) + n == PosAfter(start, rowSize, |data|, rows + 1)
    ensures forall i :: 0 <= i < rowSize ==> after[i] == BufferAfter(data, start, rowSize, rows + 1, i)
  {
    assert PosAfter(start, rowSize, |data|, rows) == start + RowStart(rows, rowSize);
    assert RowStart(rows + 1, rowSize) == RowStart(rows, rowSize) + rowSize;
  }

  /** A read of an empty row copies nothing and moves nothing. */
  lemma {:induction false} EmptyRowRead(start: nat, size: nat, rows: nat)
    ensures PosAfter(start, 0, size, rows + 1) == PosAfter(start, 0, size, rows)
  {
  }


  /** Once memory row y has been stored from the buffer of disk row height - 1 - y,
      its pixels are the decoded ones. */
  lemma {:induction false} RowDecoded(data: seq<byte>, start: nat, rowSize: nat, width: nat, height: nat, y: nat, buf: seq<byte>)
    requires y < height && |buf| == rowSize && 3 * width <= rowSize
    requires forall i :: 0 <= i < rowSize ==> buf[i] == BufferAfter(data, start, rowSize, height - y, i)
    ensures forall k :: RowStart(y, width) <= k < RowStart(y, width) + width ==>
      BufferPixel(buf, k - RowStart(y, width)) == DecodedPixel(data, start, rowSize, width, height, k)
  {
    RowStartProduct(y, width);
    forall k | RowStart(y, width) <= k < RowStart(y, width) + width
      ensures BufferPixel(buf, k - RowStart(y, width)) == DecodedPixel(data, start, rowSize, width, height, k)
    {
      DivModUnique(k, width, y, k - y * width);
    }
  }

  /** The `file.Read(pixelData)` call of `ReadImage` for the row after `rows`
      rows: it fails exactly when the row begins at or past the end of the file,
      and otherwise moves the cursor on and leaves that row in the buffer. */
  method ReadRow(file: Reader, pixelData: array<byte>, ghost start: nat, ghost rows: nat) returns (eof: bool)
    requires file.pos == PosAfter(start, pixelData.Length, |file.data|, rows)
    requires forall i :: 0 <= i < pixelData.Length ==> pixelData[i] == BufferAfter(file.data, start, pixelData.Length, rows, i)
    modifies file, pixelData
    ensures eof <==> pixelData.Length > 0 && start + RowStart(rows, pixelData.Length) >= |file.data|
    ensures !eof ==> file.pos == PosAfter(start, pixelData.Length, |file.data|, rows + 1)
    ensures !eof ==> forall i :: 0 <= i < pixelData.Length ==> pixelData[i] == BufferAfter(file.data, start, pixelData.Length, rows + 1, i)
  {
    ghost var before := pixelData[..];
    var n;
    n, eof := file.Read(pixelData);
    if !eof {
      if pixelData.Length > 0 {
        RowRead(file.data, start, pixelData.Length, rows, n, before, pixelData[..]);
      } else {
        EmptyRowRead(start, |file.data|, rows);
      }
    }
  }

  /** A grid holding the decoded pixel at every index is the decoded image, as
      long as no row read failed. */
  lemma {:induction false} ImageDecoded(data: seq<byte>, pos: nat, h: Header, start: nat, rowSize: nat, pixels: seq<Pixel>)
    requires start == PixelStart(pos, h) && rowSize == ReadRowSize(h.pixelSize as int, h.width as int)
    requires h.width as int * h.height as int >= 0 && |pixels| == h.width as int * h.height as int
    requires rowSize > 0 && h.height > 0 ==> start + RowStart(h.height as int - 1, rowSize) < |data|
    requires forall k :: 0 <= k < |pixels| ==>
      pixels[k] == DecodedPixel(data, start, rowSize, h.width as int, h.height as int, k)
    ensures DecodeImage(data, pos, h) == Ok(Image(h.width as int, h.height as int, pixels))
  {
    var width, height := h.width as int, h.height as int;
    var decoded := seq(width * height, k requires 0 <= k < width * height =>
      DecodedPixel(data, start, rowSize, width, height, k));
    assert pixels == decoded;
  }

  /** The row loop of `ReadImage`: reads one stride per row into the reused
      buffer, bottom row first, and copies each row's pixels into the grid. It
      stops at the first read that fails; otherwise every pixel is decoded. */
  method ReadRows(file: Reader, pixelData: array<byte>, pixels: array<Pixel>, ghost start: nat, width: int, height: int)
      returns (truncated: bool)
    requires pixels != pixelData as object
    requires file.pos == start && 3 * width <= pixelData.Length
    requires height > 0 ==> width >= 0 && pixels.Length == RowStart(height, width)
    requires forall i :: 0 <= i < pixelData.Length ==> pixelData[i] == 0
    requires forall k :: 0 <= k < pixels.Length ==> pixels[k] == Pixel(0, 0, 0)
    modifies file, pixelData, pixels
    ensures truncated <==> pixelData.Length > 0 && height > 0 && start + RowStart(height - 1, pixelData.Length) >= |file.data|
    ensures !truncated ==> forall k :: 0 <= k < pixels.Length ==>
      pixels[k] == DecodedPixel(file.data, start, pixelData.Length, width, height, k)
  {
    ghost var rowSize, size := pixelData.Length, |file.data|;
    var y := height - 1;
    while y >= 0
      invariant y < height && (height > 0 ==> -1 <= y)
      invariant file.pos == PosAfter(start, rowSize, size, height - 1 - y)
      invariant rowSize > 0 && y < height - 1 ==> start + RowStart(height - 2 - y, rowSize) < size
      invariant forall i :: 0 <= i < rowSize ==> pixelData[i] == BufferAfter(file.data, start, rowSize, height - 1 - y, i)
      invariant height > 0 ==> forall k :: RowStart(y + 1, width) <= k < pixels.Length ==> pixels[k] == DecodedPixel(file.data, start, rowSize, width, height, k)
      invariant height <= 0 ==> forall k :: 0 <= k < pixels.Length ==> pixels[k] == Pixel(0, 0, 0)
    {
      var eof := ReadRow(file, pixelData, start, height - 1 - y);
      if eof {
        RowStartMonotone(height - 1 - y, height - 1, rowSize);
        return true;
      }
      RowWithin(y, height, width);
      StoreRow(pixels, pixelData, width, y);
      RowDecoded(file.data, start, rowSize, width, height, y, pixelData[..]);
      y := y - 1;
    }
    truncated := false;
  }

  /** `ReadImage`: seeks past the two headers, allocates the row buffer and the
      grid, then reads the rows. */
  method ReadImage(file: Reader, header: Header) returns (r: Result<Image>)
    requires header.pixelSize == 24
    modifies file
    ensures r == DecodeImage(file.data, old(file.pos), header)
  {
    var width := header.width as int;
    var height := header.height as int;
    file.Seek(ToU32(header.headerSize as int + header.dibHeaderSize as int));
    ghost var start := file.pos;
    var rowSize := ReadRowSize(header.pixelSize as int, width);
    if rowSize < 0 || width * height < 0 {
      return Err(NegativeLength);
    }
    var pixelData := new byte[rowSize](_ => 0);
    var pixels := new Pixel[width * height](_ => Pixel(0, 0, 0));
    if height > 0 {
      ReadStrideCovers(width, height);
      RowStartProduct(height, width);
    }
    var truncated := ReadRows(file, pixelData, pixels, start, width, height);
    if truncated {
      return Err(TruncatedPixelData);
    }
    ImageDecoded(file.data, old(file.pos), header, start, rowSize, pixels[..]);
    r := Ok(Image(width, height, pixels[..]));
  }

  // ---------------------------------------------------------------- pixel array properties

  /** Writing more rows only extends what was written. */
  lemma {:induction false} DiskRowsPrefix(pixels: seq<Pixel>, width: nat, height: nat, rowSize: nat, m: nat, n: nat, j: nat)
    requires m <= n <= height && 3 * width <= rowSize && RowStart(height, width) <= |pixels|
    requires j < |DiskRows(pixels, width, height, rowSize, m)|
    ensures j < |DiskRows(pixels, width, height, rowSize, n)|
    ensures DiskRows(pixels, width, height, rowSize, n)[j] == DiskRows(pixels, width, height, rowSize, m)[j]
  {
    if m < n {
      DiskRowsPrefix(pixels, width, height, rowSize, m, n - 1, j);
    }
  }

  /** The last of n disk rows is memory row height - n, starting one stride
      before the end. */
  lemma {:induction false} LastDiskRow(pixels: seq<Pixel>, width: nat, height: nat, rowSize: nat, n: nat, i: nat)
    requires 0 < n <= height && 3 * width <= rowSize && RowStart(height, width) <= |pixels| && i < rowSize
    requires RowStart(height - n, width) + width <= |pixels|
    ensures RowStart(n - 1, rowSize) + i < |DiskRows(pixels, width, height, rowSize, n)|
    ensures DiskRows(pixels, width, height, rowSize, n)[RowStart(n - 1, rowSize) + i]
         == RowBytes(pixels, width, rowSize, RowStart(height - n, width))[i]
  {
    DiskRowsLength(pixels, width, height, rowSize, n - 1);
  }

  /** Byte i of disk row d of the written rows is byte i of memory row
      height - 1 - d. */
  lemma {:induction false} DiskRowsAt(pixels: seq<Pixel>, width: nat, height: nat, rowSize: nat, n: nat, d: nat, i: nat)
    requires n <= height && 3 * width <= rowSize && RowStart(height, width) <= |pixels|
    requires d < n && i < rowSize && RowStart(height - 1 - d, width) + width <= |pixels|
    ensures RowStart(d, rowSize) + i < |DiskRows(pixels, width, height, rowSize, n)|
    ensures DiskRows(pixels, width, height, rowSize, n)[RowStart(d, rowSize) + i]
         == RowBytes(pixels, width, rowSize, RowStart(height - 1 - d, width))[i]
  {
    LastDiskRow(pixels, width, height, rowSize, d + 1, i);
    DiskRowsPrefix(pixels, width, height, rowSize, d + 1, n, RowStart(d, rowSize) + i);
  }

  /** A buffer byte whose file position exists is that file byte. */
  lemma {:induction false} StoredByteInFile(data: seq<byte>, start: nat, rowSize: nat, d: nat, i: nat)
    requires start + RowStart(d, rowSize) + i < |data|
    ensures StoredByte(data, start, rowSize, d, i) == data[start + RowStart(d, rowSize) + i]
  {
  }

  /** Channel c of a buffered pixel is buffer byte 3x + c. */
  lemma {:induction false} StoredPixelChannel(data: seq<byte>, start: nat, rowSize: nat, d: nat, x: nat, c: nat)
    requires c < 3
    ensures Channel(StoredPixel(data, start, rowSize, d, x), c) == StoredByte(data, start, rowSize, d, 3 * x + c)
  {
  }

  /** Byte 3x + c of a written row is channel c of pixel x of that memory row. */
  lemma {:induction false} RowBytesAt(pixels: seq<Pixel>, width: nat, rowSize: nat, first: nat, x: nat, c: nat)
    requires 3 * width <= rowSize && first + width <= |pixels| && x < width && c < 3
    ensures RowBytes(pixels, width, rowSize, first)[3 * x + c] == Channel(pixels[first + x], c)
  {
    DivModUnique(3 * x + c, 3, x, c);
  }

  /** Channel c of the pixel at row y, column x comes back from the written rows. */
  lemma {:induction false} ChannelRoundTrip(pixels: seq<Pixel>, width: nat, height: nat, rowSize: nat, prefix: seq<byte>, y: nat, x: nat, c: nat)
    requires 3 * width <= rowSize && |pixels| == RowStart(height, width) && y < height && x < width && c < 3
    ensures RowStart(y, width) + x < |pixels|
    ensures Channel(StoredPixel(prefix + DiskRows(pixels, width, height, rowSize, height), |prefix|, rowSize, height - 1 - y, x), c)
      == Channel(pixels[RowStart(y, width) + x], c)
  {
    var rows := DiskRows(pixels, width, height, rowSize, height);
    var data := prefix + rows;
    var d := height - 1 - y;
    var i := 3 * x + c;
    RowWithin(y, height, width);
    assert height - 1 - d == y;
    DiskRowsAt(pixels, width, height, rowSize, height, d, i);
    assert data[|prefix| + RowStart(d, rowSize) + i] == rows[RowStart(d, rowSize) + i];
    StoredByteInFile(data, |prefix|, rowSize, d, i);
    StoredPixelChannel(data, |prefix|, rowSize, d, x, c);
    RowBytesAt(pixels, width, rowSize, RowStart(y, width), x, c);
  }

  /** Reading back the rows `WriteImage` emits, with the pixel array right after
      `prefix`, recovers the pixel at every index. */
  lemma {:induction false} PixelRoundTrip(pixels: seq<Pixel>, width: nat, height: nat, rowSize: nat, prefix: seq<byte>, k: nat)
    requires 3 * width <= rowSize && |pixels| == width * height && k < width * height
    ensures DecodedPixel(prefix + PixelArray(pixels, width, height, rowSize), |prefix|, rowSize, width, height, k) == pixels[k]
  {
    RowOfIndex(k, width, height);
    RowStartProduct(height, width);
    var data := prefix + DiskRows(pixels, width, height, rowSize, height);
    var y, x := k / width, k % width;
    assert k == y * width + x;
    RowStartProduct(y, width);
    var p := StoredPixel(data, |prefix|, rowSize, height - 1 - y, x);
    ChannelRoundTrip(pixels, width, height, rowSize, prefix, y, x, 0);
    ChannelRoundTrip(pixels, width, height, rowSize, prefix, y, x, 1);
    ChannelRoundTrip(pixels, width, height, rowSize, prefix, y, x, 2);
    assert p == Pixel(Channel(p, 0), Channel(p, 1), Channel(p, 2));
  }

  /** `PixelRoundTrip` at every index of the grid. */
  lemma {:induction false} PixelsRoundTrip(pixels: seq<Pixel>, width: nat, height: nat, rowSize: nat, prefix: seq<byte>)
    requires 3 * width <= rowSize && |pixels| == width * height
    ensures forall k :: 0 <= k < |pixels| ==>
      DecodedPixel(prefix + PixelArray(pixels, width, height, rowSize), |prefix|, rowSize, width, height, k) == pixels[k]
  {
    forall k | 0 <= k < |pixels|
      ensures DecodedPixel(prefix + PixelArray(pixels, width, height, rowSize), |prefix|, rowSize, width, height, k) == pixels[k]
    {
      PixelRoundTrip(pixels, width, height, rowSize, prefix, k);
    }
  }

  /** Pixel array round trip: when the header that `ReadImage` gets has the
      image's dimensions, 24 bits per pixel and a data offset equal to what
      precedes the rows, the rows `WriteImage` emits decode to the same image. */
  lemma {:induction false} ImageRoundTrip(img: Image, h: Header, prefix: seq<byte>)
    requires WellFormed(img) && h.width as int == img.width && h.height as int == img.height
    requires h.pixelSize == 24 && PixelStart(0, h) == |prefix|
    ensures var rowSize := WriteRowSize(img.width);
      DecodeImage(prefix + PixelArray(img.pixels, img.width, img.height, rowSize), 0, h) == Ok(img)
  {
    var width, height := img.width, img.height;
    var rowSize := WriteRowSize(width);
    var data := prefix + PixelArray(img.pixels, width, height, rowSize);
    assert ReadRowSize(h.pixelSize as int, h.width as int) == rowSize by { StridesAgree(width); }
    assert rowSize == 0 || height == 0 || |prefix| + RowStart(height - 1, rowSize) < |data| by {
      RowStartProduct(height, width);
      DiskRowsLength(img.pixels, width, height, rowSize, height);
    }
    PixelsRoundTrip(img.pixels, width, height, rowSize, prefix);
    ImageDecoded(data, 0, h, |prefix|, rowSize, img.pixels);
  }

  /** A row whose read begins inside the file, or an empty row, which reads nothing. */
  predicate RowBegins(data: seq<byte>, start: nat, rowSize: int, d: nat)
  {
    rowSize <= 0 || start + RowStart(d, rowSize as nat) < |data|
  }

  /** `ReadImage` on non-negative dimensions succeeds exactly when every row read
      begins inside the file: a row cut short by the end of the file is accepted. */
  lemma {:induction false} ImageAccepted(data: seq<byte>, pos: nat, h: Header)
    requires h.pixelSize == 24 && h.width >= 0 && h.height >= 0
    ensures var rowSize := ReadRowSize(24, h.width as int);
      DecodeImage(data, pos, h).Ok? <==>
        forall d: nat :: d < h.height as int ==> RowBegins(data, PixelStart(pos, h), rowSize, d)
  {
    var width, height := h.width as int, h.height as int;
    StridesAgree(width);
    MulLe(0, height, width);
    var rowSize := ReadRowSize(24, width);
    var start := PixelStart(pos, h);
    if DecodeImage(data, pos, h).Ok? {
      forall d: nat | d < height
        ensures RowBegins(data, start, rowSize, d)
      {
        RowStartMonotone(d, height - 1, rowSize);
      }
    } else if height > 0 {
      assert !RowBegins(data, start, rowSize, height - 1);
    }
  }

  /** A short last row: a byte of the top memory row that lies past the end of
      the file is the byte of the row beneath it, left in the reused buffer. */
  lemma {:induction false} ShortTopRow(data: seq<byte>, pos: nat, h: Header, x: nat, c: nat)
    requires h.pixelSize == 24 && h.height >= 2 && x < h.width as int && c < 3
    requires DecodeImage(data, pos, h).Ok?
    requires PixelStart(pos, h) + (h.height as int - 1) * ReadRowSize(24, h.width as int) + 3 * x + c >= |data|
    ensures var pixels := DecodeImage(data, pos, h).value.pixels;
      |pixels| == h.width as int * h.height as int && h.width as int + x < |pixels|
      && Channel(pixels[x], c) == Channel(pixels[h.width as int + x], c)
  {
    var width, height := h.width as int, h.height as int;
    var start := PixelStart(pos, h);
    StridesAgree(width);
    var rowSize := ReadRowSize(24, width);
    RowMajorIndex(0, x, width, height);
    RowMajorIndex(1, x, width, height);
    RowStartProduct(height - 1, rowSize);
    var pixels := DecodeImage(data, pos, h).value.pixels;
    assert pixels[x] == DecodedPixel(data, start, rowSize, width, height, x);
    assert pixels[width + x] == DecodedPixel(data, start, rowSize, width, height, width + x);
  }

  // ---------------------------------------------------------------- whole files

  /** What `ReadBMP` yields for a file's bytes: the header read from the start
      of the file, then the pixels read through a second handle that also
      starts at offset 0 and seeks past HeaderSize + DibHeaderSize bytes. */
  function DecodeBmp(data: seq<byte>): Result<Bmp>
  {
    match DecodeHeader(data)
    case Err(e) => Err(e)
    case Ok(header) =>
      match DecodeImage(data, 0, header)
      case Err(e) => Err(e)
      case Ok(image) => Ok(Bmp(header, image))
  }

  /** `ReadBMP`: opens the file, reads its header, then its pixels. */
  method ReadBMP(data: seq<byte>) returns (r: Result<Bmp>)
    ensures r == DecodeBmp(data)
  {
    var file := new Reader(data);
    var header := ReadHeader(data);
    if header.Err? {
      return Err(header.error);
    }
    AcceptedHeader(data);
    var image := ReadImage(file, header.value);
    if image.Err? {
      return Err(image.error);
    }
    r := Ok(Bmp(header.value, image.value));
  }

  /** The bytes `WriteBMP` puts in a new file for `bmp` once the header has been
      prepared with the given file type. */
  function EncodeBmp(bmp: Bmp, fileType: seq<byte>): seq<byte>
    requires bmp.header.width >= 0 && bmp.header.height >= 0
    requires bmp.header.width as int * bmp.header.height as int <= |bmp.image.pixels|
  {
    var header := Prepared(bmp.header, fileType);
    HeaderBytes(header) + ImageBytes(bmp.image.pixels, header.width as nat, header.height as nat, header.imageSize)
  }

  /** `WriteBMP`: creates the file, prepares the header in place (the caller's
      value is updated too), then writes the header and the pixels. */
  method WriteBMP(bmp: Bmp) returns (written: seq<byte>, updated: Bmp)
    requires bmp.header.width >= 0 && bmp.header.height >= 0
    requires bmp.header.width as int * bmp.header.height as int <= |bmp.image.pixels|
    ensures written == EncodeBmp(bmp, PreparedFileType)
    ensures updated == Bmp(Prepared(bmp.header, PreparedFileType), bmp.image)
  {
    var file := new Writer();
    var header := PrepareHeader(bmp.header);
    WriteHeader(file, header);
    WriteImage(file, bmp.image, header);
    written := file.written;
    updated := Bmp(header, bmp.image);
  }

  /** The prepared header's ImageSize is exactly what the rows add up to (as a
      32-bit count), so the writer adds no trailing padding. */
  lemma {:induction false} NoTrailingPadding(bmp: Bmp, fileType: seq<byte>)
    requires bmp.header.width >= 0 && bmp.header.height >= 0
    requires bmp.header.width as int * bmp.header.height as int <= |bmp.image.pixels|
    ensures var header := Prepared(bmp.header, fileType);
      var width, height := bmp.header.width as int, bmp.header.height as int;
      EncodeBmp(bmp, fileType) == HeaderBytes(header) + PixelArray(bmp.image.pixels, width, height, WriteRowSize(width))
  {
    var width, height := bmp.header.width as int, bmp.header.height as int;
    var rows := PixelArray(bmp.image.pixels, width, height, WriteRowSize(width));
    assert ImageBytes(bmp.image.pixels, width, height, Prepared(bmp.header, fileType).imageSize) == rows + [];
  }

  /** Whole-file round trip with the format's "BM" signature: reading back what
      the writer produces for an image whose header has its dimensions gives the
      prepared header and the same pixels. */
  lemma {:induction false} RoundTrip(bmp: Bmp)
    requires WellFormed(bmp.image)
    requires bmp.header.width as int == bmp.image.width && bmp.header.height as int == bmp.image.height
    ensures DecodeBmp(EncodeBmp(bmp, Signature)) == Ok(Bmp(Prepared(bmp.header, Signature), bmp.image))
  {
    var header := Prepared(bmp.header, Signature);
    var width, height := bmp.image.width, bmp.image.height;
    var rows := PixelArray(bmp.image.pixels, width, height, WriteRowSize(width));
    NoTrailingPadding(bmp, Signature);
    HeaderRoundTrip(header, rows);
    assert header.(headerSize := FileHeaderSize) == header;
    ImageRoundTrip(bmp.image, header, HeaderBytes(header));
  }

  /** What `WriteBMP` actually produces, with "BMP" as the file type, is rejected
      by `ReadBMP`: the one-byte shift puts 6144 where bits per pixel belongs. */
  lemma {:induction false} WrittenFileRejected(bmp: Bmp)
    requires bmp.header.width >= 0 && bmp.header.height >= 0
    requires bmp.header.width as int * bmp.header.height as int <= |bmp.image.pixels|
    ensures DecodeBmp(EncodeBmp(bmp, PreparedFileType)) == Err(UnsupportedPixelDepth)
  {
    var header := Prepared(bmp.header, PreparedFileType);
    var width, height := bmp.header.width as int, bmp.header.height as int;
    var rows := PixelArray(bmp.image.pixels, width, height, WriteRowSize(width));
    NoTrailingPadding(bmp, PreparedFileType);
    PreparedFileTypeRejected(header, rows);
  }
}
