/** Reading the 54-byte fixed header of a 24-bit BMP file, and `buildHeader`. */
module BmpHeader {
  import opened Wrappers
  import opened LittleEndian
  import opened Streams
  import opened BmpTypes
  import opened RowSize

  /** What the first `Read` into the 2-byte signature buffer leaves there: a
      one-byte file fills only the first byte, and the second stays 0. */
  function SignatureBytes(data: seq<byte>): (sig: seq<byte>)
    requires |data| >= 1
    ensures |sig| == 2 && sig[0] == data[0]
    ensures |data| >= 2 ==> sig == data[..2]
    ensures |data| == 1 ==> sig[1] == 0
  {
    if |data| >= 2 then data[..2] else [data[0], 0]
  }

  /** The header a file decodes to, stated by absolute byte offsets. Failures are
      reported in the order the cursor meets them. Bytes 6..13 (reserved, data
      offset), 26..27 (planes), 30..33 (compression) and 38..53 (resolution and
      palette) are never looked at, and the last 16 are skipped by a seek, which
      does not need them to exist. */
  function DecodeHeader(data: seq<byte>): (r: Result<Header>)
  {
    if |data| == 0 then Err(TruncatedHeader)
    else if SignatureBytes(data) != Signature then Err(InvalidSignature)
    else DecodeFields(data)
  }

  /** The fields after a valid signature: the pixel depth is checked as soon as
      it has been read, before the image size. */
  function DecodeFields(data: seq<byte>): (r: Result<Header>)
  {
    if |data| < 30 then Err(TruncatedHeader)
    else if U16At(data, 28) != 24 then Err(UnsupportedPixelDepth)
    else if |data| < 38 then Err(TruncatedHeader)
    else Ok(Header(
      fileType := Signature,
      fileSize := U32At(data, 2),
      headerSize := FileHeaderSize,
      dibHeaderSize := U32At(data, 14),
      width := I32At(data, 18),
      height := I32At(data, 22),
      pixelSize := 24,
      imageSize := U32At(data, 34)))
  }

  /** `ReadHeader`: opens the file and walks a cursor through the header, reading
      or seeking past one field at a time and stopping at the first failure. The
      field reads after the signature check are `ReadFields`. */
  method ReadHeader(data: seq<byte>) returns (r: Result<Header>)
    ensures r == DecodeHeader(data)
  {
    var file := new Reader(data);
    var header := Header([], 0, 0, 0, 0, 0, 0, 0);
    header := header.(headerSize := FileHeaderSize);

    var fileType := new byte[2](_ => 0);
    var n, eof := file.Read(fileType);
    if eof {
      return Err(TruncatedHeader);
    }
    assert fileType[..] == SignatureBytes(data);
    header := header.(fileType := fileType[..]);
    if header.fileType != Signature {
      return Err(InvalidSignature);
    }
    r := ReadFields(file, header);
  }

  /** The rest of `ReadHeader`, from the file size on, with the cursor just past
      a "BM" signature. */
  method ReadFields(file: Reader, partial: Header) returns (r: Result<Header>)
    requires file.pos == 2
    requires partial.fileType == Signature && partial.headerSize == FileHeaderSize
    modifies file
    ensures r == DecodeFields(file.data)
  {
    var header := partial;
    var fileSize := file.ReadU32();
    if fileSize.None? {
      return Err(TruncatedHeader);
    }

    file.Seek(8);

    var dibHeaderSize := file.ReadU32();
    if dibHeaderSize.None? {
      return Err(TruncatedHeader);
    }

    var width := file.ReadI32();
    if width.None? {
      return Err(TruncatedHeader);
    }

    var height := file.ReadI32();
    if height.None? {
      return Err(TruncatedHeader);
    }

    file.Seek(2);

    var pixelSize := file.ReadU16();
    if pixelSize.None? {
      return Err(TruncatedHeader);
    }
    if pixelSize.value != 24 {
      return Err(UnsupportedPixelDepth);
    }

    file.Seek(4);

    var imageSize := file.ReadU32();
    if imageSize.None? {
      return Err(TruncatedHeader);
    }

    file.Seek(16);
    return Ok(header.(fileSize := fileSize.value, dibHeaderSize := dibHeaderSize.value, width := width.value,
                      height := height.value, pixelSize := pixelSize.value, imageSize := imageSize.value));
  }

  /** A header is accepted exactly when the file starts with "BM", holds at
      least the 38 bytes up to the image-size field, and declares 24 bits per
      pixel. The result then says so, its HeaderSize is 14 whatever the file
      holds, and the other fields are the little-endian values at offsets 2
      (file size), 14 (DIB header size), 18 and 22 (signed width and height)
      and 34 (image size). */
  lemma AcceptedHeader(data: seq<byte>)
    ensures DecodeHeader(data).Ok? <==> |data| >= 38 && data[..2] == Signature && U16At(data, 28) == 24
    ensures DecodeHeader(data).Ok? ==>
      var h := DecodeHeader(data).value;
      h.fileType == Signature && h.pixelSize == 24 && h.headerSize == FileHeaderSize
      && h.fileSize == U32At(data, 2) && h.dibHeaderSize == U32At(data, 14)
      && h.width == I32At(data, 18) && h.height == I32At(data, 22) && h.imageSize == U32At(data, 34)
  {
    if |data| >= 2 {
      assert SignatureBytes(data) == data[..2];
    }
  }

  /** A file that does not start with "BM" is rejected as such; so is a file
      holding a single byte, since the second buffer byte stays 0. */
  lemma SignatureRejected(data: seq<byte>)
    requires |data| >= 1 && (|data| == 1 || data[..2] != Signature)
    ensures DecodeHeader(data) == Err(InvalidSignature)
  {
  }

  /** A "BM" file whose bits-per-pixel field is not 24 is rejected as such. */
  lemma PixelDepthRejected(data: seq<byte>)
    requires |data| >= 30 && data[..2] == Signature && U16At(data, 28) != 24
    ensures DecodeHeader(data) == Err(UnsupportedPixelDepth)
  {
  }

  /** Fewer than 38 bytes never decode: some field read runs out of data. */
  lemma ShortInputRejected(data: seq<byte>)
    requires |data| < 38
    ensures DecodeHeader(data).Err?
  {
  }

  /** Only the bytes at the fields the decoder reads matter: two inputs of the
      same length that agree there decode alike, whatever the skipped bytes hold. */
  lemma {:induction false} SkippedBytesIgnored(a: seq<byte>, b: seq<byte>)
    requires |a| == |b|
    requires forall i :: 0 <= i < |a| && (i < 6 || 14 <= i < 26 || 28 <= i < 30 || 34 <= i < 38) ==> a[i] == b[i]
    ensures DecodeHeader(a) == DecodeHeader(b)
  {
    if |a| >= 2 {
      assert a[..2] == b[..2];
    }
    if |a| >= 38 {
      U32AtFrame(a, 2, b, 2);
      U32AtFrame(a, 14, b, 14);
      U32AtFrame(a, 18, b, 18);
      U32AtFrame(a, 22, b, 22);
      U32AtFrame(a, 34, b, 34);
    }
  }

  /** Nothing past byte 38 is read: the final 16-byte skip is a seek. */
  lemma {:induction false} TrailingBytesIgnored(data: seq<byte>)
    requires |data| >= 38
    ensures DecodeHeader(data) == DecodeHeader(data[..38])
  {
    var t := data[..38];
    assert t[..2] == data[..2];
    assert data[28..30] == t[28..30];
    U16AtFrame(data, 28, t, 28);
    assert data[2..6] == t[2..6];
    U32AtFrame(data, 2, t, 2);
    assert data[14..18] == t[14..18];
    U32AtFrame(data, 14, t, 14);
    assert data[18..22] == t[18..22];
    U32AtFrame(data, 18, t, 18);
    assert data[22..26] == t[22..26];
    U32AtFrame(data, 22, t, 22);
    assert data[34..38] == t[34..38];
    U32AtFrame(data, 34, t, 34);
  }

  /** `buildHeader` as written: a "BM" header for the image whose ImageSize is
      `rowSize + height` (not `rowSize * height`) and whose FileSize adds the two
      fixed header sizes, all as 32-bit Go values. */
  function BuildHeader(img: Image): (h: Header)
    ensures h.fileType == Signature && h.pixelSize == 24
    ensures h.headerSize == FileHeaderSize && h.dibHeaderSize == InfoHeaderSize
    ensures -TwoTo31 <= img.width < TwoTo31 ==> h.width == img.width
    ensures -TwoTo31 <= img.height < TwoTo31 ==> h.height == img.height
    ensures 0 <= WriteRowSize(img.width) + img.height < TwoTo32 ==>
      h.imageSize as int == WriteRowSize(img.width) + img.height
    ensures h.imageSize as int + 54 < TwoTo32 ==> h.fileSize == h.imageSize + 54
  {
    var rowSize := WriteRowSize(img.width);
    var imageSize := ToU32(rowSize + img.height);
    Header(
      fileType := Signature,
      headerSize := FileHeaderSize,
      dibHeaderSize := InfoHeaderSize,
      width := ToI32(img.width),
      height := ToI32(img.height),
      pixelSize := 24,
      imageSize := imageSize,
      fileSize := ToU32(FileHeaderSize as int + InfoHeaderSize as int + imageSize))
  }

  /** The size slip in `buildHeader`: for a 2 x 2 image the stride is 8, so the
      pixel array takes 16 bytes, but the header declares 10 and a 64-byte file. */
  lemma BuildHeaderUndersizes()
    ensures var h := BuildHeader(Image(2, 2, []));
      h.imageSize == 10 && h.fileSize == 64
      && h.imageSize as int != WriteRowSize(2) * 2
  {
    assert WriteRowSize(2) == 8;
  }

  /** The slip is not confined to one size: for every image at least one pixel
      wide and two rows high whose pixel array fits in 32 bits, `buildHeader`
      declares fewer bytes than the rows take. */
  lemma {:induction false} BuildHeaderUndersizesAll(img: Image)
    requires img.width >= 1 && img.height >= 2
    requires WriteRowSize(img.width) * img.height < TwoTo32
    ensures BuildHeader(img).imageSize as int < WriteRowSize(img.width) * img.height
  {
    var r, h := WriteRowSize(img.width), img.height;
    WriteRowSizeBounds(img.width);
    assert r >= 4;
    assert r * h - (r + h) == (r - 1) * (h - 1) - 1;
    MulLe(3, r - 1, h - 1);
  }
}
