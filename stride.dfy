/** The on-disk row length ("stride") of a 24-bit bitmap. The reader and the
    writer compute it with two different formulas; both are Go integer
    expressions, so division truncates toward zero. */
module RowSize {
  import opened LittleEndian

  /** Stride as the reader computes it: bits per row rounded up to whole 32-bit words. */
  function ReadRowSize(pixelSize: int, width: int): int
  {
    Quot(pixelSize * width + 31, 32) * 4
  }

  /** Stride as the writer and `buildHeader` compute it: 3 bytes per pixel rounded up to a multiple of 4. */
  function WriteRowSize(width: int): (r: int)
    ensures width >= 0 ==> 3 * width <= r
  {
    Quot(width * 3 + 3, 4) * 4
  }

  /** The write-side stride is a multiple of 4 holding 3 bytes per pixel plus at most 3 bytes of padding. */
  lemma {:induction false} WriteRowSizeBounds(width: int)
    requires width >= 0
    ensures WriteRowSize(width) % 4 == 0
    ensures 3 * width <= WriteRowSize(width) <= 3 * width + 3
  {
    var q := (width * 3 + 3) / 4;
    assert WriteRowSize(width) == q * 4;
  }

  /** With 24 bits per pixel the reader's and the writer's strides agree. */
  lemma {:induction false} StridesAgree(width: int)
    requires width >= 0
    ensures ReadRowSize(24, width) == WriteRowSize(width)
  {
    var q := (3 * width) / 4;
    var r := (3 * width) % 4;
    assert 3 * width == 4 * q + r;
    assert 24 * width + 31 == 32 * q + (8 * r + 31);
    assert (24 * width + 31) / 32 == q + (if r == 0 then 0 else 1);
    assert width * 3 + 3 == 4 * q + (r + 3);
    assert (width * 3 + 3) / 4 == q + (if r == 0 then 0 else 1);
  }

  /** A two-pixel row takes 6 bytes of pixels and 2 of padding. */
  lemma TwoPixelRow()
    ensures WriteRowSize(2) == 8 && ReadRowSize(24, 2) == 8
  {
  }
}
