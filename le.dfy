/** Bytes, Go's fixed-width integer types and their little-endian wire form, as
    `encoding/binary` with `binary.LittleEndian` writes and reads them, together
    with the Go conversions and the truncating division the codec relies on. */
module LittleEndian {

  type byte = x: int | 0 <= x < 0x100
  type u16 = x: int | 0 <= x < 0x1_0000
  type u32 = x: int | 0 <= x < 0x1_0000_0000
  type i32 = x: int | -0x8000_0000 <= x < 0x8000_0000

  const TwoTo31: int := 0x8000_0000
  const TwoTo32: int := 0x1_0000_0000

  /** Go's `uint32(x)`: keeps the low 32 bits, so the result differs from x by a multiple of 2^32. */
  function ToU32(x: int): (r: u32)
    ensures 0 <= x < TwoTo32 ==> r == x
    ensures (x - r) % TwoTo32 == 0
  {
    x % TwoTo32
  }

  /** Go's `int32(x)`: the low 32 bits read as two's complement. */
  function ToI32(x: int): (r: i32)
    ensures -TwoTo31 <= x < TwoTo31 ==> r == x
    ensures (x - r) % TwoTo32 == 0
  {
    var u := x % TwoTo32;
    if u < TwoTo31 then u else u - TwoTo32
  }

  /** Go's integer division `a / b`, which truncates toward zero (Dafny's `/` is Euclidean). */
  function Quot(a: int, b: int): (q: int)
    requires b > 0
    ensures a >= 0 ==> 0 <= a - q * b < b
    ensures a < 0 ==> -b < a - q * b <= 0
  {
    if a >= 0 then a / b else -((-a) / b)
  }

  /** A sequence of n zero bytes, what `make([]byte, n)` holds. */
  function Zeros(n: nat): (r: seq<byte>)
    ensures |r| == n
    ensures forall i :: 0 <= i < n ==> r[i] == 0
  {
    seq(n, _ => 0)
  }

  function U16Bytes(v: u16): (r: seq<byte>)
    ensures |r| == 2
  {
    [v % 0x100, v / 0x100]
  }

  function U32Bytes(v: u32): (r: seq<byte>)
    ensures |r| == 4
  {
    [v % 0x100, (v / 0x100) % 0x100, ((v / 0x100) / 0x100) % 0x100, ((v / 0x100) / 0x100) / 0x100]
  }

  /** An int32 is written as the 4 bytes of its two's complement bit pattern. */
  function I32Bytes(v: i32): (r: seq<byte>)
    ensures |r| == 4
  {
    U32Bytes(ToU32(v))
  }

  /** The little-endian u16 stored at offset k. */
  function U16At(s: seq<byte>, k: nat): u16
    requires k + 2 <= |s|
  {
    s[k] as int + 0x100 * s[k + 1] as int
  }

  /** The little-endian u32 stored at offset k. */
  function U32At(s: seq<byte>, k: nat): u32
    requires k + 4 <= |s|
  {
    s[k] as int + 0x100 * (s[k + 1] as int + 0x100 * (s[k + 2] as int + 0x100 * s[k + 3] as int))
  }

  /** The little-endian two's-complement i32 stored at offset k. */
  function I32At(s: seq<byte>, k: nat): i32
    requires k + 4 <= |s|
  {
    var u := U32At(s, k);
    if u < TwoTo31 then u else u - TwoTo32
  }

  lemma DivMod256(lo: int, hi: int)
    requires 0 <= lo < 0x100
    ensures (lo + 0x100 * hi) % 0x100 == lo && (lo + 0x100 * hi) / 0x100 == hi
  {
  }

  /** Decoding what was encoded gives the value back. */
  lemma {:induction false} U16RoundTrip(v: u16)
    ensures |U16Bytes(v)| == 2 && U16At(U16Bytes(v), 0) == v
  {
  }

  /** Encoding what was decoded gives the bytes back. */
  lemma {:induction false} U16BytesOfDecoded(s: seq<byte>, k: nat)
    requires k + 2 <= |s|
    ensures U16Bytes(U16At(s, k)) == s[k..k + 2]
  {
    DivMod256(s[k], s[k + 1]);
  }

  lemma {:induction false} U32RoundTrip(v: u32)
    ensures |U32Bytes(v)| == 4 && U32At(U32Bytes(v), 0) == v
  {
    var a := v / 0x100;
    var b := a / 0x100;
    assert v == v % 0x100 + 0x100 * a;
    assert a == a % 0x100 + 0x100 * b;
    assert b == b % 0x100 + 0x100 * (b / 0x100);
  }

  lemma {:induction false} U32BytesOfDecoded(s: seq<byte>, k: nat)
    requires k + 4 <= |s|
    ensures U32Bytes(U32At(s, k)) == s[k..k + 4]
  {
    var c: int := s[k + 2] as int + 0x100 * s[k + 3] as int;
    var b: int := s[k + 1] as int + 0x100 * c;
    DivMod256(s[k], b);
    DivMod256(s[k + 1], c);
    DivMod256(s[k + 2], s[k + 3]);
  }

  lemma {:induction false} I32RoundTrip(v: i32)
    ensures |I32Bytes(v)| == 4 && I32At(I32Bytes(v), 0) == v
  {
    U32RoundTrip(ToU32(v));
  }

  lemma {:induction false} I32BytesOfDecoded(s: seq<byte>, k: nat)
    requires k + 4 <= |s|
    ensures I32Bytes(I32At(s, k)) == s[k..k + 4]
  {
    U32BytesOfDecoded(s, k);
  }

  /** A field decodes the same wherever the surrounding bytes come from. */
  lemma U32AtFrame(s: seq<byte>, k: nat, t: seq<byte>, j: nat)
    requires k + 4 <= |s| && j + 4 <= |t| && s[k..k + 4] == t[j..j + 4]
    ensures U32At(s, k) == U32At(t, j) && I32At(s, k) == I32At(t, j)
  {
    assert s[k] == t[j] && s[k + 1] == t[j + 1] && s[k + 2] == t[j + 2] && s[k + 3] == t[j + 3] by {
      assert s[k..k + 4][0] == s[k] && s[k..k + 4][1] == s[k + 1];
      assert s[k..k + 4][2] == s[k + 2] && s[k..k + 4][3] == s[k + 3];
    }
  }

  lemma U16AtFrame(s: seq<byte>, k: nat, t: seq<byte>, j: nat)
    requires k + 2 <= |s| && j + 2 <= |t| && s[k..k + 2] == t[j..j + 2]
    ensures U16At(s, k) == U16At(t, j)
  {
    assert s[k..k + 2][0] == s[k] && s[k..k + 2][1] == s[k + 1];
  }

  /** A u32 field holds v when its four bytes are v's encoding. */
  lemma U32Field(s: seq<byte>, k: nat, v: u32)
    requires k + 4 <= |s|
    requires s[k] == U32Bytes(v)[0] && s[k + 1] == U32Bytes(v)[1]
    requires s[k + 2] == U32Bytes(v)[2] && s[k + 3] == U32Bytes(v)[3]
    ensures U32At(s, k) == v
  {
    U32RoundTrip(v);
  }

  lemma I32Field(s: seq<byte>, k: nat, v: i32)
    requires k + 4 <= |s|
    requires s[k] == I32Bytes(v)[0] && s[k + 1] == I32Bytes(v)[1]
    requires s[k + 2] == I32Bytes(v)[2] && s[k + 3] == I32Bytes(v)[3]
    ensures I32At(s, k) == v
  {
    I32RoundTrip(v);
  }

  lemma U16Field(s: seq<byte>, k: nat, v: u16)
    requires k + 2 <= |s|
    requires s[k] == U16Bytes(v)[0] && s[k + 1] == U16Bytes(v)[1]
    ensures U16At(s, k) == v
  {
    U16RoundTrip(v);
  }

  /** Appending bytes does not change a field that lies wholly before them. */
  lemma FieldsOfPrefix(s: seq<byte>, t: seq<byte>, k: nat)
    requires k + 2 <= |s|
    ensures U16At(s + t, k) == U16At(s, k)
    ensures k + 4 <= |s| ==> U32At(s + t, k) == U32At(s, k) && I32At(s + t, k) == I32At(s, k)
  {
  }

  /** A field read from a copy of its own bytes has the value it has in place. */
  lemma FieldOfSlice(s: seq<byte>, k: nat)
    requires k + 2 <= |s|
    ensures U16At(s[k..k + 2], 0) == U16At(s, k)
    ensures k + 4 <= |s| ==> U32At(s[k..k + 4], 0) == U32At(s, k) && I32At(s[k..k + 4], 0) == I32At(s, k)
  {
  }
}
