/** The two file handles the codec uses, modelled on byte sequences: an opened
    file being read (`os.Open` followed by `Read` and `Seek`) and a file being
    created and written (`os.Create` followed by `Write`). Opening, closing and
    I/O failures other than running out of data are not modelled. */
module Streams {
  import opened Wrappers
  import opened LittleEndian

  /** How many bytes one `os.File.Read` into a buffer of `want` bytes delivers at
      offset `pos` of a file of `size` bytes: what is left, capped at the buffer. */
  function ReadCount(size: int, pos: int, want: nat): (n: nat)
    ensures n <= want
    ensures pos < size ==> pos + n <= size
    ensures n < want ==> pos + n >= size
    ensures n > 0 ==> pos < size
  {
    if pos >= size then 0 else if want <= size - pos then want else size - pos
  }

  /** An open file: its contents and the cursor. The cursor may lie past the end,
      since seeking does not check the file's length. */
  class Reader {
    const data: seq<byte>
    var pos: nat

    constructor (data: seq<byte>)
      ensures this.data == data && pos == 0
    {
      this.data := data;
      pos := 0;
    }

    /** `Seek(offset, io.SeekCurrent)` with a non-negative offset: always succeeds. */
    method Seek(offset: nat)
      modifies this
      ensures pos == old(pos) + offset
    {
      pos := pos + offset;
    }

    /** `Read(buf)`: copies as much as is left into the front of `buf` and leaves
        the rest of `buf` as it was. It reports end of file only when `buf` is
        non-empty and nothing is left; a short read is not an error. */
    method Read(buf: array<byte>) returns (n: nat, eof: bool)
      modifies this, buf
      ensures eof <==> buf.Length > 0 && old(pos) >= |data|
      ensures n == ReadCount(|data|, old(pos), buf.Length)
      ensures pos == old(pos) + n
      ensures old(pos) + n <= |data| || n == 0
      ensures forall i :: 0 <= i < n ==> buf[i] == data[old(pos) + i]
      ensures forall i :: n <= i < buf.Length ==> buf[i] == old(buf[i])
    {
      eof := buf.Length > 0 && pos >= |data|;
      n := ReadCount(|data|, pos, buf.Length);
      var i := 0;
      while i < n
        invariant 0 <= i <= n
        invariant pos == old(pos)
        invariant forall j :: 0 <= j < i ==> buf[j] == data[pos + j]
        invariant forall j :: i <= j < buf.Length ==> buf[j] == old(buf[j])
      {
        buf[i] := data[pos + i];
        i := i + 1;
      }
      pos := pos + n;
    }

    /** `binary.Read` of a fixed-size field reads its bytes with `io.ReadFull`:
        it fails unless all of them are left. */
    method ReadFull(size: nat) returns (r: Option<seq<byte>>)
      modifies this
      ensures old(pos) + size <= |data| ==> r == Some(data[old(pos)..old(pos) + size]) && pos == old(pos) + size
      ensures old(pos) + size > |data| ==> r == None
    {
      if pos + size <= |data| {
        r := Some(data[pos..pos + size]);
        pos := pos + size;
      } else {
        r := None;
        if pos < |data| {
          pos := |data|;
        }
      }
    }

    /** `binary.Read` into a `uint16`. */
    method ReadU16() returns (r: Option<u16>)
      modifies this
      ensures old(pos) + 2 <= |data| ==> r == Some(U16At(data, old(pos))) && pos == old(pos) + 2
      ensures old(pos) + 2 > |data| ==> r == None
    {
      var bytes := ReadFull(2);
      if bytes.None? {
        return None;
      }
      FieldOfSlice(data, old(pos));
      r := Some(U16At(bytes.value, 0));
    }

    /** `binary.Read` into a `uint32`. */
    method ReadU32() returns (r: Option<u32>)
      modifies this
      ensures old(pos) + 4 <= |data| ==> r == Some(U32At(data, old(pos))) && pos == old(pos) + 4
      ensures old(pos) + 4 > |data| ==> r == None
    {
      var bytes := ReadFull(4);
      if bytes.None? {
        return None;
      }
      FieldOfSlice(data, old(pos));
      r := Some(U32At(bytes.value, 0));
    }

    /** `binary.Read` into an `int32`. */
    method ReadI32() returns (r: Option<i32>)
      modifies this
      ensures old(pos) + 4 <= |data| ==> r == Some(I32At(data, old(pos))) && pos == old(pos) + 4
      ensures old(pos) + 4 > |data| ==> r == None
    {
      var bytes := ReadFull(4);
      if bytes.None? {
        return None;
      }
      FieldOfSlice(data, old(pos));
      r := Some(I32At(bytes.value, 0));
    }
  }

  /** A file being written: everything written so far. */
  class Writer {
    var written: seq<byte>

    constructor ()
      ensures written == []
    {
      written := [];
    }

    /** `Write(bytes)`: appends all of `bytes`. */
    method Write(bytes: seq<byte>)
      modifies this
      ensures written == old(written) + bytes
    {
      written := written + bytes;
    }
  }
}
