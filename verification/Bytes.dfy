/** Bytes, and the memory streams files are read from (core-interface/wav/dr_wav.h: `drwav__on_read_memory`,
    `drwav__on_seek_memory`). */
module Bytes {

  type Byte = b: nat | b < 256

  datatype Option<T> = None | Some(value: T)

  /** The signed 32-bit reading of a 32-bit field. */
  function ToInt32(x: nat): int {
    if x < 0x8000_0000 then x else x - 0x1_0000_0000
  }

  lemma SliceOfSlice(d: seq<Byte>, i: nat, j: nat, a: nat, b: nat)
    requires i <= j <= |d| && a <= b <= j - i
    ensures d[i..j][a..b] == d[i + a..i + b]
  {
    var s := d[i..j];
    forall k | 0 <= k < b - a
      ensures s[a..b][k] == d[i + a..i + b][k]
    {
      assert s[a..b][k] == s[a + k] == d[i + (a + k)];
    }
    assert s[a..b] == d[i + a..i + b];
  }

  class MemoryStream {
    const data: seq<Byte>
    var pos: nat                                // currentReadPos

    ghost predicate Valid()
      reads this
    {
      pos <= |data|
    }

    constructor (data: seq<Byte>, pos: nat)
      requires pos <= |data|
      ensures Valid() && this.data == data && this.pos == pos
    {
      this.data, this.pos := data, pos;
    }

    /** As many of the `n` bytes as there are. */
    method OnRead(n: nat) returns (bytes: seq<Byte>)
      requires Valid()
      modifies `pos
      ensures Valid() && pos == old(pos) + |bytes| && bytes == data[old(pos)..pos]
      ensures |bytes| == n <==> old(pos) + n <= |data|
      ensures |bytes| < n ==> pos == |data|
      ensures |bytes| <= n
    {
      var bytesRemaining := |data| - pos;
      var bytesToRead := n;
      if bytesToRead > bytesRemaining {
        bytesToRead := bytesRemaining;
      }
      bytes := data[pos..pos + bytesToRead];
      pos := pos + bytesToRead;
    }

    method OnSeek(offset: int, fromStart: bool) returns (ok: bool)
      requires Valid() && (fromStart ==> offset >= 0)
      modifies `pos
      ensures Valid()
      ensures ok <==> 0 <= (if fromStart then offset else old(pos) + offset) <= |data|
      ensures pos == if ok then (if fromStart then offset else old(pos) + offset) else old(pos)
    {
      if !fromStart {
        if offset > 0 {
          if pos + offset > |data| {
            return false;
          }
        } else {
          if pos < -offset {
            return false;
          }
        }
        pos := pos + offset;
      } else {
        if offset <= |data| {
          pos := offset;
        } else {
          return false;
        }
      }
      ok := true;
    }
  }
}
