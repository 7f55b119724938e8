/** Bytes and the byte streams the process host reads from. */
module Streams {
  type Byte = x: int | 0 <= x < 0x100

  /**
   * A finite stream seen by a blocking reader. Each read returns at least one byte while any are left,
   * and how many it returns is not determined: every split into short reads is possible.
   */
  class InputStream {
    const data: seq<Byte>
    var position: nat

    ghost predicate Valid()
      reads this
    {
      position <= |data|
    }

    /** The bytes still to be read. */
    ghost function Left(): seq<Byte>
      reads this
      requires Valid()
    {
      data[position..]
    }

    constructor (data: seq<Byte>)
      ensures Valid() && Left() == data
    {
      this.data := data;
      position := 0;
    }

    method Read(buffer: array<Byte>, offset: nat, count: nat) returns (n: nat)
      requires Valid() && offset + count <= buffer.Length
      modifies this, buffer
      ensures Valid()
      ensures n <= count && n <= |old(Left())|
      ensures n == 0 <==> count == 0 || old(Left()) == []
      ensures Left() == old(Left())[n..]
      ensures buffer[..offset] == old(buffer[..offset])
      ensures buffer[offset..offset + n] == old(Left())[..n]
      ensures buffer[offset + n..] == old(buffer[offset + n..])
    {
      var available := |data| - position;
      if available == 0 || count == 0 { return 0; }
      n :| 1 <= n <= count && n <= available;
      var from := position;
      for i := 0 to n
        modifies buffer
        invariant forall k :: 0 <= k < offset ==> buffer[k] == old(buffer[k])
        invariant forall k :: offset <= k < offset + i ==> buffer[k] == data[from + k - offset]
        invariant forall k :: offset + i <= k < buffer.Length ==> buffer[k] == old(buffer[k])
      {
        buffer[offset + i] := data[from + i];
      }
      assert data[from..][..n] == data[from..from + n];
      ghost var got, wanted := buffer[offset..offset + n], data[from..from + n];
      forall k | 0 <= k < n ensures got[k] == wanted[k] {
        assert buffer[offset + k] == data[from + (offset + k) - offset];
      }
      position := position + n;
    }
  }

  /** What has been written so far, in order. */
  class OutputStream {
    var written: seq<Byte>

    constructor ()
      ensures written == []
    {
      written := [];
    }

    method Write(bytes: seq<Byte>)
      modifies this
      ensures written == old(written) + bytes
    {
      written := written + bytes;
    }
  }
}
