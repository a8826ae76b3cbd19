/** java.io input and output streams as objects whose position and written
    bytes change as they are used. */
module Streams {
  import opened Common

  /** An input stream over a fixed byte sequence. How many bytes one
      `read(buffer)` call returns is the stream's choice; only the bounds
      that java.io.InputStream promises are fixed here. */
  class InputStream {
    const data: seq<byte>
    var pos: nat
    var closed: bool

    ghost predicate Valid()
      reads this
    {
      pos <= |data|
    }

    /** The bytes not yet delivered. */
    function Remaining(): seq<byte>
      reads this
      requires Valid()
    {
      data[pos..]
    }

    constructor (data: seq<byte>)
      ensures Valid() && this.data == data && pos == 0 && !closed
    {
      this.data := data;
      pos := 0;
      closed := false;
    }

    /** `read(buffer)` with a buffer of `capacity` bytes: -1 at end of
        stream, 0 for an empty buffer, otherwise between 1 and `capacity`
        bytes, handed back in `chunk`. */
    method Read(capacity: nat) returns (n: int, chunk: seq<byte>)
      requires Valid()
      modifies this
      ensures Valid() && closed == old(closed)
      ensures old(pos) == |data| && capacity > 0 ==> n == -1 && chunk == [] && pos == old(pos)
      ensures capacity == 0 ==> n == 0 && chunk == [] && pos == old(pos)
      ensures old(pos) < |data| && capacity > 0 ==> 1 <= n <= capacity && pos == old(pos) + n
      ensures chunk == data[old(pos)..pos]
    {
      if capacity == 0 {
        n, chunk := 0, [];
      } else if pos == |data| {
        n, chunk := -1, [];
      } else {
        assert 1 <= 1 <= capacity && pos + 1 <= |data|;
        var k :| 1 <= k <= capacity && pos + k <= |data|;
        n, chunk := k, data[pos..pos + k];
        pos := pos + k;
      }
    }

    method Close()
      modifies this
      ensures closed && pos == old(pos)
    {
      closed := true;
    }
  }

  /** An output stream that records every byte written to it. */
  class OutputStream {
    var written: seq<byte>
    var closed: bool

    constructor ()
      ensures written == [] && !closed
    {
      written := [];
      closed := false;
    }

    /** `write(buffer, 0, len)` of the bytes in `chunk`. */
    method Write(chunk: seq<byte>)
      modifies this
      ensures written == old(written) + chunk && closed == old(closed)
    {
      written := written + chunk;
    }

    method Close()
      modifies this
      ensures closed && written == old(written)
    {
      closed := true;
    }
  }
}
