/** The `NetworkStream` over one accepted socket, as the handler sees it:
    the bytes the client sent (after which the client closes its side, so
    the stream ends) and the bytes the server writes back. */
module Transport {
  import opened Base

  /** How many bytes have reached the socket when a body read runs. A read on
      a socket waits until at least one byte has arrived or the client has
      closed, so this is never zero. */
  type Fragment = n: nat | n >= 1 witness 1

  class Connection {
    /** The bytes the client has sent that the server has not read yet. */
    var incoming: seq<byte>
    /** The bytes the server has written, in order. */
    var written: seq<byte>

    constructor (request: seq<byte>)
      ensures incoming == request && written == []
    {
      incoming := request;
      written := [];
    }

    /** `Stream.ReadByte()`: the next byte, or -1 once the stream has ended. */
    method ReadByte() returns (data: int)
      modifies this
      ensures old(incoming) == [] ==> data == -1 && incoming == []
      ensures old(incoming) != [] ==> data == old(incoming)[0] as int && incoming == old(incoming)[1..]
      ensures written == old(written)
    {
      if incoming == [] {
        data := -1;
      } else {
        data := incoming[0] as int;
        incoming := incoming[1..];
      }
    }

    /** `ReadAsync(buffer, 0, buffer.Length)`: copies the bytes that have
        arrived, at most `buffer.Length` of them, to the front of `buffer`
        and returns how many; 0 only when the stream has ended. */
    method Read(buffer: array<byte>, ready: Fragment) returns (count: nat)
      modifies this, buffer
      ensures count == Min(buffer.Length, Min(ready, |old(incoming)|))
      ensures buffer[..count] == old(incoming)[..count]
      ensures buffer[count..] == old(buffer[count..])
      ensures incoming == old(incoming)[count..] && written == old(written)
    {
      count := Min(buffer.Length, Min(ready, |incoming|));
      forall i | 0 <= i < count {
        buffer[i] := incoming[i];
      }
      incoming := incoming[count..];
    }

    /** `WriteAsync(data, 0, data.Length)`. */
    method Write(data: seq<byte>)
      modifies this
      ensures written == old(written) + data && incoming == old(incoming)
    {
      written := written + data;
    }
  }
}
