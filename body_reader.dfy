/** The `Content-Length` body loop of `HandleRequestAsync`. It allocates
    `contentBytes` of the announced length, then, while `canRead > 0`, reads
    into a fresh buffer of `min(canRead, 1024)` bytes, skips a read that
    returned nothing, copies the WHOLE buffer into `contentBytes` at offset
    `total - canRead`, and subtracts the count. The bytes of the buffer past
    the count are zeros that the next copy overwrites. */
module BodyReader {
  import opened Base
  import opened Transport

  const BufferSize: nat := 1024

  /** The length of the buffer the next read asks to fill. */
  function RequestSize(canRead: nat): (n: nat)
    ensures n <= canRead && n <= BufferSize
    ensures canRead > 0 ==> n > 0
    ensures n == canRead || n == BufferSize
  {
    if canRead > BufferSize then BufferSize else canRead
  }

  /** `src.CopyTo(dst, offset)`: all of `src` lands at `offset`, the rest of
      `dst` is untouched. */
  method CopyTo(src: array<byte>, dst: array<byte>, offset: nat)
    requires offset + src.Length <= dst.Length && src != dst
    modifies dst
    ensures dst[..offset] == old(dst[..offset])
    ensures dst[offset..offset + src.Length] == src[..]
    ensures dst[offset + src.Length..] == old(dst[offset + src.Length..])
  {
    forall i | 0 <= i < src.Length {
      dst[offset + i] := src[i];
    }
  }

  /** One pass through the loop body: a fresh zeroed buffer of
      `RequestSize(canRead)` bytes is filled by one read and, unless the read
      returned nothing, copied whole into `contentBytes` at `total - canRead`.
      Stated against `input`, everything the client sent: the bytes received
      land right after those already held, and past them `contentBytes`
      stays all zeros. */
  method ReadChunk(conn: Connection, contentBytes: array<byte>, total: nat, canRead: nat, ready: Fragment,
                   ghost input: seq<byte>)
    returns (count: nat)
    requires contentBytes.Length == total && 0 < canRead <= total && total - canRead <= |input|
    requires conn.incoming == input[total - canRead..]
    requires contentBytes[..total - canRead] == input[..total - canRead]
    requires forall i :: total - canRead <= i < total ==> contentBytes[i] == 0
    modifies conn, contentBytes
    ensures count == Min(RequestSize(canRead), Min(ready, |input| - (total - canRead)))
    ensures conn.incoming == input[total - canRead + count..] && conn.written == old(conn.written)
    ensures contentBytes[..total - canRead + count] == input[..total - canRead + count]
    ensures forall i :: total - canRead + count <= i < total ==> contentBytes[i] == 0
  {
    var offset := total - canRead;
    var buffer := new byte[RequestSize(canRead)](_ => 0);
    count := conn.Read(buffer, ready);
    if count <= 0 {
      assert input[offset + count..] == input[offset..];
      return;
    }
    assert input[offset..][count..] == input[offset + count..];
    ghost var before := contentBytes[..];
    assert forall i :: count <= i < buffer.Length ==> buffer[i] == buffer[count..][i - count];
    CopyTo(buffer, contentBytes, offset);
    Landed(before, contentBytes[..], buffer[..], input, offset, count);
  }

  /** The sequence facts behind `ReadChunk`: `after` is `before` with the
      whole buffer copied in at `offset`, and the buffer holds the `count`
      bytes read followed by zeros. */
  lemma Landed(before: seq<byte>, after: seq<byte>, buffer: seq<byte>, input: seq<byte>, offset: nat, count: nat)
    requires |after| == |before| && offset + |buffer| <= |before| && count <= |buffer|
    requires offset + count <= |input|
    requires before[..offset] == input[..offset]
    requires forall i :: offset <= i < |before| ==> before[i] == 0
    requires buffer[..count] == input[offset..][..count]
    requires forall i :: count <= i < |buffer| ==> buffer[i] == 0
    requires after[..offset] == before[..offset]
    requires after[offset..offset + |buffer|] == buffer
    requires after[offset + |buffer|..] == before[offset + |buffer|..]
    ensures after[..offset + count] == input[..offset + count]
    ensures forall i :: offset + count <= i < |after| ==> after[i] == 0
  {
    assert after[..offset + count] == after[..offset] + after[offset..offset + |buffer|][..count];
    PrefixExtend(input, offset, count);
    forall i | offset + count <= i < |after|
      ensures after[i] == 0
    {
      if i < offset + |buffer| {
        assert after[i] == after[offset..offset + |buffer|][i - offset];
      } else {
        assert after[i] == after[offset + |buffer|..][i - offset - |buffer|];
      }
    }
  }

  /** A prefix followed by the next `count` elements is the longer prefix. */
  lemma PrefixExtend(s: seq<byte>, offset: nat, count: nat)
    requires offset + count <= |s|
    ensures s[..offset] + s[offset..][..count] == s[..offset + count]
  {
  }

  /** What the loop as written still wants once the reads whose arrivals
      are listed from index `k` on have run, when it now wants `canRead`
      bytes and the client has `available` bytes left to give before
      closing. Each read takes what fits the buffer, has arrived and is
      left; a read after the client closed takes nothing. */
  function Remaining(canRead: nat, available: nat, arrivals: seq<Fragment>, k: nat): (r: nat)
    ensures r <= canRead && canRead - r <= available
    ensures canRead <= available && k + canRead <= |arrivals| ==> r == 0
    decreases |arrivals| - k
  {
    if canRead == 0 || k >= |arrivals| then canRead
    else
      var count := Min(RequestSize(canRead), Min(arrivals[k], available));
      Remaining(canRead - count, available - count, arrivals, k + 1)
  }

  /** Once the client has closed, a read returns 0 and changes nothing, so
      a body the client cut short is never complete: after any number of
      reads the loop as written has every byte that was sent and still
      wants the rest. */
  lemma {:induction false} ShortBodyStalls(canRead: nat, available: nat, arrivals: seq<Fragment>, k: nat)
    requires available < canRead && k + available <= |arrivals|
    ensures Remaining(canRead, available, arrivals, k) == canRead - available > 0
    decreases |arrivals| - k
  {
    if available > 0 {
      var count := Min(RequestSize(canRead), Min(arrivals[k], available));
      ShortBodyStalls(canRead - count, available - count, arrivals, k + 1);
    }
  }

  /** The loop exactly as written, observed over the reads in `arrivals`
      (a socket read waits for data, so `arrivals[k]` is how much had come
      in when the k-th read ran). `canRead` is what is still missing when
      the observed reads are used up; the code itself would go on reading. */
  method ReceiveBodyAsWritten(conn: Connection, total: nat, arrivals: seq<Fragment>)
    returns (contentBytes: array<byte>, canRead: nat)
    modifies conn
    ensures fresh(contentBytes) && contentBytes.Length == total
    ensures canRead == Remaining(total, |old(conn.incoming)|, arrivals, 0)
    ensures contentBytes[..total - canRead] == old(conn.incoming)[..total - canRead]
    ensures forall i :: total - canRead <= i < total ==> contentBytes[i] == 0
    ensures conn.incoming == old(conn.incoming)[total - canRead..]
    ensures conn.written == old(conn.written)
  {
    ghost var input := conn.incoming;
    canRead := total;
    contentBytes := new byte[total](_ => 0);
    var k := 0;
    while canRead > 0 && k < |arrivals|
      invariant contentBytes.Length == total
      invariant canRead <= total && k <= |arrivals|
      invariant total - canRead <= |input|
      invariant Remaining(total, |input|, arrivals, 0)
             == Remaining(canRead, |input| - (total - canRead), arrivals, k)
      invariant conn.incoming == input[total - canRead..]
      invariant contentBytes[..total - canRead] == input[..total - canRead]
      invariant forall i :: total - canRead <= i < total ==> contentBytes[i] == 0
      invariant conn.written == old(conn.written)
    {
      var count := ReadChunk(conn, contentBytes, total, canRead, arrivals[k], input);
      k := k + 1;
      if count <= 0 {
        continue;
      }
      canRead := canRead - count;
    }
  }

  /** The arrival for the k-th read: listed ones first, and after the list a
      read finds everything it asks for already there. */
  function Arrival(arrivals: seq<Fragment>, k: nat): Fragment {
    if k < |arrivals| then arrivals[k] else BufferSize
  }

  /** The loop with a read of 0 bytes taken for what it is on a socket, the
      end of the stream: the request fails with the number of bytes that
      never came. The body is the first `total` bytes the client sent,
      however the transport splits them into reads. */
  method ReceiveBody(conn: Connection, total: nat, arrivals: seq<Fragment>)
    returns (contentBytes: array<byte>, missing: nat)
    modifies conn
    ensures fresh(contentBytes) && contentBytes.Length == total
    ensures missing == if total <= |old(conn.incoming)| then 0 else total - |old(conn.incoming)|
    ensures missing == 0 ==> contentBytes[..] == old(conn.incoming)[..total]
    ensures conn.incoming == if missing == 0 then old(conn.incoming)[total..] else []
    ensures conn.written == old(conn.written)
  {
    ghost var input := conn.incoming;
    var canRead: nat := total;
    contentBytes := new byte[total](_ => 0);
    var k := 0;
    while canRead > 0
      invariant contentBytes.Length == total
      invariant canRead <= total
      invariant total - canRead <= |input|
      invariant conn.incoming == input[total - canRead..]
      invariant contentBytes[..total - canRead] == input[..total - canRead]
      invariant forall i :: total - canRead <= i < total ==> contentBytes[i] == 0
      invariant conn.written == old(conn.written)
    {
      var count := ReadChunk(conn, contentBytes, total, canRead, Arrival(arrivals, k), input);
      k := k + 1;
      if count == 0 {
        return contentBytes, canRead;
      }
      canRead := canRead - count;
    }
    assert contentBytes[..] == contentBytes[..total];
    missing := 0;
  }
}
