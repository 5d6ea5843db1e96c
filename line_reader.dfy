/** `HttpServerHandler.ReadLine`: reads a stream one byte at a time up to the
    next LF, dropping every CR and turning each other byte into the
    character with that code. At the end of the stream it returns the
    sentinel "-1", and whatever it had gathered is lost. */
module LineReader {
  import opened Base
  import opened Transport

  /** What `ReadLine` returns when the stream ends before an LF. */
  const EndOfStream: string := "-1"

  /** The text of the bytes of a line: CR bytes dropped, every other byte
      the character with its code. */
  function LineText(bytes: seq<byte>): (s: string)
    ensures |s| <= |bytes|
    ensures forall i :: 0 <= i < |s| ==> s[i] != '\r' && s[i] as int < 256
    ensures LF !in bytes ==> '\n' !in s
  {
    if bytes == [] then []
    else
      var last := bytes[|bytes| - 1];
      LineText(bytes[..|bytes| - 1]) + if last == CR then [] else [Latin1(last)]
  }

  /** The line `ReadLine` returns on a stream holding `input`, and what is
      left of the stream after it. */
  function ReadLineSpec(input: seq<byte>): (r: (string, seq<byte>))
    ensures '\r' !in r.0 && '\n' !in r.0
    ensures LF !in input ==> r == (EndOfStream, [])
    ensures LF in input ==> |r.1| < |input|
  {
    match IndexOf(input, LF)
    case None => (EndOfStream, [])
    case Some(i) => (LineText(input[..i]), input[i + 1..])
  }

  /** Appending a CR to the line's bytes adds nothing to its text; any other
      byte adds its character. */
  lemma LineTextSnoc(bytes: seq<byte>, b: byte)
    ensures LineText(bytes + [b]) == LineText(bytes) + if b == CR then [] else [Latin1(b)]
  {
    assert (bytes + [b])[..|bytes|] == bytes;
  }

  /** Text of one-byte characters without CR, sent byte for byte, reads
      back as itself. */
  lemma {:induction false} LineTextLatin1(s: string)
    requires forall i :: 0 <= i < |s| ==> s[i] as int < 256
    requires '\r' !in s
    ensures LineText(Latin1Bytes(s)) == s
  {
    if s != [] {
      var init, c := s[..|s| - 1], s[|s| - 1];
      var bytes := Latin1Bytes(s);
      var b := bytes[|s| - 1];
      assert bytes == Latin1Bytes(init) + [b] by {
        assert bytes[..|s| - 1] == Latin1Bytes(init);
      }
      LineTextLatin1(init);
      LineTextSnoc(Latin1Bytes(init), b);
      assert b != CR && Latin1(b) == c;
      assert s == init + [c];
    }
  }

  lemma Latin1NoLF(s: string)
    requires forall i :: 0 <= i < |s| ==> s[i] as int < 256
    requires '\n' !in s
    ensures LF !in Latin1Bytes(s)
  {
  }

  /** A line that ends in LF is read as its text, and the stream is left
      just past the LF. */
  lemma ReadTerminatedLine(bytes: seq<byte>, rest: seq<byte>)
    requires LF !in bytes
    ensures ReadLineSpec(bytes + [LF] + rest) == (LineText(bytes), rest)
  {
    var s := bytes + [LF] + rest;
    assert s[..|bytes|] == bytes;
    assert s[|bytes| + 1..] == rest;
    IndexOfFirst(s, LF, |bytes|);
  }

  /** The same holds for a line that ends in CR LF: the CR is dropped. */
  lemma ReadCrlfLine(bytes: seq<byte>, rest: seq<byte>)
    requires LF !in bytes
    ensures ReadLineSpec(bytes + [CR, LF] + rest) == (LineText(bytes), rest)
  {
    var withCr := bytes + [CR];
    assert LF !in withCr;
    assert bytes + [CR, LF] == withCr + [LF] by {
      assert [CR, LF] == [CR] + [LF];
      Assoc(bytes, [CR], [LF]);
    }
    ReadTerminatedLine(withCr, rest);
    LineTextSnoc(bytes, CR);
    assert LineText(withCr) == LineText(bytes) + [];
    assert LineText(bytes) + [] == LineText(bytes);
  }

  /** Bytes after a line's LF do not change the line, and stay unread. */
  lemma ReadLineExtend(input: seq<byte>, extra: seq<byte>)
    requires LF in input
    ensures ReadLineSpec(input + extra) == (ReadLineSpec(input).0, ReadLineSpec(input).1 + extra)
  {
    var i := IndexOf(input, LF).value;
    var s := input + extra;
    assert s[..i] == input[..i];
    IndexOfFirst(s, LF, i);
    assert s[i + 1..] == input[i + 1..] + extra;
  }

  /** A stream that ends before any LF reads as "-1" and is used up, and a
      literal line "-1" reads the same: the caller cannot tell them apart. */
  lemma EndOfStreamLooksLikeLine(input: seq<byte>, rest: seq<byte>)
    requires LF !in input
    ensures ReadLineSpec(input) == (EndOfStream, [])
    ensures ReadLineSpec([45, 49, LF] + rest).0 == EndOfStream
  {
    ReadTerminatedLine([45, 49], rest);
    assert [45, 49, LF] + rest == [45, 49] + [LF] + rest;
    LineTextSnoc([], 45);
    LineTextSnoc([45], 49);
    assert [45] + [49] == [45, 49];
  }

  /** Moving the first unread byte to the bytes consumed. */
  lemma ConsumeOne(all: seq<byte>, consumed: seq<byte>, rest: seq<byte>)
    requires all == consumed + rest && rest != []
    ensures all == (consumed + [rest[0]]) + rest[1..]
  {
    assert rest == [rest[0]] + rest[1..];
  }

  /** `ReadLine(stream)`. */
  method ReadLine(conn: Connection) returns (line: string)
    modifies conn
    ensures (line, conn.incoming) == ReadLineSpec(old(conn.incoming))
    ensures conn.written == old(conn.written)
  {
    var headerLine: string := [];
    ghost var consumed: seq<byte> := [];
    while true
      invariant old(conn.incoming) == consumed + conn.incoming
      invariant LF !in consumed
      invariant headerLine == LineText(consumed)
      invariant conn.written == old(conn.written)
      decreases |conn.incoming|
    {
      ghost var before := conn.incoming;
      var data := conn.ReadByte();
      if before != [] {
        ConsumeOne(old(conn.incoming), consumed, before);
      }
      if data == CR as int {
        LineTextSnoc(consumed, CR);
        consumed := consumed + [CR];
        continue;
      } else if data == LF as int {
        IndexOfFirst(old(conn.incoming), LF, |consumed|);
        assert old(conn.incoming)[..|consumed|] == consumed;
        return headerLine;
      } else if data == -1 {
        assert old(conn.incoming) == consumed;
        return EndOfStream;
      } else {
        var b := data as byte;
        LineTextSnoc(consumed, b);
        consumed := consumed + [b];
        headerLine := headerLine + [Latin1(b)];
      }
    }
  }
}
