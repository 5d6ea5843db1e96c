/** The response half of `HandleRequestAsync`. Whatever the request, the
    handler answers `200 OK`: first the status line and the `Server` header,
    then `Content-Type` and a `Content-Length` that counts the UTF-8 bytes of
    the body, a blank line, and the body. The body echoes the request
    content, decoded from UTF-8, when there was a non-empty one, and is a
    fixed sentence otherwise; either way a CR LF and a timestamp follow. */
module Response {
  import opened Base
  import opened Text
  import opened Numbers
  import opened Utf8
  import opened Clock
  import opened Transport
  import opened LineReader
  import opened Request

  const Crlf: string := "\r\n"
  const StatusLine: string := "HTTP/1.1 200 OK"
  const ServerName: string := ".NET 6 Sockets"
  const ServerLine: string := "Server" + ": " + ServerName
  const ContentType: string := "text/html; charset=utf-8"
  const ContentTypeLine: string := "Content-Type" + ": " + ContentType
  const DefaultContent: string := "This is a default response content" + " by Simple-HTTP-Server..."

  /** The first token written. */
  const Preamble: string := StatusLine + Crlf + ServerLine + Crlf

  function ContentLengthLine(length: nat): string {
    ContentLengthName + ": " + Decimal(length)
  }

  /** The second token written: the content headers and the blank line. */
  function ContentHeaders(length: nat): string {
    ContentTypeLine + Crlf + ContentLengthLine(length) + Crlf + Crlf
  }

  /** The text in front of the timestamp: the decoded request content when
      the request carried at least one body byte, the default sentence when
      it carried none or had no `Content-Length`. */
  function ResponseText(contentBytes: Option<seq<byte>>): (r: string)
    ensures r != []
  {
    if contentBytes.Some? && |contentBytes.value| > 0 then Decode(contentBytes.value)
    else DefaultContent
  }

  /** `respBytes`, the third token written. */
  function ResponseBody(contentBytes: Option<seq<byte>>, stamp: string): seq<byte> {
    Encode(ResponseText(contentBytes) + Crlf + stamp)
  }

  /** The body is UTF-8 that decodes back to its text. */
  lemma ResponseBodyDecodes(contentBytes: Option<seq<byte>>, stamp: string)
    ensures Decode(ResponseBody(contentBytes, stamp)) == ResponseText(contentBytes) + Crlf + stamp
  {
    DecodeEncode(ResponseText(contentBytes) + Crlf + stamp);
  }

  /** The three tokens around a body. */
  function Frame(body: seq<byte>): seq<byte> {
    Encode(Preamble) + Encode(ContentHeaders(|body|)) + body
  }

  /** Everything the handler writes for one request. */
  function ResponseBytes(contentBytes: Option<seq<byte>>, stamp: string): seq<byte> {
    Frame(ResponseBody(contentBytes, stamp))
  }

  /** The three writes of the response, with the content decoded before
      them as the handler does. */
  method WriteResponse(conn: Connection, contentBytes: array?<byte>, content: string, now: Instant)
    requires contentBytes != null ==> content == Decode(contentBytes[..])
    modifies conn
    ensures conn.written == old(conn.written)
      + ResponseBytes(if contentBytes == null then None else Some(contentBytes[..]), Stamp(now))
    ensures conn.incoming == old(conn.incoming)
  {
    ghost var sent := if contentBytes == null then None else Some(contentBytes[..]);
    var headerToken1 := Encode(Preamble);
    conn.Write(headerToken1);
    var respBytes, headerToken2;
    if contentBytes != null && contentBytes.Length > 0 {
      respBytes := Encode(content + Crlf + Stamp(now));
      headerToken2 := Encode(ContentHeaders(|respBytes|));
      conn.Write(headerToken2);
    } else {
      respBytes := Encode(DefaultContent + Crlf + Stamp(now));
      headerToken2 := Encode(ContentHeaders(|respBytes|));
      conn.Write(headerToken2);
    }
    conn.Write(respBytes);
    assert respBytes == ResponseBody(sent, Stamp(now));
    assert headerToken1 + headerToken2 + respBytes == ResponseBytes(sent, Stamp(now));
    AppendAssoc(old(conn.written), headerToken1, headerToken2, respBytes);
  }

  lemma EncodeCrlf()
    ensures Encode(Crlf) == [CR, LF]
  {
    assert Crlf[1..] == "\n";
    assert Encode("\n") == [LF] + Encode([]);
  }

  /** A line, its CR LF and what follows, encoded. */
  lemma EncodeLine(line: string, rest: string)
    ensures Encode(line + Crlf + rest) == Encode(line) + [CR, LF] + Encode(rest)
  {
    EncodeAppend(line + Crlf, rest);
    EncodeAppend(line, Crlf);
    EncodeCrlf();
  }

  /** A request whose content is the UTF-8 encoding of non-empty text is
      answered with that text, byte for byte, then CR LF and the stamp. */
  lemma EchoResponse(text: string, stamp: string)
    requires text != ""
    ensures ResponseBody(Some(Encode(text)), stamp) == Encode(text) + [CR, LF] + Encode(stamp)
  {
    DecodeEncode(text);
    EncodeLine(text, stamp);
  }

  /** Without content the body is the default sentence, CR LF and the
      stamp: 87 bytes for any valid instant. */
  lemma DefaultResponse(contentBytes: Option<seq<byte>>, now: Instant)
    requires contentBytes == None || contentBytes == Some([])
    requires Valid(now)
    ensures ResponseBody(contentBytes, Stamp(now))
         == Encode(DefaultContent) + [CR, LF] + Encode(Stamp(now))
    ensures |ResponseBody(contentBytes, Stamp(now))| == 87
  {
    EncodeLine(DefaultContent, Stamp(now));
    DefaultContentIsAscii();
  }

  lemma DefaultContentIsAscii()
    ensures IsAscii(DefaultContent) && |DefaultContent| == 59
  {
    DefaultFrontAscii();
    DefaultBackAscii();
    AsciiAppend("This is a default response content", " by Simple-HTTP-Server...");
  }

  lemma DefaultFrontAscii()
    ensures IsAscii("This is a default response content")
  {
  }

  lemma DefaultBackAscii()
    ensures IsAscii(" by Simple-HTTP-Server...")
  {
  }

  /** Content that is not UTF-8 is not echoed as sent: a lone 0xFF byte
      comes back as the three bytes of U+FFFD. */
  lemma InvalidContentReplaced(stamp: string)
    ensures ResponseBody(Some([0xFF]), stamp) == [0xEF, 0xBF, 0xBD, CR, LF] + Encode(stamp)
  {
    DecodeInvalidByte(0xFF, []);
    assert [0xFF as byte] + [] == [0xFF];
    assert ResponseText(Some([0xFF])) == [Replacement];
    EncodeLine([Replacement], stamp);
    ReplacementBytes();
    assert [0xEF, 0xBF, 0xBD] + [CR, LF] == [0xEF, 0xBF, 0xBD, CR, LF];
  }

  /** An ASCII line without CR or LF, sent with CR LF, reads back as itself. */
  lemma ReadAsciiLine(line: string, rest: seq<byte>)
    requires IsAscii(line) && '\r' !in line && '\n' !in line
    ensures ReadLineSpec(Encode(line) + [CR, LF] + rest) == (line, rest)
  {
    EncodeIsLatin1(line);
    Latin1NoLF(line);
    LineTextLatin1(line);
    ReadCrlfLine(Encode(line), rest);
  }

  /** A header line the handler writes parses back into its name and value
      with the handler's own header parser. */
  lemma HeaderLineParses(name: string, value: string)
    requires ':' !in name
    requires value != [] && !IsWhiteSpace(value[0]) && !IsWhiteSpace(value[|value| - 1])
    ensures ParseHeaderLine(name + ": " + value) == Ok(Field(name, value))
  {
    var line := name + ": " + value;
    assert line == name + [':'] + (" " + value);
    assert line[..|name|] == name && line[|name| + 1..] == " " + value;
    IndexOfFirst(line, ':', |name|);
    TrimLeadingSpace(value);
  }

  /** The bytes of the response, line by line. */
  lemma FrameLayout(body: seq<byte>)
    ensures Frame(body)
        == Encode(StatusLine) + [CR, LF] + (Encode(ServerLine) + [CR, LF]
           + (Encode(ContentTypeLine) + [CR, LF] + (Encode(ContentLengthLine(|body|)) + [CR, LF]
           + ([CR, LF] + body))))
  {
    var length := ContentLengthLine(|body|);
    EncodeCrlf();
    EncodeLine(ServerLine, "");
    assert Encode(ServerLine + Crlf) == Encode(ServerLine) + [CR, LF] by {
      assert ServerLine + Crlf + "" == ServerLine + Crlf;
    }
    EncodeLine(StatusLine, ServerLine + Crlf);
    Assoc(StatusLine + Crlf, ServerLine, Crlf);
    EncodeAppend(length + Crlf, Crlf);
    EncodeAppend(length, Crlf);
    EncodeLine(ContentTypeLine, length + Crlf + Crlf);
    Assoc(ContentTypeLine + Crlf, length, Crlf);
    Assoc(ContentTypeLine + Crlf, length + Crlf, Crlf);
    Regroup(Encode(StatusLine), Encode(ServerLine), Encode(ContentTypeLine), Encode(length), [CR, LF], body);
  }

  lemma Regroup(a: seq<byte>, b: seq<byte>, c: seq<byte>, d: seq<byte>, n: seq<byte>, body: seq<byte>)
    ensures a + n + (b + n) + (c + n + (d + n + n)) + body
         == a + n + (b + n + (c + n + (d + n + (n + body))))
  {
  }

  /** The header lines the handler writes are ASCII and hold no line
      break. */
  predicate PlainLine(line: string) {
    IsAscii(line) && '\r' !in line && '\n' !in line
  }

  /** A header line followed by the rest of the head adds its field in front
      of the fields that follow. */
  lemma HeadStep(line: string, name: string, value: string, rest: seq<byte>)
    requires PlainLine(line) && ParseHeaderLine(line) == Ok(Field(name, value))
    ensures HeaderFields(Encode(line) + [CR, LF] + rest) == Prepend([Field(name, value)], HeaderFields(rest))
  {
    ReadAsciiLine(line, rest);
    HeaderFieldsStep(Encode(line) + [CR, LF] + rest);
  }

  /** A head of three plain header lines and a blank line parses into
      their three fields, and leaves exactly what follows the blank line. */
  lemma ThreeHeaders(l0: string, l1: string, l2: string, f0: Field, f1: Field, f2: Field, body: seq<byte>)
    requires PlainLine(l0) && ParseHeaderLine(l0) == Ok(f0)
    requires PlainLine(l1) && ParseHeaderLine(l1) == Ok(f1)
    requires PlainLine(l2) && ParseHeaderLine(l2) == Ok(f2)
    ensures HeaderFields(Encode(l0) + [CR, LF]
           + (Encode(l1) + [CR, LF] + (Encode(l2) + [CR, LF] + ([CR, LF] + body))))
         == Ok(([f0, f1, f2], body))
  {
    var r4 := [CR, LF] + body;
    var r3 := Encode(l2) + [CR, LF] + r4;
    var r2 := Encode(l1) + [CR, LF] + r3;
    BlankLine(body);
    HeadStep(l2, f2.name, f2.value, r4);
    HeadStep(l1, f1.name, f1.value, r3);
    HeadStep(l0, f0.name, f0.value, r2);
    Chain(HeaderFields(Encode(l0) + [CR, LF] + r2), HeaderFields(r2), HeaderFields(r3), HeaderFields(r4),
      f0, f1, f2, body);
  }

  /** The blank line ends the head. */
  lemma BlankLine(body: seq<byte>)
    ensures HeaderFields([CR, LF] + body) == Ok(([], body))
  {
    ReadCrlfLine([], body);
    assert [] + [CR, LF] + body == [CR, LF] + body;
  }

  lemma Chain(h1: Result<(seq<Field>, seq<byte>)>, h2: Result<(seq<Field>, seq<byte>)>,
              h3: Result<(seq<Field>, seq<byte>)>, h4: Result<(seq<Field>, seq<byte>)>,
              f0: Field, f1: Field, f2: Field, body: seq<byte>)
    requires h4 == Ok(([], body))
    requires h3 == Prepend([f2], h4) && h2 == Prepend([f1], h3) && h1 == Prepend([f0], h2)
    ensures h1 == Ok(([f0, f1, f2], body))
  {
    assert [f2] + [] == [f2];
    assert [f1] + [f2] == [f1, f2];
    assert [f0] + [f1, f2] == [f0, f1, f2];
  }

  /** The header fields the handler writes for a body of `length` bytes. */
  function WrittenFields(length: nat): seq<Field> {
    [Field("Server", ServerName), Field("Content-Type", ContentType),
     Field(ContentLengthName, Decimal(length))]
  }

  /** What follows the status line: the header lines, the blank line and
      the body. */
  function Head(body: seq<byte>): seq<byte> {
    Encode(ServerLine) + [CR, LF]
      + (Encode(ContentTypeLine) + [CR, LF] + (Encode(ContentLengthLine(|body|)) + [CR, LF]
      + ([CR, LF] + body)))
  }

  /** Around any body, the tokens read back as the status line, the three
      headers, and then exactly the body. */
  lemma FrameParses(body: seq<byte>)
    ensures ReadLineSpec(Frame(body)) == (StatusLine, Head(body))
    ensures HeaderFields(Head(body)) == Ok((WrittenFields(|body|), body))
  {
    FrameLayout(body);
    StatusLinePlain();
    ReadAsciiLine(StatusLine, Head(body));
    HeadParses(body);
  }

  lemma HeadParses(body: seq<byte>)
    ensures HeaderFields(Head(body)) == Ok((WrittenFields(|body|), body))
  {
    ServerHeader();
    ContentTypeHeader();
    ContentLengthHeader(|body|);
    ThreeHeaders(ServerLine, ContentTypeLine, ContentLengthLine(|body|),
      Field("Server", ServerName), Field("Content-Type", ContentType),
      Field(ContentLengthName, Decimal(|body|)), body);
  }

  lemma ServerHeader()
    ensures PlainLine(ServerLine) && ParseHeaderLine(ServerLine) == Ok(Field("Server", ServerName))
  {
    HeaderLine("Server", ServerName);
  }

  lemma ContentTypeHeader()
    ensures PlainLine(ContentTypeLine) && ParseHeaderLine(ContentTypeLine) == Ok(Field("Content-Type", ContentType))
  {
    ContentTypeParts();
    HeaderLine("Content-Type", ContentType);
  }

  lemma ContentTypeParts()
    ensures PlainLine("Content-Type") && ':' !in "Content-Type"
    ensures PlainLine(ContentType) && ContentType != []
    ensures !IsWhiteSpace(ContentType[0]) && !IsWhiteSpace(ContentType[|ContentType| - 1])
  {
    ContentTypeNamePlain();
    ContentTypePlain();
  }

  lemma ContentTypeNamePlain()
    ensures PlainLine("Content-Type") && ':' !in "Content-Type"
  {
  }

  lemma ContentTypePlain()
    ensures PlainLine(ContentType)
  {
  }

  lemma ContentLengthHeader(length: nat)
    ensures PlainLine(ContentLengthLine(length))
    ensures ParseHeaderLine(ContentLengthLine(length)) == Ok(Field(ContentLengthName, Decimal(length)))
  {
    var digits := Decimal(length);
    assert PlainLine(digits);
    HeaderLine(ContentLengthName, digits);
  }

  /** A header line built from a plain name without a colon and a plain
      trimmed value is plain and parses back into the two. */
  lemma HeaderLine(name: string, value: string)
    requires PlainLine(name) && ':' !in name
    requires PlainLine(value) && value != [] && !IsWhiteSpace(value[0]) && !IsWhiteSpace(value[|value| - 1])
    ensures PlainLine(name + ": " + value)
    ensures ParseHeaderLine(name + ": " + value) == Ok(Field(name, value))
  {
    HeaderLineParses(name, value);
    PlainJoin(name, value);
  }

  lemma PlainJoin(name: string, value: string)
    requires PlainLine(name) && PlainLine(value)
    ensures PlainLine(name + ": " + value)
  {
    var sep := ": ";
    assert PlainLine(sep);
    AsciiAppend(name, sep);
    AsciiAppend(name + sep, value);
  }

  lemma StatusLinePlain()
    ensures PlainLine(StatusLine)
  {
  }

  /** The `Content-Length` the handler writes is read back, by the handler's
      own rules, as the number of body bytes. */
  lemma WrittenContentLength(length: nat)
    requires length <= Int32Max
    ensures ContentLength(Collect(WrittenFields(length))) == Ok(Some(length))
  {
    var fields := WrittenFields(length);
    CollectFirstWins(fields, 2);
    ContentLengthOfDecimal(Collect(fields), length);
  }

  /** The response frames itself: read with the handler's own line reader
      and header parser, it gives the status line, the three headers, and
      exactly the body after the blank line, and its `Content-Length` is the
      body's length in bytes. */
  lemma ResponseFraming(contentBytes: Option<seq<byte>>, stamp: string)
    ensures var body := ResponseBody(contentBytes, stamp);
      var (status, head) := ReadLineSpec(ResponseBytes(contentBytes, stamp));
      && status == StatusLine
      && HeaderFields(head) == Ok((WrittenFields(|body|), body))
      && (|body| <= Int32Max ==> ContentLength(Collect(WrittenFields(|body|))) == Ok(Some(|body|)))
  {
    var body := ResponseBody(contentBytes, stamp);
    FrameParses(body);
    if |body| <= Int32Max {
      WrittenContentLength(|body|);
    }
  }
}
