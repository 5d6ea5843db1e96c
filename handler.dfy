/** `HandleRequestAsync`: one request read from an accepted connection and
    answered. A stream that ends before the first line break, or whose first
    line is the text "-1", is dropped without a word; a request the parser
    rejects throws before anything is written; every other request gets the
    `200 OK` response. */
module Handler {
  import opened Base
  import opened Text
  import opened Numbers
  import opened Utf8
  import opened Clock
  import opened Transport
  import opened LineReader
  import opened Request
  import opened BodyReader
  import opened Response

  datatype Outcome =
    | NoRequest          // the start line was the end-of-stream sentinel
    | Responded          // the response was written
    | Failed(error: Failure)  // the handler threw; nothing was written

  /** What the handler does on a connection whose client sends `input` and
      then closes: how the call ends and the bytes it writes. */
  function Exchange(input: seq<byte>, now: Instant): (r: (Outcome, seq<byte>))
    ensures r.0 == Responded <==> r.1 != []
  {
    var (startLine, afterStart) := ReadLineSpec(input);
    if startLine == EndOfStream then (NoRequest, [])
    else match ParseStartLine(startLine)
      case Err(e) => (Failed(e), [])
      case Ok(_) =>
        match HeaderFields(afterStart)
        case Err(e) => (Failed(e), [])
        case Ok((fields, afterHeaders)) => Reply(Collect(fields), afterHeaders, now)
  }

  /** The part after the header loop: the body announced by the headers is
      taken from `rest`, and the response is written around it. */
  function Reply(headers: map<string, string>, rest: seq<byte>, now: Instant): (r: (Outcome, seq<byte>))
    ensures r.0 == Responded <==> r.1 != []
  {
    match ContentLength(headers)
    case Err(e) => (Failed(e), [])
    case Ok(None) => (Responded, ResponseBytes(None, Stamp(now)))
    case Ok(Some(total)) =>
      if |rest| < total then (Failed(PrematureClose(total - |rest|)), [])
      else (Responded, ResponseBytes(Some(rest[..total]), Stamp(now)))
  }

  /** The handler, with the clock reading and the sizes of the body reads
      passed in. */
  method HandleRequest(conn: Connection, now: Instant, arrivals: seq<Fragment>) returns (outcome: Outcome)
    modifies conn
    ensures outcome == Exchange(old(conn.incoming), now).0
    ensures conn.written == old(conn.written) + Exchange(old(conn.incoming), now).1
  {
    var startLine := ReadLine(conn);
    if startLine == EndOfStream {
      return NoRequest;
    }
    var start := ParseStartLine(startLine);
    if start.Err? {
      return Failed(start.error);
    }
    var headers := ReadHeaders(conn);
    if headers.Err? {
      return Failed(headers.error);
    }
    outcome := Respond(conn, headers.value, now, arrivals);
  }

  /** Reading the body the headers announce, then writing the response. */
  method Respond(conn: Connection, headers: map<string, string>, now: Instant, arrivals: seq<Fragment>)
    returns (outcome: Outcome)
    modifies conn
    ensures outcome == Reply(headers, old(conn.incoming), now).0
    ensures conn.written == old(conn.written) + Reply(headers, old(conn.incoming), now).1
  {
    var content := "";
    var contentBytes: array?<byte> := null;
    var length := ContentLength(headers);
    if length.Err? {
      return Failed(length.error);
    }
    if length.value.Some? {
      var total := length.value.value;
      var received, missing := ReceiveBody(conn, total, arrivals);
      if missing > 0 {
        return Failed(PrematureClose(missing));
      }
      contentBytes := received;
      content := Decode(contentBytes[..]);
    }
    WriteResponse(conn, contentBytes, content, now);
    return Responded;
  }

  /** Once a request has been answered, whatever the client sends after it
      changes nothing: not the outcome and not a byte of the response. In
      particular a request without `Content-Length` gets the default
      response whatever follows its blank line. */
  lemma CompleteRequestIgnoresRest(input: seq<byte>, extra: seq<byte>, now: Instant)
    requires Exchange(input, now).0 == Responded
    ensures Exchange(input + extra, now) == Exchange(input, now)
  {
    var (startLine, afterStart) := ReadLineSpec(input);
    assert LF in input;
    ReadLineExtend(input, extra);
    HeaderFieldsExtend(afterStart, extra);
    var (fields, afterHeaders) := HeaderFields(afterStart).value;
    ReplyIgnoresRest(Collect(fields), afterHeaders, extra, now);
  }

  lemma ReplyIgnoresRest(headers: map<string, string>, rest: seq<byte>, extra: seq<byte>, now: Instant)
    requires Reply(headers, rest, now).0 == Responded
    ensures Reply(headers, rest + extra, now) == Reply(headers, rest, now)
  {
    match ContentLength(headers)
    case Ok(Some(total)) =>
      var body := rest[..total];
      assert (rest + extra)[..total] == body;
    case _ =>
  }

  /** A stream that ends before any line break, and one whose first line is
      "-1", both end the call with nothing written. */
  lemma SentinelDropsConnection(input: seq<byte>, rest: seq<byte>, now: Instant)
    ensures LF !in input ==> Exchange(input, now) == (NoRequest, [])
    ensures Exchange([45, 49, LF] + rest, now) == (NoRequest, [])
  {
    if LF !in input {
      EndOfStreamLooksLikeLine(input, rest);
    } else {
      EndOfStreamLooksLikeLine([], rest);
    }
  }

  /** A start line without "HTTP/", or that does not split into exactly
      three fields, fails the request before anything is written. */
  lemma BadStartLineRejected(line: seq<byte>, rest: seq<byte>, now: Instant)
    requires LF !in line
    requires LineText(line) != EndOfStream
    requires !Contains(LineText(line), VersionToken) || multiset(LineText(line))[' '] != 2
    ensures Exchange(line + [LF] + rest, now) == (Failed(MalformedStartLine(LineText(line))), [])
  {
    ReadTerminatedLine(line, rest);
  }

  /** After a good start line and any number of good header lines, a
      header line without a colon fails the request; no body is read and
      nothing is written. */
  lemma HeaderWithoutColonRejected(start: seq<byte>, lines: seq<seq<byte>>, header: seq<byte>,
                                   rest: seq<byte>, now: Instant)
    requires LF !in start
    requires LineText(start) != EndOfStream && ParseStartLine(LineText(start)).Ok?
    requires GoodLines(lines)
    requires LF !in header && LineText(header) != "" && ':' !in LineText(header)
    ensures Exchange(start + [LF] + (Block(lines) + (header + [LF] + rest)), now)
         == (Failed(MalformedHeaderLine(LineText(header))), [])
  {
    ReadTerminatedLine(start, Block(lines) + (header + [LF] + rest));
    HeaderBlockBadLine(lines, header, rest);
  }

  /** After a good start line and any number of good header lines, a client
      that closes before the next LF fails the request with the sentinel as
      the bad line, and nothing is written. */
  lemma HeadersCutRejected(start: seq<byte>, lines: seq<seq<byte>>, cut: seq<byte>, now: Instant)
    requires LF !in start
    requires LineText(start) != EndOfStream && ParseStartLine(LineText(start)).Ok?
    requires GoodLines(lines)
    requires LF !in cut
    ensures Exchange(start + [LF] + (Block(lines) + cut), now)
         == (Failed(MalformedHeaderLine(EndOfStream)), [])
  {
    ReadTerminatedLine(start, Block(lines) + cut);
    HeadersCutShort(lines, cut);
  }

  const HttpVersion: string := "HTTP/1.1"

  /** A request with one header, `Content-Length: length`, followed by the
      bytes `sent`. */
  function PostRequest(verb: string, target: string, length: nat, sent: seq<byte>): seq<byte> {
    Encode(verb + " " + target + " " + HttpVersion) + [CR, LF]
      + (Encode(ContentLengthLine(length)) + [CR, LF] + ([CR, LF] + sent))
  }

  lemma VersionPlain()
    ensures PlainLine(HttpVersion) && ' ' !in HttpVersion && Contains(HttpVersion, VersionToken)
  {
    assert OccursAt(HttpVersion, VersionToken, 0);
  }

  /** The start line of such a request is plain and accepted. */
  lemma PostStartLine(verb: string, target: string)
    requires PlainLine(verb) && ' ' !in verb && PlainLine(target) && ' ' !in target
    ensures PlainLine(verb + " " + target + " " + HttpVersion)
    ensures ParseStartLine(verb + " " + target + " " + HttpVersion).Ok?
  {
    VersionPlain();
    var space := " ";
    assert PlainLine(space);
    AsciiAppend(verb, space);
    AsciiAppend(verb + space, target);
    AsciiAppend(verb + space + target, space);
    AsciiAppend(verb + space + target + space, HttpVersion);
    StartLineOfWords(verb, target, HttpVersion);
  }

  /** Such a request reads as its start line, then the one header, then
      exactly the bytes sent. */
  lemma PostRequestParses(verb: string, target: string, length: nat, sent: seq<byte>)
    requires PlainLine(verb) && ' ' !in verb && PlainLine(target) && ' ' !in target
    ensures var (line, head) := ReadLineSpec(PostRequest(verb, target, length, sent));
      && line == verb + " " + target + " " + HttpVersion
      && line != EndOfStream && ParseStartLine(line).Ok?
      && HeaderFields(head) == Ok(([Field(ContentLengthName, Decimal(length))], sent))
  {
    var line := verb + " " + target + " " + HttpVersion;
    var head := Encode(ContentLengthLine(length)) + [CR, LF] + ([CR, LF] + sent);
    PostStartLine(verb, target);
    ReadAsciiLine(line, head);
    ContentLengthHeader(length);
    BlankLine(sent);
    HeadStep(ContentLengthLine(length), ContentLengthName, Decimal(length), [CR, LF] + sent);
    assert [Field(ContentLengthName, Decimal(length))] + [] == [Field(ContentLengthName, Decimal(length))];
  }

  lemma OneLength(length: nat)
    requires length <= Int32Max
    ensures ContentLength(Collect([Field(ContentLengthName, Decimal(length))])) == Ok(Some(length))
  {
    var fields := [Field(ContentLengthName, Decimal(length))];
    CollectFirstWins(fields, 0);
    ContentLengthOfDecimal(Collect(fields), length);
  }

  /** The server echoes: a request announcing its body's length and sending
      that body is answered with the response built from exactly that body,
      whatever bytes the client sends after it. */
  lemma EchoesBody(verb: string, target: string, body: seq<byte>, extra: seq<byte>, now: Instant)
    requires PlainLine(verb) && ' ' !in verb && PlainLine(target) && ' ' !in target
    requires |body| <= Int32Max
    ensures Exchange(PostRequest(verb, target, |body|, body + extra), now)
         == (Responded, ResponseBytes(Some(body), Stamp(now)))
  {
    var fields := [Field(ContentLengthName, Decimal(|body|))];
    PostRequestParses(verb, target, |body|, body + extra);
    assert Exchange(PostRequest(verb, target, |body|, body + extra), now) == Reply(Collect(fields), body + extra, now);
    OneLength(|body|);
    assert (body + extra)[..|body|] == body;
  }

  /** A client that closes after sending only part of the announced body
      gets no response, and the error says how many bytes never came. */
  lemma TruncatedBodyRejected(verb: string, target: string, length: nat, sent: seq<byte>, now: Instant)
    requires PlainLine(verb) && ' ' !in verb && PlainLine(target) && ' ' !in target
    requires |sent| < length <= Int32Max
    ensures Exchange(PostRequest(verb, target, length, sent), now)
         == (Failed(PrematureClose(length - |sent|)), [])
  {
    var fields := [Field(ContentLengthName, Decimal(length))];
    PostRequestParses(verb, target, length, sent);
    assert Exchange(PostRequest(verb, target, length, sent), now) == Reply(Collect(fields), sent, now);
    OneLength(length);
  }
}
