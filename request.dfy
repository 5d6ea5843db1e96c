/** The request half of `HandleRequestAsync`: the start-line check, the
    header loop that fills a dictionary first-wins, and the reading of the
    `Content-Length` header. */
module Request {
  import opened Base
  import opened Text
  import opened Numbers
  import opened Transport
  import opened LineReader

  /** Why a request is given up; the handler throws and writes nothing. */
  datatype Failure =
    | MalformedStartLine(line: string)
    | MalformedHeaderLine(line: string)
    | InvalidContentLength(value: string)
    | PrematureClose(missing: nat)

  datatype Result<T> = Ok(value: T) | Err(error: Failure)

  /** The three fields of a start-line, trimmed. */
  datatype StartLine = StartLine(verb: string, target: string, version: string)

  /** One header line: the name before the first colon, as sent, and the
      trimmed value after it. */
  datatype Field = Field(name: string, value: string)

  const VersionToken: string := "HTTP/"
  const ContentLengthName: string := "Content-Length"

  /** The start-line check: the line must contain "HTTP/" and split on
      spaces, empty fields kept, into exactly three fields, that is, hold
      exactly two spaces. */
  function ParseStartLine(line: string): (r: Result<StartLine>)
    ensures r.Ok? <==> Contains(line, VersionToken) && multiset(line)[' '] == 2
    ensures r.Err? ==> r.error == MalformedStartLine(line)
  {
    if !Contains(line, VersionToken) then Err(MalformedStartLine(line))
    else
      var flags := SplitTrimmed(line, ' ');
      if |flags| != 3 then Err(MalformedStartLine(line))
      else Ok(StartLine(flags[0], flags[1], flags[2]))
  }

  /** A start-line made of three space-free words, the last holding
      "HTTP/", is accepted and gives back the three words trimmed. */
  lemma StartLineOfWords(m: string, t: string, v: string)
    requires ' ' !in m && ' ' !in t && ' ' !in v && Contains(v, VersionToken)
    ensures ParseStartLine(m + " " + t + " " + v) == Ok(StartLine(Trim(m), Trim(t), Trim(v)))
  {
    var line := m + " " + t + " " + v;
    ContainsInLonger(m + " " + t + " ", v);
    SplitThreeWords(m, t, v);
    var flags := SplitTrimmed(line, ' ');
    assert |flags| == 3;
    assert flags[0] == Trim(m) && flags[1] == Trim(t) && flags[2] == Trim(v);
  }

  lemma SplitThreeWords(m: string, t: string, v: string)
    requires ' ' !in m && ' ' !in t && ' ' !in v
    ensures Split(m + " " + t + " " + v, ' ') == [m, t, v]
  {
    assert m + " " + t + " " + v == m + [' '] + (t + [' '] + v);
    SplitAt(m, ' ', t + [' '] + v);
    SplitAt(t, ' ', v);
    assert Split(v, ' ') == [v];
  }

  /** A pattern found in the end of a line is found in the line. */
  lemma ContainsInLonger(front: string, back: string)
    requires Contains(back, VersionToken)
    ensures Contains(front + back, VersionToken)
  {
    var i: nat :| OccursAt(back, VersionToken, i);
    var s := front + back;
    assert s[|front| + i..|front| + i + |VersionToken|] == back[i..i + |VersionToken|];
    assert OccursAt(s, VersionToken, |front| + i);
  }

  /** One header line: an error without a colon; otherwise the text before
      the first colon is the name and the trimmed text after it the value. */
  function ParseHeaderLine(line: string): (r: Result<Field>)
    ensures r.Err? <==> ':' !in line
    ensures r.Err? ==> r.error == MalformedHeaderLine(line)
    ensures r.Ok? ==> var n := |r.value.name|;
      && n < |line| && line[..n] == r.value.name && line[n] == ':'
      && ':' !in r.value.name && r.value.value == Trim(line[n + 1..])
  {
    match IndexOf(line, ':')
    case None => Err(MalformedHeaderLine(line))
    case Some(separator) => Ok(Field(line[..separator], Trim(line[separator + 1..])))
  }

  /** The header lines from the start of `input` up to the first empty
      line, and what follows that line. */
  function HeaderFields(input: seq<byte>): (r: Result<(seq<Field>, seq<byte>)>)
    decreases |input|
  {
    var (line, rest) := ReadLineSpec(input);
    if line == "" then Ok(([], rest))
    else match ParseHeaderLine(line)
      case Err(e) => Err(e)
      case Ok(field) =>
        match HeaderFields(rest)
        case Err(e) => Err(e)
        case Ok((fields, after)) => Ok(([field] + fields, after))
  }

  /** A header block that parses ends at its blank line: bytes after the
      input change neither the fields nor what comes before them. */
  lemma {:induction false} HeaderFieldsExtend(input: seq<byte>, extra: seq<byte>)
    requires HeaderFields(input).Ok?
    ensures HeaderFields(input + extra)
         == Ok((HeaderFields(input).value.0, HeaderFields(input).value.1 + extra))
    decreases |input|
  {
    var (line, rest) := ReadLineSpec(input);
    assert LF in input;
    ReadLineExtend(input, extra);
    if line != "" {
      HeaderFieldsExtend(rest, extra);
    }
  }

  /** `Dictionary.TryAdd`: a name already present keeps its value. */
  function TryAdd(headers: map<string, string>, field: Field): (r: map<string, string>)
    ensures r.Keys == headers.Keys + {field.name}
    ensures forall n :: n in headers ==> r[n] == headers[n]
    ensures field.name !in headers ==> r[field.name] == field.value
  {
    if field.name in headers then headers else headers[field.name := field.value]
  }

  /** The dictionary the header loop builds from the fields, in order. */
  function Collect(fields: seq<Field>): map<string, string>
  {
    if fields == [] then map[] else TryAdd(Collect(fields[..|fields| - 1]), fields[|fields| - 1])
  }

  /** A field read after `fields` is added to their dictionary. */
  lemma CollectSnoc(fields: seq<Field>, field: Field)
    ensures Collect(fields + [field]) == TryAdd(Collect(fields), field)
  {
    assert (fields + [field])[..|fields|] == fields;
  }

  /** The names the dictionary holds are exactly the names sent. */
  lemma {:induction false} CollectKeys(fields: seq<Field>, name: string)
    ensures name in Collect(fields) <==> exists i :: 0 <= i < |fields| && fields[i].name == name
  {
    if fields != [] {
      var init := fields[..|fields| - 1];
      CollectKeys(init, name);
      if exists i :: 0 <= i < |init| && init[i].name == name {
        var i :| 0 <= i < |init| && init[i].name == name;
        assert fields[i].name == name;
      }
      if exists i :: 0 <= i < |fields| && fields[i].name == name {
        var i :| 0 <= i < |fields| && fields[i].name == name;
        if i < |init| {
          assert init[i].name == name;
        }
      }
    }
  }

  /** First occurrence wins: a name maps to the value of its first line. */
  lemma {:induction false} CollectFirstWins(fields: seq<Field>, i: nat)
    requires i < |fields|
    requires forall j :: 0 <= j < i ==> fields[j].name != fields[i].name
    ensures fields[i].name in Collect(fields) && Collect(fields)[fields[i].name] == fields[i].value
  {
    var init := fields[..|fields| - 1];
    if i < |fields| - 1 {
      assert init[i] == fields[i];
      CollectFirstWins(init, i);
    } else {
      CollectKeys(init, fields[i].name);
    }
  }

  function Prepend(seen: seq<Field>, r: Result<(seq<Field>, seq<byte>)>): Result<(seq<Field>, seq<byte>)> {
    match r
    case Err(e) => Err(e)
    case Ok((fields, rest)) => Ok((seen + fields, rest))
  }

  /** One turn of the header loop, stated on `HeaderFields`: a line with a
      colon contributes its field in front of the fields that follow. */
  lemma HeaderFieldsStep(input: seq<byte>)
    requires ReadLineSpec(input).0 != "" && ':' in ReadLineSpec(input).0
    ensures HeaderFields(input)
         == Prepend([ParseHeaderLine(ReadLineSpec(input).0).value], HeaderFields(ReadLineSpec(input).1))
  {
  }

  lemma PrependNothing(r: Result<(seq<Field>, seq<byte>)>)
    ensures Prepend([], r) == r
  {
    if r.Ok? {
      assert [] + r.value.0 == r.value.0;
    }
  }

  lemma PrependAppend(seen: seq<Field>, field: Field, r: Result<(seq<Field>, seq<byte>)>)
    ensures Prepend(seen, Prepend([field], r)) == Prepend(seen + [field], r)
  {
    if r.Ok? {
      assert seen + ([field] + r.value.0) == (seen + [field]) + r.value.0;
    }
  }

  lemma PrependPrepend(front: seq<Field>, back: seq<Field>, r: Result<(seq<Field>, seq<byte>)>)
    ensures Prepend(front, Prepend(back, r)) == Prepend(front + back, r)
  {
    if r.Ok? {
      assert front + (back + r.value.0) == (front + back) + r.value.0;
    }
  }

  /** Header lines sent one after another, each ended by an LF. */
  function Block(lines: seq<seq<byte>>): seq<byte> {
    if lines == [] then [] else lines[0] + [LF] + Block(lines[1..])
  }

  /** A header line the loop accepts: no LF, not empty, and with a colon. */
  predicate GoodLine(line: seq<byte>) {
    LF !in line && LineText(line) != "" && ':' in LineText(line)
  }

  /** Every line of `lines` is a good header line. */
  predicate GoodLines(lines: seq<seq<byte>>) {
    lines == [] || (GoodLine(lines[0]) && GoodLines(lines[1..]))
  }

  /** The fields of good header lines, in order. */
  function FieldsOf(lines: seq<seq<byte>>): seq<Field>
    requires GoodLines(lines)
  {
    if lines == [] then []
    else [ParseHeaderLine(LineText(lines[0])).value] + FieldsOf(lines[1..])
  }

  /** Good header lines in front of the rest of the stream add their fields
      in front and change nothing else: an error in what follows is the
      error of the whole block. */
  lemma {:induction false} HeaderBlockThen(lines: seq<seq<byte>>, tail: seq<byte>)
    requires GoodLines(lines)
    ensures HeaderFields(Block(lines) + tail) == Prepend(FieldsOf(lines), HeaderFields(tail))
  {
    if lines == [] {
      assert Block(lines) + tail == tail;
      PrependNothing(HeaderFields(tail));
    } else {
      var line, more := lines[0], Block(lines[1..]) + tail;
      var input := line + [LF] + more;
      assert Block(lines) + tail == input by {
        Assoc(line + [LF], Block(lines[1..]), tail);
      }
      ReadTerminatedLine(line, more);
      var field := ParseHeaderLine(LineText(line)).value;
      assert HeaderFields(input) == Prepend([field], HeaderFields(more)) by {
        HeaderFieldsStep(input);
      }
      HeaderBlockThen(lines[1..], tail);
      PrependPrepend([field], FieldsOf(lines[1..]), HeaderFields(tail));
    }
  }

  /** A client that closes inside the header block, after any number of
      good header lines: the sentinel "-1" the line reader returns is taken
      for a header line, and as it has no colon the request fails. */
  lemma HeadersCutShort(lines: seq<seq<byte>>, cut: seq<byte>)
    requires GoodLines(lines)
    requires LF !in cut
    ensures HeaderFields(Block(lines) + cut) == Err(MalformedHeaderLine(EndOfStream))
  {
    assert ':' !in EndOfStream;
    HeaderBlockThen(lines, cut);
  }

  /** A non-empty line without a colon after any number of good header
      lines ends the header loop with that line as the error. */
  lemma HeaderBlockBadLine(lines: seq<seq<byte>>, bad: seq<byte>, rest: seq<byte>)
    requires GoodLines(lines)
    requires LF !in bad && LineText(bad) != "" && ':' !in LineText(bad)
    ensures HeaderFields(Block(lines) + (bad + [LF] + rest)) == Err(MalformedHeaderLine(LineText(bad)))
  {
    ReadTerminatedLine(bad, rest);
    HeaderBlockThen(lines, bad + [LF] + rest);
  }

  /** The header loop: reads lines until an empty one, adding each field to
      the dictionary unless its name is already there; a line without a
      colon, including the end-of-stream sentinel, is an error. */
  method ReadHeaders(conn: Connection) returns (r: Result<map<string, string>>)
    modifies conn
    ensures conn.written == old(conn.written)
    ensures match HeaderFields(old(conn.incoming))
      case Err(e) => r == Err(e)
      case Ok((fields, rest)) => r == Ok(Collect(fields)) && conn.incoming == rest
  {
    var headers: map<string, string> := map[];
    ghost var seen: seq<Field> := [];
    PrependNothing(HeaderFields(conn.incoming));
    while true
      invariant HeaderFields(old(conn.incoming)) == Prepend(seen, HeaderFields(conn.incoming))
      invariant headers == Collect(seen)
      invariant conn.written == old(conn.written)
      decreases |conn.incoming|
    {
      ghost var before := conn.incoming;
      var headerLine := ReadLine(conn);
      if headerLine == "" {
        assert seen + [] == seen;
        return Ok(headers);
      }
      var field := ParseHeaderLine(headerLine);
      if field.Err? {
        return Err(field.error);
      }
      HeaderFieldsStep(before);
      PrependAppend(seen, field.value, HeaderFields(conn.incoming));
      CollectSnoc(seen, field.value);
      headers := TryAdd(headers, field.value);
      seen := seen + [field.value];
    }
  }

  /** The body length announced by the exact, case-sensitive key
      "Content-Length": none without it; an error when `Convert.ToInt32`
      fails, or when the value is negative and `new byte[total]` throws. */
  function ContentLength(headers: map<string, string>): (r: Result<Option<nat>>)
    ensures r == Ok(None) <==> ContentLengthName !in headers
    ensures r.Ok? && r.value.Some? ==> r.value.value <= Int32Max
    ensures r.Err? ==> r.error == InvalidContentLength(headers[ContentLengthName])
  {
    if ContentLengthName !in headers then Ok(None)
    else
      var value := headers[ContentLengthName];
      match ParseInt32(value)
      case None => Err(InvalidContentLength(value))
      case Some(total) => if total < 0 then Err(InvalidContentLength(value)) else Ok(Some(total))
  }

  /** A `Content-Length` value of the form `Convert.ToInt32` accepts,
      blanks, a sign, digits and a trailer, is the length its digits
      denote when that is not negative and fits an `int`, and is refused
      otherwise. */
  lemma ContentLengthOfForm(headers: map<string, string>, blanks: string, sign: string, digits: string, tail: string)
    requires ContentLengthName in headers
    requires headers[ContentLengthName] == blanks + sign + digits + tail
    requires AllBlank(blanks) && IsSign(sign) && digits != [] && AllDigits(digits) && IsTrailer(tail)
    ensures var v := SignedValue(sign, digits);
      ContentLength(headers) == if 0 <= v <= Int32Max then Ok(Some(v))
        else Err(InvalidContentLength(headers[ContentLengthName]))
  {
    ParseInt32Accepts(blanks, sign, digits, tail);
  }

  /** Every accepted `Content-Length` has that form: a value of any other
      shape, such as "5x", "5 5", "+-5" or "", is an `InvalidContentLength`. */
  lemma ContentLengthForm(headers: map<string, string>) returns (blanks: string, sign: string, digits: string, tail: string)
    requires ContentLength(headers).Ok? && ContentLength(headers).value.Some?
    ensures headers[ContentLengthName] == blanks + sign + digits + tail
    ensures AllBlank(blanks) && IsSign(sign) && digits != [] && AllDigits(digits) && IsTrailer(tail)
    ensures ContentLength(headers).value.value == SignedValue(sign, digits)
  {
    blanks, sign, digits, tail := ParseInt32Form(headers[ContentLengthName]);
  }

  /** A `Content-Length` written as a decimal number that fits an `int` is
      read as that number; a negative one is refused. */
  lemma ContentLengthOfDecimal(headers: map<string, string>, n: nat)
    requires ContentLengthName in headers
    ensures headers[ContentLengthName] == Decimal(n) ==>
      ContentLength(headers) == if n <= Int32Max then Ok(Some(n)) else Err(InvalidContentLength(Decimal(n)))
    ensures headers[ContentLengthName] == ['-'] + Decimal(n) && n > 0 ==>
      ContentLength(headers) == Err(InvalidContentLength(['-'] + Decimal(n)))
  {
    ParseDecimal(n);
    ParseNegative(n);
  }
}
