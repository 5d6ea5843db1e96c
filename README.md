# simple-HTTP-Server: the connection handler, modelled in Dafny

This project models the request/response framing of the `HttpServerHandler`
class of simple-HTTP-Server, a small HTTP/1.1 server written in C# on raw
sockets. `HandleRequestAsync` works on the `NetworkStream` of one accepted
socket:

1. It reads the start line byte by byte (`ReadLine`). If the line is the
   end-of-stream sentinel `"-1"`, it returns. Otherwise it checks for
   `HTTP/` and for exactly three space-separated fields.
2. It reads header lines up to an empty one, into a dictionary that keeps
   the first value of each name.
3. If a `Content-Length` header is present, it reads that many body bytes in
   reads of at most 1024 bytes, then decodes them as UTF-8.
4. It writes a `200 OK` response in three writes. The body echoes the
   content, or is a fixed sentence when there is no content. A CR LF and a
   timestamp follow either way.

The modules follow that pipeline:

- `Base`: bytes, `Option` and `IndexOf`.
- `Text`: `char.IsWhiteSpace`, `Trim`, `Split` with `TrimEntries`, ordinal `Contains`.
- `Utf8`: `Encoding.UTF8`.
- `Numbers`: `int.ToString` and `Convert.ToInt32`.
- `Clock`: the `yyyy-MM-dd HH:mm:ss.ffffff` timestamp.
- `Transport`: a `Connection` class standing for the network stream. It holds
  the bytes the client sent and the bytes the server wrote.
- `LineReader`: `ReadLine`.
- `Request`: the start line, the header loop and `Content-Length`.
- `BodyReader`: the body loop, as written and corrected.
- `Response`: the three writes.
- `Handler`: the whole exchange.

Each imperative step is a method that changes the `Connection`. Each method
is proved against a function over the bytes the client sent.
`Handler.HandleRequest` is proved equal to `Handler.Exchange`. The lemmas
state properties of `Exchange` and of the functions under it:

- which requests fail, and that a failed request writes nothing;
- that the server echoes the body;
- that the bytes after a complete request are ignored;
- that the response frames itself, read back with the handler's own parser.

Where the code does something a reader may not expect, the model follows
the code:

- A client that closes inside the header block gets `MalformedHeaderLine`,
  because the `"-1"` sentinel is read as a header line with no colon. It
  does not end the header block.
- A negative `Content-Length` is refused, like a non-numeric one, because
  `new byte[total]` throws.
- The start line needs exactly two spaces, because `Split` keeps empty
  fields. `GET  / HTTP/1.1` is refused.
- A client that closes in the middle of the body makes the handler as
  written spin (see Findings). The handler in this model uses the corrected
  loop, which fails with `PrematureClose`.

## Model

| member | source | states |
|---|---|---|
| Base.IndexOf | src/SimpleHttpServer/HttpServerHandler.cs:98-99 | `None` exactly when the element is absent; otherwise the element is at that index and not before it |
| Base.Latin1 | src/SimpleHttpServer/HttpServerHandler.cs:183 | `Convert.ToChar` of a byte is the character with the same code |
| Text.IsWhiteSpace | src/SimpleHttpServer/HttpServerHandler.cs:86-101 | defines the characters `Trim` and `TrimEntries` remove: U+0009 to U+000D, U+0085 and the Unicode space, line and paragraph separators |
| Text.Trim | src/SimpleHttpServer/HttpServerHandler.cs:101 | the result neither starts nor ends with white space, and the input is white space, the result, white space |
| Text.TrimKeepsTrimmed | src/SimpleHttpServer/HttpServerHandler.cs:101 | trimming a string without white space at its ends changes nothing |
| Text.TrimTwice | src/SimpleHttpServer/HttpServerHandler.cs:101 | trimming twice is trimming once |
| Text.TrimLeadingSpace | src/SimpleHttpServer/HttpServerHandler.cs:101 | the space after a header's colon is trimmed away from a trimmed value |
| Text.Contains | src/SimpleHttpServer/HttpServerHandler.cs:84 | true exactly when the pattern occurs at some index |
| Text.Split | src/SimpleHttpServer/HttpServerHandler.cs:86 | one field more than there are separators, and no field holds a separator |
| Text.SplitAt | src/SimpleHttpServer/HttpServerHandler.cs:86 | splitting at the first separator gives the text before it, then the split of the rest |
| Text.JoinSplit | src/SimpleHttpServer/HttpServerHandler.cs:86 | joining the fields with the separator gives back the line |
| Text.SplitTrimmed | src/SimpleHttpServer/HttpServerHandler.cs:86 | as many fields as `Split`, each one trimmed, none dropped |
| Utf8.EncodeChar | src/SimpleHttpServer/HttpServerHandler.cs:134 | one to four bytes per character, one byte exactly for ASCII, equal to its code |
| Utf8.Encode | src/SimpleHttpServer/HttpServerHandler.cs:134-135 | at least one byte per character, exactly one per character exactly when the text is ASCII |
| Utf8.EncodeAppend | src/SimpleHttpServer/HttpServerHandler.cs:134 | encoding distributes over concatenation |
| Utf8.EncodeAscii | src/SimpleHttpServer/HttpServerHandler.cs:128 | ASCII text encodes to its character codes, one byte each |
| Utf8.DecodeOneEncoded | src/SimpleHttpServer/HttpServerHandler.cs:123 | decoding the bytes of a character gives the character and consumes exactly its bytes, whatever follows |
| Utf8.DecodeEncode | src/SimpleHttpServer/HttpServerHandler.cs:123 | decoding the UTF-8 of any text gives the text back |
| Utf8.EncodeDecodeEncoded | src/SimpleHttpServer/HttpServerHandler.cs:123-134 | content that is well-formed UTF-8 is echoed byte for byte |
| Utf8.DecodeOne | src/SimpleHttpServer/HttpServerHandler.cs:123 | one decoding step consumes one to four bytes and at least one; on the bytes of a character it gives that character back (`DecodeOneEncoded`), on each byte that starts no sequence (80-BF, C0, C1, F5-FF) U+FFFD, consuming that byte alone (`DecodeInvalidByte`) |
| Utf8.Decode | src/SimpleHttpServer/HttpServerHandler.cs:123 | `GetString`: at most one character per byte and at least one per four bytes; it inverts `Encode` by `DecodeEncode` |
| Utf8.DecodeInvalidByte | src/SimpleHttpServer/HttpServerHandler.cs:123 | every byte that starts no UTF-8 sequence (a continuation byte 80-BF, C0, C1 or F5-FF) decodes to U+FFFD by itself, whatever follows, and decoding goes on with the next byte |
| Utf8.ReplacementBytes | src/SimpleHttpServer/HttpServerHandler.cs:134 | U+FFFD encodes to EF BF BD |
| Numbers.Decimal | src/SimpleHttpServer/HttpServerHandler.cs:135 | the text of a number is digits, with no leading zero unless it is 0 |
| Numbers.DigitsValueDecimal | src/SimpleHttpServer/HttpServerHandler.cs:135 | the digits written denote the number |
| Numbers.ParseInt32 | src/SimpleHttpServer/HttpServerHandler.cs:111 | a success is within the 32-bit range and the text held a digit; which texts succeed, and with what value, is stated by `ParseInt32Accepts` and `ParseInt32Form` |
| Numbers.ParseInt32Accepts | src/SimpleHttpServer/HttpServerHandler.cs:111 | blanks, an optional sign, one or more digits and a trailer of blanks then NULs read as the signed value of the digits when it fits 32 bits, and fail otherwise |
| Numbers.ParseInt32Form | src/SimpleHttpServer/HttpServerHandler.cs:111 | every accepted text has exactly that form, and its value is the signed value of its digits: any other shape is refused |
| Numbers.ParseInt32Rejects | src/SimpleHttpServer/HttpServerHandler.cs:111 | text after the sign and digits that neither continues the digits nor is a trailer, such as a letter, a second number or a second sign, makes the parse fail |
| Numbers.ParseInt32Refuses | src/SimpleHttpServer/HttpServerHandler.cs:111 | a digit followed by a letter (`5x`), two numbers separated by a space (`5 5`) and a doubled sign (`+-5`) are refused |
| Numbers.ParseInt32LeadingZeros | src/SimpleHttpServer/HttpServerHandler.cs:111 | leading zeros change neither acceptance nor the value (`007` reads as 7) |
| Numbers.ParseInt32Padding | src/SimpleHttpServer/HttpServerHandler.cs:111 | blanks around a number and a `+` in front of it change neither acceptance nor the value (` +5 ` reads as 5) |
| Numbers.ParseDecimal | src/SimpleHttpServer/HttpServerHandler.cs:111 | the text of any number reads back as that number when it fits an `int`, and fails otherwise |
| Numbers.ParseNegative | src/SimpleHttpServer/HttpServerHandler.cs:111 | a minus sign negates the value, down to -2^31 |
| Clock.Padded | src/SimpleHttpServer/HttpServerHandler.cs:134 | digits that denote the number, exactly `width` of them when it fits |
| Clock.DecimalFits | src/SimpleHttpServer/HttpServerHandler.cs:134 | a number below 10^w has at most w digits |
| Clock.DatePart | src/SimpleHttpServer/HttpServerHandler.cs:134 | `yyyy-MM-dd` is ten ASCII characters for a valid instant |
| Clock.TimePart | src/SimpleHttpServer/HttpServerHandler.cs:134 | `HH:mm:ss` is eight ASCII characters |
| Clock.Stamp | src/SimpleHttpServer/HttpServerHandler.cs:134 | the timestamp is 26 ASCII characters for a valid instant |
| Clock.StampFields | src/SimpleHttpServer/HttpServerHandler.cs:134 | the separators are at their places, and each field reads back as the instant's value |
| Transport.Connection.ReadByte | src/SimpleHttpServer/HttpServerHandler.cs:168 | the next byte is consumed, or -1 comes back once the client's bytes are used up |
| Transport.Connection.Read | src/SimpleHttpServer/HttpServerHandler.cs:117 | the bytes that have arrived, at most the buffer's length, are moved to the front of the buffer; 0 only at the end of the stream |
| Transport.Connection.Write | src/SimpleHttpServer/HttpServerHandler.cs:129 | the data is appended to what was written |
| LineReader.LineText | src/SimpleHttpServer/HttpServerHandler.cs:169-184 | the text holds no CR, only one-byte characters, and no line feed if the bytes had none |
| LineReader.ReadLineSpec | src/SimpleHttpServer/HttpServerHandler.cs:154-187 | the line holds no CR or LF; without an LF it is `"-1"` and the stream is used up; with one, input is consumed |
| LineReader.ReadLine | src/SimpleHttpServer/HttpServerHandler.cs:154-187 | returns the line of `ReadLineSpec` and leaves the stream just past its LF |
| LineReader.LineTextLatin1 | src/SimpleHttpServer/HttpServerHandler.cs:180-184 | text of one-byte characters without CR, sent byte for byte, reads back as itself |
| LineReader.ReadTerminatedLine | src/SimpleHttpServer/HttpServerHandler.cs:174-176 | a line ending in LF is read as its text, and the stream is left after the LF |
| LineReader.ReadCrlfLine | src/SimpleHttpServer/HttpServerHandler.cs:171-176 | the same for a line ending in CR LF |
| LineReader.ReadLineExtend | src/SimpleHttpServer/HttpServerHandler.cs:166-176 | bytes after the LF change neither the line nor what was consumed |
| LineReader.EndOfStreamLooksLikeLine | src/SimpleHttpServer/HttpServerHandler.cs:177-179 | the end of the stream and a literal line `-1` read the same |
| Request.ParseStartLine | src/SimpleHttpServer/HttpServerHandler.cs:84-88 | accepted exactly when the line contains `HTTP/` and has exactly two spaces; otherwise refused with the line |
| Request.StartLineOfWords | src/SimpleHttpServer/HttpServerHandler.cs:84-88 | three space-free words, the last holding `HTTP/`, are accepted and given back trimmed |
| Request.ParseHeaderLine | src/SimpleHttpServer/HttpServerHandler.cs:98-101 | refused exactly when there is no colon; otherwise the name is the text before the first colon and the value is the trimmed rest |
| Request.HeaderFields | src/SimpleHttpServer/HttpServerHandler.cs:94-103 | defines what the header loop reads: the fields of the lines up to the first empty one and the bytes after it, or the first line without a colon; its properties are `HeaderBlockThen`, `HeaderFieldsExtend`, `HeadersCutShort`, `HeaderBlockBadLine` and `ReadHeaders` |
| Request.HeaderBlockThen | src/SimpleHttpServer/HttpServerHandler.cs:94-103 | any number of good header lines (no LF, not empty, with a colon) in front of the rest of the stream put their fields, in order, in front of what the rest reads; an error in the rest is the error of the whole block |
| Request.HeadersCutShort | src/SimpleHttpServer/HttpServerHandler.cs:96-100 | a stream that ends inside the header block, after any number of good header lines, fails with the sentinel `-1` as the bad line |
| Request.HeaderBlockBadLine | src/SimpleHttpServer/HttpServerHandler.cs:96-100 | a non-empty line without a colon after any number of good header lines fails the loop with that line |
| Request.HeaderFieldsExtend | src/SimpleHttpServer/HttpServerHandler.cs:94-103 | bytes after a complete header block change neither its fields nor the bytes left before them |
| Request.TryAdd | src/SimpleHttpServer/HttpServerHandler.cs:101 | the name is added if new; every name already present keeps its value |
| Request.Collect | src/SimpleHttpServer/HttpServerHandler.cs:93-103 | defines the dictionary the loop builds: the fields added with `TryAdd` in the order read; `CollectKeys` and `CollectFirstWins` state which names it holds and which value each keeps |
| Request.CollectKeys | src/SimpleHttpServer/HttpServerHandler.cs:93-103 | the dictionary holds exactly the names sent |
| Request.CollectFirstWins | src/SimpleHttpServer/HttpServerHandler.cs:101 | a name maps to the value of its first line |
| Request.ReadHeaders | src/SimpleHttpServer/HttpServerHandler.cs:92-103 | the dictionary of `HeaderFields`, with the stream left after the blank line, or its error; nothing is written |
| Request.ContentLength | src/SimpleHttpServer/HttpServerHandler.cs:108-113 | no length exactly when the exact key is absent; a length is at most 2^31-1; an error carries the header's value |
| Request.ContentLengthOfDecimal | src/SimpleHttpServer/HttpServerHandler.cs:111-113 | a decimal value reads as itself when it fits an `int`; a negative one is refused |
| Request.ContentLengthOfForm | src/SimpleHttpServer/HttpServerHandler.cs:108-113 | a value of the accepted form is the length its digits denote when that is between 0 and 2^31-1, and `InvalidContentLength` otherwise |
| Request.ContentLengthForm | src/SimpleHttpServer/HttpServerHandler.cs:108-113 | every accepted `Content-Length` value has that form, so a value of any other shape is an `InvalidContentLength` |
| BodyReader.RequestSize | src/SimpleHttpServer/HttpServerHandler.cs:116 | a read asks for at most 1024 bytes and never more than are missing, and for at least one when any are missing |
| BodyReader.CopyTo | src/SimpleHttpServer/HttpServerHandler.cs:120 | the whole buffer lands at the offset; the rest of the array is unchanged |
| BodyReader.ReadChunk | src/SimpleHttpServer/HttpServerHandler.cs:116-121 | the bytes read land right after those held, and the array stays zero past them |
| BodyReader.Remaining | src/SimpleHttpServer/HttpServerHandler.cs:114-122 | the loop never gets more than was sent, and gets everything it wants once the client has sent it and enough reads have run |
| BodyReader.ShortBodyStalls | src/SimpleHttpServer/HttpServerHandler.cs:117-119 | with fewer bytes sent than announced, the loop as written still wants the missing bytes after any number of reads |
| BodyReader.ReceiveBodyAsWritten | src/SimpleHttpServer/HttpServerHandler.cs:112-122 | after the observed reads, the array holds the bytes received, in order, then zeros |
| BodyReader.ReceiveBody | src/SimpleHttpServer/HttpServerHandler.cs:112-122 | the body is the first `total` bytes sent, however the reads are split; otherwise it reports how many never came |
| Response.WriteResponse | src/SimpleHttpServer/HttpServerHandler.cs:127-145 | the three writes append exactly `ResponseBytes` for the content and the timestamp |
| Response.ResponseText | src/SimpleHttpServer/HttpServerHandler.cs:132-140 | defines the text in front of the timestamp: the decoded content when there was at least one body byte, the default sentence otherwise; never empty |
| Response.ResponseBody | src/SimpleHttpServer/HttpServerHandler.cs:134-140 | defines `respBytes`: the UTF-8 of that text, CR LF and the timestamp |
| Response.ResponseBodyDecodes | src/SimpleHttpServer/HttpServerHandler.cs:134-140 | the body decodes back to its text, CR LF and the timestamp |
| Response.Frame | src/SimpleHttpServer/HttpServerHandler.cs:128-145 | defines the three writes around a body: the status and server lines, the content headers with the body's byte length, then the body; `FrameParses` reads it back |
| Response.ResponseBytes | src/SimpleHttpServer/HttpServerHandler.cs:127-145 | defines everything written for one request; `ResponseFraming` states how it reads back |
| Response.EchoResponse | src/SimpleHttpServer/HttpServerHandler.cs:132-134 | non-empty UTF-8 content comes back byte for byte, then CR LF and the timestamp |
| Response.DefaultResponse | src/SimpleHttpServer/HttpServerHandler.cs:138-140 | without content the body is the default sentence, CR LF and the timestamp, 87 bytes in all |
| Response.InvalidContentReplaced | src/SimpleHttpServer/HttpServerHandler.cs:123-134 | content that is not UTF-8 is not echoed as sent: a byte FF comes back as EF BF BD |
| Response.ReadAsciiLine | src/SimpleHttpServer/HttpServerHandler.cs:128-135 | a written ASCII line and its CR LF read back as the line |
| Response.FrameParses | src/SimpleHttpServer/HttpServerHandler.cs:128-145 | around any body, the status line and three headers read back, and the body follows the blank line |
| Response.WrittenContentLength | src/SimpleHttpServer/HttpServerHandler.cs:135 | the `Content-Length` written reads back, by the handler's own rules, as the number written |
| Response.ResponseFraming | src/SimpleHttpServer/HttpServerHandler.cs:127-145 | a response reads back as the status line, the three headers and exactly the body, whose length in bytes is the `Content-Length` |
| Handler.Exchange | src/SimpleHttpServer/HttpServerHandler.cs:68-152 | something is written exactly when the request is answered |
| Handler.Reply | src/SimpleHttpServer/HttpServerHandler.cs:105-145 | something is written exactly when the announced body is all there |
| Handler.HandleRequest | src/SimpleHttpServer/HttpServerHandler.cs:68-152 | the outcome and the bytes written are those of `Exchange` for the bytes the client sent, whatever the sizes of the reads |
| Handler.Respond | src/SimpleHttpServer/HttpServerHandler.cs:105-145 | the outcome and the bytes written are those of `Reply` |
| Handler.CompleteRequestIgnoresRest | src/SimpleHttpServer/HttpServerHandler.cs:105-145 | once a request is answered, bytes sent after it change neither the outcome nor the response |
| Handler.SentinelDropsConnection | src/SimpleHttpServer/HttpServerHandler.cs:80-82 | a stream with no line feed, and one whose first line is `-1`, end the call with nothing written |
| Handler.BadStartLineRejected | src/SimpleHttpServer/HttpServerHandler.cs:84-88 | a start line without `HTTP/`, or with other than three fields, fails with nothing written |
| Handler.HeaderWithoutColonRejected | src/SimpleHttpServer/HttpServerHandler.cs:80-100 | after a good start line and any number of good header lines, a non-empty header line without a colon fails with that line and nothing written |
| Handler.HeadersCutRejected | src/SimpleHttpServer/HttpServerHandler.cs:80-100 | after a good start line and any number of good header lines, a stream that ends before the next LF fails with the sentinel as the bad line and nothing written |
| Handler.PostRequestParses | src/SimpleHttpServer/HttpServerHandler.cs:80-103 | a request with one `Content-Length` header parses into its start line, that header, and exactly the bytes after the blank line |
| Handler.EchoesBody | src/SimpleHttpServer/HttpServerHandler.cs:68-152 | a request that sends the body it announces is answered with the response built from exactly that body, whatever follows it |
| Handler.TruncatedBodyRejected | src/SimpleHttpServer/HttpServerHandler.cs:114-122 | a client that sends less than it announced gets no response, and the error says how many bytes are missing |

## Left out

- `HttpServer.cs`, the accept loop and its re-listening, are not part of this model.
- The worker threads, the connection queue and `FetchRequest` (`HttpServerHandler.cs` lines 22-63) are left out. So is the closing of the socket by the worker, and concurrency in general.
- The asynchronous calls are modelled as sequential steps: each `ReadAsync` and `WriteAsync` completes before the next step. `FlushAsync` and `Close` are not modelled.
- The clock is a parameter: `DateTime.Now` is given as an `Instant`. The local time zone and the clock's resolution are left out.
- Clock.Stamp: the timestamp is formatted as under a culture with `:` as its time separator and the Gregorian calendar, such as the invariant culture. Under other current cultures .NET writes another separator (`.` under da-DK) or another year (the Buddhist era under th-TH), and `StampFields`, `DefaultResponse` and the 26-character length hold only for cultures like the first.
- Socket errors, resets and timeouts are left out: the client's bytes are a sequence, after which the client closes.
- The sizes of successive body reads are a parameter (`arrivals`). A read on a socket waits for at least one byte, so each size is at least 1.
- Running out of memory for a very large `Content-Length` (`new byte[total]`) is not modelled.
- The lines the handler only logs, or has commented out, are left out.
- Numbers.ParseInt32: only the invariant culture's signs `-` and `+` are modelled, and `Convert.ToInt32(null)` is not, since a header value is never null.
- Text.IsWhiteSpace: the white-space set is written out for the characters .NET 6 lists; it is not derived from a Unicode database.
- BodyReader.ReceiveBodyAsWritten: the loop is observed only over the reads listed in `arrivals`. A loop that never ends cannot be a method's result, so its state after those reads is what the method returns. `BodyReader.ShortBodyStalls` shows that this state is the same after any number of reads.
- Handler.HandleRequest: it uses the corrected body loop, `BodyReader.ReceiveBody`. On a body cut short it fails with `PrematureClose`, where the code as written never returns (see Findings).
- The default sentence is written as the concatenation of two shorter strings, and the `Server` and `Content-Type` lines as name, `: ` and value. Their text is the same as the code's.

## Findings

| source | as written | input that shows it | evidently intended | confidence | as-written member | corrected member |
|---|---|---|---|---|---|---|
| src/SimpleHttpServer/HttpServerHandler.cs:117-119 | A read that returns 0 bytes is skipped with `continue`, and the loop reads again. On a socket, 0 means the client has closed, so every later read also returns 0. | `POST / HTTP/1.1\r\nContent-Length: 5\r\n\r\nhi`, after which the client closes. The loop gets `hi`, then still wants 3 bytes forever, and the worker thread never returns. | A 0-byte read ends the body loop with a `PrematureClose` error; no response is written. | high; not executed | BodyReader.ShortBodyStalls | BodyReader.ReceiveBody |
