/**
 * create_response and attach_payload (src/ssocket.c): the HTTP/1.1
 * response the server writes to a client. The status line, a Date and a
 * Content-Length header for status 200, "Connection: close", a
 * Content-Type header for a payload with a known extension, the blank line
 * that ends the head, then the payload file's bytes, all in one calloc'd
 * buffer whose whole length is written to the client.
 *
 * What stat and fopen report for the payload path, the file's bytes and the
 * broken-down time gmtime returns are parameters.
 */
module Response {
  import opened CLib
  import opened FileType
  import opened HttpDate

  const Crlf: string := "\r\n"
  const StatusOk: int := 200
  const StatusNotFound: int := 404
  const NotFoundReason: string := "Not Found"

  /**
   * What the file system reports for the payload path: whether stat
   * succeeds and the st_size it reports, whether fopen succeeds, and the
   * bytes fread would deliver from it.
   */
  datatype PayloadFile = PayloadFile(statOk: bool, stSize: int, opens: bool, contents: seq<char>)

  /**
   * The decisions create_response takes before it writes anything: the
   * status code and reason it ends up with, the file size it announces and
   * reserves room for, whether it attaches a payload (read_file), and
   * whether the payload file was opened.
   */
  datatype Plan = Plan(code: int, reason: string, fileSize: int, readFile: bool, fileOpen: bool)

  /**
   * A payload that cannot be stat'ed or opened turns the response into
   * 404 "Not Found"; the file size is st_size whenever stat succeeded, even
   * if fopen then failed. Without a payload nothing changes and read_file
   * is still set.
   */
  function PlanResponse(code: int, reason: string, payload: Option<string>, file: PayloadFile): (p: Plan)
    ensures p.fileOpen <==> payload.Some? && file.statOk && file.opens
    ensures p.readFile <==> payload.None? || p.fileOpen
    ensures p.readFile ==> p.code == code && p.reason == reason
    ensures !p.readFile ==> p.code == StatusNotFound && p.reason == NotFoundReason
    ensures p.fileSize == (if payload.Some? && file.statOk then file.stSize else 0)
  {
    var fileSize := if payload.Some? && file.statOk then file.stSize else 0;
    var fileOpen := payload.Some? && file.statOk && file.opens;
    if payload.Some? && !fileOpen then Plan(StatusNotFound, NotFoundReason, fileSize, false, false)
    else Plan(code, reason, fileSize, true, fileOpen)
  }

  /** The media type announced: only for an opened payload whose extension get_file_type knows. */
  function ContentTypeOf(payload: Option<string>, readFile: bool): Option<string> {
    if payload.Some? && readFile && GetFileType(payload.value).0 then Some(GetFileType(payload.value).1)
    else None
  }

  /** What the head of a response says: status code and reason, date, content length and media type. */
  datatype Header = Header(code: int, reason: string, date: string, contentLength: int, contentType: Option<string>)

  /** The head create_response writes for a plan, at the time `tm`. */
  function HeaderOf(p: Plan, payload: Option<string>, tm: Tm): Header {
    Header(p.code, p.reason, DateString(tm), p.fileSize, ContentTypeOf(payload, p.readFile))
  }

  function StatusLine(code: int, reason: string): string {
    "HTTP/1.1 " + IntToDecimal(code) + " " + reason
  }

  /** The header lines in the order create_response writes them, without their CRLFs. */
  function HeaderLines(h: Header): seq<string> {
    [StatusLine(h.code, h.reason)] +
    (if h.code == StatusOk then ["Date: " + h.date, "Content-Length: " + IntToDecimal(h.contentLength)] else []) +
    ["Connection: close"] +
    (if h.contentType.Some? then ["Content-Type: " + h.contentType.value] else [])
  }

  /** Each line followed by CRLF. */
  function JoinLines(lines: seq<string>): string {
    if lines == [] then [] else lines[0] + Crlf + JoinLines(lines[1..])
  }

  /**
   * The head as create_response's strcat calls write it: the status line,
   * the Date and Content-Length lines of a 200 response, the Connection
   * line, the Content-Type line if any, and the empty line that closes it.
   */
  function ResponseHead(h: Header): string {
    StatusLine(h.code, h.reason) + Crlf + DateBlock(h) + "Connection: close" + Crlf + TypeBlock(h) + Crlf
  }

  /** The bytes attach_payload copies: at most `size` bytes, fewer if the file ends first. */
  function Delivered(rest: seq<char>, size: int): (got: seq<char>)
    ensures |got| <= |rest| && (size > 0 ==> |got| <= size) && (size <= 0 ==> got == [])
    ensures got == rest[..|got|]
  {
    if size > 0 then rest[..Min(size, |rest|)] else []
  }

  /** attach_payload's result: 0 when the last fread returned data, -1 otherwise. */
  function AttachStatus(rest: seq<char>, size: int): int {
    if size > 0 && |rest| >= size then 0 else -1
  }

  /** The bytes of the payload the response carries. */
  function Attached(p: Plan, file: PayloadFile): seq<char> {
    if p.fileOpen then Delivered(file.contents, p.fileSize) else []
  }

  /** response_size: strlen of the final reason, plus 150, plus the file size, plus 24. */
  function ResponseSize(p: Plan): int {
    |p.reason| + 150 + p.fileSize + 24
  }

  /** What create_response's callers may pass (and what gmtime and stat guarantee). */
  predicate ResponseInputs(code: int, reason: string, payload: Option<string>, file: PayloadFile, tm: Tm) {
    && IntMin <= code <= IntMax
    && NoNul(reason)
    && (payload.Some? && file.statOk ==> 0 <= file.stSize <= IntMax)
    && GmtimeRanges(tm)
  }

  /**
   * The whole buffer create_response returns, of length response_size: the
   * head, the payload bytes, and the NUL bytes calloc left after them.
   */
  function ResponseBytes(code: int, reason: string, payload: Option<string>, file: PayloadFile, tm: Tm): (bytes: seq<char>)
    requires ResponseInputs(code, reason, payload, file, tm)
    ensures |bytes| == ResponseSize(PlanResponse(code, reason, payload, file))
  {
    var p := PlanResponse(code, reason, payload, file);
    var head := ResponseHead(HeaderOf(p, payload, tm));
    var body := Attached(p, file);
    HeadFits(code, reason, payload, file, tm);
    head + body + seq(ResponseSize(p) - |head| - |body|, _ => Nul)
  }

  /** The two header lines only a 200 response carries, each with its CRLF. */
  function DateBlock(h: Header): string {
    if h.code == StatusOk then Line("Date: ", h.date) + Line("Content-Length: ", IntToDecimal(h.contentLength)) else []
  }

  /** The Content-Type line with its CRLF, when there is one. */
  function TypeBlock(h: Header): string {
    if h.contentType.Some? then Line("Content-Type: ", h.contentType.value) else []
  }

  /** A header line: its name with the colon, its value, CRLF. */
  function Line(name: string, value: string): string {
    name + value + Crlf
  }

  lemma {:induction false} JoinLinesAppend(a: seq<string>, b: seq<string>)
    ensures JoinLines(a + b) == JoinLines(a) + JoinLines(b)
  {
    if a == [] {
      assert a + b == b;
    } else {
      assert (a + b)[1..] == a[1..] + b;
      JoinLinesAppend(a[1..], b);
    }
  }

  lemma JoinTwo(a: string, b: string)
    ensures JoinLines([a, b]) == a + Crlf + b + Crlf
  {
    assert [a, b][1..] == [b];
    assert JoinLines([b]) == b + Crlf + [];
  }

  lemma JoinOne(a: string)
    ensures JoinLines([a]) == a + Crlf
  {
    assert JoinLines([a]) == a + Crlf + [];
  }

  /** The head is the header lines, each ended by CRLF, then one more CRLF. */
  lemma HeadLines(h: Header)
    ensures ResponseHead(h) == JoinLines(HeaderLines(h)) + Crlf
  {
    var status := [StatusLine(h.code, h.reason)];
    var dates := if h.code == StatusOk then ["Date: " + h.date, "Content-Length: " + IntToDecimal(h.contentLength)] else [];
    var connection := ["Connection: close"];
    var types := if h.contentType.Some? then ["Content-Type: " + h.contentType.value] else [];
    JoinLinesAppend(status + dates + connection, types);
    JoinLinesAppend(status + dates, connection);
    JoinLinesAppend(status, dates);
    JoinOne(StatusLine(h.code, h.reason));
    JoinOne("Connection: close");
    if h.code == StatusOk {
      var dateLine, lengthLine := "Date: " + h.date, "Content-Length: " + IntToDecimal(h.contentLength);
      JoinTwo(dateLine, lengthLine);
      Assoc(dateLine + Crlf, lengthLine, Crlf);
      assert JoinLines(dates) == DateBlock(h);
    } else {
      assert JoinLines(dates) == DateBlock(h);
    }
    if h.contentType.Some? {
      JoinOne("Content-Type: " + h.contentType.value);
      assert JoinLines(types) == TypeBlock(h);
    } else {
      assert JoinLines(types) == TypeBlock(h);
    }
    var front := StatusLine(h.code, h.reason) + Crlf + DateBlock(h);
    Assoc(front, "Connection: close", Crlf);
  }

  /** The header fields as create_response can produce them. */
  predicate BoundedHeader(h: Header) {
    && IntMin <= h.code <= IntMax && 0 <= h.contentLength <= IntMax
    && |h.date| <= 36 && NoNul(h.date) && NoNul(h.reason)
    && (h.contentType.Some? ==> |h.contentType.value| <= 22 && NoNul(h.contentType.value))
  }

  /**
   * The head never takes more than the reason phrase plus 154 bytes: 23 for
   * the status line around the reason, 44 for the date, 28 for the length,
   * 19 for the connection, 38 for the type and 2 for the empty line.
   */
  lemma HeadLength(h: Header)
    requires BoundedHeader(h)
    ensures |ResponseHead(h)| <= |h.reason| + 154
  {
    IntDecimalLength(h.code);
    IntDecimalLength(h.contentLength);
  }

  /** The head and the payload bytes fit in response_size, with at least 20 bytes to spare. */
  lemma HeadFits(code: int, reason: string, payload: Option<string>, file: PayloadFile, tm: Tm)
    requires ResponseInputs(code, reason, payload, file, tm)
    ensures var p := PlanResponse(code, reason, payload, file);
            && BoundedHeader(HeaderOf(p, payload, tm))
            && |Attached(p, file)| <= p.fileSize
            && |ResponseHead(HeaderOf(p, payload, tm))| + p.fileSize + 20 <= ResponseSize(p)
  {
    var p := PlanResponse(code, reason, payload, file);
    DateLength(tm);
    DateIsText(tm);
    assert NoNul(NotFoundReason);
    if payload.Some? {
      FileTypeLength(payload.value);
    }
    HeadLength(HeaderOf(p, payload, tm));
  }

  // ---------------------------------------------------------------------
  // Reading a response back, as a client does
  // ---------------------------------------------------------------------

  /** Index of the first carriage return, or the length when there is none. */
  function IndexOfCr(s: string): (i: nat)
    ensures i <= |s| && NoCr(s[..i])
    ensures i < |s| ==> s[i] == '\r'
  {
    if s == [] || s[0] == '\r' then 0
    else
      var i := 1 + IndexOfCr(s[1..]);
      assert s[..i] == [s[0]] + s[1..][..i - 1];
      i
  }

  /** The text up to the first CRLF, and the text after it. */
  function NextLine(s: string): (r: Option<(string, string)>)
    ensures r.Some? ==> |r.value.1| < |s|
  {
    var i := IndexOfCr(s);
    if i + 1 < |s| && s[i + 1] == '\n' then Some((s[..i], s[i + 2..])) else None
  }

  /**
   * Splits a message into its header lines and the bytes after the empty
   * line that ends them, as section 3 of RFC 7230 lays an HTTP message out.
   */
  function SplitHead(s: string): Option<(seq<string>, string)>
    decreases |s|
  {
    var next :- NextLine(s);
    if next.0 == [] then Some(([], next.1))
    else
      var rest :- SplitHead(next.1);
      Some(([next.0] + rest.0, rest.1))
  }

  /** The value of the first header line named `name`. */
  function HeaderValue(lines: seq<string>, name: string): Option<string> {
    if lines == [] then None
    else if StartsWith(lines[0], name + ": ") then Some(lines[0][|name| + 2..])
    else HeaderValue(lines[1..], name)
  }

  /** The status code and reason phrase of a status line. */
  function ParseStatusLine(line: string): Option<(int, string)> {
    var rest :- Skip(line, "HTTP/1.1 ");
    NumberThen(rest, " ")
  }

  // ---------------------------------------------------------------------
  // Properties of the response
  // ---------------------------------------------------------------------

  /** The first carriage return after a text without one is the first one in what follows. */
  lemma {:induction false} IndexOfCrPast(line: string, t: string)
    requires NoCr(line)
    ensures IndexOfCr(line + t) == |line| + IndexOfCr(t)
  {
    if line == [] {
      assert line + t == t;
    } else {
      assert (line + t)[1..] == line[1..] + t;
      IndexOfCrPast(line[1..], t);
    }
  }

  lemma NextLineOf(line: string, t: string)
    requires NoCr(line)
    ensures NextLine(line + Crlf + t) == Some((line, t))
  {
    var s := line + Crlf + t;
    IndexOfCrPast(line, Crlf + t);
    assert s == line + (Crlf + t);
    assert s[..|line|] == line;
    assert s[|line| + 2..] == t;
  }

  /**
   * A head written as lines each ending in CRLF and then an empty line is
   * read back line for line, and what follows is the body untouched, as long
   * as no line is empty or holds a carriage return.
   */
  lemma {:induction false} HeadRoundTrip(lines: seq<string>, body: string)
    requires forall i :: 0 <= i < |lines| ==> lines[i] != [] && NoCr(lines[i])
    ensures SplitHead(JoinLines(lines) + Crlf + body) == Some((lines, body))
  {
    if lines == [] {
      assert JoinLines(lines) + Crlf + body == [] + Crlf + body;
      NextLineOf([], body);
    } else {
      var rest := JoinLines(lines[1..]) + Crlf + body;
      assert JoinLines(lines) + Crlf + body == lines[0] + Crlf + rest;
      NextLineOf(lines[0], rest);
      HeadRoundTrip(lines[1..], body);
      assert [lines[0]] + lines[1..] == lines;
    }
  }

  lemma StatusLineRoundTrip(code: int, reason: string)
    requires IntMin <= code <= IntMax
    ensures ParseStatusLine(StatusLine(code, reason)) == Some((code, reason))
  {
    var prefix, space := "HTTP/1.1 ", " ";
    var t := IntToDecimal(code) + (space + reason);
    assert StatusLine(code, reason) == prefix + t;
    SkipLiteral(prefix, t);
    NumberThenOfDecimal(code, space, reason);
  }

  // ---------------------------------------------------------------------
  // The C functions
  // ---------------------------------------------------------------------

  /** The array holds `bytes` from index `at` on. */
  ghost predicate Holds(data: array<char>, at: int, bytes: seq<char>)
    reads data
  {
    0 <= at && at + |bytes| <= data.Length && forall k :: at <= k < at + |bytes| ==> data[k] == bytes[k - at]
  }

  /**
   * attach_payload: copies the payload file's bytes into the message right
   * after its string (at strlen), reading with fread until payload_size
   * bytes have been copied or fread returns nothing. The bytes are not
   * NUL-terminated. Returns 0 when the last fread returned data, -1
   * otherwise (including when there was nothing to read at all).
   */
  method AttachPayload(message: CBuffer, payload: Stream?, payloadSize: int) returns (status: int)
    requires message.Valid()
    requires payload == null ==> payloadSize <= 0
    requires payload != null ==> payload.position <= |payload.contents|
    requires message.len + payloadSize <= message.data.Length
    modifies message.data, payload
    ensures var rest := if payload == null then [] else payload.contents[old(payload.position)..];
            var got := Delivered(rest, payloadSize);
            && Holds(message.data, message.len, got)
            && (forall k :: 0 <= k < message.data.Length && !(message.len <= k < message.len + |got|) ==>
                  message.data[k] == old(message.data[k]))
            && (payload != null ==> payload.position == old(payload.position) + |got|)
            && status == AttachStatus(rest, payloadSize)
  {
    var data, base := message.data, message.len;
    ghost var file := if payload == null then [] else payload.contents;
    ghost var origin := if payload == null then 0 else payload.position;
    var readBytes := 0;
    var pos := base;
    var remaining := payloadSize;
    ghost var done := 0;
    // The loop condition of the source, `payload_size > 0 && (read_bytes = fread (...)) > 0`,
    // evaluated at the top of each round.
    while true
      invariant pos == base + done && remaining == payloadSize - done && pos <= data.Length
      invariant payload != null ==> payload.contents == file && payload.position == origin + done <= |file|
      invariant 0 <= readBytes && (done == 0 <==> readBytes == 0)
      invariant if payloadSize <= 0 then done == 0 else done <= payloadSize
      invariant forall k :: base <= k < pos ==> data[k] == file[origin + (k - base)]
      invariant forall k :: 0 <= k < data.Length && !(base <= k < pos) ==> data[k] == old(data[k])
      decreases remaining
    {
      if remaining <= 0 {
        break;
      }
      var current := payload.Read(remaining);
      readBytes := |current|;
      if readBytes <= 0 {
        assert origin + done == |file| && done < payloadSize;
        break;
      }
      remaining := remaining - readBytes;
      pos := CopyChunk(data, pos, current);
      done := done + readBytes;
    }
    ghost var rest := file[origin..];
    assert rest[..done] == file[origin..origin + done];
    DeliveredAll(rest, payloadSize, done, readBytes);
    assert Holds(data, base, rest[..done]);
    status := if readBytes < 1 then -1 else 0;
  }

  /**
   * How attach_payload's loop can end: nothing asked for, everything asked
   * for copied, or the file ran out first. Either way it copied what
   * Delivered says, and the last fread came back empty exactly when
   * AttachStatus says -1.
   */
  lemma DeliveredAll(rest: seq<char>, size: int, done: nat, lastRead: nat)
    requires done <= |rest|
    requires || (size <= 0 && done == 0 && lastRead == 0)
             || (size > 0 && done == size && lastRead > 0)
             || (size > 0 && done < size && done == |rest| && lastRead == 0)
    ensures Delivered(rest, size) == rest[..done]
    ensures AttachStatus(rest, size) == if lastRead < 1 then -1 else 0
  {
  }

  /** The inner loop of attach_payload: one chunk fread returned, stored byte by byte from `pos` on. */
  method CopyChunk(data: array<char>, pos: nat, chunk: seq<char>) returns (next: nat)
    requires pos + |chunk| <= data.Length
    modifies data
    ensures next == pos + |chunk|
    ensures forall k :: pos <= k < next ==> data[k] == chunk[k - pos]
    ensures forall k :: 0 <= k < data.Length && !(pos <= k < next) ==> data[k] == old(data[k])
  {
    next := pos;
    var i := 0;
    while i < |chunk|
      invariant 0 <= i <= |chunk| && next == pos + i
      invariant forall k :: pos <= k < next ==> data[k] == chunk[k - pos]
      invariant forall k :: 0 <= k < data.Length && !(pos <= k < next) ==> data[k] == old(data[k])
    {
      data[next] := chunk[i];
      next := next + 1;
      i := i + 1;
    }
  }

  /**
   * The calloc'd buffer after the head was written and the payload bytes
   * were copied behind it: head, payload, then NUL up to its end.
   */
  lemma Assembled(data: array<char>, written: seq<char>, head: string, got: seq<char>)
    requires data.Length == |written| && |head| + |got| <= |written|
    requires forall k :: 0 <= k < |written| ==> written[k] == if k < |head| then head[k] else Nul
    requires Holds(data, |head|, got)
    requires forall k :: 0 <= k < data.Length && !(|head| <= k < |head| + |got|) ==> data[k] == written[k]
    ensures data[..] == head + got + seq(data.Length - |head| - |got|, _ => Nul)
  {
  }

  /** Three strcat calls that write one header line: the name, the value and CRLF. */
  method CatLine(buffer: CBuffer, name: string, value: string)
    requires buffer.Valid() && NoNul(name) && NoNul(value)
    requires buffer.len + |name| + |value| + 2 < buffer.data.Length
    modifies buffer, buffer.data
    ensures buffer.Valid() && buffer.len == old(buffer.len) + |name| + |value| + 2
    ensures buffer.contents == old(buffer.contents) + Line(name, value)
  {
    var crlf := Crlf;
    assert NoNul(crlf);
    buffer.Cat(name);
    buffer.Cat(value);
    buffer.Cat(crlf);
    Assoc(old(buffer.contents) + name, value, crlf);
    Assoc(old(buffer.contents), name, value + crlf);
    Assoc(name, value, crlf);
  }

  /** The status line with its CRLF, written into the fresh buffer. */
  method CatStatusLine(buffer: CBuffer, code: int, reason: string)
    requires buffer.Valid() && buffer.len == 0
    requires IntMin <= code <= IntMax && NoNul(reason)
    requires |reason| + 23 < buffer.data.Length
    modifies buffer, buffer.data
    ensures buffer.Valid() && buffer.len <= |reason| + 23
    ensures buffer.contents == StatusLine(code, reason) + Crlf
  {
    var codeText := IntToDecimal(code);
    DecimalIsText(code);
    IntDecimalLength(code);
    var http, space, crlf := "HTTP/1.1 ", " ", Crlf;
    assert NoNul(http) && NoNul(space) && NoNul(crlf);
    buffer.Cat(http);
    assert buffer.contents == http;
    buffer.Cat(codeText);
    buffer.Cat(space);
    buffer.Cat(reason);
    buffer.Cat(crlf);
  }

  /** The Date and Content-Length lines, written only for a 200 response. */
  method CatDateBlock(buffer: CBuffer, h: Header)
    requires buffer.Valid() && BoundedHeader(h)
    requires buffer.len + 72 < buffer.data.Length
    modifies buffer, buffer.data
    ensures buffer.Valid() && buffer.len <= old(buffer.len) + 72
    ensures buffer.contents == old(buffer.contents) + DateBlock(h)
  {
    if h.code == StatusOk {
      var lengthText := IntToDecimal(h.contentLength);
      DecimalIsText(h.contentLength);
      IntDecimalLength(h.contentLength);
      var dateName, lengthName := "Date: ", "Content-Length: ";
      assert NoNul(dateName) && NoNul(lengthName);
      CatLine(buffer, dateName, h.date);
      CatLine(buffer, lengthName, lengthText);
      Assoc(old(buffer.contents), Line(dateName, h.date), Line(lengthName, lengthText));
    }
  }

  /** The Content-Type line, written when the payload is read and its extension is known. */
  method CatTypeBlock(buffer: CBuffer, h: Header, payload: Option<string>, readFile: bool)
    requires buffer.Valid() && h.contentType == ContentTypeOf(payload, readFile)
    requires buffer.len + 38 < buffer.data.Length
    modifies buffer, buffer.data
    ensures buffer.Valid() && buffer.len <= old(buffer.len) + 38
    ensures buffer.contents == old(buffer.contents) + TypeBlock(h)
  {
    if payload.Some? && readFile {
      var (known, fileType) := GetFileType(payload.value);
      if known {
        FileTypeLength(payload.value);
        var typeName := "Content-Type: ";
        assert NoNul(typeName);
        CatLine(buffer, typeName, fileType);
      }
    }
  }

  /**
   * The part of create_response that writes the head: a calloc'd buffer of
   * response_size bytes receives the status line, the Date and
   * Content-Length lines of a 200 response, the Connection line, the
   * Content-Type line of a known payload type, and the closing CRLF.
   */
  method WriteHead(h: Header, payload: Option<string>, readFile: bool)
    returns (buffer: CBuffer, responseSize: int)
    requires BoundedHeader(h) && h.contentType == ContentTypeOf(payload, readFile)
    ensures fresh(buffer) && fresh(buffer.data) && buffer.Valid()
    ensures responseSize == |h.reason| + 150 + h.contentLength + 24 == buffer.data.Length
    ensures buffer.contents == ResponseHead(h)
  {
    responseSize := |h.reason| + 150 + h.contentLength + 24;
    buffer := new CBuffer.Calloc(responseSize);
    CatStatusLine(buffer, h.code, h.reason);
    CatDateBlock(buffer, h);
    var connection, crlf := "Connection: close", Crlf;
    assert NoNul(connection) && NoNul(crlf);
    buffer.Cat(connection);
    buffer.Cat(crlf);
    CatTypeBlock(buffer, h, payload, readFile);
    buffer.Cat(crlf);
  }

  /**
   * The first half of create_response: stat and fopen the payload, if there
   * is one, and settle the response code, the message, file_size and
   * read_file from what they report.
   */
  method OpenPayload(code: int, reason: string, payload: Option<string>, file: PayloadFile)
    returns (responseCode: int, message: string, fileSize: int, readFile: bool, payloadFile: Stream?)
    ensures var p := PlanResponse(code, reason, payload, file);
            && responseCode == p.code && message == p.reason
            && fileSize == p.fileSize && readFile == p.readFile
            && (payloadFile != null <==> p.fileOpen)
    ensures payloadFile != null ==> fresh(payloadFile) && payloadFile.contents == file.contents && payloadFile.position == 0
  {
    fileSize := 0;
    readFile := false;
    payloadFile := null;
    message := reason;
    responseCode := code;
    if payload.Some? {
      if !file.statOk {
        responseCode := StatusNotFound;
        message := NotFoundReason;
      } else {
        fileSize := file.stSize;
        if file.opens {
          payloadFile := new Stream.Open(file.contents);
        }
      }
    }
    if payload.Some? && payloadFile == null {
      responseCode := StatusNotFound;
      message := NotFoundReason;
    } else {
      readFile := true;
    }
  }

  /**
   * The second half of create_response: the head written into a buffer of
   * response_size bytes, then, when read_file is set, the payload copied
   * behind it by attach_payload. What is left of the buffer stays NUL.
   */
  method BuildResponse(h: Header, payload: Option<string>, readFile: bool, payloadFile: Stream?)
    returns (response: array<char>, responseSize: int)
    requires BoundedHeader(h) && h.contentType == ContentTypeOf(payload, readFile)
    requires payloadFile == null ==> !readFile || h.contentLength == 0
    requires payloadFile != null ==> readFile && payloadFile.position == 0
    modifies payloadFile
    ensures fresh(response) && response.Length == responseSize == |h.reason| + 150 + h.contentLength + 24
    ensures var got := if payloadFile == null then [] else Delivered(payloadFile.contents, h.contentLength);
            && |ResponseHead(h)| + |got| <= responseSize
            && response[..] == ResponseHead(h) + got + seq(responseSize - |ResponseHead(h)| - |got|, _ => Nul)
  {
    HeadLength(h);
    var buffer;
    buffer, responseSize := WriteHead(h, payload, readFile);
    ghost var head := buffer.contents;
    ghost var got := if payloadFile == null then [] else Delivered(payloadFile.contents, h.contentLength);
    ghost var written := buffer.data[..];
    assert forall k :: 0 <= k < |written| ==> written[k] == if k < |head| then head[k] else Nul;

    if readFile {
      ghost var rest := if payloadFile == null then [] else payloadFile.contents[payloadFile.position..];
      assert got == Delivered(rest, h.contentLength) by {
        assert payloadFile != null ==> payloadFile.contents[0..] == payloadFile.contents;
      }
      assert buffer.len == |head|;
      var _ := AttachPayload(buffer, payloadFile, h.contentLength);
    } else {
      assert got == [] && buffer.data[..] == written;
    }
    response := buffer.data;
    Assembled(response, written, head, got);
  }

  /**
   * create_response: decides the status (404 "Not Found" for a payload that
   * cannot be stat'ed or opened), writes the head into a calloc'd buffer of
   * response_size bytes, attaches the payload file when read_file is set,
   * and returns the buffer, response_size and the final response code.
   */
  method CreateResponse(code: int, reason: string, payload: Option<string>, file: PayloadFile, tm: Tm)
    returns (response: array<char>, responseSize: int, responseCode: int)
    requires ResponseInputs(code, reason, payload, file, tm)
    ensures fresh(response) && response.Length == responseSize
    ensures responseCode == PlanResponse(code, reason, payload, file).code
    ensures responseSize == ResponseSize(PlanResponse(code, reason, payload, file))
    ensures response[..] == ResponseBytes(code, reason, payload, file, tm)
  {
    ghost var p := PlanResponse(code, reason, payload, file);
    var message, fileSize, readFile, payloadFile;
    responseCode, message, fileSize, readFile, payloadFile := OpenPayload(code, reason, payload, file);

    var date := GetDate(tm);
    var dateText := date.data[..date.len];
    assert dateText == DateString(tm);
    var h := Header(responseCode, message, dateText, fileSize, ContentTypeOf(payload, readFile));
    assert h == HeaderOf(p, payload, tm);
    HeadFits(code, reason, payload, file, tm);

    response, responseSize := BuildResponse(h, payload, readFile, payloadFile);
    assert (if payloadFile == null then [] else Delivered(payloadFile.contents, fileSize)) == Attached(p, file);
  }

  // ---------------------------------------------------------------------
  // What a client reads from the response
  // ---------------------------------------------------------------------

  /** Header lines are never empty and never hold a carriage return, given a reason without one. */
  lemma HeaderLinesText(h: Header)
    requires NoCr(h.reason) && NoCr(h.date)
    requires h.contentType.Some? ==> NoCr(h.contentType.value)
    ensures forall i :: 0 <= i < |HeaderLines(h)| ==> HeaderLines(h)[i] != [] && NoCr(HeaderLines(h)[i])
  {
    var http, space, date, length, connection, typeName :=
      "HTTP/1.1 ", " ", "Date: ", "Content-Length: ", "Connection: close", "Content-Type: ";
    assert NoCr(http) && NoCr(space) && NoCr(date) && NoCr(length) && NoCr(connection) && NoCr(typeName);
    var code := IntToDecimal(h.code);
    DecimalIsText(h.code);
    DecimalIsText(h.contentLength);
    TextAppend(http, code);
    TextAppend(http + code, space);
    assert NoCr(h.reason);
    assert NoCr(StatusLine(h.code, h.reason)) by {
      assert forall c :: c in StatusLine(h.code, h.reason) ==> c in http + code + space || c in h.reason;
    }
    assert NoCr(date + h.date) by {
      assert forall c :: c in date + h.date ==> c in date || c in h.date;
    }
    assert NoCr(length + IntToDecimal(h.contentLength)) by {
      assert forall c :: c in length + IntToDecimal(h.contentLength) ==> c in length || c in IntToDecimal(h.contentLength);
    }
    if h.contentType.Some? {
      assert NoCr(typeName + h.contentType.value) by {
        assert forall c :: c in typeName + h.contentType.value ==> c in typeName || c in h.contentType.value;
      }
    }
  }

  /** Splitting a head followed by any bytes gives back the header lines and those bytes. */
  lemma HeadReadsBack(h: Header, body: seq<char>)
    requires NoCr(h.reason) && NoCr(h.date)
    requires h.contentType.Some? ==> NoCr(h.contentType.value)
    ensures SplitHead(ResponseHead(h) + body) == Some((HeaderLines(h), body))
  {
    HeaderLinesText(h);
    HeadLines(h);
    HeadRoundTrip(HeaderLines(h), body);
  }

  /**
   * A client splitting the response at its first empty line gets exactly
   * the header lines create_response wrote, and after them the payload
   * bytes followed by the NUL padding, provided the reason phrase holds no
   * carriage return.
   */
  lemma ResponseReadsBack(code: int, reason: string, payload: Option<string>, file: PayloadFile, tm: Tm)
    requires ResponseInputs(code, reason, payload, file, tm) && NoCr(reason)
    ensures var p := PlanResponse(code, reason, payload, file);
            var h := HeaderOf(p, payload, tm);
            var got := Attached(p, file);
            && |ResponseHead(h)| + |got| <= ResponseSize(p)
            && SplitHead(ResponseBytes(code, reason, payload, file, tm)) ==
               Some((HeaderLines(h), got + seq(ResponseSize(p) - |ResponseHead(h)| - |got|, _ => Nul)))
  {
    var p := PlanResponse(code, reason, payload, file);
    var h := HeaderOf(p, payload, tm);
    var head, got := ResponseHead(h), Attached(p, file);
    HeadFits(code, reason, payload, file, tm);
    var padding := seq(ResponseSize(p) - |head| - |got|, _ => Nul);
    assert ResponseBytes(code, reason, payload, file, tm) == head + (got + padding) by {
      Assoc(head, got, padding);
    }
    assert NoCr(h.reason) by {
      assert NoCr(NotFoundReason);
    }
    assert NoCr(h.date) by {
      DateIsText(tm);
    }
    assert h.contentType.Some? ==> NoCr(h.contentType.value) by {
      if payload.Some? {
        FileTypeLength(payload.value);
      }
    }
    HeadReadsBack(h, got + padding);
  }

  /** HeaderValue looks at the first line, then at the rest. */
  lemma HeaderValueCons(line: string, rest: seq<string>, name: string)
    ensures HeaderValue([line] + rest, name) ==
            if StartsWith(line, name + ": ") then Some(line[|name| + 2..]) else HeaderValue(rest, name)
  {
    assert ([line] + rest)[1..] == rest;
  }

  /** A line whose text differs from the header name at position i does not carry that header. */
  lemma OtherHeader(line: string, name: string, i: nat)
    requires i < |line| && i < |name| && line[i] != name[i]
    ensures !StartsWith(line, name + ": ")
  {
    assert (name + ": ")[i] == name[i];
  }

  /** A header line `prefix value` whose prefix differs from the name at position i does not carry it. */
  lemma OtherLine(prefix: string, value: string, name: string, i: nat)
    requires i < |prefix| && i < |name| && prefix[i] != name[i]
    ensures !StartsWith(prefix + value, name + ": ")
  {
    assert (prefix + value)[i] == prefix[i] && (name + ": ")[i] == name[i];
  }

  /** The line `name: value` carries `value` under `name`. */
  lemma SameHeader(name: string, value: string)
    ensures StartsWith(name + ": " + value, name + ": ")
    ensures (name + ": " + value)[|name| + 2..] == value
  {
    assert (name + ": " + value)[..|name| + 2] == name + ": ";
  }

  /** Every response says "Connection: close". */
  lemma ConnectionClose(h: Header)
    ensures HeaderValue(HeaderLines(h), "Connection") == Some("close")
  {
    var lines := HeaderLines(h);
    var status := StatusLine(h.code, h.reason);
    var dates := if h.code == StatusOk then ["Date: " + h.date, "Content-Length: " + IntToDecimal(h.contentLength)] else [];
    var types := if h.contentType.Some? then ["Content-Type: " + h.contentType.value] else [];
    assert lines == [status] + (dates + (["Connection: close"] + types));
    OtherHeader(status, "Connection", 0);
    HeaderValueCons(status, dates + (["Connection: close"] + types), "Connection");
    if h.code == StatusOk {
      OtherLine("Date: ", h.date, "Connection", 0);
      OtherLine("Content-Length: ", IntToDecimal(h.contentLength), "Connection", 3);
      HeaderValueCons(dates[0], [dates[1]] + (["Connection: close"] + types), "Connection");
      HeaderValueCons(dates[1], ["Connection: close"] + types, "Connection");
    }
    SameHeader("Connection", "close");
    HeaderValueCons("Connection: close", types, "Connection");
  }

  /** The Date header is present exactly on a 200 response, and then carries the date text. */
  lemma DateHeader(h: Header)
    ensures HeaderValue(HeaderLines(h), "Date") == if h.code == StatusOk then Some(h.date) else None
  {
    var status := StatusLine(h.code, h.reason);
    var dates := if h.code == StatusOk then ["Date: " + h.date, "Content-Length: " + IntToDecimal(h.contentLength)] else [];
    var types := if h.contentType.Some? then ["Content-Type: " + h.contentType.value] else [];
    assert HeaderLines(h) == [status] + (dates + (["Connection: close"] + types));
    OtherHeader(status, "Date", 0);
    HeaderValueCons(status, dates + (["Connection: close"] + types), "Date");
    if h.code == StatusOk {
      SameHeader("Date", h.date);
      HeaderValueCons(dates[0], [dates[1]] + (["Connection: close"] + types), "Date");
    } else {
      OtherHeader("Connection: close", "Date", 0);
      HeaderValueCons("Connection: close", types, "Date");
      if h.contentType.Some? {
        OtherLine("Content-Type: ", h.contentType.value, "Date", 0);
        HeaderValueCons(types[0], [], "Date");
      }
    }
  }

  /** The Content-Length header is present exactly on a 200 response, and then carries the size in decimal. */
  lemma ContentLengthHeader(h: Header)
    ensures HeaderValue(HeaderLines(h), "Content-Length") ==
            if h.code == StatusOk then Some(IntToDecimal(h.contentLength)) else None
  {
    var status := StatusLine(h.code, h.reason);
    var dates := if h.code == StatusOk then ["Date: " + h.date, "Content-Length: " + IntToDecimal(h.contentLength)] else [];
    var types := if h.contentType.Some? then ["Content-Type: " + h.contentType.value] else [];
    assert HeaderLines(h) == [status] + (dates + (["Connection: close"] + types));
    OtherHeader(status, "Content-Length", 0);
    HeaderValueCons(status, dates + (["Connection: close"] + types), "Content-Length");
    if h.code == StatusOk {
      OtherLine("Date: ", h.date, "Content-Length", 0);
      HeaderValueCons(dates[0], [dates[1]] + (["Connection: close"] + types), "Content-Length");
      SameHeader("Content-Length", IntToDecimal(h.contentLength));
      HeaderValueCons(dates[1], ["Connection: close"] + types, "Content-Length");
    } else {
      OtherHeader("Connection: close", "Content-Length", 3);
      HeaderValueCons("Connection: close", types, "Content-Length");
      if h.contentType.Some? {
        OtherLine("Content-Type: ", h.contentType.value, "Content-Length", 8);
        HeaderValueCons(types[0], [], "Content-Length");
      }
    }
  }

  /** The Content-Type header is present exactly when the header has a content type, and carries it. */
  lemma ContentTypeHeader(h: Header)
    ensures HeaderValue(HeaderLines(h), "Content-Type") == h.contentType
  {
    var status := StatusLine(h.code, h.reason);
    var dates := if h.code == StatusOk then ["Date: " + h.date, "Content-Length: " + IntToDecimal(h.contentLength)] else [];
    var types := if h.contentType.Some? then ["Content-Type: " + h.contentType.value] else [];
    assert HeaderLines(h) == [status] + (dates + (["Connection: close"] + types));
    OtherHeader(status, "Content-Type", 0);
    HeaderValueCons(status, dates + (["Connection: close"] + types), "Content-Type");
    if h.code == StatusOk {
      OtherLine("Date: ", h.date, "Content-Type", 0);
      OtherLine("Content-Length: ", IntToDecimal(h.contentLength), "Content-Type", 8);
      HeaderValueCons(dates[0], [dates[1]] + (["Connection: close"] + types), "Content-Type");
      HeaderValueCons(dates[1], ["Connection: close"] + types, "Content-Type");
    }
    OtherHeader("Connection: close", "Content-Type", 3);
    HeaderValueCons("Connection: close", types, "Content-Type");
    if h.contentType.Some? {
      SameHeader("Content-Type", h.contentType.value);
      HeaderValueCons(types[0], [], "Content-Type");
    }
  }

  /**
   * A payload that can be opened and holds at least st_size bytes is served
   * under the caller's status line, whole: the body is the first st_size
   * bytes of the file, and on a 200 response Content-Length is its length.
   */
  lemma ServedPayload(code: int, reason: string, payload: Option<string>, file: PayloadFile, tm: Tm)
    requires ResponseInputs(code, reason, payload, file, tm)
    requires payload.Some? && file.statOk && file.opens && file.stSize <= |file.contents|
    ensures var p := PlanResponse(code, reason, payload, file);
            var h := HeaderOf(p, payload, tm);
            && p.readFile
            && ParseStatusLine(HeaderLines(h)[0]) == Some((code, reason))
            && Attached(p, file) == file.contents[..file.stSize]
            && (code == StatusOk ==> HeaderValue(HeaderLines(h), "Content-Length") == Some(IntToDecimal(|Attached(p, file)|)))
  {
    var p := PlanResponse(code, reason, payload, file);
    assert p == Plan(code, reason, file.stSize, true, true);
    var h := HeaderOf(p, payload, tm);
    assert HeaderLines(h)[0] == StatusLine(code, reason);
    StatusLineRoundTrip(code, reason);
    assert Attached(p, file) == file.contents[..file.stSize] by {
      if file.stSize == 0 {
        assert Delivered(file.contents, 0) == [];
      }
    }
    ContentLengthHeader(h);
  }

  /**
   * A payload that cannot be stat'ed or opened gives a bare 404 "Not Found":
   * no Date, no Content-Length, no Content-Type and no body.
   */
  lemma MissingPayload(code: int, reason: string, payload: Option<string>, file: PayloadFile, tm: Tm)
    requires ResponseInputs(code, reason, payload, file, tm)
    requires payload.Some? && !(file.statOk && file.opens)
    ensures var p := PlanResponse(code, reason, payload, file);
            var h := HeaderOf(p, payload, tm);
            && ParseStatusLine(HeaderLines(h)[0]) == Some((StatusNotFound, NotFoundReason))
            && HeaderValue(HeaderLines(h), "Date") == None
            && HeaderValue(HeaderLines(h), "Content-Length") == None
            && HeaderValue(HeaderLines(h), "Content-Type") == None
            && Attached(p, file) == []
  {
    var p := PlanResponse(code, reason, payload, file);
    var h := HeaderOf(p, payload, tm);
    StatusLineRoundTrip(StatusNotFound, NotFoundReason);
    DateHeader(h);
    ContentLengthHeader(h);
    ContentTypeHeader(h);
  }

  /** attach_payload reports success exactly when it copied the full size it was asked for. */
  lemma AttachStatusMeaning(rest: seq<char>, size: int)
    ensures AttachStatus(rest, size) == 0 <==> size > 0 && |Delivered(rest, size)| == size
  {
  }

  /** The last 20 bytes of every response are NUL, so its text is always terminated. */
  lemma TrailingNul(code: int, reason: string, payload: Option<string>, file: PayloadFile, tm: Tm)
    requires ResponseInputs(code, reason, payload, file, tm)
    ensures var bytes := ResponseBytes(code, reason, payload, file, tm);
            |bytes| >= 20 && forall i :: |bytes| - 20 <= i < |bytes| ==> bytes[i] == Nul
  {
    HeadFits(code, reason, payload, file, tm);
  }
}
