/**
 * Response serialization: a status line, header lines in a fixed order,
 * `Connection: close`, an empty line, then the body bytes. Lines go through the
 * PrintWriter's `println`, so each ends with the platform's line separator;
 * the body goes through the OutputStream.
 *
 * Beside the writer sits the reading a client makes of what was written
 * (`ReadResponse`): the status line split at its first two spaces, each header
 * line split at its first ": ", and the raw bytes after the empty line. The
 * lemmas show that every response the writer produces reads back as intended.
 */
module ResponseWriter {
  import opened JreText
  import opened JreNumbers
  import opened JreIo
  import opened HttpConstants
  import opened ContentEncoder

  /** `HTTP_VERSION + " " + statusCode + " " + statusMessage` */
  function StatusLine(code: int, message: string): (line: string)
    ensures |line| > |HttpVersion| + 1 + |message|
    ensures line[..|HttpVersion| + 1] == HttpVersion + " " && line[|line| - |message|..] == message
  {
    HttpVersion + " " + IntToString(code) + " " + message
  }

  /** What the bodiless `sendResponse` writes. */
  function StatusResponse(code: int, message: string): seq<Emit>
  {
    [Line(StatusLine(code, message))] + ClosingLines()
  }

  /** The two lines every response ends its header block with. */
  function ClosingLines(): seq<Emit>
  {
    [Line("Connection: close"), Line("")]
  }

  /**
   * The body bytes the second `sendResponse` sends: the body in the default
   * charset, gzip-encoded as a whole when the encoding is supported.
   */
  function ResponseBytes(body: string, encoding: Option<string>, platform: Platform): (bytes: seq<byte>)
    ensures SupportsEncoding(encoding) ==> bytes == platform.gzip(platform.defaultCharset(body))
    ensures !SupportsEncoding(encoding) ==> bytes == platform.defaultCharset(body)
  {
    var plain := platform.defaultCharset(body);
    if SupportsEncoding(encoding) then Encode(plain, encoding, platform.gzip) else plain
  }

  /** The header block the second `sendResponse` writes before the body. */
  function BodyHeaderBlock(code: int, message: string, contentType: string, length: nat, encoding: Option<string>): seq<Emit>
  {
    LeadLines(code, message, contentType, length) + EncodingLines(encoding) + ClosingLines()
  }

  /** The status line, `Content-Type` and `Content-Length`: the lines every response with a body starts with. */
  function LeadLines(code: int, message: string, contentType: string, length: nat): seq<Emit>
  {
    [Line(StatusLine(code, message)),
     Line(ContentTypeHeader + contentType),
     Line(ContentLengthHeader + IntToString(length))]
  }

  /** The `Content-Encoding` line, present only when the encoding is supported. */
  function EncodingLines(encoding: Option<string>): seq<Emit>
  {
    if SupportsEncoding(encoding) then [Line("Content-Encoding: " + encoding.value)] else []
  }

  /** What the second `sendResponse` writes: the header block, then the body bytes in one write. */
  function BodyResponse(code: int, message: string, contentType: string, body: string,
                        encoding: Option<string>, platform: Platform): seq<Emit>
  {
    var bytes := ResponseBytes(body, encoding, platform);
    BodyHeaderBlock(code, message, contentType, |bytes|, encoding) + [Raw(bytes)]
  }

  /** `sendResponse(writer, statusCode, statusMessage)` */
  method SendResponse(out: Output, code: int, message: string)
    modifies out
    ensures out.emitted == old(out.emitted) + StatusResponse(code, message)
  {
    out.Println(StatusLine(code, message));
    PrintClosing(out);
  }

  /** `sendResponse(writer, outputStream, statusCode, statusMessage, contentType, responseBody, contentEncoding)` */
  method SendResponseWithBody(out: Output, code: int, message: string, contentType: string,
                              body: string, encoding: Option<string>, platform: Platform)
    modifies out
    ensures out.emitted == old(out.emitted) + BodyResponse(code, message, contentType, body, encoding, platform)
  {
    var responseBytes := platform.defaultCharset(body);
    if SupportsEncoding(encoding) {
      responseBytes := Encode(responseBytes, encoding, platform.gzip);
    }
    PrintHeaderBlock(out, code, message, contentType, |responseBytes|, encoding);
    out.Write(responseBytes);
  }

  /** The `println` calls of the second `sendResponse`, from the status line to the empty line. */
  method PrintHeaderBlock(out: Output, code: int, message: string, contentType: string, length: nat, encoding: Option<string>)
    modifies out
    ensures out.emitted == old(out.emitted) + BodyHeaderBlock(code, message, contentType, length, encoding)
  {
    ghost var start := out.emitted;
    out.Println(StatusLine(code, message));
    out.Println(ContentTypeHeader + contentType);
    out.Println(ContentLengthHeader + IntToString(length));
    assert out.emitted == start + LeadLines(code, message, contentType, length);
    PrintEncoding(out, encoding);
    PrintClosing(out);
  }

  /** The `Content-Encoding` line, printed only for a supported encoding. */
  method PrintEncoding(out: Output, encoding: Option<string>)
    modifies out
    ensures out.emitted == old(out.emitted) + EncodingLines(encoding)
  {
    if SupportsEncoding(encoding) {
      out.Println("Content-Encoding: " + encoding.value);
    }
  }

  /** The last two `println` calls of both `sendResponse` methods. */
  method PrintClosing(out: Output)
    modifies out
    ensures out.emitted == old(out.emitted) + ClosingLines()
  {
    out.Println("Connection: close");
    out.Println("");
  }

  // ------------------------------------------------ reading a response back

  datatype StatusLineParts = StatusLineParts(version: string, code: int, message: string)

  datatype Response = Response(status: StatusLineParts, fields: seq<(string, string)>, body: seq<byte>)

  /** A status line read back: the text before the first space, the number up to the next one, and the rest. */
  function ParseStatusLine(line: string): Option<StatusLineParts>
  {
    match IndexOf(line, " ")
    case None => None
    case Some(i) =>
      var afterVersion := line[i + 1..];
      match IndexOf(afterVersion, " ")
      case None => None
      case Some(j) =>
        match ParseInt(afterVersion[..j])
        case None => None
        case Some(code) => Some(StatusLineParts(line[..i], code, afterVersion[j + 1..]))
  }

  /** The index of the first colon in `s`, or `|s|` when there is none. */
  function ColonAt(s: string): (k: nat)
    ensures k <= |s|
    ensures forall j :: 0 <= j < k ==> s[j] != ':'
    ensures k < |s| ==> s[k] == ':'
  {
    if s == [] || s[0] == ':' then 0 else 1 + ColonAt(s[1..])
  }

  /** A header line read back as a field: the name before the first colon, and the value after the colon and one space. */
  function FieldOf(line: string): Option<(string, string)>
  {
    var k := ColonAt(line);
    if k + 1 < |line| && line[k + 1] == ' ' then Some((line[..k], line[k + 2..])) else None
  }

  /** The header fields up to the empty line, and the writes that follow the empty line. */
  function ReadFields(es: seq<Emit>): Option<(seq<(string, string)>, seq<Emit>)>
    decreases |es|
  {
    if es == [] then None
    else
      match es[0]
      case Raw(_) => None
      case Line(t) =>
        if t == "" then Some(([], es[1..]))
        else
          match FieldOf(t)
          case None => None
          case Some(f) =>
            match ReadFields(es[1..])
            case None => None
            case Some(r) => Some(([f] + r.0, r.1))
  }

  /** The body: every raw write after the header block, concatenated; a further line is malformed. */
  function RawBody(es: seq<Emit>): Option<seq<byte>>
  {
    if es == [] then Some([])
    else
      match es[0]
      case Line(_) => None
      case Raw(b) =>
        match RawBody(es[1..])
        case None => None
        case Some(r) => Some(b + r)
  }

  /** What a client reads from the writes of one response. */
  function ReadResponse(es: seq<Emit>): Option<Response>
  {
    if es == [] || !es[0].Line? then None
    else
      match ParseStatusLine(es[0].text)
      case None => None
      case Some(status) =>
        match ReadFields(es[1..])
        case None => None
        case Some(r) =>
          match RawBody(r.1)
          case None => None
          case Some(body) => Some(Response(status, r.0, body))
  }

  /** The value of the first field named `name`. */
  function FieldValue(fields: seq<(string, string)>, name: string): Option<string>
  {
    if fields == [] then None
    else if fields[0].0 == name then Some(fields[0].1)
    else FieldValue(fields[1..], name)
  }

  // ------------------------------------------------------------- lemmas

  /** The status line reads back as the version, the code and the message, whatever the message holds. */
  lemma StatusLineRoundTrip(code: int, message: string)
    requires INT_MIN <= code <= INT_MAX
    ensures ParseStatusLine(StatusLine(code, message)) == Some(StatusLineParts(HttpVersion, code, message))
  {
    var digits := IntToString(code);
    var tail := digits + " " + message;
    assert NoChar(HttpVersion, ' ');
    IndexOfAfter(HttpVersion, ' ', tail);
    var line := StatusLine(code, message);
    assert line == HttpVersion + [' '] + tail;
    assert line[..|HttpVersion|] == HttpVersion;
    assert line[|HttpVersion| + 1..] == tail;
    IndexOfAfter(digits, ' ', message);
    assert tail == digits + [' '] + message;
    assert tail[..|digits|] == digits;
    assert tail[|digits| + 1..] == message;
    ParseIntOfString(code);
  }

  /** Bodiless responses with different codes or messages differ. */
  lemma StatusResponseInjective(code1: int, message1: string, code2: int, message2: string)
    requires INT_MIN <= code1 <= INT_MAX && INT_MIN <= code2 <= INT_MAX
    ensures StatusResponse(code1, message1) == StatusResponse(code2, message2) ==> code1 == code2 && message1 == message2
  {
    StatusLineRoundTrip(code1, message1);
    StatusLineRoundTrip(code2, message2);
    assert StatusResponse(code1, message1)[0] == Line(StatusLine(code1, message1));
    assert StatusResponse(code2, message2)[0] == Line(StatusLine(code2, message2));
  }

  /** A header line written as name, ": " and value reads back as that field. */
  lemma FieldOfHeaderLine(name: string, value: string)
    requires NoChar(name, ':')
    ensures FieldOf(name + ": " + value) == Some((name, value))
  {
    var line := name + ": " + value;
    assert ColonAt(line) == |name| by {
      ColonAfter(name, ": " + value);
      assert line == name + (": " + value);
    }
    assert line[..|name|] == name;
    assert line[|name| + 2..] == value;
  }

  lemma {:induction false} ColonAfter(name: string, rest: string)
    requires NoChar(name, ':')
    requires rest != [] && rest[0] == ':'
    ensures ColonAt(name + rest) == |name|
  {
    if name != [] {
      assert (name + rest)[1..] == name[1..] + rest;
      ColonAfter(name[1..], rest);
    } else {
      assert name + rest == rest;
    }
  }

  /** A header line in front of lines that read back as fields reads back as one more field. */
  lemma ReadFieldsCons(name: string, value: string, rest: seq<Emit>, fields: seq<(string, string)>, after: seq<Emit>)
    requires NoChar(name, ':')
    requires ReadFields(rest) == Some((fields, after))
    ensures ReadFields([Line(name + ": " + value)] + rest) == Some(([(name, value)] + fields, after))
  {
    FieldOfHeaderLine(name, value);
    assert ([Line(name + ": " + value)] + rest)[1..] == rest;
  }

  lemma ReadFieldsEnd(rest: seq<Emit>)
    ensures ReadFields([Line("")] + rest) == Some(([], rest))
  {
    assert ([Line("")] + rest)[1..] == rest;
  }

  /** Header lines written field by field, each as name, ": " and value. */
  function FieldLines(fields: seq<(string, string)>): (lines: seq<Emit>)
    ensures |lines| == |fields|
  {
    if fields == [] then [] else [Line(fields[0].0 + ": " + fields[0].1)] + FieldLines(fields[1..])
  }

  /** No field name holds a colon, so each header line splits where its name ends. */
  predicate NamesWithoutColon(fields: seq<(string, string)>)
  {
    forall i :: 0 <= i < |fields| ==> NoChar(fields[i].0, ':')
  }

  /** Header lines followed by the empty line read back as exactly the fields written, then whatever follows. */
  lemma {:induction false} ReadFieldLines(fields: seq<(string, string)>, rest: seq<Emit>)
    requires NamesWithoutColon(fields)
    ensures ReadFields(FieldLines(fields) + [Line("")] + rest) == Some((fields, rest))
  {
    if fields == [] {
      ReadFieldsEnd(rest);
      assert FieldLines(fields) + [Line("")] + rest == [Line("")] + rest;
    } else {
      ReadFieldLines(fields[1..], rest);
      ReadFieldLine(fields[0], fields[1..], rest);
      assert [fields[0]] + fields[1..] == fields;
    }
  }

  lemma ReadFieldLine(field: (string, string), fields: seq<(string, string)>, rest: seq<Emit>)
    requires NoChar(field.0, ':')
    requires ReadFields(FieldLines(fields) + [Line("")] + rest) == Some((fields, rest))
    ensures ReadFields(FieldLines([field] + fields) + [Line("")] + rest) == Some(([field] + fields, rest))
  {
    var tail := FieldLines(fields) + [Line("")] + rest;
    ReadFieldsCons(field.0, field.1, tail, fields, rest);
    FieldLinesAppend([field], fields);
    FieldLine(field.0, field.1);
    assert FieldLines([field] + fields) + [Line("")] + rest == [Line(field.0 + ": " + field.1)] + tail;
  }

  /** The fields a bodiless response states. */
  const StatusFields: seq<(string, string)> := [("Connection", "close")]

  /** The fields a response with a body states, in the order they are written. */
  function BodyFields(contentType: string, length: string, encoding: Option<string>): seq<(string, string)>
  {
    [("Content-Type", contentType), ("Content-Length", length)] + EncodingFields(encoding) + StatusFields
  }

  /** The `Content-Encoding` field, present only when the encoding is supported. */
  function EncodingFields(encoding: Option<string>): seq<(string, string)>
  {
    if SupportsEncoding(encoding) then [("Content-Encoding", encoding.value)] else []
  }

  /** Each header prefix the writer prints is the field name followed by ": ". */
  lemma HeaderPrefixes()
    ensures ContentTypeHeader == "Content-Type" + ": "
    ensures ContentLengthHeader == "Content-Length" + ": "
    ensures "Content-Encoding: " == "Content-Encoding" + ": "
    ensures "Connection: close" == "Connection" + ": " + "close"
  {
  }

  lemma EncodingFieldLines(encoding: Option<string>)
    ensures FieldLines(EncodingFields(encoding)) == EncodingLines(encoding)
  {
    if SupportsEncoding(encoding) {
      FieldLine("Content-Encoding", encoding.value);
      HeaderPrefixes();
    }
  }

  /** The bodiless response is the status line, the header line of each status field, and the empty line. */
  lemma StatusResponseLines(code: int, message: string)
    ensures ClosingLines() == FieldLines(StatusFields) + [Line("")]
    ensures StatusResponse(code, message) == [Line(StatusLine(code, message))] + FieldLines(StatusFields) + [Line("")]
  {
    HeaderPrefixes();
    FieldLine("Connection", "close");
  }

  lemma {:induction false} FieldLinesAppend(a: seq<(string, string)>, b: seq<(string, string)>)
    ensures FieldLines(a + b) == FieldLines(a) + FieldLines(b)
  {
    if a == [] {
      assert a + b == b;
    } else {
      FieldLinesAppend(a[1..], b);
      assert (a + b)[0] == a[0];
      assert (a + b)[1..] == a[1..] + b;
      var first := [Line(a[0].0 + ": " + a[0].1)];
      assert FieldLines(a + b) == first + FieldLines(a[1..] + b);
      assert FieldLines(a) == first + FieldLines(a[1..]);
    }
  }

  lemma FieldLine(name: string, value: string)
    ensures FieldLines([(name, value)]) == [Line(name + ": " + value)]
  {
    assert [(name, value)][1..] == [];
  }

  /** The header block is the status line, the header line of each body field, and the empty line. */
  lemma BodyHeaderLines(code: int, message: string, contentType: string, length: nat, encoding: Option<string>)
    ensures BodyHeaderBlock(code, message, contentType, length, encoding) ==
      [Line(StatusLine(code, message))] + FieldLines(BodyFields(contentType, IntToString(length), encoding)) + [Line("")]
  {
    var len := IntToString(length);
    var typeField, lengthField := ("Content-Type", contentType), ("Content-Length", len);
    HeaderPrefixes();
    StatusResponseLines(code, message);
    EncodingFieldLines(encoding);
    FieldLine(typeField.0, typeField.1);
    FieldLine(lengthField.0, lengthField.1);
    FieldLinesAppend([typeField], [lengthField]);
    assert [typeField] + [lengthField] == [typeField, lengthField];
    FieldLinesAppend([typeField, lengthField], EncodingFields(encoding));
    FieldLinesAppend([typeField, lengthField] + EncodingFields(encoding), StatusFields);
    assert LeadLines(code, message, contentType, length) ==
      [Line(StatusLine(code, message))] + FieldLines([typeField, lengthField]);
  }

  /** The field names of both kinds of response hold no colon. */
  lemma ResponseFieldNames(contentType: string, length: string, encoding: Option<string>)
    ensures NamesWithoutColon(StatusFields)
    ensures NamesWithoutColon(BodyFields(contentType, length, encoding))
  {
  }

  /** A status line, header lines, the empty line and raw writes read back as the response they spell. */
  lemma ReadResponseOf(line: string, status: StatusLineParts, fields: seq<(string, string)>, tail: seq<Emit>, body: seq<byte>)
    requires ParseStatusLine(line) == Some(status)
    requires NamesWithoutColon(fields)
    requires RawBody(tail) == Some(body)
    ensures ReadResponse([Line(line)] + FieldLines(fields) + [Line("")] + tail) == Some(Response(status, fields, body))
  {
    ReadFieldLines(fields, tail);
    assert ([Line(line)] + FieldLines(fields) + [Line("")] + tail)[1..] == FieldLines(fields) + [Line("")] + tail;
  }

  /** A bodiless response reads back as its status, the single field `Connection: close`, and no body. */
  lemma ReadStatusResponse(code: int, message: string)
    requires INT_MIN <= code <= INT_MAX
    ensures ReadResponse(StatusResponse(code, message)) ==
      Some(Response(StatusLineParts(HttpVersion, code, message), StatusFields, []))
  {
    StatusLineRoundTrip(code, message);
    StatusResponseLines(code, message);
    ResponseFieldNames("", "", None);
    ReadResponseOf(StatusLine(code, message), StatusLineParts(HttpVersion, code, message), StatusFields, [], []);
    assert StatusResponse(code, message) == [Line(StatusLine(code, message))] + FieldLines(StatusFields) + [Line("")] + [];
  }

  /**
   * A response with a body reads back as its status; the fields Content-Type,
   * Content-Length, Content-Encoding exactly when the encoding is supported and
   * then with the encoding as given, and Connection, in that order; and as its
   * body exactly the bytes sent, whose number the Content-Length field states.
   */
  lemma ReadBodyResponse(code: int, message: string, contentType: string, body: string,
                         encoding: Option<string>, platform: Platform)
    requires INT_MIN <= code <= INT_MAX
    requires |ResponseBytes(body, encoding, platform)| <= INT_MAX
    ensures var bytes := ResponseBytes(body, encoding, platform);
      ReadResponse(BodyResponse(code, message, contentType, body, encoding, platform)) ==
        Some(Response(StatusLineParts(HttpVersion, code, message),
                      BodyFields(contentType, IntToString(|bytes|), encoding), bytes))
    ensures var bytes := ResponseBytes(body, encoding, platform);
      ParseInt(IntToString(|bytes|)) == Some(|bytes|)
  {
    var bytes := ResponseBytes(body, encoding, platform);
    var fields := BodyFields(contentType, IntToString(|bytes|), encoding);
    StatusLineRoundTrip(code, message);
    ParseIntOfString(|bytes|);
    BodyHeaderLines(code, message, contentType, |bytes|, encoding);
    ResponseFieldNames(contentType, IntToString(|bytes|), encoding);
    assert RawBody([Raw(bytes)]) == Some(bytes) by {
      assert [Raw(bytes)][1..] == [];
      assert bytes + [] == bytes;
    }
    ReadResponseOf(StatusLine(code, message), StatusLineParts(HttpVersion, code, message), fields, [Raw(bytes)], bytes);
  }

  /**
   * Looked up by name, the body fields give the client the length written, the
   * encoding exactly when one was applied, and `close` for the connection.
   */
  lemma BodyFieldValues(contentType: string, length: string, encoding: Option<string>)
    ensures FieldValue(BodyFields(contentType, length, encoding), "Content-Type") == Some(contentType)
    ensures FieldValue(BodyFields(contentType, length, encoding), "Content-Length") == Some(length)
    ensures FieldValue(BodyFields(contentType, length, encoding), "Content-Encoding") ==
      if SupportsEncoding(encoding) then encoding else None
    ensures FieldValue(BodyFields(contentType, length, encoding), "Connection") == Some("close")
  {
    var fields := BodyFields(contentType, length, encoding);
    // the four names differ in length, hence pairwise
    assert |"Content-Type"| == 12 && |"Content-Length"| == 14;
    assert |"Content-Encoding"| == 16 && |"Connection"| == 10;
    var tail := EncodingFields(encoding) + StatusFields;
    assert fields[1..][1..] == tail;
    assert FieldValue(StatusFields, "Connection") == Some("close");
    assert FieldValue(StatusFields, "Content-Encoding") == None by {
      assert StatusFields[1..] == [];
    }
    if SupportsEncoding(encoding) {
      assert tail[1..] == StatusFields;
      assert FieldValue(tail, "Connection") == Some("close");
      assert FieldValue(tail, "Content-Encoding") == encoding;
    } else {
      assert tail == StatusFields;
    }
    assert FieldValue(fields[1..], "Connection") == Some("close");
    assert FieldValue(fields[1..], "Content-Encoding") == FieldValue(tail, "Content-Encoding");
  }

  /** On the wire, for any line separator, the body bytes are exactly what follows the header block. */
  lemma BodyFollowsHeaderBlock(code: int, message: string, contentType: string, body: string,
                               encoding: Option<string>, platform: Platform)
    ensures var bytes := ResponseBytes(body, encoding, platform);
      var header := BodyHeaderBlock(code, message, contentType, |bytes|, encoding);
      Render(BodyResponse(code, message, contentType, body, encoding, platform), platform.lineSeparator, platform.defaultCharset)
        == Render(header, platform.lineSeparator, platform.defaultCharset) + bytes
  {
    var bytes := ResponseBytes(body, encoding, platform);
    var header := BodyHeaderBlock(code, message, contentType, |bytes|, encoding);
    RenderAppend(header, [Raw(bytes)], platform.lineSeparator, platform.defaultCharset);
    assert Render([Raw(bytes)], platform.lineSeparator, platform.defaultCharset) == bytes by {
      assert [Raw(bytes)][1..] == [];
    }
  }
}
