/**
 * One connection from start to end: read and check the request line, read
 * the header lines into a map, and hand the request to the GET or POST
 * handler. Every outcome is one response followed by closing the connection,
 * or an unchecked exception before anything is written.
 */
module ClientHandler {
  import opened JreText
  import opened JreNumbers
  import opened JreIo
  import opened HttpConstants
  import opened ResponseWriter
  import opened FileHandler
  import opened RequestHandler

  /** What the network and the operating system decide, as seen by one request. */
  datatype Environment = Environment(
    bodyAvail: nat,            // chars the single body read of a POST receives at once
    writeFault: Option<WriteFault>,  // the IOException raised by writing the file, if any
    fileAvail: nat -> nat)     // bytes each read of a served file delivers at once

  // ---------------------------------------------------------- request line

  /** The request line accepted with its three parts, or the response that refuses it. */
  datatype LineCheck = Accepted(httpMethod: string, path: string, version: string) | Refused(code: int, message: string)

  /**
   * The checks of `run`, in order: empty line, number of parts, method,
   * version, path. The first that fails picks the response.
   */
  function CheckRequestLine(requestLine: string): (c: LineCheck)
    ensures c.Accepted? ==> IsValidMethod(c.httpMethod) && IsValidHttpVersion(c.version) && IsValidPath(c.path)
    ensures c.Refused? ==>
      c.code == BadRequestStatusCode || c.code == NotImplementedStatusCode || c.code == NotFoundStatusCode
    ensures !ValidateRequestLine(requestLine) ==> c == Refused(BadRequestStatusCode, BadRequestMessage)
  {
    if requestLine == "" || !ValidateRequestLine(requestLine) then Refused(BadRequestStatusCode, BadRequestMessage)
    else
      var parts := Split(requestLine, " ");
      if !IsValidMethod(parts[0]) then Refused(NotImplementedStatusCode, NotImplementedMessage)
      else if !IsValidHttpVersion(parts[2]) then Refused(BadRequestStatusCode, "Bad Request - Invalid HTTP Version")
      else if !IsValidPath(parts[1]) then Refused(NotFoundStatusCode, NotFoundMessage)
      else Accepted(parts[0], parts[1], parts[2])
  }

  // ---------------------------------------------------------------- headers

  /** How the header loop ends: at the empty line, at a line without ": ", or with an exception. */
  datatype HeaderScan =
    | Scanned(headers: map<string, string>, rest: seq<char>)
    | Rejected(rest: seq<char>)
    | ScanFailed(error: Unchecked, rest: seq<char>)

  /**
   * The header loop of `run` from the chars `rest` on, `headers` holding the
   * lines read so far: the end of the stream is a NullPointerException (the
   * `null` line is dereferenced); a line without ": " is refused; a line that
   * splits at ": " into fewer than two parts is an
   * ArrayIndexOutOfBoundsException; otherwise the first two parts are put in
   * the map, replacing an earlier value for the same name.
   */
  function ScanHeaders(rest: seq<char>, headers: map<string, string>): (scan: HeaderScan)
    ensures |scan.rest| <= |rest|
    ensures scan.Scanned? ==> headers.Keys <= scan.headers.Keys
    ensures scan.ScanFailed? ==>
      (scan.error == NullPointerException && scan.rest == []) || scan.error == ArrayIndexOutOfBoundsException
    decreases |rest|
  {
    match NextLine(rest)
    case EndOfStream => ScanFailed(NullPointerException, rest)
    case GotLine(headerLine, after) =>
      if headerLine == "" then Scanned(headers, after)
      else if !IsValidHeader(headerLine) then Rejected(after)
      else
        var headerParts := Split(headerLine, ": ");
        if |headerParts| < 2 then ScanFailed(ArrayIndexOutOfBoundsException, after)
        else ScanHeaders(after, headers[headerParts[0] := headerParts[1]])
  }

  /** The header loop of `run`. */
  method ReadHeaders(reader: Reader) returns (scan: HeaderScan)
    modifies reader
    ensures scan == ScanHeaders(old(reader.rest), map[])
    ensures reader.rest == scan.rest
  {
    var headers := map[];
    while true
      invariant ScanHeaders(reader.rest, headers) == ScanHeaders(old(reader.rest), map[])
      decreases |reader.rest|
    {
      var headerLine := reader.ReadLine();
      if headerLine.None? {
        return ScanFailed(NullPointerException, reader.rest);
      }
      if headerLine.value == "" {
        return Scanned(headers, reader.rest);
      }
      if !IsValidHeader(headerLine.value) {
        return Rejected(reader.rest);
      }
      var headerParts := Split(headerLine.value, ": ");
      if |headerParts| < 2 {
        return ScanFailed(ArrayIndexOutOfBoundsException, reader.rest);
      }
      headers := headers[headerParts[0] := headerParts[1]];
    }
  }

  // ------------------------------------------------------------ connection

  /** Everything one connection comes to, from the chars the client sends. */
  function Serve(input: seq<char>, files: map<string, seq<byte>>, env: Environment, platform: Platform): (e: Exchange)
    ensures e.thrown.None? <==> e.response != []
  {
    match NextLine(input)
    case EndOfStream => Exchange(None, StatusResponse(BadRequestStatusCode, BadRequestMessage), input, files)
    case GotLine(requestLine, rest) => AnswerLine(requestLine, rest, files, env, platform)
  }

  /** What follows reading the request line: its refusal, or the rest of the request handled. */
  function AnswerLine(requestLine: string, rest: seq<char>, files: map<string, seq<byte>>,
                      env: Environment, platform: Platform): (e: Exchange)
    ensures e.thrown.None? <==> e.response != []
  {
    match CheckRequestLine(requestLine)
    case Refused(code, message) => Exchange(None, StatusResponse(code, message), rest, files)
    case Accepted(httpMethod, path, _) => Respond(httpMethod, path, rest, files, env, platform)
  }

  /** What follows an accepted request line: the header loop, then the handler the method picks. */
  function Respond(httpMethod: string, path: string, rest: seq<char>, files: map<string, seq<byte>>,
                   env: Environment, platform: Platform): (e: Exchange)
    ensures e.thrown.None? <==> e.response != []
  {
    match ScanHeaders(rest, map[])
    case ScanFailed(error, after) => Exchange(Some(error), [], after, files)
    case Rejected(after) =>
      Exchange(None, StatusResponse(BadRequestStatusCode, "Bad Request - Invalid Header Format"), after, files)
    case Scanned(headers, after) => Route(httpMethod, path, headers, after, files, env, platform)
  }

  /** The handler the method picks, ignoring case; any other method is refused once more. */
  function Route(httpMethod: string, path: string, headers: map<string, string>, rest: seq<char>,
                 files: map<string, seq<byte>>, env: Environment, platform: Platform): (e: Exchange)
    ensures e.thrown.None? <==> e.response != []
  {
    if EqualsIgnoreCase(httpMethod, "GET") then
      GetExchange(path, headers, rest, files, env.fileAvail, platform)
    else if EqualsIgnoreCase(httpMethod, "POST") then
      PostExchange(path, headers, rest, env.bodyAvail, env.writeFault, platform, files)
    else Exchange(None, StatusResponse(NotImplementedStatusCode, NotImplementedMessage), rest, files)
  }

  /** `run()`: the connection is closed afterwards whatever happens. */
  method Run(reader: Reader, out: Output, store: FileStore, env: Environment, platform: Platform)
    returns (thrown: Option<Unchecked>)
    modifies reader, out, store
    ensures var e := Serve(old(reader.rest), old(store.files), env, platform);
      && thrown == e.thrown
      && out.emitted == old(out.emitted) + e.response
      && reader.rest == e.rest
      && store.files == e.files
  {
    var requestLine := reader.ReadLine();
    if requestLine.None? {
      SendResponse(out, BadRequestStatusCode, BadRequestMessage);
      return None;
    }
    thrown := HandleRequestLine(reader, out, store, requestLine.value, env, platform);
  }

  /** The checks of `run()` on the request line, in order, then the rest of the request. */
  method HandleRequestLine(reader: Reader, out: Output, store: FileStore, line: string,
                           env: Environment, platform: Platform)
    returns (thrown: Option<Unchecked>)
    modifies reader, out, store
    ensures var e := AnswerLine(line, old(reader.rest), old(store.files), env, platform);
      && thrown == e.thrown
      && out.emitted == old(out.emitted) + e.response
      && reader.rest == e.rest
      && store.files == e.files
  {
    if line == "" || !ValidateRequestLine(line) {
      SendResponse(out, BadRequestStatusCode, BadRequestMessage);
      return None;
    }
    var requestParts := Split(line, " ");
    var httpMethod, path, httpVersion := requestParts[0], requestParts[1], requestParts[2];
    if !IsValidMethod(httpMethod) {
      SendResponse(out, NotImplementedStatusCode, NotImplementedMessage);
      return None;
    }
    if !IsValidHttpVersion(httpVersion) {
      SendResponse(out, BadRequestStatusCode, "Bad Request - Invalid HTTP Version");
      return None;
    }
    if !IsValidPath(path) {
      SendResponse(out, NotFoundStatusCode, NotFoundMessage);
      return None;
    }
    thrown := Dispatch(reader, out, store, httpMethod, path, env, platform);
  }

  /** The part of `run()` after the request line has passed its checks. */
  method Dispatch(reader: Reader, out: Output, store: FileStore, httpMethod: string, path: string,
                  env: Environment, platform: Platform)
    returns (thrown: Option<Unchecked>)
    modifies reader, out, store
    ensures var e := Respond(httpMethod, path, old(reader.rest), old(store.files), env, platform);
      && thrown == e.thrown
      && out.emitted == old(out.emitted) + e.response
      && reader.rest == e.rest
      && store.files == e.files
  {
    var scan := ReadHeaders(reader);
    match scan
    case ScanFailed(error, _) =>
      thrown := Some(error);
    case Rejected(_) =>
      SendResponse(out, BadRequestStatusCode, "Bad Request - Invalid Header Format");
      thrown := None;
    case Scanned(headers, _) =>
      thrown := Handle(reader, out, store, httpMethod, path, headers, env, platform);
  }

  /** The dispatch at the end of `run()`. */
  method Handle(reader: Reader, out: Output, store: FileStore, httpMethod: string, path: string,
                headers: map<string, string>, env: Environment, platform: Platform)
    returns (thrown: Option<Unchecked>)
    modifies reader, out, store
    ensures var e := Route(httpMethod, path, headers, old(reader.rest), old(store.files), env, platform);
      && thrown == e.thrown
      && out.emitted == old(out.emitted) + e.response
      && reader.rest == e.rest
      && store.files == e.files
  {
    if EqualsIgnoreCase(httpMethod, "GET") {
      thrown := HandleGetRequest(out, path, headers, store, env.fileAvail, platform);
      GetExchangeRest(path, headers, reader.rest, store.files, env.fileAvail, platform);
    } else if EqualsIgnoreCase(httpMethod, "POST") {
      thrown := HandlePostRequest(reader, out, store, path, headers, env.bodyAvail, env.writeFault, platform);
    } else {
      SendResponse(out, NotImplementedStatusCode, NotImplementedMessage);
      thrown := None;
    }
  }

  // ---------------------------------------------------- request-line lemmas

  /**
   * A request line made of three space-free parts is judged on its parts in
   * the order of `run`: the method first, then the version, then the path.
   * So a bad method gets 501 whatever the version and path are.
   */
  lemma CheckRequestLineOfParts(httpMethod: string, path: string, version: string, k: nat)
    requires NoChar(httpMethod, ' ') && NoChar(path, ' ') && NoChar(version, ' ') && version != ""
    ensures CheckRequestLine(httpMethod + " " + path + " " + version + Repeat(' ', k)) ==
      if !IsValidMethod(httpMethod) then Refused(NotImplementedStatusCode, NotImplementedMessage)
      else if !IsValidHttpVersion(version) then Refused(BadRequestStatusCode, "Bad Request - Invalid HTTP Version")
      else if !IsValidPath(path) then Refused(NotFoundStatusCode, NotFoundMessage)
      else Accepted(httpMethod, path, version)
  {
    RequestLineOfParts(httpMethod, path, version, k);
  }

  /**
   * Conversely, an accepted line is exactly its three parts joined by single
   * spaces, followed only by spaces, and each part passed its check.
   */
  lemma AcceptedLineShape(requestLine: string)
    requires CheckRequestLine(requestLine).Accepted?
    ensures var a := CheckRequestLine(requestLine);
      && IsValidMethod(a.httpMethod) && IsValidHttpVersion(a.version) && IsValidPath(a.path)
      && NoChar(a.httpMethod, ' ') && NoChar(a.path, ' ') && NoChar(a.version, ' ')
      && exists k: nat :: requestLine == a.httpMethod + " " + a.path + " " + a.version + Repeat(' ', k)
  {
    ValidRequestLineShape(requestLine);
  }

  /** The final 501 of `run` is never sent: an accepted method is GET or POST, ignoring case. */
  lemma AcceptedMethodIsRouted(httpMethod: string)
    requires IsValidMethod(httpMethod)
    ensures EqualsIgnoreCase(httpMethod, "GET") || EqualsIgnoreCase(httpMethod, "POST")
  {
  }

  // --------------------------------------------------------- header lemmas

  /** A header a client can send as one line and read back as a name and a value. */
  predicate WellFormedField(field: (string, string))
  {
    IndexOf(field.0, ": ").None? && IndexOf(field.1, ": ").None? && field.1 != "" && OneLine(field.0) && OneLine(field.1)
  }

  /** Text without a line break, which `readLine` returns whole. */
  predicate OneLine(s: string)
  {
    forall j :: 0 <= j < |s| ==> !IsLineBreak(s[j])
  }

  lemma OneLineConcat(a: string, b: string)
    requires OneLine(a) && OneLine(b)
    ensures OneLine(a + b)
  {
    assert forall j :: |a| <= j < |a + b| ==> (a + b)[j] == b[j - |a|];
  }

  /** The header lines for `fields`, each `name: value` ended by `eol`. */
  function HeaderText(fields: seq<(string, string)>, eol: string): (text: string)
    ensures fields == [] ==> text == ""
  {
    if fields == [] then "" else fields[0].0 + ": " + fields[0].1 + eol + HeaderText(fields[1..], eol)
  }

  /** The map after putting each field in turn, a later name replacing an earlier one. */
  function HeaderMap(headers: map<string, string>, fields: seq<(string, string)>): map<string, string>
    decreases |fields|
  {
    if fields == [] then headers else HeaderMap(headers[fields[0].0 := fields[0].1], fields[1..])
  }

  /** One well-formed header line is read, put into the map, and the loop goes on. */
  lemma ScanFieldLine(name: string, value: string, eol: string, after: seq<char>, headers: map<string, string>)
    requires WellFormedField((name, value))
    requires eol == "\n" || eol == "\r\n"
    ensures ScanHeaders(name + ": " + value + eol + after, headers) == ScanHeaders(after, headers[name := value])
  {
    OneLineConcat(name, ": ");
    OneLineConcat(name + ": ", value);
    NextLineOfTerminated(name + ": " + value, eol, after);
    IndexOfField(name, value);
    SplitKeyValue(name, value);
  }

  /**
   * Well-formed header lines in front of any text are each read and put into
   * the map, in order, before the loop goes on with that text.
   */
  lemma {:induction false} ScanHeaderLines(fields: seq<(string, string)>, eol: string, s: seq<char>,
                                           headers: map<string, string>)
    requires forall i :: 0 <= i < |fields| ==> WellFormedField(fields[i])
    requires eol == "\n" || eol == "\r\n"
    ensures ScanHeaders(HeaderText(fields, eol) + s, headers) == ScanHeaders(s, HeaderMap(headers, fields))
    decreases |fields|
  {
    if fields == [] {
      assert HeaderText(fields, eol) + s == s;
    } else {
      var (name, value) := fields[0];
      var after := HeaderText(fields[1..], eol) + s;
      assert HeaderText(fields, eol) + s == name + ": " + value + eol + after;
      ScanFieldLine(name, value, eol, after, headers);
      ScanHeaderLines(fields[1..], eol, s, headers[name := value]);
    }
  }

  /**
   * Well-formed header lines followed by an empty line are read into the map
   * that puts them in order, and reading stops right after the empty line.
   */
  lemma ScanHeaderText(fields: seq<(string, string)>, eol: string, rest: seq<char>,
                       headers: map<string, string>)
    requires forall i :: 0 <= i < |fields| ==> WellFormedField(fields[i])
    requires eol == "\n" || eol == "\r\n"
    ensures ScanHeaders(HeaderText(fields, eol) + eol + rest, headers) == Scanned(HeaderMap(headers, fields), rest)
  {
    assert HeaderText(fields, eol) + eol + rest == HeaderText(fields, eol) + (eol + rest);
    ScanHeaderLines(fields, eol, eol + rest, headers);
    NextLineOfTerminated("", eol, rest);
    assert "" + eol + rest == eol + rest;
  }

  /**
   * Header lines that the stream ends after, with no empty line, end the
   * loop with a NullPointerException.
   */
  lemma UnterminatedHeadersThrow(fields: seq<(string, string)>, eol: string, headers: map<string, string>)
    requires forall i :: 0 <= i < |fields| ==> WellFormedField(fields[i])
    requires eol == "\n" || eol == "\r\n"
    ensures ScanHeaders(HeaderText(fields, eol), headers) == ScanFailed(NullPointerException, [])
  {
    assert HeaderText(fields, eol) + [] == HeaderText(fields, eol);
    ScanHeaderLines(fields, eol, [], headers);
  }

  /** A non-empty line without ": " ends the header loop with a refusal. */
  lemma ScanMalformedLine(bad: string, eol: string, rest: seq<char>, headers: map<string, string>)
    requires bad != "" && OneLine(bad) && !Contains(bad, ": ")
    requires eol == "\n" || eol == "\r\n"
    ensures ScanHeaders(bad + eol + rest, headers) == Rejected(rest)
  {
    NextLineOfTerminated(bad, eol, rest);
  }

  /**
   * After well-formed header lines, the first line without ": " ends the
   * loop with a refusal, and nothing after that line is read: an accepted
   * request line is then answered 400 with the header-format message.
   */
  lemma MalformedHeaderRejected(fields: seq<(string, string)>, bad: string, eol: string,
                                rest: seq<char>, headers: map<string, string>, httpMethod: string, path: string,
                                files: map<string, seq<byte>>, env: Environment, platform: Platform)
    requires forall i :: 0 <= i < |fields| ==> WellFormedField(fields[i])
    requires bad != "" && OneLine(bad) && !Contains(bad, ": ")
    requires eol == "\n" || eol == "\r\n"
    ensures ScanHeaders(HeaderText(fields, eol) + bad + eol + rest, headers) == Rejected(rest)
    ensures Respond(httpMethod, path, HeaderText(fields, eol) + bad + eol + rest, files, env, platform) ==
      Exchange(None, StatusResponse(BadRequestStatusCode, "Bad Request - Invalid Header Format"), rest, files)
  {
    assert HeaderText(fields, eol) + bad + eol + rest == HeaderText(fields, eol) + (bad + eol + rest);
    ScanHeaderLines(fields, eol, bad + eol + rest, headers);
    ScanMalformedLine(bad, eol, rest, HeaderMap(headers, fields));
    ScanHeaderLines(fields, eol, bad + eol + rest, map[]);
    ScanMalformedLine(bad, eol, rest, HeaderMap(map[], fields));
  }

  /** The pieces of parts joined by ": ", none of which holds ": ", are those parts. */
  lemma {:induction false} PiecesOfFieldParts(parts: seq<string>)
    requires |parts| >= 1
    requires forall i :: 0 <= i < |parts| ==> IndexOf(parts[i], ": ").None?
    ensures Pieces(Join(parts, ": "), ": ") == parts
    decreases |parts|
  {
    if |parts| > 1 {
      var head, tail := parts[0], Join(parts[1..], ": ");
      var s := head + ": " + tail;
      assert Join(parts, ": ") == s;
      IndexOfField(head, tail);
      assert s[..|head|] == head && s[|head| + 2..] == tail;
      assert Pieces(s, ": ") == [head] + Pieces(tail, ": ");
      PiecesOfFieldParts(parts[1..]);
      assert parts == [head] + parts[1..];
    }
  }

  /**
   * The header line is cut at every ": ", not only at the first: only the
   * piece between the first and the second is stored as the value.
   */
  lemma ValueEndsAtSecondSeparator(name: string, value: string, more: string, eol: string, rest: seq<char>,
                                   headers: map<string, string>)
    requires IndexOf(name, ": ").None? && IndexOf(value, ": ").None? && IndexOf(more, ": ").None?
    requires value != "" && more != ""
    requires OneLine(name + ": " + value + ": " + more)
    requires eol == "\n" || eol == "\r\n"
    ensures ScanHeaders(name + ": " + value + ": " + more + eol + rest, headers) ==
      ScanHeaders(rest, headers[name := value])
  {
    var line := name + ": " + value + ": " + more;
    var parts := [name, value, more];
    JoinThree(name, value, more, ": ");
    PiecesOfFieldParts(parts);
    IndexOfField(name, value + ": " + more);
    assert line == name + ": " + (value + ": " + more);
    NextLineOfTerminated(line, eol, rest);
  }

  /**
   * A header line with nothing after its ": " splits into fewer than two
   * pieces (Java drops the empty trailing piece), and reading it is an
   * ArrayIndexOutOfBoundsException.
   */
  lemma EmptyValueThrows(name: string, eol: string, rest: seq<char>, headers: map<string, string>)
    requires IndexOf(name, ": ").None? && OneLine(name)
    requires eol == "\n" || eol == "\r\n"
    ensures ScanHeaders(name + ": " + eol + rest, headers) == ScanFailed(ArrayIndexOutOfBoundsException, rest)
  {
    var line := name + ": ";
    assert line == Join([name, ""], ": ");
    PiecesOfFieldParts([name, ""]);
    IndexOfField(name, "");
    OneLineConcat(name, ": ");
    NextLineOfTerminated(line, eol, rest);
    assert [name, ""][..1] == [name];
  }

  /**
   * The map keeps every name it had and every name put, and nothing else; a
   * name's value is the one put last, or the old one when it is never put.
   */
  lemma {:induction false} HeaderMapLastWins(headers: map<string, string>, fields: seq<(string, string)>, name: string)
    ensures name in HeaderMap(headers, fields) <==>
      name in headers || exists i :: 0 <= i < |fields| && fields[i].0 == name
    ensures (forall i :: 0 <= i < |fields| ==> fields[i].0 != name) && name in headers ==>
      HeaderMap(headers, fields)[name] == headers[name]
    ensures forall i | 0 <= i < |fields| && fields[i].0 == name
                     && (forall j :: i < j < |fields| ==> fields[j].0 != name) ::
      HeaderMap(headers, fields)[name] == fields[i].1
    decreases |fields|
  {
    if fields != [] {
      var tail := fields[1..];
      HeaderMapLastWins(headers[fields[0].0 := fields[0].1], tail, name);
      assert forall i :: 1 <= i < |fields| ==> fields[i] == tail[i - 1];
      if name !in headers && exists i :: 0 <= i < |fields| && fields[i].0 == name {
        var i :| 0 <= i < |fields| && fields[i].0 == name;
        if i > 0 { assert tail[i - 1].0 == name; }
      }
    }
  }

  // ------------------------------------------------------- request lemmas

  /**
   * A refused request line (empty, or failing one of the checks) is answered
   * with the refusal alone: nothing after that line is read and no file
   * changes. The end of the stream in place of a request line is refused
   * with 400 Bad Request.
   */
  lemma RefusedLineReadsNothingMore(input: seq<char>, files: map<string, seq<byte>>, env: Environment,
                                    platform: Platform)
    ensures input == [] ==>
      Serve(input, files, env, platform) == Exchange(None, StatusResponse(BadRequestStatusCode, BadRequestMessage), [], files)
    ensures input != [] && CheckRequestLine(NextLine(input).text).Refused? ==>
      var check := CheckRequestLine(NextLine(input).text);
      Serve(input, files, env, platform) ==
        Exchange(None, StatusResponse(check.code, check.message), NextLine(input).rest, files)
    ensures CheckRequestLine("") == Refused(BadRequestStatusCode, BadRequestMessage)
  {
  }

  /** What a client sends: the request line, the header lines, an empty line and the body. */
  function RequestText(httpMethod: string, path: string, version: string, fields: seq<(string, string)>,
                       eol: string, body: seq<char>): seq<char>
  {
    httpMethod + " " + path + " " + version + eol + HeaderText(fields, eol) + eol + body
  }

  /** The parts of a request line that a client can send. */
  predicate WellFormedParts(httpMethod: string, path: string, version: string)
  {
    && NoChar(httpMethod, ' ') && NoChar(path, ' ') && NoChar(version, ' ') && version != ""
    && OneLine(httpMethod) && OneLine(path) && OneLine(version)
  }

  /**
   * A whole request is refused on its request line with nothing read past
   * that line, or reaches the handler its method picks with the headers in
   * a map (a later header replacing an earlier one) and just the body left
   * to read.
   */
  lemma ServeRequest(httpMethod: string, path: string, version: string, fields: seq<(string, string)>,
                     eol: string, body: seq<char>, files: map<string, seq<byte>>, env: Environment,
                     platform: Platform)
    requires WellFormedParts(httpMethod, path, version)
    requires forall i :: 0 <= i < |fields| ==> WellFormedField(fields[i])
    requires eol == "\n" || eol == "\r\n"
    ensures var check := CheckRequestLine(httpMethod + " " + path + " " + version);
      Serve(RequestText(httpMethod, path, version, fields, eol, body), files, env, platform) ==
        if check.Refused? then
          Exchange(None, StatusResponse(check.code, check.message), HeaderText(fields, eol) + eol + body, files)
        else Route(httpMethod, path, HeaderMap(map[], fields), body, files, env, platform)
  {
    var line := httpMethod + " " + path + " " + version;
    var after := HeaderText(fields, eol) + eol + body;
    assert RequestText(httpMethod, path, version, fields, eol, body) == line + eol + after;
    OneLineConcat(httpMethod, " ");
    OneLineConcat(httpMethod + " ", path);
    OneLineConcat(httpMethod + " " + path, " ");
    OneLineConcat(httpMethod + " " + path + " ", version);
    NextLineOfTerminated(line, eol, after);
    CheckRequestLineOfParts(httpMethod, path, version, 0);
    assert line + Repeat(' ', 0) == line;
    ScanHeaderText(fields, eol, body, map[]);
  }

  /**
   * A request whose line is accepted and whose headers hold a line without
   * ": " is answered 400 with the header-format message, nothing after that
   * line read and no file touched.
   */
  lemma ServeMalformedHeader(httpMethod: string, path: string, version: string, fields: seq<(string, string)>,
                             bad: string, eol: string, rest: seq<char>, files: map<string, seq<byte>>,
                             env: Environment, platform: Platform)
    requires WellFormedParts(httpMethod, path, version)
    requires CheckRequestLine(httpMethod + " " + path + " " + version).Accepted?
    requires forall i :: 0 <= i < |fields| ==> WellFormedField(fields[i])
    requires bad != "" && OneLine(bad) && !Contains(bad, ": ")
    requires eol == "\n" || eol == "\r\n"
    ensures Serve(httpMethod + " " + path + " " + version + eol + (HeaderText(fields, eol) + bad + eol + rest),
                  files, env, platform) ==
      Exchange(None, StatusResponse(BadRequestStatusCode, "Bad Request - Invalid Header Format"), rest, files)
  {
    var line := httpMethod + " " + path + " " + version;
    var after := HeaderText(fields, eol) + bad + eol + rest;
    assert NextLine(line + eol + after) == GotLine(line, after) by {
      OneLineConcat(httpMethod, " ");
      OneLineConcat(httpMethod + " ", path);
      OneLineConcat(httpMethod + " " + path, " ");
      OneLineConcat(httpMethod + " " + path + " ", version);
      NextLineOfTerminated(line, eol, after);
    }
    assert CheckRequestLine(line) == Accepted(httpMethod, path, version) by {
      CheckRequestLineOfParts(httpMethod, path, version, 0);
      assert line + Repeat(' ', 0) == line;
    }
    MalformedHeaderRejected(fields, bad, eol, rest, map[], httpMethod, path, files, env, platform);
  }

  /** The method and version constants pass the checks of `run` and pick their handlers. */
  lemma ConstantParts()
    ensures NoChar(HttpGet, ' ') && OneLine(HttpGet) && NoChar(HttpPost, ' ') && OneLine(HttpPost)
    ensures NoChar(HttpVersion, ' ') && OneLine(HttpVersion) && HttpVersion != ""
    ensures IsValidMethod(HttpGet) && IsValidMethod(HttpPost) && IsValidHttpVersion(HttpVersion)
    ensures EqualsIgnoreCase(HttpGet, "GET") && EqualsIgnoreCase(HttpPost, "POST") && !EqualsIgnoreCase(HttpPost, "GET")
  {
    assert HttpPost[0] == 'P';
  }

  /** A request with an accepted GET line and well-formed headers reaches `handleGetRequest`. */
  lemma ServeGet(path: string, fields: seq<(string, string)>, eol: string, body: seq<char>,
                 files: map<string, seq<byte>>, env: Environment, platform: Platform)
    requires NoChar(path, ' ') && OneLine(path) && IsValidPath(path)
    requires forall i :: 0 <= i < |fields| ==> WellFormedField(fields[i])
    requires eol == "\n" || eol == "\r\n"
    ensures Serve(RequestText(HttpGet, path, HttpVersion, fields, eol, body), files, env, platform) ==
      GetExchange(path, HeaderMap(map[], fields), body, files, env.fileAvail, platform)
  {
    ConstantParts();
    CheckRequestLineOfParts(HttpGet, path, HttpVersion, 0);
    assert HttpGet + " " + path + " " + HttpVersion + Repeat(' ', 0) == HttpGet + " " + path + " " + HttpVersion;
    ServeRequest(HttpGet, path, HttpVersion, fields, eol, body, files, env, platform);
  }

  /** A request with an accepted POST line and well-formed headers reaches `handlePostRequest`. */
  lemma ServePost(path: string, fields: seq<(string, string)>, eol: string, body: seq<char>,
                  files: map<string, seq<byte>>, env: Environment, platform: Platform)
    requires NoChar(path, ' ') && OneLine(path) && IsValidPath(path)
    requires forall i :: 0 <= i < |fields| ==> WellFormedField(fields[i])
    requires eol == "\n" || eol == "\r\n"
    ensures Serve(RequestText(HttpPost, path, HttpVersion, fields, eol, body), files, env, platform) ==
      PostExchange(path, HeaderMap(map[], fields), body, env.bodyAvail, env.writeFault, platform, files)
  {
    ConstantParts();
    CheckRequestLineOfParts(HttpPost, path, HttpVersion, 0);
    assert HttpPost + " " + path + " " + HttpVersion + Repeat(' ', 0) == HttpPost + " " + path + " " + HttpVersion;
    ServeRequest(HttpPost, path, HttpVersion, fields, eol, body, files, env, platform);
  }

  /**
   * `GET /echo/<message> HTTP/1.1` is answered with 200 OK and the message
   * (the path after "/echo/") as a text body, read back from the wire form
   * whatever headers come with it, as long as the encoding choice does not
   * throw.
   */
  lemma EchoRequest(path: string, fields: seq<(string, string)>, eol: string, body: seq<char>,
                    files: map<string, seq<byte>>, env: Environment, platform: Platform)
    requires StartsWith(path, "/echo/") && NoChar(path, ' ') && OneLine(path)
    requires forall i :: 0 <= i < |fields| ==> WellFormedField(fields[i])
    requires eol == "\n" || eol == "\r\n"
    requires EncodingOf(Lookup(HeaderMap(map[], fields), "Accept-Encoding")).Chosen?
    requires var encoding := EncodingOf(Lookup(HeaderMap(map[], fields), "Accept-Encoding")).encoding;
      |ResponseBytes(path[6..], encoding, platform)| <= INT_MAX
    ensures var encoding := EncodingOf(Lookup(HeaderMap(map[], fields), "Accept-Encoding")).encoding;
      var bytes := ResponseBytes(path[6..], encoding, platform);
      var e := Serve(RequestText(HttpGet, path, HttpVersion, fields, eol, body), files, env, platform);
      && e.thrown == None && e.files == files && e.rest == body
      && ReadResponse(e.response) ==
           Some(Response(StatusLineParts(HttpVersion, OkStatusCode, OkMessage),
                         BodyFields(ContentTypeText, IntToString(|bytes|), encoding), bytes))
  {
    var headers := HeaderMap(map[], fields);
    ServeGet(path, fields, eol, body, files, env, platform);
    GetExchangeRest(path, headers, body, files, env.fileAvail, platform);
    EchoPathReadsBack(path, headers, body, files, env.fileAvail, platform);
  }

  /** `EchoReadsBack` for a path given whole. */
  lemma EchoPathReadsBack(path: string, headers: map<string, string>, input: seq<char>,
                          files: map<string, seq<byte>>, fileAvail: nat -> nat, platform: Platform)
    requires StartsWith(path, "/echo/")
    requires EncodingOf(Lookup(headers, "Accept-Encoding")).Chosen?
    requires |ResponseBytes(path[6..], EncodingOf(Lookup(headers, "Accept-Encoding")).encoding, platform)| <= INT_MAX
    ensures var encoding := EncodingOf(Lookup(headers, "Accept-Encoding")).encoding;
      var bytes := ResponseBytes(path[6..], encoding, platform);
      var e := GetExchange(path, headers, input, files, fileAvail, platform);
      && e.thrown == None
      && ReadResponse(e.response) ==
           Some(Response(StatusLineParts(HttpVersion, OkStatusCode, OkMessage),
                         BodyFields(ContentTypeText, IntToString(|bytes|), encoding), bytes))
  {
    assert path == "/echo/" + path[6..];
    EchoReadsBack(path[6..], headers, input, files, fileAvail, platform);
  }

  /**
   * A file that `POST /files/<name>` created is served back by a later
   * `GET /files/<name>` as an octet stream holding the body's first `n`
   * chars in UTF-8, `n` being the announced Content-Length, and without
   * Content-Encoding whatever encoding the GET accepts.
   */
  lemma PostThenGet(path: string, fields: seq<(string, string)>, eol: string, body: seq<char>,
                    files: map<string, seq<byte>>, env: Environment, platform: Platform,
                    laterFields: seq<(string, string)>, later: seq<char>, laterEnv: Environment)
    requires StartsWith(path, "/files/") && NoChar(path, ' ') && OneLine(path)
    requires forall i :: 0 <= i < |fields| ==> WellFormedField(fields[i])
    requires forall i :: 0 <= i < |laterFields| ==> WellFormedField(laterFields[i])
    requires EncodingOf(Lookup(HeaderMap(map[], laterFields), "Accept-Encoding")).Chosen?
    requires eol == "\n" || eol == "\r\n"
    requires Serve(RequestText(HttpPost, path, HttpVersion, fields, eol, body), files, env, platform).response
      == StatusResponse(CreatedStatusCode, CreatedMessage)
    ensures ParseInt(LengthText(HeaderMap(map[], fields))).Some?
    ensures 0 < ParseInt(LengthText(HeaderMap(map[], fields))).value <= |body|
    ensures var n := ParseInt(LengthText(HeaderMap(map[], fields))).value;
      var stored := platform.utf8(body[..n]);
      var created := Serve(RequestText(HttpPost, path, HttpVersion, fields, eol, body), files, env, platform);
      var e := Serve(RequestText(HttpGet, path, HttpVersion, laterFields, eol, later), created.files, laterEnv, platform);
      e.thrown == None && ReadResponse(e.response) ==
        Some(Response(StatusLineParts(HttpVersion, OkStatusCode, OkMessage),
                      BodyFields(ContentTypeOctetStream, IntToString(|stored|), None), stored))
  {
    var headers := HeaderMap(map[], fields);
    ServePost(path, fields, eol, body, files, env, platform);
    CreatedFileIsServed(headers, body, env.bodyAvail, env.writeFault, platform, path[7..], files, laterEnv.fileAvail);
    var created := CreationOf(headers, body, env.bodyAvail, env.writeFault, platform, path[7..], files);
    ServeGet(path, laterFields, eol, later, created.files, laterEnv, platform);
    FileGet(path, HeaderMap(map[], laterFields), later, created.files, laterEnv.fileAvail, platform);
  }

  /**
   * GET `/files/<name>` answers with the file response for that name, never
   * encoded, whatever encoding the client accepts, as long as choosing it
   * does not throw.
   */
  lemma FileGet(path: string, headers: map<string, string>, input: seq<char>, files: map<string, seq<byte>>,
                fileAvail: nat -> nat, platform: Platform)
    requires StartsWith(path, "/files/") && EncodingOf(Lookup(headers, "Accept-Encoding")).Chosen?
    ensures var e := GetExchange(path, headers, input, files, fileAvail, platform);
      e.thrown == None && e.response == FileResponse(files, FilePath(platform.userDir, path[7..]), fileAvail)
  {
    assert path[..1] == path[..7][..1];
    assert path != "/" && path != "/user-agent" && !StartsWith(path, "/echo/") by {
      assert path[1] == 'f';
    }
  }

  // ---------------------------------------------------------- whole-request outcomes

  /**
   * What a changed file system says about an exchange: no exception, a
   * single file under `<user.dir>/files/` changed, and the answer is 201
   * Created or the failure of a write that had already opened the file.
   */
  ghost predicate FileChangeOutcome(e: Exchange, files: map<string, seq<byte>>, env: Environment, platform: Platform)
  {
    && e.thrown.None?
    && (exists name :: FilePath(platform.userDir, name) in e.files
          && e.files == files[FilePath(platform.userDir, name) := e.files[FilePath(platform.userDir, name)]])
    && (e.response == StatusResponse(CreatedStatusCode, CreatedMessage)
        || (env.writeFault.Some? && env.writeFault.value.kept.Some?
            && e.response == StatusResponse(BadRequestStatusCode, "Failed to create file: " + env.writeFault.value.message)))
  }

  /** The outcome facts of `ServeOutcomes` for the handler a method picks. */
  lemma RouteOutcomes(httpMethod: string, path: string, headers: map<string, string>, rest: seq<char>,
                      files: map<string, seq<byte>>, env: Environment, platform: Platform)
    ensures var e := Route(httpMethod, path, headers, rest, files, env, platform);
      && (e.thrown.Some? ==> e.response == [] && e.files == files)
      && (e.files != files ==> FileChangeOutcome(e, files, env, platform))
  {
    if EqualsIgnoreCase(httpMethod, "GET") {
      GetExchangeRest(path, headers, rest, files, env.fileAvail, platform);
    } else if EqualsIgnoreCase(httpMethod, "POST") && StartsWith(path, "/files/") {
      CreationOutcomes(headers, rest, env.bodyAvail, env.writeFault, platform, path[7..], files);
      var e := Route(httpMethod, path, headers, rest, files, env, platform);
      if e.files != files {
        var p := FilePath(platform.userDir, path[7..]);
        assert p in e.files && e.files == files[p := e.files[p]];
      }
    }
  }

  /**
   * Whatever the client sends: when an exception ends the connection nothing
   * has been written and no file has changed; files change only at one path
   * under `<user.dir>/files/`, and only when the answer is 201 Created or
   * reports a write that failed after opening the file.
   */
  lemma ServeOutcomes(input: seq<char>, files: map<string, seq<byte>>, env: Environment, platform: Platform)
    ensures var e := Serve(input, files, env, platform);
      && (e.thrown.Some? ==> e.response == [] && e.files == files)
      && (e.files != files ==> FileChangeOutcome(e, files, env, platform))
  {
    if input != [] {
      var requestLine, rest := NextLine(input).text, NextLine(input).rest;
      var check := CheckRequestLine(requestLine);
      if check.Accepted? {
        var scan := ScanHeaders(rest, map[]);
        if scan.Scanned? {
          RouteOutcomes(check.httpMethod, check.path, scan.headers, scan.rest, files, env, platform);
        }
      }
    }
  }
}
