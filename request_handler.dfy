/**
 * The checks the server makes of a request line and its parts, the choice of
 * a content encoding from Accept-Encoding, and the routing of GET and POST
 * requests to their responses.
 */
module RequestHandler {
  import opened JreText
  import opened JreNumbers
  import opened JreIo
  import opened HttpConstants
  import opened ContentEncoder
  import opened ResponseWriter
  import opened FileHandler

  // ------------------------------------------------------------ validation

  /**
   * `validateRequestLine`: the line splits at single spaces into exactly three
   * parts, which then hold no space and end with a non-empty one.
   */
  predicate ValidateRequestLine(requestLine: string): (valid: bool)
    ensures valid ==> var parts := Split(requestLine, " ");
      && |parts| == 3 && parts[2] != ""
      && IndexOf(parts[0], " ").None? && IndexOf(parts[1], " ").None? && IndexOf(parts[2], " ").None?
  {
    |Split(requestLine, " ")| == 3
  }

  /** `isValidMethod`: GET or POST, in any case; `ValidMethodSpellings` lists the spellings. */
  predicate IsValidMethod(httpMethod: string): (valid: bool)
    ensures valid ==> (|httpMethod| == 3 || |httpMethod| == 4) && NoChar(httpMethod, ' ')
  {
    EqualsIgnoreCase(httpMethod, HttpGet) || EqualsIgnoreCase(httpMethod, HttpPost)
  }

  /** `isValidHttpVersion`: HTTP/1.1, in any case; only the letters may vary. */
  predicate IsValidHttpVersion(version: string): (valid: bool)
    ensures valid ==> |version| == 8 && version[4..] == "/1.1"
  {
    EqualsIgnoreCase(version, HttpVersion)
  }

  /** `isValidHeader`: the line holds ": " somewhere. */
  predicate IsValidHeader(headerLine: string): (valid: bool)
    ensures valid <==> exists j :: OccursAt(headerLine, ": ", j)
  {
    Contains(headerLine, ": ")
  }

  /**
   * `isValidPath`: the root, the user agent, or under `/echo/` or `/files/`;
   * every valid path starts with a slash, so a request that reaches routing
   * never gets "Invalid URI".
   */
  predicate IsValidPath(path: string): (valid: bool)
    ensures valid ==> StartsWith(path, "/")
  {
    path == "/" || StartsWith(path, "/echo/") || path == "/user-agent" || StartsWith(path, "/files/")
  }

  // -------------------------------------------------------------- encoding

  /** What `getEncoding` comes to: an encoding, none (`null`), or an exception. */
  datatype EncodingChoice = Chosen(encoding: Option<string>) | Crashed(error: Unchecked)

  /** `encoding.trim().split(";")[0]`; `None` when the split is empty and the indexing throws. */
  function CleanEncoding(encoding: string): (clean: Option<string>)
    ensures clean.None? ==> IndexOf(Trim(encoding), ";").Some?
    ensures clean.Some? ==> IndexOf(clean.value, ";").None?
    ensures IndexOf(Trim(encoding), ";").None? ==> clean == Some(Trim(encoding))
    ensures IndexOf(Trim(encoding), ";").Some? && clean.Some? ==>
      clean.value == Trim(encoding)[..IndexOf(Trim(encoding), ";").value]
    ensures clean.None? <==> Trim(encoding) != [] && forall c :: c in Trim(encoding) ==> c == ';'
  {
    SplitHead(Trim(encoding), ';');
    var parts := Split(Trim(encoding), ";");
    if parts == [] then None else Some(parts[0])
  }

  /**
   * The entries of the header cleaned one by one, in order. Cleaning has no
   * side effect, so cleaning them all up front and stopping at the first
   * entry that decides is the loop of `getEncoding`.
   */
  function Cleaned(encodings: seq<string>): seq<Option<string>>
  {
    seq(|encodings|, k requires 0 <= k < |encodings| => CleanEncoding(encodings[k]))
  }

  /** The loop of `getEncoding` from the `i`-th cleaned entry on. */
  function FirstSupported(cleaned: seq<Option<string>>, i: nat): (choice: EncodingChoice)
    requires i <= |cleaned|
    ensures choice.Crashed? ==> choice.error == ArrayIndexOutOfBoundsException
    ensures choice.Chosen? && choice.encoding.Some? ==> SupportsEncoding(choice.encoding)
    decreases |cleaned| - i
  {
    if i == |cleaned| then Chosen(None)
    else
      match cleaned[i]
      case None => Crashed(ArrayIndexOutOfBoundsException)
      case Some(clean) =>
        if SupportsEncoding(Some(clean)) then Chosen(Some(clean)) else FirstSupported(cleaned, i + 1)
  }

  /** `getEncoding(acceptEncoding)`, the header's value split at commas. */
  function EncodingOf(acceptEncoding: Option<string>): (choice: EncodingChoice)
    ensures choice.Crashed? ==> acceptEncoding.Some? && choice.error == ArrayIndexOutOfBoundsException
    ensures choice.Chosen? && choice.encoding.Some? ==> SupportsEncoding(choice.encoding)
  {
    match acceptEncoding
    case None => Chosen(None)
    case Some(value) => FirstSupported(Cleaned(Split(value, ",")), 0)
  }

  /** A cleaned entry the loop of `getEncoding` passes over: it cleaned without an exception to an unsupported encoding. */
  predicate Unsupported(clean: Option<string>)
  {
    clean.Some? && !SupportsEncoding(clean)
  }

  /** The cleaned entries before the `i`-th are all passed over. */
  predicate PassedOver(cleaned: seq<Option<string>>, i: nat)
    requires i <= |cleaned|
  {
    forall j :: 0 <= j < i ==> Unsupported(cleaned[j])
  }

  /** `getEncoding(acceptEncoding)` */
  method GetEncoding(acceptEncoding: Option<string>) returns (choice: EncodingChoice)
    ensures choice == EncodingOf(acceptEncoding)
  {
    if acceptEncoding.None? {
      return Chosen(None);
    }
    var encodings := Split(acceptEncoding.value, ",");
    var i := 0;
    while i < |encodings|
      invariant i <= |encodings|
      invariant FirstSupported(Cleaned(encodings), i) == FirstSupported(Cleaned(encodings), 0)
    {
      var parts := Split(Trim(encodings[i]), ";");
      if parts == [] {
        return Crashed(ArrayIndexOutOfBoundsException);
      }
      var cleanEncoding := parts[0];
      if SupportsEncoding(Some(cleanEncoding)) {
        return Chosen(Some(cleanEncoding));
      }
      i := i + 1;
    }
    return Chosen(None);
  }

  // --------------------------------------------------------------- routing

  /** `headers.get(name)`; `None` stands for `null`. */
  function Lookup(headers: map<string, string>, name: string): Option<string>
  {
    if name in headers then Some(headers[name]) else None
  }

  /** `headers.getOrDefault("User-Agent", "Not provided")` */
  function UserAgent(headers: map<string, string>): (agent: string)
    ensures "User-Agent" in headers ==> agent == headers["User-Agent"]
    ensures "User-Agent" !in headers ==> agent == "Not provided"
  {
    if "User-Agent" in headers then headers["User-Agent"] else "Not provided"
  }

  /**
   * `handleGetRequest`: a path without a leading slash is a bad URI; then the
   * encoding is chosen (which may throw), and the path picks the response:
   * the root, the user agent, an echo of the rest of the path, a file, or
   * 404. Nothing is read and no file changes.
   */
  function GetExchange(path: string, headers: map<string, string>, input: seq<char>,
                       files: map<string, seq<byte>>, fileAvail: nat -> nat, platform: Platform): (e: Exchange)
    ensures e.thrown.None? <==> e.response != []
    ensures e.rest == input && e.files == files
  {
    if !StartsWith(path, "/") then
      Exchange(None, StatusResponse(BadRequestStatusCode, "Bad Request - Invalid URI"), input, files)
    else
      match EncodingOf(Lookup(headers, "Accept-Encoding"))
      case Crashed(error) => Exchange(Some(error), [], input, files)
      case Chosen(encoding) =>
        Exchange(None, GetResponse(path, headers, encoding, files, fileAvail, platform), input, files)
  }

  /**
   * The `switch` of `handleGetRequest`: the response the path picks, once the
   * encoding is chosen. The root, the user agent, an echo and an existing file
   * are answered 200 OK; anything else is 404.
   */
  function GetResponse(path: string, headers: map<string, string>, encoding: Option<string>,
                       files: map<string, seq<byte>>, fileAvail: nat -> nat, platform: Platform): (r: seq<Emit>)
    ensures var found := path == "/" || path == "/user-agent" || StartsWith(path, "/echo/")
                         || (StartsWith(path, "/files/") && FilePath(platform.userDir, path[7..]) in files);
      r != [] && r[0] == Line(if found then StatusLine(OkStatusCode, OkMessage)
                              else StatusLine(NotFoundStatusCode, NotFoundMessage))
  {
    if path == "/" then StatusResponse(OkStatusCode, OkMessage)
    else if path == "/user-agent" then
      BodyResponse(OkStatusCode, OkMessage, ContentTypeText, UserAgent(headers), encoding, platform)
    else if StartsWith(path, "/echo/") then
      BodyResponse(OkStatusCode, OkMessage, ContentTypeText, path[6..], encoding, platform)
    else if StartsWith(path, "/files/") then
      FileResponse(files, FilePath(platform.userDir, path[7..]), fileAvail)
    else StatusResponse(NotFoundStatusCode, NotFoundMessage)
  }

  /** `handlePostRequest`: only `/files/<name>` creates something; any other path is 404. */
  function PostExchange(path: string, headers: map<string, string>, input: seq<char>, avail: nat,
                        writeFault: Option<WriteFault>, platform: Platform, files: map<string, seq<byte>>): (e: Exchange)
    ensures e.thrown.None? <==> e.response != []
    ensures e.rest != input || e.files != files ==> StartsWith(path, "/files/")
    ensures !StartsWith(path, "/files/") ==>
      e == Exchange(None, StatusResponse(NotFoundStatusCode, NotFoundMessage), input, files)
  {
    if StartsWith(path, "/files/") then CreationOf(headers, input, avail, writeFault, platform, path[7..], files)
    else Exchange(None, StatusResponse(NotFoundStatusCode, NotFoundMessage), input, files)
  }

  /** A GET reads nothing more from the client: what it leaves unread is what it was given. */
  lemma GetExchangeRest(path: string, headers: map<string, string>, input: seq<char>,
                        files: map<string, seq<byte>>, fileAvail: nat -> nat, platform: Platform)
    ensures GetExchange(path, headers, input, files, fileAvail, platform)
         == GetExchange(path, headers, [], files, fileAvail, platform).(rest := input)
    ensures GetExchange(path, headers, input, files, fileAvail, platform).files == files
  {
  }

  /** `handleGetRequest(writer, outputStream, path, headers, clientSocket)` */
  method HandleGetRequest(out: Output, path: string, headers: map<string, string>, store: FileStore,
                          fileAvail: nat -> nat, platform: Platform)
    returns (thrown: Option<Unchecked>)
    modifies out
    ensures var e := GetExchange(path, headers, [], store.files, fileAvail, platform);
      thrown == e.thrown && out.emitted == old(out.emitted) + e.response
  {
    if !StartsWith(path, "/") {
      SendResponse(out, BadRequestStatusCode, "Bad Request - Invalid URI");
      return None;
    }
    var choice := GetEncoding(Lookup(headers, "Accept-Encoding"));
    if choice.Crashed? {
      return Some(choice.error);
    }
    var contentEncoding := choice.encoding;
    if path == "/" {
      SendResponse(out, OkStatusCode, OkMessage);
    } else if path == "/user-agent" {
      HandleUserAgentRequest(out, headers, contentEncoding, platform);
    } else if StartsWith(path, "/echo/") {
      var message := path[6..];
      SendResponseWithBody(out, OkStatusCode, OkMessage, ContentTypeText, message, contentEncoding, platform);
    } else if StartsWith(path, "/files/") {
      HandleFileRequest(out, store, path[7..], fileAvail, platform);
    } else {
      SendResponse(out, NotFoundStatusCode, NotFoundMessage);
    }
    thrown := None;
  }

  /** `handlePostRequest(reader, writer, path, headers)` */
  method HandlePostRequest(reader: Reader, out: Output, store: FileStore, path: string, headers: map<string, string>,
                           avail: nat, writeFault: Option<WriteFault>, platform: Platform)
    returns (thrown: Option<Unchecked>)
    modifies reader, out, store
    ensures var e := PostExchange(path, headers, old(reader.rest), avail, writeFault, platform, old(store.files));
      && thrown == e.thrown
      && out.emitted == old(out.emitted) + e.response
      && reader.rest == e.rest
      && store.files == e.files
  {
    if StartsWith(path, "/files/") {
      var filename := path[7..];
      thrown := HandleFileCreation(reader, out, store, filename, headers, avail, writeFault, platform);
    } else {
      SendResponse(out, NotFoundStatusCode, NotFoundMessage);
      thrown := None;
    }
  }

  /** `handleUserAgentRequest(writer, outputStream, headers, contentEncoding)` */
  method HandleUserAgentRequest(out: Output, headers: map<string, string>, contentEncoding: Option<string>,
                                platform: Platform)
    modifies out
    ensures out.emitted == old(out.emitted) +
      BodyResponse(OkStatusCode, OkMessage, ContentTypeText, UserAgent(headers), contentEncoding, platform)
  {
    var userAgent := if "User-Agent" in headers then headers["User-Agent"] else "Not provided";
    SendResponseWithBody(out, OkStatusCode, OkMessage, ContentTypeText, userAgent, contentEncoding, platform);
  }

  // -------------------------------------------------------- request lines

  lemma JoinThree(a: string, b: string, c: string, d: string)
    ensures Join([a, b, c], d) == a + d + b + d + c
  {
    assert [a, b, c][1..] == [b, c];
    assert [b, c][1..] == [c];
    assert Join([b, c], d) == b + d + c;
    assert a + d + (b + d + c) == a + d + b + d + c;
  }

  /**
   * Three space-free parts, the last one non-empty, joined by single spaces
   * and followed by any number of spaces, make a valid request line that
   * splits back into those parts.
   */
  lemma RequestLineOfParts(httpMethod: string, path: string, version: string, k: nat)
    requires NoChar(httpMethod, ' ') && NoChar(path, ' ') && NoChar(version, ' ') && version != ""
    ensures var line := httpMethod + " " + path + " " + version + Repeat(' ', k);
      ValidateRequestLine(line) && Split(line, " ") == [httpMethod, path, version]
  {
    var parts := [httpMethod, path, version];
    JoinThree(httpMethod, path, version, " ");
    assert forall i :: 0 <= i < |parts| ==> NoChar(parts[i], ' ');
    SplitOfJoin(parts, ' ', k);
  }

  /**
   * Conversely, a valid request line is three space-free parts, the last one
   * non-empty, joined by single spaces and followed only by spaces.
   */
  lemma ValidRequestLineShape(requestLine: string)
    requires ValidateRequestLine(requestLine)
    ensures var parts := Split(requestLine, " ");
      && NoChar(parts[0], ' ') && NoChar(parts[1], ' ') && NoChar(parts[2], ' ') && parts[2] != ""
      && exists k: nat :: requestLine == parts[0] + " " + parts[1] + " " + parts[2] + Repeat(' ', k)
  {
    var parts := Split(requestLine, " ");
    SplitShape(requestLine, ' ');
    JoinThree(parts[0], parts[1], parts[2], " ");
    var k := |requestLine| - |Join(parts, " ")|;
    assert parts == [parts[0], parts[1], parts[2]];
    assert requestLine == parts[0] + " " + parts[1] + " " + parts[2] + Repeat(' ', k);
  }

  /** Two spaces in a row make an empty part, so such a line is not valid. */
  lemma DoubleSpaceRejected(httpMethod: string, path: string, version: string)
    requires NoChar(httpMethod, ' ') && NoChar(path, ' ') && NoChar(version, ' ') && version != ""
    ensures !ValidateRequestLine(httpMethod + "  " + path + " " + version)
  {
    var parts := [httpMethod, "", path, version];
    assert parts[1..] == ["", path, version];
    JoinThree("", path, version, " ");
    assert Join(parts, " ") == httpMethod + "  " + path + " " + version;
    assert forall i :: 0 <= i < |parts| ==> NoChar(parts[i], ' ');
    SplitOfJoin(parts, ' ', 0);
    assert Repeat(' ', 0) == "";
    assert Join(parts, " ") + Repeat(' ', 0) == Join(parts, " ");
  }

  // ------------------------------------------------------------- methods

  /**
   * The accepted methods spelled out: three chars that fold to "get" or four
   * that fold to "post", where the `s` may also be the long s (U+017F), whose
   * upper case is `S`.
   */
  lemma ValidMethodSpellings(httpMethod: string)
    ensures IsValidMethod(httpMethod) <==>
      (|httpMethod| == 3 && httpMethod[0] in {'g', 'G'} && httpMethod[1] in {'e', 'E'} && httpMethod[2] in {'t', 'T'})
      || (|httpMethod| == 4 && httpMethod[0] in {'p', 'P'} && httpMethod[1] in {'o', 'O'}
          && httpMethod[2] in {'s', 'S', '\U{17F}'} && httpMethod[3] in {'t', 'T'})
  {
    assert HttpGet[0] == 'G' && HttpGet[1] == 'E' && HttpGet[2] == 'T';
    assert HttpPost[0] == 'P' && HttpPost[1] == 'O' && HttpPost[2] == 'S' && HttpPost[3] == 'T';
  }

  /**
   * The accepted versions spelled out: the four letters of "HTTP" in either
   * case (no other char folds to h, t or p), then exactly "/1.1".
   */
  lemma ValidVersionSpellings(version: string)
    ensures IsValidHttpVersion(version) <==>
      |version| == 8 && version[0] in {'h', 'H'} && version[1] in {'t', 'T'} && version[2] in {'t', 'T'}
      && version[3] in {'p', 'P'} && version[4..] == "/1.1"
  {
    assert HttpVersion[0] == 'H' && HttpVersion[1] == 'T' && HttpVersion[2] == 'T' && HttpVersion[3] == 'P';
    assert HttpVersion[4] == '/' && HttpVersion[5] == '1' && HttpVersion[6] == '.' && HttpVersion[7] == '1';
    if |version| == 8 && version[4..] == "/1.1" {
      assert version[4] == '/' && version[5] == '1' && version[6] == '.' && version[7] == '1';
    }
  }

  // ------------------------------------------------------------- encoding

  /** Passing over entries does not change what the loop comes to. */
  lemma {:induction false} FirstSupportedSkips(cleaned: seq<Option<string>>, i: nat)
    requires i <= |cleaned| && PassedOver(cleaned, i)
    ensures FirstSupported(cleaned, 0) == FirstSupported(cleaned, i)
  {
    if i > 0 {
      FirstSupportedSkips(cleaned, i - 1);
      assert Unsupported(cleaned[i - 1]);
    }
  }

  /**
   * What `getEncoding` returns is decided by the first entry that is not
   * passed over: it throws when that entry cleans to nothing, returns it
   * cleaned when it is supported, and returns `null` when there is no such
   * entry.
   */
  lemma {:induction false} EncodingChoiceIndex(cleaned: seq<Option<string>>, from: nat) returns (i: nat)
    requires from <= |cleaned| && PassedOver(cleaned, from)
    ensures from <= i <= |cleaned| && PassedOver(cleaned, i)
    ensures i == |cleaned| ==> FirstSupported(cleaned, 0) == Chosen(None)
    ensures i < |cleaned| && cleaned[i].None? ==> FirstSupported(cleaned, 0) == Crashed(ArrayIndexOutOfBoundsException)
    ensures i < |cleaned| && cleaned[i].Some? ==>
      SupportsEncoding(cleaned[i]) && FirstSupported(cleaned, 0) == Chosen(cleaned[i])
    decreases |cleaned| - from
  {
    FirstSupportedSkips(cleaned, from);
    if from == |cleaned| || cleaned[from].None? || SupportsEncoding(cleaned[from]) {
      i := from;
    } else {
      i := EncodingChoiceIndex(cleaned, from + 1);
    }
  }

  /** A chosen encoding is always one the encoder supports. */
  lemma ChosenIsSupported(acceptEncoding: Option<string>)
    ensures EncodingOf(acceptEncoding).Chosen? && EncodingOf(acceptEncoding).encoding.Some? ==>
      SupportsEncoding(EncodingOf(acceptEncoding).encoding)
    ensures acceptEncoding.None? ==> EncodingOf(acceptEncoding) == Chosen(None)
  {
    if acceptEncoding.Some? {
      var i := EncodingChoiceIndex(Cleaned(Split(acceptEncoding.value, ",")), 0);
    }
  }

  /** An entry of only semicolons cleans to nothing, so reaching it throws. */
  lemma SemicolonsEntryThrows(encodings: seq<string>, i: nat, k: nat)
    requires i < |encodings| && PassedOver(Cleaned(encodings), i)
    requires k >= 1 && encodings[i] == Repeat(';', k)
    ensures FirstSupported(Cleaned(encodings), 0) == Crashed(ArrayIndexOutOfBoundsException)
  {
    FirstSupportedSkips(Cleaned(encodings), i);
    var s := encodings[i];
    assert TrimStart(s) == s;
    assert TrimEnd(s) == s;
    DelimitersOnly(';', k);
    assert Cleaned(encodings)[i] == CleanEncoding(s);
  }

  /** An entry `name;parameters` cleans to the name, whatever the parameters say. */
  lemma ParametersCleaned(name: string, params: string)
    requires NoChar(name, ';') && name != [] && name[0] > ' '
    requires params != [] && params[|params| - 1] > ' '
    ensures CleanEncoding(name + ";" + params) == Some(name)
  {
    var v := name + ";" + params;
    TrimmedAlready(v);
    assert IndexOf(v, ";") == Some(|name|) by {
      assert v == name + [';'] + params;
      IndexOfAfter(name, ';', params);
    }
    assert v[0] in v && v[0] != ';';
    assert v[..|name|] == name;
  }

  /**
   * Parameters after a `;` are ignored: `Accept-Encoding: gzip;q=0.5` (in any
   * spelling of gzip the case mapping accepts) picks gzip.
   */
  lemma ParametersIgnored(name: string, params: string)
    requires SupportsEncoding(Some(name))
    requires NoChar(params, ',') && params != [] && params[|params| - 1] > ' '
    ensures EncodingOf(Some(name + ";" + params)) == Chosen(Some(name))
  {
    var v := name + ";" + params;
    assert NoChar(name, ',') && NoChar(name, ';') && name[0] > ' ' by {
      SupportedSpellings(Some(name));
    }
    assert Split(v, ",") == [v] by {
      assert NoChar(v, ',') by {
        forall j | 0 <= j < |v| ensures v[j] != ',' {
          if j < |name| { assert v[j] == name[j]; } else if j > |name| { assert v[j] == params[j - |name| - 1]; }
        }
      }
      IndexOfChar(v, ',');
    }
    ParametersCleaned(name, params);
    assert Cleaned([v]) == [Some(name)];
  }

  // -------------------------------------------------------------- routing

  /**
   * GET `/echo/<message>` reads back as 200 OK with a text body: the message
   * in the default charset, gzip-compressed when the chosen encoding is
   * supported, and its length in Content-Length.
   */
  lemma EchoReadsBack(message: string, headers: map<string, string>, input: seq<char>,
                      files: map<string, seq<byte>>, fileAvail: nat -> nat, platform: Platform)
    requires EncodingOf(Lookup(headers, "Accept-Encoding")).Chosen?
    requires |ResponseBytes(message, EncodingOf(Lookup(headers, "Accept-Encoding")).encoding, platform)| <= INT_MAX
    ensures var encoding := EncodingOf(Lookup(headers, "Accept-Encoding")).encoding;
      var bytes := ResponseBytes(message, encoding, platform);
      var e := GetExchange("/echo/" + message, headers, input, files, fileAvail, platform);
      && e.thrown == None
      && ReadResponse(e.response) ==
           Some(Response(StatusLineParts(HttpVersion, OkStatusCode, OkMessage),
                         BodyFields(ContentTypeText, IntToString(|bytes|), encoding), bytes))
      && (encoding.None? ==> bytes == platform.defaultCharset(message))
  {
    var path := "/echo/" + message;
    var encoding := EncodingOf(Lookup(headers, "Accept-Encoding")).encoding;
    assert path[..6] == "/echo/";
    assert path[..1] == "/";
    assert path[6..] == message;
    assert path != "/" && path != "/user-agent" by {
      assert path[1] == 'e';
    }
    ReadBodyResponse(OkStatusCode, OkMessage, ContentTypeText, message, encoding, platform);
  }

  /** GET `/user-agent` answers with the User-Agent header's value, or "Not provided" without one. */
  lemma UserAgentReadsBack(headers: map<string, string>, input: seq<char>,
                           files: map<string, seq<byte>>, fileAvail: nat -> nat, platform: Platform)
    requires EncodingOf(Lookup(headers, "Accept-Encoding")).Chosen?
    requires |ResponseBytes(UserAgent(headers), EncodingOf(Lookup(headers, "Accept-Encoding")).encoding, platform)| <= INT_MAX
    ensures var encoding := EncodingOf(Lookup(headers, "Accept-Encoding")).encoding;
      var bytes := ResponseBytes(UserAgent(headers), encoding, platform);
      var e := GetExchange("/user-agent", headers, input, files, fileAvail, platform);
      && e.thrown == None
      && ReadResponse(e.response) ==
           Some(Response(StatusLineParts(HttpVersion, OkStatusCode, OkMessage),
                         BodyFields(ContentTypeText, IntToString(|bytes|), encoding), bytes))
    ensures "User-Agent" !in headers ==> UserAgent(headers) == "Not provided"
    ensures "User-Agent" in headers ==> UserAgent(headers) == headers["User-Agent"]
  {
    var encoding := EncodingOf(Lookup(headers, "Accept-Encoding")).encoding;
    assert StartsWith("/user-agent", "/") by {
      assert "/user-agent"[..1] == "/";
    }
    ReadBodyResponse(OkStatusCode, OkMessage, ContentTypeText, UserAgent(headers), encoding, platform);
  }

  /**
   * GET `/` reads back as 200 OK with the single field `Connection: close`
   * and no body, whatever the Accept-Encoding header asks for (as long as
   * choosing does not throw).
   */
  lemma RootReadsBack(headers: map<string, string>, input: seq<char>,
                      files: map<string, seq<byte>>, fileAvail: nat -> nat, platform: Platform)
    requires EncodingOf(Lookup(headers, "Accept-Encoding")).Chosen?
    ensures var e := GetExchange("/", headers, input, files, fileAvail, platform);
      && e.thrown == None
      && ReadResponse(e.response) == Some(Response(StatusLineParts(HttpVersion, OkStatusCode, OkMessage), StatusFields, []))
  {
    assert StartsWith("/", "/") by {
      assert "/"[..1] == "/";
    }
    ReadStatusResponse(OkStatusCode, OkMessage);
  }
}
