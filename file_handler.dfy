/**
 * The `/files/` endpoints: a POST stores the request body as a file under
 * `<user.dir>/files/`, a GET sends a stored file back as an octet stream,
 * copied to the connection through a 4096-byte buffer.
 */
module FileHandler {
  import opened JreText
  import opened JreNumbers
  import opened JreIo
  import opened HttpConstants
  import opened ResponseWriter

  /** `System.getProperty("user.dir") + "/files/" + filename`; the name is used as it comes. */
  function FilePath(userDir: string, filename: string): (path: string)
    ensures |path| == |userDir| + 7 + |filename|
    ensures path[..|userDir|] == userDir && path[|path| - |filename|..] == filename
  {
    userDir + "/files/" + filename
  }

  /** Different file names under the same `user.dir` are different paths. */
  lemma FilePathInjective(userDir: string, a: string, b: string)
    ensures FilePath(userDir, a) == FilePath(userDir, b) <==> a == b
  {
    if FilePath(userDir, a) == FilePath(userDir, b) {
      var p := FilePath(userDir, a);
      assert a == p[|p| - |a|..];
    }
  }

  /**
   * An IOException raised by `Files.write`: its message, and what it leaves
   * at the path. The file is opened (created or truncated) before any byte is
   * written, so a failure while opening leaves the path as it was
   * (`kept == None`), and a later one leaves the file holding the first
   * `kept` bytes of the data, or all of them when it struck on closing.
   */
  datatype WriteFault = WriteFault(message: string, kept: Option<nat>)

  /** The regular files after `Files.write(path, data)` has ended, normally or with `fault`. */
  function AfterWrite(files: map<string, seq<byte>>, path: string, data: seq<byte>,
                      fault: Option<WriteFault>): (after: map<string, seq<byte>>)
    ensures fault.None? ==> path in after && after[path] == data
    ensures after == files || (path in after && after[path] <= data)
    ensures path in after ==> after == files[path := after[path]]
    ensures fault.Some? && fault.value.kept.None? ==> after == files
  {
    match fault
    case None => files[path := data]
    case Some(WriteFault(_, None)) => files
    case Some(WriteFault(_, Some(k))) => files[path := data[..if k < |data| then k else |data|]]
  }

  /**
   * The regular files of the file system, by path. A path that is absent here
   * is missing or names something that is not a regular file.
   */
  class FileStore {
    var files: map<string, seq<byte>>

    constructor (initial: map<string, seq<byte>>)
      ensures files == initial
    {
      files := initial;
    }

    /**
     * `Files.write(path, data)`: creates the file or replaces its contents.
     * Whether the operating system raises an IOException, its message and
     * what it leaves at the path, is `fault`.
     */
    method WriteAll(path: string, data: seq<byte>, fault: Option<WriteFault>) returns (failure: Option<string>)
      modifies this
      ensures failure.None? <==> fault.None?
      ensures fault.Some? ==> failure == Some(fault.value.message)
      ensures files == AfterWrite(old(files), path, data, fault)
    {
      match fault
      case None =>
        files := files[path := data];
        failure := None;
      case Some(WriteFault(message, kept)) =>
        if kept.Some? {
          var k := if kept.value < |data| then kept.value else |data|;
          files := files[path := data[..k]];
        }
        failure := Some(message);
    }
  }

  // ------------------------------------------------------------ creation

  /** The Content-Length header as the creation reads it, "0" when absent. */
  function LengthText(headers: map<string, string>): (text: string)
    ensures "Content-Length" in headers ==> text == headers["Content-Length"]
    ensures "Content-Length" !in headers ==> ParseInt(text) == Some(0)
  {
    if "Content-Length" in headers then headers["Content-Length"] else "0"
  }

  /**
   * What handling one request leaves behind: the unchecked exception that
   * ended it, if any; the writes to the connection; the request chars not
   * read; and the regular files.
   */
  datatype Exchange = Exchange(
    thrown: Option<Unchecked>,
    response: seq<Emit>,
    rest: seq<char>,
    files: map<string, seq<byte>>)

  /**
   * `handleFileCreation`: an unparsable length is a NumberFormatException and
   * a negative one a NegativeArraySizeException, both before anything is
   * read or written; 0 is "Missing Content-Length header"; a single read that
   * brings fewer chars than announced is "Incomplete request body"; a path
   * that `Paths.get` refuses is an InvalidPathException, which the
   * `catch (IOException e)` does not catch, after the body has been read;
   * otherwise the chars, as UTF-8, are written to the file, and the answer is
   * 201 or the IOException's message, the file then being what the failure left.
   */
  function CreationOf(headers: map<string, string>, input: seq<char>, avail: nat, writeFault: Option<WriteFault>,
                      platform: Platform, filename: string, files: map<string, seq<byte>>): (c: Exchange)
    ensures c.thrown.None? <==> c.response != []
    ensures c.thrown.Some? ==> c.files == files
    ensures c.thrown.Some? && c.thrown != Some(InvalidPathException) ==> c.rest == input
  {
    var parsed := ParseInt(LengthText(headers));
    if parsed.None? then Exchange(Some(NumberFormatException), [], input, files)
    else if parsed.value == 0 then
      Exchange(None, StatusResponse(BadRequestStatusCode, "Missing Content-Length header"), input, files)
    else if parsed.value < 0 then Exchange(Some(NegativeArraySizeException), [], input, files)
    else
      var chunk := ReadChars(input, parsed.value, avail);
      if chunk.count != parsed.value then
        Exchange(None, StatusResponse(BadRequestStatusCode, "Incomplete request body"), chunk.rest, files)
      else if platform.invalidPath(FilePath(platform.userDir, filename)) then
        Exchange(Some(InvalidPathException), [], chunk.rest, files)
      else
        var written := AfterWrite(files, FilePath(platform.userDir, filename), platform.utf8(chunk.chars), writeFault);
        if writeFault.Some? then
          Exchange(None, StatusResponse(BadRequestStatusCode, "Failed to create file: " + writeFault.value.message),
                   chunk.rest, written)
        else Exchange(None, StatusResponse(CreatedStatusCode, CreatedMessage), chunk.rest, written)
  }

  /** `handleFileCreation(reader, writer, filename, headers)` */
  method HandleFileCreation(reader: Reader, out: Output, store: FileStore, filename: string,
                            headers: map<string, string>, avail: nat, writeFault: Option<WriteFault>, platform: Platform)
    returns (thrown: Option<Unchecked>)
    modifies reader, out, store
    ensures var c := CreationOf(headers, old(reader.rest), avail, writeFault, platform, filename, old(store.files));
      && thrown == c.thrown
      && out.emitted == old(out.emitted) + c.response
      && reader.rest == c.rest
      && store.files == c.files
  {
    var parsed := ParseInt(LengthText(headers));
    if parsed.None? {
      return Some(NumberFormatException);
    }
    var contentLength := parsed.value;
    if contentLength == 0 {
      SendResponse(out, BadRequestStatusCode, "Missing Content-Length header");
      return None;
    }
    if contentLength < 0 {
      return Some(NegativeArraySizeException);
    }
    var bytesRead, content := reader.Read(contentLength, avail);
    if bytesRead != contentLength {
      SendResponse(out, BadRequestStatusCode, "Incomplete request body");
      return None;
    }
    var filePath := FilePath(platform.userDir, filename);
    if platform.invalidPath(filePath) {
      return Some(InvalidPathException);
    }
    var failure := store.WriteAll(filePath, platform.utf8(content), writeFault);
    if failure.None? {
      SendResponse(out, CreatedStatusCode, CreatedMessage);
    } else {
      SendResponse(out, BadRequestStatusCode, "Failed to create file: " + failure.value);
    }
    thrown := None;
  }

  // ------------------------------------------------------------- serving

  /** The size of the copy buffer. */
  const BufferSize: nat := 4096

  /**
   * How many bytes one `read(buffer)` on the file's stream delivers when
   * `remaining` are left: at least one, at most the buffer's size, and
   * otherwise what the stream has at hand (`avail`).
   */
  function ChunkSize(remaining: nat, avail: nat): (k: nat)
    requires remaining > 0
    ensures 1 <= k <= BufferSize && k <= remaining
  {
    var k := if avail < 1 then 1 else avail;
    var k' := if k < BufferSize then k else BufferSize;
    if k' < remaining then k' else remaining
  }

  /**
   * The writes that copy `data` from offset `pos` on, one per read; `avail(i)`
   * is what the `i`-th read has at hand.
   */
  function RawChunks(data: seq<byte>, pos: nat, avail: nat -> nat, call: nat): seq<Emit>
    requires pos <= |data|
    decreases |data| - pos
  {
    if pos == |data| then []
    else
      var k := ChunkSize(|data| - pos, avail(call));
      [Raw(data[pos..pos + k])] + RawChunks(data, pos + k, avail, call + 1)
  }

  /** The header block of a file response. */
  function FileHeader(length: nat): seq<Emit>
  {
    LeadLines(OkStatusCode, OkMessage, ContentTypeOctetStream, length) + ClosingLines()
  }

  /** What `handleFileRequest` writes for the file at `path`. */
  function FileResponse(files: map<string, seq<byte>>, path: string, avail: nat -> nat): (r: seq<Emit>)
    ensures r != [] && r[0] == Line(StatusLine(if path in files then OkStatusCode else NotFoundStatusCode,
                                               if path in files then OkMessage else NotFoundMessage))
  {
    if path !in files then StatusResponse(NotFoundStatusCode, NotFoundMessage)
    else FileHeader(|files[path]|) + RawChunks(files[path], 0, avail, 0)
  }

  /** `bis.read(buffer)` on the file's contents `data`, of which `pos` bytes have been read. */
  method ReadBytes(buffer: array<byte>, data: seq<byte>, pos: nat, avail: nat) returns (n: int)
    requires buffer.Length == BufferSize
    requires pos <= |data|
    modifies buffer
    ensures pos == |data| ==> n == -1
    ensures pos < |data| ==> n == ChunkSize(|data| - pos, avail) && buffer[..n] == data[pos..pos + n]
  {
    if pos == |data| {
      return -1;
    }
    n := ChunkSize(|data| - pos, avail);
    var k := 0;
    while k < n
      invariant 0 <= k <= n
      invariant buffer[..k] == data[pos..pos + k]
    {
      buffer[k] := data[pos + k];
      k := k + 1;
    }
  }

  /** `handleFileRequest(writer, filename, clientSocket)` */
  method HandleFileRequest(out: Output, store: FileStore, filename: string, avail: nat -> nat, platform: Platform)
    modifies out
    ensures out.emitted == old(out.emitted) + FileResponse(store.files, FilePath(platform.userDir, filename), avail)
  {
    var path := FilePath(platform.userDir, filename);
    if path !in store.files {
      SendResponse(out, NotFoundStatusCode, NotFoundMessage);
      return;
    }
    var data := store.files[path];
    ghost var start := out.emitted;
    PrintFileHeader(out, |data|);
    CopyFile(out, data, avail);
    assert out.emitted == start + (FileHeader(|data|) + RawChunks(data, 0, avail, 0));
  }

  /** The header lines of a file response, printed before the switch to the output stream. */
  method PrintFileHeader(out: Output, length: nat)
    modifies out
    ensures out.emitted == old(out.emitted) + FileHeader(length)
  {
    ghost var start := out.emitted;
    out.Println(StatusLine(OkStatusCode, OkMessage));
    out.Println(ContentTypeHeader + ContentTypeOctetStream);
    out.Println(ContentLengthHeader + IntToString(length));
    assert out.emitted == start + LeadLines(OkStatusCode, OkMessage, ContentTypeOctetStream, length);
    PrintClosing(out);
  }

  /** The copy loop: read into the buffer until end of file, writing what each read delivered. */
  method CopyFile(out: Output, data: seq<byte>, avail: nat -> nat)
    modifies out
    ensures out.emitted == old(out.emitted) + RawChunks(data, 0, avail, 0)
  {
    var buffer := new byte[BufferSize];
    var pos, call := 0, 0;
    var bytesRead := ReadBytes(buffer, data, pos, avail(call));
    while bytesRead != -1
      invariant pos <= |data|
      invariant bytesRead == -1 <==> pos == |data|
      invariant pos < |data| ==>
        bytesRead == ChunkSize(|data| - pos, avail(call)) && buffer[..bytesRead] == data[pos..pos + bytesRead]
      invariant out.emitted + RawChunks(data, pos, avail, call) == old(out.emitted) + RawChunks(data, 0, avail, 0)
      decreases |data| - pos
    {
      out.Write(buffer[..bytesRead]);
      pos, call := pos + bytesRead, call + 1;
      bytesRead := ReadBytes(buffer, data, pos, avail(call));
    }
  }

  // -------------------------------------------------------------- lemmas

  /** Every write of the copy carries between one byte and a full buffer. */
  lemma {:induction false} ChunkBounds(data: seq<byte>, pos: nat, avail: nat -> nat, call: nat)
    requires pos <= |data|
    ensures forall i :: 0 <= i < |RawChunks(data, pos, avail, call)| ==>
      RawChunks(data, pos, avail, call)[i].Raw? && 1 <= |RawChunks(data, pos, avail, call)[i].bytes| <= BufferSize
    decreases |data| - pos
  {
    if pos < |data| {
      var k := ChunkSize(|data| - pos, avail(call));
      ChunkBounds(data, pos + k, avail, call + 1);
    }
  }

  /** However the reads fall, the writes of the copy put exactly the rest of the file on the connection. */
  lemma {:induction false} RawBodyOfChunks(data: seq<byte>, pos: nat, avail: nat -> nat, call: nat)
    requires pos <= |data|
    ensures RawBody(RawChunks(data, pos, avail, call)) == Some(data[pos..])
    decreases |data| - pos
  {
    if pos < |data| {
      var k := ChunkSize(|data| - pos, avail(call));
      var chunks := RawChunks(data, pos, avail, call);
      RawBodyOfChunks(data, pos + k, avail, call + 1);
      assert chunks[0] == Raw(data[pos..pos + k]);
      assert chunks[1..] == RawChunks(data, pos + k, avail, call + 1);
      assert data[pos..] == data[pos..pos + k] + data[pos + k..];
    } else {
      assert data[pos..] == [];
    }
  }

  /** A file response is a response with a body, sent without encoding. */
  lemma FileHeaderIsBodyHeader(length: nat)
    ensures FileHeader(length) == BodyHeaderBlock(OkStatusCode, OkMessage, ContentTypeOctetStream, length, None)
  {
    assert EncodingLines(None) == [];
  }

  /**
   * A stored file reads back as 200 OK with Content-Type
   * `application/octet-stream`, its length and `Connection: close`, and the
   * file's bytes as the body; a missing one as 404 Not Found.
   */
  lemma ReadFileResponse(files: map<string, seq<byte>>, path: string, avail: nat -> nat)
    ensures path !in files ==>
      ReadResponse(FileResponse(files, path, avail)) ==
        Some(Response(StatusLineParts(HttpVersion, NotFoundStatusCode, NotFoundMessage), StatusFields, []))
    ensures path in files ==>
      ReadResponse(FileResponse(files, path, avail)) ==
        Some(Response(StatusLineParts(HttpVersion, OkStatusCode, OkMessage),
                      BodyFields(ContentTypeOctetStream, IntToString(|files[path]|), None), files[path]))
  {
    if path !in files {
      ReadStatusResponse(NotFoundStatusCode, NotFoundMessage);
    } else {
      var data := files[path];
      var fields := BodyFields(ContentTypeOctetStream, IntToString(|data|), None);
      StatusLineRoundTrip(OkStatusCode, OkMessage);
      FileHeaderIsBodyHeader(|data|);
      BodyHeaderLines(OkStatusCode, OkMessage, ContentTypeOctetStream, |data|, None);
      ResponseFieldNames(ContentTypeOctetStream, IntToString(|data|), None);
      RawBodyOfChunks(data, 0, avail, 0);
      assert data[0..] == data;
      ReadResponseOf(StatusLine(OkStatusCode, OkMessage), StatusLineParts(HttpVersion, OkStatusCode, OkMessage),
                     fields, RawChunks(data, 0, avail, 0), data);
    }
  }

  /**
   * The outcomes of a creation: the two exceptions exactly for an unparsable
   * and for a negative length, with nothing written and nothing read; 201
   * Created exactly when a positive length is read in full and the write
   * succeeds, the file then holding the first `n` chars of the body in UTF-8,
   * `n` being the announced length. The files change only after such a
   * complete read, only at the file's path, which then holds a prefix of
   * those bytes, and only with 201 or the write's failure as the answer.
   */
  lemma CreationOutcomes(headers: map<string, string>, input: seq<char>, avail: nat, writeFault: Option<WriteFault>,
                         platform: Platform, filename: string, files: map<string, seq<byte>>)
    ensures var c := CreationOf(headers, input, avail, writeFault, platform, filename, files);
      var parsed := ParseInt(LengthText(headers));
      && (c.thrown == Some(NumberFormatException) <==> parsed.None?)
      && (c.thrown == Some(NegativeArraySizeException) <==> parsed.Some? && parsed.value < 0)
      && (c.thrown.Some? ==> c.response == [] && c.files == files)
      && (c.thrown == Some(InvalidPathException) <==>
            parsed.Some? && parsed.value > 0 && |input| >= parsed.value
            && (avail >= parsed.value || parsed.value == 1) && platform.invalidPath(FilePath(platform.userDir, filename)))
      && (c.thrown == Some(InvalidPathException) ==> c.rest == input[parsed.value..])
      && (c.thrown.Some? && c.thrown != Some(InvalidPathException) ==> c.rest == input)
      && ("Content-Length" !in headers || parsed == Some(0) ==>
            c == Exchange(None, StatusResponse(BadRequestStatusCode, "Missing Content-Length header"), input, files))
      && (parsed.Some? && parsed.value > 0 && !(|input| >= parsed.value && (avail >= parsed.value || parsed.value == 1)) ==>
            c == Exchange(None, StatusResponse(BadRequestStatusCode, "Incomplete request body"),
                          ReadChars(input, parsed.value, avail).rest, files))
      && (parsed.Some? && parsed.value > 0 && |input| >= parsed.value && (avail >= parsed.value || parsed.value == 1)
          && !platform.invalidPath(FilePath(platform.userDir, filename)) && writeFault.Some? ==>
            c == Exchange(None, StatusResponse(BadRequestStatusCode, "Failed to create file: " + writeFault.value.message),
                          input[parsed.value..],
                          AfterWrite(files, FilePath(platform.userDir, filename), platform.utf8(input[..parsed.value]),
                                     writeFault)))
      && (c.response == StatusResponse(CreatedStatusCode, CreatedMessage) <==>
            parsed.Some? && parsed.value > 0 && |input| >= parsed.value
            && (avail >= parsed.value || parsed.value == 1)
            && !platform.invalidPath(FilePath(platform.userDir, filename)) && writeFault.None?)
      && (c.response == StatusResponse(CreatedStatusCode, CreatedMessage) ==>
            c.files == files[FilePath(platform.userDir, filename) := platform.utf8(input[..parsed.value])]
            && c.rest == input[parsed.value..])
      && (c.files != files ==>
            && parsed.Some? && parsed.value > 0 && |input| >= parsed.value
            && (avail >= parsed.value || parsed.value == 1)
            && !platform.invalidPath(FilePath(platform.userDir, filename))
            && FilePath(platform.userDir, filename) in c.files
            && c.files == files[FilePath(platform.userDir, filename) := c.files[FilePath(platform.userDir, filename)]]
            && c.files[FilePath(platform.userDir, filename)] <= platform.utf8(input[..parsed.value])
            && (c.response == StatusResponse(CreatedStatusCode, CreatedMessage)
                || (writeFault.Some? && writeFault.value.kept.Some?
                    && c.response == StatusResponse(BadRequestStatusCode,
                                                    "Failed to create file: " + writeFault.value.message))))
  {
    var c := CreationOf(headers, input, avail, writeFault, platform, filename, files);
    var parsed := ParseInt(LengthText(headers));
    if parsed.Some? && parsed.value > 0 {
      ReadCharsComplete(input, parsed.value, avail);
      var chunk := ReadChars(input, parsed.value, avail);
      if chunk.count != parsed.value {
        StatusResponseInjective(BadRequestStatusCode, "Incomplete request body", CreatedStatusCode, CreatedMessage);
      } else if platform.invalidPath(FilePath(platform.userDir, filename)) {
        assert chunk.rest == input[parsed.value..];
      } else if writeFault.Some? {
        StatusResponseInjective(BadRequestStatusCode, "Failed to create file: " + writeFault.value.message,
                              CreatedStatusCode, CreatedMessage);
        assert chunk.rest == input[parsed.value..];
      } else {
        assert chunk.rest == input[parsed.value..];
      }
    } else if parsed.Some? && parsed.value == 0 {
      StatusResponseInjective(BadRequestStatusCode, "Missing Content-Length header", CreatedStatusCode, CreatedMessage);
    }
  }

  /**
   * POST then GET: once a creation has answered 201 Created, a request for
   * the same file name sends back 200 OK with exactly the bytes stored, the
   * body of the POST in UTF-8.
   */
  lemma CreatedFileIsServed(headers: map<string, string>, input: seq<char>, avail: nat, writeFault: Option<WriteFault>,
                            platform: Platform, filename: string, files: map<string, seq<byte>>, readAvail: nat -> nat)
    requires CreationOf(headers, input, avail, writeFault, platform, filename, files).response ==
      StatusResponse(CreatedStatusCode, CreatedMessage)
    ensures ParseInt(LengthText(headers)).Some? && 0 < ParseInt(LengthText(headers)).value <= |input|
    ensures var c := CreationOf(headers, input, avail, writeFault, platform, filename, files);
      var n := ParseInt(LengthText(headers)).value;
      var stored := platform.utf8(input[..n]);
      ReadResponse(FileResponse(c.files, FilePath(platform.userDir, filename), readAvail)) ==
        Some(Response(StatusLineParts(HttpVersion, OkStatusCode, OkMessage),
                      BodyFields(ContentTypeOctetStream, IntToString(|stored|), None), stored))
  {
    var c := CreationOf(headers, input, avail, writeFault, platform, filename, files);
    CreationOutcomes(headers, input, avail, writeFault, platform, filename, files);
    ReadFileResponse(c.files, FilePath(platform.userDir, filename), readAvail);
  }
}
