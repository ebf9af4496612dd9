# A verified model of a small HTTP/1.1 server's request handling

This project models, in Dafny, what the Java web server in `src/main/java/` does with one
connection. It reads the request line and checks it, reads the header lines into a map, and
routes the request. The routes are `/`, `/echo/<text>`, `/user-agent`, and GET or POST on
`/files/<name>`. It then writes exactly one response and closes the connection, unless an
unchecked exception ends the handling. In the model such an exception always
comes before anything is written; the one case in the Java code where it comes
later, a file that cannot be opened, is listed under "Left out".

Each core class of the server has a module:

| module | Java source | form |
|---|---|---|
| `HttpConstants` | `HTTPConstants.java` | constants |
| `ContentEncoder` | `ContentEncoder.java` | functions; gzip itself is an uninterpreted function |
| `ResponseWriter` | `ResponseWriter.java` | methods that append to an `Output` object, each proved equal to a function of its arguments; plus a reader that parses the writes back |
| `FileHandler` | `FileHandler.java` | a `FileStore` class (the regular files, by path) and methods over it; the 4096-byte copy loop over a `byte` array |
| `RequestHandler` | `RequestHandler.java` | predicates for the validators; a method with a loop for `getEncoding`; methods for the handlers |
| `ClientHandler` | `ClientHandler.java` | the `run()` method, its header loop, and the `Serve` function that specifies a whole connection |

Three helper modules stand for the parts of the Java runtime that the code relies on:

- `JreText` models `String.split` for a literal delimiter, `trim`, `contains`, `startsWith` and `equalsIgnoreCase`. `split` drops trailing empty pieces and returns the whole string when the delimiter is absent.
- `JreNumbers` models `Integer.parseInt` and decimal rendering.
- `JreIo` holds the connection:
  - `Output` records the `println` lines and the raw `write`s, in order.
  - `Reader` models `readLine` and a single `read(buf, 0, n)`.
  - `Platform` holds what the runtime supplies: the line separator, the default charset, UTF-8, gzip, `user.dir`, and which paths `Paths.get` refuses.

What the network and the operating system decide is a parameter (`ClientHandler.Environment`):

- how many chars one body read receives at once;
- how many bytes each file read delivers;
- whether writing a file fails, with which message, and what the failed write leaves at the path: the old contents, or a prefix of the new bytes, since `Files.write` truncates the file before it writes.

Every method is proved equal to a function that specifies it. For the connection as a whole and for the request-level handlers (`handleGetRequest`, `handlePostRequest`, `handleFileCreation`), that function returns an `Exchange`. An `Exchange` holds the exception (if any), the writes, the unread request chars and the files afterwards. The writers and the two handlers that cannot throw or read (`handleFileRequest`, `handleUserAgentRequest`) are specified by functions that return only the writes (`FileHandler.FileResponse`, `ResponseWriter.BodyResponse`). The functions are then tied to their meaning in two ways:

- A response reader (`ResponseWriter.ReadResponse`) parses the writes back into a status line, fields and body. Round-trip lemmas show that every response reads back as the status, headers and bytes the source means to send.
- Lemmas over whole request texts (`ClientHandler.RequestText`) follow a client's request, as the chars the reader decodes, all the way to the response. Decoding the socket's bytes into chars is left out.

Where the code and its documentation differ, the model follows the code:

- **Header values.** A header line is split at every `": "`, and only the piece between the first and the second is kept. So `K: a: b` stores `a`. It is not split only at the first separator. A line `K: ` throws an ArrayIndexOutOfBoundsException.
- **Line endings.** Lines are written with `println`. Their terminator is therefore the platform line separator, which is a parameter here. `HTTPConstants.CRLF` is declared but never written.
- **End of stream.** If the stream ends before the empty line that closes the headers, the `null` line is dereferenced: a NullPointerException, and nothing is written.
- **Compressed file downloads.** A GET on `/files/` never compresses and never sends `Content-Encoding`. The handler for that route takes no encoding argument.
- **Mismatched call sites.** Two calls in the source do not match the methods they call:
  - `run()` calls `handleGetRequest` with four arguments, but the method takes five. The model uses the five-argument form, with the writer and the output stream going to the same connection.
  - `handleGetRequest` passes an encoding to the three-parameter `handleFileRequest`. The model uses the three-parameter method.
- **File names.** File names are not sanitized. The path is `user.dir + "/files/" + name`, whatever the name holds.

## Model

| member | source | states |
|---|---|---|
| `ContentEncoder.SupportsEncoding` | src/main/java/ContentEncoder.java:7-9 | a supported encoding is not null and is four chars long |
| `ContentEncoder.Encode` | src/main/java/ContentEncoder.java:18-28 | an unsupported (or null) encoding returns the bytes unchanged; a supported one returns gzip of the entire input, computed at once |
| `ContentEncoder.EncodedStream` | src/main/java/ContentEncoder.java:11-16 | the stream is wrapped in gzip exactly when the encoding is supported, otherwise the same stream is returned |
| `ContentEncoder.SupportedSpellings` | src/main/java/ContentEncoder.java:7-9 | `supportsEncoding` holds iff the value is four chars spelling gzip in any case, counting the dotted capital I and the dotless small i that Java's case mapping sends to `i`; null is not supported |
| `ResponseWriter.ResponseBytes` | src/main/java/ResponseWriter.java:14-18 | the body bytes are the body in the default charset, gzip-compressed exactly when the encoding is supported |
| `ResponseWriter.StatusLine` | src/main/java/ResponseWriter.java:8 | the status line starts with `HTTP/1.1 ` and ends with the message |
| `ResponseWriter.SendResponse` | src/main/java/ResponseWriter.java:7-11 | appends exactly three lines: `HTTP/1.1 <code> <message>`, `Connection: close`, an empty line |
| `ResponseWriter.SendResponseWithBody` | src/main/java/ResponseWriter.java:13-31 | appends the header block with Content-Length equal to the length of the bytes actually written, then those bytes in one write |
| `ResponseWriter.PrintHeaderBlock` | src/main/java/ResponseWriter.java:19-26 | prints status line, Content-Type, Content-Length, the optional Content-Encoding, Connection: close and the empty line, in that order |
| `ResponseWriter.PrintEncoding` | src/main/java/ResponseWriter.java:22-24 | prints `Content-Encoding: <encoding as passed>` exactly when the encoding is supported |
| `ResponseWriter.PrintClosing` | src/main/java/ResponseWriter.java:9-10 | prints `Connection: close` and the empty line |
| `ResponseWriter.StatusLineRoundTrip` | src/main/java/ResponseWriter.java:8 | the status line reads back as version `HTTP/1.1`, the code and the message, whatever the message holds |
| `ResponseWriter.StatusResponseInjective` | src/main/java/ResponseWriter.java:7-11 | bodiless responses with different codes or messages differ |
| `ResponseWriter.FieldOfHeaderLine` | src/main/java/ResponseWriter.java:20-21 | a header line `name: value` reads back as that field when the name has no colon |
| `ResponseWriter.ReadFieldLines` | src/main/java/ResponseWriter.java:20-26 | header lines followed by the empty line read back as exactly the fields written, in order |
| `ResponseWriter.HeaderPrefixes` | src/main/java/ResponseWriter.java:20-25 | each header prefix printed is the field name followed by a colon and exactly one space |
| `ResponseWriter.StatusResponseLines` | src/main/java/ResponseWriter.java:7-11 | the bodiless response is the status line, the single field Connection: close, and the empty line |
| `ResponseWriter.BodyHeaderLines` | src/main/java/ResponseWriter.java:19-26 | the header block is the status line, the fields Content-Type, Content-Length, optional Content-Encoding, Connection in that order, and the empty line |
| `ResponseWriter.ReadStatusResponse` | src/main/java/ResponseWriter.java:7-11 | a bodiless response reads back as its status, the one field `Connection: close`, and an empty body |
| `ResponseWriter.ReadBodyResponse` | src/main/java/ResponseWriter.java:13-31 | a response with a body reads back as its status, its fields in order, and exactly the (possibly compressed) body bytes, whose count the Content-Length field states |
| `ResponseWriter.BodyFieldValues` | src/main/java/ResponseWriter.java:16-25 | Content-Type, Content-Length and Connection are always present; Content-Encoding is present iff the encoding is supported, with the caller's spelling |
| `ResponseWriter.BodyFollowsHeaderBlock` | src/main/java/ResponseWriter.java:26-29 | on the wire, for any line separator, the body bytes come right after the complete header block |
| `FileHandler.FilePath` | src/main/java/FileHandler.java:30 | the path starts with `user.dir`, ends with the name as it comes, and has seven chars (`/files/`) between them |
| `FileHandler.FilePathInjective` | src/main/java/FileHandler.java:30 | different names give different paths, so each POST names one file |
| `FileHandler.LengthText` | src/main/java/FileHandler.java:16 | the Content-Length value when the header is present; otherwise text that parses to 0 |
| `FileHandler.AfterWrite` | src/main/java/FileHandler.java:33 | a successful write leaves exactly the data at the path; a failed one leaves the store unchanged or a prefix of the data at the path; no other path ever changes |
| `FileHandler.FileStore.WriteAll` | src/main/java/FileHandler.java:33 | a write that succeeds creates or replaces the file at the path and reports nothing; a failed write reports its message and leaves what `AfterWrite` states: the old store, or a prefix of the data at the path |
| `FileHandler.CreationOf` | src/main/java/FileHandler.java:15-38 | a response is written exactly when no exception is thrown; an exception leaves the files unchanged, and the body unread unless it is the InvalidPathException of a refused path, raised after the read |
| `FileHandler.HandleFileCreation` | src/main/java/FileHandler.java:15-38 | the creation's exception, writes, unread chars and files are those of `CreationOf` |
| `FileHandler.CreationOutcomes` | src/main/java/FileHandler.java:16-37 | NumberFormatException iff the length is unparsable; NegativeArraySizeException iff it is negative, with nothing written or read; no Content-Length header, or a length of 0, is answered 400 "Missing Content-Length header" with nothing read and no file changed; a positive length the single read does not fill is answered 400 "Incomplete request body" with the chars that read took consumed and no file changed; InvalidPathException, with nothing written and the body read, iff the body was read whole and `Paths.get` refuses the path; a write that fails after a complete read (whatever it kept) is answered 400 "Failed to create file: " and its message, with the body consumed and the files as the failed write left them; 201 iff the length is positive, the body is long enough, the single read gets it all, the path is accepted and the write succeeds, and then only `user.dir/files/<name>` changes, to the UTF-8 of the first `n` body chars; files change only after a complete read, only at that path, to a prefix of those bytes, and the answer is then 201 or, for a write that failed after opening the file, 400 "Failed to create file: " and the message |
| `FileHandler.CreatedFileIsServed` | src/main/java/FileHandler.java:29-67 | a file just created reads back through the file GET as 200, application/octet-stream, its length, and its bytes |
| `FileHandler.ChunkSize` | src/main/java/FileHandler.java:62 | one read of the copy delivers between 1 and 4096 bytes, never more than are left |
| `FileHandler.ReadBytes` | src/main/java/FileHandler.java:62 | `bis.read(buffer)` returns -1 at end of file, else fills the buffer's first `n` slots with the next `n` bytes of the file |
| `FileHandler.CopyFile` | src/main/java/FileHandler.java:60-65 | the copy loop writes the file's chunks in order, one write per read |
| `FileHandler.PrintFileHeader` | src/main/java/FileHandler.java:48-53 | prints the 200 status line, octet-stream Content-Type, the file's length and Connection: close, then the empty line |
| `FileHandler.FileResponse` | src/main/java/FileHandler.java:40-67 | the response starts with `HTTP/1.1 200 OK` when the path is a regular file and with `HTTP/1.1 404 Not Found` otherwise |
| `FileHandler.HandleFileRequest` | src/main/java/FileHandler.java:40-67 | writes 404 for a path that is not a regular file, else the header block followed by the file's chunks |
| `FileHandler.ChunkBounds` | src/main/java/FileHandler.java:60-64 | every write of the copy is a raw write of 1 to 4096 bytes |
| `FileHandler.RawBodyOfChunks` | src/main/java/FileHandler.java:60-64 | the writes of the copy, concatenated, are exactly the file's bytes |
| `FileHandler.FileHeaderIsBodyHeader` | src/main/java/FileHandler.java:48-52 | the file GET's header block is the writer's header block for 200, octet-stream and the length, with no Content-Encoding |
| `FileHandler.ReadFileResponse` | src/main/java/FileHandler.java:40-67 | a file GET reads back as 404 with no body for an absent path, else as 200 with Content-Type application/octet-stream, Content-Length the file's size, no Content-Encoding, and the file's bytes as body |
| `RequestHandler.CleanEncoding` | src/main/java/RequestHandler.java:82 | the indexing throws (no result) exactly when the trimmed entry is non-empty and made only of `;`; otherwise the result is the trimmed entry up to its first `;`, or all of it when it holds none, and so holds no `;` |
| `RequestHandler.FirstSupported` | src/main/java/RequestHandler.java:80-87 | the loop over the cleaned entries can throw only ArrayIndexOutOfBoundsException, and it returns only an encoding the encoder supports |
| `RequestHandler.EncodingOf` | src/main/java/RequestHandler.java:76-88 | a null header never throws; the only exception is ArrayIndexOutOfBoundsException; a chosen encoding is supported |
| `RequestHandler.GetEncoding` | src/main/java/RequestHandler.java:76-88 | the loop returns the first entry that cleans to a supported encoding, null when there is none, or the exception of an entry that cleans to nothing |
| `RequestHandler.FirstSupportedSkips` | src/main/java/RequestHandler.java:81-86 | entries passed over do not change what the search comes to |
| `RequestHandler.EncodingChoiceIndex` | src/main/java/RequestHandler.java:80-87 | there is an index before which every entry is passed over, and the entry there decides: it throws, or it is supported and returned cleaned; with no such entry the result is null |
| `RequestHandler.ChosenIsSupported` | src/main/java/RequestHandler.java:76-88 | a null header gives null; a chosen encoding is always supported by the encoder |
| `RequestHandler.SemicolonsEntryThrows` | src/main/java/RequestHandler.java:82 | an entry made only of semicolons splits into nothing, so reaching it throws ArrayIndexOutOfBoundsException |
| `RequestHandler.ParametersCleaned` | src/main/java/RequestHandler.java:82 | an entry `name;parameters` (name without `;`, nothing to trim) cleans to the name |
| `RequestHandler.ParametersIgnored` | src/main/java/RequestHandler.java:76-88 | `Accept-Encoding: gzip;<parameters>` (for example `gzip;q=0.5`, any case spelling of gzip) picks gzip |
| `RequestHandler.ValidateRequestLine` | src/main/java/RequestHandler.java:17-20 | a valid line splits at spaces into exactly three space-free parts, the last one non-empty |
| `RequestHandler.RequestLineOfParts` | src/main/java/RequestHandler.java:17-20 | three space-free parts with a non-empty last one, joined by single spaces and followed by any trailing spaces, are a valid line that splits back into those parts |
| `RequestHandler.ValidRequestLineShape` | src/main/java/RequestHandler.java:17-20 | conversely, every valid request line has exactly that shape |
| `RequestHandler.DoubleSpaceRejected` | src/main/java/RequestHandler.java:17-20 | two spaces in a row make an empty middle part, so the line is not valid |
| `RequestHandler.IsValidMethod` | src/main/java/RequestHandler.java:22-24 | a valid method has three or four chars and no space |
| `RequestHandler.ValidMethodSpellings` | src/main/java/RequestHandler.java:22-24 | a method is valid iff it spells GET or POST in any case, the long s counting as `s` |
| `RequestHandler.IsValidHttpVersion` | src/main/java/RequestHandler.java:26-28 | a valid version has eight chars and ends in `/1.1` |
| `RequestHandler.ValidVersionSpellings` | src/main/java/RequestHandler.java:26-28 | a version is valid iff it spells `HTTP/1.1`, each of its four letters in either case |
| `RequestHandler.IsValidHeader` | src/main/java/RequestHandler.java:30-32 | a header line is valid iff `": "` occurs in it somewhere |
| `RequestHandler.IsValidPath` | src/main/java/RequestHandler.java:34-42 | every valid path starts with `/`, so a routed request never gets "Invalid URI" |
| `RequestHandler.GetExchange` | src/main/java/RequestHandler.java:38-60 | a GET writes a response exactly when it does not throw; it reads nothing more from the client and changes no file |
| `RequestHandler.GetResponse` | src/main/java/RequestHandler.java:46-59 | the root, `/user-agent`, `/echo/...` and an existing file under `/files/` are answered 200 OK; every other path 404 Not Found |
| `RequestHandler.PostExchange` | src/main/java/RequestHandler.java:62-69 | a POST writes a response exactly when it does not throw; a path outside `/files/` is answered 404 Not Found with nothing read and no file changed; only a path under `/files/` reads the body or changes a file |
| `RequestHandler.GetExchangeRest` | src/main/java/RequestHandler.java:38-60 | a GET reads nothing more from the client and changes no file |
| `RequestHandler.HandleGetRequest` | src/main/java/RequestHandler.java:38-60 | writes what `GetExchange` states: "Invalid URI", the encoding exception, or the response of the path's route |
| `RequestHandler.HandlePostRequest` | src/main/java/RequestHandler.java:62-69 | a path under `/files/` creates the file named by the rest of the path; any other path gives 404 |
| `RequestHandler.UserAgent` | src/main/java/RequestHandler.java:72 | the User-Agent value when the header is present, "Not provided" otherwise |
| `RequestHandler.HandleUserAgentRequest` | src/main/java/RequestHandler.java:71-74 | sends the User-Agent value, or "Not provided", as a text/plain body |
| `RequestHandler.RootReadsBack` | src/main/java/RequestHandler.java:46-47 | GET `/` reads back as 200 OK with only `Connection: close` and no body |
| `RequestHandler.EchoReadsBack` | src/main/java/RequestHandler.java:50-52 | GET `/echo/<m>` reads back as 200 text/plain with body `m` (compressed when negotiated) and its true length |
| `RequestHandler.UserAgentReadsBack` | src/main/java/RequestHandler.java:71-74 | GET `/user-agent` reads back as 200 text/plain with the header's value, or "Not provided" when the case-sensitive key is absent |
| `ClientHandler.Serve` | src/main/java/ClientHandler.java:21-90 | a connection writes a response exactly when no exception escapes |
| `ClientHandler.AnswerLine` | src/main/java/ClientHandler.java:26-80 | the same for the handling of a request line that was read |
| `ClientHandler.Respond` | src/main/java/ClientHandler.java:59-80 | the same for an accepted request line, from the header loop on |
| `ClientHandler.Route` | src/main/java/ClientHandler.java:73-80 | the same for the dispatch on the method |
| `ClientHandler.CheckRequestLine` | src/main/java/ClientHandler.java:26-57 | a line that fails `validateRequestLine` is refused 400 Bad Request; an accepted line has a method, a version and a path that passed their validators; any refusal is 400, 501 or 404 |
| `ClientHandler.ScanHeaders` | src/main/java/ClientHandler.java:60-69 | what the loop leaves unread is never longer than its input, and the map only gains names; it throws NullPointerException only at the end of the stream, and otherwise only ArrayIndexOutOfBoundsException |
| `ClientHandler.ReadHeaders` | src/main/java/ClientHandler.java:60-69 | the header loop comes to what `ScanHeaders` states, and leaves unread exactly what follows the line it stopped at |
| `ClientHandler.Run` | src/main/java/ClientHandler.java:21-90 | the connection's exception, writes, unread chars and files are those of `Serve` on the client's text |
| `ClientHandler.HandleRequestLine` | src/main/java/ClientHandler.java:26-57 | the request-line checks in order, then the rest of the request |
| `ClientHandler.Dispatch` | src/main/java/ClientHandler.java:59-80 | the header loop, its refusal or exception, then the handler |
| `ClientHandler.Handle` | src/main/java/ClientHandler.java:74-80 | GET (any case) goes to the GET handler, POST (any case) to the POST handler, anything else gets 501 |
| `ClientHandler.CheckRequestLineOfParts` | src/main/java/ClientHandler.java:33-57 | checks are ordered: a bad method gives 501 whatever the version and path, then a bad version gives 400 "Bad Request - Invalid HTTP Version", then a bad path 404 |
| `ClientHandler.AcceptedLineShape` | src/main/java/ClientHandler.java:33-57 | an accepted line is exactly three space-free parts that each passed their check |
| `ClientHandler.AcceptedMethodIsRouted` | src/main/java/ClientHandler.java:74-80 | the final 501 of `run()` is unreachable: an accepted method is GET or POST ignoring case |
| `ClientHandler.RefusedLineReadsNothingMore` | src/main/java/ClientHandler.java:25-57 | an absent, empty or refused request line gives that single response, nothing after the line is read and no file changes |
| `ClientHandler.ScanFieldLine` | src/main/java/ClientHandler.java:62-68 | one well-formed `name: value` line is read whole, puts `value` under `name`, and the loop goes on right after it |
| `ClientHandler.ScanHeaderLines` | src/main/java/ClientHandler.java:60-69 | well-formed header lines in front of any text fill the map in order before the loop reaches that text |
| `ClientHandler.ScanMalformedLine` | src/main/java/ClientHandler.java:63-66 | a non-empty line without `": "` ends the loop with the refusal, having read only that line |
| `ClientHandler.ScanHeaderText` | src/main/java/ClientHandler.java:60-69 | well-formed header lines and the empty line fill the map in order, a later name replacing an earlier one, and reading stops right after the empty line |
| `ClientHandler.MalformedHeaderRejected` | src/main/java/ClientHandler.java:62-66 | after well-formed header lines, the first line without `": "` ends the loop with nothing after it read, and the request is answered 400 "Bad Request - Invalid Header Format" with the files unchanged |
| `ClientHandler.UnterminatedHeadersThrow` | src/main/java/ClientHandler.java:62 | end of stream before the empty line is a NullPointerException, not an end of headers |
| `ClientHandler.PiecesOfFieldParts` | src/main/java/ClientHandler.java:67 | a header line is cut at every `": "` |
| `ClientHandler.ValueEndsAtSecondSeparator` | src/main/java/ClientHandler.java:67-68 | `K: a: b` stores `a` under `K` |
| `ClientHandler.EmptyValueThrows` | src/main/java/ClientHandler.java:67-68 | `K: ` (nothing after the separator) throws ArrayIndexOutOfBoundsException |
| `ClientHandler.HeaderMapLastWins` | src/main/java/ClientHandler.java:68 | the map holds the old names and the names put, and nothing else; each name's value is the one put last |
| `ClientHandler.ServeRequest` | src/main/java/ClientHandler.java:21-80 | a whole request text is either refused on its request line, with the headers unread, or routed with its headers as a map and just the body left |
| `ClientHandler.ServeMalformedHeader` | src/main/java/ClientHandler.java:21-66 | a whole request with an accepted line and a header line without `": "` is answered 400 "Bad Request - Invalid Header Format", nothing after that line read and no file changed |
| `ClientHandler.ServeGet` | src/main/java/ClientHandler.java:74-75 | an accepted GET request reaches the GET handler with the parsed headers |
| `ClientHandler.ServePost` | src/main/java/ClientHandler.java:76-77 | an accepted POST request reaches the POST handler with the parsed headers and the body |
| `ClientHandler.EchoRequest` | src/main/java/ClientHandler.java:21-80 | `GET /echo/<m> HTTP/1.1` with any well-formed headers reads back as 200 text/plain with body `m`; nothing else is read and no file changes |
| `ClientHandler.EchoPathReadsBack` | src/main/java/RequestHandler.java:50-52 | a GET of any path starting with `/echo/` reads back as 200 text/plain with the rest of the path as its body (compressed when negotiated) and its true length |
| `ClientHandler.PostThenGet` | src/main/java/ClientHandler.java:74-77 | after a POST to `/files/<name>` answered 201, a GET of the same path with any well-formed headers whose Accept-Encoding does not throw serves the first Content-Length chars of the body, in UTF-8, as an octet stream without Content-Encoding |
| `ClientHandler.FileGet` | src/main/java/RequestHandler.java:53-54 | GET `/files/<name>` with any Accept-Encoding that does not throw answers with the file response for `user.dir/files/<name>`, never encoded |
| `ClientHandler.RouteOutcomes` | src/main/java/ClientHandler.java:74-80 | the outcome facts of `ServeOutcomes` for a routed request |
| `ClientHandler.ServeOutcomes` | src/main/java/ClientHandler.java:21-90 | for every client text: an exception means nothing was written and no file changed; when files change, exactly one path under `user.dir/files/` changes, and the answer is 201 Created or the 400 of a write that failed after opening the file |
| `JreText.IndexOf` | src/main/java/RequestHandler.java:31 | the index returned is the first place the delimiter occurs; none means it occurs nowhere |
| `JreText.Pieces` | src/main/java/ClientHandler.java:67 | cutting at every delimiter gives at least one piece, none holding the delimiter |
| `JreText.Split` | src/main/java/ClientHandler.java:38 | no part holds the delimiter; unless the whole string comes back alone, the result is empty or its last part is non-empty |
| `JreText.Trim` | src/main/java/RequestHandler.java:82 | the result is a contiguous part of the string, every char before and after it at or below U+0020, with no char at or below U+0020 at either end of it; it is empty only when every char is at or below U+0020 |
| `JreText.TrimmedAlready` | src/main/java/RequestHandler.java:82 | a string that starts and ends above U+0020 is its own trim |
| `JreText.EqualsIgnoreCase` | src/main/java/RequestHandler.java:23 | equal strings compare equal, and strings that compare equal have the same length |
| `JreText.SplitOfJoin` | src/main/java/RequestHandler.java:18 | `split` on a one-char delimiter returns the parts of a join, trailing delimiters dropped |
| `JreText.SplitShape` | src/main/java/ClientHandler.java:38 | `split` returns non-empty-last, delimiter-free parts that, joined, rebuild the string up to trailing delimiters |
| `JreText.DelimitersOnly` | src/main/java/RequestHandler.java:82 | a string of delimiters only splits into no parts at all |
| `JreText.SplitHead` | src/main/java/RequestHandler.java:82 | `split` on one char returns nothing exactly for a non-empty string of that char only; otherwise its first part is the text before the first occurrence |
| `JreText.SplitKeyValue` | src/main/java/ClientHandler.java:67 | `name: value`, neither holding `": "`, splits into exactly `[name, value]` |
| `JreNumbers.ParseIntPadded` | src/main/java/FileHandler.java:16 | any int32 written in decimal, with leading zeros and with a `+` sign on a non-negative value, parses back to itself |
| `JreNumbers.IntToString` | src/main/java/ResponseWriter.java:21 | a number renders as non-empty text with no space and no colon, so it stays one token of a status line and one header value |
| `JreNumbers.ParseIntOfString` | src/main/java/FileHandler.java:16 | `parseInt` reads back any int32 rendered in decimal |
| `JreNumbers.ParseInt` | src/main/java/FileHandler.java:16 | a parsed value is within the int32 range, the text was an optional sign and ASCII digits, and the value is the one they denote; conversely every such text whose value is in range parses |
| `JreIo.Output.Println` | src/main/java/ResponseWriter.java:8 | `println` appends one line and changes nothing before it |
| `JreIo.Output.Write` | src/main/java/ResponseWriter.java:29 | `write` appends the bytes as one raw write and changes nothing before it |
| `JreIo.NextLine` | src/main/java/ClientHandler.java:25 | `readLine` returns null exactly at the end of the stream; a line holds no line break and consumes at least one char |
| `JreIo.NextLineConsumes` | src/main/java/ClientHandler.java:25 | what `readLine` consumes is the line, then one terminator (`\n`, `\r` or `\r\n`, none only at the end of the stream), and nothing more |
| `JreIo.Reader.ReadLine` | src/main/java/ClientHandler.java:25 | returns null at the end of the stream, else the next line, and advances the reader past it |
| `JreIo.NextLineOfTerminated` | src/main/java/ClientHandler.java:25 | `readLine` returns a line ended by `\n` or `\r\n` without its terminator and leaves what follows |
| `JreIo.ReadChars` | src/main/java/FileHandler.java:23 | `read(buf, 0, n)` returns -1 exactly when chars are wanted and the stream has ended; otherwise at most `n` chars, at least one when any are wanted, taken from the front of the stream |
| `JreIo.Reader.Read` | src/main/java/FileHandler.java:23 | returns what `ReadChars` states and advances the reader past the chars returned |
| `JreIo.ReadCharsComplete` | src/main/java/FileHandler.java:23-24 | the single body read is complete exactly when enough chars remain and arrive at once |

## Left out

- Sockets, threads and the accept loop of `WebServer.java` are left out. So is the stub duplicate `ClientHandler` declared there. They only open and close connections.
- The `System.out` logging is left out. It writes only to the console.
- Flushing and the autoflush of the PrintWriter are left out. The order of writes is kept, and that order is what the client reads.
- Closing the socket in `finally` is left out, as is wrapping an IOException in a RuntimeException. Every outcome ends the connection in the same way.
- An IOException raised by the socket while copying a file is left out. The copy is modelled as one that succeeds.
- FileHandler.HandleFileRequest: a regular file that cannot be opened (no read permission, or removed after `isFile()`) is left out. In Java the complete 200 header block is written first, then `new FileInputStream` throws FileNotFoundException and `run()` rethrows it as a RuntimeException. The model always copies the file, so FileHandler.FileResponse and ClientHandler.ServeOutcomes do not cover an exception after the header block.
- A directory at the target path of a POST, a full disk and every other IOException of the write appear only as the write-fault parameter (`FileHandler.WriteFault`): its message and what it leaves at the path. A path that `Paths.get` refuses (a NUL char, or a reserved char on Windows) is the platform predicate `invalidPath`, and raises the uncaught InvalidPathException. The real file system and `File.exists`/`isFile`/`length` are left out. The file store is a map from path to bytes, and an absent path stands for anything that is not a regular file.
- Path normalization and `..` segments are left out. Paths are compared as strings.
- The actual gzip compression, the platform's default charset and UTF-8 encoding are left out. They are the uninterpreted functions in `JreIo.Platform`.
- `JreNumbers.ParseInt` accepts ASCII digits only. Java's `parseInt` also accepts other Unicode decimal digits, which this model does not.
- `JreText.FoldCase`: covers only the case mappings that can make a char equal to an ASCII letter, which is all that the comparisons here (always against an ASCII constant) can observe. A `char` is a Unicode scalar value here, so Java's surrogate halves are not modelled.
- FileHandler.CreationOf: counts the Content-Length in Unicode scalar values, one per `char` of the model, while Java's `read(buf, 0, n)` counts UTF-16 code units. A body with chars outside the Basic Multilingual Plane is therefore cut at a different place than in Java. The same holds for FileHandler.HandleFileCreation, JreIo.ReadChars and JreIo.Reader.Read.
- An OutOfMemoryError for a huge Content-Length (`new char[n]`) is left out. The body buffer is allocated for any positive int.
