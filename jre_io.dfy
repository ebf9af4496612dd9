/**
 * The connection as the server's code sees it: a BufferedReader over the
 * request's chars, a PrintWriter and an OutputStream over the same socket, and
 * the runtime facilities (line separator, charsets, gzip, working directory)
 * that the code uses without defining them.
 */
module JreIo {
  import opened JreText

  type byte = b: int | 0 <= b < 256

  /**
   * One write to the connection, in the order it reaches the socket:
   * `println(text)` on the PrintWriter, or `write(bytes)` on the OutputStream.
   */
  datatype Emit = Line(text: string) | Raw(bytes: seq<byte>)

  /** The unchecked exceptions the request path can raise; each ends the handling of the connection. */
  datatype Unchecked =
    | NullPointerException
    | ArrayIndexOutOfBoundsException
    | NumberFormatException
    | NegativeArraySizeException
    | InvalidPathException

  /** What the Java runtime supplies; each is left uninterpreted. */
  datatype Platform = Platform(
    lineSeparator: string,                // what `println` appends (System.lineSeparator())
    defaultCharset: string -> seq<byte>,  // `String.getBytes()` and the PrintWriter's encoder
    utf8: string -> seq<byte>,            // `String.getBytes(StandardCharsets.UTF_8)`
    gzip: seq<byte> -> seq<byte>,         // what a GZIPOutputStream produces for a whole input
    userDir: string,                      // System.getProperty("user.dir")
    invalidPath: string -> bool)          // whether `Paths.get` refuses the path (a NUL char anywhere; reserved chars on Windows)

  /** The socket's output: everything written to it so far, in order. */
  class Output {
    var emitted: seq<Emit>

    constructor ()
      ensures emitted == []
    {
      emitted := [];
    }

    /** `writer.println(text)` */
    method Println(text: string)
      modifies this
      ensures emitted == old(emitted) + [Line(text)]
    {
      emitted := emitted + [Line(text)];
    }

    /** `outputStream.write(bytes)` */
    method Write(bytes: seq<byte>)
      modifies this
      ensures emitted == old(emitted) + [Raw(bytes)]
    {
      emitted := emitted + [Raw(bytes)];
    }
  }

  /**
   * The bytes on the wire: each line in the writer's charset followed by the
   * line separator `eol`, each raw write as it is.
   */
  function Render(es: seq<Emit>, eol: string, charset: string -> seq<byte>): seq<byte>
  {
    if es == [] then []
    else
      (match es[0]
       case Line(t) => charset(t + eol)
       case Raw(b) => b)
      + Render(es[1..], eol, charset)
  }

  /** Rendering is compositional: writes later in the stream come later on the wire. */
  lemma {:induction false} RenderAppend(a: seq<Emit>, b: seq<Emit>, eol: string, charset: string -> seq<byte>)
    ensures Render(a + b, eol, charset) == Render(a, eol, charset) + Render(b, eol, charset)
  {
    if a != [] {
      assert (a + b)[1..] == a[1..] + b;
      RenderAppend(a[1..], b, eol, charset);
    } else {
      assert a + b == b;
    }
  }

  // ------------------------------------------------------------- reading

  predicate IsLineBreak(c: char)
  {
    c == '\n' || c == '\r'
  }

  /** The index of the first line break in `s`, or `|s|` when there is none. */
  function LineEnd(s: seq<char>): (k: nat)
    ensures k <= |s|
    ensures forall j :: 0 <= j < k ==> !IsLineBreak(s[j])
    ensures k < |s| ==> IsLineBreak(s[k])
  {
    if s == [] || IsLineBreak(s[0]) then 0 else 1 + LineEnd(s[1..])
  }

  datatype Fetched = EndOfStream | GotLine(text: string, rest: seq<char>)

  /**
   * `BufferedReader.readLine()` on the chars `s` still to be read: end of stream
   * (`null`) when nothing is left; otherwise the text up to the first "\n", "\r"
   * or "\r\n", which is consumed and not returned, or all that is left when
   * there is no line break.
   */
  function NextLine(s: seq<char>): (r: Fetched)
    ensures r.EndOfStream? <==> s == []
    ensures r.GotLine? ==> |r.rest| < |s|
    ensures r.GotLine? ==> forall j :: 0 <= j < |r.text| ==> !IsLineBreak(r.text[j])
  {
    if s == [] then EndOfStream
    else
      var k := LineEnd(s);
      if k == |s| then GotLine(s, [])
      else if s[k] == '\r' && k + 1 < |s| && s[k + 1] == '\n' then GotLine(s[..k], s[k + 2..])
      else GotLine(s[..k], s[k + 1..])
  }

  /** A line terminated by LF or CRLF is read back as that line. */
  lemma NextLineOfTerminated(t: string, eol: string, r: seq<char>)
    requires forall j :: 0 <= j < |t| ==> !IsLineBreak(t[j])
    requires eol == "\n" || eol == "\r\n"
    ensures NextLine(t + eol + r) == GotLine(t, r)
  {
    var s := t + eol + r;
    assert s[|t|] == eol[0];
    assert LineEnd(s) == |t| by {
      assert forall j :: 0 <= j < |t| ==> s[j] == t[j];
    }
    assert s[..|t|] == t;
    assert s[|t| + |eol|..] == r;
  }

  /**
   * What `readLine` consumes is the line it returns followed by exactly one line
   * terminator, or by nothing at the end of the stream.
   */
  lemma NextLineConsumes(s: seq<char>)
    requires NextLine(s).GotLine?
    ensures var t, r := NextLine(s).text, NextLine(s).rest;
      |t| + |r| <= |s|
      && s == t + s[|t|..|s| - |r|] + r
      && s[|t|..|s| - |r|] in {"", "\n", "\r", "\r\n"}
      && (s[|t|..|s| - |r|] == "" ==> r == [])
  {
    var k := LineEnd(s);
    if k < |s| && s[k] == '\r' && k + 1 < |s| && s[k + 1] == '\n' {
      assert s[k..k + 2] == "\r\n";
    } else if k < |s| {
      assert s[k..k + 1] == [s[k]];
    }
  }

  datatype Chunk = Chunk(count: int, chars: seq<char>, rest: seq<char>)

  /**
   * `reader.read(buffer, 0, n)` once: 0 when `n` is 0, -1 at the end of the
   * stream, otherwise between 1 and `n` chars. How many arrive in one call
   * depends on the network; `avail` stands for it.
   */
  function ReadChars(s: seq<char>, n: nat, avail: nat): (c: Chunk)
    ensures c.count == -1 <==> n > 0 && s == []
    ensures c.count != -1 ==> c.count == |c.chars| <= n
    ensures n > 0 && s != [] ==> c.count >= 1
    ensures s == c.chars + c.rest
  {
    if n == 0 then Chunk(0, [], s)
    else if s == [] then Chunk(-1, [], [])
    else
      var k := if avail < 1 then 1 else if avail < n then avail else n;
      var k' := if k < |s| then k else |s|;
      assert s == s[..k'] + s[k'..];
      Chunk(k', s[..k'], s[k'..])
  }

  /**
   * A read of `n` chars is complete exactly when `n` chars are left and the
   * network delivers them at once (one char always arrives).
   */
  lemma ReadCharsComplete(s: seq<char>, n: nat, avail: nat)
    requires n > 0
    ensures ReadChars(s, n, avail).count == n <==> |s| >= n && (avail >= n || n == 1)
    ensures ReadChars(s, n, avail).count == n ==> ReadChars(s, n, avail).chars == s[..n]
  {
  }

  /** The request as the BufferedReader still holds it: the chars not read yet. */
  class Reader {
    var rest: seq<char>

    constructor (input: seq<char>)
      ensures rest == input
    {
      rest := input;
    }

    /** `reader.readLine()`; `None` stands for `null`. */
    method ReadLine() returns (line: Option<string>)
      modifies this
      ensures old(rest) == [] ==> line == None && rest == old(rest)
      ensures old(rest) != [] ==> line == Some(NextLine(old(rest)).text) && rest == NextLine(old(rest)).rest
    {
      match NextLine(rest)
      case EndOfStream =>
        line := None;
      case GotLine(t, r) =>
        line := Some(t);
        rest := r;
    }

    /** `reader.read(buffer, 0, n)` into a buffer of `n` chars. */
    method Read(n: nat, avail: nat) returns (count: int, chars: seq<char>)
      modifies this
      ensures var c := ReadChars(old(rest), n, avail);
        count == c.count && chars == c.chars && rest == c.rest
    {
      var c := ReadChars(rest, n, avail);
      count, chars, rest := c.count, c.chars, c.rest;
    }
  }
}
