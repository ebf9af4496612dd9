/**
 * Content encoding: only gzip is supported, and a body is encoded in one step,
 * as a whole. The compression itself is the platform's `gzip`, left
 * uninterpreted.
 */
module ContentEncoder {
  import opened JreText
  import opened JreIo

  /** `supportsEncoding(encoding)`; `None` stands for `null`. */
  predicate SupportsEncoding(encoding: Option<string>): (supported: bool)
    ensures supported ==> encoding.Some? && |encoding.value| == 4
  {
    encoding.Some? && EqualsIgnoreCase(encoding.value, "gzip")
  }

  /** The stream `getEncodedOutputStream` hands back: the same one, or a GZIPOutputStream around it. */
  datatype Stream = Same | GzipWrapped

  /** `getEncodedOutputStream(out, encoding)`: wrapped exactly for the encodings that are supported. */
  function EncodedStream(encoding: Option<string>): (stream: Stream)
    ensures stream == GzipWrapped <==> SupportsEncoding(encoding)
  {
    if encoding.Some? && EqualsIgnoreCase(encoding.value, "gzip") then GzipWrapped else Same
  }

  /** The bytes that reach the underlying stream once `data` is written through `stream` and it is closed. */
  function Through(stream: Stream, data: seq<byte>, gzip: seq<byte> -> seq<byte>): seq<byte>
  {
    match stream
    case Same => data
    case GzipWrapped => gzip(data)
  }

  /**
   * `encode(data, encoding)`: unsupported encodings give the input back
   * unchanged; gzip gives the compression of the entire input, done at once.
   */
  function Encode(data: seq<byte>, encoding: Option<string>, gzip: seq<byte> -> seq<byte>): (r: seq<byte>)
    ensures !SupportsEncoding(encoding) ==> r == data
    ensures SupportsEncoding(encoding) ==> r == gzip(data)
  {
    if !SupportsEncoding(encoding) then data
    else Through(EncodedStream(encoding), data, gzip)
  }

  /**
   * The supported encodings spelled out: four chars, "gzip" in any case, where
   * the `i` may also be a dotted capital or a dotless small i (Java's case
   * mapping sends both to `i`); `null` is not supported.
   */
  lemma SupportedSpellings(encoding: Option<string>)
    ensures SupportsEncoding(encoding) <==>
      && encoding.Some?
      && |encoding.value| == 4
      && encoding.value[0] in {'g', 'G'}
      && encoding.value[1] in {'z', 'Z'}
      && encoding.value[2] in {'i', 'I', '\U{130}', '\U{131}'}
      && encoding.value[3] in {'p', 'P'}
  {
    if encoding.Some? && |encoding.value| == 4 {
      var e := encoding.value;
      assert "gzip"[0] == 'g' && "gzip"[1] == 'z' && "gzip"[2] == 'i' && "gzip"[3] == 'p';
      assert FoldCase(e[0]) == 'g' <==> e[0] in {'g', 'G'};
      assert FoldCase(e[1]) == 'z' <==> e[1] in {'z', 'Z'};
      assert FoldCase(e[2]) == 'i' <==> e[2] in {'i', 'I', '\U{130}', '\U{131}'};
      assert FoldCase(e[3]) == 'p' <==> e[3] in {'p', 'P'};
    }
  }
}
