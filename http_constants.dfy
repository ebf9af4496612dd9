/**
 * The status codes, reason phrases, header prefixes, method names, version and
 * content types that every response and every check of the server uses.
 */
module HttpConstants {

  const ContentTypeHeader: string := "Content-Type: "
  const ContentLengthHeader: string := "Content-Length: "
  const ContentTypeText: string := "text/plain"
  /** Declared by the server but never written: lines end with the platform's separator. */
  const Crlf: string := "\r\n"
  const BadRequestStatusCode: int := 400
  const BadRequestMessage: string := "Bad Request"
  const NotImplementedStatusCode: int := 501
  const NotImplementedMessage: string := "Not Implemented"
  const HttpGet: string := "GET"
  const HttpVersion: string := "HTTP/1.1"
  const OkStatusCode: int := 200
  const OkMessage: string := "OK"
  const NotFoundStatusCode: int := 404
  const NotFoundMessage: string := "Not Found"
  const ContentTypeOctetStream: string := "application/octet-stream"
  const HttpPost: string := "POST"
  const CreatedStatusCode: int := 201
  const CreatedMessage: string := "Created"
}
