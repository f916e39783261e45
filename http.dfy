/** The values the server passes between its stages: the response descriptor, the server
    configuration, and a parsed request as the `httparse` crate hands it over. */
module Http {
  import opened Wrappers

  /** A response descriptor: what to send, not yet the bytes. `path` is the file to read,
      relative to the working directory; `compress` asks for gzip. */
  datatype HttpResponse = HttpResponse(status: U16, path: string, statusText: string, compress: bool)

  /** An IPv4 address, four octets. */
  datatype Ipv4Addr = Ipv4Addr(a: Byte, b: Byte, c: Byte, d: Byte)

  /** The error `Ipv4Addr`'s parser reports for a malformed address. */
  datatype AddrParseError = AddrParseError

  /** Server configuration, fixed once built: where to listen, how many workers, whether
      gzip is allowed, and the two template descriptors for refused and missing files. */
  datatype ServerConfig = ServerConfig(
    ipAddress: Ipv4Addr,
    port: U16,
    threadAmount: nat,
    enableGzip: bool,
    notFoundResponse: HttpResponse,
    forbiddenResponse: HttpResponse)

  /** One request header: its name as text, its value as raw bytes. */
  datatype Header = Header(name: string, value: seq<Byte>)

  /** A request as the parser leaves it. Method and path are absent when the request line
      was cut short (a partial parse still succeeds). */
  datatype Request = Request(methodName: Option<string>, path: Option<string>, headers: seq<Header>)

  /** The parser rejected the buffer. */
  datatype ParseError = ParseError
}
