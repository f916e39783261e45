/** One connection, end to end: the parsed buffer is routed, the descriptor is turned into
    bytes, and those bytes are what is written back. The socket itself is not modelled:
    `parsed` is what the parser made of the buffer, and the result is what is written. */
module Connection {
  import opened Wrappers
  import opened Http
  import Router
  import Builder
  import Reader

  /** The bytes written for one buffer, or None when nothing is written: the parser
      rejected the buffer, or the path slice panicked. */
  function Serve(cfg: ServerConfig, parsed: Result<Request, ParseError>, exists_: string -> bool,
                 expires: string, readFile: string -> Option<seq<Byte>>,
                 gzip: seq<Byte> -> Option<seq<Byte>>): (r: Option<seq<Byte>>)
    ensures r.None? <==>
      (parsed.Err? || (parsed.value.path.Some? && Router.Normalise(parsed.value.path.value).None?))
  {
    match Router.ResponseFromRequest(cfg, parsed, exists_)
    case Routed(response) => Some(Builder.ResponseBytes(response, expires, readFile, gzip))
    case _ => None
  }

  /** A GET for an existing file whose contents can be read comes back as 200 "OK" with
      the file's bytes, gzipped exactly when the encoder succeeds and either the client
      asked for gzip with the server allowing it, or the client sent no Accept-Encoding
      asking for gzip at all (then the server's switch is not consulted). */
  lemma ServeGetReadsBack(cfg: ServerConfig, req: Request, exists_: string -> bool, expires: string,
                          readFile: string -> Option<seq<Byte>>, gzip: seq<Byte> -> Option<seq<Byte>>,
                          routed: string, contents: seq<Byte>)
    requires req.methodName == Some("GET") && req.path.Some?
    requires Router.Normalise(req.path.value) == Some(routed) && exists_(routed)
    requires readFile(Builder.FileTarget(routed)) == Some(contents)
    requires '\r' !in expires
    ensures var out := Serve(cfg, Ok(req), exists_, expires, readFile, gzip);
      var zipped := (!Router.AnyAcceptsGzip(req.headers) || cfg.enableGzip) && gzip(contents).Some?;
      var body := if zipped then gzip(contents).value else contents;
      out.Some? && Reader.ReadResponse(out.value) == Some(Reader.Reply(200, "OK", |body|, expires, zipped, body))
  {
    Router.GetExistingFileServed(cfg, req, exists_, routed);
    var d := Router.ResponseFromRequest(cfg, Ok(req), exists_).response;
    Reader.ResponseReadsBack(d, expires, readFile, gzip);
  }

  /** A request with a method other than GET comes back with the forbidden template's
      status code and text, whatever it asked for. */
  lemma ServeOtherMethodReadsBack(cfg: ServerConfig, req: Request, exists_: string -> bool,
                                  expires: string, readFile: string -> Option<seq<Byte>>,
                                  gzip: seq<Byte> -> Option<seq<Byte>>)
    requires req.methodName.Some? && req.methodName.value != "GET"
    requires req.path.None? || Router.Normalise(req.path.value).Some?
    requires '\r' !in cfg.forbiddenResponse.statusText && '\r' !in expires
    ensures var out := Serve(cfg, Ok(req), exists_, expires, readFile, gzip);
      out.Some? && Reader.ReadResponse(out.value).Some? &&
      Reader.ReadResponse(out.value).value.status == cfg.forbiddenResponse.status &&
      Reader.ReadResponse(out.value).value.statusText == cfg.forbiddenResponse.statusText
  {
    Router.OtherMethodForbidden(cfg, req, exists_);
    Reader.ResponseReadsBack(cfg.forbiddenResponse, expires, readFile, gzip);
  }
}
