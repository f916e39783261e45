/** Turning a parsed request into a response descriptor: path normalisation, then a
    three-way routing decision. */
module Router {
  import opened Wrappers
  import opened Http
  import Text
  import Utf8
  import Defaults

  /** Dropping the first character with a byte slice from index 1 is defined only when
      that index is a character boundary: the path is non-empty and starts with an ASCII
      (one-byte) character. Otherwise the slice panics. */
  predicate SliceableAtOne(path: string)
  {
    |path| >= 1 && path[0] as int < 0x80
  }

  /** Rewrites the request path into a file path: "/" is the index page, a path with no
      dot is a directory whose index page is served, any other path loses its first
      character. None stands for the panic of the slice that drops that character. */
  function Normalise(path: string): (r: Option<string>)
    ensures r.None? <==> path != "/" && !SliceableAtOne(path)
    ensures r.Some? && path != "/" ==> |path| - 1 <= |r.value| && r.value[..|path| - 1] == path[1..]
    ensures r.Some? ==> ('.' !in r.value <==> path != "/" && path[0] == '.' && '.' !in path[1..])
  {
    if path == "/" then
      assert "index.html"[5] == '.';
      Some("index.html")
    else if !SliceableAtOne(path) then None
    else if '.' !in path then
      var r := path[1..] + IndexSuffix;
      assert r[|path| - 1 + 6] == '.';
      Some(r)
    else
      assert path[0] != '.' ==> '.' in path[1..] by {
        var i :| 0 <= i < |path| && path[i] == '.';
        if path[0] != '.' { assert path[1..][i - 1] == '.'; }
      }
      Some(path[1..])
  }

  /** What a dot-free request path has appended: the directory's index page. */
  const IndexSuffix := "/index.html"

  /** The header asks for gzip: its name is exactly "Accept-Encoding" and its value, read
      as UTF-8, contains "gzip". A value that is not valid UTF-8 reads as "". */
  predicate AcceptsGzip(h: Header)
  {
    h.name == "Accept-Encoding" && Text.ContainsSubstring(Utf8.Decode(h.value).GetOr(""), "gzip")
  }

  /** Some header of the request asks for gzip. */
  function AnyAcceptsGzip(headers: seq<Header>): (b: bool)
    ensures b <==> exists i :: 0 <= i < |headers| && AcceptsGzip(headers[i])
  {
    if headers == [] then false
    else AcceptsGzip(headers[0]) || AnyAcceptsGzip(headers[1..])
  }

  /** The outcome of handling one buffer: a descriptor, the parser's rejection, or the
      panic of the path slice. The last two produce no response. */
  datatype RouteOutcome = Routed(response: HttpResponse) | ParseFailed | SlicePanicked

  /** The routing decision on an already normalised path, arms in priority order:
      a GET for an existing file is served with 200; any other method gets the forbidden
      template; everything else gets the not-found template. The 200 descriptor starts from
      the default one, so it keeps `compress` = true unless a header asks for gzip, in which
      case `compress` is the configuration's gzip switch. */
  function Decide(cfg: ServerConfig, methodName: Option<string>, path: Option<string>,
                  headers: seq<Header>, exists_: string -> bool): HttpResponse
  {
    if path.Some? && methodName.Some? && exists_(path.value) && methodName.value == "GET" then
      var response := Defaults.DefaultResponse().(status := 200, statusText := "OK", path := path.value);
      if AnyAcceptsGzip(headers) then response.(compress := cfg.enableGzip) else response
    else if methodName.Some? && methodName.value != "GET" then cfg.forbiddenResponse
    else cfg.notFoundResponse
  }

  /** `ServerConfig::response_from_request` after the parser has run: `parsed` is its
      result and `exists_` the file-existence test. */
  function ResponseFromRequest(cfg: ServerConfig, parsed: Result<Request, ParseError>,
                               exists_: string -> bool): RouteOutcome
  {
    if parsed.Err? then ParseFailed
    else
      var req := parsed.value;
      if req.path.Some? && Normalise(req.path.value).None? then SlicePanicked
      else
        var path := if req.path.Some? then Some(Normalise(req.path.value).value) else None;
        Routed(Decide(cfg, req.methodName, path, req.headers, exists_))
  }

  /** The root and a directory are served their index page. */
  lemma NormaliseExamples()
    ensures Normalise("/") == Some("index.html")
    ensures Normalise("/about") == Some("about/index.html")
  {
    var p := "/about";
    assert p[1..] == "about";
    assert forall i :: 0 <= i < |p| ==> p[i] != '.';
    assert "about" + IndexSuffix == "about/index.html";
  }

  /** A path with a dot names a file and only loses its leading slash, even when the dot
      is in a directory name. */
  lemma NormaliseFileExamples()
    ensures Normalise("/about.html") == Some("about.html")
    ensures Normalise("/a.b/c") == Some("a.b/c")
  {
    assert "/about.html"[6] == '.';
    assert "/a.b/c"[2] == '.';
  }

  /** Edge cases of the slice: "*" loses its first character like any other path, a path
      whose only dot is its first character comes out with no dot at all, and the empty
      path panics. */
  lemma NormaliseEdgeCases()
    ensures Normalise("*") == Some("/index.html")
    ensures Normalise(".x") == Some("x")
    ensures Normalise("") == None
  {
    assert ".x"[0] == '.';
  }

  /** A directory path and the explicit path of its index page name the same file. (The
      root is the exception: "/" gives "index.html" but "//index.html" gives
      "/index.html".) */
  lemma DirectoryIsItsIndex(dir: string)
    requires dir != [] && '.' !in dir
    ensures Normalise("/" + dir) == Normalise("/" + dir + IndexSuffix)
    ensures Normalise("/" + dir) == Some(dir + IndexSuffix)
  {
    var p, q := "/" + dir, "/" + dir + IndexSuffix;
    assert p[1..] == dir;
    assert q[1..] == dir + IndexSuffix;
    assert q[|dir| + 7] == '.';
    assert p != "/" && '.' !in p by {
      assert p[1] == dir[0];
      assert forall i :: 1 <= i < |p| ==> p[i] == dir[i - 1];
    }
  }

  /** A value that is text containing "gzip", sent as its UTF-8 bytes under the exact name
      "Accept-Encoding", asks for gzip; and one that does not contain it does not. */
  lemma AcceptsGzipText(value: string)
    ensures AcceptsGzip(Header("Accept-Encoding", Utf8.Encode(value)))
        <==> Text.ContainsSubstring(value, "gzip")
  {
    Utf8.DecodeEncode(value);
  }

  /** A value that is not valid UTF-8 never asks for gzip, even when its bytes spell
      "gzip"; nor does a header whose name differs in letter case. */
  lemma AcceptsGzipRejects()
    ensures !AcceptsGzip(Header("Accept-Encoding", [0xFF] + Utf8.Encode("gzip")))
    ensures !AcceptsGzip(Header("accept-encoding", Utf8.Encode("gzip")))
  {
  }

  /** A GET for an existing file is served with 200 "OK" at the normalised path. Its
      compress flag is the configuration's gzip switch when some header asks for gzip, and
      stays true otherwise, whatever the switch says. */
  lemma GetExistingFileServed(cfg: ServerConfig, req: Request, exists_: string -> bool, file: string)
    requires req.methodName == Some("GET") && req.path.Some?
    requires Normalise(req.path.value) == Some(file) && exists_(file)
    ensures ResponseFromRequest(cfg, Ok(req), exists_) ==
      Routed(HttpResponse(200, file, "OK", if AnyAcceptsGzip(req.headers) then cfg.enableGzip else true))
    ensures var d := ResponseFromRequest(cfg, Ok(req), exists_).response;
      d.compress <==> !AnyAcceptsGzip(req.headers) || cfg.enableGzip
  {
  }

  /** Any method other than GET gets an exact copy of the forbidden template, whatever the
      path and whether or not the file exists. */
  lemma OtherMethodForbidden(cfg: ServerConfig, req: Request, exists_: string -> bool)
    requires req.methodName.Some? && req.methodName.value != "GET"
    requires req.path.None? || Normalise(req.path.value).Some?
    ensures ResponseFromRequest(cfg, Ok(req), exists_) == Routed(cfg.forbiddenResponse)
  {
  }

  /** A GET for a missing file, or a request with no method, gets an exact copy of the
      not-found template. */
  lemma MissingFileNotFound(cfg: ServerConfig, req: Request, exists_: string -> bool)
    requires req.methodName.None? || req.methodName == Some("GET")
    requires req.path.None? || Normalise(req.path.value).Some?
    requires req.path.Some? ==> !exists_(Normalise(req.path.value).value) || req.methodName.None?
    ensures ResponseFromRequest(cfg, Ok(req), exists_) == Routed(cfg.notFoundResponse)
  {
  }

  /** Whatever the request, a routed descriptor is a 200 for the normalised path, or one of
      the configuration's two templates unchanged; nothing is routed without a parse. */
  lemma RoutedIsOneOfThree(cfg: ServerConfig, parsed: Result<Request, ParseError>, exists_: string -> bool)
    ensures parsed.Err? ==> ResponseFromRequest(cfg, parsed, exists_) == ParseFailed
    ensures var o := ResponseFromRequest(cfg, parsed, exists_);
      o.Routed? ==>
        (o.response.status == 200 && o.response.statusText == "OK" && parsed.value.path.Some? &&
         Some(o.response.path) == Normalise(parsed.value.path.value) && exists_(o.response.path)) ||
        o.response == cfg.forbiddenResponse || o.response == cfg.notFoundResponse
  {
  }
}
