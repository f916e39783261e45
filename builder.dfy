/** Turning a response descriptor into the bytes sent back: the file is read, optionally
    gzipped, and prefixed by a status line and three or four header lines. Reading the
    file, gzip and the clock are passed in: `readFile` gives a file's bytes or None when it
    cannot be read, `gzip` gives the compressed bytes or None when the encoder fails, and
    `expires` is the already formatted HTTP date one week from now. */
module Builder {
  import opened Wrappers
  import opened Http
  import Text
  import Utf8
  import Router
  import Defaults

  /** The header line added when the body went through gzip, with the line break that
      precedes it. */
  function EncodingLine(): string
  {
    "\r\n" + "Content-Encoding: gzip"
  }

  /** The file a descriptor's path is read from: a path without a dot is a directory, and
      its index page is read instead. Any other path is used as it is. */
  function FileTarget(path: string): (t: string)
    ensures '.' in t
    ensures '.' in path ==> t == path
    ensures path <= t
  {
    if '.' !in path then
      var t := path + Router.IndexSuffix;
      assert t[|path| + 6] == '.';
      t
    else path
  }

  /** The body before compression: the file's bytes, or nothing when it cannot be read. */
  function FileBody(d: HttpResponse, readFile: string -> Option<seq<Byte>>): seq<Byte>
  {
    readFile(FileTarget(d.path)).GetOr([])
  }

  /** A body and the encoding header line that goes with it ("" for none). */
  datatype Encoded = Encoded(body: seq<Byte>, line: string)

  /** The compression step: when asked and the encoder succeeds, the encoder's output with
      the encoding line; otherwise the body unchanged and no line. */
  function Compress(body: seq<Byte>, compress: bool, gzip: seq<Byte> -> Option<seq<Byte>>): (e: Encoded)
    ensures e.line == EncodingLine() <==> compress && gzip(body).Some?
    ensures e.line == EncodingLine() || (e.line == "" && e.body == body)
    ensures e.line == EncodingLine() ==> e.body == gzip(body).value
  {
    if compress && gzip(body).Some? then Encoded(gzip(body).value, EncodingLine())
    else Encoded(body, "")
  }

  /** The header text: status line, Content-Length, Expires (written with no space after
      the colon), the optional encoding line, and the blank line that ends the header. */
  function HeaderText(status: U16, statusText: string, length: nat, expires: string, line: string): string
  {
    StatusLine(status, statusText) + "\r\n" + LengthLine(length) + "\r\n"
    + ExpiresLine(expires) + line + "\r\n" + "\r\n"
  }

  function StatusLine(status: U16, statusText: string): string
  {
    "HTTP/1.1 " + Text.NatToString(status) + " " + statusText
  }

  function LengthLine(length: nat): string
  {
    "Content-Length: " + Text.NatToString(length)
  }

  function ExpiresLine(expires: string): string
  {
    "Expires:" + expires
  }

  /** The bytes `HttpResponse::response` sends for descriptor `d`: the UTF-8 header text
      followed by the final body, whose length the header announces. */
  function ResponseBytes(d: HttpResponse, expires: string, readFile: string -> Option<seq<Byte>>,
                         gzip: seq<Byte> -> Option<seq<Byte>>): seq<Byte>
  {
    var e := Compress(FileBody(d, readFile), d.compress, gzip);
    Utf8.Encode(HeaderText(d.status, d.statusText, |e.body|, expires, e.line)) + e.body
  }

  /** `HttpResponse::encoder`: gzips `body`. On success the new body is the encoder's
      output and the line is the encoding line; on failure both are left as they were. */
  method Encoder(body: seq<Byte>, line: string, gzip: seq<Byte> -> Option<seq<Byte>>)
    returns (ok: bool, body': seq<Byte>, line': string)
    ensures ok <==> gzip(body).Some?
    ensures ok ==> body' == gzip(body).value && line' == EncodingLine()
    ensures !ok ==> body' == body && line' == line
  {
    var compressed := gzip(body);
    if compressed.None? {
      return false, body, line;
    }
    ok, body', line' := true, compressed.value, EncodingLine();
  }

  /** `HttpResponse::response`: rewrites the descriptor's path to the file it names,
      reads that file, compresses when asked, and assembles the bytes. Returns the
      rewritten descriptor with the bytes. */
  method Response(self: HttpResponse, expires: string, readFile: string -> Option<seq<Byte>>,
                  gzip: seq<Byte> -> Option<seq<Byte>>)
    returns (updated: HttpResponse, output: seq<Byte>)
    ensures updated == self.(path := FileTarget(self.path))
    ensures output == ResponseBytes(self, expires, readFile, gzip)
  {
    updated := self;
    if '.' !in updated.path {
      updated := updated.(path := updated.path + Router.IndexSuffix);
    }
    var body: seq<Byte> := match readFile(updated.path)
      case Some(contents) => contents
      case None => [];
    var line := "";
    if updated.compress {
      var ok;
      ok, body, line := Encoder(body, line, gzip);
    }
    output := Utf8.Encode(HeaderText(updated.status, updated.statusText, |body|, expires, line)) + body;
  }

  /** The header's bytes, line by line, with explicit CR LF between lines. */
  lemma {:induction false} HeaderBytes(status: U16, statusText: string, length: nat, expires: string, line: string)
    requires line == "" || line == EncodingLine()
    ensures Utf8.Encode(HeaderText(status, statusText, length, expires, line)) ==
      Utf8.Encode(StatusLine(status, statusText)) + [13, 10]
      + Utf8.Encode(LengthLine(length)) + [13, 10]
      + Utf8.Encode(ExpiresLine(expires))
      + (if line == "" then [] else [13, 10] + Utf8.Encode("Content-Encoding: gzip"))
      + [13, 10] + [13, 10]
  {
    var p1 := StatusLine(status, statusText) + "\r\n";
    var p2 := p1 + LengthLine(length);
    var p3 := p2 + "\r\n";
    var p4 := p3 + ExpiresLine(expires);
    var p5 := p4 + line;
    var p6 := p5 + "\r\n";
    EncodeThenCrlf(StatusLine(status, statusText));
    Utf8.EncodeAppend(p1, LengthLine(length));
    EncodeThenCrlf(p2);
    Utf8.EncodeAppend(p3, ExpiresLine(expires));
    Utf8.EncodeAppend(p4, line);
    EncodeThenCrlf(p5);
    EncodeThenCrlf(p6);
    EncodeCrlfThen("Content-Encoding: gzip");
  }

  /** A line break after some text is encoded as bytes 13 and 10 after that text's bytes. */
  lemma EncodeThenCrlf(s: string)
    ensures Utf8.Encode(s + "\r\n") == Utf8.Encode(s) + [13, 10]
  {
    Utf8.EncodeAppend(s, "\r\n");
    Utf8.EncodeCrlfSpace();
  }

  /** A line break before some text is encoded as bytes 13 and 10 before that text's bytes. */
  lemma EncodeCrlfThen(s: string)
    ensures Utf8.Encode("\r\n" + s) == [13, 10] + Utf8.Encode(s)
  {
    Utf8.EncodeAppend("\r\n", s);
    Utf8.EncodeCrlfSpace();
  }

  /** The status line's bytes: the version and a space, the code's digits, a space (byte
      32), and the status text's UTF-8 encoding. */
  lemma StatusLineBytes(status: U16, statusText: string)
    ensures Utf8.Encode(StatusLine(status, statusText)) ==
      Utf8.Encode("HTTP/1.1 ") + Utf8.Encode(Text.NatToString(status)) + [32] + Utf8.Encode(statusText)
  {
    var n := Text.NatToString(status);
    Utf8.EncodeAppend("HTTP/1.1 ", n);
    Utf8.EncodeAppend("HTTP/1.1 " + n, " ");
    Utf8.EncodeAppend("HTTP/1.1 " + n + " ", statusText);
    Utf8.EncodeCrlfSpace();
  }

  /** The response is the status line, the Content-Length line, the Expires line, the
      encoding line when the body was gzipped, and a blank line, each ended by CR LF and
      encoded as UTF-8, followed by the final body; Content-Length is that body's length. */
  lemma ResponseLayout(d: HttpResponse, expires: string, readFile: string -> Option<seq<Byte>>,
                       gzip: seq<Byte> -> Option<seq<Byte>>)
    ensures var e := Compress(FileBody(d, readFile), d.compress, gzip);
      ResponseBytes(d, expires, readFile, gzip) ==
        Utf8.Encode(StatusLine(d.status, d.statusText)) + [13, 10] +
        (Utf8.Encode(LengthLine(|e.body|)) + [13, 10] +
         (Utf8.Encode(ExpiresLine(expires)) + [13, 10] +
          (if e.line == EncodingLine()
           then Utf8.Encode("Content-Encoding: gzip") + [13, 10] + ([13, 10] + e.body)
           else [13, 10] + e.body)))
  {
    var e := Compress(FileBody(d, readFile), d.compress, gzip);
    assert ResponseBytes(d, expires, readFile, gzip) ==
      Utf8.Encode(HeaderText(d.status, d.statusText, |e.body|, expires, e.line)) + e.body;
    HeaderBytes(d.status, d.statusText, |e.body|, expires, e.line);
    var a, b, c := Utf8.Encode(StatusLine(d.status, d.statusText)),
      Utf8.Encode(LengthLine(|e.body|)), Utf8.Encode(ExpiresLine(expires));
    if e.line == EncodingLine() {
      Regroup(a, b, c, [13, 10] + Utf8.Encode("Content-Encoding: gzip"), e.body);
    } else {
      Regroup(a, b, c, [], e.body);
    }
  }

  /** Moves the brackets of a header layout to the right, one line at a time. */
  lemma Regroup(a: seq<Byte>, b: seq<Byte>, c: seq<Byte>, g: seq<Byte>, body: seq<Byte>)
    ensures a + [13, 10] + b + [13, 10] + c + g + [13, 10] + [13, 10] + body ==
      a + [13, 10] + (b + [13, 10] + (c + g + [13, 10] + ([13, 10] + body)))
  {
  }

  /** The builder's own rewrite leaves a routed path as it is, except when the request
      path's only dot was its first character: the router then drops that dot, and the
      builder reads the index page of a directory named after the rest. */
  lemma RoutedPathTarget(requestPath: string, routed: string)
    requires Router.Normalise(requestPath) == Some(routed)
    ensures FileTarget(routed) == routed <==>
      !(requestPath != "/" && requestPath[0] == '.' && '.' !in requestPath[1..])
    ensures FileTarget(routed) != routed ==> FileTarget(routed) == routed + Router.IndexSuffix
  {
    if '.' !in routed {
      assert FileTarget(routed) == routed + Router.IndexSuffix;
      assert |FileTarget(routed)| > |routed|;
    }
  }

  /** "/.x" names the file ".x", but ".x" routes to "x", which is read as "x/index.html". */
  lemma DotFirstPathRead()
    ensures Router.Normalise("/.x") == Some(".x") && FileTarget(".x") == ".x"
    ensures Router.Normalise(".x") == Some("x") && FileTarget("x") == "x/index.html"
  {
    assert "/.x"[1..] == ".x";
    assert "/.x"[1] == '.';
    assert ".x"[0] == '.';
    assert ".x"[1..] == "x";
    assert "x" + Router.IndexSuffix == "x/index.html";
  }

  /** The default templates name files, so the builder reads them without rewriting. */
  lemma TemplatesReadAsIs()
    ensures FileTarget(Defaults.NotFound().path) == "404.html"
    ensures FileTarget(Defaults.Forbidden().path) == "403.html"
  {
    Defaults.Templates();
  }
}
