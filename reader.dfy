/** How an HTTP/1.1 client reads the bytes the server sends: the status line, the header
    lines up to the blank line, then exactly Content-Length bytes of body. This is the
    inverse the response builder is checked against. */
module Reader {
  import opened Wrappers
  import opened Http
  import Text
  import Utf8
  import Builder

  const CR: Byte := 13
  const LF: Byte := 10
  const SP: Byte := 32

  /** Splits `b` at the first occurrence of byte `x`: what precedes it and what follows. */
  function Cut(b: seq<Byte>, x: Byte): (r: Option<(seq<Byte>, seq<Byte>)>)
    ensures r.Some? ==> b == r.value.0 + [x] + r.value.1 && x !in r.value.0
    ensures r.None? ==> x !in b
  {
    if b == [] then None
    else if b[0] == x then Some(([], b[1..]))
    else
      match Cut(b[1..], x)
      case None => None
      case Some((before, after)) => Some(([b[0]] + before, after))
  }

  /** A cut is determined by where the first `x` is. */
  lemma CutAt(a: seq<Byte>, x: Byte, c: seq<Byte>)
    requires x !in a
    ensures Cut(a + [x] + c, x) == Some((a, c))
  {
    var b := a + [x] + c;
    assert b[|a|] == x;
    var r := Cut(b, x);
    var before, after := r.value.0, r.value.1;
    assert |before| <= |a| by {
      assert b[|a|] !in before ==> |before| <= |a|;
    }
    assert |before| >= |a| by {
      assert b[|before|] == x;
    }
    assert before == b[..|a|] == a;
    assert after == b[|a| + 1..] == c;
  }

  /** Splits off the first line: the bytes up to the first CR, which must be followed by
      LF, and what follows that line break. */
  function SplitLine(b: seq<Byte>): Option<(seq<Byte>, seq<Byte>)>
  {
    var parts :- Cut(b, CR);
    if |parts.1| > 0 && parts.1[0] == LF then Some((parts.0, parts.1[1..])) else None
  }

  lemma SplitLineAt(a: seq<Byte>, c: seq<Byte>)
    requires CR !in a
    ensures SplitLine(a + [CR, LF] + c) == Some((a, c))
  {
    CutAt(a, CR, [LF] + c);
    assert a + [CR, LF] + c == a + [CR] + ([LF] + c);
  }

  /** The value of a header line `name` + value, read as UTF-8. */
  function ReadField(line: seq<Byte>, name: string): Option<string>
  {
    var prefix := Utf8.Encode(name);
    if prefix <= line then Utf8.Decode(line[|prefix|..]) else None
  }

  /** Status code and status text from "HTTP/1.1 <digits> <text>". */
  function ReadStatusLine(line: seq<Byte>): Option<(nat, string)>
  {
    var version := Utf8.Encode("HTTP/1.1 ");
    if !(version <= line) then None
    else
      var parts :- Cut(line[|version|..], SP);
      var digits :- Utf8.Decode(parts.0);
      var status :- Text.ParseDecimal(digits);
      var text :- Utf8.Decode(parts.1);
      Some((status, text))
  }

  /** The announced body length from a "Content-Length: <digits>" line. */
  function ReadLength(line: seq<Byte>): Option<nat>
  {
    var digits :- ReadField(line, "Content-Length: ");
    Text.ParseDecimal(digits)
  }

  /** What follows the Expires line: either the blank line, or the line
      "Content-Encoding: gzip" and then the blank line; then the body, which must be
      exactly `length` bytes. Gives whether the body is gzipped, and the body. */
  function ReadBody(b: seq<Byte>, length: nat): Option<(bool, seq<Byte>)>
  {
    var l :- SplitLine(b);
    var rest :- if l.0 == [] then Some((false, l.1))
                else if l.0 == Utf8.Encode("Content-Encoding: gzip") then
                  var blank :- SplitLine(l.1);
                  if blank.0 == [] then Some((true, blank.1)) else None
                else None;
    if |rest.1| == length then Some(rest) else None
  }

  /** What a client learns from a response. */
  datatype Reply = Reply(status: nat, statusText: string, contentLength: nat, expires: string,
                         gzipEncoded: bool, body: seq<Byte>)

  /** Reads a whole response: status line, Content-Length, Expires, optionally
      "Content-Encoding: gzip", the blank line, then the body, which must be exactly as long
      as Content-Length says. */
  function ReadResponse(out: seq<Byte>): Option<Reply>
  {
    var l1 :- SplitLine(out);
    var statusLine :- ReadStatusLine(l1.0);
    var l2 :- SplitLine(l1.1);
    var length :- ReadLength(l2.0);
    var l3 :- SplitLine(l2.1);
    var expires :- ReadField(l3.0, "Expires:");
    var body :- ReadBody(l3.1, length);
    Some(Reply(statusLine.0, statusLine.1, length, expires, body.0, body.1))
  }

  /** A numeral contains neither CR nor a space. */
  lemma NumeralAvoids(n: nat)
    ensures CR !in Utf8.Encode(Text.NatToString(n)) && SP !in Utf8.Encode(Text.NatToString(n))
  {
    var digits := Text.NatToString(n);
    Utf8.EncodeAvoids(digits, '\r');
    Utf8.EncodeAvoids(digits, ' ');
  }

  /** The status line reads back as the code and text it was written from, and holds no CR
      as long as the text holds none. */
  lemma ReadStatusLineBack(status: U16, statusText: string)
    requires '\r' !in statusText
    ensures CR !in Utf8.Encode(Builder.StatusLine(status, statusText))
    ensures ReadStatusLine(Utf8.Encode(Builder.StatusLine(status, statusText))) == Some((status, statusText))
  {
    var version, digits := Utf8.Encode("HTTP/1.1 "), Text.NatToString(status);
    var rest := Utf8.Encode(digits) + [SP] + Utf8.Encode(statusText);
    var line := Utf8.Encode(Builder.StatusLine(status, statusText));
    Builder.StatusLineBytes(status, statusText);
    assert line == version + rest;
    assert CR !in version by {
      Utf8.EncodeAvoids("HTTP/1.1 ", '\r');
    }
    assert CR !in rest by {
      Utf8.EncodeAvoids(statusText, '\r');
      NumeralAvoids(status);
    }
    assert version <= line && line[|version|..] == rest;
    assert Cut(rest, SP) == Some((Utf8.Encode(digits), Utf8.Encode(statusText))) by {
      NumeralAvoids(status);
      CutAt(Utf8.Encode(digits), SP, Utf8.Encode(statusText));
    }
    Utf8.DecodeEncode(digits);
    Utf8.DecodeEncode(statusText);
    Text.ParseNatToString(status);
  }

  /** A header line "name" + value reads back as the value, and holds no CR when neither
      part does. */
  lemma ReadFieldBack(name: string, value: string)
    requires '\r' !in name && '\r' !in value
    ensures CR !in Utf8.Encode(name + value)
    ensures ReadField(Utf8.Encode(name + value), name) == Some(value)
  {
    Utf8.EncodeAppend(name, value);
    Utf8.EncodeAvoids(name, '\r');
    Utf8.EncodeAvoids(value, '\r');
    Utf8.DecodeEncode(value);
    assert (Utf8.Encode(name) + Utf8.Encode(value))[|Utf8.Encode(name)|..] == Utf8.Encode(value);
  }

  /** The Content-Length line reads back as the length it was written from. */
  lemma ReadLengthBack(length: nat)
    ensures CR !in Utf8.Encode(Builder.LengthLine(length))
    ensures ReadLength(Utf8.Encode(Builder.LengthLine(length))) == Some(length)
  {
    var digits := Text.NatToString(length);
    assert '\r' !in digits;
    ReadFieldBack("Content-Length: ", digits);
    Text.ParseNatToString(length);
  }

  /** The part after the Expires line reads back as the encoding flag and the body. */
  lemma ReadBodyBack(gzipEncoded: bool, body: seq<Byte>)
    ensures var g := Utf8.Encode("Content-Encoding: gzip");
      ReadBody(if gzipEncoded then g + [CR, LF] + ([CR, LF] + body) else [CR, LF] + body, |body|)
        == Some((gzipEncoded, body))
  {
    var g := Utf8.Encode("Content-Encoding: gzip");
    SplitLineAt([], body);
    assert [] + [CR, LF] + body == [CR, LF] + body;
    if gzipEncoded {
      assert g != [] && CR !in g by {
        Utf8.EncodeCons("Content-Encoding: gzip");
        Utf8.EncodeAvoids("Content-Encoding: gzip", '\r');
      }
      SplitLineAt(g, [CR, LF] + body);
    }
  }

  /** The bytes the builder produces read back as the descriptor's status code and text
      unchanged, the date, whether the body was gzipped, and the final body, whose length
      is exactly the announced Content-Length. The status text and the date must not hold
      a CR, or they would end their line early. */
  lemma {:induction false} ResponseReadsBack(d: HttpResponse, expires: string,
                                             readFile: string -> Option<seq<Byte>>,
                                             gzip: seq<Byte> -> Option<seq<Byte>>)
    requires '\r' !in d.statusText && '\r' !in expires
    ensures var e := Builder.Compress(Builder.FileBody(d, readFile), d.compress, gzip);
      ReadResponse(Builder.ResponseBytes(d, expires, readFile, gzip)) ==
        Some(Reply(d.status, d.statusText, |e.body|, expires, e.line == Builder.EncodingLine(), e.body))
  {
    var e := Builder.Compress(Builder.FileBody(d, readFile), d.compress, gzip);
    var n := |e.body|;
    var gz := e.line == Builder.EncodingLine();
    var out := Builder.ResponseBytes(d, expires, readFile, gzip);
    var statusLine := Utf8.Encode(Builder.StatusLine(d.status, d.statusText));
    var lengthLine := Utf8.Encode(Builder.LengthLine(n));
    var expiresLine := Utf8.Encode(Builder.ExpiresLine(expires));
    var g := Utf8.Encode("Content-Encoding: gzip");
    var tail := if gz then g + [CR, LF] + ([CR, LF] + e.body) else [CR, LF] + e.body;
    var rest2 := expiresLine + [CR, LF] + tail;
    var rest1 := lengthLine + [CR, LF] + rest2;
    Builder.ResponseLayout(d, expires, readFile, gzip);
    ReadStatusLineBack(d.status, d.statusText);
    SplitLineAt(statusLine, rest1);
    ReadLengthBack(n);
    SplitLineAt(lengthLine, rest2);
    ReadFieldBack("Expires:", expires);
    SplitLineAt(expiresLine, tail);
    ReadBodyBack(gz, e.body);
  }

  /** A file that cannot be read is sent as an empty body (or the encoder's output for an
      empty input), under the descriptor's own status code and text. */
  lemma UnreadableFileReadsBack(d: HttpResponse, expires: string,
                                readFile: string -> Option<seq<Byte>>,
                                gzip: seq<Byte> -> Option<seq<Byte>>)
    requires readFile(Builder.FileTarget(d.path)).None?
    requires '\r' !in d.statusText && '\r' !in expires
    ensures var zipped := d.compress && gzip([]).Some?;
      var body := if zipped then gzip([]).value else [];
      ReadResponse(Builder.ResponseBytes(d, expires, readFile, gzip)) ==
        Some(Reply(d.status, d.statusText, |body|, expires, zipped, body))
  {
    ResponseReadsBack(d, expires, readFile, gzip);
  }
}
