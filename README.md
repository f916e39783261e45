# A small static-file HTTP server: routing and response assembly

The server answers each TCP connection with one HTTP/1.1 response built from a file
on disk. This project models the part of it that decides what to answer and then
assembles the bytes. The worker pool and the sockets are not part of the model. The
model has five stages:

- **Defaults** (`defaults.dfy`): the built-in `not_found` (404) and `forbidden` (403)
  descriptors, the descriptor every routing decision starts from, and the default
  server configuration.
- **Config** (`config.dfy`): `ServerConfig::new`. It uses the caller's two template
  descriptors only when both are given. An address the IPv4 parser rejects is an error
  on either branch.
- **Router** (`router.dfy`): `ServerConfig::response_from_request`. It normalises the
  request path, then routes: a GET for an existing file gets 200; any other method
  gets the forbidden template; everything else gets the not-found template.
- **Builder** (`builder.dfy`): `HttpResponse::response` and `HttpResponse::encoder`.
  The builder rewrites a dot-free path to its index page and reads the file. An
  unreadable file gives an empty body. It optionally gzips the body and falls back
  to the plain body when the encoder fails. It then writes
  `HTTP/1.1 <status> <text>\r\nContent-Length: <n>\r\nExpires:<date>[\r\nContent-Encoding: gzip]\r\n\r\n`
  as UTF-8, followed by the body.
- **Connection** (`connection.dfy`): the two stages composed, as `handle_connection`
  runs them. When the parser rejects the buffer, nothing is written.

Supporting modules:

- `utf8.dfy`: UTF-8 encoding (`as_bytes`) and a decoder with the validity rules of
  `std::str::from_utf8`. The decoder is proved to invert the encoder.
- `text.dfy`: substring search and decimal numerals.
- `reader.dfy`: a client-side reader of responses. It is the partner the builder's
  output is proved against: every response the builder produces reads back as the
  descriptor's status, the date, the encoding flag and a body exactly as long as
  Content-Length says.

The file system, gzip, the clock and the IPv4 parser are parameters:

- `exists_: string -> bool` is the existence test.
- `readFile: string -> Option<seq<Byte>>` reads a file; None is a read failure.
- `gzip: seq<Byte> -> Option<seq<Byte>>` is the encoder; None is a failure of either
  of its two steps.
- `expires: string` is the formatted date.
- `parseIp: string -> Option<Ipv4Addr>` is the address parser.

The request arrives as the parser's result: `Err` for a rejected buffer, otherwise
an optional method, an optional path and the headers.

Behaviour of the code that the model keeps, and proves:

- `&path[1..]` drops the first character whatever it is: `"*"` becomes `"/index.html"`.
- The slice panics on an empty path, or on a path that starts with a multi-byte
  character. The model returns the `SlicePanicked` outcome there, and nothing is
  written.
- On the 200 arm, `compress` starts at the default `true`. It becomes the
  configuration's `enable_gzip` only when some header named exactly
  `Accept-Encoding` has a valid UTF-8 value containing `gzip`. A client that does not
  ask for gzip is therefore sent a gzipped body (when the encoder succeeds), whatever
  `enable_gzip` says (`Connection.ServeGetReadsBack`).
- A normalised path contains a dot, so the builder's second rewrite leaves it alone,
  except in one case: the request path's only dot is its first character. `".x"` is
  routed as `"x"`, so the existence test is made on `"x"`, and the builder then reads
  `"x/index.html"` (`Builder.RoutedPathTarget`, `Builder.DotFirstPathRead`).

## Model

| member | source | states |
|---|---|---|
| Defaults.Templates | src/defaults.rs:3-43 | not_found is 404 "NOT FOUND" "404.html" with compress; forbidden is 403 "FORBIDDEN" "403.html" with compress; the default descriptor equals not_found field for field; the default configuration is 127.0.0.1, port 80, 5 threads, gzip on, with both templates; both template paths contain a dot |
| Config.New | src/lib.rs:183-210 | Ok exactly when the address parses; port, thread count and gzip switch carried over; the caller's templates used when both are given, both built-in templates otherwise |
| Config.OneOverrideIgnored | src/lib.rs:191-209 | giving only one override yields the same configuration as giving none |
| Router.Normalise | src/lib.rs:254-263 | no path (the panic) exactly when the path is not "/" and is empty or starts with a multi-byte character; otherwise the result starts with the path minus its first character; the result has no dot exactly when the path's only dot was its first character |
| Router.NormaliseExamples | src/lib.rs:256-260 | "/" becomes "index.html" and "/about" becomes "about/index.html" |
| Router.NormaliseFileExamples | src/lib.rs:261-262 | "/about.html" becomes "about.html" and "/a.b/c" becomes "a.b/c" |
| Router.NormaliseEdgeCases | src/lib.rs:256-263 | "*" becomes "/index.html", ".x" becomes "x", and "" panics |
| Router.DirectoryIsItsIndex | src/lib.rs:258-262 | for a non-empty dot-free directory, "/dir" and "/dir/index.html" normalise to the same "dir/index.html" |
| Router.AnyAcceptsGzip | src/lib.rs:276-281 | true exactly when some header asks for gzip |
| Router.AcceptsGzipText | src/lib.rs:277-280 | an "Accept-Encoding" header carrying the UTF-8 bytes of a text asks for gzip exactly when the text contains "gzip" |
| Router.AcceptsGzipRejects | src/lib.rs:277-280 | invalid UTF-8 reads as "" even when its bytes spell gzip, and the header name is matched case-sensitively |
| Router.GetExistingFileServed | src/lib.rs:265-283 | a GET for an existing normalised path gives 200 "OK" at that path; compress is enable_gzip when a header asks for gzip and true otherwise |
| Router.OtherMethodForbidden | src/lib.rs:285-288 | a method other than GET gets the forbidden template unchanged, whatever the path |
| Router.MissingFileNotFound | src/lib.rs:289 | a GET for a missing file, or no method, gets the not-found template unchanged |
| Router.RoutedIsOneOfThree | src/lib.rs:246-292 | a parse error gives no descriptor; every routed descriptor is a 200 for an existing normalised path or one of the two templates unchanged |
| Builder.FileTarget | src/lib.rs:125-128 | the file read always has a dot in its name; a path with a dot is kept; otherwise it is extended |
| Builder.Compress | src/lib.rs:136-142 | the encoding line is present exactly when compress is set and the encoder succeeds, and then the body is the encoder's output; otherwise the body is unchanged and the line is empty |
| Builder.Encoder | src/lib.rs:161-170 | success exactly when gzip succeeds; on success the body is gzip's output and the line is "\r\nContent-Encoding: gzip"; on failure both are unchanged |
| Builder.Response | src/lib.rs:121-159 | the descriptor's path becomes the file it names, and the output is the response bytes for the descriptor |
| Builder.HeaderBytes | src/lib.rs:145-154 | the header's bytes are the status, length and Expires lines, the optional encoding line and the blank line, separated by CR LF bytes |
| Builder.StatusLineBytes | src/lib.rs:146-148 | the status line's bytes are "HTTP/1.1 ", the decimal status, a space byte and the status text |
| Builder.ResponseLayout | src/lib.rs:145-158 | the output is the header lines, each ended by CR LF, then the final body; Content-Length is that body's length |
| Builder.RoutedPathTarget | src/lib.rs:126-128 | the builder keeps a routed path exactly when the request path's only dot was not its first character; otherwise it appends "/index.html" |
| Builder.DotFirstPathRead | src/lib.rs:126-128 | "/.x" is read as ".x", while ".x" is routed as "x" and read as "x/index.html" |
| Builder.TemplatesReadAsIs | src/defaults.rs:4-19 | the builder reads the two templates' files without rewriting them |
| Reader.ResponseReadsBack | src/lib.rs:145-158 | the output reads back as the descriptor's status and text unchanged, the date, whether the body was gzipped, and the final body, whose length is the announced Content-Length |
| Reader.UnreadableFileReadsBack | src/lib.rs:130-134 | an unreadable file is sent as the empty body (or gzip of the empty body), with status and text unchanged |
| Reader.ReadStatusLineBack | src/lib.rs:146-148 | the status line reads back as the status code and the status text |
| Reader.ReadLengthBack | src/lib.rs:146-149 | the Content-Length line reads back as the length |
| Connection.Serve | src/lib.rs:234-244 | nothing is written exactly when the parser rejects the buffer or the path slice panics |
| Connection.ServeGetReadsBack | src/lib.rs:265-283 | a GET for an existing readable file comes back as 200 "OK"; it is gzipped exactly when the encoder succeeds and either no header asks for gzip or enable_gzip is on |
| Connection.ServeOtherMethodReadsBack | src/lib.rs:285-288 | a non-GET request comes back with the forbidden template's status and text |
| Utf8.DecodeEncode | src/lib.rs:278-279 | decoding a text's UTF-8 bytes gives the text back |
| Utf8.EncodeAppend | src/lib.rs:145-154 | the bytes of a concatenation are the concatenation of the bytes |
| Text.ContainsSubstring | src/lib.rs:280 | true exactly when the pattern occurs at some position |
| Text.ParseNatToString | src/lib.rs:147-149 | the decimal numeral of a number parses back to that number |

## Left out

- `ThreadPool` and `ThreadWorker` (channel, mutex, thread spawn and join, shutdown on drop): concurrency, outside what is modelled.
- `ServerConfig::start` and the socket side of `handle_connection` (bind, accept, `fill_buf`, `write_all`, `consume`): I/O. `Connection.Serve` keeps only the decision of whether bytes are written, and which.
- The panic of `&path[1..]` kills the worker thread in the server; here it is an outcome value, and what the thread pool does afterwards is not modelled.
- The `httparse` request parser, including its 64-header limit and partial parses: a foreign library. Its output is the given `Result<Request, ParseError>`.
- `Path::exists` and `fs::read`: file system calls, passed in as parameters.
- flate2's `GzEncoder`: a foreign call, passed in as one function. A failure of `write_all` and a failure of `finish` are merged into one None.
- `Utc::now`, `Duration::days(7)` and `fmt_http_date`: the clock and date formatting. The formatted date is a string parameter.
- The IPv4 address parser: passed in as a partial function.
- `eprintln!` and `println!` logging: no effect on the result.
- `HttpResponse::new`: dead code, with no logic beyond building the record.
- `src/main.rs`: an entry point with fixed arguments.
- Config.New: `thread_amount` is a `usize` in the server and a `nat` here; no width limit is modelled.
- Reader.ResponseReadsBack: requires that the status text and the date contain no CR. A CR in either would end its line early, and the reader would not recover them.
