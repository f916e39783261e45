/** The built-in descriptors and configuration. */
module Defaults {
  import opened Http

  /** The template for a missing file. */
  function NotFound(): HttpResponse
  {
    HttpResponse(404, "404.html", "NOT FOUND", true)
  }

  /** The template for a refused method. */
  function Forbidden(): HttpResponse
  {
    HttpResponse(403, "403.html", "FORBIDDEN", true)
  }

  /** The descriptor every routing decision starts from. It is written out on its own in
      the server rather than by calling `NotFound`. */
  function DefaultResponse(): HttpResponse
  {
    HttpResponse(404, "404.html", "NOT FOUND", true)
  }

  /** The configuration used where no other value is given: 127.0.0.1 port 80, five
      workers, gzip allowed, and the two built-in templates. */
  function DefaultConfig(): ServerConfig
  {
    ServerConfig(Ipv4Addr(127, 0, 0, 1), 80, 5, true, NotFound(), Forbidden())
  }

  /** The two templates, the starting descriptor and the default configuration, field by
      field. The starting descriptor is the not-found template, the default configuration
      carries both templates, and both template paths name a file (they contain a dot). */
  lemma Templates()
    ensures NotFound().status == 404 && NotFound().statusText == "NOT FOUND"
    ensures NotFound().path == "404.html" && NotFound().compress
    ensures Forbidden().status == 403 && Forbidden().statusText == "FORBIDDEN"
    ensures Forbidden().path == "403.html" && Forbidden().compress
    ensures DefaultResponse() == NotFound()
    ensures DefaultConfig().ipAddress == Ipv4Addr(127, 0, 0, 1) && DefaultConfig().port == 80
    ensures DefaultConfig().threadAmount == 5 && DefaultConfig().enableGzip
    ensures DefaultConfig().notFoundResponse == NotFound() && DefaultConfig().forbiddenResponse == Forbidden()
    ensures '.' in NotFound().path && '.' in Forbidden().path
  {
    assert NotFound().path[3] == '.';
    assert Forbidden().path[3] == '.';
  }
}
