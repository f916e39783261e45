/** Building a server configuration from caller-supplied values. */
module Config {
  import opened Wrappers
  import opened Http
  import Defaults

  /** `ServerConfig::new`. The address text goes through the IPv4 parser `parseIp`, and
      a parse failure is the result in either branch. The caller's two descriptors are used
      only when BOTH are given; otherwise both templates are the built-in ones, even the
      one that was given. */
  function New(
    inputIp: string, port: U16, threadAmount: nat, enableGzip: bool,
    notFound: Option<HttpResponse>, forbidden: Option<HttpResponse>,
    parseIp: string -> Option<Ipv4Addr>): (r: Result<ServerConfig, AddrParseError>)
    ensures r.Ok? <==> parseIp(inputIp).Some?
    ensures r.Ok? ==>
      r.value.ipAddress == parseIp(inputIp).value && r.value.port == port &&
      r.value.threadAmount == threadAmount && r.value.enableGzip == enableGzip
    ensures r.Ok? && notFound.Some? && forbidden.Some? ==>
      r.value.notFoundResponse == notFound.value && r.value.forbiddenResponse == forbidden.value
    ensures r.Ok? && (notFound.None? || forbidden.None?) ==>
      r.value.notFoundResponse == Defaults.NotFound() &&
      r.value.forbiddenResponse == Defaults.Forbidden()
  {
    if notFound.Some? && forbidden.Some? then
      match parseIp(inputIp)
      case None => Err(AddrParseError)
      case Some(ip) => Ok(ServerConfig(ip, port, threadAmount, enableGzip, notFound.value, forbidden.value))
    else
      match parseIp(inputIp)
      case None => Err(AddrParseError)
      case Some(ip) =>
        Ok(Defaults.DefaultConfig().(ipAddress := ip, port := port,
                                      threadAmount := threadAmount, enableGzip := enableGzip))
  }

  /** Supplying only one override changes nothing: the configuration is the one built
      with no overrides at all. */
  lemma OneOverrideIgnored(
    inputIp: string, port: U16, threadAmount: nat, enableGzip: bool,
    notFound: Option<HttpResponse>, forbidden: Option<HttpResponse>,
    parseIp: string -> Option<Ipv4Addr>)
    requires notFound.None? || forbidden.None?
    ensures New(inputIp, port, threadAmount, enableGzip, notFound, forbidden, parseIp)
         == New(inputIp, port, threadAmount, enableGzip, None, None, parseIp)
  {
  }
}
