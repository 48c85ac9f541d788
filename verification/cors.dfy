/** The backend's CORS response fairing: which origin a response allows,
    and the fixed headers that go with it.

    The configured value comes from the `ALLOWED_ORIGIN` environment
    variable, read on every response; it is either `*`, one origin, or a
    comma-separated list of origins. */
module Cors {
  import opened Wrappers
  import opened Text

  /** The configuration used when `ALLOWED_ORIGIN` is unset. */
  const DefaultOrigin := "http://localhost:5173"

  /** The configured origins: the variable's value, or the default when it
      is unset or not valid Unicode (`None`). */
  function AllowedOrigins(env: Option<string>): (r: string)
    ensures env.None? ==> r == DefaultOrigin
    ensures env.Some? ==> r == env.value
  {
    env.GetOr(DefaultOrigin)
  }

  /** `origin` is one of the comma-separated entries of `config`, ignoring
      whitespace around each entry. */
  predicate Listed(config: string, origin: string) {
    var entries := Split(config, ',');
    exists k :: 0 <= k < |entries| && Trim(Rust, entries[k]) == origin
  }

  /** `entries.any(|o| o.trim() == origin)`, scanned from the front. */
  function AnyMatches(entries: seq<string>, origin: string): (r: bool)
    ensures r <==> exists k :: 0 <= k < |entries| && Trim(Rust, entries[k]) == origin
  {
    if |entries| == 0 then false
    else if Trim(Rust, entries[0]) == origin then true
    else
      var r := AnyMatches(entries[1..], origin);
      assert forall k :: 1 <= k < |entries| ==> entries[k] == entries[1..][k - 1];
      r
  }

  /** The value of `Access-Control-Allow-Origin`: the request's origin when
      the configuration is `*` or lists it, and otherwise the configuration
      verbatim, which a browser will then refuse. */
  function OriginToAllow(config: string, origin: Option<string>): (r: string)
    ensures r == config || (origin.Some? && r == origin.value)
    ensures origin.None? ==> r == config
    ensures origin.Some? ==> (r == origin.value <==> config == "*" || Listed(config, origin.value) || origin.value == config)
  {
    match origin
    case None => config
    case Some(o) =>
      if config == "*" then o
      else if AnyMatches(Split(config, ','), o) then o
      else config
  }

  /** An origin other than the configuration itself is only allowed when
      the configuration is `*` or lists it. */
  lemma EchoOnlyListed(config: string, origin: string)
    requires origin != config
    ensures OriginToAllow(config, Some(origin)) == origin <==> config == "*" || Listed(config, origin)
  {
  }

  /** With a list of origins, each entry is allowed whatever whitespace
      surrounds it, and no other origin is. */
  lemma ListedOrigins(entries: seq<string>, origin: string)
    requires |entries| >= 2
    requires forall k :: 0 <= k < |entries| ==> ',' !in entries[k]
    ensures Listed(Join(entries, ','), origin) <==> exists k :: 0 <= k < |entries| && Trim(Rust, entries[k]) == origin
  {
    SplitJoin(entries, ',');
  }

  /** A single configured origin without surrounding whitespace is allowed
      exactly when the request comes from it; the response names that
      origin either way. */
  lemma SingleOrigin(config: string, origin: Option<string>)
    requires ',' !in config && config != "*" && NoEdgeWhitespace(Rust, config)
    ensures OriginToAllow(config, origin) == config
  {
    if origin.Some? {
      SplitNoSeparator(config, ',');
      TrimNoEdge(Rust, config);
      assert AnyMatches([config], origin.value) <==> config == origin.value;
    }
  }

  /** Without configuration, the development frontend is allowed. */
  lemma DefaultAllowsDevServer(origin: Option<string>)
    ensures OriginToAllow(AllowedOrigins(None), origin) == DefaultOrigin
  {
    SingleOrigin(DefaultOrigin, origin);
  }

  datatype Header = Header(name: string, value: string)

  /** The four headers set on every response. */
  function CorsHeaders(config: string, origin: Option<string>): (r: seq<Header>)
    ensures |r| == 4
    ensures r[0] == Header("Access-Control-Allow-Origin", OriginToAllow(config, origin))
  {
    [
      Header("Access-Control-Allow-Origin", OriginToAllow(config, origin)),
      Header("Access-Control-Allow-Methods", "GET, POST, PUT, DELETE, OPTIONS"),
      Header("Access-Control-Allow-Headers", "Content-Type, Authorization"),
      Header("Access-Control-Allow-Credentials", "true")
    ]
  }

  /** Only the allowed origin depends on the request or the configuration;
      credentials are always allowed. */
  lemma HeadersFixedButOrigin(c1: string, o1: Option<string>, c2: string, o2: Option<string>)
    ensures CorsHeaders(c1, o1)[1..] == CorsHeaders(c2, o2)[1..]
    ensures CorsHeaders(c1, o1)[3].value == "true"
  {
  }
}
