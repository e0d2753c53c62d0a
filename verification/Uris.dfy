/**
 The parts of a URI that cookie storage and redirect handling look at.
 */
module Uris {
  import opened Text

  datatype Scheme = Http | Https | Other(name: string)

  datatype Uri = Uri(scheme: Option<Scheme>, host: Option<string>, port: Option<nat>, path: string, query: string) {
    predicate IsHttp() { scheme == Some(Http) }

    predicate IsHttps() { scheme == Some(Https) }

    /** The explicit port, or the default port of the scheme. */
    function PortOrDefault(): nat {
      if port.Some? then port.value else if IsHttps() then 443 else 80
    }
  }
}
