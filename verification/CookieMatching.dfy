/**
 Domain matching, path matching and default paths of cookies
 (sections 5.1.3 and 5.1.4 of RFC 6265).
 */
module CookieMatching {
  import opened Text

  /** A canonical host. An address is represented by its canonical text. */
  datatype Host = Domain(text: string) | V4(text: string) | V6(text: string)

  const DEFAULT_PATH: string := "/"

  /** `Host::parse` of the url library, left arbitrary. */
  type HostParser = string -> Option<Host>

  function CanonicalHost(parse: HostParser, host: string): Option<Host> {
    parse(StripDot(host))
  }

  /** One leading dot is ignored, and no more than one. */
  lemma LeadingDotIsIgnored(parse: HostParser, host: string)
    ensures CanonicalHost(parse, "." + host) == parse(host)
    ensures host == "" || host[0] != '.' ==> CanonicalHost(parse, host) == parse(host)
  {
    assert ("." + host)[1..] == host;
  }

  predicate DomainMatch(host: Host, domain: Host) {
    host == domain ||
    (&& host.Domain? && domain.Domain?
     && |host.text| > |domain.text|
     && host.text[|host.text| - |domain.text| - 1] == '.'
     && EndsWith(host.text, domain.text))
  }

  predicate PathMatch(requestPath: string, cookiePath: string) {
    requestPath == cookiePath ||
    (&& StartsWith(requestPath, cookiePath)
     && (EndsWith(cookiePath, DEFAULT_PATH) || StartsWith(requestPath[|cookiePath|..], DEFAULT_PATH)))
  }

  /** Index of the last slash, or -1. */
  function LastSlash(path: string): (pos: int)
    ensures -1 <= pos < |path|
    ensures pos >= 0 ==> path[pos] == '/'
    ensures forall i :: pos < i < |path| ==> path[i] != '/'
  {
    if path == [] then -1
    else if path[|path| - 1] == '/' then |path| - 1
    else LastSlash(path[..|path| - 1])
  }

  function NormalizePath(path: string): string {
    if !StartsWith(path, DEFAULT_PATH) then DEFAULT_PATH
    else if LastSlash(path) > 0 then path[..LastSlash(path)]
    else DEFAULT_PATH
  }

  // ----- what matching means -----

  /** `host` is `domain` itself or some labels, a dot, and then `domain`. */
  ghost predicate SubdomainOf(host: Host, domain: Host) {
    host == domain ||
    (host.Domain? && domain.Domain? && exists labels: string :: host.text == labels + "." + domain.text)
  }

  lemma DomainMatchIsSubdomain(host: Host, domain: Host)
    ensures DomainMatch(host, domain) <==> SubdomainOf(host, domain)
  {
    if host != domain && host.Domain? && domain.Domain? {
      var n := |host.text| - |domain.text| - 1;
      if DomainMatch(host, domain) {
        assert host.text == host.text[..n] + "." + domain.text;
      }
      if labels: string :| host.text == labels + "." + domain.text {
        assert host.text[n] == '.';
        assert EndsWith(host.text, domain.text);
      }
    }
  }

  /** The segment list after one more byte. */
  function Grow(segments: seq<string>, c: char): (r: seq<string>)
    requires |segments| > 0
    ensures |r| > 0
  {
    if c == '/' then segments + [""]
    else segments[..|segments| - 1] + [segments[|segments| - 1] + [c]]
  }

  /** The segments of `path`: the maximal slash-free pieces. */
  function Segments(path: string): (r: seq<string>)
    ensures |r| > 0
  {
    if path == [] then [""] else Grow(Segments(path[..|path| - 1]), path[|path| - 1])
  }

  lemma GrowBack(front: seq<string>, back: seq<string>, c: char)
    requires |back| > 0
    ensures Grow(front + back, c) == front + Grow(back, c)
  {
    var all := front + back;
    assert all[..|all| - 1] == front + back[..|back| - 1];
  }

  lemma SegmentsGrow(init: string, c: char)
    ensures Segments(init + [c]) == Grow(Segments(init), c)
  {
    assert (init + [c])[..|init|] == init;
  }

  lemma {:induction false} SegmentsOfExtension(a: string, rest: string)
    ensures Segments(a + "/" + rest) == Segments(a) + Segments(rest)
    decreases |rest|
  {
    if rest == [] {
      assert a + "/" + rest == a + ['/'];
      SegmentsGrow(a, '/');
    } else {
      var init, c := rest[..|rest| - 1], rest[|rest| - 1];
      assert rest == init + [c] && a + "/" + rest == (a + "/" + init) + [c];
      SegmentsOfExtension(a, init);
      SegmentsGrow(a + "/" + init, c);
      GrowBack(Segments(a), Segments(init), c);
    }
  }

  function Join(segments: seq<string>): string
    requires |segments| > 0
  {
    if |segments| == 1 then segments[0] else segments[0] + "/" + Join(segments[1..])
  }

  lemma {:induction false} JoinAppend(front: seq<string>, back: seq<string>)
    requires |front| > 0 && |back| > 0
    ensures Join(front + back) == Join(front) + "/" + Join(back)
  {
    if |front| == 1 {
      assert (front + back)[1..] == back;
    } else {
      assert (front + back)[1..] == front[1..] + back;
      JoinAppend(front[1..], back);
    }
  }

  lemma {:induction false} JoinGrow(segments: seq<string>, c: char)
    requires |segments| > 0
    ensures Join(Grow(segments, c)) == Join(segments) + [c]
  {
    if c == '/' {
      JoinAppend(segments, [""]);
    } else if |segments| > 1 {
      assert Grow(segments, c)[1..] == Grow(segments[1..], c);
      JoinGrow(segments[1..], c);
    }
  }

  /** Splitting loses nothing. */
  lemma {:induction false} JoinSegments(path: string)
    ensures Join(Segments(path)) == path
    decreases |path|
  {
    if path != [] {
      var init, c := path[..|path| - 1], path[|path| - 1];
      var segments := Segments(init);
      assert Join(segments) == init by { JoinSegments(init); }
      assert path == init + [c];
      SegmentsGrow(init, c);
      JoinGrow(segments, c);
    }
  }

  /** A cookie path without the slash it may end in. */
  function Trimmed(cookiePath: string): string {
    if EndsWith(cookiePath, DEFAULT_PATH) then cookiePath[..|cookiePath| - 1] else cookiePath
  }

  /** The segments of a cookie path lead the segments of the request path; after a trailing slash
      the request must go on with one more segment, which may be empty. */
  predicate LeadsSegments(cookiePath: string, requestPath: string) {
    && Segments(Trimmed(cookiePath)) <= Segments(requestPath)
    && (EndsWith(cookiePath, DEFAULT_PATH) ==> |Segments(Trimmed(cookiePath))| < |Segments(requestPath)|)
  }

  lemma PathMatchIsSegmentPrefix(requestPath: string, cookiePath: string)
    ensures PathMatch(requestPath, cookiePath) <==> LeadsSegments(cookiePath, requestPath)
  {
    if PathMatch(requestPath, cookiePath) { MatchLeads(requestPath, cookiePath); }
    if LeadsSegments(cookiePath, requestPath) { LeadsMatch(requestPath, cookiePath); }
  }

  lemma MatchLeads(requestPath: string, cookiePath: string)
    requires PathMatch(requestPath, cookiePath)
    ensures LeadsSegments(cookiePath, requestPath)
  {
    var a := Trimmed(cookiePath);
    if requestPath != a {
      var rest := requestPath[|a| + 1..];
      assert requestPath[|a|] == '/' by {
        if a == cookiePath { assert requestPath[|a|..][0] == '/'; }
      }
      assert requestPath == a + "/" + rest;
      SegmentsOfExtension(a, rest);
    }
  }

  lemma LeadsMatch(requestPath: string, cookiePath: string)
    requires LeadsSegments(cookiePath, requestPath)
    ensures PathMatch(requestPath, cookiePath)
  {
    var a := Trimmed(cookiePath);
    SegmentsLead(a, requestPath);
    if requestPath != a { assert requestPath[|a|..][0] == '/'; }
  }

  /** A path whose segments lead those of another is that path, or is followed by a slash in it. */
  lemma SegmentsLead(a: string, path: string)
    requires Segments(a) <= Segments(path)
    ensures if |Segments(a)| == |Segments(path)| then path == a else |a| < |path| && path[..|a|] == a && path[|a|] == '/'
  {
    var s, r := Segments(a), Segments(path);
    assert Join(s) == a by { JoinSegments(a); }
    assert Join(r) == path by { JoinSegments(path); }
    JoinLead(s, r);
    if |s| < |r| { SlashBehind(a, Join(r[|s|..])); }
  }

  lemma JoinLead(s: seq<string>, r: seq<string>)
    requires |s| > 0 && s <= r
    ensures if |s| == |r| then s == r else Join(r) == Join(s) + "/" + Join(r[|s|..])
  {
    if |s| < |r| {
      var rest := r[|s|..];
      assert r == s + rest;
      JoinAppend(s, rest);
    }
  }

  lemma SlashBehind(a: string, rest: string)
    ensures var path := a + "/" + rest; |a| < |path| && path[..|a|] == a && path[|a|] == '/'
  {
  }

  // ----- both relations are partial orders -----

  lemma DomainMatchIsPartialOrder(a: Host, b: Host, c: Host)
    ensures DomainMatch(a, a)
    ensures DomainMatch(a, b) && DomainMatch(b, a) ==> a == b
    ensures DomainMatch(a, b) && DomainMatch(b, c) ==> DomainMatch(a, c)
  {
    if DomainMatch(a, b) && DomainMatch(b, c) && a != b && b != c {
      var k := |a.text| - |b.text|;
      assert a.text[k..] == b.text;
      var j := |b.text| - |c.text|;
      assert a.text[k + j..] == b.text[j..] == c.text;
      assert a.text[k + j - 1] == b.text[j - 1];
    }
  }

  lemma PathMatchIsPartialOrder(a: string, b: string, c: string)
    ensures PathMatch(a, a)
    ensures PathMatch(a, b) && PathMatch(b, a) ==> a == b
    ensures PathMatch(a, b) && PathMatch(b, c) ==> PathMatch(a, c)
  {
    if PathMatch(a, b) && PathMatch(b, c) && a != b && b != c && !EndsWith(c, DEFAULT_PATH) {
      assert b[|c|..][0] == b[|c|] == a[|c|] == a[|c|..][0];
    }
  }

  // ----- what one request matches is a chain -----

  lemma MatchingDomainsFormChain(host: Host, a: Host, b: Host)
    requires DomainMatch(host, a) && DomainMatch(host, b)
    ensures DomainMatch(a, b) || DomainMatch(b, a)
  {
    if a != b && host != a && host != b {
      if |a.text| < |b.text| {
        SuffixOfSuffix(host, a, b);
      } else if |b.text| < |a.text| {
        SuffixOfSuffix(host, b, a);
      }
    }
  }

  lemma SuffixOfSuffix(host: Host, short: Host, long: Host)
    requires DomainMatch(host, short) && DomainMatch(host, long)
    requires host != short && host != long && |short.text| < |long.text|
    ensures DomainMatch(long, short)
  {
    var k := |host.text| - |long.text|;
    var j := |long.text| - |short.text|;
    assert long.text == host.text[k..];
    assert long.text[j..] == host.text[k + j..] == short.text;
    assert long.text[j - 1] == host.text[k + j - 1];
  }

  lemma MatchingPathsFormChain(requestPath: string, a: string, b: string)
    requires PathMatch(requestPath, a) && PathMatch(requestPath, b)
    ensures PathMatch(a, b) || PathMatch(b, a)
  {
    if |a| < |b| {
      PrefixOfPrefix(requestPath, a, b);
    } else if |b| < |a| {
      PrefixOfPrefix(requestPath, b, a);
    } else {
      assert a == requestPath[..|a|] == b;
    }
  }

  lemma PrefixOfPrefix(requestPath: string, short: string, long: string)
    requires PathMatch(requestPath, short) && PathMatch(requestPath, long) && |short| < |long|
    ensures PathMatch(long, short)
  {
    assert short == requestPath[..|short|] == long[..|short|];
    if !EndsWith(short, DEFAULT_PATH) {
      assert requestPath[|short|..][0] == '/';
      assert long[|short|..][0] == requestPath[|short|];
    }
  }

  // ----- default paths -----

  /** The default path starts with a slash, and a request path matches it exactly when it starts with a slash. */
  lemma DefaultPathMatches(path: string)
    ensures StartsWith(NormalizePath(path), DEFAULT_PATH)
    ensures PathMatch(path, NormalizePath(path)) <==> StartsWith(path, DEFAULT_PATH)
  {
    if StartsWith(path, DEFAULT_PATH) {
      var pos := LastSlash(path);
      assert path[0] == '/';
      if pos > 0 {
        assert path[pos..][0] == '/';
        assert path[..pos][0] == '/';
      }
    }
  }
}
