/**
 What the rule against overlaying Secure cookies achieves over whole runs
 (section 5.7 of RFC 6265bis), and when a stored cookie comes back.
 */
module CookieSecurity {
  import opened Text
  import opened Uris
  import opened CookieMatching
  import opened CookieModel
  import opened CookieHeader
  import opened Sorting

  /** `k` is where an accepted add from a non-https URI stores its cookie. */
  ghost predicate InsecurelyStored(parse: HostParser, s: State, cookie: Cookie, uri: Uri, now: int, k: Key) {
    var plan := PlanOf(parse, cookie, uri, now);
    !uri.IsHttps() && plan.Put? && plan.key == k && !Refused(s, plan, uri, now)
  }

  /** An accepted insecure cookie can only meet a Secure one of its name on a strictly longer path. */
  lemma OverlayRuleSeparatesPaths(parse: HostParser, s: State, cookie: Cookie, uri: Uri, now: int, secure: Key, k: Key,
                                  host: Host, path: string)
    requires InsecurelyStored(parse, s, cookie, uri, now, k)
    requires secure in s.entries && secure.name == k.name
    requires s.entries[secure].cookie.secure && !IsExpired(s.entries[secure].cookie, now)
    requires DomainMatch(host, secure.domain) && DomainMatch(host, k.domain)
    requires PathMatch(path, secure.path) && PathMatch(path, k.path)
    ensures PathMatch(secure.path, k.path) && |secure.path| > |k.path|
  {
    MatchingDomainsFormChain(host, secure.domain, k.domain);
    MatchingPathsFormChain(path, secure.path, k.path);
    assert PathMatch(k.path, secure.path) ==> Overlays(secure, s.entries[secure], k.name, k.domain, k.path, now);
  }

  /**
   If an add from a non-https URI is accepted while an unexpired Secure cookie of the same name is
   stored, then after any further operations every request that selects both sends the Secure one first.
   */
  lemma SecureCookieIsSentFirst(parse: HostParser, s: State, cookie: Cookie, uri: Uri, now: int, secure: Key, k: Key,
                                later: seq<Op>, request: Uri, host: Host, t: int, out: seq<Match>, i: nat, j: nat)
    requires InsecurelyStored(parse, s, cookie, uri, now, k)
    requires secure in s.entries && secure.name == k.name
    requires s.entries[secure].cookie.secure && !IsExpired(s.entries[secure].cookie, now)
    requires IsRequestOrder(Run(parse, Add(parse, s, cookie, uri, now), later), request, host, t, out)
    requires i < |out| && j < |out| && out[i].key == secure && out[j].key == k
    ensures |secure.path| > |k.path| && i < j
  {
    var store := Run(parse, Add(parse, s, cookie, uri, now), later);
    var selected := MatchesOf(store, RequestFilter(request, host, t));
    SortOfSet(RequestLe, selected, out);
    assert out[i] in out && out[j] in out;
    assert out[i] in selected && out[j] in selected;
    OverlayRuleSeparatesPaths(parse, s, cookie, uri, now, secure, k, host, request.path);
    assert j < i ==> RequestLe(out[j], out[i]);
  }

  predicate IsInsecureAdd(op: Op, deadline: int) {
    op.AddOp? && !op.uri.IsHttps() && op.now <= deadline
  }

  lemma InsecureAddKeepsSecure(parse: HostParser, s: State, op: Op, deadline: int, k: Key)
    requires IsInsecureAdd(op, deadline)
    requires k in s.entries && s.entries[k].cookie.secure && !IsExpired(s.entries[k].cookie, deadline)
    ensures k in Apply(parse, s, op).entries && Apply(parse, s, op).entries[k] == s.entries[k]
  {
    var plan := PlanOf(parse, op.cookie, op.uri, op.now);
    if !plan.Ignore? && plan.key == k {
      DomainMatchIsPartialOrder(k.domain, k.domain, k.domain);
      assert Overlays(k, s.entries[k], plan.key.name, plan.key.domain, plan.key.path, op.now);
    }
  }

  /** A run of adds from non-https URIs neither changes nor removes a Secure cookie before it expires. */
  lemma {:induction false} InsecureRunKeepsSecure(parse: HostParser, s: State, ops: seq<Op>, deadline: int, k: Key)
    requires forall op | op in ops :: IsInsecureAdd(op, deadline)
    requires k in s.entries && s.entries[k].cookie.secure && !IsExpired(s.entries[k].cookie, deadline)
    ensures k in Run(parse, s, ops).entries && Run(parse, s, ops).entries[k] == s.entries[k]
  {
    if ops != [] {
      var init := ops[..|ops| - 1];
      assert forall op | op in init :: op in ops;
      InsecureRunKeepsSecure(parse, s, init, deadline, k);
      InsecureAddKeepsSecure(parse, Run(parse, s, init), ops[|ops| - 1], deadline, k);
    }
  }

  /** The i-th operation of a run is an add over https that planned exactly this cookie for this key. */
  ghost predicate WrittenOverHttps(parse: HostParser, ops: seq<Op>, i: nat, k: Key, cookie: Cookie) {
    i < |ops| && ops[i].AddOp? && ops[i].uri.IsHttps() &&
    PlanOf(parse, ops[i].cookie, ops[i].uri, ops[i].now) == Put(k, cookie)
  }

  /** Every stored Secure cookie of every reachable store was written by an add over https. */
  lemma {:induction false} SecureCookiesComeFromHttps(parse: HostParser, ops: seq<Op>, k: Key)
    requires k in Run(parse, EMPTY, ops).entries && Run(parse, EMPTY, ops).entries[k].cookie.secure
    ensures exists i :: WrittenOverHttps(parse, ops, i, k, Run(parse, EMPTY, ops).entries[k].cookie)
  {
    var n := |ops| - 1;
    var before, op := Run(parse, EMPTY, ops[..n]), ops[n];
    var cookie := Run(parse, EMPTY, ops).entries[k].cookie;
    if k in before.entries && before.entries[k].cookie == cookie {
      SecureCookiesComeFromHttps(parse, ops[..n], k);
      var i :| WrittenOverHttps(parse, ops[..n], i, k, cookie);
      assert WrittenOverHttps(parse, ops, i, k, cookie);
    } else {
      assert WrittenOverHttps(parse, ops, n, k, cookie);
    }
  }

  /**
   An accepted cookie is selected for the URI it came from exactly when that URI is http or https,
   its path matches the stored path, and the cookie has not expired.
   */
  lemma AcceptedCookieComesBack(parse: HostParser, s: State, cookie: Cookie, uri: Uri, now: int, t: int)
    requires var plan := PlanOf(parse, cookie, uri, now); plan.Put? && !Refused(s, plan, uri, now)
    ensures var plan := PlanOf(parse, cookie, uri, now);
            var host := CanonicalHost(parse, uri.host.value).value;
            Selects(Add(parse, s, cookie, uri, now), uri, host, t, plan.key) <==>
              && (uri.IsHttp() || uri.IsHttps())
              && PathMatch(uri.path, plan.key.path)
              && !IsExpired(plan.cookie, t)
  {
    var host := CanonicalHost(parse, uri.host.value).value;
    DomainMatchIsPartialOrder(host, host, host);
  }

  /** Without a usable Path attribute the path condition is that the URI path starts with a slash. */
  lemma DefaultPathCookieComesBack(parse: HostParser, s: State, cookie: Cookie, uri: Uri, now: int)
    requires var plan := PlanOf(parse, cookie, uri, now); plan.Put? && !Refused(s, plan, uri, now)
    requires cookie.path.None? || !StartsWith(cookie.path.value, DEFAULT_PATH)
    requires now < LAST_INSTANT
    ensures var plan := PlanOf(parse, cookie, uri, now);
            var host := CanonicalHost(parse, uri.host.value).value;
            Selects(Add(parse, s, cookie, uri, now), uri, host, now, plan.key) <==>
              (uri.IsHttp() || uri.IsHttps()) && StartsWith(uri.path, DEFAULT_PATH)
  {
    AcceptedCookieComesBack(parse, s, cookie, uri, now, now);
    DefaultPathMatches(uri.path);
  }
}
