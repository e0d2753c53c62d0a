/**
 What storing and sending a cookie amount to, said of the received cookie and of the two requests alone:
 by labels, path segments and dates (sections 5.3 and 5.4 of RFC 6265, section 5.7 of RFC 6265bis).
 */
module CookieDelivery {
  import opened Text
  import opened Uris
  import opened CookieMatching
  import opened CookieModel
  import opened CookieHeader
  import opened Sorting

  // ----- what a request gets -----

  predicate IsLive(cookie: Cookie, now: int) {
    cookie.expires.None? || now < cookie.expires.value
  }

  /** A cookie stored under `k` belongs to a request from `host`. */
  ghost predicate BelongsTo(k: Key, cookie: Cookie, uri: Uri, host: Host, now: int) {
    && (uri.scheme == Some(Http) || uri.scheme == Some(Https))
    && SubdomainOf(host, k.domain) && (k.hostOnly ==> host == k.domain)
    && LeadsSegments(k.path, uri.path)
    && (cookie.secure ==> uri.scheme == Some(Https))
    && IsLive(cookie, now)
  }

  lemma StoredIsExpiredIffNotLive(s: State, k: Key, now: int)
    requires Inv(s) && k in s.entries
    ensures IsExpired(s.entries[k].cookie, now) <==> !IsLive(s.entries[k].cookie, now)
  {
    assert AgreesWithKey(k, s.entries[k]);
  }

  /** A request selects a stored cookie exactly when the cookie belongs to it. */
  lemma SelectsIffBelongs(s: State, uri: Uri, host: Host, now: int, k: Key)
    requires Inv(s) && k in s.entries
    ensures Selects(s, uri, host, now, k) <==> BelongsTo(k, s.entries[k].cookie, uri, host, now)
  {
    assert AgreesWithKey(k, s.entries[k]);
    DomainMatchIsSubdomain(host, k.domain);
    PathMatchIsSegmentPrefix(uri.path, k.path);
    StoredIsExpiredIffNotLive(s, k, now);
  }

  /** `m` is what the store holds under its key. */
  predicate IsStored(s: State, m: Match) {
    m.key in s.entries && s.entries[m.key] == m.entry
  }

  /** Each cookie that belongs to the request, once: longer paths first, then in the order of creation. */
  ghost predicate IsDelivery(s: State, uri: Uri, host: Host, now: int, out: seq<Match>) {
    && (forall m :: m in out <==> IsStored(s, m) && BelongsTo(m.key, m.entry.cookie, uri, host, now))
    && (forall i, j | 0 <= i < j < |out| ::
          && out[i] != out[j] && |out[i].key.path| >= |out[j].key.path|
          && (|out[i].key.path| == |out[j].key.path| ==> out[i].entry.index <= out[j].entry.index))
  }

  /** Each live cookie once, in the order of creation. */
  ghost predicate IsListing(s: State, now: int, out: seq<Match>) {
    && (forall m :: m in out <==> IsStored(s, m) && IsLive(m.entry.cookie, now))
    && (forall i, j | 0 <= i < j < |out| :: out[i] != out[j] && out[i].entry.index <= out[j].entry.index)
  }

  lemma SortIsListing<T>(le: (T, T) -> bool, items: set<T>, out: seq<T>)
    ensures IsSortOf(le, items, out) <==> NoRepeats(out) && SortedBy(le, out) && forall x :: x in out <==> x in items
  {
    if IsSortOf(le, items, out) { SortOfSet(le, items, out); }
    if NoRepeats(out) && forall x :: x in out <==> x in items {
      NoRepeatsIsSet(out);
      assert (set x | x in out) == items;
    }
  }

  lemma MatchIsSelected(s: State, uri: Uri, host: Host, now: int, m: Match)
    requires Inv(s)
    ensures m in MatchesOf(s, RequestFilter(uri, host, now)) <==> IsStored(s, m) && BelongsTo(m.key, m.entry.cookie, uri, host, now)
  {
    if m.key in s.entries { SelectsIffBelongs(s, uri, host, now, m.key); }
    assert IsStored(s, m) ==> m == Match(m.key, s.entries[m.key]);
  }

  /** The orders that a request may send its cookies in are exactly the deliveries. */
  lemma RequestOrderIsDelivery(s: State, uri: Uri, host: Host, now: int, out: seq<Match>)
    requires Inv(s)
    ensures IsRequestOrder(s, uri, host, now, out) <==> IsDelivery(s, uri, host, now, out)
  {
    SortIsListing(RequestLe, MatchesOf(s, RequestFilter(uri, host, now)), out);
    forall m: Match
      ensures m in MatchesOf(s, RequestFilter(uri, host, now)) <==> IsStored(s, m) && BelongsTo(m.key, m.entry.cookie, uri, host, now)
    {
      MatchIsSelected(s, uri, host, now, m);
    }
  }

  lemma MatchIsLive(s: State, now: int, m: Match)
    requires Inv(s)
    ensures m in MatchesOf(s, UnexpiredFilter(now)) <==> IsStored(s, m) && IsLive(m.entry.cookie, now)
  {
    if m.key in s.entries { StoredIsExpiredIffNotLive(s, m.key, now); }
    assert IsStored(s, m) ==> m == Match(m.key, s.entries[m.key]);
  }

  lemma SnapshotIsListing(s: State, now: int, out: seq<Match>)
    requires Inv(s)
    ensures IsSnapshot(s, now, out) <==> IsListing(s, now, out)
  {
    SortIsListing(CreationLe, MatchesOf(s, UnexpiredFilter(now)), out);
    forall m: Match ensures m in MatchesOf(s, UnexpiredFilter(now)) <==> IsStored(s, m) && IsLive(m.entry.cookie, now) {
      MatchIsLive(s, now, m);
    }
  }

  // ----- where a received cookie is stored -----

  /** `domain` is what the cookie may be stored under: its own Domain if that covers the request host,
      or that host when it has none. */
  ghost predicate IsScope(parse: HostParser, cookie: Cookie, uri: Uri, domain: Host) {
    uri.host.Some? &&
    var host := CanonicalHost(parse, uri.host.value);
    host.Some? &&
    if cookie.domain.None? then domain == host.value
    else CanonicalHost(parse, cookie.domain.value) == Some(domain) && SubdomainOf(host.value, domain)
  }

  /** `path` is the Path attribute if that starts with a slash, or else the directory of the request path. */
  ghost predicate IsScopePath(cookie: Cookie, uri: Uri, path: string) {
    if cookie.path.Some? && cookie.path.value != "" && cookie.path.value[0] == '/' then path == cookie.path.value
    else IsDirectory(uri.path, path)
  }

  /** `dir` is what precedes the last slash of `path`, or one slash when that is nothing or `path` does not start with one. */
  ghost predicate IsDirectory(path: string, dir: string) {
    if path == "" || path[0] != '/' then dir == "/"
    else exists front: string, last: string ::
           path == front + "/" + last && '/' !in last && dir == if front == "" then "/" else front
  }

  lemma NormalizedIsDirectory(path: string)
    ensures IsDirectory(path, NormalizePath(path))
  {
    if path != "" && path[0] == '/' {
      var pos := LastSlash(path);
      var front, last := path[..pos], path[pos + 1..];
      assert path == front + "/" + last && '/' !in last;
      assert NormalizePath(path) == if front == "" then "/" else front;
    }
  }

  lemma DirectoryIsUnique(path: string, a: string, b: string)
    requires IsDirectory(path, a) && IsDirectory(path, b)
    ensures a == b
  {
    if path != "" && path[0] == '/' {
      var f, l :| path == f + "/" + l && '/' !in l && a == if f == "" then "/" else f;
      var f', l' :| path == f' + "/" + l' && '/' !in l' && b == if f' == "" then "/" else f';
      LastSlashSplits(path, f, l, f', l');
    }
  }

  lemma LastSlashSplits(path: string, f: string, l: string, f': string, l': string)
    requires path == f + "/" + l && '/' !in l && path == f' + "/" + l' && '/' !in l'
    ensures f == f'
  {
    assert path[|f|] == '/' && path[|f'|] == '/';
    NoSlashBehind(f, l, |f'|);
    NoSlashBehind(f', l', |f|);
    assert f == path[..|f|] && f' == path[..|f'|];
  }

  lemma NoSlashBehind(front: string, last: string, i: nat)
    requires '/' !in last && i < |front + "/" + last| && (front + "/" + last)[i] == '/'
    ensures i <= |front|
  {
  }

  /** A live Secure cookie of the name whose domain is above or below `domain` and whose path leads `path`. */
  ghost predicate IsGuarded(s: State, name: string, domain: Host, path: string, now: int) {
    exists k | k in s.entries :: IsGuard(k, s.entries[k].cookie, name, domain, path, now)
  }

  ghost predicate IsGuard(k: Key, cookie: Cookie, name: string, domain: Host, path: string, now: int) {
    && k.name == name && cookie.secure && IsLive(cookie, now)
    && (SubdomainOf(k.domain, domain) || SubdomainOf(domain, k.domain)) && LeadsSegments(k.path, path)
  }

  lemma OverlaysIffGuarded(s: State, name: string, domain: Host, path: string, now: int)
    requires Inv(s)
    ensures WouldOverlaySecure(s, name, domain, path, now) <==> IsGuarded(s, name, domain, path, now)
  {
    forall k | k in s.entries
      ensures Overlays(k, s.entries[k], name, domain, path, now) <==> IsGuard(k, s.entries[k].cookie, name, domain, path, now)
    {
      DomainMatchIsSubdomain(k.domain, domain);
      DomainMatchIsSubdomain(domain, k.domain);
      PathMatchIsSegmentPrefix(path, k.path);
      StoredIsExpiredIffNotLive(s, k, now);
    }
  }

  /** When the cookie stops being sent: its Max-Age counted from now, capped at the last instant, or else its Expires date. */
  function Deadline(cookie: Cookie, now: int): Option<int> {
    if cookie.maxAge.None? then cookie.expires
    else if now + cookie.maxAge.value < LAST_INSTANT then Some(now + cookie.maxAge.value)
    else Some(LAST_INSTANT)
  }

  predicate ArrivesDead(cookie: Cookie, now: int) {
    if cookie.maxAge.Some? then cookie.maxAge.value <= 0 else !IsLive(cookie, now)
  }

  /** The cookie as it is stored. */
  function AsStored(cookie: Cookie, domain: Host, path: string, now: int): Cookie {
    Cookie(cookie.name, cookie.value, if cookie.domain.None? then None else Some(StripDot(domain.text)), Some(path),
           cookie.secure, None, Deadline(cookie, now), cookie.rest)
  }

  /** A cookie with no scope is ignored, and so is a Secure one that does not come over https. */
  lemma PlanIgnoresIffNoScope(parse: HostParser, cookie: Cookie, uri: Uri, now: int)
    ensures PlanOf(parse, cookie, uri, now).Ignore? <==>
            (cookie.secure && uri.scheme != Some(Https)) || !exists d :: IsScope(parse, cookie, uri, d)
  {
    var host := if uri.host.Some? then CanonicalHost(parse, uri.host.value) else None;
    if host.Some? {
      if cookie.domain.None? {
        assert IsScope(parse, cookie, uri, host.value);
      } else {
        var domain := CanonicalHost(parse, cookie.domain.value);
        if domain.Some? { DomainMatchIsSubdomain(host.value, domain.value); }
        assert domain.Some? && SubdomainOf(host.value, domain.value) ==> IsScope(parse, cookie, uri, domain.value);
      }
    }
  }

  /** What is planned for a cookie with a scope: the key of that scope, and the cookie or its removal. */
  lemma PlanIsExact(parse: HostParser, cookie: Cookie, uri: Uri, now: int, d: Host, p: string)
    requires IsScope(parse, cookie, uri, d) && IsScopePath(cookie, uri, p) && (cookie.secure ==> uri.scheme == Some(Https))
    ensures var k := Key(d, p, cookie.domain.None?, cookie.name);
            PlanOf(parse, cookie, uri, now) == if ArrivesDead(cookie, now) then Delete(k) else Put(k, AsStored(cookie, d, p, now))
  {
    var host := CanonicalHost(parse, uri.host.value).value;
    DomainMatchIsSubdomain(host, d);
    NormalizedIsDirectory(uri.path);
    if !(cookie.path.Some? && StartsWith(cookie.path.value, "/")) {
      DirectoryIsUnique(uri.path, p, NormalizePath(uri.path));
    }
    assert StoredPath(cookie, uri) == p;
  }

  /** The key of every plan: the canonical Domain without the host-only mark, or without a Domain the canonical host with it. */
  lemma PlannedKeyIs(parse: HostParser, cookie: Cookie, uri: Uri, now: int)
    requires !PlanOf(parse, cookie, uri, now).Ignore?
    ensures uri.host.Some? && CanonicalHost(parse, uri.host.value).Some?
    ensures var k, host := PlanOf(parse, cookie, uri, now).key, CanonicalHost(parse, uri.host.value).value;
            && k.name == cookie.name && IsScopePath(cookie, uri, k.path)
            && if cookie.domain.None? then k.hostOnly && k.domain == host
               else !k.hostOnly && CanonicalHost(parse, cookie.domain.value) == Some(k.domain) && SubdomainOf(host, k.domain)
  {
    PlanIgnoresIffNoScope(parse, cookie, uri, now);
    var d :| IsScope(parse, cookie, uri, d);
    var p := if cookie.path.Some? && cookie.path.value != "" && cookie.path.value[0] == '/' then cookie.path.value
             else NormalizePath(uri.path);
    NormalizedIsDirectory(uri.path);
    PlanIsExact(parse, cookie, uri, now, d, p);
  }

  /** The state after a write: the key holds the cookie, and nothing else has changed. */
  ghost predicate IsWritten(s: State, t: State, k: Key, cookie: Cookie) {
    && t.entries.Keys == s.entries.Keys + {k} && t.entries[k].cookie == cookie
    && (forall j | j in s.entries && j != k :: t.entries[j] == s.entries[j])
    && (if k in s.entries && s.entries[k].cookie.value == cookie.value then
          t.next == s.next && t.entries[k].index == s.entries[k].index
        else t.entries[k].index == s.next && t.next == if s.next < 0xFFFF_FFFF_FFFF_FFFF then s.next + 1 else s.next)
  }

  lemma InsertIsWrite(s: State, k: Key, cookie: Cookie)
    requires s.next <= U64_MAX
    ensures IsWritten(s, Insert(s, k, cookie), k, cookie)
  {
  }

  /** What adding a cookie with a scope does. */
  lemma AddIsExact(parse: HostParser, s: State, cookie: Cookie, uri: Uri, now: int, d: Host, p: string)
    requires Inv(s) && IsScope(parse, cookie, uri, d) && IsScopePath(cookie, uri, p)
    ensures var k, t := Key(d, p, cookie.domain.None?, cookie.name), Add(parse, s, cookie, uri, now);
            if uri.scheme != Some(Https) && (cookie.secure || IsGuarded(s, cookie.name, d, p, now)) then t == s
            else if ArrivesDead(cookie, now) then t == State(s.entries - {k}, s.next)
            else IsWritten(s, t, k, AsStored(cookie, d, p, now))
  {
    if cookie.secure ==> uri.scheme == Some(Https) {
      PlanIsExact(parse, cookie, uri, now, d, p);
      OverlaysIffGuarded(s, cookie.name, d, p, now);
      InsertIsWrite(s, Key(d, p, cookie.domain.None?, cookie.name), AsStored(cookie, d, p, now));
    }
  }

  /** Adding a cookie without a scope changes nothing. */
  lemma UnscopedIsIgnored(parse: HostParser, s: State, cookie: Cookie, uri: Uri, now: int)
    requires !exists d :: IsScope(parse, cookie, uri, d)
    ensures Add(parse, s, cookie, uri, now) == s
  {
    PlanIgnoresIffNoScope(parse, cookie, uri, now);
  }

  /**
   From the received field to the request that gets it: a stored cookie goes to exactly the http and https requests,
   https alone when it is Secure, to its Domain and what is below it or without one to the very host it came from,
   on paths that its path leads, before its deadline.
   */
  lemma AddedCookieIsDelivered(parse: HostParser, s: State, cookie: Cookie, uri: Uri, now: int, d: Host, p: string,
                               request: Uri, host: Host, time: int)
    requires Inv(s) && IsScope(parse, cookie, uri, d) && IsScopePath(cookie, uri, p) && !ArrivesDead(cookie, now)
    requires uri.scheme == Some(Https) || (!cookie.secure && !IsGuarded(s, cookie.name, d, p, now))
    ensures var k, t := Key(d, p, cookie.domain.None?, cookie.name), Add(parse, s, cookie, uri, now);
            && k in t.entries && t.entries[k].cookie.name == cookie.name && t.entries[k].cookie.value == cookie.value
            && (Selects(t, request, host, time, k) <==>
                  && (request.scheme == Some(Https) || (request.scheme == Some(Http) && !cookie.secure))
                  && (if cookie.domain.Some? then SubdomainOf(host, d) else host == d)
                  && LeadsSegments(p, request.path)
                  && (if cookie.maxAge.Some? then time < now + cookie.maxAge.value && time < 253402300799999999999
                      else cookie.expires.Some? ==> time < cookie.expires.value))
  {
    var k, t := Key(d, p, cookie.domain.None?, cookie.name), Add(parse, s, cookie, uri, now);
    AddIsExact(parse, s, cookie, uri, now, d, p);
    ApplyKeepsInv(parse, s, AddOp(cookie, uri, now));
    SelectsIffBelongs(t, request, host, time, k);
    assert SubdomainOf(d, d);
  }

  // ----- places in the order sent -----

  /** Writing the value again leaves a cookie where it was among the cookies sent. */
  lemma EqualValueKeepsPlace(s: State, k: Key, cookie: Cookie, uri: Uri, host: Host, now: int, a: seq<Match>, b: seq<Match>,
                             i: nat, j: nat, i': nat, j': nat)
    requires Inv(s) && s.next < U64_MAX && k in s.entries && s.entries[k].cookie.value == cookie.value
    requires IsRequestOrder(s, uri, host, now, a) && IsRequestOrder(Insert(s, k, cookie), uri, host, now, b)
    requires i < |a| && j < |a| && a[i].key == k && a[j].key != k
    requires i' < |b| && j' < |b| && b[i'].key == k && b[j'].key == a[j].key
    ensures i < j <==> i' < j'
  {
    SortOfSet(RequestLe, MatchesOf(s, RequestFilter(uri, host, now)), a);
    SortOfSet(RequestLe, MatchesOf(Insert(s, k, cookie), RequestFilter(uri, host, now)), b);
    assert a[i] in a && a[j] in a && b[i'] in b && b[j'] in b;
    PlaceIs(s, uri, host, now, a, i, j);
    InsertKeepsIndexesInOrder(s, k, cookie);
    PlaceIs(Insert(s, k, cookie), uri, host, now, b, i', j');
  }

  /** In an order without ties a cookie precedes another exactly when its path is longer, or as long and it is older. */
  lemma PlaceIs(s: State, uri: Uri, host: Host, now: int, out: seq<Match>, i: nat, j: nat)
    requires IndexesInOrder(s) && s.next < U64_MAX && IsRequestOrder(s, uri, host, now, out)
    requires i < |out| && j < |out| && out[i].key != out[j].key
    ensures out[i].key in s.entries && out[j].key in s.entries
    ensures out[i].entry == s.entries[out[i].key] && out[j].entry == s.entries[out[j].key]
    ensures i < j <==> || |out[i].key.path| > |out[j].key.path|
                       || (|out[i].key.path| == |out[j].key.path| && out[i].entry.index < out[j].entry.index)
  {
    SortOfSet(RequestLe, MatchesOf(s, RequestFilter(uri, host, now)), out);
    assert out[i] in out && out[j] in out;
    assert i < j ==> RequestLe(out[i], out[j]);
    assert j < i ==> RequestLe(out[j], out[i]);
  }

  /** A new cookie, or a new value of an old one, is sent behind every other cookie with a path of its length. */
  lemma NewValueMovesBehind(s: State, k: Key, cookie: Cookie, uri: Uri, host: Host, now: int, out: seq<Match>, i: nat, j: nat)
    requires Inv(s) && s.next < U64_MAX && !(k in s.entries && s.entries[k].cookie.value == cookie.value)
    requires IsRequestOrder(Insert(s, k, cookie), uri, host, now, out)
    requires i < |out| && j < |out| && out[i].key == k && out[j].key != k && |out[j].key.path| == |k.path|
    ensures j < i
  {
    var t := Insert(s, k, cookie);
    SortOfSet(RequestLe, MatchesOf(t, RequestFilter(uri, host, now)), out);
    assert out[i] in out && out[j] in out;
    assert out[j].key in s.entries && out[j].entry == s.entries[out[j].key] && out[i].entry == t.entries[k];
    assert i < j ==> RequestLe(out[i], out[j]);
  }

  // ----- removal -----

  /** A removal takes both scopes of the name at the exact host and path, and nothing else. */
  lemma RemoveNamedIsExact(parse: HostParser, s: State, name: string, uri: Uri, k: Key)
    ensures var t := RemoveNamed(parse, s, name, uri);
            && t.next == s.next && (k in t.entries ==> k in s.entries && t.entries[k] == s.entries[k])
            && (k in s.entries && k !in t.entries <==>
                  && k in s.entries && k.name == name && k.path == uri.path
                  && uri.host.Some? && CanonicalHost(parse, uri.host.value) == Some(k.domain))
  {
    assert k == Key(k.domain, k.path, k.hostOnly, k.name);
  }
}
