/**
 The storage model of the cookie jar on values: a flat map of cookies and a
 creation counter. The classes `Store` and `Jar` are proved to follow it.
 */
module CookieModel {
  import opened Text
  import opened Uris
  import opened CookieMatching

  const U64_MAX: nat := 0xFFFF_FFFF_FFFF_FFFF

  /** The last representable instant, 9999-12-31T23:59:59.999999999Z in nanoseconds since 1970. */
  const LAST_INSTANT: int := 253402300799999999999

  /**
   A parsed cookie. `domain` is the Domain attribute as the cookie library reports it, without one
   leading dot. `secure` holds when the Secure flag is set. `expires` is the absolute Expires date,
   absent for a session cookie. Attributes that storage never looks at are in `rest`.
   */
  datatype Cookie = Cookie(name: string, value: string, domain: Option<string>, path: Option<string>,
                           secure: bool, maxAge: Option<int>, expires: Option<int>, rest: string)

  datatype Entry = Entry(cookie: Cookie, index: nat)

  /** The identity of a stored cookie. */
  datatype Key = Key(domain: Host, path: string, hostOnly: bool, name: string)

  datatype State = State(entries: map<Key, Entry>, next: nat)

  const EMPTY: State := State(map[], 0)

  predicate IsExpired(cookie: Cookie, now: int) {
    (cookie.maxAge.Some? && cookie.maxAge.value <= 0) || (cookie.expires.Some? && cookie.expires.value <= now)
  }

  function SaturatingIncrement(n: nat): nat {
    if n < U64_MAX then n + 1 else U64_MAX
  }

  // ----- storage operations -----

  /** An equal value keeps the creation index; a new value takes a fresh one. */
  function Insert(s: State, key: Key, cookie: Cookie): State {
    if key in s.entries && s.entries[key].cookie.value == cookie.value then
      s.(entries := s.entries[key := Entry(cookie, s.entries[key].index)])
    else
      State(s.entries[key := Entry(cookie, s.next)], SaturatingIncrement(s.next))
  }

  function Remove(s: State, keys: set<Key>): State {
    s.(entries := s.entries - keys)
  }

  /** An unexpired Secure cookie of this name whose domain is related and whose path covers `path`. */
  predicate Overlays(key: Key, entry: Entry, name: string, domain: Host, path: string, now: int) {
    && (DomainMatch(key.domain, domain) || DomainMatch(domain, key.domain))
    && PathMatch(path, key.path)
    && key.name == name && entry.cookie.secure && !IsExpired(entry.cookie, now)
  }

  predicate WouldOverlaySecure(s: State, name: string, domain: Host, path: string, now: int) {
    exists k | k in s.entries :: Overlays(k, s.entries[k], name, domain, path, now)
  }

  // ----- adding a cookie -----

  /** What a received cookie asks for before the stored cookies are consulted. */
  datatype Plan = Ignore | Delete(key: Key) | Put(key: Key, cookie: Cookie)

  function StoredDomain(parse: HostParser, cookie: Cookie, host: Host): Option<Host> {
    if cookie.domain.None? then Some(host)
    else
      var domain := CanonicalHost(parse, cookie.domain.value);
      if domain.Some? && DomainMatch(host, domain.value) then domain else None
  }

  /** A positive Max-Age becomes an absolute deadline. */
  function WithDeadline(cookie: Cookie, now: int): Cookie {
    if cookie.maxAge.Some? && cookie.maxAge.value > 0 then
      cookie.(maxAge := None, expires := Some(Min(now + cookie.maxAge.value, LAST_INSTANT)))
    else cookie
  }

  predicate ArrivesExpired(cookie: Cookie, now: int) {
    if cookie.maxAge.Some? then cookie.maxAge.value <= 0
    else cookie.expires.Some? && cookie.expires.value <= now
  }

  function StoredPath(cookie: Cookie, uri: Uri): string {
    if cookie.path.Some? && StartsWith(cookie.path.value, DEFAULT_PATH) then cookie.path.value
    else NormalizePath(uri.path)
  }

  function PlanOf(parse: HostParser, cookie: Cookie, uri: Uri, now: int): Plan {
    if cookie.secure && !uri.IsHttps() then Ignore
    else if uri.host.None? then Ignore
    else
      var host := CanonicalHost(parse, uri.host.value);
      if host.None? then Ignore
      else
        var domain := StoredDomain(parse, cookie, host.value);
        if domain.None? then Ignore
        else
          var path := StoredPath(cookie, uri);
          var key := Key(domain.value, path, cookie.domain.None?, cookie.name);
          if ArrivesExpired(cookie, now) then Delete(key)
          else
            var text := if cookie.domain.None? then None else Some(StripDot(domain.value.text));
            Put(key, WithDeadline(cookie, now).(domain := text, path := Some(path)))
  }

  /** The plan is refused when it comes from a non-https origin and would overlay a Secure cookie. */
  predicate Refused(s: State, plan: Plan, uri: Uri, now: int)
    requires !plan.Ignore?
  {
    !uri.IsHttps() && WouldOverlaySecure(s, plan.key.name, plan.key.domain, plan.key.path, now)
  }

  function Add(parse: HostParser, s: State, cookie: Cookie, uri: Uri, now: int): State {
    var plan := PlanOf(parse, cookie, uri, now);
    if plan.Ignore? || Refused(s, plan, uri, now) then s
    else if plan.Delete? then Remove(s, {plan.key})
    else Insert(s, plan.key, plan.cookie)
  }

  /** Removes both scopes of a name at the exact host and path of `uri`. */
  function RemoveNamed(parse: HostParser, s: State, name: string, uri: Uri): State {
    var host := if uri.host.Some? then CanonicalHost(parse, uri.host.value) else None;
    if host.None? then s
    else Remove(s, {Key(host.value, uri.path, true, name), Key(host.value, uri.path, false, name)})
  }

  // ----- request selection -----

  predicate RequestMatches(uri: Uri, host: Host, domain: Host, path: string, cookie: Cookie, now: int) {
    && (uri.IsHttp() || uri.IsHttps())
    && DomainMatch(host, domain)
    && (cookie.domain.None? ==> host == domain)
    && PathMatch(uri.path, path)
    && !(cookie.secure && uri.IsHttp())
    && !IsExpired(cookie, now)
  }

  predicate Selects(s: State, uri: Uri, host: Host, now: int, k: Key) {
    k in s.entries && RequestMatches(uri, host, k.domain, k.path, s.entries[k].cookie, now)
  }

  // ----- runs -----

  datatype Op =
    | AddOp(cookie: Cookie, uri: Uri, now: int)
    | RemoveOp(name: string, uri: Uri)
    | ClearOp

  function Apply(parse: HostParser, s: State, op: Op): State {
    match op
    case AddOp(cookie, uri, now) => Add(parse, s, cookie, uri, now)
    case RemoveOp(name, uri) => RemoveNamed(parse, s, name, uri)
    case ClearOp => EMPTY
  }

  function Run(parse: HostParser, s: State, ops: seq<Op>): State {
    if ops == [] then s else Apply(parse, Run(parse, s, ops[..|ops| - 1]), ops[|ops| - 1])
  }

  // ----- the invariant of every reachable store -----

  /** The attributes of a stored cookie agree with the key it is stored under. */
  predicate AgreesWithKey(k: Key, e: Entry) {
    && e.cookie.name == k.name
    && e.cookie.path == Some(k.path)
    && StartsWith(k.path, DEFAULT_PATH)
    && e.cookie.domain == (if k.hostOnly then None else Some(StripDot(k.domain.text)))
    && e.cookie.maxAge.None?
  }

  /** Creation indexes stay behind the counter and are shared only once the counter is saturated. */
  predicate IndexesInOrder(s: State) {
    && s.next <= U64_MAX
    && (forall k | k in s.entries :: s.entries[k].index < s.next || s.entries[k].index == U64_MAX == s.next)
    && (forall j, k | j in s.entries && k in s.entries && j != k && s.entries[j].index == s.entries[k].index ::
          s.entries[k].index == U64_MAX)
  }

  predicate Inv(s: State) {
    && IndexesInOrder(s)
    && (forall k | k in s.entries :: AgreesWithKey(k, s.entries[k]))
  }

  lemma InsertKeepsIndexesInOrder(s: State, key: Key, cookie: Cookie)
    requires IndexesInOrder(s)
    ensures IndexesInOrder(Insert(s, key, cookie))
  {
    var t := Insert(s, key, cookie);
    forall k | k in t.entries
      ensures t.entries[k].index < t.next || t.entries[k].index == U64_MAX == t.next
    {
      if k != key { assert k in s.entries; }
    }
    forall j, k | j in t.entries && k in t.entries && j != k && t.entries[j].index == t.entries[k].index
      ensures t.entries[k].index == U64_MAX
    {
      assert j == key || j in s.entries;
      assert k == key || k in s.entries;
    }
  }

  /** A planned cookie agrees with the key it is planned for. */
  lemma PlannedCookieAgrees(parse: HostParser, cookie: Cookie, uri: Uri, now: int, index: nat)
    requires PlanOf(parse, cookie, uri, now).Put?
    ensures var plan := PlanOf(parse, cookie, uri, now); AgreesWithKey(plan.key, Entry(plan.cookie, index))
  {
    DefaultPathMatches(uri.path);
  }

  lemma InsertKeepsInv(s: State, key: Key, cookie: Cookie)
    requires Inv(s) && AgreesWithKey(key, Entry(cookie, 0))
    ensures Inv(Insert(s, key, cookie))
  {
    InsertKeepsIndexesInOrder(s, key, cookie);
  }

  lemma RemoveKeepsInv(s: State, keys: set<Key>)
    requires Inv(s)
    ensures Inv(Remove(s, keys))
  {
  }

  lemma ApplyKeepsInv(parse: HostParser, s: State, op: Op)
    requires Inv(s)
    ensures Inv(Apply(parse, s, op))
  {
    match op {
      case AddOp(cookie, uri, now) =>
        var plan := PlanOf(parse, cookie, uri, now);
        if plan.Put? {
          PlannedCookieAgrees(parse, cookie, uri, now, 0);
          InsertKeepsInv(s, plan.key, plan.cookie);
        } else if plan.Delete? {
          RemoveKeepsInv(s, {plan.key});
        }
      case RemoveOp(name, uri) =>
        var host := if uri.host.Some? then CanonicalHost(parse, uri.host.value) else None;
        if host.Some? {
          RemoveKeepsInv(s, {Key(host.value, uri.path, true, name), Key(host.value, uri.path, false, name)});
        }
      case ClearOp =>
    }
  }

  /** Every store reachable from the empty one satisfies the invariant. */
  lemma {:induction false} ReachableStoresAreValid(parse: HostParser, ops: seq<Op>)
    ensures Inv(Run(parse, EMPTY, ops))
  {
    RunKeepsInv(parse, EMPTY, ops);
  }

  lemma {:induction false} RunKeepsInv(parse: HostParser, s: State, ops: seq<Op>)
    requires Inv(s)
    ensures Inv(Run(parse, s, ops))
  {
    if ops != [] {
      RunKeepsInv(parse, s, ops[..|ops| - 1]);
      ApplyKeepsInv(parse, Run(parse, s, ops[..|ops| - 1]), ops[|ops| - 1]);
    }
  }
}
