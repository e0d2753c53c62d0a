/**
 The cookie jar: the storage and retrieval steps on top of the store.
 Clock readings are parameters, and each locked section is one step.
 */
module CookieJar {
  import opened Text
  import opened Uris
  import opened CookieMatching
  import opened CookieModel
  import opened CookieHeader
  import opened CookieDelivery
  import opened CookieStore
  import opened Sorting

  class Jar {
    const parse: HostParser
    const store: Store

    ghost predicate Valid()
      reads this, store
    {
      store.Valid() && Inv(store.View())
    }

    constructor (parse: HostParser)
      ensures Valid() && fresh(store) && store.View() == EMPTY && this.parse == parse
    {
      this.parse := parse;
      store := new Store();
    }

    /** The steps on the received cookie that precede taking the lock. */
    method Prepare(received: Cookie, uri: Uri, now: int) returns (plan: Plan)
      ensures plan == PlanOf(parse, received, uri, now)
    {
      var cookie := received;
      if cookie.secure && !uri.IsHttps() {
        return Ignore;
      }
      if uri.host.None? {
        return Ignore;
      }
      var host := CanonicalHost(parse, uri.host.value);
      if host.None? {
        return Ignore;
      }
      var hostOnly := cookie.domain.None?;
      var domain := host.value;
      if cookie.domain.Some? {
        var canonical := CanonicalHost(parse, cookie.domain.value);
        if canonical.None? || !DomainMatch(host.value, canonical.value) {
          return Ignore;
        }
        domain := canonical.value;
        cookie := cookie.(domain := Some(StripDot(domain.text)));
      }
      var expired := false;
      if cookie.maxAge.Some? && cookie.maxAge.value <= 0 {
        expired := true;
      } else if cookie.maxAge.Some? {
        var deadline := Min(now + cookie.maxAge.value, LAST_INSTANT);
        cookie := cookie.(maxAge := None);
        cookie := cookie.(expires := Some(deadline));
      } else {
        expired := cookie.expires.Some? && cookie.expires.value <= now;
      }
      var path := NormalizePath(uri.path);
      if cookie.path.Some? && StartsWith(cookie.path.value, DEFAULT_PATH) {
        path := cookie.path.value;
      }
      var key := Key(domain, path, hostOnly, cookie.name);
      if expired {
        plan := Delete(key);
      } else {
        cookie := cookie.(path := Some(path));
        plan := Put(key, cookie);
      }
    }

    method AddCookie(received: Cookie, uri: Uri, now: int)
      requires Valid()
      modifies store
      ensures Valid() && store.View() == Add(parse, old(store.View()), received, uri, now)
    {
      var plan := Prepare(received, uri, now);
      ApplyKeepsInv(parse, store.View(), AddOp(received, uri, now));
      if plan.Ignore? {
        return;
      }
      var key := plan.key;
      if !uri.IsHttps() && store.WouldOverlaySecureCookie(key.name, key.domain, key.path, now) {
        return;
      }
      if plan.Delete? {
        store.RemoveStoredCookieInner(key.domain, key.path, key.name, Some(key.hostOnly));
      } else {
        PlannedCookieAgrees(parse, received, uri, now, 0);
        assert key == Key(key.domain, key.path, plan.cookie.domain.None?, plan.cookie.name);
        store.InsertStoredCookie(key.domain, key.path, plan.cookie);
      }
    }

    method RemoveCookie(name: string, uri: Uri)
      requires Valid()
      modifies store
      ensures Valid() && store.View() == RemoveNamed(parse, old(store.View()), name, uri)
    {
      if uri.host.Some? {
        var host := CanonicalHost(parse, uri.host.value);
        if host.Some? {
          ApplyKeepsInv(parse, store.View(), RemoveOp(name, uri));
          store.RemoveStoredCookieInner(host.value, uri.path, name, None);
        }
      }
    }

    method Clear()
      modifies store
      ensures Valid() && store.View() == EMPTY
    {
      store.Reset();
    }

    /** Stores the cookies of one response in order; `times[i]` is the clock at the i-th one. */
    method SetCookies(received: seq<Cookie>, uri: Uri, times: seq<int>)
      requires Valid() && |received| == |times|
      modifies store
      ensures Valid()
      ensures store.View() == Run(parse, old(store.View()),
                seq(|received|, i requires 0 <= i < |received| => AddOp(received[i], uri, times[i])))
    {
      ghost var ops := seq(|received|, i requires 0 <= i < |received| => AddOp(received[i], uri, times[i]));
      for i := 0 to |received|
        invariant Valid() && store.View() == Run(parse, old(store.View()), ops[..i])
      {
        AddCookie(received[i], uri, times[i]);
        assert ops[..i + 1][..i] == ops[..i];
      }
      assert ops[..|received|] == ops;
    }

    /** The older of the unexpired cookies of this name at the exact host and path of `uri`. */
    method Get(name: string, uri: Uri, now: int) returns (found: Option<Match>)
      requires Valid()
      ensures var host := if uri.host.Some? then CanonicalHost(parse, uri.host.value) else None;
              var at := if host.Some? then ExactMatches(store.View(), host.value, uri.path, name, now) else {};
              && (found.None? <==> at == {})
              && (found.Some? ==> found.value in at && forall m | m in at :: CreationLe(found.value, m))
    {
      found := None;
      if uri.host.None? {
        return;
      }
      var host := CanonicalHost(parse, uri.host.value);
      if host.None? {
        return;
      }
      var hostKey := Key(host.value, uri.path, true, name);
      var domainKey := hostKey.(hostOnly := false);
      var first, second := Find(store.cookies, hostKey), Find(store.cookies, domainKey);
      if first.Some? && !IsExpired(first.value.cookie, now) {
        found := Some(Match(hostKey, first.value));
      }
      if second.Some? && !IsExpired(second.value.cookie, now) && (found.None? || second.value.index < found.value.entry.index) {
        found := Some(Match(domainKey, second.value));
      }
      OlderOfTwo(store.View(), hostKey, domainKey, now, found);
    }

    /** Every unexpired cookie in creation order. */
    method GetAll(now: int) returns (out: seq<Match>)
      requires Valid()
      ensures IsSnapshot(store.View(), now, out) && IsListing(store.View(), now, out)
    {
      var cookies := store.Collect(UnexpiredFilter(now));
      OrdersAreTotal();
      out := Sort(CreationLe, cookies);
      SnapshotIsListing(store.View(), now, out);
    }

    /** The Cookie field values for a request, with the order of the cookies they were made of. */
    method CookiesFor(uri: Uri, version: Version, now: int) returns (cookies: Cookies, order: seq<Match>)
      requires Valid()
      ensures var host := if uri.host.Some? then CanonicalHost(parse, uri.host.value) else None;
              if host.None? then cookies == Empty && order == []
              else
                && IsRequestOrder(store.View(), uri, host.value, now, order) && IsDelivery(store.View(), uri, host.value, now, order)
                && cookies == Serialize(order, version)
    {
      cookies, order := Empty, [];
      if uri.host.None? {
        return;
      }
      var host := CanonicalHost(parse, uri.host.value);
      if host.None? {
        return;
      }
      var matches := store.Collect(RequestFilter(uri, host.value, now));
      OrdersAreTotal();
      order := Sort(RequestLe, matches);
      RequestOrderIsDelivery(store.View(), uri, host.value, now, order);
      cookies := Serialize(order, version);
    }
  }

  /** The unexpired cookies of a name stored at exactly this host and path, in either scope. */
  ghost function ExactMatches(s: State, host: Host, path: string, name: string, now: int): set<Match> {
    MatchesOf(s, (m: Match) => m.key.domain == host && m.key.path == path && m.key.name == name && !IsExpired(m.entry.cookie, now))
  }

  ghost predicate Alive(s: State, k: Key, now: int) {
    k in s.entries && !IsExpired(s.entries[k].cookie, now)
  }

  lemma OlderOfTwo(s: State, a: Key, b: Key, now: int, found: Option<Match>)
    requires a.hostOnly && b == a.(hostOnly := false)
    requires found ==
      if Alive(s, b, now) && (Alive(s, a, now) ==> s.entries[b].index < s.entries[a].index) then Some(Match(b, s.entries[b]))
      else if Alive(s, a, now) then Some(Match(a, s.entries[a]))
      else None
    ensures var at := ExactMatches(s, a.domain, a.path, a.name, now);
            && (found.None? <==> at == {})
            && (found.Some? ==> found.value in at && forall m | m in at :: CreationLe(found.value, m))
  {
    ExactMatchesAre(s, a.domain, a.path, a.name, now);
    assert a == Key(a.domain, a.path, true, a.name) && b == Key(a.domain, a.path, false, a.name);
    var at := ExactMatches(s, a.domain, a.path, a.name, now);
    assert Alive(s, a, now) ==> Match(a, s.entries[a]) in at;
    assert Alive(s, b, now) ==> Match(b, s.entries[b]) in at;
  }

  lemma ExactMatchesAre(s: State, host: Host, path: string, name: string, now: int)
    ensures forall m :: m in ExactMatches(s, host, path, name, now) <==>
              && m.key in {Key(host, path, true, name), Key(host, path, false, name)}
              && m.key in s.entries && m.entry == s.entries[m.key] && !IsExpired(m.entry.cookie, now)
  {
    forall m: Match | m.key in s.entries && m.entry == s.entries[m.key] ensures m == Match(m.key, s.entries[m.key]) {}
  }
}
