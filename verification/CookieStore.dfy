/**
 The cookie store: nested maps by domain, path, host-only scope and name.
 Every operation is proved to be the operation of `CookieModel` on the flat map
 the nested maps stand for, and never to leave an empty inner map behind.
 */
module CookieStore {
  import opened Text
  import opened CookieMatching
  import opened CookieModel
  import opened CookieHeader
  import opened Sorting

  type NameMap = map<string, Entry>

  datatype ScopeMap = ScopeMap(hostOnly: NameMap, domain: NameMap) {
    function Names(host: bool): NameMap {
      if host then hostOnly else domain
    }

    function Insert(name: string, host: bool, entry: Entry): ScopeMap {
      if host then this.(hostOnly := hostOnly[name := entry]) else this.(domain := domain[name := entry])
    }

    function Remove(name: string, host: bool): ScopeMap {
      if host then this.(hostOnly := hostOnly - {name}) else this.(domain := domain - {name})
    }

    function RemoveAll(name: string): ScopeMap {
      ScopeMap(hostOnly - {name}, domain - {name})
    }

    predicate IsEmpty() {
      hostOnly == map[] && domain == map[]
    }
  }

  type PathMap = map<string, ScopeMap>
  type DomainMap = map<Host, PathMap>

  // ----- the flat map behind the nested maps -----

  /** Cookie lookup below one scope map. */
  function InScope(scope: ScopeMap, host: bool, name: string): Option<Entry> {
    if name in scope.Names(host) then Some(scope.Names(host)[name]) else None
  }

  /** Cookie lookup below one domain. */
  function Below(paths: PathMap, path: string, host: bool, name: string): Option<Entry> {
    if path in paths then InScope(paths[path], host, name) else None
  }

  function Find(cookies: DomainMap, k: Key): Option<Entry> {
    if k.domain in cookies then Below(cookies[k.domain], k.path, k.hostOnly, k.name) else None
  }

  ghost function Keys(cookies: DomainMap): (r: set<Key>)
    ensures forall k :: k in r <==> Find(cookies, k).Some?
  {
    set d, p, h: bool, n | d in cookies && p in cookies[d] && n in cookies[d][p].Names(h) :: Key(d, p, h, n)
  }

  ghost function Flat(cookies: DomainMap): map<Key, Entry> {
    map k | k in Keys(cookies) :: Find(cookies, k).value
  }

  ghost predicate NoEmptyMaps(cookies: DomainMap) {
    forall d | d in cookies ::
      cookies[d] != map[] && forall p | p in cookies[d] :: !cookies[d][p].IsEmpty()
  }

  class Store {
    var cookies: DomainMap
    var nextCreationIndex: nat

    ghost predicate Valid()
      reads this
    {
      nextCreationIndex <= U64_MAX && NoEmptyMaps(cookies)
    }

    ghost function View(): State
      reads this
    {
      State(Flat(cookies), nextCreationIndex)
    }

    constructor ()
      ensures Valid() && View() == EMPTY
    {
      cookies, nextCreationIndex := map[], 0;
      new;
      assert Keys(cookies) == {};
    }

    method Reset()
      modifies this
      ensures Valid() && View() == EMPTY
    {
      cookies, nextCreationIndex := map[], 0;
      assert Keys(cookies) == {};
    }

    method InsertStoredCookie(domain: Host, path: string, cookie: Cookie)
      requires Valid()
      modifies this
      ensures Valid()
      ensures View() == Insert(old(View()), Key(domain, path, cookie.domain.None?, cookie.name), cookie)
    {
      var key := Key(domain, path, cookie.domain.None?, cookie.name);
      var stored := Find(cookies, key);
      var entry := Entry(cookie, nextCreationIndex);
      if stored.Some? && stored.value.cookie.value == cookie.value {
        entry := stored.value.(cookie := cookie);
      } else {
        nextCreationIndex := SaturatingIncrement(nextCreationIndex);
      }
      FlatAfterInsert(cookies, key, entry);
      NoEmptyMapsAfterInsert(cookies, key, entry);
      cookies := WithEntry(cookies, key, entry);
    }

    /** Removes a name below one domain, and the path when nothing is left there. */
    static method RemoveFromPaths(paths: PathMap, path: string, name: string, hostOnly: Option<bool>)
      returns (after: PathMap)
      requires forall p | p in paths :: !paths[p].IsEmpty()
      ensures forall p | p in after :: !after[p].IsEmpty()
      ensures RemovedBelow(paths, after, path, name, hostOnly)
    {
      after := paths;
      if path in paths {
        var scope := if hostOnly.Some? then paths[path].Remove(name, hostOnly.value) else paths[path].RemoveAll(name);
        assert forall h: bool, n ::
          InScope(scope, h, n) == (if n == name && (hostOnly.None? || hostOnly.value == h) then None else InScope(paths[path], h, n));
        if scope.IsEmpty() {
          assert forall h: bool, n :: InScope(scope, h, n) == None;
          after := paths - {path};
        } else {
          after := paths[path := scope];
        }
      }
    }

    /** `hostOnly` selects one scope; without it both scopes lose the name. */
    method RemoveStoredCookieInner(domain: Host, path: string, name: string, hostOnly: Option<bool>)
      requires Valid()
      modifies this
      ensures Valid()
      ensures View() == Remove(old(View()), RemovedKeys(domain, path, name, hostOnly))
    {
      ghost var before := cookies;
      if domain in cookies {
        var paths := RemoveFromPaths(cookies[domain], path, name, hostOnly);
        if paths == map[] {
          cookies := cookies - {domain};
        } else {
          cookies := cookies[domain := paths];
        }
        FlatAfterRemove(before, cookies, domain, paths, path, name, hostOnly);
      } else {
        assert Flat(before) - RemovedKeys(domain, path, name, hostOnly) == Flat(before);
      }
    }

    /** The nested search for a Secure cookie that an insecure one would overlay. */
    predicate WouldOverlaySecureCookie(name: string, domain: Host, path: string, now: int)
      reads this
      ensures WouldOverlaySecureCookie(name, domain, path, now) <==> WouldOverlaySecure(View(), name, domain, path, now)
    {
      ghost var view := Flat(cookies);
      assert forall d, p, h: bool | d in cookies && p in cookies[d] && name in cookies[d][p].Names(h) ::
          var k := Key(d, p, h, name); k in view && view[k] == cookies[d][p].Names(h)[name];
      exists d | d in cookies ::
        (DomainMatch(d, domain) || DomainMatch(domain, d)) &&
        exists p | p in cookies[d] ::
          PathMatch(path, p) &&
          exists h: bool :: name in cookies[d][p].Names(h) &&
            var e := cookies[d][p].Names(h)[name]; e.cookie.secure && !IsExpired(e.cookie, now)
    }

    // ----- traversal in hash order -----

    /** Lists the matches of one scope in an arbitrary order. */
    static method CollectNames(domain: Host, path: string, hostOnly: bool, names: NameMap, filter: Match -> bool)
      returns (out: seq<Match>)
      ensures NoRepeats(out)
      ensures forall m :: m in out <==>
                m.key == Key(domain, path, hostOnly, m.key.name) && m.key.name in names &&
                m.entry == names[m.key.name] && filter(m)
    {
      out := [];
      var todo := names.Keys;
      while todo != {}
        invariant todo <= names.Keys && NoRepeats(out)
        invariant forall m :: m in out <==>
                    m.key == Key(domain, path, hostOnly, m.key.name) && m.key.name in names - todo &&
                    m.entry == names[m.key.name] && filter(m)
      {
        var name :| name in todo;
        var m := Match(Key(domain, path, hostOnly, name), names[name]);
        if filter(m) {
          out := out + [m];
        }
        todo := todo - {name};
      }
    }

    static method CollectPaths(domain: Host, paths: PathMap, filter: Match -> bool) returns (out: seq<Match>)
      ensures NoRepeats(out)
      ensures forall m :: m in out <==>
                m.key.domain == domain && m.key.path in paths && m.key.name in paths[m.key.path].Names(m.key.hostOnly) &&
                m.entry == paths[m.key.path].Names(m.key.hostOnly)[m.key.name] && filter(m)
    {
      out := [];
      var todo := paths.Keys;
      while todo != {}
        invariant todo <= paths.Keys && NoRepeats(out)
        invariant forall m :: m in out <==>
                    m.key.domain == domain && m.key.path in paths - todo &&
                    m.key.name in paths[m.key.path].Names(m.key.hostOnly) &&
                    m.entry == paths[m.key.path].Names(m.key.hostOnly)[m.key.name] && filter(m)
      {
        var path :| path in todo;
        var hosts := CollectNames(domain, path, true, paths[path].hostOnly, filter);
        var domains := CollectNames(domain, path, false, paths[path].domain, filter);
        out := out + hosts + domains;
        todo := todo - {path};
      }
    }

    /** Every stored cookie that passes the filter, once, in an arbitrary order. */
    method Collect(filter: Match -> bool) returns (out: seq<Match>)
      ensures multiset(out) == multiset(MatchesOf(View(), filter))
    {
      out := [];
      var todo := cookies.Keys;
      while todo != {}
        invariant todo <= cookies.Keys && NoRepeats(out)
        invariant forall m :: m in out <==>
                    m.key.domain in cookies - todo && Find(cookies, m.key) == Some(m.entry) && filter(m)
      {
        var domain :| domain in todo;
        var more := CollectPaths(domain, cookies[domain], filter);
        out := out + more;
        todo := todo - {domain};
      }
      NoRepeatsIsSet(out);
      forall m ensures m in out <==> m in MatchesOf(View(), filter) {
        assert m.key in View().entries <==> Find(cookies, m.key).Some?;
        assert m in MatchesOf(View(), filter) <==>
          m.key in View().entries && m.entry == View().entries[m.key] && filter(m) by {
            if m.key in View().entries && m.entry == View().entries[m.key] {
              assert m == Match(m.key, View().entries[m.key]);
            }
        }
      }
      assert (set m | m in out) == MatchesOf(View(), filter);
    }
  }

  /** `after` is `paths` without the name at the path, in the chosen scope or in both. */
  ghost predicate RemovedBelow(paths: PathMap, after: PathMap, path: string, name: string, hostOnly: Option<bool>) {
    forall p, h: bool, n ::
      Below(after, p, h, n) ==
        (if p == path && n == name && (hostOnly.None? || hostOnly.value == h) then None else Below(paths, p, h, n))
  }

  lemma FlatAfterRemove(before: DomainMap, after: DomainMap, domain: Host, paths: PathMap,
                        path: string, name: string, hostOnly: Option<bool>)
    requires domain in before && RemovedBelow(before[domain], paths, path, name, hostOnly)
    requires after == if paths == map[] then before - {domain} else before[domain := paths]
    ensures Flat(after) == Flat(before) - RemovedKeys(domain, path, name, hostOnly)
  {
    var removed := RemovedKeys(domain, path, name, hostOnly);
    forall k: Key ensures Find(after, k) == if k in removed then None else Find(before, k) {
      if k.domain == domain {
        assert Find(after, k) == Below(paths, k.path, k.hostOnly, k.name);
      }
    }
  }

  ghost function RemovedKeys(domain: Host, path: string, name: string, hostOnly: Option<bool>): set<Key> {
    if hostOnly.Some? then {Key(domain, path, hostOnly.value, name)}
    else {Key(domain, path, true, name), Key(domain, path, false, name)}
  }

  /** Stores an entry, creating the maps on the way to it. */
  function WithEntry(cookies: DomainMap, key: Key, entry: Entry): DomainMap {
    var paths: PathMap := if key.domain in cookies then cookies[key.domain] else map[];
    var scope := if key.path in paths then paths[key.path] else ScopeMap(map[], map[]);
    cookies[key.domain := paths[key.path := scope.Insert(key.name, key.hostOnly, entry)]]
  }

  lemma FindAfterInsert(cookies: DomainMap, key: Key, entry: Entry, k: Key)
    ensures Find(WithEntry(cookies, key, entry), k) == if k == key then Some(entry) else Find(cookies, k)
  {
  }

  lemma FlatAfterInsert(cookies: DomainMap, key: Key, entry: Entry)
    ensures Flat(WithEntry(cookies, key, entry)) == Flat(cookies)[key := entry]
  {
    forall k { FindAfterInsert(cookies, key, entry, k); }
  }

  lemma NoEmptyMapsAfterInsert(cookies: DomainMap, key: Key, entry: Entry)
    requires NoEmptyMaps(cookies)
    ensures NoEmptyMaps(WithEntry(cookies, key, entry))
  {
    var after: DomainMap := WithEntry(cookies, key, entry);
    var scope: ScopeMap := after[key.domain][key.path];
    assert key.name in scope.Names(key.hostOnly);
    assert key.path in after[key.domain];
  }
}
