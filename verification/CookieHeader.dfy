/**
 The order in which selected cookies are sent and the Cookie field values made of them
 (section 5.4 of RFC 6265).
 */
module CookieHeader {
  import opened Text
  import opened Uris
  import opened CookieMatching
  import opened CookieModel
  import opened Sorting

  datatype Match = Match(key: Key, entry: Entry)

  function MatchesOf(s: State, filter: Match -> bool): set<Match> {
    set k | k in s.entries && filter(Match(k, s.entries[k])) :: Match(k, s.entries[k])
  }

  function RequestFilter(uri: Uri, host: Host, now: int): Match -> bool {
    (m: Match) => RequestMatches(uri, host, m.key.domain, m.key.path, m.entry.cookie, now)
  }

  function UnexpiredFilter(now: int): Match -> bool {
    (m: Match) => !IsExpired(m.entry.cookie, now)
  }

  /** Longest path first, then oldest creation. */
  predicate RequestLe(a: Match, b: Match) {
    |a.key.path| > |b.key.path| || (|a.key.path| == |b.key.path| && a.entry.index <= b.entry.index)
  }

  /** Creation order. */
  predicate CreationLe(a: Match, b: Match) {
    a.entry.index <= b.entry.index
  }

  /** `out` is a possible order of the cookies sent with a request. */
  ghost predicate IsRequestOrder(s: State, uri: Uri, host: Host, now: int, out: seq<Match>) {
    IsSortOf(RequestLe, MatchesOf(s, RequestFilter(uri, host, now)), out)
  }

  /** `out` is a possible snapshot of the unexpired cookies. */
  ghost predicate IsSnapshot(s: State, now: int, out: seq<Match>) {
    IsSortOf(CreationLe, MatchesOf(s, UnexpiredFilter(now)), out)
  }

  lemma OrdersAreTotal()
    ensures TotalPreorder(RequestLe) && TotalPreorder(CreationLe)
  {
  }

  /** No two cookies selected for a request share path length and creation index. */
  ghost predicate NoTiesFor(s: State, uri: Uri, host: Host, now: int) {
    forall j, k | Selects(s, uri, host, now, j) && Selects(s, uri, host, now, k) && |j.path| == |k.path| ::
      s.entries[j].index == s.entries[k].index ==> j == k
  }

  /** No two unexpired cookies share a creation index. */
  ghost predicate NoSharedIndex(s: State, now: int) {
    forall j, k | j in s.entries && k in s.entries && !IsExpired(s.entries[j].cookie, now) && !IsExpired(s.entries[k].cookie, now) ::
      s.entries[j].index == s.entries[k].index ==> j == k
  }

  lemma RequestOrderIsStrictIffNoTies(s: State, uri: Uri, host: Host, now: int)
    ensures Strict(RequestLe, MatchesOf(s, RequestFilter(uri, host, now))) <==> NoTiesFor(s, uri, host, now)
  {
    var all := MatchesOf(s, RequestFilter(uri, host, now));
    if Strict(RequestLe, all) {
      forall j, k | Selects(s, uri, host, now, j) && Selects(s, uri, host, now, k) && |j.path| == |k.path| &&
                    s.entries[j].index == s.entries[k].index
        ensures j == k
      {
        var a, b := Match(j, s.entries[j]), Match(k, s.entries[k]);
        assert a in all && b in all && RequestLe(a, b) && RequestLe(b, a);
      }
    }
    if NoTiesFor(s, uri, host, now) {
      forall a, b | a in all && b in all && RequestLe(a, b) && RequestLe(b, a) ensures a == b {
        assert Selects(s, uri, host, now, a.key) && Selects(s, uri, host, now, b.key);
      }
    }
  }

  lemma SnapshotIsStrictIffNoSharedIndex(s: State, now: int)
    ensures Strict(CreationLe, MatchesOf(s, UnexpiredFilter(now))) <==> NoSharedIndex(s, now)
  {
    var all := MatchesOf(s, UnexpiredFilter(now));
    if Strict(CreationLe, all) {
      forall j, k | j in s.entries && k in s.entries && !IsExpired(s.entries[j].cookie, now) && !IsExpired(s.entries[k].cookie, now) &&
                    s.entries[j].index == s.entries[k].index
        ensures j == k
      {
        var a, b := Match(j, s.entries[j]), Match(k, s.entries[k]);
        assert a in all && b in all && CreationLe(a, b) && CreationLe(b, a);
      }
    }
  }

  /** The hash iteration order and the unstable sort leave one order exactly when no two selected cookies tie. */
  lemma RequestOrderIsDeterminedIffNoTies(s: State, uri: Uri, host: Host, now: int)
    ensures HasOneSort(RequestLe, MatchesOf(s, RequestFilter(uri, host, now))) <==> NoTiesFor(s, uri, host, now)
  {
    OrdersAreTotal();
    SortIsDeterminedIffStrict(RequestLe, MatchesOf(s, RequestFilter(uri, host, now)));
    RequestOrderIsStrictIffNoTies(s, uri, host, now);
  }

  /** The same for the snapshot in creation order. */
  lemma SnapshotIsDeterminedIffNoSharedIndex(s: State, now: int)
    ensures HasOneSort(CreationLe, MatchesOf(s, UnexpiredFilter(now))) <==> NoSharedIndex(s, now)
  {
    OrdersAreTotal();
    SortIsDeterminedIffStrict(CreationLe, MatchesOf(s, UnexpiredFilter(now)));
    SnapshotIsStrictIffNoSharedIndex(s, now);
  }

  /** While the counter of a reachable store is not saturated nothing ties, and the order sent is unique. */
  lemma UnsaturatedOrderIsDetermined(s: State, uri: Uri, host: Host, now: int, a: seq<Match>, b: seq<Match>)
    requires Inv(s) && s.next < U64_MAX
    requires IsRequestOrder(s, uri, host, now, a) && IsRequestOrder(s, uri, host, now, b)
    ensures NoTiesFor(s, uri, host, now) && NoSharedIndex(s, now) && a == b
  {
    RequestOrderIsDeterminedIffNoTies(s, uri, host, now);
  }

  // ----- a tie is reachable -----

  function AnyHost(): HostParser {
    (text: string) => Some(Domain(text))
  }

  const ORIGIN: Uri := Uri(Some(Http), Some("h"), None, "/", "")

  function Plain(name: string, value: string, path: string): Cookie {
    Cookie(name, value, None, Some(path), false, None, None, "")
  }

  function KeyOf(name: string, path: string): Key {
    Key(Domain("h"), path, true, name)
  }

  /** Adding a plain cookie to a store without Secure cookies inserts it. */
  lemma PlainAddInserts(s: State, name: string, value: string, path: string)
    requires StartsWith(path, DEFAULT_PATH) && forall k | k in s.entries :: !s.entries[k].cookie.secure
    ensures Add(AnyHost(), s, Plain(name, value, path), ORIGIN, 0) == Insert(s, KeyOf(name, path), Plain(name, value, path))
  {
    assert StripDot("h") == "h";
    assert PlanOf(AnyHost(), Plain(name, value, path), ORIGIN, 0) == Put(KeyOf(name, path), Plain(name, value, path));
  }

  /** The value of the n-th write; two writes in a row differ. */
  function NthValue(n: nat): string {
    if n % 2 == 0 then "0" else "1"
  }

  lemma RunPush(s: State, ops: seq<Op>, op: Op)
    ensures Run(AnyHost(), s, ops + [op]) == Apply(AnyHost(), Run(AnyHost(), s, ops), op)
  {
    assert (ops + [op])[..|ops|] == ops;
  }

  /** Writing one cookie over and over brings the counter to any value. */
  lemma {:induction false} CounterIsReachable(n: nat) returns (ops: seq<Op>)
    requires 0 < n <= U64_MAX
    ensures Run(AnyHost(), EMPTY, ops) == State(map[KeyOf("c", "/c") := Entry(Plain("c", NthValue(n), "/c"), n - 1)], n)
    decreases n
  {
    ops := [];
    if n > 1 { ops := CounterIsReachable(n - 1); }
    var s := Run(AnyHost(), EMPTY, ops);
    PlainAddInserts(s, "c", NthValue(n), "/c");
    RunPush(EMPTY, ops, AddOp(Plain("c", NthValue(n), "/c"), ORIGIN, 0));
    ops := ops + [AddOp(Plain("c", NthValue(n), "/c"), ORIGIN, 0)];
  }

  /** A store with a saturated counter and two cookies that tie is reachable. */
  lemma TieIsReachable() returns (ops: seq<Op>, s: State)
    ensures s == Run(AnyHost(), EMPTY, ops) && s.next == U64_MAX
    ensures s.entries == map[KeyOf("c", "/c") := Entry(Plain("c", NthValue(U64_MAX), "/c"), U64_MAX - 1),
                             KeyOf("a", "/") := Entry(Plain("a", "", "/"), U64_MAX),
                             KeyOf("b", "/") := Entry(Plain("b", "", "/"), U64_MAX)]
  {
    ops := CounterIsReachable(U64_MAX);
    var s0 := Run(AnyHost(), EMPTY, ops);
    var a, b := AddOp(Plain("a", "", "/"), ORIGIN, 0), AddOp(Plain("b", "", "/"), ORIGIN, 0);
    PlainAddInserts(s0, "a", "", "/");
    RunPush(EMPTY, ops, a);
    var s1 := Run(AnyHost(), EMPTY, ops + [a]);
    PlainAddInserts(s1, "b", "", "/");
    RunPush(EMPTY, ops + [a], b);
    ops := ops + [a] + [b];
    s := Run(AnyHost(), EMPTY, ops);
  }

  /** Once the counter is saturated, a reachable store can send its cookies in two different orders. */
  lemma SaturatedOrderIsAmbiguous() returns (ops: seq<Op>, uri: Uri, host: Host)
    ensures !HasOneSort(RequestLe, MatchesOf(Run(AnyHost(), EMPTY, ops), RequestFilter(uri, host, 0)))
  {
    var s;
    ops, s := TieIsReachable();
    uri, host := ORIGIN, Domain("h");
    assert Selects(s, uri, host, 0, KeyOf("a", "/")) && Selects(s, uri, host, 0, KeyOf("b", "/"));
    RequestOrderIsDeterminedIffNoTies(s, uri, host, 0);
  }

  // ----- field values -----

  datatype Version = Http1 | Http2 | Http3

  datatype Cookies = Compressed(value: string) | Uncompressed(values: seq<string>) | Empty

  function Pair(m: Match): string {
    m.entry.cookie.name + "=" + m.entry.cookie.value
  }

  function Pairs(ms: seq<Match>): seq<string> {
    seq(|ms|, i requires 0 <= i < |ms| => Pair(ms[i]))
  }

  function ValidOnly(pairs: seq<string>): seq<string> {
    if pairs == [] then []
    else (if IsHeaderValue(pairs[0]) then [pairs[0]] else []) + ValidOnly(pairs[1..])
  }

  function FoldPairs(acc: string, pairs: seq<string>): string
    decreases |pairs|
  {
    if pairs == [] then acc
    else FoldPairs((if acc == "" then acc else acc + "; ") + pairs[0], pairs[1..])
  }

  function Serialize(ms: seq<Match>, version: Version): Cookies {
    if !version.Http1? then Uncompressed(ValidOnly(Pairs(ms)))
    else
      var value := FoldPairs("", Pairs(ms));
      if value == "" || !IsHeaderValue(value) then Empty else Compressed(value)
  }

  function JoinWith(separator: string, xs: seq<string>): string {
    if xs == [] then ""
    else if |xs| == 1 then xs[0]
    else xs[0] + separator + JoinWith(separator, xs[1..])
  }

  lemma {:induction false} FoldIsJoin(acc: string, pairs: seq<string>)
    requires acc != "" && "" !in pairs
    ensures FoldPairs(acc, pairs) == JoinWith("; ", [acc] + pairs)
    decreases |pairs|
  {
    var all := [acc] + pairs;
    assert all[1..] == pairs;
    if pairs != [] {
      var acc' := acc + "; " + pairs[0];
      FoldIsJoin(acc', pairs[1..]);
      var short := [acc'] + pairs[1..];
      assert short[1..] == pairs[1..];
      if |pairs| > 1 {
        assert JoinWith("; ", short) == acc' + "; " + JoinWith("; ", pairs[1..]);
      }
    }
  }

  lemma {:induction false} JoinIsHeaderValue(pairs: seq<string>)
    ensures IsHeaderValue(JoinWith("; ", pairs)) <==> forall p | p in pairs :: IsHeaderValue(p)
  {
    if |pairs| == 1 {
      assert pairs == [pairs[0]];
    } else if |pairs| > 1 {
      JoinIsHeaderValue(pairs[1..]);
      ConcatIsHeaderValue(pairs[0], "; ");
      ConcatIsHeaderValue(pairs[0] + "; ", JoinWith("; ", pairs[1..]));
      assert IsHeaderValue("; ");
      assert forall p :: p in pairs <==> p == pairs[0] || p in pairs[1..];
    }
  }

  lemma ConcatIsHeaderValue(a: string, b: string)
    ensures IsHeaderValue(a + b) <==> IsHeaderValue(a) && IsHeaderValue(b)
  {
    var ab := a + b;
    if IsHeaderValue(ab) {
      forall i | 0 <= i < |a| ensures IsHeaderByte(a[i]) { assert a[i] == ab[i]; }
      forall i | 0 <= i < |b| ensures IsHeaderByte(b[i]) { assert b[i] == ab[|a| + i]; }
    }
  }

  lemma {:induction false} ValidOnlyIsIdentity(pairs: seq<string>)
    ensures ValidOnly(pairs) == pairs <==> forall p | p in pairs :: IsHeaderValue(p)
    ensures |ValidOnly(pairs)| <= |pairs|
  {
    if pairs != [] {
      ValidOnlyIsIdentity(pairs[1..]);
      assert pairs == [pairs[0]] + pairs[1..];
      assert forall p :: p in pairs <==> p == pairs[0] || p in pairs[1..];
      assert IsHeaderValue(pairs[0]) ==> ValidOnly(pairs)[1..] == ValidOnly(pairs[1..]);
    }
  }

  /** Name, equals sign and value of the cookie are a valid field value. */
  predicate IsSendable(m: Match) {
    IsHeaderValue(m.entry.cookie.name + "=" + m.entry.cookie.value)
  }

  /** A cookie can be sent exactly when neither its name nor its value holds a control byte other than a tab. */
  lemma SendableIffNoControlByte(m: Match)
    ensures IsSendable(m) <==>
            forall c | c in m.entry.cookie.name || c in m.entry.cookie.value :: c == '\t' || (c as int >= 32 && c as int != 127)
  {
    var name, value := m.entry.cookie.name, m.entry.cookie.value;
    ConcatIsHeaderValue(name, "=");
    ConcatIsHeaderValue(name + "=", value);
    assert IsHeaderValue("=");
    assert forall i | 0 <= i < |name| :: name[i] in name;
    assert forall i | 0 <= i < |value| :: value[i] in value;
  }

  /** The field values of one cookie. */
  lemma FieldOfOneCookie(key: Key, cookie: Cookie, index: nat)
    ensures var text := cookie.name + "=" + cookie.value;
            && Serialize([Match(key, Entry(cookie, index))], Http1) == (if IsHeaderValue(text) then Compressed(text) else Empty)
            && Serialize([Match(key, Entry(cookie, index))], Http2) == Uncompressed(if IsHeaderValue(text) then [text] else [])
    ensures Serialize([], Http1) == Empty && Serialize([], Http2) == Uncompressed([])
  {
    var text := cookie.name + "=" + cookie.value;
    var pairs := Pairs([Match(key, Entry(cookie, index))]);
    assert pairs == [text] && pairs[1..] == [] && text[|cookie.name|] == '=';
    assert "" + text == text && FoldPairs(text, []) == text;
    assert FoldPairs("", pairs) == FoldPairs("" + text, pairs[1..]);
    assert ValidOnly(pairs) == (if IsHeaderValue(text) then [text] else []) + ValidOnly([]);
  }

  lemma {:induction false} ValidOnlyJoins(a: seq<string>, b: seq<string>)
    ensures ValidOnly(a + b) == ValidOnly(a) + ValidOnly(b)
  {
    if a == [] {
      assert a + b == b;
    } else {
      assert (a + b)[1..] == a[1..] + b;
      ValidOnlyJoins(a[1..], b);
      Associative(if IsHeaderValue(a[0]) then [a[0]] else [], ValidOnly(a[1..]), ValidOnly(b));
    }
  }

  /** Each cookie adds its HTTP/2 field value, if it has one, independently of the others. */
  lemma Http2FieldsJoin(a: seq<Match>, b: seq<Match>)
    ensures Serialize(a + b, Http2) == Uncompressed(Serialize(a, Http2).values + Serialize(b, Http2).values)
  {
    assert Pairs(a + b) == Pairs(a) + Pairs(b);
    ValidOnlyJoins(Pairs(a), Pairs(b));
  }

  /**
   The HTTP/1 field is the "; " join of the HTTP/2 list exactly when every pair is a valid field value;
   one invalid pair empties the HTTP/1 field, while HTTP/2 loses only that pair.
   */
  lemma Http1IsJoinOfHttp2(ms: seq<Match>)
    requires ms != []
    ensures Serialize(ms, Http3) == Serialize(ms, Http2) && Serialize(ms, Http2).Uncompressed?
    ensures (forall m | m in ms :: IsSendable(m)) ==>
              && |Serialize(ms, Http2).values| == |ms|
              && (forall i | 0 <= i < |ms| ::
                    Serialize(ms, Http2).values[i] == ms[i].entry.cookie.name + "=" + ms[i].entry.cookie.value)
              && Serialize(ms, Http1) == Compressed(JoinWith("; ", Serialize(ms, Http2).values))
    ensures Serialize(ms, Http1) == Empty <==> exists m | m in ms :: !IsSendable(m)
    ensures Serialize(ms, Http1) == Empty ==> |Serialize(ms, Http2).values| < |ms|
  {
    var pairs := Pairs(ms);
    assert forall p :: p in pairs <==> exists m | m in ms :: Pair(m) == p by {
      forall p | p in pairs ensures exists m | m in ms :: Pair(m) == p {
        var i :| 0 <= i < |pairs| && pairs[i] == p;
        assert ms[i] in ms && Pair(ms[i]) == p;
      }
      forall m | m in ms ensures Pair(m) in pairs {
        var i :| 0 <= i < |ms| && ms[i] == m;
        assert pairs[i] == Pair(m);
      }
    }
    assert "" !in pairs && pairs[0] in pairs;
    assert FoldPairs("", pairs) == FoldPairs(pairs[0], pairs[1..]) by { assert "" + pairs[0] == pairs[0]; }
    FoldIsJoin(pairs[0], pairs[1..]);
    assert pairs == [pairs[0]] + pairs[1..];
    JoinIsHeaderValue(pairs);
    ValidOnlyIsIdentity(pairs);
    ShorterWhenDifferent(pairs);
    assert JoinWith("; ", pairs) != "";
    assert forall m :: IsSendable(m) <==> IsHeaderValue(Pair(m));
  }

  lemma {:induction false} ShorterWhenDifferent(pairs: seq<string>)
    ensures ValidOnly(pairs) != pairs ==> |ValidOnly(pairs)| < |pairs|
  {
    if pairs != [] {
      ValidOnlyIsIdentity(pairs[1..]);
      ShorterWhenDifferent(pairs[1..]);
      assert pairs == [pairs[0]] + pairs[1..];
    }
  }
}
