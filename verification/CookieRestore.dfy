/**
 Copying a jar: adding every cookie of a snapshot, in order, to an empty jar.
 */
module CookieRestore {
  import opened Text
  import opened Uris
  import opened CookieMatching
  import opened CookieModel
  import opened CookieHeader
  import opened Sorting

  /** How a snapshot is added back: the scheme of each origin and the clock at each add. */
  datatype Restore = Restore(cookies: seq<Match>, https: seq<bool>, times: seq<int>)

  /** Canonicalisation leaves the text of this host alone. */
  predicate Stable(parse: HostParser, host: Host) {
    StripDot(host.text) == host.text && parse(host.text) == Some(host)
  }

  /** What the url library guarantees of a canonical host: its text parses to it, and to the same text again once a
      leading dot was taken away. */
  predicate IsCanonical(parse: HostParser, host: Host) {
    parse(host.text) == Some(host) && KeepsText(parse, StripDot(host.text)) && KeepsText(parse, StripDot(StripDot(host.text)))
  }

  predicate KeepsText(parse: HostParser, text: string) {
    parse(text).Some? ==> parse(text).value.text == text
  }

  predicate IsDotted(host: Host) {
    StripDot(host.text) != host.text
  }

  /** No cookie of the snapshot is stored under a host that starts with a dot. */
  predicate NoneDotted(p: Restore) {
    forall i | 0 <= i < |p.cookies| :: !IsDotted(p.cookies[i].key.domain)
  }

  /** The adds happen in order between `taken` and `done`, over https for every Secure cookie. */
  predicate Scheduled(taken: int, p: Restore, done: int) {
    && |p.https| == |p.times| == |p.cookies|
    && (forall i | 0 <= i < |p.cookies| :: p.cookies[i].entry.cookie.secure ==> p.https[i])
    && taken <= done
    && (forall i | 0 <= i < |p.times| :: taken <= p.times[i] <= done)
    && (forall i, j | 0 <= i < j < |p.times| :: p.times[i] <= p.times[j])
  }

  /** A snapshot of `s` at `taken` is added back until `done`; a cookie under a dotted host lives that long. */
  ghost predicate IsRestore(parse: HostParser, s: State, taken: int, p: Restore, done: int) {
    && Inv(s) && IsSnapshot(s, taken, p.cookies) && Scheduled(taken, p, done)
    && forall i | 0 <= i < |p.cookies| :: IsRestorable(parse, p.cookies[i], done)
  }

  predicate IsRestorable(parse: HostParser, m: Match, done: int) {
    IsCanonical(parse, m.key.domain) && (IsDotted(m.key.domain) ==> !IsExpired(m.entry.cookie, done))
  }

  /** The origin a cookie is added back from: the root of its stored host. */
  function Origin(host: Host, https: bool): Uri {
    Uri(Some(if https then Https else Http), Some(host.text), None, "/", "")
  }

  function RestoreOp(p: Restore, i: nat): Op
    requires i < |p.cookies| == |p.https| == |p.times|
  {
    AddOp(p.cookies[i].entry.cookie, Origin(p.cookies[i].key.domain, p.https[i]), p.times[i])
  }

  /** The jar after the first `n` adds. */
  function Restored(parse: HostParser, p: Restore, n: nat): State
    requires n <= |p.cookies| == |p.https| == |p.times|
  {
    if n == 0 then EMPTY else Apply(parse, Restored(parse, p, n - 1), RestoreOp(p, n - 1))
  }

  /** The j-th cookie goes over http and an earlier Secure cookie, still alive by then, covers it. */
  ghost predicate Blocked(p: Restore, j: nat)
    requires j < |p.cookies| == |p.https| == |p.times|
  {
    !p.https[j] && exists i | 0 <= i < j ::
      var k := p.cookies[j].key; Overlays(p.cookies[i].key, p.cookies[i].entry, k.name, k.domain, k.path, p.times[j])
  }

  /** Which cookies of the plan are stored by their add. */
  ghost function Kept(p: Restore): (kept: seq<bool>)
    requires |p.cookies| == |p.https| == |p.times|
    ensures |kept| == |p.cookies|
  {
    seq(|p.cookies|, j requires 0 <= j < |p.cookies| => !IsExpired(p.cookies[j].entry.cookie, p.times[j]) && !Blocked(p, j))
  }

  /** No cookie that lives past `done` is blocked. */
  ghost predicate NothingLost(p: Restore, done: int)
    requires |p.cookies| == |p.https| == |p.times|
  {
    forall j | 0 <= j < |p.cookies| :: Blocked(p, j) ==> IsExpired(p.cookies[j].entry.cookie, done)
  }

  // ----- the restored store, add by add -----

  /** Distinct entries of `s` in creation order. */
  ghost predicate InCreationOrder(s: State, ms: seq<Match>) {
    && (forall i | 0 <= i < |ms| :: ms[i].key in s.entries && ms[i].entry == s.entries[ms[i].key])
    && (forall i, j | 0 <= i < j < |ms| :: ms[i].key != ms[j].key && ms[i].entry.index <= ms[j].entry.index)
  }

  lemma SnapshotMembers(s: State, taken: int, ms: seq<Match>)
    requires IsSnapshot(s, taken, ms)
    ensures InCreationOrder(s, ms)
    ensures forall k | k in s.entries && !IsExpired(s.entries[k].cookie, taken) :: Match(k, s.entries[k]) in ms
  {
    var all := MatchesOf(s, UnexpiredFilter(taken));
    SortOfSet(CreationLe, all, ms);
    assert forall k | k in s.entries && !IsExpired(s.entries[k].cookie, taken) :: Match(k, s.entries[k]) in all;
    assert forall i | 0 <= i < |ms| :: ms[i] in ms && ms[i] in all;
    forall i, j | 0 <= i < j < |ms| ensures ms[i].key != ms[j].key && ms[i].entry.index <= ms[j].entry.index {
      assert CreationLe(ms[i], ms[j]) && ms[i] != ms[j];
    }
  }

  /** The n-th cookie of a snapshot has an index of at least n, up to saturation. */
  lemma {:induction false} IndexesOutgrowPositions(s: State, ms: seq<Match>, n: nat)
    requires IndexesInOrder(s) && InCreationOrder(s, ms) && n < |ms|
    ensures Min(n, U64_MAX) <= ms[n].entry.index <= U64_MAX
  {
    if n > 0 {
      IndexesOutgrowPositions(s, ms, n - 1);
      assert ms[n - 1].key != ms[n].key;
    }
  }

  /** A stored cookie added back over its own host asks for its own key again, or for its deletion. */
  lemma RestoredPlan(parse: HostParser, k: Key, e: Entry, https: bool, now: int)
    requires AgreesWithKey(k, e) && Stable(parse, k.domain) && (e.cookie.secure ==> https)
    ensures PlanOf(parse, e.cookie, Origin(k.domain, https), now) ==
              if IsExpired(e.cookie, now) then Delete(k) else Put(k, e.cookie)
  {
    DomainMatchIsPartialOrder(k.domain, k.domain, k.domain);
  }

  /** The store that holds exactly the kept cookies among the first `n`, inserted in order. */
  function CopyOf(ms: seq<Match>, kept: seq<bool>, n: nat): State
    requires n <= |ms| == |kept|
  {
    if n == 0 then EMPTY
    else if kept[n - 1] then Insert(CopyOf(ms, kept, n - 1), ms[n - 1].key, ms[n - 1].entry.cookie)
    else CopyOf(ms, kept, n - 1)
  }

  /** How many of the first `n` cookies are kept. */
  function Rank(kept: seq<bool>, n: nat): (rank: nat)
    requires n <= |kept|
    ensures rank <= n
  {
    if n == 0 then 0 else Rank(kept, n - 1) + if kept[n - 1] then 1 else 0
  }

  lemma {:induction false} RankGrows(kept: seq<bool>, i: nat, j: nat)
    requires i < j <= |kept| && kept[i]
    ensures Rank(kept, i) < Rank(kept, j)
  {
    if i < j - 1 { RankGrows(kept, i, j - 1); }
  }

  ghost predicate DistinctKeys(ms: seq<Match>) {
    forall i, j | 0 <= i < j < |ms| :: ms[i].key != ms[j].key
  }

  lemma {:induction false} CopyHasOnlyKept(ms: seq<Match>, kept: seq<bool>, n: nat, k: Key)
    requires n <= |ms| == |kept|
    requires k in CopyOf(ms, kept, n).entries
    ensures exists j | 0 <= j < n :: kept[j] && ms[j].key == k
  {
    if !(kept[n - 1] && ms[n - 1].key == k) { CopyHasOnlyKept(ms, kept, n - 1, k); }
  }

  lemma NotYetCopied(ms: seq<Match>, kept: seq<bool>, n: nat, j: nat)
    requires n <= j < |ms| == |kept| && DistinctKeys(ms)
    ensures ms[j].key !in CopyOf(ms, kept, n).entries
  {
    if ms[j].key in CopyOf(ms, kept, n).entries { CopyHasOnlyKept(ms, kept, n, ms[j].key); }
  }

  lemma {:induction false} CopyCounts(ms: seq<Match>, kept: seq<bool>, n: nat)
    requires n <= |ms| == |kept| && DistinctKeys(ms)
    ensures CopyOf(ms, kept, n).next == Min(Rank(kept, n), U64_MAX)
  {
    if n > 0 {
      CopyCounts(ms, kept, n - 1);
      NotYetCopied(ms, kept, n - 1, n - 1);
    }
  }

  /** Kept cookies are stored unchanged, at the index of their rank, up to saturation. */
  lemma {:induction false} CopyHasKept(ms: seq<Match>, kept: seq<bool>, n: nat, j: nat)
    requires j < n <= |ms| == |kept| && DistinctKeys(ms) && kept[j]
    ensures var r := CopyOf(ms, kept, n);
            ms[j].key in r.entries && r.entries[ms[j].key] == Entry(ms[j].entry.cookie, Min(Rank(kept, j), U64_MAX))
  {
    if j == n - 1 {
      CopyCounts(ms, kept, j);
      NotYetCopied(ms, kept, j, j);
    } else {
      CopyHasKept(ms, kept, n - 1, j);
      assert ms[j].key != ms[n - 1].key;
    }
  }

  /** An add is refused exactly when an earlier Secure cookie of the plan blocks it. */
  lemma OverlayIsBlocked(taken: int, p: Restore, done: int, n: nat)
    requires Scheduled(taken, p, done) && n < |p.cookies| && DistinctKeys(p.cookies)
    ensures var k := p.cookies[n].key;
            !p.https[n] && WouldOverlaySecure(CopyOf(p.cookies, Kept(p), n), k.name, k.domain, k.path, p.times[n])
            <==> Blocked(p, n)
  {
    var k, t, r := p.cookies[n].key, p.times[n], CopyOf(p.cookies, Kept(p), n);
    if i :| 0 <= i < n && Overlays(p.cookies[i].key, p.cookies[i].entry, k.name, k.domain, k.path, t) {
      assert p.times[i] <= t;
      assert Kept(p)[i];
      CopyHasKept(p.cookies, Kept(p), n, i);
      assert Overlays(p.cookies[i].key, r.entries[p.cookies[i].key], k.name, k.domain, k.path, t);
    }
    if q :| q in r.entries && Overlays(q, r.entries[q], k.name, k.domain, k.path, t) {
      CopyHasOnlyKept(p.cookies, Kept(p), n, q);
      var i :| 0 <= i < n && Kept(p)[i] && p.cookies[i].key == q;
      CopyHasKept(p.cookies, Kept(p), n, i);
      assert Overlays(p.cookies[i].key, p.cookies[i].entry, k.name, k.domain, k.path, t);
    }
  }

  /** One add of the restore, for a key that is not stored yet. */
  lemma AddBack(parse: HostParser, r: State, k: Key, e: Entry, https: bool, now: int)
    requires AgreesWithKey(k, e) && Stable(parse, k.domain) && (e.cookie.secure ==> https) && k !in r.entries
    ensures Add(parse, r, e.cookie, Origin(k.domain, https), now) ==
              if IsExpired(e.cookie, now) || (!https && WouldOverlaySecure(r, k.name, k.domain, k.path, now)) then r
              else Insert(r, k, e.cookie)
  {
    RestoredPlan(parse, k, e, https, now);
    assert r.entries - {k} == r.entries;
  }

  predicate CanReturn(parse: HostParser, m: Match) {
    AgreesWithKey(m.key, m.entry) && Stable(parse, m.key.domain)
  }

  lemma {:induction false} RestoredIsCopy(parse: HostParser, taken: int, p: Restore, done: int, n: nat)
    requires Scheduled(taken, p, done) && n <= |p.cookies| && DistinctKeys(p.cookies)
    requires forall i | 0 <= i < |p.cookies| :: CanReturn(parse, p.cookies[i])
    ensures Restored(parse, p, n) == CopyOf(p.cookies, Kept(p), n)
  {
    if n > 0 {
      RestoredIsCopy(parse, taken, p, done, n - 1);
      CopyUnfolds(parse, taken, p, done, n - 1);
    }
  }

  lemma CopyUnfolds(parse: HostParser, taken: int, p: Restore, done: int, i: nat)
    requires Scheduled(taken, p, done) && i < |p.cookies| && DistinctKeys(p.cookies)
    requires CanReturn(parse, p.cookies[i])
    ensures CopyOf(p.cookies, Kept(p), i + 1) == Apply(parse, CopyOf(p.cookies, Kept(p), i), RestoreOp(p, i))
  {
    var m := p.cookies[i];
    NotYetCopied(p.cookies, Kept(p), i, i);
    AddBack(parse, CopyOf(p.cookies, Kept(p), i), m.key, m.entry, p.https[i], p.times[i]);
    OverlayIsBlocked(taken, p, done, i);
  }

  /** What the other lemmas use of a restore without dotted hosts. */
  lemma RestoreFacts(parse: HostParser, s: State, taken: int, p: Restore, done: int)
    requires IsRestore(parse, s, taken, p, done) && NoneDotted(p)
    ensures Restored(parse, p, |p.cookies|) == CopyOf(p.cookies, Kept(p), |p.cookies|)
    ensures InCreationOrder(s, p.cookies) && DistinctKeys(p.cookies)
    ensures forall k | k in s.entries && !IsExpired(s.entries[k].cookie, taken) :: Match(k, s.entries[k]) in p.cookies
  {
    SnapshotMembers(s, taken, p.cookies);
    forall i | 0 <= i < |p.cookies| ensures CanReturn(parse, p.cookies[i]) {
      assert IsRestorable(parse, p.cookies[i], done) && !IsDotted(p.cookies[i].key.domain);
    }
    RestoredIsCopy(parse, taken, p, done, |p.cookies|);
  }

  // ----- what a request sees -----

  /** What one request would send: the cookies with the keys they are stored under. */
  function Sent(ms: seq<Match>): seq<(Key, Cookie)> {
    seq(|ms|, i requires 0 <= i < |ms| => (ms[i].key, ms[i].entry.cookie))
  }

  /** From `done` on, both stores send the same cookies in the same order with every request. */
  ghost predicate SendAlike(s: State, r: State, done: int) {
    forall uri, host, t, a, b | done <= t && IsRequestOrder(s, uri, host, t, a) && IsRequestOrder(r, uri, host, t, b) ::
      Sent(a) == Sent(b)
  }

  lemma SelectedMembers(s: State, uri: Uri, host: Host, t: int, out: seq<Match>)
    requires IsRequestOrder(s, uri, host, t, out)
    ensures DistinctKeys(out)
    ensures forall m :: m in out <==> Selects(s, uri, host, t, m.key) && m.entry == s.entries[m.key]
  {
    var all := MatchesOf(s, RequestFilter(uri, host, t));
    SortOfSet(RequestLe, all, out);
    forall m ensures m in all <==> Selects(s, uri, host, t, m.key) && m.entry == s.entries[m.key] {
      if m.key in s.entries && m.entry == s.entries[m.key] { assert m == Match(m.key, s.entries[m.key]); }
    }
    forall i, j | 0 <= i < j < |out| ensures out[i].key != out[j].key {
      assert out[i] in out && out[j] in out && out[i] != out[j];
    }
  }

  lemma SelectAlike(s: State, taken: int, p: Restore, done: int, uri: Uri, host: Host, t: int, k: Key)
    requires Scheduled(taken, p, done) && NothingLost(p, done) && done <= t
    requires InCreationOrder(s, p.cookies) && DistinctKeys(p.cookies)
    requires k in s.entries && !IsExpired(s.entries[k].cookie, taken) ==> Match(k, s.entries[k]) in p.cookies
    ensures var r := CopyOf(p.cookies, Kept(p), |p.cookies|);
            && (Selects(s, uri, host, t, k) <==> Selects(r, uri, host, t, k))
            && (Selects(r, uri, host, t, k) ==> k in s.entries && r.entries[k].cookie == s.entries[k].cookie)
  {
    var kept := Kept(p);
    if Selects(s, uri, host, t, k) {
      var j :| 0 <= j < |p.cookies| && p.cookies[j] == Match(k, s.entries[k]);
      assert kept[j];
      CopyHasKept(p.cookies, kept, |p.cookies|, j);
    }
    if Selects(CopyOf(p.cookies, kept, |p.cookies|), uri, host, t, k) {
      CopyHasOnlyKept(p.cookies, kept, |p.cookies|, k);
      var j :| 0 <= j < |p.cookies| && kept[j] && p.cookies[j].key == k;
      CopyHasKept(p.cookies, kept, |p.cookies|, j);
    }
  }

  /** Where a stored key of the copy comes from. */
  lemma CopiedFrom(ms: seq<Match>, kept: seq<bool>, k: Key) returns (i: nat)
    requires |kept| == |ms| && DistinctKeys(ms) && k in CopyOf(ms, kept, |ms|).entries
    ensures i < |ms| && kept[i] && ms[i].key == k && CopyOf(ms, kept, |ms|).entries[k].index == Min(Rank(kept, i), U64_MAX)
  {
    CopyHasOnlyKept(ms, kept, |ms|, k);
    i :| 0 <= i < |ms| && kept[i] && ms[i].key == k;
    CopyHasKept(ms, kept, |ms|, i);
  }

  /** Ranks that are in order, or saturated, come from indexes that are in order. */
  lemma RanksFollowIndexes(s: State, ms: seq<Match>, kept: seq<bool>, i: nat, j: nat)
    requires |kept| == |ms| && IndexesInOrder(s) && InCreationOrder(s, ms)
    requires i < |ms| && j < |ms| && kept[i] && kept[j] && Min(Rank(kept, i), U64_MAX) <= Min(Rank(kept, j), U64_MAX)
    ensures ms[i].entry.index <= ms[j].entry.index
  {
    if j < i {
      RankGrows(kept, j, i);
      IndexesOutgrowPositions(s, ms, j);
      IndexesOutgrowPositions(s, ms, i);
    }
  }

  lemma OrderAlike(s: State, ms: seq<Match>, kept: seq<bool>, a: Key, b: Key)
    requires |kept| == |ms| && IndexesInOrder(s) && InCreationOrder(s, ms) && DistinctKeys(ms)
    requires var r := CopyOf(ms, kept, |ms|); a in r.entries && b in r.entries && r.entries[a].index <= r.entries[b].index
    ensures a in s.entries && b in s.entries && s.entries[a].index <= s.entries[b].index
  {
    var i := CopiedFrom(ms, kept, a);
    var j := CopiedFrom(ms, kept, b);
    RanksFollowIndexes(s, ms, kept, i, j);
  }

  /** The restored order, read in the source store. */
  function Mirror(s: State, b: seq<Match>): (c: seq<Match>)
    requires forall m | m in b :: m.key in s.entries
    ensures |c| == |b|
  {
    seq(|b|, i requires 0 <= i < |b| => assert b[i] in b; Match(b[i].key, s.entries[b[i].key]))
  }

  lemma MirrorHasMember(s: State, b: seq<Match>, m: Match)
    requires forall n | n in b :: n.key in s.entries
    ensures m in Mirror(s, b) <==> m.key in s.entries && m.entry == s.entries[m.key] && exists n | n in b :: n.key == m.key
  {
    var c := Mirror(s, b);
    if m in c {
      var i :| 0 <= i < |c| && c[i] == m;
      assert b[i] in b && b[i].key == m.key;
    }
    if n :| n in b && n.key == m.key {
      var i :| 0 <= i < |b| && b[i] == n;
      assert c[i] == Match(m.key, s.entries[m.key]);
    }
  }

  lemma MirrorIsSorted(s: State, b: seq<Match>)
    requires forall m | m in b :: m.key in s.entries
    requires SortedBy(RequestLe, b) && DistinctKeys(b)
    requires forall m, n | m in b && n in b && m.entry.index <= n.entry.index ::
               s.entries[m.key].index <= s.entries[n.key].index
    ensures SortedBy(RequestLe, Mirror(s, b)) && NoRepeats(Mirror(s, b))
  {
    var c := Mirror(s, b);
    forall i, j | 0 <= i < j < |c| ensures c[i] != c[j] && RequestLe(c[i], c[j]) {
      assert b[i] in b && b[j] in b && RequestLe(b[i], b[j]);
    }
  }

  lemma MirrorHasSelected(s: State, r: State, uri: Uri, host: Host, t: int, b: seq<Match>)
    requires IsRequestOrder(r, uri, host, t, b)
    requires forall k :: Selects(s, uri, host, t, k) <==> Selects(r, uri, host, t, k)
    requires forall m | m in b :: m.key in s.entries
    ensures (set m | m in Mirror(s, b)) == MatchesOf(s, RequestFilter(uri, host, t))
  {
    SelectedMembers(r, uri, host, t, b);
    var all := MatchesOf(s, RequestFilter(uri, host, t));
    forall m ensures m in Mirror(s, b) <==> m in all {
      MirrorHasMember(s, b, m);
      if m in all { assert Match(m.key, r.entries[m.key]) in b; }
      if m in Mirror(s, b) { assert Selects(s, uri, host, t, m.key) && m == Match(m.key, s.entries[m.key]); }
    }
  }

  /** Two stores that select alike and order alike send alike. */
  lemma MirrorIsRequestOrder(s: State, r: State, uri: Uri, host: Host, t: int, b: seq<Match>)
    requires IsRequestOrder(r, uri, host, t, b)
    requires forall k :: Selects(s, uri, host, t, k) <==> Selects(r, uri, host, t, k)
    requires forall m | m in b :: m.key in s.entries && m.entry.cookie == s.entries[m.key].cookie
    requires forall m, n | m in b && n in b && m.entry.index <= n.entry.index ::
               s.entries[m.key].index <= s.entries[n.key].index
    ensures IsRequestOrder(s, uri, host, t, Mirror(s, b)) && Sent(Mirror(s, b)) == Sent(b)
  {
    var all := MatchesOf(s, RequestFilter(uri, host, t));
    assert SortedBy(RequestLe, Mirror(s, b)) && NoRepeats(Mirror(s, b)) by {
      SelectedMembers(r, uri, host, t, b);
      MirrorIsSorted(s, b);
    }
    assert multiset(Mirror(s, b)) == multiset(all) by {
      MirrorHasSelected(s, r, uri, host, t, b);
      NoRepeatsIsSet(Mirror(s, b));
    }
    MirrorSendsAlike(s, b);
  }

  lemma MirrorSendsAlike(s: State, b: seq<Match>)
    requires forall m | m in b :: m.key in s.entries && m.entry.cookie == s.entries[m.key].cookie
    ensures Sent(Mirror(s, b)) == Sent(b)
  {
    forall i | 0 <= i < |b| ensures Sent(Mirror(s, b))[i] == Sent(b)[i] { assert b[i] in b; }
  }

  lemma RestoreSendsAlike(parse: HostParser, s: State, taken: int, p: Restore, done: int, uri: Uri, host: Host, t: int,
                          a: seq<Match>, b: seq<Match>)
    requires IsRestore(parse, s, taken, p, done) && NoneDotted(p) && NothingLost(p, done) && done <= t
    requires NoTiesFor(s, uri, host, t)
    requires IsRequestOrder(s, uri, host, t, a) && IsRequestOrder(Restored(parse, p, |p.cookies|), uri, host, t, b)
    ensures Sent(a) == Sent(b)
  {
    var r := Restored(parse, p, |p.cookies|);
    RestoreFacts(parse, s, taken, p, done);
    SelectedMembers(r, uri, host, t, b);
    forall k
      ensures Selects(s, uri, host, t, k) <==> Selects(r, uri, host, t, k)
      ensures Selects(r, uri, host, t, k) ==> k in s.entries && r.entries[k].cookie == s.entries[k].cookie
    {
      SelectAlike(s, taken, p, done, uri, host, t, k);
    }
    forall m, n | m in b && n in b && m.entry.index <= n.entry.index
      ensures s.entries[m.key].index <= s.entries[n.key].index
    {
      OrderAlike(s, p.cookies, Kept(p), m.key, n.key);
    }
    MirrorIsRequestOrder(s, r, uri, host, t, b);
    RequestOrderIsDeterminedIffNoTies(s, uri, host, t);
    assert IsSortOf(RequestLe, MatchesOf(s, RequestFilter(uri, host, t)), a);
  }

  lemma SomeRequestOrder(s: State, uri: Uri, host: Host, t: int) returns (out: seq<Match>)
    ensures IsRequestOrder(s, uri, host, t, out)
  {
    var xs := Listing(MatchesOf(s, RequestFilter(uri, host, t)));
    OrdersAreTotal();
    out := Sort(RequestLe, xs);
  }

  /** A blocked cookie that is still alive is missing from some request. */
  lemma BlockedCookieIsMissed(parse: HostParser, s: State, taken: int, p: Restore, done: int, j: nat)
    requires IsRestore(parse, s, taken, p, done) && NoneDotted(p)
    requires j < |p.cookies| && Blocked(p, j) && !IsExpired(p.cookies[j].entry.cookie, done)
    ensures !SendAlike(s, Restored(parse, p, |p.cookies|), done)
  {
    var r, m := Restored(parse, p, |p.cookies|), p.cookies[j];
    RestoreFacts(parse, s, taken, p, done);
    DroppedCookieIsAbsent(p.cookies, Kept(p), |p.cookies|, j);
    var uri := Uri(Some(Http), Some(m.key.domain.text), None, m.key.path, "");
    assert Selects(s, uri, m.key.domain, done, m.key);
    MissedKeyIsSeen(s, r, uri, m.key.domain, done, m.key);
  }

  lemma DroppedCookieIsAbsent(ms: seq<Match>, kept: seq<bool>, n: nat, j: nat)
    requires n <= |ms| == |kept| && j < |ms| && DistinctKeys(ms) && !kept[j]
    ensures ms[j].key !in CopyOf(ms, kept, n).entries
  {
    if ms[j].key in CopyOf(ms, kept, n).entries { CopyHasOnlyKept(ms, kept, n, ms[j].key); }
  }

  lemma MissedKeyIsSeen(s: State, r: State, uri: Uri, host: Host, t: int, k: Key)
    requires Selects(s, uri, host, t, k) && k !in r.entries
    ensures !SendAlike(s, r, t)
  {
    var a := SomeRequestOrder(s, uri, host, t);
    var b := SomeRequestOrder(r, uri, host, t);
    SelectedMembers(s, uri, host, t, a);
    SelectedMembers(r, uri, host, t, b);
    var m := Match(k, s.entries[k]);
    assert m in a;
    DifferAt(a, b, m);
  }

  lemma DifferAt(a: seq<Match>, b: seq<Match>, m: Match)
    requires m in a && forall n | n in b :: n.key != m.key
    ensures Sent(a) != Sent(b)
  {
    var i :| 0 <= i < |a| && a[i] == m;
    assert |a| == |b| ==> b[i] in b && Sent(b)[i].0 != Sent(a)[i].0;
  }

  // ----- hosts that start with a dot -----

  /** Every key of the restored jar is where some add asked to store its cookie. */
  lemma {:induction false} RestoredKeysWereAsked(parse: HostParser, p: Restore, n: nat, k: Key)
    requires n <= |p.cookies| == |p.https| == |p.times| && k in Restored(parse, p, n).entries
    ensures exists i | 0 <= i < n :: AsksFor(parse, p, i, k)
  {
    var before := Restored(parse, p, n - 1);
    if k in before.entries {
      RestoredKeysWereAsked(parse, p, n - 1, k);
    } else {
      assert AsksFor(parse, p, n - 1, k);
    }
  }

  predicate AsksFor(parse: HostParser, p: Restore, i: nat, k: Key)
    requires i < |p.cookies| == |p.https| == |p.times|
  {
    var op := RestoreOp(p, i);
    var plan := PlanOf(parse, op.cookie, op.uri, op.now);
    plan.Put? && plan.key == k
  }

  /** Added back from its own host text, a cookie under a dotted host asks for a host with a shorter text. */
  lemma DottedAsksForShorter(parse: HostParser, p: Restore, i: nat, k: Key)
    requires i < |p.cookies| == |p.https| == |p.times| && AsksFor(parse, p, i, k)
    requires IsCanonical(parse, p.cookies[i].key.domain) && IsDotted(p.cookies[i].key.domain)
    requires AgreesWithKey(p.cookies[i].key, p.cookies[i].entry)
    ensures |k.domain.text| < |p.cookies[i].key.domain.text|
  {
  }

  lemma DotlessAsksForItself(parse: HostParser, p: Restore, i: nat, k: Key)
    requires i < |p.cookies| == |p.https| == |p.times| && AsksFor(parse, p, i, k)
    requires IsCanonical(parse, p.cookies[i].key.domain) && !IsDotted(p.cookies[i].key.domain)
    requires AgreesWithKey(p.cookies[i].key, p.cookies[i].entry) && (p.cookies[i].entry.cookie.secure ==> p.https[i])
    ensures k == p.cookies[i].key
  {
    RestoredPlan(parse, p.cookies[i].key, p.cookies[i].entry, p.https[i], p.times[i]);
  }

  /** Among the first `n` cookies the dotted host with the longest text, when there is one. */
  lemma {:induction false} LongestDotted(p: Restore, n: nat) returns (best: Option<nat>)
    requires n <= |p.cookies|
    ensures best.None? ==> forall i | 0 <= i < n :: !IsDotted(p.cookies[i].key.domain)
    ensures best.Some? ==> best.value < n && IsDotted(p.cookies[best.value].key.domain)
    ensures best.Some? ==>
              forall i | 0 <= i < n && IsDotted(p.cookies[i].key.domain) ::
                |p.cookies[i].key.domain.text| <= |p.cookies[best.value].key.domain.text|
  {
    best := None;
    if n > 0 {
      best := LongestDotted(p, n - 1);
      var host := p.cookies[n - 1].key.domain;
      if IsDotted(host) && (best.None? || |p.cookies[best.value].key.domain.text| < |host.text|) { best := Some(n - 1); }
    }
  }

  /** The cookie under the longest dotted host is not restored. */
  lemma LongestDottedIsAbsent(parse: HostParser, s: State, taken: int, p: Restore, done: int, best: nat)
    requires IsRestore(parse, s, taken, p, done)
    requires best < |p.cookies| && IsDotted(p.cookies[best].key.domain)
    requires forall i | 0 <= i < |p.cookies| && IsDotted(p.cookies[i].key.domain) ::
               |p.cookies[i].key.domain.text| <= |p.cookies[best].key.domain.text|
    ensures p.cookies[best].key !in Restored(parse, p, |p.cookies|).entries
  {
    var k := p.cookies[best].key;
    SnapshotMembers(s, taken, p.cookies);
    if k in Restored(parse, p, |p.cookies|).entries {
      RestoredKeysWereAsked(parse, p, |p.cookies|, k);
      var i :| 0 <= i < |p.cookies| && AsksFor(parse, p, i, k);
      assert IsRestorable(parse, p.cookies[i], done);
      if IsDotted(p.cookies[i].key.domain) {
        DottedAsksForShorter(parse, p, i, k);
      } else {
        DotlessAsksForItself(parse, p, i, k);
      }
    }
  }

  lemma DottedCookieIsMissed(parse: HostParser, s: State, taken: int, p: Restore, done: int)
    requires IsRestore(parse, s, taken, p, done) && !NoneDotted(p)
    ensures !SendAlike(s, Restored(parse, p, |p.cookies|), done)
  {
    var best := LongestDotted(p, |p.cookies|);
    LongestDottedIsAbsent(parse, s, taken, p, done, best.value);
    SnapshotMembers(s, taken, p.cookies);
    var k := p.cookies[best.value].key;
    assert IsRestorable(parse, p.cookies[best.value], done);
    LiveCookieIsSelected(s, k, done);
    MissedKeyIsSeen(s, Restored(parse, p, |p.cookies|), SelectingUri(k), k.domain, done, k);
  }

  /** A request that selects a live cookie. */
  function SelectingUri(k: Key): Uri {
    Uri(Some(Https), Some(k.domain.text), None, k.path, "")
  }

  lemma LiveCookieIsSelected(s: State, k: Key, t: int)
    requires k in s.entries && !IsExpired(s.entries[k].cookie, t)
    ensures Selects(s, SelectingUri(k), k.domain, t, k)
  {
    DomainMatchIsPartialOrder(k.domain, k.domain, k.domain);
  }

  // ----- the exact condition -----

  /** From `done` on no request selects two cookies that tie. */
  ghost predicate NeverTies(s: State, done: int) {
    forall uri: Uri, host: Host, t: int | done <= t :: NoTiesFor(s, uri, host, t)
  }

  /** A store in which two cookies tie does not even send like itself. */
  lemma TieIsSeen(s: State, r: State, done: int, uri: Uri, host: Host, t: int)
    requires done <= t && !NoTiesFor(s, uri, host, t)
    ensures !SendAlike(s, r, done)
  {
    var all := MatchesOf(s, RequestFilter(uri, host, t));
    RequestOrderIsDeterminedIffNoTies(s, uri, host, t);
    var a, a' :| IsSortOf(RequestLe, all, a) && IsSortOf(RequestLe, all, a') && a != a';
    var b := SomeRequestOrder(r, uri, host, t);
    assert IsRequestOrder(s, uri, host, t, a) && IsRequestOrder(s, uri, host, t, a');
    if Sent(a) == Sent(b) && Sent(a') == Sent(b) {
      SelectedMembers(s, uri, host, t, a);
      SelectedMembers(s, uri, host, t, a');
      SameSentSameOrder(s, a, a');
    }
  }

  lemma SameSentSameOrder(s: State, a: seq<Match>, b: seq<Match>)
    requires Sent(a) == Sent(b)
    requires forall m | m in a :: m.key in s.entries && m.entry == s.entries[m.key]
    requires forall m | m in b :: m.key in s.entries && m.entry == s.entries[m.key]
    ensures a == b
  {
    assert |a| == |Sent(a)| == |Sent(b)| == |b|;
    forall i | 0 <= i < |a| ensures a[i] == b[i] {
      assert Sent(a)[i].0 == a[i].key && Sent(b)[i].0 == b[i].key;
      assert a[i] in a && b[i] in b;
    }
  }

  /** While the counter is not saturated nothing ever ties. */
  lemma UnsaturatedNeverTies(s: State, done: int)
    requires Inv(s) && s.next < U64_MAX
    ensures NeverTies(s, done)
  {
  }

  lemma DotlessRestoreIsFaithfulIff(parse: HostParser, s: State, taken: int, p: Restore, done: int)
    requires IsRestore(parse, s, taken, p, done) && NoneDotted(p) && NeverTies(s, done)
    ensures SendAlike(s, Restored(parse, p, |p.cookies|), done) <==> NothingLost(p, done)
  {
    var r := Restored(parse, p, |p.cookies|);
    if NothingLost(p, done) {
      forall uri, host, t, a, b | done <= t && IsRequestOrder(s, uri, host, t, a) && IsRequestOrder(r, uri, host, t, b)
        ensures Sent(a) == Sent(b)
      {
        assert NoTiesFor(s, uri, host, t);
        RestoreSendsAlike(parse, s, taken, p, done, uri, host, t, a, b);
      }
    } else {
      var j :| 0 <= j < |p.cookies| && Blocked(p, j) && !IsExpired(p.cookies[j].entry.cookie, done);
      BlockedCookieIsMissed(parse, s, taken, p, done, j);
    }
  }

  /**
   A restored jar sends the same cookies in the same order as its source, with every request from the last add on,
   exactly when no cookie is stored under a host that starts with a dot, no cookie that is still alive then was
   blocked by an earlier Secure cookie, and no request finds two cookies that tie.
   */
  lemma RestoreIsFaithfulIff(parse: HostParser, s: State, taken: int, p: Restore, done: int)
    requires IsRestore(parse, s, taken, p, done)
    ensures SendAlike(s, Restored(parse, p, |p.cookies|), done) <==> NoneDotted(p) && NothingLost(p, done) && NeverTies(s, done)
  {
    if !NoneDotted(p) {
      DottedCookieIsMissed(parse, s, taken, p, done);
    } else if NeverTies(s, done) {
      DotlessRestoreIsFaithfulIff(parse, s, taken, p, done);
    } else {
      var uri: Uri, host: Host, t: int :| done <= t && !NoTiesFor(s, uri, host, t);
      TieIsSeen(s, Restored(parse, p, |p.cookies|), done, uri, host, t);
    }
  }

  /** Adding everything back over https loses nothing. */
  lemma HttpsRestoreIsFaithful(parse: HostParser, s: State, taken: int, p: Restore, done: int)
    requires IsRestore(parse, s, taken, p, done)
    requires forall i | 0 <= i < |p.https| :: p.https[i]
    ensures SendAlike(s, Restored(parse, p, |p.cookies|), done) <==> NoneDotted(p) && NeverTies(s, done)
    ensures s.next < U64_MAX && NoneDotted(p) ==> SendAlike(s, Restored(parse, p, |p.cookies|), done)
  {
    RestoreIsFaithfulIff(parse, s, taken, p, done);
    if s.next < U64_MAX { UnsaturatedNeverTies(s, done); }
  }

  /** Two cookies of one name that were both stored over https, a Secure one and then a plain one on a longer path. */
  function SecureAndPlain(): (Cookie, Cookie) {
    (Cookie("a", "1", None, Some("/"), true, None, None, ""), Cookie("a", "1", None, Some("/x"), false, None, None, ""))
  }

  /**
   The documented recipe picks http for every cookie that is not Secure. It loses a cookie when a
   Secure cookie and a plain one of the same name were both stored over https.
   */
  lemma DocumentedRestoreCanLoseCookie() returns (ops: seq<Op>, p: Restore)
    ensures IsRestore(AnyHost(), Run(AnyHost(), EMPTY, ops), 0, p, 0)
    ensures forall i | 0 <= i < |p.cookies| :: p.https[i] == p.cookies[i].entry.cookie.secure
    ensures !SendAlike(Run(AnyHost(), EMPTY, ops), Restored(AnyHost(), p, |p.cookies|), 0)
  {
    var origin := Uri(Some(Https), Some("h"), None, "/", "");
    var (secure, plain) := SecureAndPlain();
    var k, l := KeyOf("a", "/"), KeyOf("a", "/x");
    ops := [AddOp(secure, origin, 0), AddOp(plain, origin, 0)];
    var m, n := Match(k, Entry(secure, 0)), Match(l, Entry(plain, 1));
    p := Restore([m, n], [true, false], [0, 0]);
    TwoAdds(AnyHost(), secure, plain, origin, k, l);
    ReachableStoresAreValid(AnyHost(), ops);
    TwoAreRestored(p, m, n);
    PlainIsBlocked(p, m, n);
    RestoreIsFaithfulIff(AnyHost(), Run(AnyHost(), EMPTY, ops), 0, p, 0);
  }

  lemma TwoAreRestored(p: Restore, m: Match, n: Match)
    requires p == Restore([m, n], [true, false], [0, 0]) && m.entry.cookie.secure && !n.entry.cookie.secure
    requires m.key.domain == n.key.domain == Domain("h") && m.key != n.key && m.entry.index < n.entry.index
    requires !IsExpired(m.entry.cookie, 0) && !IsExpired(n.entry.cookie, 0)
    requires Inv(State(map[m.key := m.entry, n.key := n.entry], 2))
    ensures IsRestore(AnyHost(), State(map[m.key := m.entry, n.key := n.entry], 2), 0, p, 0)
  {
    TwoMatches(m, n);
    assert StripDot("h") == "h";
    assert IsRestorable(AnyHost(), m, 0) && IsRestorable(AnyHost(), n, 0);
  }

  lemma PlainIsBlocked(p: Restore, m: Match, n: Match)
    requires p == Restore([m, n], [true, false], [0, 0])
    requires m == Match(KeyOf("a", "/"), Entry(SecureAndPlain().0, 0)) && n == Match(KeyOf("a", "/x"), Entry(SecureAndPlain().1, 1))
    ensures !NothingLost(p, 0)
  {
    assert p.cookies[0] == m && p.cookies[1] == n;
    assert Overlays(p.cookies[0].key, p.cookies[0].entry, "a", Domain("h"), "/x", 0);
    assert Blocked(p, 1);
  }

  /** A cookie set by a host with two leading dots is stored under one with a leading dot, and is not restored from there. */
  lemma DottedHostIsNotRestored() returns (ops: seq<Op>, p: Restore)
    ensures IsRestore(AnyHost(), Run(AnyHost(), EMPTY, ops), 0, p, 0) && p.https == [true]
    ensures !SendAlike(Run(AnyHost(), EMPTY, ops), Restored(AnyHost(), p, |p.cookies|), 0)
  {
    var cookie := Plain("a", "1", "/");
    var origin := Uri(Some(Https), Some("..h"), None, "/", "");
    var k := Key(Domain(".h"), "/", true, "a");
    ops := [AddOp(cookie, origin, 0)];
    assert StripDot("..h") == ".h" && StripDot(".h") == "h";
    assert ops[..0] == [] && Run(AnyHost(), EMPTY, ops[..0]) == EMPTY;
    var s := Run(AnyHost(), EMPTY, ops);
    assert s == State(map[k := Entry(cookie, 0)], 1);
    ReachableStoresAreValid(AnyHost(), ops);
    var m := Match(k, Entry(cookie, 0));
    p := Restore([m], [true], [0]);
    assert MatchesOf(s, UnexpiredFilter(0)) == {m};
    assert IsRestorable(AnyHost(), m, 0) && IsDotted(p.cookies[0].key.domain);
    RestoreIsFaithfulIff(AnyHost(), s, 0, p, 0);
  }

  lemma TwoMatches(m: Match, n: Match)
    requires m.key != n.key && m.entry.index < n.entry.index
    requires !IsExpired(m.entry.cookie, 0) && !IsExpired(n.entry.cookie, 0)
    ensures IsSnapshot(State(map[m.key := m.entry, n.key := n.entry], 2), 0, [m, n])
  {
    var s := State(map[m.key := m.entry, n.key := n.entry], 2);
    assert m.key in s.entries && n.key in s.entries;
    assert MatchesOf(s, UnexpiredFilter(0)) == {m, n};
  }

  lemma TwoAdds(parse: HostParser, secure: Cookie, plain: Cookie, origin: Uri, k: Key, l: Key)
    requires k != l && origin.IsHttps()
    requires PlanOf(parse, secure, origin, 0) == Put(k, secure)
    requires PlanOf(parse, plain, origin, 0) == Put(l, plain)
    ensures Run(parse, EMPTY, [AddOp(secure, origin, 0), AddOp(plain, origin, 0)]) ==
              State(map[k := Entry(secure, 0), l := Entry(plain, 1)], 2)
  {
    var ops := [AddOp(secure, origin, 0), AddOp(plain, origin, 0)];
    assert ops[..1] == [AddOp(secure, origin, 0)] && ops[..1][..0] == [];
    assert Run(parse, EMPTY, ops[..1][..0]) == EMPTY;
    assert Run(parse, EMPTY, ops[..1]) == State(map[k := Entry(secure, 0)], 1);
  }
}
