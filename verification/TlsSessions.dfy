/**
 The two-level session cache: sessions per key from least to most recently used, and a reverse
 index from session id to key (Appendix C.4 of RFC 8446: a ticket is used at most once).
 */
module TlsSessions {
  import opened Text

  datatype Key = Key(name: string)

  /** Sessions are compared by id alone; `ticket` tells two sessions with one id apart. */
  datatype Session = Session(id: string, tls13: bool, ticket: nat)

  datatype Cache = Cache(reverse: map<string, Key>, hosts: map<Key, seq<Session>>)

  const EMPTY := Cache(map[], map[])

  // ----- one list -----

  /** Position of an id, or the length of the list. */
  function Position(list: seq<Session>, id: string): (i: nat)
    ensures i <= |list|
    ensures i < |list| ==> list[i].id == id
    ensures forall j | 0 <= j < i :: list[j].id != id
  {
    if list == [] || list[0].id == id then 0 else 1 + Position(list[1..], id)
  }

  function Without(list: seq<Session>, id: string): seq<Session> {
    var i := Position(list, id);
    if i < |list| then list[..i] + list[i + 1..] else list
  }

  /** Makes a session the most recently used one. A session already stored under the id stays as it is. */
  function Touch(list: seq<Session>, s: Session): seq<Session> {
    var i := Position(list, s.id);
    Without(list, s.id) + [if i < |list| then list[i] else s]
  }

  predicate IsFull(list: seq<Session>, capacity: nat) {
    list != [] && |list| >= capacity
  }

  /** The list of a key after a put: a full list first loses its least recently used session. */
  function PutList(list: seq<Session>, capacity: nat, s: Session): seq<Session> {
    Touch(if IsFull(list, capacity) then list[1..] else list, s)
  }

  // ----- the cache -----

  function Queue(c: Cache, k: Key): seq<Session> {
    if k in c.hosts then c.hosts[k] else []
  }

  function Put(c: Cache, capacity: nat, k: Key, s: Session): Cache {
    var list := Queue(c, k);
    Cache((if IsFull(list, capacity) then c.reverse - {list[0].id} else c.reverse)[s.id := k],
          c.hosts[k := PutList(list, capacity, s)])
  }

  /** Removes one id from the list of a key, and the key when nothing is left. */
  function DropFrom(hosts: map<Key, seq<Session>>, k: Key, id: string): map<Key, seq<Session>> {
    if k !in hosts then hosts
    else
      var list := Without(hosts[k], id);
      if list == [] then hosts - {k} else hosts[k := list]
  }

  /** A TLS 1.3 session leaves the cache through the key that the reverse index names. */
  function Pop(c: Cache, k: Key): (Option<Session>, Cache) {
    var list := Queue(c, k);
    if list == [] then (None, c)
    else
      var s := list[0];
      if s.tls13 && s.id in c.reverse then
        (Some(s), Cache(c.reverse - {s.id}, DropFrom(c.hosts, c.reverse[s.id], s.id)))
      else (Some(s), c)
  }

  class LruTlsSessionCache {
    var reverse: map<string, Key>
    var perHostSessions: map<Key, seq<Session>>
    const capacity: nat

    ghost function View(): Cache
      reads this
    {
      Cache(reverse, perHostSessions)
    }

    constructor (capacity: nat)
      ensures this.capacity == capacity && View() == EMPTY
    {
      this.capacity := capacity;
      reverse, perHostSessions := map[], map[];
    }

    method PutSession(key: Key, session: Session)
      modifies this
      ensures View() == Put(old(View()), capacity, key, session)
    {
      var sessions := if key in perHostSessions then perHostSessions[key] else [];
      var evicted: Option<Session> := None;
      if |sessions| >= capacity && sessions != [] {
        evicted := Some(sessions[0]);
        sessions := sessions[1..];
      }
      perHostSessions := perHostSessions[key := Touch(sessions, session)];
      if evicted.Some? {
        reverse := reverse - {evicted.value.id};
      }
      reverse := reverse[session.id := key];
    }

    method PopSession(key: Key) returns (session: Option<Session>)
      modifies this
      ensures (session, View()) == Pop(old(View()), key)
    {
      if key !in perHostSessions || perHostSessions[key] == [] {
        return None;
      }
      var first := perHostSessions[key][0];
      if first.tls13 && first.id in reverse {
        var owner := reverse[first.id];
        reverse := reverse - {first.id};
        if owner in perHostSessions {
          var rest := Without(perHostSessions[owner], first.id);
          if rest == [] {
            perHostSessions := perHostSessions - {owner};
          } else {
            perHostSessions := perHostSessions[owner := rest];
          }
        }
      }
      session := Some(first);
    }
  }

  // ----- lists of sessions with distinct ids -----

  predicate DistinctIds(list: seq<Session>) {
    forall i, j | 0 <= i < j < |list| :: list[i].id != list[j].id
  }

  predicate Has(list: seq<Session>, id: string) {
    Position(list, id) < |list|
  }

  lemma WithoutIsDistinct(list: seq<Session>, id: string)
    requires DistinctIds(list)
    ensures DistinctIds(Without(list, id))
    ensures |Without(list, id)| == |list| - if Has(list, id) then 1 else 0
  {
    var i, out := Position(list, id), Without(list, id);
    assert forall j | 0 <= j < |out| :: out[j] == list[if j < i then j else j + 1];
  }

  lemma WithoutHas(list: seq<Session>, id: string, other: string)
    requires DistinctIds(list)
    ensures Has(Without(list, id), other) <==> Has(list, other) && other != id
  {
    var i, out := Position(list, id), Without(list, id);
    var p, q := Position(list, other), Position(out, other);
    if p < |list| && other != id {
      assert out[if p < i then p else p - 1] == list[p];
    }
    if q < |out| {
      assert out[q] == list[if q < i then q else q + 1];
    }
  }

  lemma WithoutRemoves(list: seq<Session>, id: string, other: string)
    requires DistinctIds(list)
    ensures DistinctIds(Without(list, id))
    ensures Has(Without(list, id), other) <==> Has(list, other) && other != id
    ensures |Without(list, id)| == |list| - if Has(list, id) then 1 else 0
  {
    WithoutIsDistinct(list, id);
    WithoutHas(list, id, other);
  }

  lemma TouchAdds(list: seq<Session>, s: Session, other: string)
    requires DistinctIds(list)
    ensures DistinctIds(Touch(list, s))
    ensures Has(Touch(list, s), other) <==> Has(list, other) || other == s.id
    ensures |Touch(list, s)| == |list| + if Has(list, s.id) then 0 else 1
  {
    var rest, out := Without(list, s.id), Touch(list, s);
    WithoutRemoves(list, s.id, other);
    WithoutRemoves(list, s.id, s.id);
    assert out[|rest|].id == s.id;
    assert forall j | 0 <= j < |rest| :: out[j] == rest[j] && rest[j].id != s.id;
    var p := Position(rest, other);
    assert p < |rest| ==> out[p].id == other;
    var q := Position(out, other);
    assert q < |rest| ==> rest[q].id == other;
  }

  lemma FirstIsWithout(list: seq<Session>)
    requires list != []
    ensures Without(list, list[0].id) == list[1..]
  {
    assert Position(list, list[0].id) == 0;
  }

  function MaxLength(capacity: nat): nat {
    if capacity == 0 then 1 else capacity
  }

  lemma PutListKeeps(list: seq<Session>, capacity: nat, s: Session, other: string)
    requires DistinctIds(list) && |list| <= MaxLength(capacity)
    ensures var out := PutList(list, capacity, s);
            && DistinctIds(out) && 0 < |out| <= MaxLength(capacity)
            && (Has(out, other) <==>
                  other == s.id || (Has(list, other) && !(IsFull(list, capacity) && other == list[0].id)))
  {
    if IsFull(list, capacity) {
      FirstIsWithout(list);
      WithoutRemoves(list, list[0].id, other);
      TouchAdds(list[1..], s, other);
    } else {
      TouchAdds(list, s, other);
    }
  }

  // ----- agreement of the two indexes -----

  predicate GoodList(list: seq<Session>, capacity: nat) {
    DistinctIds(list) && 0 < |list| <= MaxLength(capacity)
  }

  /** The key's own list and the reverse index say the same about one id. */
  predicate Linked(c: Cache, k: Key, id: string) {
    Has(Queue(c, k), id) <==> id in c.reverse && c.reverse[id] == k
  }

  /** Both indexes describe one relation between keys and ids; no list is empty or too long. */
  ghost predicate Agree(c: Cache, capacity: nat) {
    && (forall k | k in c.hosts :: GoodList(c.hosts[k], capacity))
    && (forall k, id :: Linked(c, k, id))
  }

  lemma QueueIsGood(c: Cache, capacity: nat, k: Key)
    requires Agree(c, capacity)
    ensures DistinctIds(Queue(c, k)) && |Queue(c, k)| <= MaxLength(capacity)
  {
  }

  lemma PutLinks(c: Cache, capacity: nat, k: Key, s: Session, k': Key, id: string)
    requires DistinctIds(Queue(c, k)) && |Queue(c, k)| <= MaxLength(capacity)
    requires Linked(c, k, id) && Linked(c, k', id) && (s.id in c.reverse ==> c.reverse[s.id] == k)
    requires Queue(c, k) != [] ==> Linked(c, k, Queue(c, k)[0].id)
    ensures Linked(Put(c, capacity, k, s), k', id)
  {
    var list, out := Queue(c, k), Put(c, capacity, k, s);
    PutListKeeps(list, capacity, s, id);
    assert list != [] ==> Has(list, list[0].id);
    if k' == k {
      assert Queue(out, k) == PutList(list, capacity, s);
    } else {
      assert Queue(out, k') == Queue(c, k');
    }
  }

  lemma PutBreaksLink(c: Cache, capacity: nat, k: Key, s: Session)
    requires s.id in c.reverse && c.reverse[s.id] != k && Linked(c, c.reverse[s.id], s.id)
    ensures !Linked(Put(c, capacity, k, s), c.reverse[s.id], s.id)
  {
    assert Queue(Put(c, capacity, k, s), c.reverse[s.id]) == Queue(c, c.reverse[s.id]);
  }

  /** A put keeps the indexes in agreement exactly when the id is not stored under another key. */
  lemma PutAgreesIffOwnKey(c: Cache, capacity: nat, k: Key, s: Session)
    requires Agree(c, capacity)
    ensures Agree(Put(c, capacity, k, s), capacity) <==> (s.id in c.reverse ==> c.reverse[s.id] == k)
  {
    var out := Put(c, capacity, k, s);
    if s.id in c.reverse && c.reverse[s.id] != k {
      assert Linked(c, c.reverse[s.id], s.id);
      PutBreaksLink(c, capacity, k, s);
      assert !Linked(out, c.reverse[s.id], s.id);
    } else {
      QueueIsGood(c, capacity, k);
      PutListKeeps(Queue(c, k), capacity, s, s.id);
      forall k', id ensures Linked(out, k', id) {
        assert Linked(c, k, id) && Linked(c, k', id);
        assert Queue(c, k) != [] ==> Linked(c, k, Queue(c, k)[0].id);
        PutLinks(c, capacity, k, s, k', id);
      }
      forall k' | k' in out.hosts ensures GoodList(out.hosts[k'], capacity) {
        assert k' != k ==> out.hosts[k'] == c.hosts[k'];
      }
    }
  }

  lemma PopTakesFirst(c: Cache, k: Key)
    requires Queue(c, k) != [] && Queue(c, k)[0].tls13 && Linked(c, k, Queue(c, k)[0].id)
    ensures var s := Queue(c, k)[0];
            && s.id in c.reverse && c.reverse[s.id] == k
            && Pop(c, k).0 == Some(s) && Pop(c, k).1.reverse == c.reverse - {s.id}
            && Pop(c, k).1.hosts == (if Queue(c, k)[1..] == [] then c.hosts - {k} else c.hosts[k := Queue(c, k)[1..]])
            && Queue(Pop(c, k).1, k) == Queue(c, k)[1..]
            && forall k' | k' != k :: Queue(Pop(c, k).1, k') == Queue(c, k')
  {
    FirstIsWithout(Queue(c, k));
    assert Has(Queue(c, k), Queue(c, k)[0].id);
  }

  lemma PopLinks(c: Cache, k: Key, k': Key, id: string)
    requires DistinctIds(Queue(c, k)) && Queue(c, k) != [] && Queue(c, k)[0].tls13
    requires Linked(c, k, Queue(c, k)[0].id) && Linked(c, k', id)
    ensures Linked(Pop(c, k).1, k', id)
  {
    var list := Queue(c, k);
    PopTakesFirst(c, k);
    FirstIsWithout(list);
    WithoutRemoves(list, list[0].id, id);
  }

  /** Under agreement a pop takes exactly the least recently used TLS 1.3 session out of its own key. */
  lemma PopIsLocal(c: Cache, capacity: nat, k: Key)
    requires Agree(c, capacity)
    ensures Agree(Pop(c, k).1, capacity)
    ensures Pop(c, k).0 == if Queue(c, k) == [] then None else Some(Queue(c, k)[0])
    ensures var s := Pop(c, k).0;
            if s.Some? && s.value.tls13 then
              && Queue(Pop(c, k).1, k) == Queue(c, k)[1..]
              && (forall k' | k' != k :: Queue(Pop(c, k).1, k') == Queue(c, k'))
              && s.value.id in c.reverse && Pop(c, k).1.reverse == c.reverse - {s.value.id}
            else Pop(c, k).1 == c
  {
    var list, out := Queue(c, k), Pop(c, k).1;
    if list != [] && list[0].tls13 {
      QueueIsGood(c, capacity, k);
      assert Linked(c, k, list[0].id);
      PopTakesFirst(c, k);
      forall k', id ensures Linked(out, k', id) {
        assert Linked(c, k', id);
        PopLinks(c, k, k', id);
      }
      forall k' | k' in out.hosts ensures GoodList(out.hosts[k'], capacity) {
        assert k' != k ==> out.hosts[k'] == c.hosts[k'];
      }
    }
  }

  // ----- runs -----

  datatype Op = PutOp(key: Key, session: Session) | PopOp(key: Key)

  function Run(capacity: nat, ops: seq<Op>): Cache {
    if ops == [] then EMPTY
    else
      var before := Run(capacity, ops[..|ops| - 1]);
      match ops[|ops| - 1]
      case PutOp(k, s) => Put(before, capacity, k, s)
      case PopOp(k) => Pop(before, k).1
  }

  /** What the i-th operation returns. */
  function ResultAt(capacity: nat, ops: seq<Op>, i: nat): Option<Session>
    requires i < |ops|
  {
    if ops[i].PopOp? then Pop(Run(capacity, ops[..i]), ops[i].key).0 else None
  }

  /** The id is not stored, or it is stored under this key. */
  predicate IsFreeFor(c: Cache, k: Key, id: string) {
    id in c.reverse ==> c.reverse[id] == k
  }

  /** Every put of the run finds its id absent or under its own key. */
  predicate PutsKeepKeys(capacity: nat, ops: seq<Op>) {
    ops == [] ||
    var init, last := ops[..|ops| - 1], ops[|ops| - 1];
    PutsKeepKeys(capacity, init) && (last.PutOp? ==> IsFreeFor(Run(capacity, init), last.key, last.session.id))
  }

  ghost predicate AlwaysAgrees(capacity: nat, ops: seq<Op>) {
    forall i | 0 <= i <= |ops| :: Agree(Run(capacity, ops[..i]), capacity)
  }

  lemma {:induction false} RunAgrees(capacity: nat, ops: seq<Op>)
    requires PutsKeepKeys(capacity, ops)
    ensures Agree(Run(capacity, ops), capacity)
  {
    if ops != [] {
      var init, last := ops[..|ops| - 1], ops[|ops| - 1];
      RunAgrees(capacity, init);
      if last.PutOp? {
        PutAgreesIffOwnKey(Run(capacity, init), capacity, last.key, last.session);
      } else {
        PopIsLocal(Run(capacity, init), capacity, last.key);
      }
    }
  }

  lemma {:induction false} KeptKeysOfPrefix(capacity: nat, ops: seq<Op>, i: nat)
    requires PutsKeepKeys(capacity, ops) && i <= |ops|
    ensures PutsKeepKeys(capacity, ops[..i])
  {
    var n := |ops| - 1;
    if i <= n {
      KeptKeysOfPrefix(capacity, ops[..n], i);
      assert ops[..n][..i] == ops[..i];
    } else {
      assert ops[..i] == ops;
    }
  }

  lemma {:induction false} AgreementKeepsKeys(capacity: nat, ops: seq<Op>)
    requires AlwaysAgrees(capacity, ops)
    ensures PutsKeepKeys(capacity, ops)
  {
    if ops != [] {
      var n := |ops| - 1;
      var init, last := ops[..n], ops[n];
      forall i | 0 <= i <= n ensures Agree(Run(capacity, init[..i]), capacity) { assert init[..i] == ops[..i]; }
      AgreementKeepsKeys(capacity, init);
      assert ops[..n + 1] == ops;
      if last.PutOp? { PutAgreesIffOwnKey(Run(capacity, init), capacity, last.key, last.session); }
    }
  }

  /** The two indexes agree after every step of a run exactly when every put finds its id absent or under its own key. */
  lemma IndexesAgreeIffPutsKeepKeys(capacity: nat, ops: seq<Op>)
    ensures AlwaysAgrees(capacity, ops) <==> PutsKeepKeys(capacity, ops)
  {
    if PutsKeepKeys(capacity, ops) {
      forall i | 0 <= i <= |ops| ensures Agree(Run(capacity, ops[..i]), capacity) {
        KeptKeysOfPrefix(capacity, ops, i);
        RunAgrees(capacity, ops[..i]);
      }
    }
    if AlwaysAgrees(capacity, ops) { AgreementKeepsKeys(capacity, ops); }
  }

  /** No session id is put under two keys. */
  ghost predicate OneKeyPerId(ops: seq<Op>) {
    forall i, j | 0 <= i < |ops| && 0 <= j < |ops| && ops[i].PutOp? && ops[j].PutOp? && ops[i].session.id == ops[j].session.id ::
      ops[i].key == ops[j].key
  }

  /** The id was put under this key. */
  ghost predicate WasPut(ops: seq<Op>, id: string, k: Key) {
    exists i | 0 <= i < |ops| :: ops[i].PutOp? && ops[i].session.id == id && ops[i].key == k
  }

  lemma {:induction false} StoredIdsWerePut(capacity: nat, ops: seq<Op>, id: string)
    requires id in Run(capacity, ops).reverse
    ensures WasPut(ops, id, Run(capacity, ops).reverse[id])
  {
    var n := |ops| - 1;
    var before, k := Run(capacity, ops[..n]), Run(capacity, ops).reverse[id];
    if id in before.reverse && before.reverse[id] == k {
      StoredIdsWerePut(capacity, ops[..n], id);
      var i :| 0 <= i < n && ops[..n][i].PutOp? && ops[..n][i].session.id == id && ops[..n][i].key == k;
      assert ops[i] == ops[..n][i];
    } else {
      assert ops[n].PutOp? && ops[n].session.id == id;
    }
  }

  /** A caller who never puts an id under two keys meets the condition whatever is evicted and popped. */
  lemma {:induction false} OneKeyPerIdKeepsKeys(capacity: nat, ops: seq<Op>)
    requires OneKeyPerId(ops)
    ensures PutsKeepKeys(capacity, ops)
  {
    if ops != [] {
      var n := |ops| - 1;
      var init, last := ops[..n], ops[n];
      assert forall i | 0 <= i < n :: init[i] == ops[i];
      OneKeyPerIdKeepsKeys(capacity, init);
      if last.PutOp? && last.session.id in Run(capacity, init).reverse {
        StoredIdsWerePut(capacity, init, last.session.id);
      }
    }
  }

  // ----- a TLS 1.3 session is used once -----

  function PutsOf(ops: seq<Op>, id: string): nat {
    if ops == [] then 0
    else
      var last := ops[|ops| - 1];
      PutsOf(ops[..|ops| - 1], id) + if last.PutOp? && last.session.id == id then 1 else 0
  }

  /** How often a TLS 1.3 session with this id was handed out. */
  function UsesOf(capacity: nat, ops: seq<Op>, id: string): nat {
    if ops == [] then 0
    else
      var result := ResultAt(capacity, ops, |ops| - 1);
      UsesOf(capacity, ops[..|ops| - 1], id) + if result.Some? && result.value.tls13 && result.value.id == id then 1 else 0
  }

  /** In every run each put of an id allows at most one use, counting a stored session as not yet used. */
  lemma {:induction false} UsedOncePerPut(capacity: nat, ops: seq<Op>, id: string)
    requires PutsKeepKeys(capacity, ops)
    ensures UsesOf(capacity, ops, id) + (if id in Run(capacity, ops).reverse then 1 else 0) <= PutsOf(ops, id)
  {
    if ops != [] {
      var n := |ops| - 1;
      var init := ops[..n];
      UsedOncePerPut(capacity, init, id);
      RunAgrees(capacity, init);
      if ops[n].PopOp? { PopIsLocal(Run(capacity, init), capacity, ops[n].key); }
    }
  }

  /**
   The premise is needed: when the TLS 1.3 session at the front of one key is put under a second key, the
   first pop removes it from the second key only, and from then on every pop of the first key returns it again.
   */
  lemma SharedIdIsHandedOutForEver(c: Cache, capacity: nat, k: Key, other: Key, s: Session)
    requires k != other && Queue(c, k) != [] && Queue(c, k)[0] == s && s.tls13
    ensures var stuck := Pop(Put(c, capacity, other, s), k).1;
            && Pop(Put(c, capacity, other, s), k).0 == Some(s)
            && Pop(stuck, k) == (Some(s), stuck)
  {
    var shared := Put(c, capacity, other, s);
    assert Queue(shared, k) == Queue(c, k) && shared.reverse[s.id] == other;
    var stuck := Pop(shared, k).1;
    assert stuck.hosts == DropFrom(shared.hosts, other, s.id);
    assert Queue(stuck, k) == Queue(c, k) && s.id !in stuck.reverse;
  }

  // ----- every key is a queue of its own -----

  function PopList(list: seq<Session>): seq<Session> {
    if list != [] && list[0].tls13 then list[1..] else list
  }

  /** A single list that sees only the operations of its key. */
  function QueueRun(capacity: nat, ops: seq<Op>, k: Key): seq<Session> {
    if ops == [] then []
    else
      var before := QueueRun(capacity, ops[..|ops| - 1], k);
      match ops[|ops| - 1]
      case PutOp(key, s) => if key == k then PutList(before, capacity, s) else before
      case PopOp(key) => if key == k then PopList(before) else before
  }

  /** In every run each key behaves as a bounded queue that other keys do not influence. */
  lemma {:induction false} KeysAreIndependent(capacity: nat, ops: seq<Op>, k: Key)
    requires PutsKeepKeys(capacity, ops)
    ensures Queue(Run(capacity, ops), k) == QueueRun(capacity, ops, k)
  {
    if ops != [] {
      var n := |ops| - 1;
      var init := ops[..n];
      KeysAreIndependent(capacity, init, k);
      if ops[n].PopOp? {
        RunAgrees(capacity, init);
        PopIsLocal(Run(capacity, init), capacity, ops[n].key);
      }
    }
  }

  /** What a pop returns depends on the operations of its own key alone. */
  lemma PopsAreLocal(capacity: nat, ops: seq<Op>, i: nat)
    requires PutsKeepKeys(capacity, ops) && i < |ops| && ops[i].PopOp?
    ensures var list := QueueRun(capacity, ops[..i], ops[i].key);
            ResultAt(capacity, ops, i) == if list == [] then None else Some(list[0])
  {
    KeptKeysOfPrefix(capacity, ops, i);
    KeysAreIndependent(capacity, ops[..i], ops[i].key);
    RunAgrees(capacity, ops[..i]);
    PopIsLocal(Run(capacity, ops[..i]), capacity, ops[i].key);
  }

  /** No session of the list has this id. */
  predicate IsAbsent(list: seq<Session>, id: string) {
    forall i | 0 <= i < |list| :: list[i].id != id
  }

  /** What a put makes of a list. Only a list that has reached the capacity loses its front, and only that. A new session
      then goes to the back; a session that is still stored moves to the back as it was stored. */
  lemma PutMovesToBack(list: seq<Session>, capacity: nat, s: Session)
    requires DistinctIds(list)
    ensures list == [] ==> PutList(list, capacity, s) == [s]
    ensures |list| < capacity && IsAbsent(list, s.id) ==> PutList(list, capacity, s) == list + [s]
    ensures list != [] && |list| >= capacity && IsAbsent(list[1..], s.id) ==> PutList(list, capacity, s) == list[1..] + [s]
    ensures forall i | 0 <= i < |list| && list[i].id == s.id && |list| < capacity ::
              PutList(list, capacity, s) == list[..i] + list[i + 1..] + [list[i]]
    ensures forall i | 1 <= i < |list| && list[i].id == s.id && |list| >= capacity ::
              PutList(list, capacity, s) == list[1..i] + list[i + 1..] + [list[i]]
  {
    if list != [] && |list| >= capacity {
      forall i | 1 <= i < |list| && list[i].id == s.id
        ensures PutList(list, capacity, s) == list[1..i] + list[i + 1..] + [list[i]]
      {
        var kept := list[1..];
        assert kept[i - 1] == list[i] && Position(kept, s.id) == i - 1;
        assert kept[..i - 1] == list[1..i] && kept[i..] == list[i + 1..];
      }
    }
  }

  /** Putting a stored session again into a full list shortens the list, unless it is the front itself. */
  lemma RePutEvictsTheFront(list: seq<Session>, capacity: nat, s: Session)
    requires DistinctIds(list) && list != [] && |list| >= capacity && Has(list, s.id)
    ensures if list[0].id == s.id then PutList(list, capacity, s) == list[1..] + [s]
            else |PutList(list, capacity, s)| == |list| - 1 && !Has(PutList(list, capacity, s), list[0].id)
  {
    FirstIsWithout(list);
    WithoutRemoves(list, list[0].id, list[0].id);
    WithoutRemoves(list, list[0].id, s.id);
    TouchAdds(list[1..], s, list[0].id);
  }

  /** The sessions put under a key, in order. */
  function PutsUnder(ops: seq<Op>, k: Key): seq<Session> {
    if ops == [] then []
    else
      var last := ops[|ops| - 1];
      PutsUnder(ops[..|ops| - 1], k) + if last.PutOp? && last.key == k then [last.session] else []
  }

  /** The last `n` sessions, or all of them when there are fewer. */
  function Newest(list: seq<Session>, n: nat): seq<Session> {
    if |list| <= n then list else list[|list| - n..]
  }

  lemma PutAfterNewest(sessions: seq<Session>, capacity: nat, s: Session)
    requires DistinctIds(sessions + [s])
    ensures PutList(Newest(sessions, MaxLength(capacity)), capacity, s) == Newest(sessions + [s], MaxLength(capacity))
  {
    var kept := Newest(sessions, MaxLength(capacity));
    NewestIsFresh(sessions, MaxLength(capacity), s);
    PutMovesToBack(kept, capacity, s);
    if |sessions| < MaxLength(capacity) {
      assert Newest(sessions + [s], MaxLength(capacity)) == kept + [s];
    } else {
      assert Newest(sessions + [s], MaxLength(capacity)) == kept[1..] + [s];
    }
  }

  lemma NewestIsFresh(sessions: seq<Session>, n: nat, s: Session)
    requires DistinctIds(sessions + [s])
    ensures DistinctIds(Newest(sessions, n)) && IsAbsent(Newest(sessions, n), s.id)
  {
    var all, kept := sessions + [s], Newest(sessions, n);
    var skipped := |sessions| - |kept|;
    assert forall i | 0 <= i < |kept| :: kept[i] == all[skipped + i];
    assert all[|sessions|] == s;
  }

  /**
   A key under which only different ids were put, and from which nothing was popped, holds exactly the sessions put last, in
   the order of the puts: all of them up to the capacity, whatever happened to other keys.
   */
  lemma {:induction false} FreshPutsAreKept(capacity: nat, ops: seq<Op>, k: Key)
    requires PutsKeepKeys(capacity, ops) && DistinctIds(PutsUnder(ops, k))
    requires forall op | op in ops :: op != PopOp(k)
    ensures Queue(Run(capacity, ops), k) == Newest(PutsUnder(ops, k), if capacity == 0 then 1 else capacity)
  {
    KeysAreIndependent(capacity, ops, k);
    QueueKeepsNewest(capacity, ops, k);
  }

  lemma {:induction false} QueueKeepsNewest(capacity: nat, ops: seq<Op>, k: Key)
    requires DistinctIds(PutsUnder(ops, k)) && forall op | op in ops :: op != PopOp(k)
    ensures QueueRun(capacity, ops, k) == Newest(PutsUnder(ops, k), MaxLength(capacity))
  {
    if ops != [] {
      var n := |ops| - 1;
      var init, last := ops[..n], ops[n];
      var before, after := PutsUnder(init, k), PutsUnder(ops, k);
      assert forall op | op in init :: op in ops;
      assert forall i | 0 <= i < |before| :: before[i] == after[i];
      QueueKeepsNewest(capacity, init, k);
      if last.PutOp? && last.key == k {
        PutAfterNewest(before, capacity, last.session);
      } else {
        assert last in ops && after == before;
      }
    }
  }

  /** `n` pops of one key. */
  function Pops(k: Key, n: nat): (r: seq<Op>)
    ensures |r| == n && forall i | 0 <= i < n :: r[i] == PopOp(k)
  {
    seq(n, _ => PopOp(k))
  }

  lemma PutsKeepKeysThenPop(capacity: nat, ops: seq<Op>, k: Key)
    requires PutsKeepKeys(capacity, ops)
    ensures PutsKeepKeys(capacity, ops + [PopOp(k)])
    ensures Run(capacity, ops + [PopOp(k)]) == Pop(Run(capacity, ops), k).1
  {
    assert (ops + [PopOp(k)])[..|ops|] == ops;
  }

  lemma PopsSplit(ops: seq<Op>, k: Key, n: nat)
    requires n > 0
    ensures ops + Pops(k, n) == ops + Pops(k, n - 1) + [PopOp(k)]
  {
    assert Pops(k, n) == Pops(k, n - 1) + [PopOp(k)];
    assert ops + (Pops(k, n - 1) + [PopOp(k)]) == ops + Pops(k, n - 1) + [PopOp(k)];
  }

  lemma AfterOnePop(capacity: nat, ops: seq<Op>, k: Key)
    requires PutsKeepKeys(capacity, ops)
    requires var list := Queue(Run(capacity, ops), k); list != [] && list[0].tls13
    ensures PutsKeepKeys(capacity, ops + [PopOp(k)])
    ensures Queue(Run(capacity, ops + [PopOp(k)]), k) == Queue(Run(capacity, ops), k)[1..]
  {
    PutsKeepKeysThenPop(capacity, ops, k);
    RunAgrees(capacity, ops);
    PopIsLocal(Run(capacity, ops), capacity, k);
  }

  /** After the run the key holds exactly this list. */
  predicate Leaves(capacity: nat, ops: seq<Op>, k: Key, list: seq<Session>) {
    PutsKeepKeys(capacity, ops) && Queue(Run(capacity, ops), k) == list
  }

  predicate AllTls13(list: seq<Session>, n: nat)
    requires n <= |list|
  {
    forall i | 0 <= i < n :: list[i].tls13
  }

  lemma OnePopLeaves(capacity: nat, ops: seq<Op>, k: Key, list: seq<Session>)
    requires Leaves(capacity, ops, k, list) && list != [] && list[0].tls13
    ensures Leaves(capacity, ops + [PopOp(k)], k, list[1..])
  {
    AfterOnePop(capacity, ops, k);
  }

  lemma {:induction false} PopsLeave(capacity: nat, ops: seq<Op>, k: Key, list: seq<Session>, n: nat)
    requires Leaves(capacity, ops, k, list) && n <= |list| && AllTls13(list, n)
    ensures Leaves(capacity, ops + Pops(k, n), k, list[n..])
    decreases n
  {
    if n == 0 {
      assert ops + Pops(k, 0) == ops && list[0..] == list;
    } else {
      PopsLeave(capacity, ops, k, list, n - 1);
      PopsSplit(ops, k, n);
      assert list[n - 1..][0] == list[n - 1] && list[n - 1..][1..] == list[n..];
      OnePopLeaves(capacity, ops + Pops(k, n - 1), k, list[n - 1..]);
    }
  }

  /** After any run, `n` pops of a key whose first `n` sessions are TLS 1.3 hand them out from front to back, each once. */
  lemma PopsAreFifo(capacity: nat, ops: seq<Op>, k: Key, list: seq<Session>, n: nat, j: nat)
    requires Leaves(capacity, ops, k, list) && j < n <= |list| && AllTls13(list, n)
    ensures ResultAt(capacity, ops + Pops(k, n), |ops| + j) == Some(list[j])
    ensures Leaves(capacity, ops + Pops(k, n), k, list[n..])
  {
    PopsLeave(capacity, ops, k, list, j);
    PopsLeave(capacity, ops, k, list, n);
    assert (ops + Pops(k, n))[..|ops| + j] == ops + Pops(k, j);
  }
}
