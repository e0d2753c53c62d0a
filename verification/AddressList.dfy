/**
 Resolved addresses: the split by family preference and the order in which two
 family queues are drained (section 4 of RFC 8305).
 */
module AddressList {
  datatype SocketAddr = V4(id: nat) | V6(id: nat)

  function Filter(keep: SocketAddr -> bool, addrs: seq<SocketAddr>): seq<SocketAddr> {
    if addrs == [] then []
    else (if keep(addrs[0]) then [addrs[0]] else []) + Filter(keep, addrs[1..])
  }

  /** The preferred and the fallback addresses, given which local addresses are bound. */
  function SplitByPreference(addrs: seq<SocketAddr>, bound4: bool, bound6: bool): (seq<SocketAddr>, seq<SocketAddr>) {
    if bound4 && !bound6 then (Filter((a: SocketAddr) => a.V4?, addrs), [])
    else if bound6 && !bound4 then (Filter((a: SocketAddr) => a.V6?, addrs), [])
    else
      var preferring6 := addrs != [] && addrs[0].V6?;
      (Filter((a: SocketAddr) => a.V6? == preferring6, addrs), Filter((a: SocketAddr) => a.V6? != preferring6, addrs))
  }

  /** Drains two queues by turns while both have addresses left. */
  function Interleave(preferred: seq<SocketAddr>, fallback: seq<SocketAddr>, fallbackNext: bool): (r: seq<SocketAddr>)
    ensures |r| == |preferred| + |fallback|
    decreases |preferred| + |fallback|
  {
    if preferred == [] then fallback
    else if fallback == [] then preferred
    else if fallbackNext then [fallback[0]] + Interleave(preferred, fallback[1..], false)
    else [preferred[0]] + Interleave(preferred[1..], fallback, true)
  }

  /** The order in which a race tries the addresses of one lookup. */
  function LaunchOrder(addrs: seq<SocketAddr>, bound4: bool, bound6: bool): seq<SocketAddr> {
    var (preferred, fallback) := SplitByPreference(addrs, bound4, bound6);
    Interleave(preferred, fallback, false)
  }

  // ----- the split is a stable partition -----

  /** Filtering keeps the order: it distributes over concatenation. */
  lemma {:induction false} FilterIsStable(keep: SocketAddr -> bool, a: seq<SocketAddr>, b: seq<SocketAddr>)
    ensures Filter(keep, a + b) == Filter(keep, a) + Filter(keep, b)
  {
    if a == [] {
      assert a + b == b;
    } else {
      var first := if keep(a[0]) then [a[0]] else [];
      assert (a + b)[1..] == a[1..] + b;
      FilterIsStable(keep, a[1..], b);
      assert first + (Filter(keep, a[1..]) + Filter(keep, b)) == (first + Filter(keep, a[1..])) + Filter(keep, b);
    }
  }

  lemma {:induction false} FilterKeepsChosen(keep: SocketAddr -> bool, addrs: seq<SocketAddr>, x: SocketAddr)
    ensures x in Filter(keep, addrs) <==> keep(x) && x in addrs
  {
    if addrs != [] {
      FilterKeepsChosen(keep, addrs[1..], x);
      assert x in addrs <==> x == addrs[0] || x in addrs[1..];
    }
  }

  lemma {:induction false} FiltersPartition(p: SocketAddr -> bool, q: SocketAddr -> bool, addrs: seq<SocketAddr>)
    requires forall a :: p(a) != q(a)
    ensures multiset(Filter(p, addrs)) + multiset(Filter(q, addrs)) == multiset(addrs)
  {
    if addrs != [] {
      FiltersPartition(p, q, addrs[1..]);
      assert addrs == [addrs[0]] + addrs[1..];
    }
  }

  lemma LaunchOrderIsShort(addrs: seq<SocketAddr>, bound4: bool, bound6: bool)
    ensures |LaunchOrder(addrs, bound4, bound6)| <= |addrs|
  {
    FiltersPartition((a: SocketAddr) => a.V4?, (a: SocketAddr) => a.V6?, addrs);
    var four, six := Filter((a: SocketAddr) => a.V4?, addrs), Filter((a: SocketAddr) => a.V6?, addrs);
    assert |multiset(four) + multiset(six)| == |four| + |six|;
    if bound4 == bound6 {
      var first := addrs != [] && addrs[0].V6?;
      FiltersPartition((a: SocketAddr) => a.V6? == first, (a: SocketAddr) => a.V6? != first, addrs);
      var (preferred, fallback) := SplitByPreference(addrs, bound4, bound6);
      assert |multiset(preferred) + multiset(fallback)| == |preferred| + |fallback|;
    }
  }

  /** Unless exactly one family is bound, no address is lost and the first address comes first. */
  lemma SplitLosesNothing(addrs: seq<SocketAddr>, bound4: bool, bound6: bool)
    requires bound4 == bound6
    ensures var (preferred, fallback) := SplitByPreference(addrs, bound4, bound6);
            && multiset(preferred) + multiset(fallback) == multiset(addrs)
            && (addrs != [] ==> preferred != [] && preferred[0] == addrs[0])
            && (forall a, b | a in preferred && b in fallback :: a.V6? != b.V6?)
  {
    var six := addrs != [] && addrs[0].V6?;
    FiltersPartition((a: SocketAddr) => a.V6? == six, (a: SocketAddr) => a.V6? != six, addrs);
    var (preferred, fallback) := SplitByPreference(addrs, bound4, bound6);
    forall a, b | a in preferred && b in fallback ensures a.V6? != b.V6? {
      FilterKeepsChosen((a: SocketAddr) => a.V6? == six, addrs, a);
      FilterKeepsChosen((a: SocketAddr) => a.V6? != six, addrs, b);
    }
  }

  // ----- what interleaving means -----

  /** While both queues last, even positions come from the first queue and odd ones from the second;
      then the longer queue follows in its own order. */
  lemma {:induction false} InterleaveAlternates(p: seq<SocketAddr>, f: seq<SocketAddr>, i: nat)
    requires i < |p| + |f|
    ensures var both := if |p| < |f| then |p| else |f|;
            Interleave(p, f, false)[i] ==
              if i < 2 * both then (if i % 2 == 0 then p[i / 2] else f[i / 2])
              else if |p| > |f| then p[i - |f|] else f[i - |p|]
    decreases |p|
  {
    if p != [] && f != [] {
      var rest := Interleave(p[1..], f, true);
      assert Interleave(p, f, false) == [p[0]] + rest;
      if |p| == 1 {
        assert rest == f;
      } else {
        assert rest == [f[0]] + Interleave(p[1..], f[1..], false);
        if i >= 2 { InterleaveAlternates(p[1..], f[1..], i - 2); }
      }
    }
  }

  lemma {:induction false} InterleavePermutes(p: seq<SocketAddr>, f: seq<SocketAddr>, fallbackNext: bool)
    ensures multiset(Interleave(p, f, fallbackNext)) == multiset(p) + multiset(f)
    decreases |p| + |f|
  {
    if p != [] && f != [] {
      assert p == [p[0]] + p[1..] && f == [f[0]] + f[1..];
      if fallbackNext {
        InterleavePermutes(p, f[1..], false);
      } else {
        InterleavePermutes(p[1..], f, true);
      }
    }
  }

  // ----- the order of one family -----

  lemma {:induction false} FilterOfOneKind(keep: SocketAddr -> bool, addrs: seq<SocketAddr>, kept: bool)
    requires forall a | a in addrs :: keep(a) == kept
    ensures Filter(keep, addrs) == if kept then addrs else []
  {
    if addrs != [] {
      FilterOfOneKind(keep, addrs[1..], kept);
      assert addrs[0] in addrs && addrs == [addrs[0]] + addrs[1..];
    }
  }

  lemma {:induction false} SameFilter(p: SocketAddr -> bool, q: SocketAddr -> bool, addrs: seq<SocketAddr>)
    requires forall a | a in addrs :: p(a) == q(a)
    ensures Filter(p, addrs) == Filter(q, addrs)
  {
    if addrs != [] {
      assert addrs[0] in addrs;
      SameFilter(p, q, addrs[1..]);
    }
  }

  /** Alternating two families keeps the order of each. */
  lemma {:induction false} FilterOfInterleave(keep: SocketAddr -> bool, p: seq<SocketAddr>, f: seq<SocketAddr>, fallbackNext: bool,
                                              kept: bool)
    requires (forall a | a in p :: keep(a) == kept) && (forall a | a in f :: keep(a) != kept)
    ensures Filter(keep, Interleave(p, f, fallbackNext)) == if kept then p else f
    decreases |p| + |f|
  {
    if p == [] || f == [] {
      FilterOfOneKind(keep, p, kept);
      FilterOfOneKind(keep, f, !kept);
    } else {
      var all := Interleave(p, f, fallbackNext);
      assert p[0] in p && f[0] in f && p == [p[0]] + p[1..] && f == [f[0]] + f[1..];
      if fallbackNext {
        FilterOfInterleave(keep, p, f[1..], false, kept);
        assert all[1..] == Interleave(p, f[1..], false);
      } else {
        FilterOfInterleave(keep, p[1..], f, true, kept);
        assert all[1..] == Interleave(p[1..], f, true);
      }
    }
  }

  function Fours(addrs: seq<SocketAddr>): seq<SocketAddr> {
    Filter((a: SocketAddr) => a.V4?, addrs)
  }

  function Sixes(addrs: seq<SocketAddr>): seq<SocketAddr> {
    Filter((a: SocketAddr) => a.V6?, addrs)
  }

  /** Unless exactly one family is bound, the split is the family of the first address and the other one. */
  lemma SplitIsByFamily(addrs: seq<SocketAddr>, bound: bool)
    ensures SplitByPreference(addrs, bound, bound) ==
              if addrs != [] && addrs[0].V6? then (Sixes(addrs), Fours(addrs)) else (Fours(addrs), Sixes(addrs))
  {
    var six := addrs != [] && addrs[0].V6?;
    SameFilter((a: SocketAddr) => a.V6? == six, if six then (a: SocketAddr) => a.V6? else (a: SocketAddr) => a.V4?, addrs);
    SameFilter((a: SocketAddr) => a.V6? != six, if six then (a: SocketAddr) => a.V4? else (a: SocketAddr) => a.V6?, addrs);
  }

  lemma FamiliesAre(addrs: seq<SocketAddr>)
    ensures (forall a | a in Fours(addrs) :: a.V4?) && (forall a | a in Sixes(addrs) :: a.V6?)
  {
    forall a | a in Fours(addrs) ensures a.V4? { FilterKeepsChosen((x: SocketAddr) => x.V4?, addrs, a); }
    forall a | a in Sixes(addrs) ensures a.V6? { FilterKeepsChosen((x: SocketAddr) => x.V6?, addrs, a); }
  }

  /** Unless exactly one family is bound, the addresses of each family are tried in the order in which they were resolved. */
  lemma FamiliesKeepTheirOrder(addrs: seq<SocketAddr>, bound: bool)
    ensures Fours(LaunchOrder(addrs, bound, bound)) == Fours(addrs)
    ensures Sixes(LaunchOrder(addrs, bound, bound)) == Sixes(addrs)
  {
    var four, six := Fours(addrs), Sixes(addrs);
    var preferSix := addrs != [] && addrs[0].V6?;
    SplitIsByFamily(addrs, bound);
    FamiliesAre(addrs);
    if preferSix {
      FilterOfInterleave((a: SocketAddr) => a.V4?, six, four, false, false);
      FilterOfInterleave((a: SocketAddr) => a.V6?, six, four, false, true);
    } else {
      FilterOfInterleave((a: SocketAddr) => a.V4?, four, six, false, true);
      FilterOfInterleave((a: SocketAddr) => a.V6?, four, six, false, false);
    }
  }

  /** Unless exactly one family is bound, even positions try the family of the first address and odd ones the other while
      both last; then the longer family goes on. */
  lemma FamiliesAlternate(addrs: seq<SocketAddr>, bound: bool, i: nat)
    requires i < |LaunchOrder(addrs, bound, bound)|
    ensures addrs != [] && |Fours(addrs)| + |Sixes(addrs)| == |LaunchOrder(addrs, bound, bound)|
    ensures var (p, f) := if addrs[0].V6? then (Sixes(addrs), Fours(addrs)) else (Fours(addrs), Sixes(addrs));
            var both := if |p| < |f| then |p| else |f|;
            LaunchOrder(addrs, bound, bound)[i] ==
              if i < 2 * both then (if i % 2 == 0 then p[i / 2] else f[i / 2])
              else if |p| > |f| then p[i - |f|] else f[i - |p|]
  {
    SplitIsByFamily(addrs, bound);
    var (p, f) := SplitByPreference(addrs, bound, bound);
    assert addrs != [] by { LaunchOrderIsShort(addrs, bound, bound); }
    InterleaveAlternates(p, f, i);
  }

  /** The addresses that a lookup may try: with one bound family only those of that family. */
  function Usable(addrs: seq<SocketAddr>, bound4: bool, bound6: bool): seq<SocketAddr> {
    if bound4 == bound6 then addrs else Filter((a: SocketAddr) => a.V4? == bound4, addrs)
  }

  /** Every usable address is tried exactly as often as it was resolved, starting with the first one;
      with one bound family they are tried in the order in which they were resolved. */
  lemma LaunchOrderIsPermutation(addrs: seq<SocketAddr>, bound4: bool, bound6: bool)
    ensures multiset(LaunchOrder(addrs, bound4, bound6)) == multiset(Usable(addrs, bound4, bound6))
    ensures LaunchOrder(addrs, bound4, bound6) != [] ==> LaunchOrder(addrs, bound4, bound6)[0] == Usable(addrs, bound4, bound6)[0]
    ensures bound4 != bound6 ==> LaunchOrder(addrs, bound4, bound6) == Usable(addrs, bound4, bound6)
  {
    if bound4 == bound6 {
      var (preferred, fallback) := SplitByPreference(addrs, bound4, bound6);
      SplitLosesNothing(addrs, bound4, bound6);
      InterleavePermutes(preferred, fallback, false);
      assert |multiset(addrs)| == |multiset(preferred) + multiset(fallback)|;
    } else {
      OneFamily(addrs, bound4);
    }
  }

  lemma {:induction false} OneFamily(addrs: seq<SocketAddr>, four: bool)
    ensures Filter((a: SocketAddr) => a.V4? == four, addrs) ==
              if four then Filter((a: SocketAddr) => a.V4?, addrs) else Filter((a: SocketAddr) => a.V6?, addrs)
  {
    if addrs != [] { OneFamily(addrs[1..], four); }
  }
}
