/**
 Sorting by a total preorder, and when the outcome of an unstable sort is determined.
 */
module Sorting {

  ghost predicate TotalPreorder<T(!new)>(le: (T, T) -> bool) {
    && (forall a, b :: le(a, b) || le(b, a))
    && (forall a, b, c :: le(a, b) && le(b, c) ==> le(a, c))
  }

  ghost predicate SortedBy<T>(le: (T, T) -> bool, xs: seq<T>) {
    forall i, j | 0 <= i < j < |xs| :: le(xs[i], xs[j])
  }

  /** What any sort, stable or not, may return for a collection without repetitions. */
  ghost predicate IsSortOf<T>(le: (T, T) -> bool, items: set<T>, out: seq<T>) {
    multiset(out) == multiset(items) && SortedBy(le, out)
  }

  /** No two different members of `items` compare as equal. */
  ghost predicate Strict<T(!new)>(le: (T, T) -> bool, items: set<T>) {
    forall a, b | a in items && b in items && le(a, b) && le(b, a) :: a == b
  }

  function InsertSorted<T(!new)>(le: (T, T) -> bool, x: T, xs: seq<T>): (r: seq<T>)
    requires TotalPreorder(le) && SortedBy(le, xs)
    ensures SortedBy(le, r) && multiset(r) == multiset(xs) + multiset{x}
  {
    if xs == [] then [x]
    else if le(x, xs[0]) then [x] + xs
    else
      var rest := InsertSorted(le, x, xs[1..]);
      PrependSmallest(le, xs[0], xs[1..], x, rest);
      assert xs == [xs[0]] + xs[1..];
      [xs[0]] + rest
  }

  lemma PrependSmallest<T(!new)>(le: (T, T) -> bool, first: T, tail: seq<T>, x: T, rest: seq<T>)
    requires SortedBy(le, rest) && multiset(rest) == multiset(tail) + multiset{x}
    requires le(first, x) && forall y | y in tail :: le(first, y)
    ensures SortedBy(le, [first] + rest)
  {
    forall i | 0 <= i < |rest| ensures le(first, rest[i]) {
      assert rest[i] in multiset(rest);
      assert rest[i] == x || rest[i] in multiset(tail);
    }
  }

  function Sort<T(!new)>(le: (T, T) -> bool, xs: seq<T>): (r: seq<T>)
    requires TotalPreorder(le)
    ensures SortedBy(le, r) && multiset(r) == multiset(xs)
  {
    if xs == [] then []
    else
      assert xs == [xs[0]] + xs[1..];
      InsertSorted(le, xs[0], Sort(le, xs[1..]))
  }

  lemma SameMembers<T>(a: seq<T>, b: seq<T>, x: T)
    requires multiset(a) == multiset(b)
    ensures x in a <==> x in b
  {
    assert x in a <==> x in multiset(a);
    assert x in b <==> x in multiset(b);
  }

  /** A sort of items that never compare as equal has exactly one possible outcome. */
  lemma {:induction false} SortIsDetermined<T(!new)>(le: (T, T) -> bool, items: set<T>, a: seq<T>, b: seq<T>)
    requires IsSortOf(le, items, a) && IsSortOf(le, items, b)
    requires Strict(le, items)
    ensures a == b
  {
    forall x ensures x in a <==> x in items { assert x in a <==> x in multiset(a); }
    Determined(le, items, a, b);
  }

  lemma DropFirst<T>(xs: seq<T>)
    requires xs != []
    ensures multiset(xs[1..]) == multiset(xs) - multiset{xs[0]}
  {
    assert xs == [xs[0]] + xs[1..];
  }

  lemma SameHead<T(!new)>(le: (T, T) -> bool, items: set<T>, a: seq<T>, b: seq<T>)
    requires a != [] && b != [] && a[0] in b && b[0] in a
    requires SortedBy(le, a) && SortedBy(le, b)
    requires a[0] in items && b[0] in items && Strict(le, items)
    ensures a[0] == b[0]
  {
    var i :| 0 <= i < |a| && a[i] == b[0];
    var j :| 0 <= j < |b| && b[j] == a[0];
    if i > 0 && j > 0 {
      assert le(a[0], a[i]) && le(b[0], b[j]);
    }
  }

  lemma {:induction false} Determined<T(!new)>(le: (T, T) -> bool, items: set<T>, a: seq<T>, b: seq<T>)
    requires multiset(a) == multiset(b) && SortedBy(le, a) && SortedBy(le, b)
    requires forall x | x in a :: x in items
    requires Strict(le, items)
    ensures a == b
    decreases |a|
  {
    assert |a| == |multiset(a)| == |multiset(b)| == |b|;
    if a != [] {
      SameMembers(a, b, a[0]);
      SameMembers(a, b, b[0]);
      SameHead(le, items, a, b);
      DropFirst(a);
      DropFirst(b);
      Determined(le, items, a[1..], b[1..]);
      assert a == [a[0]] + a[1..];
    }
  }

  ghost predicate NoRepeats<T>(xs: seq<T>) {
    forall i, j | 0 <= i < j < |xs| :: xs[i] != xs[j]
  }

  lemma {:induction false} NoRepeatsIsSet<T>(xs: seq<T>)
    requires NoRepeats(xs)
    ensures multiset(xs) == multiset(set x | x in xs)
  {
    if xs != [] {
      var rest := xs[1..];
      NoRepeatsIsSet(rest);
      assert xs == [xs[0]] + rest;
      assert xs[0] !in rest;
      assert (set x | x in xs) == {xs[0]} + set x | x in rest;
    }
  }

  lemma CountedTwice<T>(xs: seq<T>, i: int, j: int)
    requires 0 <= i < j < |xs| && xs[i] == xs[j]
    ensures multiset(xs)[xs[i]] >= 2
  {
    assert xs == xs[..i] + [xs[i]] + xs[i + 1..j] + [xs[i]] + xs[j + 1..];
  }

  /** A sorted listing of a set repeats nothing and misses nothing. */
  lemma {:induction false} SortOfSet<T>(le: (T, T) -> bool, items: set<T>, out: seq<T>)
    requires IsSortOf(le, items, out)
    ensures NoRepeats(out) && |out| == |items|
    ensures forall x :: x in out <==> x in items
  {
    forall x ensures x in out <==> x in items { assert x in out <==> x in multiset(out); }
    forall i, j | 0 <= i < j < |out| ensures out[i] != out[j] {
      if out[i] == out[j] { CountedTwice(out, i, j); }
    }
    assert |multiset(out)| == |out|;
  }

  lemma {:induction false} Listing<T>(items: set<T>) returns (xs: seq<T>)
    ensures multiset(xs) == multiset(items)
  {
    if items == {} {
      xs := [];
    } else {
      var x :| x in items;
      var rest := Listing(items - {x});
      xs := [x] + rest;
      assert items == (items - {x}) + {x};
    }
  }

  ghost predicate HasOneSort<T(!new)>(le: (T, T) -> bool, items: set<T>) {
    forall a, b | IsSortOf(le, items, a) && IsSortOf(le, items, b) :: a == b
  }

  /** Two members that compare as equal may change places. */
  lemma SwapTied<T(!new)>(le: (T, T) -> bool, xs: seq<T>, i: nat, j: nat) returns (ys: seq<T>)
    requires TotalPreorder(le) && SortedBy(le, xs) && i < j < |xs| && le(xs[j], xs[i])
    ensures SortedBy(le, ys) && multiset(ys) == multiset(xs)
    ensures |ys| == |xs| && ys[i] == xs[j]
  {
    ys := xs[i := xs[j]][j := xs[i]];
    forall p, q | 0 <= p < q < |ys| ensures le(ys[p], ys[q]) {
      if p < i { assert le(xs[p], xs[i]) && le(xs[p], xs[j]) && (q != i && q != j ==> le(xs[p], xs[q])); }
      if p == i && q != j { assert le(xs[i], xs[q]) && le(xs[j], xs[q]); }
      if i < p < j { assert le(xs[i], xs[p]) && le(xs[p], xs[j]) && le(xs[p], xs[i]) && (q != j ==> le(xs[p], xs[q])); }
      if p == j { assert le(xs[j], xs[q]) && le(xs[i], xs[q]); }
      if j < p { assert le(xs[p], xs[q]); }
    }
  }

  /** A sort has exactly one possible outcome exactly when no two different members compare as equal. */
  lemma SortIsDeterminedIffStrict<T(!new)>(le: (T, T) -> bool, items: set<T>)
    requires TotalPreorder(le)
    ensures HasOneSort(le, items) <==> Strict(le, items)
  {
    if Strict(le, items) {
      forall a, b | IsSortOf(le, items, a) && IsSortOf(le, items, b) ensures a == b {
        SortIsDetermined(le, items, a, b);
      }
    } else {
      var x, y :| x in items && y in items && le(x, y) && le(y, x) && x != y;
      var xs, ys := TiedHaveTwoSorts(le, items, x, y);
    }
  }

  lemma TiedHaveTwoSorts<T(!new)>(le: (T, T) -> bool, items: set<T>, x: T, y: T) returns (xs: seq<T>, ys: seq<T>)
    requires TotalPreorder(le) && x in items && y in items && x != y && le(x, y) && le(y, x)
    ensures IsSortOf(le, items, xs) && IsSortOf(le, items, ys) && xs != ys
  {
    var listed := Listing(items);
    xs := Sort(le, listed);
    SortOfSet(le, items, xs);
    var i: nat :| i < |xs| && xs[i] == x;
    var j: nat :| j < |xs| && xs[j] == y;
    ys := SwapTied(le, xs, if i < j then i else j, if i < j then j else i);
  }
}
