/**
 * The query pipelines both backends are built from: a scan of an id-keyed store in an order
 * nobody states, `Where`, a stable `OrderByDescending` (optionally `ThenByDescending`), `Take`
 * and `FirstOrDefault`.
 */
module Queries {
  import opened Common

  // ---------------------------------------------------------------------------------------------
  // Scanning a store
  // ---------------------------------------------------------------------------------------------

  /** `ks` lists every key of `m` exactly once: one possible enumeration order of `m`. */
  ghost predicate IsEnumeration<V(!new)>(ks: seq<Id>, m: map<Id, V>) {
    && (forall i :: 0 <= i < |ks| ==> ks[i] in m)
    && (forall k :: k in m ==> k in ks)
    && (forall i, j :: 0 <= i < j < |ks| ==> ks[i] != ks[j])
  }

  lemma {:induction false} EnumerationExists<V(!new)>(m: map<Id, V>)
    ensures exists ks :: IsEnumeration(ks, m)
    decreases m.Keys
  {
    if m.Keys == {} {
      assert IsEnumeration([], m);
    } else {
      var k :| k in m.Keys;
      var rest := m - {k};
      assert rest.Keys == m.Keys - {k};
      EnumerationExists(rest);
      var ks :| IsEnumeration(ks, rest);
      assert IsEnumeration(ks + [k], m);
    }
  }

  /** An enumeration names as many keys as the store has. */
  lemma {:induction false} EnumerationLength<V(!new)>(ks: seq<Id>, m: map<Id, V>)
    requires IsEnumeration(ks, m)
    ensures |ks| == |m|
    decreases |ks|
  {
    if ks == [] {
      assert m.Keys == {};
    } else {
      var k := ks[|ks| - 1];
      var front := ks[..|ks| - 1];
      var rest := m - {k};
      assert rest.Keys == m.Keys - {k};
      forall x | x in rest ensures x in front {
        var i :| 0 <= i < |ks| && ks[i] == x;
        assert i != |ks| - 1;
      }
      assert IsEnumeration(front, rest);
      EnumerationLength(front, rest);
    }
  }

  /** The enumeration order of `m`: fixed, but stated nowhere in the source. */
  ghost function Enumeration<V(!new)>(m: map<Id, V>): (ks: seq<Id>)
    ensures IsEnumeration(ks, m)
  {
    EnumerationExists(m);
    var ks :| IsEnumeration(ks, m);
    ks
  }

  /** The values stored under `ks`, in that order. */
  function ValuesAt<V(!new)>(m: map<Id, V>, ks: seq<Id>): (r: seq<V>)
    requires forall i :: 0 <= i < |ks| ==> ks[i] in m
    ensures |r| == |ks|
    ensures forall i :: 0 <= i < |ks| ==> r[i] == m[ks[i]]
  {
    if ks == [] then [] else [m[ks[0]]] + ValuesAt(m, ks[1..])
  }

  /** No value occurs twice in `s`. */
  ghost predicate NoDuplicates<T(!new)>(s: seq<T>) {
    forall x :: multiset(s)[x] <= 1
  }

  /** Different keys of `m` hold different values. */
  ghost predicate Injective<V(!new)>(m: map<Id, V>) {
    forall j, k :: j in m && k in m && j != k ==> m[j] != m[k]
  }

  /** A store whose values carry their own keys never holds one value under two keys. */
  lemma KeyedInjective<V(!new)>(m: map<Id, V>, idOf: V -> Id)
    ensures (forall k :: k in m ==> idOf(m[k]) == k) ==> Injective(m)
  {
  }

  /** Distinct keys of an injective store give values without repetition. */
  lemma {:induction false} ValuesAtNoDuplicates<V(!new)>(m: map<Id, V>, ks: seq<Id>)
    requires forall i :: 0 <= i < |ks| ==> ks[i] in m
    requires forall i, j :: 0 <= i < j < |ks| ==> ks[i] != ks[j]
    requires Injective(m)
    ensures NoDuplicates(ValuesAt(m, ks))
  {
    if ks != [] {
      var r := ValuesAt(m, ks);
      var tail := ValuesAt(m, ks[1..]);
      ValuesAtNoDuplicates(m, ks[1..]);
      assert r == [m[ks[0]]] + tail;
      forall i | 0 <= i < |tail| ensures tail[i] != m[ks[0]] {
        assert tail[i] == m[ks[i + 1]] && ks[i + 1] != ks[0];
      }
      forall x ensures multiset(r)[x] <= 1 {
        assert multiset(r)[x] == multiset([m[ks[0]]])[x] + multiset(tail)[x];
      }
    }
  }

  /** The values listed along an enumeration are exactly the stored values. */
  lemma ValuesAtEnumeration<V(!new)>(m: map<Id, V>, ks: seq<Id>)
    requires IsEnumeration(ks, m)
    ensures forall x :: x in ValuesAt(m, ks) <==> x in m.Values
    ensures Injective(m) ==> NoDuplicates(ValuesAt(m, ks))
  {
    var r := ValuesAt(m, ks);
    forall x | x in m.Values ensures x in r {
      var k :| k in m && m[k] == x;
      var i :| 0 <= i < |ks| && ks[i] == k;
      assert r[i] == x;
    }
    if Injective(m) {
      ValuesAtNoDuplicates(m, ks);
    }
  }

  /**
   * Every stored value once per key, in enumeration order: `Dictionary.Values`, or a table read
   * without ORDER BY.
   */
  ghost function Scan<V(!new)>(m: map<Id, V>): (r: seq<V>)
    ensures |r| == |m|
    ensures forall x :: x in r <==> x in m.Values
    ensures Injective(m) ==> NoDuplicates(r)
  {
    var ks := Enumeration(m);
    EnumerationLength(ks, m);
    ValuesAtEnumeration(m, ks);
    ValuesAt(m, ks)
  }

  // ---------------------------------------------------------------------------------------------
  // Where, FirstOrDefault, Take
  // ---------------------------------------------------------------------------------------------

  /** LINQ `Where`: the elements that satisfy `p`, in their order. */
  function Where<T(!new)>(s: seq<T>, p: T -> bool): (r: seq<T>)
    ensures forall x :: x in r <==> x in s && p(x)
    ensures forall x :: multiset(r)[x] <= multiset(s)[x]
    ensures |r| <= |s|
  {
    if s == [] then []
    else
      assert s == [s[0]] + s[1..];
      (if p(s[0]) then [s[0]] else []) + Where(s[1..], p)
  }

  /** Filtering keeps every occurrence of a kept element and drops every occurrence of the others. */
  lemma {:induction false} WhereCounts<T(!new)>(s: seq<T>, p: T -> bool)
    ensures forall x :: multiset(Where(s, p))[x] == if p(x) then multiset(s)[x] else 0
  {
    if s != [] {
      WhereCounts(s[1..], p);
      var head := if p(s[0]) then [s[0]] else [];
      assert s == [s[0]] + s[1..];
      assert Where(s, p) == head + Where(s[1..], p);
      assert multiset(s) == multiset([s[0]]) + multiset(s[1..]);
      assert multiset(Where(s, p)) == multiset(head) + multiset(Where(s[1..], p));
    }
  }

  /** Filtering keeps the input order: filtering a concatenation filters each part in turn. */
  lemma {:induction false} WhereAppend<T(!new)>(s: seq<T>, t: seq<T>, p: T -> bool)
    ensures Where(s + t, p) == Where(s, p) + Where(t, p)
  {
    if s == [] {
      assert s + t == t;
    } else {
      var head := if p(s[0]) then [s[0]] else [];
      var u := s + t;
      assert u != [] && u[0] == s[0] && u[1..] == s[1..] + t;
      assert Where(u, p) == head + Where(u[1..], p);
      WhereAppend(s[1..], t, p);
      assert Where(s, p) + Where(t, p) == head + (Where(s[1..], p) + Where(t, p));
    }
  }

  /** Filtering never introduces a repetition. */
  lemma WhereNoDuplicates<T(!new)>(s: seq<T>, p: T -> bool)
    requires NoDuplicates(s)
    ensures NoDuplicates(Where(s, p))
  {
  }

  /** LINQ `FirstOrDefault(p)`: the first element that satisfies `p`, or null. */
  function FirstOrDefault<T(==, !new)>(s: seq<T>, p: T -> bool): (r: Option<T>)
    ensures r.None? <==> forall x :: x in s ==> !p(x)
    ensures r.Some? ==> r.value in s && p(r.value)
    ensures r.Some? ==> exists i :: 0 <= i < |s| && s[i] == r.value && forall j :: 0 <= j < i ==> !p(s[j])
  {
    if s == [] then None
    else if p(s[0]) then Some(s[0])
    else
      var r := FirstOrDefault(s[1..], p);
      if r.Some? then
        var i :| 0 <= i < |s[1..]| && s[1..][i] == r.value && forall j :: 0 <= j < i ==> !p(s[1..][j]);
        assert s[i + 1] == r.value && forall j :: 0 <= j < i + 1 ==> !p(s[j]);
        r
      else r
  }

  /** LINQ `Take(limit)`: the first `limit` elements, or all of them; none for a limit below 1. */
  function Take<T(!new)>(s: seq<T>, limit: int): (r: seq<T>)
    ensures |r| == if limit <= 0 then 0 else if limit < |s| then limit else |s|
    ensures r == s[..|r|]
  {
    if limit <= 0 then [] else if limit < |s| then s[..limit] else s
  }

  /**
   * SQLite's `LIMIT n`, which `Take(n)` becomes in a database query: the first `n` rows, or all of
   * them; a negative `n` sets no limit at all.
   */
  function Limit<T(!new)>(s: seq<T>, limit: int): (r: seq<T>)
    ensures |r| == if limit < 0 || |s| <= limit then |s| else limit
    ensures r == s[..|r|]
  {
    if limit < 0 then s else Take(s, limit)
  }

  // ---------------------------------------------------------------------------------------------
  // OrderByDescending / ThenByDescending
  // ---------------------------------------------------------------------------------------------

  /** A sort key: `major` is the OrderByDescending key, `minor` the ThenByDescending key. */
  datatype SortKey = SortKey(major: int, minor: int)

  /** In a descending order, an element with key `a` may come before one with key `b`. */
  predicate Precedes(a: SortKey, b: SortKey) {
    a.major > b.major || (a.major == b.major && a.minor >= b.minor)
  }

  /** `s` is ordered by `key`, largest first. */
  ghost predicate SortedBy<T(!new)>(s: seq<T>, key: T -> SortKey) {
    forall i, j :: 0 <= i < j < |s| ==> Precedes(key(s[i]), key(s[j]))
  }

  /** Puts `x` in front of the first element it may precede; ahead of its equals, which came later. */
  function Insert<T(!new)>(x: T, s: seq<T>, key: T -> SortKey): (r: seq<T>)
    ensures multiset(r) == multiset(s) + multiset{x}
  {
    if s == [] || Precedes(key(x), key(s[0])) then [x] + s
    else
      assert s == [s[0]] + s[1..];
      [s[0]] + Insert(x, s[1..], key)
  }

  /** Inserting into a sorted sequence keeps it sorted. */
  lemma {:induction false} InsertSorted<T(!new)>(x: T, s: seq<T>, key: T -> SortKey)
    requires SortedBy(s, key)
    ensures SortedBy(Insert(x, s, key), key)
  {
    if s != [] && !Precedes(key(x), key(s[0])) {
      var tail := Insert(x, s[1..], key);
      InsertSorted(x, s[1..], key);
      forall j | 0 <= j < |tail| ensures Precedes(key(s[0]), key(tail[j])) {
        assert tail[j] in multiset(tail);
        if tail[j] != x {
          assert tail[j] in multiset(s[1..]);
          var i :| 0 <= i < |s[1..]| && s[1..][i] == tail[j];
          assert s[i + 1] == tail[j];
        }
      }
      assert Insert(x, s, key) == [s[0]] + tail;
    }
  }

  /** A stable OrderByDescending on `key`: insertion sort, taking elements from the back. */
  function SortDescending<T(!new)>(s: seq<T>, key: T -> SortKey): (r: seq<T>)
    ensures SortedBy(r, key)
    ensures multiset(r) == multiset(s)
  {
    if s == [] then []
    else
      assert s == [s[0]] + s[1..];
      var rest := SortDescending(s[1..], key);
      InsertSorted(s[0], rest, key);
      Insert(s[0], rest, key)
  }

  /** Sorting a sequence that is already in order changes nothing. */
  lemma {:induction false} SortOfSortedIsSame<T(!new)>(s: seq<T>, key: T -> SortKey)
    requires SortedBy(s, key)
    ensures SortDescending(s, key) == s
  {
    if s != [] {
      SortedTail(s, key);
      SortOfSortedIsSame(s[1..], key);
      assert s == [s[0]] + s[1..];
      assert s[1..] != [] ==> s[1..][0] == s[1] && Precedes(key(s[0]), key(s[1]));
    }
  }

  /** Sorting keeps exactly the same elements. */
  lemma SortKeepsElements<T(!new)>(s: seq<T>, key: T -> SortKey)
    ensures |SortDescending(s, key)| == |s|
    ensures forall x :: x in SortDescending(s, key) <==> x in s
    ensures NoDuplicates(s) ==> NoDuplicates(SortDescending(s, key))
  {
    var r := SortDescending(s, key);
    assert |multiset(r)| == |multiset(s)|;
    forall x ensures x in r <==> x in s {
      assert x in r <==> x in multiset(r);
      assert x in s <==> x in multiset(s);
    }
  }

  /**
   * The first `limit` elements of a sorted sequence are its top elements: every element left
   * out may follow every element taken.
   */
  lemma TakeOfSortedIsTop<T(!new)>(s: seq<T>, key: T -> SortKey, limit: int)
    requires SortedBy(s, key)
    ensures SortedBy(Take(s, limit), key)
    ensures forall x, y :: x in Take(s, limit) && y in s && y !in Take(s, limit) ==> Precedes(key(x), key(y))
  {
    var r := Take(s, limit);
    forall x, y | x in r && y in s && y !in r ensures Precedes(key(x), key(y)) {
      var i :| 0 <= i < |r| && r[i] == x;
      var j :| 0 <= j < |s| && s[j] == y;
      assert j >= |r|;
    }
  }

  /** Elements whose keys all tie keep their order: the sort is stable. */
  lemma {:induction false} SortTiesKeepOrder<T(!new)>(s: seq<T>, key: T -> SortKey)
    requires forall i, j :: 0 <= i < |s| && 0 <= j < |s| ==> key(s[i]) == key(s[j])
    ensures SortDescending(s, key) == s
  {
    if s != [] {
      assert s == [s[0]] + s[1..];
      SortTiesKeepOrder(s[1..], key);
    }
  }

  /** Two sequences without repetitions that hold the same elements are permutations of each other. */
  lemma SameElementsSameMultiset<T(!new)>(s: seq<T>, t: seq<T>)
    requires NoDuplicates(s) && NoDuplicates(t)
    requires forall x :: x in s <==> x in t
    ensures multiset(s) == multiset(t)
  {
    forall x
      ensures multiset(s)[x] == multiset(t)[x]
    {
      assert x in s <==> x in multiset(s);
      assert x in t <==> x in multiset(t);
    }
  }

  /** No two different elements of `s` share a key. */
  ghost predicate KeysDistinct<T(!new)>(s: seq<T>, key: T -> SortKey) {
    forall i, j :: 0 <= i < |s| && 0 <= j < |s| && s[i] != s[j] ==> key(s[i]) != key(s[j])
  }

  lemma SortedTail<T(!new)>(s: seq<T>, key: T -> SortKey)
    requires s != [] && SortedBy(s, key)
    ensures SortedBy(s[1..], key)
  {
    forall i, j | 0 <= i < j < |s| - 1 ensures Precedes(key(s[1..][i]), key(s[1..][j])) {
      assert s[1..][i] == s[i + 1] && s[1..][j] == s[j + 1];
    }
  }

  /** Two sorted sequences with the same elements and distinct keys start with the same element. */
  lemma SameHead<T(!new)>(s: seq<T>, t: seq<T>, key: T -> SortKey)
    requires s != [] && t != []
    requires SortedBy(s, key) && SortedBy(t, key)
    requires multiset(s) == multiset(t)
    requires KeysDistinct(s, key)
    ensures s[0] == t[0]
  {
    assert s[0] in multiset(t) && t[0] in multiset(s);
    var i :| 0 <= i < |t| && t[i] == s[0];
    var j :| 0 <= j < |s| && s[j] == t[0];
    assert i > 0 ==> Precedes(key(t[0]), key(t[i]));
    assert j > 0 ==> Precedes(key(s[0]), key(s[j]));
  }

  lemma KeysDistinctTail<T(!new)>(s: seq<T>, key: T -> SortKey)
    requires s != [] && KeysDistinct(s, key)
    ensures KeysDistinct(s[1..], key)
  {
    var s' := s[1..];
    forall i, j | 0 <= i < |s'| && 0 <= j < |s'| && s'[i] != s'[j] ensures key(s'[i]) != key(s'[j]) {
      assert s'[i] == s[i + 1] && s'[j] == s[j + 1];
    }
  }

  lemma TailsSameMultiset<T(!new)>(s: seq<T>, t: seq<T>)
    requires s != [] && t != [] && s[0] == t[0]
    requires multiset(s) == multiset(t)
    ensures multiset(s[1..]) == multiset(t[1..])
  {
    assert s == [s[0]] + s[1..] && t == [t[0]] + t[1..];
    assert multiset(s[1..]) == multiset(s) - multiset{s[0]};
    assert multiset(t[1..]) == multiset(t) - multiset{t[0]};
  }

  /**
   * Two sequences sorted by a key that no two of their elements share are equal once they hold
   * the same elements: the order is then fully determined.
   */
  lemma {:induction false} SortedUnique<T(!new)>(s: seq<T>, t: seq<T>, key: T -> SortKey)
    requires SortedBy(s, key) && SortedBy(t, key)
    requires multiset(s) == multiset(t)
    requires KeysDistinct(s, key)
    ensures s == t
    decreases |s|
  {
    assert |t| == |s| by {
      assert |multiset(t)| == |multiset(s)|;
    }
    if s != [] {
      SameHead(s, t, key);
      TailsSameMultiset(s, t);
      SortedTail(s, key);
      SortedTail(t, key);
      KeysDistinctTail(s, key);
      SortedUnique(s[1..], t[1..], key);
      assert s == [s[0]] + s[1..] && t == [t[0]] + t[1..];
    }
  }

  // ---------------------------------------------------------------------------------------------
  // Whole pipelines over a store
  // ---------------------------------------------------------------------------------------------

  /** A prefix holds no element more often than the whole. */
  lemma PrefixNoDuplicates<T(!new)>(s: seq<T>, n: nat)
    requires n <= |s| && NoDuplicates(s)
    ensures NoDuplicates(s[..n])
  {
    assert s == s[..n] + s[n..];
    assert multiset(s) == multiset(s[..n]) + multiset(s[n..]);
    forall x
      ensures multiset(s[..n])[x] <= 1
    {
      assert multiset(s)[x] == multiset(s[..n])[x] + multiset(s[n..])[x];
    }
  }

  /** `Where(p)` and then a stable `OrderByDescending(key)` over a scan of `m`. */
  ghost function Select<V(!new)>(m: map<Id, V>, p: V -> bool, key: V -> SortKey): (r: seq<V>)
    ensures forall x :: x in r <==> x in m.Values && p(x)
    ensures SortedBy(r, key)
    ensures Injective(m) ==> NoDuplicates(r)
  {
    var w := Where(Scan(m), p);
    SortKeepsElements(w, key);
    if Injective(m) then WhereNoDuplicates(Scan(m), p); SortDescending(w, key)
    else SortDescending(w, key)
  }

  /** A stable `OrderByDescending(key)` over a scan of `m`. */
  ghost function Sorted<V(!new)>(m: map<Id, V>, key: V -> SortKey): (r: seq<V>)
    ensures |r| == |m|
    ensures forall x :: x in r <==> x in m.Values
    ensures SortedBy(r, key)
    ensures Injective(m) ==> NoDuplicates(r)
  {
    SortKeepsElements(Scan(m), key);
    SortDescending(Scan(m), key)
  }

  /**
   * A stable `OrderByDescending(key)` and then `Take(limit)` over a scan of `m`: the `limit`
   * top-ranked values, or all of them.
   */
  ghost function Top<V(!new)>(m: map<Id, V>, key: V -> SortKey, limit: int): (r: seq<V>)
    ensures |r| == if limit <= 0 then 0 else if limit < |m| then limit else |m|
    ensures forall x :: x in r ==> x in m.Values
    ensures SortedBy(r, key)
    ensures forall x, y :: x in r && y in m.Values && y !in r ==> Precedes(key(x), key(y))
    ensures Injective(m) ==> NoDuplicates(r)
  {
    var sorted := SortDescending(Scan(m), key);
    SortKeepsElements(Scan(m), key);
    TakeOfSortedIsTop(sorted, key, limit);
    var r := Take(sorted, limit);
    if Injective(m) then PrefixNoDuplicates(sorted, |r|); r else r
  }

  /**
   * The same ranking run as a database query, `ORDER BY … LIMIT limit`: a limit of zero or more
   * agrees with `Top`, a negative limit lists every row, ranked.
   */
  ghost function SqlTop<V(!new)>(m: map<Id, V>, key: V -> SortKey, limit: int): (r: seq<V>)
    ensures |r| == if limit < 0 || |m| <= limit then |m| else limit
    ensures forall x :: x in r ==> x in m.Values
    ensures limit < 0 ==> forall x :: x in m.Values ==> x in r
    ensures SortedBy(r, key)
    ensures forall x, y :: x in r && y in m.Values && y !in r ==> Precedes(key(x), key(y))
    ensures Injective(m) ==> NoDuplicates(r)
    ensures 0 <= limit ==> r == Top(m, key, limit)
    ensures limit < 0 ==> r == Top(m, key, |m|)
  {
    var sorted := SortDescending(Scan(m), key);
    SortKeepsElements(Scan(m), key);
    var r := Limit(sorted, limit);
    if limit < 0 then
      var all, top := Sorted(m, key), Top(m, key, |m|);
      assert r == all == top;
      r
    else
      var top := Top(m, key, limit);
      assert r == top;
      r
  }

  /** No two keys of `m` hold values that share a sort key. */
  ghost predicate RanksDistinct<V(!new)>(m: map<Id, V>, key: V -> SortKey) {
    forall j, k :: j in m && k in m && j != k ==> key(m[j]) != key(m[k])
  }

  /** A sequence with no members is empty. */
  lemma EmptyWithoutMembers<T>(s: seq<T>)
    ensures (forall x :: x !in s) ==> s == []
  {
    if s != [] {
      assert s[0] in s;
    }
  }

  /** Elements that differ position by position occur once each. */
  lemma {:induction false} PairwiseDistinctNoDuplicates<T(!new)>(s: seq<T>)
    requires forall i, j :: 0 <= i < j < |s| ==> s[i] != s[j]
    ensures NoDuplicates(s)
    decreases |s|
  {
    if s != [] {
      var t := s[1..];
      PairwiseDistinctNoDuplicates(t);
      assert s == [s[0]] + t;
      forall x
        ensures multiset(s)[x] <= 1
      {
        assert multiset(s)[x] == multiset([s[0]])[x] + multiset(t)[x];
        if x == s[0] {
          forall i | 0 <= i < |t| ensures t[i] != x {
            assert t[i] == s[i + 1];
          }
          assert x !in t;
        }
      }
    }
  }

  /** Neighbours with strictly decreasing keys make a sorted sequence with distinct keys and no repeats. */
  lemma {:induction false} StrictlyDescending<T(!new)>(s: seq<T>, key: T -> SortKey)
    requires forall i :: 0 <= i < |s| - 1 ==> Precedes(key(s[i]), key(s[i + 1])) && key(s[i]) != key(s[i + 1])
    ensures forall i, j :: 0 <= i < j < |s| ==> Precedes(key(s[i]), key(s[j])) && key(s[i]) != key(s[j])
    ensures SortedBy(s, key) && KeysDistinct(s, key) && NoDuplicates(s)
    decreases |s|
  {
    if s != [] {
      var t := s[1..];
      StrictlyDescending(t, key);
      forall i, j | 0 <= i < j < |s|
        ensures Precedes(key(s[i]), key(s[j])) && key(s[i]) != key(s[j])
      {
        if i > 0 {
          assert s[i] == t[i - 1] && s[j] == t[j - 1];
        } else if j > 1 {
          assert s[1] == t[0] && s[j] == t[j - 1];
        }
      }
    }
    PairwiseDistinctNoDuplicates(s);
  }

  /**
   * When no two stored values share a sort key the ranking is determined: any sorted listing of
   * the stored values, each once, starts with the top `limit`.
   */
  lemma TopIsDetermined<V(!new)>(m: map<Id, V>, key: V -> SortKey, t: seq<V>, limit: int)
    requires RanksDistinct(m, key)
    requires SortedBy(t, key) && NoDuplicates(t)
    requires forall v :: v in t <==> v in m.Values
    ensures Top(m, key, limit) == Take(t, limit)
  {
    assert Injective(m);
    var scan := Scan(m);
    var s := SortDescending(scan, key);
    SortKeepsElements(scan, key);
    SameElementsSameMultiset(s, t);
    assert KeysDistinct(s, key) by {
      forall i, j | 0 <= i < |s| && 0 <= j < |s| && s[i] != s[j]
        ensures key(s[i]) != key(s[j])
      {
        assert s[i] in m.Values && s[j] in m.Values;
        var a :| a in m && m[a] == s[i];
        var b :| b in m && m[b] == s[j];
      }
    }
    SortedUnique(s, t, key);
  }

  /**
   * When no two stored values share a sort key the ranking does not depend on the scan order:
   * sorting the values along any enumeration of the store gives the same top `limit`.
   */
  lemma TopIgnoresScanOrder<V(!new)>(m: map<Id, V>, key: V -> SortKey, ks: seq<Id>, limit: int)
    requires RanksDistinct(m, key)
    requires IsEnumeration(ks, m)
    ensures Top(m, key, limit) == Take(SortDescending(ValuesAt(m, ks), key), limit)
  {
    assert Injective(m);
    ValuesAtEnumeration(m, ks);
    SortKeepsElements(ValuesAt(m, ks), key);
    TopIsDetermined(m, key, SortDescending(ValuesAt(m, ks), key), limit);
  }
  /**
   * The same holds for the database ranking, whatever its limit: with distinct ranks, sorting the
   * values along any enumeration of the store and applying the SQL limit gives `SqlTop`.
   */
  lemma SqlTopIgnoresScanOrder<V(!new)>(m: map<Id, V>, key: V -> SortKey, ks: seq<Id>, limit: int)
    requires RanksDistinct(m, key)
    requires IsEnumeration(ks, m)
    ensures SqlTop(m, key, limit) == Limit(SortDescending(ValuesAt(m, ks), key), limit)
  {
    var sorted := SortDescending(ValuesAt(m, ks), key);
    if limit < 0 {
      TopIgnoresScanOrder(m, key, ks, |m|);
      EnumerationLength(ks, m);
      SortKeepsElements(ValuesAt(m, ks), key);
      assert Take(sorted, |m|) == sorted;
    } else {
      TopIgnoresScanOrder(m, key, ks, limit);
    }
  }
  /**
   * When no two stored values share a key, the full ordered listing is the same along every
   * enumeration of the table: no order among ties is left for the scan to decide.
   */
  lemma SortedIgnoresScanOrder<V(!new)>(m: map<Id, V>, key: V -> SortKey, ks: seq<Id>)
    requires RanksDistinct(m, key)
    requires IsEnumeration(ks, m)
    ensures Sorted(m, key) == SortDescending(ValuesAt(m, ks), key)
  {
    TopIgnoresScanOrder(m, key, ks, |m|);
    EnumerationLength(ks, m);
    SortKeepsElements(ValuesAt(m, ks), key);
    SortKeepsElements(Scan(m), key);
    assert Take(Sorted(m, key), |m|) == Sorted(m, key);
  }

}
