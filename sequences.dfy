/** The array operations `MemStorage` relies on: `Array.prototype.filter`, and
    `Array.prototype.sort` with a numeric comparator `(a, b) => key(a) - key(b)`,
    which the language has required to be stable since ECMAScript 2019. */
module Sequences {

  /** A non-empty sequence is its prefix followed by its last element. */
  lemma SplitLast<T>(s: seq<T>)
    requires s != []
    ensures s == s[..|s| - 1] + [s[|s| - 1]]
  {
  }

  lemma SplitAt<T>(s: seq<T>, n: nat)
    requires n <= |s|
    ensures s == s[..n] + s[n..]
  {
  }

  /** A sequence is what precedes position `i`, the element there, and what follows. */
  lemma SplitAround<T>(s: seq<T>, i: nat)
    requires i < |s|
    ensures s == s[..i] + [s[i]] + s[i + 1..]
  {
  }

  /** One more element of `s` extends the prefix of length `i` by `s[i]`. */
  lemma PrefixNext<T>(s: seq<T>, i: nat)
    requires i < |s|
    ensures s[..i + 1][..i] == s[..i] && s[..i + 1][i] == s[i] && |s[..i + 1]| == i + 1
  {
  }

  /** `s.filter(p)`: the elements satisfying `p`, in order. */
  function Filter<T(!new)>(s: seq<T>, p: T -> bool): (r: seq<T>)
    ensures |r| <= |s|
  {
    if s == [] then []
    else (if p(s[0]) then [s[0]] else []) + Filter(s[1..], p)
  }

  lemma FilterCons<T(!new)>(h: T, t: seq<T>, p: T -> bool)
    ensures Filter([h] + t, p) == (if p(h) then [h] else []) + Filter(t, p)
  {
    assert ([h] + t)[0] == h;
    assert ([h] + t)[1..] == t;
  }

  /** Filtering keeps exactly the elements satisfying the predicate. */
  lemma {:induction false} FilterMembers<T(!new)>(s: seq<T>, p: T -> bool)
    ensures forall x :: x in Filter(s, p) <==> x in s && p(x)
  {
    if s != [] {
      FilterMembers(s[1..], p);
      FilterCons(s[0], s[1..], p);
      assert s == [s[0]] + s[1..];
    }
  }

  /** Filtering keeps every satisfying element exactly as often as it occurs. */
  lemma {:induction false} FilterMultiset<T(!new)>(s: seq<T>, p: T -> bool)
    ensures forall x :: multiset(Filter(s, p))[x] == if p(x) then multiset(s)[x] else 0
  {
    if s != [] {
      FilterMultiset(s[1..], p);
      assert s == [s[0]] + s[1..];
    }
  }

  lemma {:induction false} FilterConcat<T(!new)>(a: seq<T>, b: seq<T>, p: T -> bool)
    ensures Filter(a + b, p) == Filter(a, p) + Filter(b, p)
  {
    if a == [] {
      assert a + b == b;
    } else {
      var h := if p(a[0]) then [a[0]] else [];
      assert (a + b)[0] == a[0] && (a + b)[1..] == a[1..] + b;
      assert Filter(a + b, p) == h + Filter(a[1..] + b, p);
      FilterConcat(a[1..], b, p);
      assert h + (Filter(a[1..], p) + Filter(b, p)) == (h + Filter(a[1..], p)) + Filter(b, p);
    }
  }

  lemma {:induction false} FilterAll<T(!new)>(s: seq<T>, p: T -> bool)
    requires forall x :: x in s ==> p(x)
    ensures Filter(s, p) == s
  {
    if s != [] {
      FilterAll(s[1..], p);
      assert s == [s[0]] + s[1..];
    }
  }

  /** Filtering by `p`, then by `q`, filters by both at once. */
  lemma {:induction false} FilterFilter<T(!new)>(s: seq<T>, p: T -> bool, q: T -> bool, pq: T -> bool)
    requires forall x :: pq(x) == (p(x) && q(x))
    ensures Filter(Filter(s, p), q) == Filter(s, pq)
  {
    if s != [] {
      FilterFilter(s[1..], p, q, pq);
      var h := if p(s[0]) then [s[0]] else [];
      FilterConcat(h, Filter(s[1..], p), q);
      if p(s[0]) {
        FilterCons(s[0], [], q);
        assert [s[0]] + [] == [s[0]];
      }
    }
  }

  /** Predicates that agree on the elements of `s` filter it alike. */
  lemma {:induction false} FilterSame<T(!new)>(s: seq<T>, p: T -> bool, q: T -> bool)
    requires forall x :: x in s ==> p(x) == q(x)
    ensures Filter(s, p) == Filter(s, q)
  {
    if s != [] {
      FilterSame(s[1..], p, q);
    }
  }

  /** Nothing survives a filter that no element satisfies. */
  lemma FilterNone<T(!new)>(s: seq<T>, p: T -> bool)
    requires forall x :: x in s ==> !p(x)
    ensures Filter(s, p) == []
  {
    FilterMembers(s, p);
    if Filter(s, p) != [] {
      assert Filter(s, p)[0] in Filter(s, p);
    }
  }

  /** A filter that keeps everything around `x` and rejects `x` cuts it out. */
  lemma FilterMiddle<T(!new)>(a: seq<T>, x: T, b: seq<T>, p: T -> bool)
    requires (forall y :: y in a ==> p(y)) && (forall y :: y in b ==> p(y)) && !p(x)
    ensures Filter(a + [x] + b, p) == a + b
  {
    calc {
      Filter(a + [x] + b, p);
      { FilterConcat(a + [x], b, p); }
      Filter(a + [x], p) + Filter(b, p);
      { FilterConcat(a, [x], p); }
      Filter(a, p) + Filter([x], p) + Filter(b, p);
      { FilterAll(a, p); FilterAll(b, p); FilterNone([x], p); }
      a + [] + b;
      { assert a + [] == a; }
      a + b;
    }
  }

  /** A filter that rejects exactly the element at `i` cuts out that position. */
  lemma FilterDropsOne<T(!new)>(s: seq<T>, i: nat, p: T -> bool)
    requires i < |s| && !p(s[i])
    requires forall j :: 0 <= j < |s| && j != i ==> p(s[j])
    ensures Filter(s, p) == s[..i] + s[i + 1..]
  {
    var a, b := s[..i], s[i + 1..];
    forall y | y in a
      ensures p(y)
    {
      var j :| 0 <= j < |a| && a[j] == y;
      assert s[j] == y;
    }
    forall y | y in b
      ensures p(y)
    {
      var j :| 0 <= j < |b| && b[j] == y;
      assert s[i + 1 + j] == y;
    }
    SplitAround(s, i);
    FilterMiddle(a, s[i], b, p);
  }

  /** `s.findIndex(p)`: the position of the first element satisfying `p`, or -1. */
  function FindIndex<T>(s: seq<T>, p: T -> bool): (i: int)
    ensures -1 <= i < |s|
    ensures i >= 0 ==> p(s[i])
    ensures forall j :: 0 <= j < |s| && (i < 0 || j < i) ==> !p(s[j])
  {
    if s == [] then -1
    else if p(s[0]) then 0
    else
      var i := FindIndex(s[1..], p);
      if i < 0 then -1 else i + 1
  }

  predicate SortedBy<T>(s: seq<T>, key: T -> int) {
    forall i, j :: 0 <= i < j < |s| ==> key(s[i]) <= key(s[j])
  }

  /** Putting `h` in front of a sorted sequence whose first key is not smaller keeps
      it sorted. */
  lemma SortedCons<T>(h: T, t: seq<T>, key: T -> int)
    requires SortedBy(t, key) && (t == [] || key(h) <= key(t[0]))
    ensures SortedBy([h] + t, key)
  {
    forall i, j | 0 <= i < j < |[h] + t|
      ensures key(([h] + t)[i]) <= key(([h] + t)[j])
    {
      if i == 0 && j > 1 {
        assert key(t[0]) <= key(t[j - 1]);
      }
    }
  }

  /** Inserts `x` before the first element whose key is not smaller than its own. */
  function InsertBy<T>(x: T, s: seq<T>, key: T -> int): (r: seq<T>)
    requires SortedBy(s, key)
    ensures SortedBy(r, key)
    ensures multiset(r) == multiset(s) + multiset{x}
    ensures r[0] == x || (s != [] && r[0] == s[0])
  {
    if s == [] || key(x) <= key(s[0]) then
      SortedCons(x, s, key);
      [x] + s
    else
      var t := InsertBy(x, s[1..], key);
      assert s == [s[0]] + s[1..];
      assert |s| > 1 ==> key(s[0]) <= key(s[1]);
      assert key(s[0]) <= key(t[0]);
      SortedCons(s[0], t, key);
      assert multiset([s[0]] + t) == multiset{s[0]} + multiset(t);
      [s[0]] + t
  }

  /** `s.sort((a, b) => key(a) - key(b))` on a copy: ascending by key, stable. */
  function SortBy<T>(s: seq<T>, key: T -> int): (r: seq<T>)
    ensures SortedBy(r, key)
    ensures multiset(r) == multiset(s)
  {
    if s == [] then []
    else
      assert s == [s[0]] + s[1..];
      InsertBy(s[0], SortBy(s[1..], key), key)
  }

  lemma SortByMembers<T>(s: seq<T>, key: T -> int)
    ensures forall x :: x in SortBy(s, key) <==> x in s
  {
    var r := SortBy(s, key);
    forall x
      ensures x in r <==> x in s
    {
      assert x in r <==> x in multiset(r);
      assert x in s <==> x in multiset(s);
    }
  }

  /** Input that is already in order comes back unchanged. */
  lemma {:induction false} SortByOfSorted<T>(s: seq<T>, key: T -> int)
    requires SortedBy(s, key)
    ensures SortBy(s, key) == s
  {
    if s != [] {
      assert SortedBy(s[1..], key);
      SortByOfSorted(s[1..], key);
      assert s == [s[0]] + s[1..];
    }
  }

  function Reverse<T>(s: seq<T>): (r: seq<T>)
    ensures |r| == |s|
    ensures forall i :: 0 <= i < |s| ==> r[i] == s[|s| - 1 - i]
  {
    seq(|s|, i requires 0 <= i < |s| => s[|s| - 1 - i])
  }

  lemma {:induction false} InsertByLast<T>(x: T, t: seq<T>, key: T -> int)
    requires SortedBy(t, key)
    requires forall i :: 0 <= i < |t| ==> key(t[i]) < key(x)
    ensures InsertBy(x, t, key) == t + [x]
  {
    if t != [] {
      InsertByLast(x, t[1..], key);
      assert t == [t[0]] + t[1..];
    }
  }

  /** Keys that strictly fall along `s` come out of the sort in reverse order. */
  lemma {:induction false} SortByReverse<T>(s: seq<T>, key: T -> int)
    requires forall i, j :: 0 <= i < j < |s| ==> key(s[i]) > key(s[j])
    ensures SortBy(s, key) == Reverse(s)
  {
    if s != [] {
      var t := s[1..];
      SortByReverse(t, key);
      InsertByLast(s[0], Reverse(t), key);
      assert Reverse(s) == Reverse(t) + [s[0]];
    }
  }

  /** The keys of `s`, in order. */
  function Keys<T>(s: seq<T>, key: T -> int): (r: seq<int>)
    ensures |r| == |s|
    ensures forall i :: 0 <= i < |s| ==> r[i] == key(s[i])
  {
    seq(|s|, i requires 0 <= i < |s| => key(s[i]))
  }

  lemma KeysAppend<T>(a: seq<T>, b: seq<T>, key: T -> int)
    ensures Keys(a + b, key) == Keys(a, key) + Keys(b, key)
  {
  }

  lemma KeysPrefix<T>(a: seq<T>, n: nat, key: T -> int)
    requires n <= |a|
    ensures Keys(a[..n], key) == Keys(a, key)[..n]
  {
  }

  /** `b` without its element at `j`. */
  function RemoveAt<T>(b: seq<T>, j: nat): (r: seq<T>)
    requires j < |b|
    ensures |r| == |b| - 1
    ensures forall n :: 0 <= n < |r| ==> r[n] == if n < j then b[n] else b[n + 1]
    ensures multiset(r) == multiset(b) - multiset{b[j]}
  {
    assert b == b[..j] + [b[j]] + b[j + 1..];
    b[..j] + b[j + 1..]
  }

  lemma RemoveAtSorted<T>(b: seq<T>, j: nat, key: T -> int)
    requires j < |b| && SortedBy(b, key)
    ensures SortedBy(RemoveAt(b, j), key)
  {
    var r := RemoveAt(b, j);
    forall p, q | 0 <= p < q < |r|
      ensures key(r[p]) <= key(r[q])
    {
      var p' := if p < j then p else p + 1;
      var q' := if q < j then q else q + 1;
      assert r[p] == b[p'] && r[q] == b[q'];
    }
  }

  /** Sorted arrangements of the same elements start with the same key. */
  lemma SortedFirstKey<T>(a: seq<T>, b: seq<T>, key: T -> int)
    requires SortedBy(a, key) && SortedBy(b, key)
    requires multiset(a) == multiset(b) && a != []
    ensures b != [] && key(a[0]) == key(b[0])
  {
    assert a[0] in multiset(b);
    var j :| 0 <= j < |b| && b[j] == a[0];
    assert b[0] in multiset(a);
    var i :| 0 <= i < |a| && a[i] == b[0];
  }

  /** Two sorted arrangements of the same elements agree on their keys, position by
      position: the result of the sort depends on the input's order only among
      elements with equal keys. */
  lemma {:induction false} SortedKeysUnique<T>(a: seq<T>, b: seq<T>, key: T -> int)
    requires SortedBy(a, key) && SortedBy(b, key)
    requires multiset(a) == multiset(b)
    ensures Keys(a, key) == Keys(b, key)
    decreases |a|
  {
    if a == [] {
      assert |b| == |multiset(b)| == 0;
    } else {
      SortedFirstKey(a, b, key);
      assert a[0] in multiset(b);
      var j :| 0 <= j < |b| && b[j] == a[0];
      var b' := RemoveAt(b, j);
      RemoveAtSorted(b, j, key);
      var a' := RemoveAt(a, 0);
      RemoveAtSorted(a, 0, key);
      SortedKeysUnique(a', b', key);
      assert forall n :: 0 <= n <= j ==> key(b[n]) == key(a[0]) by {
        forall n | 0 <= n <= j
          ensures key(b[n]) == key(a[0])
        {
          assert key(b[0]) <= key(b[n]) <= key(b[j]);
        }
      }
      KeysAfterRemoval(a, b, j, key);
    }
  }

  /** Removing the first element of `a` and an element `b[j]` of the same key that only
      equal keys precede leaves the keys of the rest aligned. */
  lemma KeysAfterRemoval<T>(a: seq<T>, b: seq<T>, j: nat, key: T -> int)
    requires 0 < |a| == |b| && j < |b| && key(b[j]) == key(a[0])
    requires forall n :: 0 <= n <= j ==> key(b[n]) == key(a[0])
    requires Keys(RemoveAt(a, 0), key) == Keys(RemoveAt(b, j), key)
    ensures Keys(a, key) == Keys(b, key)
  {
    var a', b' := RemoveAt(a, 0), RemoveAt(b, j);
    forall n | 0 <= n < |a|
      ensures key(a[n]) == key(b[n])
    {
      if n > 0 {
        assert key(a[n]) == key(a'[n - 1]) == Keys(a', key)[n - 1] == Keys(b', key)[n - 1] == key(b'[n - 1]);
        if n - 1 < j {
          assert b'[n - 1] == b[n - 1];
        } else {
          assert b'[n - 1] == b[n];
        }
      }
    }
  }

  /** The elements of `s` whose key is `c`, in order. */
  function WithKey<T>(s: seq<T>, key: T -> int, c: int): seq<T> {
    if s == [] then []
    else (if key(s[0]) == c then [s[0]] else []) + WithKey(s[1..], key, c)
  }

  lemma WithKeyCons<T>(h: T, t: seq<T>, key: T -> int, c: int)
    ensures WithKey([h] + t, key, c) == (if key(h) == c then [h] else []) + WithKey(t, key, c)
  {
    assert ([h] + t)[0] == h;
    assert ([h] + t)[1..] == t;
  }

  lemma {:induction false} InsertByStable<T>(x: T, s: seq<T>, key: T -> int, c: int)
    requires SortedBy(s, key)
    ensures WithKey(InsertBy(x, s, key), key, c)
         == (if key(x) == c then [x] else []) + WithKey(s, key, c)
  {
    if s == [] || key(x) <= key(s[0]) {
      WithKeyCons(x, s, key, c);
    } else {
      var t := InsertBy(x, s[1..], key);
      assert InsertBy(x, s, key) == [s[0]] + t;
      InsertByStable(x, s[1..], key, c);
      WithKeyCons(s[0], t, key, c);
      WithKeyCons(s[0], s[1..], key, c);
      assert s == [s[0]] + s[1..];
      // `x` and `s[0]` have different keys here, so at most one of them is kept.
      assert key(x) != key(s[0]);
    }
  }

  /** The sort is stable: elements with equal keys keep their relative order. */
  lemma {:induction false} SortByStable<T>(s: seq<T>, key: T -> int, c: int)
    ensures WithKey(SortBy(s, key), key, c) == WithKey(s, key, c)
  {
    if s != [] {
      SortByStable(s[1..], key, c);
      InsertByStable(s[0], SortBy(s[1..], key), key, c);
    }
  }
}
