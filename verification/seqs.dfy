/** Sequence operations the queries are built from: order-preserving
    filtering and a stable sort by an integer key.

    Every query of the blog core is a filter (a SQL `WHERE`, or Python's
    `filter`) followed by an optional sort (a SQL `ORDER BY`, or Python's
    `list.sort`). Both are modelled here once, over plain sequences.
 */
module Seqs {
  import opened Wrappers

  /** The first element of `s` that satisfies `f`, as SQL's `.first()` on a
      filtered query returns it. */
  function FindFirst<T(!new)>(s: seq<T>, f: T -> bool): (r: Option<T>)
    ensures r.None? <==> forall i :: 0 <= i < |s| ==> !f(s[i])
    ensures r.Some? ==> exists i :: 0 <= i < |s| && s[i] == r.value && f(s[i])
                                  && forall j :: 0 <= j < i ==> !f(s[j])
  {
    if |s| == 0 then None
    else if f(s[0]) then Some(s[0])
    else
      var r := FindFirst(s[1..], f);
      assert forall i :: 1 <= i < |s| ==> s[i] == s[1..][i - 1];
      r
  }

  /** The elements of `s` that satisfy `f`, in their original order. */
  function Filter<T(!new)>(s: seq<T>, f: T -> bool): (r: seq<T>)
    ensures |r| <= |s|
  {
    if |s| == 0 then []
    else
      (if f(s[0]) then [s[0]] else []) + Filter(s[1..], f)
  }

  /** A filter keeps every occurrence of a selected element and drops every
      occurrence of the others. */
  lemma {:induction false} FilterCount<T(!new)>(s: seq<T>, f: T -> bool)
    ensures forall x :: multiset(Filter(s, f))[x] == if f(x) then multiset(s)[x] else 0
  {
    if |s| > 0 {
      FilterCount(s[1..], f);
      assert s == [s[0]] + s[1..];
    }
  }

  /** Membership in a filtered sequence. */
  lemma FilterMembers<T(!new)>(s: seq<T>, f: T -> bool)
    ensures forall x :: x in Filter(s, f) <==> x in s && f(x)
  {
    FilterCount(s, f);
    forall x ensures x in Filter(s, f) <==> x in s && f(x) {
      assert x in Filter(s, f) <==> multiset(Filter(s, f))[x] > 0;
      assert x in s <==> multiset(s)[x] > 0;
    }
  }

  /** Filtering a sequence that starts with `x`. */
  lemma FilterCons<T(!new)>(x: T, t: seq<T>, f: T -> bool)
    ensures Filter([x] + t, f) == (if f(x) then [x] else []) + Filter(t, f)
  {
    assert ([x] + t)[1..] == t;
  }

  /** Filters that agree on every element select the same subsequence. */
  lemma {:induction false} FilterExt<T(!new)>(s: seq<T>, f: T -> bool, g: T -> bool)
    requires forall x :: x in s ==> f(x) == g(x)
    ensures Filter(s, f) == Filter(s, g)
  {
    if |s| > 0 {
      assert forall x :: x in s[1..] ==> x in s;
      FilterExt(s[1..], f, g);
    }
  }

  /** A filter that selects everything is the identity. */
  lemma {:induction false} FilterAll<T(!new)>(s: seq<T>, f: T -> bool)
    requires forall x :: x in s ==> f(x)
    ensures Filter(s, f) == s
  {
    if |s| > 0 {
      assert forall x :: x in s[1..] ==> x in s;
      FilterAll(s[1..], f);
      assert s == [s[0]] + s[1..];
    }
  }

  /** An element found at two positions occurs at least twice. */
  lemma TwoPositions<T>(s: seq<T>, i: int, j: int)
    requires 0 <= i < j < |s| && s[i] == s[j]
    ensures multiset(s)[s[i]] >= 2
  {
    assert s == s[..i] + [s[i]] + s[i + 1..j] + [s[j]] + s[j + 1..];
  }

  /** An element occurring at least twice is found at two positions. */
  lemma CountTwoPositions<T>(s: seq<T>, x: T)
    requires multiset(s)[x] >= 2
    ensures exists i, j :: 0 <= i < j < |s| && s[i] == x && s[j] == x
  {
    assert x in multiset(s);
    var i :| 0 <= i < |s| && s[i] == x;
    assert s == s[..i] + [x] + s[i + 1..];
    assert multiset(s[..i])[x] + multiset(s[i + 1..])[x] >= 1;
    if x in multiset(s[..i]) {
      var k :| 0 <= k < i && s[..i][k] == x;
      assert s[k] == x;
    } else {
      var k :| 0 <= k < |s[i + 1..]| && s[i + 1..][k] == x;
      assert s[i + 1 + k] == x;
    }
  }

  /** The selector "has key `k`", named so that every use denotes the same function. */
  function KeyIs<T>(key: T -> int, k: int): T -> bool
  {
    x => key(x) == k
  }

  /** `s` is in non-decreasing order of `key`. */
  predicate SortedBy<T>(s: seq<T>, key: T -> int)
  {
    forall i, j :: 0 <= i < j < |s| ==> key(s[i]) <= key(s[j])
  }

  /** Inserts `x` into the sorted `s` in front of every element whose key is
      not smaller, so that `x` precedes the elements it ties with. */
  function Insert<T(!new)>(x: T, s: seq<T>, key: T -> int): (r: seq<T>)
    requires SortedBy(s, key)
    ensures SortedBy(r, key)
    ensures multiset(r) == multiset(s) + multiset{x}
  {
    if |s| == 0 || key(x) <= key(s[0]) then
      [x] + s
    else
      var rest := Insert(x, s[1..], key);
      assert s == [s[0]] + s[1..];
      KeyBoundKept(rest, s[1..], x, key, key(s[0]));
      [s[0]] + rest
  }

  /** A lower bound on the keys of `t` and of `x` bounds every key of a
      rearrangement of `t` with `x` added. */
  lemma KeyBoundKept<T>(r: seq<T>, t: seq<T>, x: T, key: T -> int, b: int)
    requires multiset(r) == multiset(t) + multiset{x}
    requires forall j :: 0 <= j < |t| ==> b <= key(t[j])
    requires b <= key(x)
    ensures forall i :: 0 <= i < |r| ==> b <= key(r[i])
  {
    forall i | 0 <= i < |r| ensures b <= key(r[i]) {
      assert r[i] in multiset(r);
      if r[i] != x {
        assert r[i] in multiset(t);
        var j :| 0 <= j < |t| && t[j] == r[i];
      }
    }
  }

  /** Stable insertion sort by `key`, ascending. */
  function SortBy<T(!new)>(s: seq<T>, key: T -> int): (r: seq<T>)
    ensures SortedBy(r, key)
    ensures multiset(r) == multiset(s)
  {
    if |s| == 0 then []
    else
      assert s == [s[0]] + s[1..];
      Insert(s[0], SortBy(s[1..], key), key)
  }

  /** `Insert` puts `x` ahead of the elements whose key equals its own. */
  lemma {:induction false} InsertKeepsTies<T(!new)>(x: T, s: seq<T>, key: T -> int, k: int)
    requires SortedBy(s, key)
    ensures Filter(Insert(x, s, key), KeyIs(key, k))
         == (if key(x) == k then [x] else []) + Filter(s, KeyIs(key, k))
    decreases |s|, 1
  {
    if |s| == 0 || key(x) <= key(s[0]) {
      assert Insert(x, s, key) == [x] + s;
      FilterCons(x, s, KeyIs(key, k));
    } else {
      InsertBehindKeepsTies(x, s, key, k);
    }
  }

  /** The case of `InsertKeepsTies` where `x` goes behind the head of `s`. */
  lemma {:induction false} InsertBehindKeepsTies<T(!new)>(x: T, s: seq<T>, key: T -> int, k: int)
    requires SortedBy(s, key)
    requires |s| > 0 && key(s[0]) < key(x)
    ensures Filter(Insert(x, s, key), KeyIs(key, k))
         == (if key(x) == k then [x] else []) + Filter(s, KeyIs(key, k))
    decreases |s|, 0
  {
    var g := KeyIs(key, k);
    var rest := Insert(x, s[1..], key);
    assert Insert(x, s, key) == [s[0]] + rest;
    InsertKeepsTies(x, s[1..], key, k);
    var tail := Filter(s[1..], g);
    assert Filter(rest, g) == (if g(x) then [x] else []) + tail;
    FilterCons(s[0], rest, g);
    assert s == [s[0]] + s[1..];
    FilterCons(s[0], s[1..], g);
    if g(s[0]) {
      // x has a larger key than s[0], so it is not selected
      assert !g(x);
      assert Filter(Insert(x, s, key), g) == [s[0]] + tail;
    } else {
      assert Filter(Insert(x, s, key), g) == Filter(rest, g);
      assert Filter(s, g) == tail;
    }
  }

  /** `SortBy` is stable: the elements of each key keep their relative order. */
  lemma {:induction false} SortByStable<T(!new)>(s: seq<T>, key: T -> int, k: int)
    ensures Filter(SortBy(s, key), KeyIs(key, k)) == Filter(s, KeyIs(key, k))
  {
    if |s| > 0 {
      SortByStable(s[1..], key, k);
      InsertKeepsTies(s[0], SortBy(s[1..], key), key, k);
    }
  }

  /** Filtering distributes over concatenation. */
  lemma {:induction false} FilterConcat<T(!new)>(a: seq<T>, b: seq<T>, f: T -> bool)
    ensures Filter(a + b, f) == Filter(a, f) + Filter(b, f)
  {
    if |a| == 0 {
      assert a + b == b;
    } else {
      var head := if f(a[0]) then [a[0]] else [];
      calc {
        Filter(a + b, f);
        { assert a + b == [a[0]] + (a[1..] + b); FilterCons(a[0], a[1..] + b, f); }
        head + Filter(a[1..] + b, f);
        { FilterConcat(a[1..], b, f); }
        head + (Filter(a[1..], f) + Filter(b, f));
        (head + Filter(a[1..], f)) + Filter(b, f);
        { assert a == [a[0]] + a[1..]; FilterCons(a[0], a[1..], f); }
        Filter(a, f) + Filter(b, f);
      }
    }
  }

  /** Two filters may be applied in either order. */
  lemma {:induction false} FilterCommute<T(!new)>(s: seq<T>, f: T -> bool, g: T -> bool)
    ensures Filter(Filter(s, f), g) == Filter(Filter(s, g), f)
  {
    if |s| > 0 {
      FilterCommute(s[1..], f, g);
      var hf := if f(s[0]) then [s[0]] else [];
      var hg := if g(s[0]) then [s[0]] else [];
      FilterConcat(hf, Filter(s[1..], f), g);
      FilterConcat(hg, Filter(s[1..], g), f);
      if f(s[0]) { assert hf[1..] == []; }
      if g(s[0]) { assert hg[1..] == []; }
    }
  }

  /** Filtering a sorted sequence leaves it sorted. */
  lemma {:induction false} FilterKeepsSorted<T(!new)>(s: seq<T>, f: T -> bool, key: T -> int)
    requires SortedBy(s, key)
    ensures SortedBy(Filter(s, f), key)
  {
    if |s| > 0 {
      FilterKeepsSorted(s[1..], f, key);
      var tail := Filter(s[1..], f);
      FilterMembers(s[1..], f);
      forall y | y in tail ensures key(s[0]) <= key(y) {
        var j :| 0 <= j < |s[1..]| && s[1..][j] == y;
        assert s[j + 1] == y;
      }
      assert s == [s[0]] + s[1..];
      FilterCons(s[0], s[1..], f);
    }
  }

  /** In a sorted sequence the first key bounds every key that occurs. */
  lemma {:induction false} SortedFirstKey<T(!new)>(s: seq<T>, key: T -> int, k: int)
    requires SortedBy(s, key)
    requires Filter(s, KeyIs(key, k)) != []
    ensures key(s[0]) <= k
  {
    if key(s[0]) != k {
      assert Filter(s[1..], KeyIs(key, k)) != [];
      SortedFirstKey(s[1..], key, k);
    }
  }

  /** The key of the first element has a non-empty subsequence. */
  lemma HeadKeyOccurs<T(!new)>(s: seq<T>, key: T -> int)
    requires |s| > 0
    ensures Filter(s, KeyIs(key, key(s[0]))) != []
  {
    assert s == [s[0]] + s[1..];
    FilterCons(s[0], s[1..], KeyIs(key, key(s[0])));
  }

  /** A sorted sequence is determined by its per-key subsequences: two sorted
      sequences that agree on the elements of every key, in order, are equal. */
  lemma {:induction false} SortedUnique<T(!new)>(a: seq<T>, b: seq<T>, key: T -> int)
    requires SortedBy(a, key) && SortedBy(b, key)
    requires forall k :: Filter(a, KeyIs(key, k)) == Filter(b, KeyIs(key, k))
    ensures a == b
  {
    if |a| == 0 {
      if |b| > 0 {
        HeadKeyOccurs(b, key);
      }
    } else {
      var ka := key(a[0]);
      assert Filter(a, KeyIs(key, ka)) != [];
      assert Filter(b, KeyIs(key, ka)) != [];
      SortedFirstKey(b, key, ka);
      var kb := key(b[0]);
      assert Filter(b, KeyIs(key, kb)) != [];
      assert Filter(a, KeyIs(key, kb)) != [];
      SortedFirstKey(a, key, kb);
      assert ka == kb;
      assert Filter(a, KeyIs(key, ka))[0] == a[0];
      assert Filter(b, KeyIs(key, ka))[0] == b[0];
      forall k ensures Filter(a[1..], KeyIs(key, k)) == Filter(b[1..], KeyIs(key, k)) {
        assert a == [a[0]] + a[1..];
        assert b == [a[0]] + b[1..];
        assert Filter(a, KeyIs(key, k)) == Filter(b, KeyIs(key, k));
        FilterCons(a[0], a[1..], KeyIs(key, k));
        FilterCons(a[0], b[1..], KeyIs(key, k));
        if ka == k {
          assert KeyIs(key, k)(a[0]);
          assert Filter(a[1..], KeyIs(key, k)) == Filter(a, KeyIs(key, k))[1..];
          assert Filter(b[1..], KeyIs(key, k)) == Filter(b, KeyIs(key, k))[1..];
        } else {
          assert !KeyIs(key, k)(a[0]);
          assert Filter(a[1..], KeyIs(key, k)) == Filter(a, KeyIs(key, k));
          assert Filter(b[1..], KeyIs(key, k)) == Filter(b, KeyIs(key, k));
        }
      }
      SortedUnique(a[1..], b[1..], key);
      assert a == [a[0]] + a[1..];
      assert b == [b[0]] + b[1..];
    }
  }

  /** `s` is in strictly increasing order of `key`. */
  predicate StrictlySortedBy<T>(s: seq<T>, key: T -> int)
  {
    forall i, j :: 0 <= i < j < |s| ==> key(s[i]) < key(s[j])
  }

  /** Dropping a common first element leaves equal multisets. */
  lemma TailMultiset<T>(a: seq<T>, b: seq<T>)
    requires |a| > 0 && |b| > 0 && a[0] == b[0] && multiset(a) == multiset(b)
    ensures multiset(a[1..]) == multiset(b[1..])
  {
    assert a == [a[0]] + a[1..];
    assert b == [b[0]] + b[1..];
    assert multiset(a[1..]) == multiset(a) - multiset{a[0]};
    assert multiset(b[1..]) == multiset(b) - multiset{b[0]};
  }

  /** A strictly sorted sequence stays strictly sorted without its head. */
  lemma StrictTail<T>(a: seq<T>, key: T -> int)
    requires |a| > 0 && StrictlySortedBy(a, key)
    ensures StrictlySortedBy(a[1..], key)
  {
    assert forall i :: 0 <= i < |a| - 1 ==> a[1..][i] == a[i + 1];
  }

  /** Two strictly sorted arrangements of one multiset start alike. */
  lemma StrictHeads<T>(a: seq<T>, b: seq<T>, key: T -> int)
    requires |a| > 0 && StrictlySortedBy(a, key) && StrictlySortedBy(b, key)
    requires multiset(a) == multiset(b)
    ensures |b| > 0 && a[0] == b[0]
  {
    assert a[0] in multiset(b);
    var j :| 0 <= j < |b| && b[j] == a[0];
    assert b[0] in multiset(a);
    var i :| 0 <= i < |a| && a[i] == b[0];
    assert key(b[0]) <= key(b[j]) && key(a[0]) <= key(a[i]);
    assert j == 0;
  }

  /** When no two elements share a key, the sorted arrangement of a multiset
      is the only one. */
  lemma {:induction false} StrictlySortedUnique<T(!new)>(a: seq<T>, b: seq<T>, key: T -> int)
    requires StrictlySortedBy(a, key) && StrictlySortedBy(b, key)
    requires multiset(a) == multiset(b)
    ensures a == b
    decreases |a|
  {
    if |a| == 0 {
      assert |b| == |multiset(b)| == 0;
    } else {
      StrictHeads(a, b, key);
      TailMultiset(a, b);
      StrictTail(a, key);
      StrictTail(b, key);
      StrictlySortedUnique(a[1..], b[1..], key);
      assert a == [a[0]] + a[1..];
      assert b == [b[0]] + b[1..];
    }
  }

  /** With a stable sort it does not matter whether filtering happens before
      or after sorting. */
  lemma FilterSortCommute<T(!new)>(s: seq<T>, f: T -> bool, key: T -> int)
    ensures Filter(SortBy(s, key), f) == SortBy(Filter(s, f), key)
  {
    var a := Filter(SortBy(s, key), f);
    var b := SortBy(Filter(s, f), key);
    FilterKeepsSorted(SortBy(s, key), f, key);
    forall k ensures Filter(a, KeyIs(key, k)) == Filter(b, KeyIs(key, k)) {
      SortByStable(s, key, k);
      SortByStable(Filter(s, f), key, k);
      FilterCommute(SortBy(s, key), f, KeyIs(key, k));
      FilterCommute(s, f, KeyIs(key, k));
    }
    SortedUnique(a, b, key);
  }

  /** Sorting keeps exactly the elements it is given. */
  lemma SortMembers<T(!new)>(s: seq<T>, key: T -> int)
    ensures forall x :: x in SortBy(s, key) <==> x in s
  {
    var r := SortBy(s, key);
    assert forall x :: x in r <==> x in multiset(r);
    assert forall x :: x in s <==> x in multiset(s);
  }

  /** A query: the rows that satisfy `f`, in order of `key` when `ordered`,
      otherwise in stored order. */
  function Query<T(!new)>(s: seq<T>, f: T -> bool, key: T -> int, ordered: bool): (r: seq<T>)
    ensures forall x :: multiset(r)[x] == if f(x) then multiset(s)[x] else 0
    ensures forall x :: x in r <==> x in s && f(x)
    ensures ordered ==> SortedBy(r, key)
    ensures !ordered ==> r == Filter(s, f)
  {
    FilterCount(s, f);
    FilterMembers(s, f);
    SortMembers(Filter(s, f), key);
    if ordered then SortBy(Filter(s, f), key) else Filter(s, f)
  }
}
