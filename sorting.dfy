/** Python's built-in stable sort, as used by the engine (`sorted(..., reverse=True)`,
    `list.sort(..., reverse=True)`) and by the selectors (`sorted(..., key=cost)`). */
module Sorting {

  /** A sort key compared lexicographically: first `major`, then `minor`.
      Python tuples of numbers compare the same way. */
  datatype Rank = Rank(major: real, minor: int)

  /** x is strictly greater than y. */
  predicate Above(x: Rank, y: Rank) {
    x.major > y.major || (x.major == y.major && x.minor > y.minor)
  }

  /** Non-increasing by key. */
  ghost predicate Descending<T>(s: seq<T>, key: T -> Rank) {
    forall i, j :: 0 <= i < j < |s| ==> !Above(key(s[j]), key(s[i]))
  }

  /** Puts x after every element whose key is at least x's key, so that equal
      keys keep their arrival order. */
  function Insert<T>(r: seq<T>, x: T, key: T -> Rank): (q: seq<T>)
    ensures multiset(q) == multiset(r) + multiset{x}
  {
    if r == [] then [x]
    else if Above(key(x), key(r[0])) then [x] + r
    else
      assert r == [r[0]] + r[1..];
      [r[0]] + Insert(r[1..], x, key)
  }

  lemma {:induction false} InsertDescending<T>(r: seq<T>, x: T, key: T -> Rank)
    requires Descending(r, key)
    ensures Descending(Insert(r, x, key), key)
  {
    if r != [] && !Above(key(x), key(r[0])) {
      var rest := Insert(r[1..], x, key);
      InsertDescending(r[1..], x, key);
      forall k | 0 <= k < |rest| ensures !Above(key(rest[k]), key(r[0])) {
        assert rest[k] in multiset(rest);
        if rest[k] != x {
          assert rest[k] in multiset(r[1..]);
          var m :| 0 <= m < |r[1..]| && r[1..][m] == rest[k];
          assert r[m + 1] == rest[k];
        }
      }
      assert Insert(r, x, key) == [r[0]] + rest;
    }
  }

  /** Stable sort, largest key first. */
  function SortDesc<T>(s: seq<T>, key: T -> Rank): (r: seq<T>)
    ensures multiset(r) == multiset(s)
    ensures Descending(r, key)
  {
    if s == [] then []
    else
      assert s == s[..|s| - 1] + [s[|s| - 1]];
      var sorted := SortDesc(s[..|s| - 1], key);
      InsertDescending(sorted, s[|s| - 1], key);
      Insert(sorted, s[|s| - 1], key)
  }

  /** Sorting neither adds nor drops an element. */
  lemma SortDescMembers<T>(s: seq<T>, key: T -> Rank)
    ensures forall x :: x in SortDesc(s, key) <==> x in s
  {
    var r := SortDesc(s, key);
    forall x ensures x in r <==> x in s {
      assert x in r <==> x in multiset(r);
      assert x in s <==> x in multiset(s);
    }
  }

  /** The elements of s whose key is k, in their order in s. */
  function WithKey<T>(s: seq<T>, key: T -> Rank, k: Rank): (r: seq<T>)
    ensures |r| <= |s|
    ensures forall i :: 0 <= i < |r| ==> key(r[i]) == k
  {
    if s == [] then []
    else
      assert s == [s[0]] + s[1..];
      (if key(s[0]) == k then [s[0]] else []) + WithKey(s[1..], key, k)
  }

  /** No element with key k: nothing is kept. */
  lemma {:induction false} WithKeyNone<T>(s: seq<T>, key: T -> Rank, k: Rank)
    requires forall j :: 0 <= j < |s| ==> key(s[j]) != k
    ensures WithKey(s, key, k) == []
  {
    if s != [] {
      WithKeyNone(s[1..], key, k);
    }
  }

  lemma {:induction false} WithKeyAppend<T>(a: seq<T>, b: seq<T>, key: T -> Rank, k: Rank)
    ensures WithKey(a + b, key, k) == WithKey(a, key, k) + WithKey(b, key, k)
  {
    if a == [] {
      assert a + b == b;
    } else {
      var head := if key(a[0]) == k then [a[0]] else [];
      assert (a + b)[0] == a[0] && (a + b)[1..] == a[1..] + b;
      calc {
        WithKey(a + b, key, k);
        head + WithKey(a[1..] + b, key, k);
        { WithKeyAppend(a[1..], b, key, k); }
        head + (WithKey(a[1..], key, k) + WithKey(b, key, k));
        (head + WithKey(a[1..], key, k)) + WithKey(b, key, k);
      }
    }
  }

  /** Inserting into a sorted list puts x behind every element with the
      same key and leaves their order alone. */
  lemma {:induction false} InsertWithKey<T>(r: seq<T>, x: T, key: T -> Rank, k: Rank)
    requires Descending(r, key)
    ensures WithKey(Insert(r, x, key), key, k) == WithKey(r, key, k) + (if key(x) == k then [x] else [])
  {
    if r == [] {
      assert Insert(r, x, key) == [x] && r + [x] == [x];
      WithKeyAppend(r, [x], key, k);
    } else if Above(key(x), key(r[0])) {
      InsertWithKeyFront(r, x, key, k);
    } else {
      assert Descending(r[1..], key);
      InsertWithKey(r[1..], x, key, k);
      InsertWithKeyBehind(r, x, key, k);
    }
  }

  lemma InsertWithKeyFront<T>(r: seq<T>, x: T, key: T -> Rank, k: Rank)
    requires Descending(r, key) && r != [] && Above(key(x), key(r[0]))
    ensures WithKey(Insert(r, x, key), key, k) == WithKey(r, key, k) + (if key(x) == k then [x] else [])
  {
    var q := Insert(r, x, key);
    assert q == [x] + r && q[0] == x && q[1..] == r;
    if key(x) == k {
      forall j | 0 <= j < |r| ensures key(r[j]) != k {
        assert !Above(key(r[j]), key(r[0]));
      }
      WithKeyNone(r, key, k);
    }
  }

  lemma InsertWithKeyBehind<T>(r: seq<T>, x: T, key: T -> Rank, k: Rank)
    requires r != [] && !Above(key(x), key(r[0]))
    requires WithKey(Insert(r[1..], x, key), key, k) == WithKey(r[1..], key, k) + (if key(x) == k then [x] else [])
    ensures WithKey(Insert(r, x, key), key, k) == WithKey(r, key, k) + (if key(x) == k then [x] else [])
  {
    var q := Insert(r, x, key);
    var head := if key(r[0]) == k then [r[0]] else [];
    assert q[0] == r[0] && q[1..] == Insert(r[1..], x, key);
    assert WithKey(q, key, k) == head + WithKey(q[1..], key, k);
    assert WithKey(r, key, k) == head + WithKey(r[1..], key, k);
    AppendAssoc(head, WithKey(r[1..], key, k), if key(x) == k then [x] else []);
  }

  lemma AppendAssoc<T>(a: seq<T>, b: seq<T>, c: seq<T>)
    ensures a + (b + c) == (a + b) + c
  {
  }

  /** The sort is stable: the elements with any one key come out in the
      order they went in. */
  lemma {:induction false} SortDescStable<T>(s: seq<T>, key: T -> Rank, k: Rank)
    ensures WithKey(SortDesc(s, key), key, k) == WithKey(s, key, k)
    decreases |s|
  {
    if s != [] {
      var init, last := s[..|s| - 1], s[|s| - 1];
      var tail := if key(last) == k then [last] else [];
      assert s == init + [last];
      assert WithKey([last], key, k) == tail + WithKey([], key, k);
      calc {
        WithKey(SortDesc(s, key), key, k);
        WithKey(Insert(SortDesc(init, key), last, key), key, k);
        { InsertWithKey(SortDesc(init, key), last, key, k); }
        WithKey(SortDesc(init, key), key, k) + tail;
        { SortDescStable(init, key, k); }
        WithKey(init, key, k) + WithKey([last], key, k);
        { WithKeyAppend(init, [last], key, k); }
        WithKey(s, key, k);
      }
    }
  }

  /** Keeping the first n of a sorted list keeps, among the elements with
      any one key, the ones that came first. */
  lemma SelectionStable<T>(s: seq<T>, key: T -> Rank, n: nat, k: Rank)
    ensures WithKey(Take(SortDesc(s, key), n), key, k) <= WithKey(s, key, k)
  {
    var r := SortDesc(s, key);
    var kept := Take(r, n);
    var rest := r[|kept|..];
    assert r == kept + rest;
    WithKeyAppend(kept, rest, key, k);
    SortDescStable(s, key, k);
    PrefixOfAppend(WithKey(kept, key, k), WithKey(rest, key, k));
  }

  lemma PrefixOfAppend<T>(a: seq<T>, b: seq<T>)
    ensures a <= a + b
  {
    assert (a + b)[..|a|] == a;
  }

  /** An element no larger than any already sorted one goes to the end. */
  lemma {:induction false} InsertLast<T>(r: seq<T>, x: T, key: T -> Rank)
    requires forall k :: 0 <= k < |r| ==> !Above(key(x), key(r[k]))
    ensures Insert(r, x, key) == r + [x]
  {
    if r != [] {
      InsertLast(r[1..], x, key);
      assert r == [r[0]] + r[1..];
    }
  }

  /** Sorting an already sorted list leaves it as it is. */
  lemma {:induction false} SortDescSorted<T>(s: seq<T>, key: T -> Rank)
    requires Descending(s, key)
    ensures SortDesc(s, key) == s
    decreases |s|
  {
    if s != [] {
      var init := s[..|s| - 1];
      assert Descending(init, key);
      SortDescSorted(init, key);
      InsertLast(init, s[|s| - 1], key);
      assert init + [s[|s| - 1]] == s;
    }
  }

  /** Sorting a list with one more element at its end inserts that element
      into the sorted list. */
  lemma SortDescSnoc<T>(s: seq<T>, x: T, key: T -> Rank)
    ensures SortDesc(s + [x], key) == Insert(SortDesc(s, key), x, key)
  {
    assert (s + [x])[..|s|] == s;
  }

  lemma TakeCons<T>(y: T, s: seq<T>, k: nat)
    requires k > 0
    ensures Take([y] + s, k) == [y] + Take(s, k - 1)
  {
  }

  /** Keeping only the first k after an insertion does not depend on the
      elements beyond the first k before it. */
  lemma {:induction false} TakeInsert<T>(s: seq<T>, x: T, key: T -> Rank, k: nat)
    ensures Take(Insert(s, x, key), k) == Take(Insert(Take(s, k), x, key), k)
    decreases |s|
  {
    if k == 0 {
      assert Take(Insert(s, x, key), k) == [];
      assert Take(Insert(Take(s, k), x, key), k) == [];
    } else if s == [] {
      assert Take(s, k) == s;
    } else {
      if Above(key(x), key(s[0])) {
        TakeInsertFront(s, x, key, k);
      } else {
        TakeInsert(s[1..], x, key, k - 1);
        TakeInsertBehind(s, x, key, k);
      }
    }
  }

  /** The first k of a non-empty list are its head and the first k - 1 of
      its tail. */
  lemma TakeHead<T>(s: seq<T>, k: nat)
    requires k > 0 && s != []
    ensures Take(s, k) == [s[0]] + Take(s[1..], k - 1)
  {
    assert s == [s[0]] + s[1..];
    TakeCons(s[0], s[1..], k);
  }

  lemma TakeInsertFront<T>(s: seq<T>, x: T, key: T -> Rank, k: nat)
    requires k > 0 && s != [] && Above(key(x), key(s[0]))
    ensures Take(Insert(s, x, key), k) == Take(Insert(Take(s, k), x, key), k)
  {
    var t := Take(s, k);
    TakeHead(s, k);
    assert Insert(s, x, key) == [x] + s;
    assert Insert(t, x, key) == [x] + t;
    TakeCons(x, s, k);
    TakeCons(x, t, k);
  }

  lemma TakeInsertBehind<T>(s: seq<T>, x: T, key: T -> Rank, k: nat)
    requires k > 0 && s != [] && !Above(key(x), key(s[0]))
    requires Take(Insert(s[1..], x, key), k - 1) == Take(Insert(Take(s[1..], k - 1), x, key), k - 1)
    ensures Take(Insert(s, x, key), k) == Take(Insert(Take(s, k), x, key), k)
  {
    var t := Take(s, k);
    TakeHead(s, k);
    assert t[0] == s[0] && t[1..] == Take(s[1..], k - 1);
    assert Insert(s, x, key) == [s[0]] + Insert(s[1..], x, key);
    assert Insert(t, x, key) == [s[0]] + Insert(t[1..], x, key);
    TakeCons(s[0], Insert(s[1..], x, key), k);
    TakeCons(s[0], Insert(t[1..], x, key), k);
  }

  /** Re-sorting the kept k together with a newcomer and keeping k again,
      as a running selection does, keeps the same entries as sorting
      everything seen so far at once and keeping k. */
  lemma RunningSelection<T>(all: seq<T>, x: T, key: T -> Rank, k: nat)
    ensures Take(SortDesc(Take(SortDesc(all, key), k) + [x], key), k) == Take(SortDesc(all + [x], key), k)
  {
    var kept := Take(SortDesc(all, key), k);
    assert Descending(kept, key);
    SortDescSnoc(kept, x, key);
    SortDescSorted(kept, key);
    TakeInsert(SortDesc(all, key), x, key, k);
    SortDescSnoc(all, x, key);
  }

  /** The first min(k, |s|) elements of s (Python's `s[:k]`). */
  function Take<T>(s: seq<T>, k: nat): (r: seq<T>)
    ensures |r| == if k < |s| then k else |s|
    ensures r <= s
  {
    if k < |s| then s[..k] else s
  }

  /** Index of the first largest element: Python's `max` returns the first
      of several equal maxima. */
  function FirstMax(xs: seq<int>): (k: nat)
    requires xs != []
    ensures k < |xs|
    ensures forall j :: 0 <= j < |xs| ==> xs[j] <= xs[k]
    ensures forall j :: 0 <= j < k ==> xs[j] < xs[k]
  {
    if |xs| == 1 then 0
    else
      var k := FirstMax(xs[..|xs| - 1]);
      assert forall j :: 0 <= j < |xs| - 1 ==> xs[..|xs| - 1][j] == xs[j];
      if xs[|xs| - 1] > xs[k] then |xs| - 1 else k
  }

  /** Index of the first smallest element: Python's `min` returns the first
      of several equal minima. */
  function FirstMin(xs: seq<real>): (k: nat)
    requires xs != []
    ensures k < |xs|
    ensures forall j :: 0 <= j < |xs| ==> xs[k] <= xs[j]
    ensures forall j :: 0 <= j < k ==> xs[k] < xs[j]
  {
    if |xs| == 1 then 0
    else
      var k := FirstMin(xs[..|xs| - 1]);
      assert forall j :: 0 <= j < |xs| - 1 ==> xs[..|xs| - 1][j] == xs[j];
      if xs[|xs| - 1] < xs[k] then |xs| - 1 else k
  }
}
