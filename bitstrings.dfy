/** The weekly time grid shared by both scheduling engines and the views:
    a week is 7 day strings of 96 quarter-hour slots. In an availability
    string '0' means free and '1' busy; in a schedule '1' means assigned. */
module Bitstrings {

  const BitsPerDay: nat := 96
  const DaysPerWeek: nat := 7

  type Week = seq<string>

  /** Seven days of exactly 96 slots each. */
  ghost predicate WeekShape(w: Week) {
    |w| == DaysPerWeek && forall d :: 0 <= d < DaysPerWeek ==> |w[d]| == BitsPerDay
  }

  /** Every character is '0' or '1'. */
  predicate IsBinary(s: string) {
    forall i :: 0 <= i < |s| ==> s[i] == '0' || s[i] == '1'
  }

  /** A string of n copies of c. */
  function Repeat(c: char, n: nat): (r: string)
    ensures |r| == n
    ensures forall i :: 0 <= i < n ==> r[i] == c
  {
    seq(n, _ => c)
  }

  /** A week with nothing assigned: seven days of 96 '0'. */
  function EmptyWeek(): (w: Week)
    ensures WeekShape(w)
    ensures forall d, i :: 0 <= d < DaysPerWeek && 0 <= i < BitsPerDay ==> w[d][i] == '0'
  {
    seq(DaysPerWeek, _ => Repeat('0', BitsPerDay))
  }

  /** `s` is '0' on every slot of the inclusive range [a, b]. */
  ghost predicate AllFree(s: string, a: int, b: int) {
    0 <= a && b < |s| && forall i :: a <= i <= b ==> s[i] == '0'
  }

  /** (a, b) is an availability island of s: a maximal run of '0' that is
      inclusive at both ends and at least four slots (one hour) long. */
  ghost predicate IsIsland(s: string, a: int, b: int) {
    && 0 <= a <= b < |s|
    && b - a + 1 >= 4
    && AllFree(s, a, b)
    && (a == 0 || s[a - 1] != '0')
    && (b == |s| - 1 || s[b + 1] != '0')
  }

  /** r lists exactly the islands of s, in increasing order (hence pairwise disjoint). */
  ghost predicate IslandsOf(s: string, r: seq<(int, int)>) {
    && (forall k :: 0 <= k < |r| ==> IsIsland(s, r[k].0, r[k].1))
    && (forall k, l :: 0 <= k < l < |r| ==> r[k].1 < r[l].0)
    && (forall a, b :: IsIsland(s, a, b) ==> (a, b) in r)
  }

  /** The island list of a string is unique. */
  lemma IslandsOfUnique(s: string, r1: seq<(int, int)>, r2: seq<(int, int)>)
    requires IslandsOf(s, r1) && IslandsOf(s, r2)
    ensures r1 == r2
  {
    forall x | x in r1 ensures x in r2 {
      var k :| 0 <= k < |r1| && r1[k] == x;
      assert IsIsland(s, x.0, x.1);
    }
    forall x | x in r2 ensures x in r1 {
      var k :| 0 <= k < |r2| && r2[k] == x;
      assert IsIsland(s, x.0, x.1);
    }
    SameElementsSame(r1, r2);
  }

  /** Starts strictly increase along the list. */
  ghost predicate Increasing(r: seq<(int, int)>) {
    forall k, l :: 0 <= k < l < |r| ==> r[k].0 < r[l].0
  }

  lemma {:induction false} SameElementsSame(r1: seq<(int, int)>, r2: seq<(int, int)>)
    requires Increasing(r1) && Increasing(r2)
    requires forall x :: x in r1 <==> x in r2
    ensures r1 == r2
    decreases |r1|
  {
    if r1 != [] && r2 != [] {
      assert r1[0] in r1 && r2[0] in r2;
      var i :| 0 <= i < |r2| && r2[i] == r1[0];
      var j :| 0 <= j < |r1| && r1[j] == r2[0];
      if i > 0 {
        assert false;
      }
      forall x ensures x in r1[1..] <==> x in r2[1..] {
        if x in r1[1..] {
          var k :| 1 <= k < |r1| && r1[k] == x;
          assert r1[0].0 < r1[k].0;
          assert x in r2;
          var k2 :| 0 <= k2 < |r2| && r2[k2] == x;
          assert k2 != 0;
          assert r2[1..][k2 - 1] == x;
        }
        if x in r2[1..] {
          var k :| 1 <= k < |r2| && r2[k] == x;
          assert r2[0].0 < r2[k].0;
          assert x in r1;
          var k1 :| 0 <= k1 < |r1| && r1[k1] == x;
          assert k1 != 0;
          assert r1[1..][k1 - 1] == x;
        }
      }
      SameElementsSame(r1[1..], r2[1..]);
      assert r1 == [r1[0]] + r1[1..];
      assert r2 == [r2[0]] + r2[1..];
    } else if r1 != [] {
      HeadIn(r1);
      assert false;
    } else if r2 != [] {
      HeadIn(r2);
      assert false;
    }
  }

  lemma HeadIn<T>(s: seq<T>)
    ensures s != [] ==> s[0] in s
  {
  }

  /** A string of '1' only has no island. */
  lemma NoIslandsWhenBusy(s: string, r: seq<(int, int)>)
    requires forall i :: 0 <= i < |s| ==> s[i] == '1'
    requires IslandsOf(s, r)
    ensures r == []
  {
    if r != [] {
      IslandAt(s, r, 0);
      assert false;
    }
  }

  /** A fully free day is one island covering the whole day. */
  lemma WholeDayIsland(s: string, r: seq<(int, int)>)
    requires |s| == BitsPerDay && forall i :: 0 <= i < |s| ==> s[i] == '0'
    requires IslandsOf(s, r)
    ensures r == [(0, 95)]
  {
    assert IsIsland(s, 0, 95);
    IslandsOfUnique(s, r, [(0, 95)]);
  }

  /** Every listed island is free throughout. */
  lemma IslandAt(s: string, r: seq<(int, int)>, k: int)
    requires IslandsOf(s, r) && 0 <= k < |r|
    ensures 0 <= r[k].0 <= r[k].1 < |s| && s[r[k].0] == '0'
  {
  }

  /** Python's `s[i:j]`: negative bounds count from the end, and bounds are
      clipped to the string. With j < 0 <= i the slice can be longer than
      j - i suggests; for i <= j it never is. */
  function PySlice(s: string, i: int, j: int): (r: string)
    ensures |r| <= |s|
    ensures i <= j ==> |r| <= j - i
    ensures 0 <= i <= j <= |s| ==> r == s[i..j]
    ensures -|s| <= i < 0 && 0 <= j <= |s| && |s| + i <= j ==> r == s[|s| + i..j]
  {
    var lo := Clip(s, i);
    var hi := Clip(s, j);
    if lo < hi then s[lo..hi] else []
  }

  function Clip(s: string, i: int): (k: nat)
    ensures k <= |s|
  {
    if i < 0 then (if i + |s| < 0 then 0 else i + |s|) else (if i < |s| then i else |s|)
  }

  /** `s.count(c)` for a one-character c: how many positions hold c. */
  function Count(s: string, c: char): (n: nat)
    ensures n <= |s|
  {
    if s == [] then 0 else (if s[0] == c then 1 else 0) + Count(s[1..], c)
  }
}
