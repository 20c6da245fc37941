/** The availability helpers both engines carry in equivalent form on
    seven-day weeks: the island extractor, the per-employee island table and
    the zero-density ratio. */
module Islands {
  import opened Bitstrings
  import opened EngineSpec

  /** `islands_in_day`: scans the day once and records every run of '0' that
      is at least four slots long. */
  method IslandsInDay(dayBits: string) returns (islands: seq<(int, int)>)
    ensures IslandsOf(dayBits, islands)
  {
    islands := [];
    var i := 0;
    while i < |dayBits|
      invariant 0 <= i <= |dayBits|
      invariant 0 < i < |dayBits| ==> !(dayBits[i - 1] == '0' && dayBits[i] == '0')
      invariant ScanInv(dayBits, islands, i)
    {
      if dayBits[i] == '0' {
        var start := i;
        while i < |dayBits| && dayBits[i] == '0'
          invariant start <= i <= |dayBits|
          invariant forall j :: start <= j < i ==> dayBits[j] == '0'
        {
          i := i + 1;
        }
        var end := i - 1;
        ghost var before := islands;
        if end - start + 1 >= 4 {
          islands := islands + [(start, end)];
        }
        RunFound(dayBits, before, start, i, islands);
      } else {
        BusySlot(dayBits, islands, i);
        i := i + 1;
      }
    }
  }

  /** The islands found before index i: each a true island ending before i,
      in increasing order, and every island starting before i among them. */
  ghost predicate ScanInv(s: string, islands: seq<(int, int)>, i: int) {
    && (forall k :: 0 <= k < |islands| ==> IsIsland(s, islands[k].0, islands[k].1) && islands[k].1 < i)
    && (forall k, l :: 0 <= k < l < |islands| ==> islands[k].1 < islands[l].0)
    && (forall a, b :: IsIsland(s, a, b) && a < i ==> (a, b) in islands)
  }

  /** A slot that is not free starts no island. */
  lemma BusySlot(s: string, islands: seq<(int, int)>, i: int)
    requires 0 <= i < |s| && s[i] != '0' && ScanInv(s, islands, i)
    ensures ScanInv(s, islands, i + 1)
  {
    forall a, b | IsIsland(s, a, b) && a < i + 1 ensures (a, b) in islands {
      assert s[a] == '0';
    }
  }

  /** A maximal run of '0' from start to i - 1 is listed exactly when it
      lasts an hour. */
  lemma RunFound(s: string, islands: seq<(int, int)>, start: int, i: int, islands': seq<(int, int)>)
    requires 0 <= start < i <= |s| && ScanInv(s, islands, start)
    requires forall j :: start <= j < i ==> s[j] == '0'
    requires i == |s| || s[i] != '0'
    requires start == 0 || s[start - 1] != '0'
    requires islands' == if i - start >= 4 then islands + [(start, i - 1)] else islands
    ensures ScanInv(s, islands', i)
  {
    if i - start >= 4 {
      RunListed(s, islands, start, i);
    } else {
      forall a, b | IsIsland(s, a, b) && a < i ensures (a, b) in islands {
        if start <= a {
          OnlyIslandOfRun(s, start, i, a, b);
        }
      }
    }
  }

  /** A run of an hour or more is appended as the next island. */
  lemma RunListed(s: string, islands: seq<(int, int)>, start: int, i: int)
    requires 0 <= start && start + 4 <= i <= |s| && ScanInv(s, islands, start)
    requires forall j :: start <= j < i ==> s[j] == '0'
    requires i == |s| || s[i] != '0'
    requires start == 0 || s[start - 1] != '0'
    ensures ScanInv(s, islands + [(start, i - 1)], i)
  {
    var r := islands + [(start, i - 1)];
    assert IsIsland(s, start, i - 1);
    forall a, b | IsIsland(s, a, b) && a < i ensures (a, b) in r {
      if start <= a {
        OnlyIslandOfRun(s, start, i, a, b);
        assert r[|r| - 1] == (a, b);
      } else {
        assert (a, b) in islands;
      }
    }
  }

  /** The only island that starts inside a maximal run is the run itself. */
  lemma OnlyIslandOfRun(s: string, start: int, i: int, a: int, b: int)
    requires 0 <= start < i <= |s|
    requires forall j :: start <= j < i ==> s[j] == '0'
    requires i == |s| || s[i] != '0'
    requires IsIsland(s, a, b) && start <= a < i
    ensures a == start && b == i - 1
  {
    assert a <= start;
    assert b >= i - 1;
    assert b <= i - 1;
  }

  /** No employee after emps[k] and before index n has emps[k]'s id: of the
      first n employees, emps[k] is the one a dictionary keyed by id keeps. */
  ghost predicate LastWithId(emps: seq<Employee>, k: int, n: int)
    requires 0 <= k < |emps|
  {
    forall k' :: k < k' < n && k' < |emps| ==> emps[k'].id != emps[k].id
  }

  /** The island table: entry d of an employee's list is exactly the island
      list of day d of that employee's availability. */
  ghost predicate IslandTable(e: Employee, days: seq<seq<(int, int)>>) {
    |days| == |e.availability| && forall d :: 0 <= d < |days| ==> IslandsOf(e.availability[d], days[d])
  }

  /** The inner loop of the extractor: the islands of every day of e. */
  method DayIslands(e: Employee) returns (days: seq<seq<(int, int)>>)
    ensures IslandTable(e, days)
  {
    days := [];
    var d := 0;
    while d < |e.availability|
      invariant 0 <= d <= |e.availability| && |days| == d
      invariant forall dd :: 0 <= dd < d ==> IslandsOf(e.availability[dd], days[dd])
    {
      var islands := IslandsInDay(e.availability[d]);
      days := days + [islands];
      d := d + 1;
    }
  }

  lemma IdsSnoc(s: seq<Employee>, e: Employee)
    ensures Ids(s + [e]) == Ids(s) + {e.id}
  {
    assert forall x :: x in s + [e] <==> x in s || x == e;
  }

  /** Entering emps[n] keeps the entries of the employees before it that no
      one up to n overwrote. */
  lemma TableStep(emps: seq<Employee>, n: int, table: map<EmpId, seq<seq<(int, int)>>>, days: seq<seq<(int, int)>>)
    requires 0 <= n < |emps| && IslandTable(emps[n], days)
    requires forall k :: 0 <= k < n && LastWithId(emps, k, n) ==> emps[k].id in table && IslandTable(emps[k], table[emps[k].id])
    ensures forall k :: 0 <= k < n + 1 && LastWithId(emps, k, n + 1) ==>
              emps[k].id in table[emps[n].id := days] && IslandTable(emps[k], table[emps[n].id := days][emps[k].id])
  {
    forall k | 0 <= k < n + 1 && LastWithId(emps, k, n + 1)
      ensures emps[k].id in table[emps[n].id := days] && IslandTable(emps[k], table[emps[n].id := days][emps[k].id])
    {
      if k < n {
        assert emps[k].id != emps[n].id;
        assert LastWithId(emps, k, n);
      }
    }
  }

  /** `extract_employee_availability_islands`: one entry per employee id,
      holding the islands of each day; for a repeated id the later employee
      overwrites the earlier. */
  method ExtractAvailabilityIslands(emps: seq<Employee>) returns (table: map<EmpId, seq<seq<(int, int)>>>)
    ensures table.Keys == Ids(emps)
    ensures forall k :: 0 <= k < |emps| && LastWithId(emps, k, |emps|) ==> IslandTable(emps[k], table[emps[k].id])
  {
    table := map[];
    var n := 0;
    while n < |emps|
      invariant 0 <= n <= |emps|
      invariant table.Keys == Ids(emps[..n])
      invariant forall k :: 0 <= k < n && LastWithId(emps, k, n) ==> emps[k].id in table && IslandTable(emps[k], table[emps[k].id])
    {
      var e := emps[n];
      var days := DayIslands(e);
      ghost var old_table := table;
      table := table[e.id := days];
      assert emps[..n + 1] == emps[..n] + [e];
      IdsSnoc(emps[..n], e);
      TableStep(emps, n, old_table, days);
      n := n + 1;
    }
    assert emps[..n] == emps;
  }

  /** Every employee finds its own islands in a table the extractor built:
      the last employee with a given id is the one stored under it, and
      with distinct ids every employee is the last with its id. */
  lemma TableCovers(emps: seq<Employee>, table: map<EmpId, seq<seq<(int, int)>>>)
    requires DistinctIds(emps) && table.Keys == Ids(emps)
    requires forall k :: 0 <= k < |emps| && LastWithId(emps, k, |emps|) ==> IslandTable(emps[k], table[emps[k].id])
    ensures forall x :: x in emps ==> x.id in table && IslandTable(x, table[x.id])
  {
    forall x | x in emps ensures x.id in table && IslandTable(x, table[x.id]) {
      var k :| 0 <= k < |emps| && emps[k] == x;
      assert LastWithId(emps, k, |emps|);
    }
  }

  /** Every employee has a day d. */
  ghost predicate HasDay(emps: seq<Employee>, d: int) {
    forall i :: 0 <= i < |emps| ==> 0 <= d < |emps[i].availability|
  }

  /** `avail_str[x:y+1].count('0')` summed over the employees. */
  function TotalZeros(emps: seq<Employee>, x: int, y: int, d: int): (n: nat)
    requires HasDay(emps, d)
    ensures x <= y + 1 ==> n <= (y - x + 1) * |emps|
  {
    if emps == [] then 0
    else
      var here := Count(PySlice(emps[0].availability[d], x, y + 1), '0');
      var rest := TotalZeros(emps[1..], x, y, d);
      assert (y - x + 1) * |emps| == (y - x + 1) + (y - x + 1) * (|emps| - 1);
      here + rest
  }

  lemma HasDayPrefix(emps: seq<Employee>, d: int, k: int)
    requires HasDay(emps, d) && 0 <= k <= |emps|
    ensures HasDay(emps[..k], d)
  {
    forall i | 0 <= i < k ensures 0 <= d < |emps[..k][i].availability| {
      assert emps[..k][i] == emps[i];
    }
  }

  /** The running total grows by the last employee's count. */
  lemma {:induction false} TotalZerosSnoc(emps: seq<Employee>, x: int, y: int, d: int)
    requires emps != [] && HasDay(emps, d)
    ensures TotalZeros(emps, x, y, d)
            == TotalZeros(emps[..|emps| - 1], x, y, d) + Count(PySlice(emps[|emps| - 1].availability[d], x, y + 1), '0')
  {
    if |emps| > 1 {
      assert HasDay(emps[1..], d) by {
        forall i | 0 <= i < |emps| - 1 ensures 0 <= d < |emps[1..][i].availability| {
          assert emps[1..][i] == emps[i + 1];
          assert 0 <= d < |emps[i + 1].availability|;
        }
      }
      var init := emps[..|emps| - 1];
      assert emps[1..][..|emps[1..]| - 1] == init[1..];
      assert emps[1..][|emps[1..]| - 1] == emps[|emps| - 1];
      TotalZerosSnoc(emps[1..], x, y, d);
      HasDayPrefix(emps, d, |emps| - 1);
      assert init[0] == emps[0];
      assert TotalZeros(init, x, y, d) == Count(PySlice(emps[0].availability[d], x, y + 1), '0') + TotalZeros(init[1..], x, y, d);
    } else {
      assert emps[..|emps| - 1] == [] && emps[1..] == [];
    }
  }

  /** The zero density of slots x..y of day d: the fraction of free
      employee-slots, and 0 when there are no slots to count. */
  function ZeroDensity(emps: seq<Employee>, x: int, y: int, d: int): (r: real)
    requires HasDay(emps, d)
    ensures 0.0 <= r <= 1.0
  {
    var slots := (y - x + 1) * |emps|;
    if slots > 0 then
      PositiveFactor(y - x + 1, |emps|);
      FractionAtMostOne(TotalZeros(emps, x, y, d), slots);
      TotalZeros(emps, x, y, d) as real / slots as real
    else 0.0
  }

  lemma PositiveFactor(a: int, b: nat)
    requires a * b > 0
    ensures a > 0
  {
  }

  lemma FractionAtMostOne(a: nat, b: int)
    requires 0 < b && a <= b
    ensures 0.0 <= a as real / b as real <= 1.0
  {
  }

  /** `compute_zero_density`: adds up the free slots of x..y over every
      employee's day d and divides by the slot count. */
  method ComputeZeroDensity(emps: seq<Employee>, x: int, y: int, d: int) returns (r: real)
    requires HasDay(emps, d)
    ensures r == ZeroDensity(emps, x, y, d)
    ensures 0.0 <= r <= 1.0
  {
    var totalZeros := 0;
    var k := 0;
    HasDayPrefix(emps, d, 0);
    while k < |emps|
      invariant 0 <= k <= |emps| && HasDay(emps[..k], d)
      invariant totalZeros == TotalZeros(emps[..k], x, y, d)
    {
      HasDayPrefix(emps, d, k + 1);
      TotalZerosSnoc(emps[..k + 1], x, y, d);
      assert emps[..k + 1][..k] == emps[..k];
      totalZeros := totalZeros + Count(PySlice(emps[k].availability[d], x, y + 1), '0');
      k := k + 1;
    }
    assert emps[..k] == emps;
    var totalSlots := (y - x + 1) * |emps|;
    if totalSlots > 0 {
      r := totalZeros as real / totalSlots as real;
    } else {
      r := 0.0;
    }
  }
}
