/** The earlier, randomised scheduling engine: every employee, in random
    order, gets on randomly ordered valid days either nothing or one whole
    availability island. Each random draw is a nondeterministic choice, so
    every property below holds for every outcome of the generator. */
module RandomEngine {
  import opened Bitstrings
  import opened EngineSpec
  import opened Islands
  import opened Sorting

  /** The constructor's defaults: 200 man-hours, every day, slots 28..88. */
  const DefaultMaxManHours: int := 200
  const AllDays: set<int> := {0, 1, 2, 3, 4, 5, 6}
  const DefaultWorkHours: (int, int) := (28, 88)

  /** `random.randint(0, 1) < 0.5`: the day is skipped. */
  predicate SkipsDay(draw: int) {
    (draw as real) < 0.5
  }

  /** `random.randint(0, 1) < 0.75`: the low-density island is taken. */
  predicate PicksLowDensity(draw: int) {
    (draw as real) < 0.75
  }

  /** Both thresholds split the two outcomes of `randint(0, 1)` the same way:
      each holds for the draw 0 only, so each happens half of the time. */
  lemma CoinsAreFair(draw: int)
    requires draw == 0 || draw == 1
    ensures SkipsDay(draw) <==> draw == 0
    ensures PicksLowDensity(draw) <==> draw == 0
    ensures SkipsDay(draw) == PicksLowDensity(draw)
  {
  }

  /** A fresh 96-slot day with exactly slots a..b set to '1'. */
  function IslandDay(a: int, b: int): (s: string)
    ensures |s| == BitsPerDay
    ensures forall i :: 0 <= i < BitsPerDay ==> (s[i] == '1' <==> a <= i <= b)
    ensures forall i :: 0 <= i < BitsPerDay ==> s[i] == '0' || s[i] == '1'
  {
    Fill(Repeat('0', BitsPerDay), a, b)
  }

  /** What a day of an employee's result may be: untouched, or (on a valid
      day only) one whole island of that day's availability. */
  ghost predicate DayOutcome(e: Employee, validDays: set<int>, d: int, s: string)
    requires 0 <= d < |e.availability|
  {
    || s == Repeat('0', BitsPerDay)
    || (d in validDays && exists a, b :: IsIsland(e.availability[d], a, b) && s == IslandDay(a, b))
  }

  /** The week an employee receives. */
  ghost predicate Scheduled(e: Employee, validDays: set<int>, w: Week) {
    && WeekShape(w) && WeekShape(e.availability)
    && forall d :: 0 <= d < DaysPerWeek ==> DayOutcome(e, validDays, d, w[d])
  }

  /** A scheduled week assigns only free slots of valid days, and on each day
      a single contiguous run that is a whole island. */
  lemma OnesAreFree(e: Employee, validDays: set<int>, w: Week, d: int, i: int)
    requires Scheduled(e, validDays, w) && 0 <= d < DaysPerWeek && 0 <= i < BitsPerDay
    requires w[d][i] == '1'
    ensures d in validDays && e.availability[d][i] == '0'
    ensures exists a, b :: IsIsland(e.availability[d], a, b) && a <= i <= b
                           && forall j :: 0 <= j < BitsPerDay ==> (w[d][j] == '1' <==> a <= j <= b)
  {
    assert w[d] != Repeat('0', BitsPerDay) by {
      assert Repeat('0', BitsPerDay)[i] == '0';
    }
    var a, b :| IsIsland(e.availability[d], a, b) && w[d] == IslandDay(a, b);
    assert a <= i <= b;
  }

  /** An untouched day has no slot assigned. */
  lemma EmptyWeekScheduled(e: Employee, validDays: set<int>)
    requires WeekShape(e.availability)
    ensures Scheduled(e, validDays, EmptyWeek())
  {
    forall d | 0 <= d < DaysPerWeek ensures EmptyWeek()[d] == Repeat('0', BitsPerDay) {
      assert EmptyWeek()[d] == Repeat('0', BitsPerDay);
    }
  }

  /** Giving a valid day one whole island keeps the week a possible outcome. */
  lemma ScheduledUpdate(e: Employee, validDays: set<int>, w: Week, d: int, a: int, b: int)
    requires Scheduled(e, validDays, w) && d in validDays && 0 <= d < DaysPerWeek
    requires IsIsland(e.availability[d], a, b)
    ensures Scheduled(e, validDays, w[d := IslandDay(a, b)])
  {
    var w' := w[d := IslandDay(a, b)];
    forall x | 0 <= x < DaysPerWeek ensures DayOutcome(e, validDays, x, w'[x]) {
      if x == d {
        assert IsIsland(e.availability[d], a, b) && w'[x] == IslandDay(a, b);
      } else {
        assert w'[x] == w[x];
      }
    }
  }

  /** Every employee of a well-formed list has all seven days. */
  lemma EveryDayPresent(emps: seq<Employee>)
    requires WellFormed(emps)
    ensures forall d :: 0 <= d < DaysPerWeek ==> HasDay(emps, d)
  {
    forall d | 0 <= d < DaysPerWeek ensures HasDay(emps, d) {
      forall i | 0 <= i < |emps| ensures 0 <= d < |emps[i].availability| {
        assert emps[i] in emps;
      }
    }
  }

  /** Pairwise different elements: a set listed as `list(s)` lists it. */
  ghost predicate Distinct<T>(s: seq<T>) {
    forall a, b :: 0 <= a < b < |s| ==> s[a] != s[b]
  }

  /** Taking element i out of a list of distinct elements removes exactly
      that element from the set it lists. */
  lemma RemoveAt<T>(s: seq<T>, i: int)
    requires Distinct(s) && 0 <= i < |s|
    ensures Distinct(s[..i] + s[i + 1..])
    ensures forall x :: x in s[..i] + s[i + 1..] <==> x in s && x != s[i]
  {
    var r := s[..i] + s[i + 1..];
    assert forall a :: 0 <= a < |r| ==> r[a] == if a < i then s[a] else s[a + 1];
    forall x | x in s && x != s[i] ensures x in r {
      var a :| 0 <= a < |s| && s[a] == x;
      if a < i {
        assert r[a] == x;
      } else {
        assert r[a - 1] == x;
      }
    }
  }

  /** The ids of the employees, in their order. */
  function IdList(emps: seq<Employee>): (ids: seq<EmpId>)
    ensures |ids| == |emps|
    ensures forall x :: x in ids <==> x in Ids(emps)
    ensures DistinctIds(emps) ==> Distinct(ids)
  {
    var ids := seq(|emps|, i requires 0 <= i < |emps| => emps[i].id);
    assert forall x :: x in Ids(emps) ==> x in ids by {
      forall x | x in Ids(emps) ensures x in ids {
        var e :| e in emps && e.id == x;
        var i :| 0 <= i < |emps| && emps[i] == e;
        assert ids[i] == x;
      }
    }
    ids
  }

  /** The valid days as `enumerate(DAYS_OF_WEEK)` lists them. */
  function ValidDayList(validDays: set<int>): (days: seq<int>)
    ensures forall k :: 0 <= k < |days| ==> 0 <= days[k] < DaysPerWeek && days[k] in validDays
    ensures forall d :: 0 <= d < DaysPerWeek && d in validDays ==> d in days
  {
    DaysFrom(0, validDays)
  }

  function DaysFrom(d: nat, validDays: set<int>): (days: seq<int>)
    requires d <= DaysPerWeek
    ensures forall k :: 0 <= k < |days| ==> d <= days[k] < DaysPerWeek && days[k] in validDays
    ensures forall x :: d <= x < DaysPerWeek && x in validDays ==> x in days
    decreases DaysPerWeek - d
  {
    if d == DaysPerWeek then []
    else if d in validDays then [d] + DaysFrom(d + 1, validDays)
    else DaysFrom(d + 1, validDays)
  }

  class ScheduleEngine {
    const employees: seq<Employee>
    const maxManHours: int
    /** Valid days as indices into the week (0 = the first day of `DAYS_OF_WEEK`). */
    const validWorkDays: set<int>
    const validWorkHours: (int, int)

    /** Stores the parameters; there is no seed, no coverage and no counter. */
    constructor(employees: seq<Employee>, maxManHours: int := DefaultMaxManHours,
                validWorkDays: set<int> := AllDays, validWorkHours: (int, int) := DefaultWorkHours)
      ensures this.employees == employees && this.maxManHours == maxManHours
      ensures this.validWorkDays == validWorkDays && this.validWorkHours == validWorkHours
    {
      this.employees := employees;
      this.maxManHours := maxManHours;
      this.validWorkDays := validWorkDays;
      this.validWorkHours := validWorkHours;
    }

    /** The zero density the engine ranks an island of day d by. */
    ghost function Density(island: (int, int), d: int): real
      requires HasDay(employees, d)
    {
      ZeroDensity(employees, island.0, island.1, d)
    }

    /** The ranking key of every island, in list order. */
    method IslandDensities(islands: seq<(int, int)>, d: int) returns (densities: seq<real>)
      requires HasDay(employees, d)
      ensures |densities| == |islands|
      ensures forall i :: 0 <= i < |islands| ==> densities[i] == Density(islands[i], d)
    {
      densities := [];
      var j := 0;
      while j < |islands|
        invariant 0 <= j <= |islands| && |densities| == j
        invariant forall i :: 0 <= i < j ==> densities[i] == Density(islands[i], d)
      {
        var density := ComputeZeroDensity(employees, islands[j].0, islands[j].1, d);
        densities := densities + [density];
        j := j + 1;
      }
    }

    /** The island choice on one day: a random island, replaced by the first
        island of lowest zero density when the second draw says so. */
    method PickIsland(islands: seq<(int, int)>, d: int) returns (chosen: (int, int), lowDensity: bool, ghost k: nat)
      requires islands != [] && HasDay(employees, d)
      ensures k < |islands| && chosen == islands[k]
      ensures lowDensity ==> forall j :: 0 <= j < |islands| ==> Density(chosen, d) <= Density(islands[j], d)
      ensures lowDensity ==> forall j :: 0 <= j < k ==> Density(islands[j], d) > Density(chosen, d)
    {
      var draw :| draw in {0, 1};
      lowDensity := PicksLowDensity(draw);
      var densities := IslandDensities(islands, d);
      var lowest := FirstMin(densities);
      assert islands[0] in islands;
      chosen :| chosen in islands;
      k :| 0 <= k < |islands| && islands[k] == chosen;
      if lowDensity {
        k := lowest;
        chosen := islands[lowest];
      }
    }

    /** The inner loop for one employee: valid days in random order, each
        skipped when it has no island or by a coin, otherwise replaced by a
        fresh day holding the chosen island. */
    method ScheduleEmployee(ghost e: Employee, days: seq<seq<(int, int)>>) returns (week: Week)
      requires e in employees && WellFormed(employees) && IslandTable(e, days)
      ensures Scheduled(e, validWorkDays, week)
    {
      assert WeekShape(e.availability);
      EveryDayPresent(employees);
      var validDays := ValidDayList(validWorkDays);
      week := EmptyWeek();
      EmptyWeekScheduled(e, validWorkDays);
      while validDays != []
        invariant forall k :: 0 <= k < |validDays| ==> 0 <= validDays[k] < DaysPerWeek && validDays[k] in validWorkDays
        invariant Scheduled(e, validWorkDays, week)
        decreases |validDays|
      {
        var i :| 0 <= i < |validDays|;
        var d := validDays[i];
        validDays := validDays[..i] + validDays[i + 1..];
        week := ScheduleDay(e, days, week, d);
      }
    }

    /** One valid day: left as it is when it has no island or the coin says
        skip, otherwise replaced by one whole island. */
    method ScheduleDay(ghost e: Employee, days: seq<seq<(int, int)>>, week: Week, d: int) returns (week': Week)
      requires IslandTable(e, days) && Scheduled(e, validWorkDays, week)
      requires 0 <= d < DaysPerWeek && d in validWorkDays && HasDay(employees, d)
      ensures Scheduled(e, validWorkDays, week')
    {
      week' := week;
      var islands := days[d];
      if islands != [] {
        var skip :| skip in {0, 1};
        if !SkipsDay(skip) {
          var chosen, lowDensity, k := PickIsland(islands, d);
          assert IsIsland(e.availability[d], chosen.0, chosen.1);
          ScheduledUpdate(e, validWorkDays, week, d, chosen.0, chosen.1);
          week' := week[d := IslandDay(chosen.0, chosen.1)];
        }
      }
    }

    /** `schedule`: every employee id, in random order, receives a week. */
    method Schedule() returns (result: map<EmpId, Week>)
      requires WellFormed(employees)
      ensures result.Keys == Ids(employees)
      ensures forall e :: e in employees ==> Scheduled(e, validWorkDays, result[e.id])
    {
      var table := ExtractAvailabilityIslands(employees);
      TableCovers(employees, table);
      result := map[];
      var pending := IdList(employees);
      while pending != []
        invariant Distinct(pending) && result.Keys <= Ids(employees)
        invariant forall x :: x in pending <==> x in Ids(employees) && x !in result
        invariant forall e :: e in employees && e.id in result ==> Scheduled(e, validWorkDays, result[e.id])
        decreases |pending|
      {
        var i :| 0 <= i < |pending|;
        var id := pending[i];
        assert id in pending && id in Ids(employees);
        RemoveAt(pending, i);
        pending := pending[..i] + pending[i + 1..];
        ghost var e :| e in employees && e.id == id;
        var week := ScheduleEmployee(e, table[id]);
        forall x | x in employees && x.id == id ensures x == e {
          SameIdSame(employees, x, e);
        }
        result := result[id := week];
      }
    }
  }
}
