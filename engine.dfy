/** The current scheduling engine: a deterministic two-pass greedy that
    hands out quarter-hour slots to employees, first in groups of
    `min_staff_per_shift` who share a free island, then one by one to fill
    the remaining hours. */
module Engine {
  import opened Wrappers
  import opened Bitstrings
  import opened Sorting
  import opened EngineSpec
  import opened Islands

  /** The constructor's defaults: a 200 hour budget, every day of the week,
      slots 28..83 (7 AM to 9 PM) and one employee per slot. */
  const DefaultMaxManHours: int := 200
  const DefaultWorkDays: set<int> := {0, 1, 2, 3, 4, 5, 6}
  const DefaultWorkHours: (int, int) := (28, 83)
  const DefaultMinStaff: nat := 1

  // ---------------------------------------------------------------------
  // The list expressions of `schedule`

  /** `hours[id]`, total so that it can sit inside a sort key. */
  function Lookup(m: map<EmpId, real>, id: EmpId): real {
    if id in m then m[id] else 0.0
  }

  /** The initial order: `(priority, f1_status)`, largest first. */
  function PriorityKey(e: Employee): Rank {
    Rank(e.priority as real, if e.f1Status then 1 else 0)
  }

  /** The first pass's order: remaining hours, largest first. */
  function HoursLeftKey(remaining: map<EmpId, real>): Employee -> Rank {
    (e: Employee) => Rank(Lookup(remaining, e.id), 0)
  }

  /** The second pass's order: `(remaining hours, priority)`, largest first. */
  function FillOrderKey(remaining: map<EmpId, real>): Employee -> Rank {
    (e: Employee) => Rank(Lookup(remaining, e.id), e.priority)
  }

  /** `[emp for emp in s if remaining_hours[emp.employee_id] > 0]`. */
  function WithHoursLeft(s: seq<Employee>, remaining: map<EmpId, real>): (r: seq<Employee>)
    ensures forall e :: e in r <==> e in s && Lookup(remaining, e.id) > 0.0
    ensures |r| <= |s|
  {
    if s == [] then []
    else (if Lookup(remaining, s[0].id) > 0.0 then [s[0]] else []) + WithHoursLeft(s[1..], remaining)
  }

  /** `[emp for emp in s if emp not in group]`. */
  function Without(s: seq<Employee>, group: seq<Employee>): (r: seq<Employee>)
    ensures forall e :: e in r <==> e in s && e !in group
    ensures |r| <= |s|
    ensures s != [] && s[0] in group ==> |r| < |s|
  {
    if s == [] then []
    else (if s[0] in group then [] else [s[0]]) + Without(s[1..], group)
  }

  /** The common availability of two day strings: '0' where both are '0',
      as long as the shorter one (`zip`). */
  function ZipAnd(a: string, b: string): string
  {
    var n := if |a| <= |b| then |a| else |b|;
    seq(n, i requires 0 <= i < n => if a[i] == '0' && b[i] == '0' then '0' else '1')
  }

  /** Island lengths minus one, the key of `max(islands, key=lambda x: x[1] - x[0])`. */
  function Spans(islands: seq<(int, int)>): seq<int>
  {
    seq(|islands|, k requires 0 <= k < |islands| => islands[k].1 - islands[k].0)
  }

  // ---------------------------------------------------------------------
  // Island scoring

  /** An island cut to the valid work hours [lo, hi]. */
  function Clamp(island: (int, int), lo: int, hi: int): (int, int) {
    (if island.0 < lo then lo else island.0, if island.1 > hi then hi else island.1)
  }

  /** The island is still at least an hour long once clamped. */
  predicate Fits(island: (int, int), lo: int, hi: int) {
    var c := Clamp(island, lo, hi);
    c.1 - c.0 + 1 >= 4
  }

  function Pow10(n: nat): (r: nat)
    ensures r >= 1
  {
    if n == 0 then 1 else 10 * Pow10(n - 1)
  }

  /** The smallest counter of a non-empty list (`min(coverage)`). */
  function MinOf(xs: seq<int>): (m: int)
    requires xs != []
    ensures m in xs
    ensures forall i :: 0 <= i < |xs| ==> m <= xs[i]
  {
    if |xs| == 1 then xs[0]
    else
      var rest := MinOf(xs[1..]);
      assert forall i :: 1 <= i < |xs| ==> xs[i] == xs[1..][i - 1];
      if xs[0] <= rest then xs[0] else rest
  }

  /** The score of a clamped island c of day `day`: its length, times ten to
      the number of employees its least-covered slot still lacks. */
  function IslandScore(cov: seq<seq<int>>, day: int, c: (int, int), minStaff: nat): int
    requires 0 <= day < |cov| && 0 <= c.0 <= c.1 < |cov[day]|
  {
    var lack := minStaff - MinOf(cov[day][c.0..c.1 + 1]);
    (c.1 - c.0 + 1) * Pow10(if lack > 0 then lack else 0)
  }

  /** Islands of a 96-slot day. */
  ghost predicate InDay(islands: seq<(int, int)>) {
    forall k :: 0 <= k < |islands| ==> 0 <= islands[k].0 && islands[k].1 < BitsPerDay
  }

  /** islands[k] fits and scores highest among the islands that fit, and
      strictly higher than every fitting island before it. */
  ghost predicate BestAt(cov: seq<seq<int>>, day: int, lo: int, hi: int, minStaff: nat,
                         islands: seq<(int, int)>, k: int)
    requires CoverageShape(cov) && 0 <= day < DaysPerWeek && InDay(islands)
  {
    && 0 <= k < |islands| && Fits(islands[k], lo, hi)
    && (forall j :: 0 <= j < |islands| && Fits(islands[j], lo, hi) ==>
          IslandScore(cov, day, Clamp(islands[j], lo, hi), minStaff) <= IslandScore(cov, day, Clamp(islands[k], lo, hi), minStaff))
    && (forall j :: 0 <= j < k && Fits(islands[j], lo, hi) ==>
          IslandScore(cov, day, Clamp(islands[j], lo, hi), minStaff) < IslandScore(cov, day, Clamp(islands[k], lo, hi), minStaff))
  }

  /** The entries kept so far: each came from a fitting island before index
      n, in increasing island order, clamped and scored; and every fitting
      island before n was kept. */
  ghost predicate KeptUpTo(cov: seq<seq<int>>, day: int, lo: int, hi: int, minStaff: nat, islands: seq<(int, int)>,
                           scores: seq<int>, kept: seq<(int, int)>, origin: seq<int>, n: int)
    requires CoverageShape(cov) && 0 <= day < DaysPerWeek && InDay(islands)
  {
    && |scores| == |kept| == |origin|
    && (forall m :: 0 <= m < |origin| ==>
          0 <= origin[m] < n && origin[m] < |islands| && Fits(islands[origin[m]], lo, hi)
          && kept[m] == Clamp(islands[origin[m]], lo, hi)
          && scores[m] == IslandScore(cov, day, kept[m], minStaff))
    && (forall m, m' :: 0 <= m < m' < |origin| ==> origin[m] < origin[m'])
    && (forall j :: 0 <= j < n && j < |islands| && Fits(islands[j], lo, hi) ==> j in origin)
  }

  /** Island n, clamped, either is kept with its score or does not fit. */
  lemma KeptStep(cov: seq<seq<int>>, day: int, lo: int, hi: int, minStaff: nat, islands: seq<(int, int)>,
                 scores: seq<int>, kept: seq<(int, int)>, origin: seq<int>, n: int)
    requires CoverageShape(cov) && 0 <= day < DaysPerWeek && InDay(islands) && 0 <= n < |islands|
    requires KeptUpTo(cov, day, lo, hi, minStaff, islands, scores, kept, origin, n)
    ensures Fits(islands[n], lo, hi) ==>
              KeptUpTo(cov, day, lo, hi, minStaff, islands,
                       scores + [IslandScore(cov, day, Clamp(islands[n], lo, hi), minStaff)],
                       kept + [Clamp(islands[n], lo, hi)], origin + [n], n + 1)
    ensures !Fits(islands[n], lo, hi) ==> KeptUpTo(cov, day, lo, hi, minStaff, islands, scores, kept, origin, n + 1)
  {
    if Fits(islands[n], lo, hi) {
      KeptAppend(cov, day, lo, hi, minStaff, islands, scores, kept, origin, n);
    } else {
      forall j | 0 <= j < n + 1 && j < |islands| && Fits(islands[j], lo, hi) ensures j in origin {
        assert j < n;
      }
    }
  }

  lemma KeptAppend(cov: seq<seq<int>>, day: int, lo: int, hi: int, minStaff: nat, islands: seq<(int, int)>,
                   scores: seq<int>, kept: seq<(int, int)>, origin: seq<int>, n: int)
    requires CoverageShape(cov) && 0 <= day < DaysPerWeek && InDay(islands) && 0 <= n < |islands|
    requires KeptUpTo(cov, day, lo, hi, minStaff, islands, scores, kept, origin, n) && Fits(islands[n], lo, hi)
    ensures KeptUpTo(cov, day, lo, hi, minStaff, islands,
                     scores + [IslandScore(cov, day, Clamp(islands[n], lo, hi), minStaff)],
                     kept + [Clamp(islands[n], lo, hi)], origin + [n], n + 1)
  {
    var scores' := scores + [IslandScore(cov, day, Clamp(islands[n], lo, hi), minStaff)];
    var kept' := kept + [Clamp(islands[n], lo, hi)];
    var origin' := origin + [n];
    forall m | 0 <= m < |origin'|
      ensures && 0 <= origin'[m] < n + 1 && origin'[m] < |islands| && Fits(islands[origin'[m]], lo, hi)
              && kept'[m] == Clamp(islands[origin'[m]], lo, hi)
              && scores'[m] == IslandScore(cov, day, kept'[m], minStaff)
    {
      if m < |origin| {
        assert origin'[m] == origin[m] && kept'[m] == kept[m] && scores'[m] == scores[m];
      }
    }
    forall m, m' | 0 <= m < m' < |origin'| ensures origin'[m] < origin'[m'] {
      if m' < |origin| {
        assert origin'[m] == origin[m] && origin'[m'] == origin[m'];
      } else {
        assert origin'[m] == origin[m] < n;
      }
    }
    forall j | 0 <= j < n + 1 && j < |islands| && Fits(islands[j], lo, hi) ensures j in origin' {
      if j < n {
        assert j in origin;
      } else {
        assert origin'[|origin|] == n;
      }
    }
  }

  /** The scoring loop of `find_best_island`: each island clamped to the
      valid hours [lo, hi] and, when still at least an hour long, kept
      with its score; `origin` records which island each kept entry came from. */
  method ScoreIslands(cov: seq<seq<int>>, day: int, lo: int, hi: int, minStaff: nat, islands: seq<(int, int)>)
    returns (scores: seq<int>, kept: seq<(int, int)>, ghost origin: seq<int>)
    requires CoverageShape(cov) && 0 <= day < DaysPerWeek && InDay(islands)
    ensures KeptUpTo(cov, day, lo, hi, minStaff, islands, scores, kept, origin, |islands|)
  {
    scores, kept, origin := [], [], [];
    for k := 0 to |islands|
      invariant KeptUpTo(cov, day, lo, hi, minStaff, islands, scores, kept, origin, k)
    {
      KeptStep(cov, day, lo, hi, minStaff, islands, scores, kept, origin, k);
      var start, end := islands[k].0, islands[k].1;
      if start < lo {
        start := lo;
      }
      if end > hi {
        end := hi;
      }
      if end - start + 1 >= 4 {
        var score := IslandScore(cov, day, (start, end), minStaff);
        scores := scores + [score];
        kept := kept + [(start, end)];
        origin := origin + [k];
      }
    }
  }

  /** An island clamped to [lo, hi] stays inside the day and free. */
  lemma ClampedIslandFree(s: string, islands: seq<(int, int)>, k: int, lo: int, hi: int)
    requires IslandsOf(s, islands) && 0 <= k < |islands|
    ensures 0 <= Clamp(islands[k], lo, hi).0 && lo <= Clamp(islands[k], lo, hi).0
    ensures Clamp(islands[k], lo, hi).1 <= hi && Clamp(islands[k], lo, hi).1 < |s|
    ensures forall i :: Clamp(islands[k], lo, hi).0 <= i <= Clamp(islands[k], lo, hi).1 ==> s[i] == '0'
  {
    assert IsIsland(s, islands[k].0, islands[k].1);
  }

  /** The first highest score among the kept islands belongs to the best
      island: every fitting island was kept, in order, with its score. */
  lemma PickedIsBest(cov: seq<seq<int>>, day: int, lo: int, hi: int, minStaff: nat, islands: seq<(int, int)>,
                     scores: seq<int>, kept: seq<(int, int)>, origin: seq<int>, m: int)
    requires CoverageShape(cov) && 0 <= day < DaysPerWeek && InDay(islands)
    requires |scores| == |kept| == |origin| && 0 <= m < |scores|
    requires forall i :: 0 <= i < |scores| ==> scores[i] <= scores[m]
    requires forall i :: 0 <= i < m ==> scores[i] < scores[m]
    requires forall i :: 0 <= i < |origin| ==>
               0 <= origin[i] < |islands| && Fits(islands[origin[i]], lo, hi)
               && kept[i] == Clamp(islands[origin[i]], lo, hi)
               && scores[i] == IslandScore(cov, day, kept[i], minStaff)
    requires forall i, i' :: 0 <= i < i' < |origin| ==> origin[i] < origin[i']
    requires forall j :: 0 <= j < |islands| && Fits(islands[j], lo, hi) ==> j in origin
    ensures BestAt(cov, day, lo, hi, minStaff, islands, origin[m])
    ensures kept[m] == Clamp(islands[origin[m]], lo, hi)
  {
    forall j | 0 <= j < |islands| && Fits(islands[j], lo, hi)
      ensures IslandScore(cov, day, Clamp(islands[j], lo, hi), minStaff) <= scores[m]
      ensures j < origin[m] ==> IslandScore(cov, day, Clamp(islands[j], lo, hi), minStaff) < scores[m]
    {
      var i :| 0 <= i < |origin| && origin[i] == j;
      KeptBelowPick(scores, origin, m, i);
    }
  }

  /** A kept entry from an earlier island than the pick's is also earlier
      in the kept list, so it scores strictly lower. */
  lemma KeptBelowPick(scores: seq<int>, origin: seq<int>, m: int, i: int)
    requires |scores| == |origin| && 0 <= m < |scores| && 0 <= i < |scores|
    requires forall i :: 0 <= i < |scores| ==> scores[i] <= scores[m]
    requires forall i :: 0 <= i < m ==> scores[i] < scores[m]
    requires forall i, i' :: 0 <= i < i' < |origin| ==> origin[i] < origin[i']
    ensures scores[i] <= scores[m]
    ensures origin[i] < origin[m] ==> scores[i] < scores[m]
  {
  }

  // ---------------------------------------------------------------------
  // Coverage averages

  /** A day's average coverage over slots lo..hi-1; infinite for an empty range. */
  datatype Average = Finite(value: real) | Infinite

  predicate Below(a: Average, b: Average) {
    a.Finite? && (b.Infinite? || a.value < b.value)
  }

  function SumRange(row: seq<int>, lo: int, hi: int): int
    requires 0 <= lo <= hi <= |row|
    decreases hi - lo
  {
    if lo == hi then 0 else row[lo] + SumRange(row, lo + 1, hi)
  }

  function AverageCoverage(cov: seq<seq<int>>, d: int, lo: int, hi: int): Average
    requires 0 <= d < |cov| && (hi <= lo || (0 <= lo && hi <= |cov[d]|))
  {
    if lo < hi then Finite(SumRange(cov[d], lo, hi) as real / (hi - lo) as real) else Infinite
  }

  // ---------------------------------------------------------------------
  // How the tally moves while a group is served

  /** Slot i of day dd is assigned in w. */
  predicate OneAt(w: Week, dd: int, i: int) {
    0 <= dd < |w| && 0 <= i < |w[dd]| && w[dd][i] == '1'
  }

  /** From t to t2 the total and every employee's booked hours only grew,
      no assigned slot was cleared, and every newly assigned slot lies on day
      d within [start, end]. */
  ghost predicate Grew(t: Tally, t2: Tally, d: int, start: int, end: int) {
    && t.total <= t2.total
    && (forall id :: id in t.scheduled ==> id in t2.scheduled && t.scheduled[id] <= t2.scheduled[id])
    && (forall id, dd, i :: OneAt(Current(t, id), dd, i) ==> OneAt(Current(t2, id), dd, i))
    && (forall id, dd, i :: OneAt(Current(t2, id), dd, i) && !OneAt(Current(t, id), dd, i) ==>
          dd == d && start <= i <= end)
  }

  lemma GrewRefl(t: Tally, d: int, start: int, end: int)
    ensures Grew(t, t, d, start, end)
  {
  }

  lemma GrewTrans(t1: Tally, t2: Tally, t3: Tally, d: int, start: int, end: int)
    requires Grew(t1, t2, d, start, end) && Grew(t2, t3, d, start, end)
    ensures Grew(t1, t3, d, start, end)
  {
  }

  /** A booking of slots start..last (last <= end) grows the tally and
      assigns slot `start`. */
  lemma BookingGrew(t: Tally, id: EmpId, d: int, start: int, last: int, end: int, a: real, t2: Tally)
    requires id in t.remaining && id in t.scheduled && WeekShape(Current(t, id)) && 0 <= d < DaysPerWeek
    requires 0 <= start <= last <= end && last < BitsPerDay && a > 0.0
    requires t2 == Booked(t, id, d, Fill(Current(t, id)[d], start, last), a)
    ensures Grew(t, t2, d, start, end) && OneAt(Current(t2, id), d, start)
  {
  }

  /** One more member of the group booked: the tally still only grew since
      the group started, and everyone whose hours grew has slot `start`. */
  lemma GroupStep(t: Tally, t1: Tally, id: EmpId, d: int, start: int, last: int, end: int, a: real, t2: Tally)
    requires Grew(t, t1, d, start, end)
    requires forall x :: x in t.scheduled && x in t1.scheduled && t.scheduled[x] < t1.scheduled[x] ==> OneAt(Current(t1, x), d, start)
    requires id in t1.remaining && id in t1.scheduled && WeekShape(Current(t1, id)) && 0 <= d < DaysPerWeek
    requires 0 <= start <= last <= end && last < BitsPerDay && a > 0.0
    requires t2 == Booked(t1, id, d, Fill(Current(t1, id)[d], start, last), a)
    ensures Grew(t, t2, d, start, end)
    ensures forall x :: x in t.scheduled && x in t2.scheduled && t.scheduled[x] < t2.scheduled[x] ==> OneAt(Current(t2, x), d, start)
  {
    BookingGrew(t1, id, d, start, last, end, a, t2);
    GrewTrans(t, t1, t2, d, start, end);
  }

  /** The tally maps built for the employees of `prefix`: each id holds
      its starting remaining hours and zero scheduled hours. */
  ghost predicate StartsAs(emps: seq<Employee>, budget: int, prefix: seq<Employee>,
                           remaining: map<EmpId, real>, scheduled: map<EmpId, real>)
  {
    && remaining.Keys == Ids(prefix) && scheduled.Keys == Ids(prefix)
    && forall x :: x in prefix && x in emps ==>
         remaining[x.id] == InitialRemaining(emps, x, budget) && scheduled[x.id] == 0.0
  }

  /** Entering one more employee of `emps` into the maps. */
  lemma StartsAsSnoc(emps: seq<Employee>, budget: int, prefix: seq<Employee>, x: Employee,
                     remaining: map<EmpId, real>, scheduled: map<EmpId, real>)
    requires DistinctIds(emps) && x in emps && StartsAs(emps, budget, prefix, remaining, scheduled)
    ensures StartsAs(emps, budget, prefix + [x], remaining[x.id := InitialRemaining(emps, x, budget)], scheduled[x.id := 0.0])
  {
    IdsSnoc(prefix, x);
    forall y | y in prefix + [x] && y in emps && y.id == x.id ensures y == x {
      SameIdSame(emps, y, x);
    }
  }

  /** Once every employee of a permutation of `emps` is entered, the maps
      cover exactly the ids of `emps`. */
  lemma StartsAsPermutation(emps: seq<Employee>, budget: int, sorted: seq<Employee>,
                            remaining: map<EmpId, real>, scheduled: map<EmpId, real>)
    requires multiset(sorted) == multiset(emps) && StartsAs(emps, budget, sorted, remaining, scheduled)
    ensures remaining.Keys == Ids(emps) && scheduled.Keys == Ids(emps)
    ensures forall x :: x in emps ==> remaining[x.id] == InitialRemaining(emps, x, budget) && scheduled[x.id] == 0.0
  {
    forall x ensures x in sorted <==> x in emps {
      assert x in sorted <==> x in multiset(sorted);
    }
  }

  // ---------------------------------------------------------------------
  // Pieces of `schedule` that touch no engine state

  /** The group's common availability on `day`: None for an empty group,
      otherwise '0' exactly where every member is free, as long as the
      shortest member string. */
  method CommonAvailability(group: seq<Employee>, day: int) returns (common: Option<string>)
    requires forall e :: e in group ==> 0 <= day < |e.availability|
    ensures common.None? <==> group == []
    ensures common.Some? ==> forall e :: e in group ==> |common.value| <= |e.availability[day]|
    ensures common.Some? ==> exists e :: e in group && |common.value| == |e.availability[day]|
    ensures common.Some? ==> forall i :: 0 <= i < |common.value| ==>
              (common.value[i] == '0' <==> forall e :: e in group ==> e.availability[day][i] == '0')
  {
    common := None;
    for k := 0 to |group|
      invariant common.None? <==> k == 0
      invariant common.Some? ==> forall j :: 0 <= j < k ==> |common.value| <= |group[j].availability[day]|
      invariant common.Some? ==> exists j :: 0 <= j < k && |common.value| == |group[j].availability[day]|
      invariant common.Some? ==> forall i :: 0 <= i < |common.value| ==>
                  (common.value[i] == '0' <==> forall j :: 0 <= j < k ==> group[j].availability[day][i] == '0')
    {
      var avail := group[k].availability[day];
      if common.None? {
        common := Some(avail);
      } else {
        var prev := common.value;
        ghost var w :| 0 <= w < k && |prev| == |group[w].availability[day]|;
        common := Some(ZipAnd(prev, avail));
        if |avail| < |prev| {
          assert |common.value| == |group[k].availability[day]|;
        } else {
          assert |common.value| == |group[w].availability[day]|;
        }
      }
    }
    if common.Some? {
      forall e | e in group ensures |common.value| <= |e.availability[day]| {
        var j :| 0 <= j < |group| && group[j] == e;
      }
      ghost var w :| 0 <= w < |group| && |common.value| == |group[w].availability[day]|;
      assert group[w] in group;
      forall i | 0 <= i < |common.value|
        ensures common.value[i] == '0' <==> forall e :: e in group ==> e.availability[day][i] == '0'
      {
        if common.value[i] == '0' {
          forall e | e in group ensures e.availability[day][i] == '0' {
            var j :| 0 <= j < |group| && group[j] == e;
          }
        }
      }
    }
  }

  /** Every member of the group is free on slot i of the day. */
  ghost predicate SharedFree(group: seq<Employee>, day: int, i: int)
    requires forall e :: e in group ==> 0 <= day < |e.availability| && 0 <= i < |e.availability[day]|
  {
    forall e :: e in group ==> e.availability[day][i] == '0'
  }

  /** The island a group gets in the first pass: the first longest island
      of the group's common availability, clamped to [lo, hi]. None for an
      empty group, a common availability without a '0', or one without an
      island; `common` and `islands` are the availability and islands the
      choice was made from. */
  method GroupIsland(group: seq<Employee>, day: int, lo: int, hi: int)
    returns (r: Option<(int, int)>, ghost common: string, ghost islands: seq<(int, int)>)
    requires forall e :: e in group ==> 0 <= day < |e.availability| && |e.availability[day]| == BitsPerDay
    ensures group != [] ==> |common| == BitsPerDay && IslandsOf(common, islands)
    ensures group != [] ==> forall i :: 0 <= i < BitsPerDay ==> (common[i] == '0' <==> SharedFree(group, day, i))
    ensures r.None? <==> group == [] || islands == []
    ensures r.Some? ==> r.value == Clamp(islands[FirstMax(Spans(islands))], lo, hi)
    ensures r.Some? ==> 0 <= r.value.0 && lo <= r.value.0 && r.value.1 <= hi && r.value.1 < BitsPerDay
    ensures r.Some? ==> forall x, i :: x in group && r.value.0 <= i <= r.value.1 ==> x.availability[day][i] == '0'
  {
    var c := CommonAvailability(group, day);
    if c.None? {
      return None, "", [];
    }
    var bits := c.value;
    common := bits;
    ghost var w :| w in group && |bits| == |w.availability[day]|;
    r, islands := LongestIsland(bits, lo, hi);
    if r.Some? {
      forall x, i | x in group && r.value.0 <= i <= r.value.1 ensures x.availability[day][i] == '0' {
        assert bits[i] == '0';
      }
    }
  }

  /** The first longest island of a day string, clamped to [lo, hi]; None
      when the string has no '0' or no island. */
  method LongestIsland(bits: string, lo: int, hi: int) returns (r: Option<(int, int)>, ghost islands: seq<(int, int)>)
    requires |bits| == BitsPerDay
    ensures IslandsOf(bits, islands)
    ensures r.None? <==> islands == []
    ensures r.Some? ==> r.value == Clamp(islands[FirstMax(Spans(islands))], lo, hi)
    ensures r.Some? ==> 0 <= r.value.0 && lo <= r.value.0 && r.value.1 <= hi && r.value.1 < BitsPerDay
    ensures r.Some? ==> AllFree(bits, r.value.0, r.value.1)
  {
    if '0' !in bits {
      forall a, b | 0 <= a <= b < |bits| ensures !AllFree(bits, a, b) {
        assert bits[a] in bits;
      }
      return None, [];
    }
    var found := IslandsInDay(bits);
    islands := found;
    if found == [] {
      return None, islands;
    }
    var best := FirstMax(Spans(found));
    var start, end := found[best].0, found[best].1;
    IslandAt(bits, found, best);
    assert AllFree(bits, start, end);
    if start < lo {
      start := lo;
    }
    if end > hi {
      end := hi;
    }
    r := Some((start, end));
  }

  // ---------------------------------------------------------------------
  // What a pass may change

  /** From t to t2 nothing changed for the employees whose ids lie outside
      `ids`: their hours left, hours booked and schedule are as they were. */
  ghost predicate OnlyFor(t: Tally, t2: Tally, ids: set<EmpId>) {
    forall id :: id !in ids ==>
      && Lookup(t2.remaining, id) == Lookup(t.remaining, id)
      && Lookup(t2.scheduled, id) == Lookup(t.scheduled, id)
      && Current(t2, id) == Current(t, id)
  }

  lemma IdsSubset(a: seq<Employee>, b: seq<Employee>)
    requires forall x :: x in a ==> x in b
    ensures Ids(a) <= Ids(b)
  {
  }

  /** Employees whose tally has not changed since t and who have hours left
      now already had hours left at t. */
  lemma StillHopeful(sorted: seq<Employee>, t: Tally, t2: Tally, hopeful: set<EmpId>)
    requires hopeful == Ids(WithHoursLeft(sorted, t.remaining)) && OnlyFor(t, t2, hopeful)
    ensures Ids(WithHoursLeft(sorted, t2.remaining)) <= hopeful
  {
    forall x | x in WithHoursLeft(sorted, t2.remaining) ensures x.id in hopeful {
      assert x.id !in hopeful ==> x in WithHoursLeft(sorted, t.remaining);
    }
  }

  lemma OnlyForRefl(t: Tally, ids: set<EmpId>)
    ensures OnlyFor(t, t, ids)
  {
  }

  /** Two changes confined to `a` and to `b` together stay inside any c
      holding both. */
  lemma OnlyForTrans(t1: Tally, t2: Tally, t3: Tally, a: set<EmpId>, b: set<EmpId>, c: set<EmpId>)
    requires OnlyFor(t1, t2, a) && OnlyFor(t2, t3, b) && a <= c && b <= c
    ensures OnlyFor(t1, t3, c)
  {
  }

  /** A booking changes the booked employee's tally and no other. */
  lemma BookedOnlyFor(t: Tally, id: EmpId, d: int, bits: string, a: real)
    requires id in t.remaining && id in t.scheduled && 0 <= d < |Current(t, id)|
    ensures OnlyFor(t, Booked(t, id, d, bits, a), {id})
  {
  }

  /** From cov to cov2 no counter went down, and the days outside
      first..last-1 are as they were. */
  ghost predicate CoverageGrew(cov: seq<seq<int>>, cov2: seq<seq<int>>, first: int, last: int) {
    && |cov2| == |cov|
    && (forall d :: 0 <= d < |cov| && !(first <= d < last) ==> cov2[d] == cov[d])
    && forall d :: 0 <= d < |cov| ==>
         |cov2[d]| == |cov[d]| && forall j :: 0 <= j < |cov[d]| ==> cov[d][j] <= cov2[d][j]
  }

  lemma CoverageGrewRefl(cov: seq<seq<int>>, first: int, last: int)
    ensures CoverageGrew(cov, cov, first, last)
  {
  }

  /** Two growths over day ranges inside first..last-1 are one growth over it. */
  lemma CoverageGrewTrans(c1: seq<seq<int>>, c2: seq<seq<int>>, c3: seq<seq<int>>,
                          a: int, a': int, b: int, b': int, first: int, last: int)
    requires CoverageGrew(c1, c2, a, a') && CoverageGrew(c2, c3, b, b')
    requires first <= a && a' <= last && first <= b && b' <= last
    ensures CoverageGrew(c1, c3, first, last)
  {
    forall d | 0 <= d < |c1|
      ensures |c3[d]| == |c1[d]| && forall j :: 0 <= j < |c1[d]| ==> c1[d][j] <= c3[d][j]
    {
      assert forall j :: 0 <= j < |c1[d]| ==> c1[d][j] <= c2[d][j] <= c3[d][j];
    }
  }

  /** The writes of one booking raise counters of day d only. */
  lemma BumpGrew(cov: seq<seq<int>>, d: int, a: int, b: int)
    requires 0 <= d < |cov|
    ensures CoverageGrew(cov, Bump(cov, d, a, b), d, d + 1)
  {
  }

  /** Two picks that both score first-highest are the same island. */
  lemma BestAtUnique(cov: seq<seq<int>>, day: int, lo: int, hi: int, minStaff: nat,
                     islands: seq<(int, int)>, k: int, k': int)
    requires CoverageShape(cov) && 0 <= day < DaysPerWeek && InDay(islands)
    requires BestAt(cov, day, lo, hi, minStaff, islands, k) && BestAt(cov, day, lo, hi, minStaff, islands, k')
    ensures k == k'
  {
    var score := IslandScore(cov, day, Clamp(islands[k], lo, hi), minStaff);
    var score' := IslandScore(cov, day, Clamp(islands[k'], lo, hi), minStaff);
    assert k < k' ==> score < score';
    assert k' < k ==> score' < score;
  }

  // ---------------------------------------------------------------------
  // The engine

  class ScheduleEngine {
    const employees: seq<Employee>
    const maxManHours: int
    /** Valid days as indices into the week (0 = the first day of `DAYS_OF_WEEK`). */
    const validWorkDays: set<int>
    const validWorkHours: (int, int)
    const minStaffPerShift: nat
    var totalEmpHourLimitViolations: int
    var scheduledHoursPerEmployee: map<EmpId, real>
    /** `shift_coverage[day][slot]`: how many writes slot `slot` of day `day` received. */
    var shiftCoverage: seq<seq<int>>

    /** Stores the parameters; a seed only reseeds the global generator and
        is never kept, so nothing of it reaches the object. */
    constructor(employees: seq<Employee>, maxManHours: int, validWorkDays: set<int>, validWorkHours: (int, int),
                minStaffPerShift: nat, randomSeed: Option<int>)
      ensures this.employees == employees && this.maxManHours == maxManHours
      ensures this.validWorkDays == validWorkDays && this.validWorkHours == validWorkHours
      ensures this.minStaffPerShift == minStaffPerShift
      ensures totalEmpHourLimitViolations == 0 && scheduledHoursPerEmployee == map[] && shiftCoverage == []
    {
      this.employees := employees;
      this.maxManHours := maxManHours;
      this.validWorkDays := validWorkDays;
      this.validWorkHours := validWorkHours;
      this.minStaffPerShift := minStaffPerShift;
      totalEmpHourLimitViolations := 0;
      scheduledHoursPerEmployee := map[];
      shiftCoverage := [];
    }

    /** The run's invariant over the current tally and coverage. */
    ghost predicate Holds(t: Tally)
      reads this
    {
      Sound(employees, maxManHours, validWorkHours.0, validWorkHours.1, t, shiftCoverage)
    }

    /** e's second-pass attempt on day d would not go ahead against tally t
        and coverage cov: on a valid day where an island still fits, the
        first best-scoring one, clamped, allows less than a slot. */
    ghost predicate BlockedOn(cov: seq<seq<int>>, e: Employee, days: seq<seq<(int, int)>>, t: Tally, d: int) {
      && CoverageShape(cov) && e.id in t.remaining
      && (0 <= d < |days| && d < DaysPerWeek && d in validWorkDays && InDay(days[d]) ==>
            forall k :: BestAt(cov, d, validWorkHours.0, validWorkHours.1, minStaffPerShift, days[d], k) ==>
              !Assigns(Allowed(t, e.id, Clamp(days[d][k], validWorkHours.0, validWorkHours.1).0,
                               Clamp(days[d][k], validWorkHours.0, validWorkHours.1).1, maxManHours)))
    }

    /** e's second-pass attempt would book nothing on any day of the week. */
    ghost predicate Blocked(cov: seq<seq<int>>, e: Employee, days: seq<seq<(int, int)>>, t: Tally) {
      BlockedBefore(cov, e, days, t, DaysPerWeek)
    }

    /** Blocked on each of the days before n. */
    ghost predicate BlockedBefore(cov: seq<seq<int>>, e: Employee, days: seq<seq<(int, int)>>, t: Tally, n: int) {
      forall d :: 0 <= d < n ==> BlockedOn(cov, e, days, t, d)
    }

    lemma BlockedBeforeNext(cov: seq<seq<int>>, e: Employee, days: seq<seq<(int, int)>>, t: Tally, n: int)
      requires BlockedBefore(cov, e, days, t, n) && BlockedOn(cov, e, days, t, n)
      ensures BlockedBefore(cov, e, days, t, n + 1)
    {
    }

    /** `find_day_with_lowest_coverage`: the first valid day, in ascending
        order, whose average coverage over the valid hours is smallest. */
    method FindDayWithLowestCoverage(validDays: set<int>) returns (best: Option<int>)
      requires CoverageShape(shiftCoverage)
      requires forall d :: d in validDays ==> 0 <= d < DaysPerWeek
      requires validWorkHours.1 <= validWorkHours.0 || (0 <= validWorkHours.0 && validWorkHours.1 <= BitsPerDay)
      ensures best.None? <==> validDays == {}
      ensures best.Some? ==> best.value in validDays
      ensures best.Some? ==> forall d :: d in validDays ==>
                !Below(AverageCoverage(shiftCoverage, d, validWorkHours.0, validWorkHours.1),
                       AverageCoverage(shiftCoverage, best.value, validWorkHours.0, validWorkHours.1))
      ensures best.Some? ==> forall d :: d in validDays && d < best.value ==>
                Below(AverageCoverage(shiftCoverage, best.value, validWorkHours.0, validWorkHours.1),
                      AverageCoverage(shiftCoverage, d, validWorkHours.0, validWorkHours.1))
    {
      var lo, hi := validWorkHours.0, validWorkHours.1;
      best := None;
      var bestScore := Infinite;
      for d := 0 to DaysPerWeek
        invariant best.None? <==> forall x :: x in validDays ==> x >= d
        invariant best.Some? ==> best.value in validDays && best.value < d
        invariant best.Some? ==> bestScore == AverageCoverage(shiftCoverage, best.value, lo, hi)
        invariant best.Some? ==> forall x :: x in validDays && x < d ==> !Below(AverageCoverage(shiftCoverage, x, lo, hi), bestScore)
        invariant best.Some? ==> forall x :: x in validDays && x < best.value ==> Below(bestScore, AverageCoverage(shiftCoverage, x, lo, hi))
      {
        if d in validDays {
          var score := AverageCoverage(shiftCoverage, d, lo, hi);
          if best.None? || Below(score, bestScore) {
            best := Some(d);
            bestScore := score;
          }
        }
      }
      if best.None? {
        assert forall x :: x !in validDays;
      }
    }

    /** `find_best_island`: clamps every island to the valid hours, drops
        those shorter than an hour, scores the rest and returns the first
        best-scoring clamped island; None when no island is left. */
    method FindBestIsland(islands: seq<(int, int)>, day: int) returns (best: Option<(int, int)>, ghost pick: int)
      requires 0 <= day < DaysPerWeek && CoverageShape(shiftCoverage) && InDay(islands)
      ensures best.None? <==> forall k :: 0 <= k < |islands| ==> !Fits(islands[k], validWorkHours.0, validWorkHours.1)
      ensures best.Some? ==> BestAt(shiftCoverage, day, validWorkHours.0, validWorkHours.1, minStaffPerShift, islands, pick)
                             && best.value == Clamp(islands[pick], validWorkHours.0, validWorkHours.1)
    {
      var lo, hi := validWorkHours.0, validWorkHours.1;
      var scores, kept, origin := ScoreIslands(shiftCoverage, day, lo, hi, minStaffPerShift, islands);
      if scores == [] {
        best, pick := None, -1;
        assert origin == [];
      } else {
        var m := FirstMax(scores);
        best, pick := Some(kept[m]), origin[m];
        PickedIsBest(shiftCoverage, day, lo, hi, minStaffPerShift, islands, scores, kept, origin, m);
      }
    }

    /** The slot-writing loop of an assignment: slots start..realEnd of the
        day string become '1' (the `i < BITS_PER_DAY` guard cuts the range at
        the end of the day), and each write raises that slot's coverage
        counter by one whether or not the bit was already '1'. */
    method WriteSlots(d: int, dayBits: string, start: int, realEnd: int) returns (bits: string)
      requires 0 <= d < DaysPerWeek && CoverageShape(shiftCoverage) && |dayBits| == BitsPerDay
      requires 0 <= start <= realEnd
      modifies this`shiftCoverage
      ensures bits == Fill(dayBits, start, realEnd)
      ensures shiftCoverage == Bump(old(shiftCoverage), d, start, realEnd)
      ensures Count(bits, '1') <= Count(dayBits, '1') + (realEnd - start + 1)
    {
      bits := dayBits;
      assert Fill(dayBits, start, start - 1) == dayBits;
      assert Bump(shiftCoverage, d, start, start - 1)[d] == shiftCoverage[d];
      assert Bump(shiftCoverage, d, start, start - 1) == shiftCoverage;
      for i := start to realEnd + 1
        invariant |bits| == BitsPerDay && CoverageShape(shiftCoverage)
        invariant bits == Fill(dayBits, start, i - 1)
        invariant shiftCoverage == Bump(old(shiftCoverage), d, start, i - 1)
        invariant Count(bits, '1') <= Count(dayBits, '1') + (i - start)
      {
        if i < BitsPerDay {
          CountOnesSet(bits, i);
          bits := bits[i := '1'];
          shiftCoverage := shiftCoverage[d := shiftCoverage[d][i := shiftCoverage[d][i] + 1]];
        }
        assert bits == Fill(dayBits, start, i);
        assert shiftCoverage[d] == Bump(old(shiftCoverage), d, start, i)[d];
      }
    }

    /** One assignment of the clamped island start..end of day d to e: it
        books `allowed = min(shift hours, hours left, budget left)` and
        `int(allowed * 4)` slots from `start`, or leaves everything as it
        was when that is less than one slot. */
    method TryAssign(e: Employee, d: int, start: int, end: int, t: Tally) returns (t2: Tally, booked: bool)
      requires Holds(t) && e in employees && 0 <= d < DaysPerWeek
      requires 0 <= start && validWorkHours.0 <= start && end <= validWorkHours.1 && end < BitsPerDay
      requires forall i :: start <= i <= end ==> e.availability[d][i] == '0'
      modifies this`shiftCoverage
      ensures booked == Assigns(Allowed(t, e.id, start, end, maxManHours))
      ensures !booked ==> t2 == t && shiftCoverage == old(shiftCoverage)
      ensures booked ==> t2 == Booked(t, e.id, d, Fill(Current(t, e.id)[d], start, LastSlot(t, e.id, start, end, maxManHours)),
                                      Allowed(t, e.id, start, end, maxManHours))
      ensures booked ==> shiftCoverage == Bump(old(shiftCoverage), d, start, LastSlot(t, e.id, start, end, maxManHours))
      ensures booked ==> start <= LastSlot(t, e.id, start, end, maxManHours) <= end
      ensures booked ==> Allowed(t, e.id, start, end, maxManHours) >= 0.25
      ensures booked ==> t2.total >= t.total + 0.25
      ensures Holds(t2)
      ensures OnlyFor(t, t2, {e.id}) && CoverageGrew(old(shiftCoverage), shiftCoverage, d, d + 1)
    {
      var allowed := Allowed(t, e.id, start, end, maxManHours);
      OnlyForRefl(t, {e.id});
      CoverageGrewRefl(shiftCoverage, d, d + 1);
      if allowed < Epsilon {
        return t, false;
      }
      var slots := Trunc(allowed * 4.0);
      if slots < 1 {
        return t, false;
      }
      AssignSize(t, e.id, start, end, maxManHours);
      var realEnd := start + slots - 1;
      assert realEnd == LastSlot(t, e.id, start, end, maxManHours);
      ghost var before := shiftCoverage;
      assert CoverageShape(before);
      t2 := Book(e, d, start, realEnd, end, t, allowed);
      ShapeOf(employees, maxManHours, validWorkHours.0, validWorkHours.1, t, before, e);
      BookedOnlyFor(t, e.id, d, Fill(Current(t, e.id)[d], start, realEnd), allowed);
      BumpGrew(before, d, start, realEnd);
      booked := true;
    }

    /** The writes of an assignment that goes ahead: slots start..realEnd of
        e's day d and their coverage counters, and the tally's hours. */
    method Book(e: Employee, d: int, start: int, realEnd: int, end: int, t: Tally, allowed: real) returns (t2: Tally)
      requires Holds(t) && e in employees && 0 <= d < DaysPerWeek
      requires 0 <= start && validWorkHours.0 <= start && end <= validWorkHours.1 && end < BitsPerDay
      requires forall i :: start <= i <= end ==> e.availability[d][i] == '0'
      requires allowed == Allowed(t, e.id, start, end, maxManHours) && Assigns(allowed)
      requires realEnd == start + Trunc(allowed * 4.0) - 1 && start <= realEnd <= end
      modifies this`shiftCoverage
      ensures t2 == Booked(t, e.id, d, Fill(Current(t, e.id)[d], start, realEnd), allowed)
      ensures shiftCoverage == Bump(old(shiftCoverage), d, start, realEnd)
      ensures Holds(t2)
    {
      var schedule := Current(t, e.id);
      ghost var emps, lo, hi, cov := employees, validWorkHours.0, validWorkHours.1, shiftCoverage;
      assert Sound(emps, maxManHours, lo, hi, t, cov);
      ShapeOf(emps, maxManHours, lo, hi, t, cov, e);
      var bits := WriteSlots(d, schedule[d], start, realEnd);
      t2 := Booked(t, e.id, d, bits, allowed);
      ghost var slots := realEnd - start + 1;
      AssignIsBooking(emps, maxManHours, lo, hi, t, e, d, start, end, allowed, slots, bits);
      BookingKeepsSound(emps, maxManHours, lo, hi, t, cov, e, d, start, slots, allowed, bits, t2, shiftCoverage);
    }

    /** The first pass's assignment of one island to a whole group: every
        member whose hours grow gets slot `start` of day d, and nothing is
        assigned outside start..end of day d. */
    method AssignGroup(group: seq<Employee>, d: int, start: int, end: int, t: Tally) returns (t2: Tally)
      requires Holds(t) && 0 <= d < DaysPerWeek
      requires forall x :: x in group ==> x in employees
      requires 0 <= start && validWorkHours.0 <= start && end <= validWorkHours.1 && end < BitsPerDay
      requires forall x, i :: x in group && start <= i <= end ==> x.availability[d][i] == '0'
      modifies this`shiftCoverage
      ensures Holds(t2) && Grew(t, t2, d, start, end)
      ensures forall id :: id in t.scheduled && id in t2.scheduled && t.scheduled[id] < t2.scheduled[id] ==>
                OneAt(Current(t2, id), d, start)
      ensures OnlyFor(t, t2, Ids(group)) && CoverageGrew(old(shiftCoverage), shiftCoverage, d, d + 1)
    {
      t2 := t;
      GrewRefl(t, d, start, end);
      OnlyForRefl(t, Ids(group));
      CoverageGrewRefl(shiftCoverage, d, d + 1);
      for k := 0 to |group|
        invariant Holds(t2) && Grew(t, t2, d, start, end)
        invariant forall id :: id in t.scheduled && id in t2.scheduled && t.scheduled[id] < t2.scheduled[id] ==>
                    OneAt(Current(t2, id), d, start)
        invariant OnlyFor(t, t2, Ids(group)) && CoverageGrew(old(shiftCoverage), shiftCoverage, d, d + 1)
      {
        var x := group[k];
        assert x.id in Ids(group);
        ghost var before := t2;
        ghost var covBefore := shiftCoverage;
        ShapeOf(employees, maxManHours, validWorkHours.0, validWorkHours.1, before, shiftCoverage, x);
        var ok;
        t2, ok := TryAssign(x, d, start, end, t2);
        if ok {
          GroupStep(t, before, x.id, d, start, LastSlot(before, x.id, start, end, maxManHours), end,
                    Allowed(before, x.id, start, end, maxManHours), t2);
        }
        OnlyForTrans(t, before, t2, Ids(group), {x.id}, Ids(group));
        CoverageGrewTrans(old(shiftCoverage), covBefore, shiftCoverage, d, d + 1, d, d + 1, d, d + 1);
      }
    }

    /** The starting tally: no schedules, nothing booked, and each
        employee's remaining hours `min(max_hours, target)` with the target
        `(priority + 1) / total priority * max_man_hours`. */
    method StartingTally(sorted: seq<Employee>) returns (t: Tally)
      requires multiset(sorted) == multiset(employees) && DistinctIds(employees)
      ensures t.schedules == map[] && t.total == 0.0
      ensures t.remaining.Keys == Ids(employees) && t.scheduled.Keys == Ids(employees)
      ensures forall x :: x in employees ==>
                t.remaining[x.id] == InitialRemaining(employees, x, maxManHours) && t.scheduled[x.id] == 0.0
    {
      var totalPriority := TotalPriority(sorted);
      TotalPriorityPermutation(sorted, employees);
      var remaining: map<EmpId, real> := map[];
      var scheduled: map<EmpId, real> := map[];
      for k := 0 to |sorted|
        invariant StartsAs(employees, maxManHours, sorted[..k], remaining, scheduled)
      {
        var x := sorted[k];
        assert x in multiset(employees);
        var target := ((x.priority + 1) as real / totalPriority as real) * maxManHours as real;
        assert target == Target(employees, x, maxManHours);
        assert sorted[..k + 1] == sorted[..k] + [x];
        StartsAsSnoc(employees, maxManHours, sorted[..k], x, remaining, scheduled);
        remaining := remaining[x.id := Min(x.maxHours, target)];
        scheduled := scheduled[x.id := 0.0];
      }
      assert sorted[..|sorted|] == sorted;
      StartsAsPermutation(employees, maxManHours, sorted, remaining, scheduled);
      t := Tally(map[], remaining, scheduled, 0.0);
    }

    /** The first pass, day by day: groups of `min_staff_per_shift`
        employees with hours left, most hours left first, each given the
        first longest island of the group's common availability. A group
        without one gives up its first member; a short group ends the day. */
    method ForcedCoveragePass(sorted: seq<Employee>, t: Tally) returns (t2: Tally)
      requires Holds(t) && forall x :: x in sorted ==> x in employees
      modifies this`shiftCoverage
      ensures Holds(t2) && t.total <= t2.total
      ensures OnlyFor(t, t2, Ids(WithHoursLeft(sorted, t.remaining)))
      ensures CoverageGrew(old(shiftCoverage), shiftCoverage, 0, DaysPerWeek)
    {
      t2 := t;
      ghost var hopeful := Ids(WithHoursLeft(sorted, t.remaining));
      OnlyForRefl(t, hopeful);
      CoverageGrewRefl(shiftCoverage, 0, 0);
      for day := 0 to DaysPerWeek
        invariant Holds(t2) && t.total <= t2.total
        invariant OnlyFor(t, t2, hopeful)
        invariant CoverageGrew(old(shiftCoverage), shiftCoverage, 0, day)
      {
        ghost var covBefore := shiftCoverage;
        t2 := PassDay(sorted, day, t, t2);
        CoverageGrewTrans(old(shiftCoverage), covBefore, shiftCoverage, 0, day, day, day + 1, 0, day + 1);
      }
    }

    /** One day of the first pass: the employees with hours left, most hours
        left first, go through `CoverDay`; with nobody left the day is skipped.
        Only employees who had hours left at the start of the pass, the tally
        `start`, can change. */
    method PassDay(sorted: seq<Employee>, day: int, ghost start: Tally, t: Tally) returns (t2: Tally)
      requires Holds(t) && 0 <= day < DaysPerWeek && forall x :: x in sorted ==> x in employees
      requires OnlyFor(start, t, Ids(WithHoursLeft(sorted, start.remaining)))
      modifies this`shiftCoverage
      ensures Holds(t2) && t.total <= t2.total
      ensures OnlyFor(start, t2, Ids(WithHoursLeft(sorted, start.remaining)))
      ensures CoverageGrew(old(shiftCoverage), shiftCoverage, day, day + 1)
    {
      CoverageGrewRefl(shiftCoverage, day, day + 1);
      var available := WithHoursLeft(sorted, t.remaining);
      if available == [] {
        return t;
      }
      ghost var hopeful := Ids(WithHoursLeft(sorted, start.remaining));
      StillHopeful(sorted, start, t, hopeful);
      SortDescMembers(available, HoursLeftKey(t.remaining));
      available := SortDesc(available, HoursLeftKey(t.remaining));
      IdsSubset(available, WithHoursLeft(sorted, t.remaining));
      ghost var left;
      t2, left := CoverDay(day, available, t);
      OnlyForTrans(start, t, t2, hopeful, Ids(available), hopeful);
    }

    /** One day of the first pass over the employees with hours left, most
        hours left first: the leading `min_staff_per_shift` of them form a
        group and get the group's island; a group without one gives up its
        first member; a short group ends the day. */
    method CoverDay(day: int, available: seq<Employee>, t: Tally) returns (t2: Tally, ghost left: seq<Employee>)
      requires Holds(t) && 0 <= day < DaysPerWeek && forall x :: x in available ==> x in employees
      modifies this`shiftCoverage
      ensures Holds(t2) && t.total <= t2.total
      ensures OnlyFor(t, t2, Ids(available)) && CoverageGrew(old(shiftCoverage), shiftCoverage, day, day + 1)
      ensures forall x :: x in left ==> x in available
      ensures left == [] || |left| < minStaffPerShift
    {
      t2 := t;
      var rest := available;
      OnlyForRefl(t, Ids(available));
      CoverageGrewRefl(shiftCoverage, day, day + 1);
      while rest != []
        invariant Holds(t2) && t.total <= t2.total
        invariant forall x :: x in rest ==> x in available
        invariant OnlyFor(t, t2, Ids(available)) && CoverageGrew(old(shiftCoverage), shiftCoverage, day, day + 1)
        decreases |rest|
      {
        var stop;
        ghost var before, covBefore, restBefore := t2, shiftCoverage, rest;
        rest, t2, stop := CoverStep(day, rest, t2);
        IdsSubset(restBefore, available);
        OnlyForTrans(t, before, t2, Ids(available), Ids(restBefore), Ids(available));
        CoverageGrewTrans(old(shiftCoverage), covBefore, shiftCoverage, day, day + 1, day, day + 1, day, day + 1);
        if stop {
          break;
        }
      }
      left := rest;
    }

    /** One group of the first pass: the first `min_staff_per_shift` of the
        employees left, given their longest common island when they have
        one. Too few employees end the day; a group without a common island
        gives up its first member; otherwise the group is served and leaves
        the list. */
    method CoverStep(day: int, rest: seq<Employee>, t: Tally) returns (rest2: seq<Employee>, t2: Tally, stop: bool)
      requires Holds(t) && 0 <= day < DaysPerWeek && rest != [] && forall x :: x in rest ==> x in employees
      modifies this`shiftCoverage
      ensures Holds(t2) && t.total <= t2.total
      ensures forall x :: x in rest2 ==> x in rest
      ensures OnlyFor(t, t2, Ids(rest)) && CoverageGrew(old(shiftCoverage), shiftCoverage, day, day + 1)
      ensures stop ==> t2 == t && shiftCoverage == old(shiftCoverage) && rest2 == rest && |rest| < minStaffPerShift
      ensures !stop ==> |rest2| < |rest|
    {
      var lo, hi := validWorkHours.0, validWorkHours.1;
      OnlyForRefl(t, Ids(rest));
      CoverageGrewRefl(shiftCoverage, day, day + 1);
      var group := Take(rest, minStaffPerShift);
      if |group| < minStaffPerShift {
        return rest, t, true;
      }
      assert forall x :: x in group ==> x in employees;
      var island := SharedIsland(group, day, t);
      if island.None? {
        return rest[1..], t, false;
      }
      assert rest[0] == group[0];
      t2 := AssignGroup(group, day, island.value.0, island.value.1, t);
      IdsSubset(group, rest);
      OnlyForTrans(t, t, t2, Ids(rest), Ids(group), Ids(rest));
      rest2 := Without(rest, group);
      stop := false;
    }

    /** The group's island for the day, as `GroupIsland` picks it: inside the
        valid hours and free for every member. */
    method SharedIsland(group: seq<Employee>, day: int, t: Tally) returns (island: Option<(int, int)>)
      requires Holds(t) && 0 <= day < DaysPerWeek && forall x :: x in group ==> x in employees
      ensures group == [] ==> island.None?
      ensures island.Some? ==> && 0 <= island.value.0 && validWorkHours.0 <= island.value.0
                               && island.value.1 <= validWorkHours.1 && island.value.1 < BitsPerDay
      ensures island.Some? ==> forall x, i :: x in group && island.value.0 <= i <= island.value.1 ==>
                                 x.availability[day][i] == '0'
    {
      DayShapes(employees, maxManHours, validWorkHours.0, validWorkHours.1, t, shiftCoverage, group, day);
      ghost var common, islands;
      island, common, islands := GroupIsland(group, day, validWorkHours.0, validWorkHours.1);
    }

    /** The second pass's attempt for one employee: the valid days in
        ascending order until the first assignment that goes ahead. */
    method TryEmployee(e: Employee, days: seq<seq<(int, int)>>, t: Tally) returns (t2: Tally, booked: bool)
      requires Holds(t) && e in employees && IslandTable(e, days)
      modifies this`shiftCoverage
      ensures Holds(t2)
      ensures !booked ==> t2 == t && shiftCoverage == old(shiftCoverage) && Blocked(shiftCoverage, e, days, t)
      ensures booked ==> t2.total >= t.total + 0.25
    {
      ghost var cov := shiftCoverage;
      for d := 0 to DaysPerWeek
        invariant shiftCoverage == cov
        invariant BlockedBefore(cov, e, days, t, d)
      {
        t2, booked := TryDay(e, days, d, t);
        if booked {
          return;
        }
        BlockedBeforeNext(cov, e, days, t, d);
      }
      return t, false;
    }

    /** Day d of an employee's attempt: on a valid day with islands, the
        best island of the employee's original islands that day, clamped to
        the valid hours, and the assignment of it. */
    method TryDay(e: Employee, days: seq<seq<(int, int)>>, d: int, t: Tally) returns (t2: Tally, booked: bool)
      requires Holds(t) && e in employees && IslandTable(e, days) && 0 <= d < DaysPerWeek
      modifies this`shiftCoverage
      ensures Holds(t2)
      ensures !booked ==> t2 == t && shiftCoverage == old(shiftCoverage) && BlockedOn(shiftCoverage, e, days, t, d)
      ensures booked ==> t2.total >= t.total + 0.25
    {
      var lo, hi := validWorkHours.0, validWorkHours.1;
      assert WeekShape(e.availability);
      t2, booked := t, false;
      if d in validWorkDays {
        var islands := days[d];
        if islands == [] {
          return;
        }
        var best, k := FindBestIsland(islands, d);
        if best.None? {
          return;
        }
        var start, end := best.value.0, best.value.1;
        if start < lo {
          start := lo;
        }
        if end > hi {
          end := hi;
        }
        ClampedIslandFree(e.availability[d], islands, k, lo, hi);
        t2, booked := TryAssign(e, d, start, end, t);
        if !booked {
          forall k' | BestAt(shiftCoverage, d, lo, hi, minStaffPerShift, islands, k')
            ensures !Assigns(Allowed(t, e.id, Clamp(islands[k'], lo, hi).0, Clamp(islands[k'], lo, hi).1, maxManHours))
          {
            BestAtUnique(shiftCoverage, d, lo, hi, minStaffPerShift, islands, k, k');
          }
        }
      }
    }

    /** The second pass: while the budget is not used up, the employees with
        hours left, by (remaining hours, priority) largest first, are tried
        until one assignment goes ahead; a round without one ends the pass. */
    method FillHoursPass(sorted: seq<Employee>, table: map<EmpId, seq<seq<(int, int)>>>, t: Tally) returns (t2: Tally)
      requires Holds(t) && forall x :: x in sorted ==> x in employees
      requires forall x :: x in employees ==> x.id in table && IslandTable(x, table[x.id])
      modifies this`shiftCoverage
      ensures Holds(t2) && t.total <= t2.total
      ensures || t2.total >= maxManHours as real
              || WithHoursLeft(sorted, t2.remaining) == []
              || forall x :: x in WithHoursLeft(sorted, t2.remaining) ==> Blocked(shiftCoverage, x, table[x.id], t2)
    {
      t2 := t;
      while t2.total < maxManHours as real
        invariant Holds(t2) && t.total <= t2.total
        decreases ((maxManHours as real - t2.total) * 4.0).Floor
      {
        var available := WithHoursLeft(sorted, t2.remaining);
        if available == [] {
          break;
        }
        SortDescMembers(available, FillOrderKey(t2.remaining));
        available := SortDesc(available, FillOrderKey(t2.remaining));
        ghost var before := t2;
        var scheduledAny;
        t2, scheduledAny := FillRound(available, table, t2);
        if !scheduledAny {
          assert forall x :: x in WithHoursLeft(sorted, before.remaining) ==> x in available;
          break;
        }
      }
    }

    /** One round of the second pass: the employees in order until the
        first whose attempt goes ahead. */
    method FillRound(available: seq<Employee>, table: map<EmpId, seq<seq<(int, int)>>>, t: Tally)
      returns (t2: Tally, scheduledAny: bool)
      requires Holds(t) && forall x :: x in available ==> x in employees
      requires forall x :: x in employees ==> x.id in table && IslandTable(x, table[x.id])
      modifies this`shiftCoverage
      ensures Holds(t2)
      ensures !scheduledAny ==> t2 == t && shiftCoverage == old(shiftCoverage)
      ensures scheduledAny ==> t2.total >= t.total + 0.25
      ensures !scheduledAny ==> forall x :: x in available ==> Blocked(shiftCoverage, x, table[x.id], t)
    {
      t2, scheduledAny := t, false;
      ghost var cov := shiftCoverage;
      var k := 0;
      while k < |available| && !scheduledAny
        invariant 0 <= k <= |available|
        invariant Holds(t2)
        invariant !scheduledAny ==> t2 == t && shiftCoverage == cov
        invariant !scheduledAny ==> forall j :: 0 <= j < k ==> Blocked(cov, available[j], table[available[j].id], t)
        invariant scheduledAny ==> t2.total >= t.total + 0.25
      {
        var x := available[k];
        t2, scheduledAny := TryEmployee(x, table[x.id], t2);
        if !scheduledAny {
          BlockedPrefix(cov, available, table, t, k);
        }
        k := k + 1;
      }
    }

    /** One more employee of the round found blocked. */
    lemma BlockedPrefix(cov: seq<seq<int>>, available: seq<Employee>, table: map<EmpId, seq<seq<(int, int)>>>,
                        t: Tally, k: int)
      requires 0 <= k < |available| && forall x :: x in available ==> x.id in table
      requires forall j :: 0 <= j < k ==> Blocked(cov, available[j], table[available[j].id], t)
      requires Blocked(cov, available[k], table[available[k].id], t)
      ensures forall j :: 0 <= j < k + 1 ==> Blocked(cov, available[j], table[available[j].id], t)
    {
    }

    /** `schedule`: the run from the starting tally through both passes.
        Every assigned slot is free in the employee's availability and
        inside the valid hours; no employee gets more slots than four per
        hour of `min(max_hours, target)`, so one with no hours gets none;
        all employees together get at most four slots per budget hour; the
        coverage counters dominate the number of employees on each slot. */
    method Schedule() returns (result: map<EmpId, Week>)
      requires WellFormed(employees)
      modifies this`shiftCoverage
      ensures result.Keys <= Ids(employees)
      ensures forall e :: e in employees && e.id in result ==>
                && Contained(e, result[e.id], validWorkHours.0, validWorkHours.1)
                && 1 <= WeekOnes(result[e.id])
                && WeekOnes(result[e.id]) as real <= 4.0 * InitialRemaining(employees, e, maxManHours)
      ensures forall e :: e in employees && e.maxHours <= 0.0 ==> e.id !in result
      ensures SumOver(employees, result, Ones) as real <= 4.0 * (if maxManHours < 0 then 0 else maxManHours) as real
      ensures CoverageShape(shiftCoverage)
      ensures forall d, j :: 0 <= d < DaysPerWeek && 0 <= j < BitsPerDay ==>
                SumOver(employees, result, Slot(d, j)) <= shiftCoverage[d][j]
      ensures employees == [] ==> result == map[]
    {
      var table := ExtractAvailabilityIslands(employees);
      shiftCoverage := seq(DaysPerWeek, _ => seq(BitsPerDay, _ => 0));
      var sorted := SortDesc(employees, PriorityKey);
      var t := StartingTally(sorted);
      StartingSound(employees, maxManHours, validWorkHours.0, validWorkHours.1, t, shiftCoverage);
      SortDescMembers(employees, PriorityKey);
      t := ForcedCoveragePass(sorted, t);
      TableCovers(employees, table);
      t := FillHoursPass(sorted, table, t);
      result := t.schedules;
      SoundConsequences(employees, maxManHours, validWorkHours.0, validWorkHours.1, t, shiftCoverage);
    }
  }
}
