/** Specification side of the current scheduling engine: the employee record,
    the priority-proportional hour targets, the bookkeeping the two greedy
    passes carry (hours left, hours booked, schedules, slot coverage) and the
    invariant every single assignment preserves. */
module EngineSpec {
  import opened Bitstrings

  type EmpId = string

  /** An employee as the engines read it: `params` reduced to the three keys
      they look up (`max_hours`, `priority`, `f1_status`). */
  datatype Employee = Employee(id: EmpId, availability: Week, maxHours: real, priority: nat, f1Status: bool)

  function Ids(emps: seq<Employee>): set<EmpId> {
    set e | e in emps :: e.id
  }

  /** `employee_id` is the primary key of the stored model. */
  ghost predicate DistinctIds(emps: seq<Employee>) {
    forall i, j :: 0 <= i < j < |emps| ==> emps[i].id != emps[j].id
  }

  /** The inputs the engine indexes without checks: unique ids and 7 x 96 availability. */
  ghost predicate WellFormed(emps: seq<Employee>) {
    DistinctIds(emps) && forall e :: e in emps ==> WeekShape(e.availability)
  }

  lemma SameIdSame(emps: seq<Employee>, a: Employee, b: Employee)
    requires DistinctIds(emps) && a in emps && b in emps && a.id == b.id
    ensures a == b
  {
    var i :| 0 <= i < |emps| && emps[i] == a;
    var j :| 0 <= j < |emps| && emps[j] == b;
    assert !(i < j) && !(j < i);
  }

  // ---------------------------------------------------------------------
  // Hour targets

  /** Sum of `priority + 1` over the list. */
  function TotalPriority(emps: seq<Employee>): (n: nat)
    ensures n >= |emps|
  {
    if emps == [] then 0 else emps[0].priority + 1 + TotalPriority(emps[1..])
  }

  /** An employee's share of the budget: (priority + 1) / total priority * max_man_hours. */
  function Target(emps: seq<Employee>, e: Employee, budget: int): (r: real)
    requires emps != []
    ensures r > 0.0 <==> budget > 0
    ensures r == 0.0 <==> budget == 0
  {
    var share := (e.priority + 1) as real / TotalPriority(emps) as real;
    assert share > 0.0;
    share * budget as real
  }

  function Min(a: real, b: real): real {
    if a <= b then a else b
  }

  /** Hours an employee may still receive when scheduling starts. */
  function InitialRemaining(emps: seq<Employee>, e: Employee, budget: int): real
    requires emps != []
  {
    Min(e.maxHours, Target(emps, e, budget))
  }

  function SumTargets(l: seq<Employee>, emps: seq<Employee>, budget: int): real
    requires emps != []
  {
    if l == [] then 0.0 else Target(emps, l[0], budget) + SumTargets(l[1..], emps, budget)
  }

  /** Budget hours per unit of priority. */
  function Unit(emps: seq<Employee>, budget: int): real
    requires emps != []
  {
    budget as real / TotalPriority(emps) as real
  }

  lemma TargetByUnit(emps: seq<Employee>, e: Employee, budget: int)
    requires emps != []
    ensures Target(emps, e, budget) == (e.priority + 1) as real * Unit(emps, budget)
  {
    ShareTimes((e.priority + 1) as real, TotalPriority(emps) as real, budget as real);
  }

  lemma {:induction false} SumTargetsScaled(l: seq<Employee>, emps: seq<Employee>, budget: int)
    requires emps != []
    ensures SumTargets(l, emps, budget) == TotalPriority(l) as real * Unit(emps, budget)
  {
    var unit := Unit(emps, budget);
    if l != [] {
      var p := (l[0].priority + 1) as real;
      var rest := TotalPriority(l[1..]) as real;
      SumTargetsScaled(l[1..], emps, budget);
      TargetByUnit(emps, l[0], budget);
      Distribute(p, rest, unit);
      assert TotalPriority(l) as real == p + rest;
    } else {
      Distribute(0.0, 0.0, unit);
    }
  }

  lemma ShareTimes(p: real, total: real, budget: real)
    requires total != 0.0
    ensures (p / total) * budget == p * (budget / total)
  {
  }

  lemma Distribute(p: real, rest: real, unit: real)
    ensures p * unit + rest * unit == (p + rest) * unit
  {
  }

  /** The targets of all employees add up to the budget exactly. */
  lemma TargetsSumToBudget(emps: seq<Employee>, budget: int)
    requires emps != []
    ensures SumTargets(emps, emps, budget) == budget as real
  {
    SumTargetsScaled(emps, emps, budget);
    UnitTimesTotal(TotalPriority(emps) as real, budget as real);
  }

  lemma UnitTimesTotal(total: real, budget: real)
    requires total != 0.0
    ensures total * (budget / total) == budget
  {
  }

  /** Sorting the employees does not change the total priority. */
  lemma {:induction false} TotalPriorityPermutation(a: seq<Employee>, b: seq<Employee>)
    requires multiset(a) == multiset(b)
    ensures TotalPriority(a) == TotalPriority(b)
    decreases |a|
  {
    if a == [] {
      assert |b| == |multiset(b)| == 0;
    } else {
      assert a[0] in multiset(b);
      var i :| 0 <= i < |b| && b[i] == a[0];
      MultisetWithout(a, b, i);
      TotalPriorityPermutation(a[1..], b[..i] + b[i + 1..]);
      TotalPrioritySplit(b, i);
    }
  }

  lemma MultisetWithout<T>(a: seq<T>, b: seq<T>, i: int)
    requires multiset(a) == multiset(b) && a != [] && 0 <= i < |b| && b[i] == a[0]
    ensures multiset(a[1..]) == multiset(b[..i] + b[i + 1..])
  {
    assert a == [a[0]] + a[1..];
    assert b == b[..i] + [b[i]] + b[i + 1..];
    assert multiset(a[1..]) == multiset(a) - multiset{a[0]};
    assert multiset(b[..i] + b[i + 1..]) == multiset(b) - multiset{b[i]};
  }

  lemma {:induction false} TotalPrioritySplit(b: seq<Employee>, i: int)
    requires 0 <= i < |b|
    ensures TotalPriority(b) == b[i].priority + 1 + TotalPriority(b[..i] + b[i + 1..])
  {
    if i == 0 {
      assert b[..0] + b[1..] == b[1..];
    } else {
      var rest := b[1..][..i - 1] + b[1..][i..];
      TotalPrioritySplit(b[1..], i - 1);
      var without := b[..i] + b[i + 1..];
      assert without[0] == b[0];
      assert without[1..] == rest;
    }
  }

  // ---------------------------------------------------------------------
  // Counting assigned slots

  function WeekOnes(w: Week): nat {
    if w == [] then 0 else Count(w[0], '1') + WeekOnes(w[1..])
  }

  /** Writing one '1' adds at most one assigned slot, and leaves at least one. */
  lemma {:induction false} CountOnesSet(s: string, k: int)
    requires 0 <= k < |s|
    ensures 1 <= Count(s[k := '1'], '1') <= Count(s, '1') + 1
  {
    if k == 0 {
      assert s[k := '1'][1..] == s[1..];
    } else {
      assert s[k := '1'][1..] == s[1..][k - 1 := '1'];
      CountOnesSet(s[1..], k - 1);
    }
  }

  lemma {:induction false} WeekOnesUpdate(w: Week, d: int, s: string)
    requires 0 <= d < |w|
    ensures WeekOnes(w) >= Count(w[d], '1')
    ensures WeekOnes(w[d := s]) == WeekOnes(w) - Count(w[d], '1') + Count(s, '1')
  {
    if d == 0 {
      assert w[d := s][1..] == w[1..];
    } else {
      assert w[d := s][1..] == w[1..][d - 1 := s];
      WeekOnesUpdate(w[1..], d - 1, s);
    }
  }

  lemma {:induction false} ZerosHaveNoOnes(w: Week)
    requires forall d, i :: 0 <= d < |w| && 0 <= i < |w[d]| ==> w[d][i] == '0'
    ensures WeekOnes(w) == 0
  {
    if w != [] {
      ZeroStringNoOnes(w[0]);
      ZerosHaveNoOnes(w[1..]);
    }
  }

  lemma {:induction false} ZeroStringNoOnes(s: string)
    requires forall i :: 0 <= i < |s| ==> s[i] == '0'
    ensures Count(s, '1') == 0
  {
    if s != [] {
      ZeroStringNoOnes(s[1..]);
    }
  }

  /** A per-schedule quantity summed over the employees: its assigned slots,
      or whether slot `slot` of day `day` is assigned. */
  datatype Measure = Ones | Slot(day: int, slot: int)

  function MeasureOf(m: Measure, w: Week): nat {
    match m
    case Ones => WeekOnes(w)
    case Slot(d, j) => if 0 <= d < |w| && 0 <= j < |w[d]| && w[d][j] == '1' then 1 else 0
  }

  function SumOver(emps: seq<Employee>, sch: map<EmpId, Week>, m: Measure): nat {
    if emps == [] then 0
    else (if emps[0].id in sch then MeasureOf(m, sch[emps[0].id]) else 0) + SumOver(emps[1..], sch, m)
  }

  lemma {:induction false} SumOverOther(emps: seq<Employee>, sch: map<EmpId, Week>, id: EmpId, w: Week, m: Measure)
    requires forall x :: x in emps ==> x.id != id
    ensures SumOver(emps, sch[id := w], m) == SumOver(emps, sch, m)
  {
    if emps != [] {
      assert emps[0] in emps;
      SumOverOther(emps[1..], sch, id, w, m);
    }
  }

  /** Replacing one employee's schedule changes a sum by exactly that
      schedule's change. */
  lemma {:induction false} SumOverUpdate(emps: seq<Employee>, sch: map<EmpId, Week>, e: Employee, w: Week, m: Measure)
    requires DistinctIds(emps) && e in emps
    ensures SumOver(emps, sch[e.id := w], m)
            == SumOver(emps, sch, m) - (if e.id in sch then MeasureOf(m, sch[e.id]) else 0) + MeasureOf(m, w)
  {
    if emps[0].id == e.id {
      forall x | x in emps[1..] ensures x.id != e.id {
        var k :| 0 <= k < |emps[1..]| && emps[1..][k] == x;
        assert emps[k + 1] == x;
      }
      SumOverOther(emps[1..], sch, e.id, w, m);
    } else {
      assert e in emps[1..] by {
        var k :| 0 <= k < |emps| && emps[k] == e;
        assert k != 0;
        assert emps[1..][k - 1] == e;
      }
      SumOverUpdate(emps[1..], sch, e, w, m);
    }
  }

  // ---------------------------------------------------------------------
  // The bookkeeping of one run

  /** `empToSchedule`, `remaining_hours`, `scheduled_hours` and `total_scheduled_hours`. */
  datatype Tally = Tally(schedules: map<EmpId, Week>, remaining: map<EmpId, real>,
                         scheduled: map<EmpId, real>, total: real)

  /** `shift_coverage`: a counter per day and slot. */
  ghost predicate CoverageShape(cov: seq<seq<int>>) {
    |cov| == DaysPerWeek && forall d :: 0 <= d < DaysPerWeek ==> |cov[d]| == BitsPerDay
  }

  /** Every assigned slot of w is free in e's availability and lies within [lo, hi]. */
  ghost predicate Contained(e: Employee, w: Week, lo: int, hi: int) {
    && WeekShape(w) && WeekShape(e.availability)
    && forall d, i :: 0 <= d < DaysPerWeek && 0 <= i < BitsPerDay && w[d][i] == '1' ==>
         e.availability[d][i] == '0' && lo <= i <= hi
  }

  /** The schedule so far of an employee, or a blank week (`empToSchedule.get(id, [...])`). */
  function Current(t: Tally, id: EmpId): Week {
    if id in t.schedules then t.schedules[id] else EmptyWeek()
  }

  /** What holds of one employee at every point of the run. */
  ghost predicate EmpSound(emps: seq<Employee>, budget: int, lo: int, hi: int, t: Tally, e: Employee)
    requires emps != []
  {
    && e.id in t.remaining && e.id in t.scheduled
    && 0.0 <= t.scheduled[e.id]
    && t.scheduled[e.id] + t.remaining[e.id] == InitialRemaining(emps, e, budget)
    && (e.id in t.schedules ==>
          && Contained(e, t.schedules[e.id], lo, hi)
          && 1 <= WeekOnes(t.schedules[e.id])
          && WeekOnes(t.schedules[e.id]) as real <= 4.0 * t.scheduled[e.id]
          && 0.0 <= t.remaining[e.id])
  }

  /** The invariant both passes keep: per-employee hour accounting and
      containment, the global budget, and coverage counters that dominate the
      number of employees assigned to every slot. */
  ghost predicate Sound(emps: seq<Employee>, budget: int, lo: int, hi: int, t: Tally, cov: seq<seq<int>>) {
    && WellFormed(emps)
    && t.remaining.Keys == Ids(emps) && t.scheduled.Keys == Ids(emps) && t.schedules.Keys <= Ids(emps)
    && (forall e :: e in emps ==> EmpSound(emps, budget, lo, hi, t, e))
    && 0.0 <= t.total && (t.total == 0.0 || t.total <= budget as real)
    && SumOver(emps, t.schedules, Ones) as real <= 4.0 * t.total
    && CoverageShape(cov)
    && forall d, j :: 0 <= d < DaysPerWeek && 0 <= j < BitsPerDay ==> SumOver(emps, t.schedules, Slot(d, j)) <= cov[d][j]
  }

  // ---------------------------------------------------------------------
  // One assignment (`allowed`, `slots`, the writes, the three counters)

  /** `int(x)`: truncation toward zero. */
  function Trunc(x: real): int {
    if x >= 0.0 then x.Floor else -((-x).Floor)
  }

  /** `(end - start + 1) / 4`. */
  function ShiftHours(start: int, end: int): real {
    (end - start + 1) as real / 4.0
  }

  const Epsilon: real := 0.000001

  /** `min(shift_hours, remaining_hours[id], max_man_hours - total_scheduled_hours)`. */
  function Allowed(t: Tally, id: EmpId, start: int, end: int, budget: int): real
    requires id in t.remaining
  {
    Min(Min(ShiftHours(start, end), t.remaining[id]), budget as real - t.total)
  }

  /** An assignment happens only when `allowed >= 1e-6` and `int(allowed * 4) >= 1`. */
  predicate Assigns(allowed: real) {
    allowed >= Epsilon && Trunc(allowed * 4.0) >= 1
  }

  /** `real_end = start + int(allowed * 4) - 1`: the last slot an assignment writes. */
  function LastSlot(t: Tally, id: EmpId, start: int, end: int, budget: int): int
    requires id in t.remaining
  {
    start + Trunc(Allowed(t, id, start, end, budget) * 4.0) - 1
  }

  /** Day string with slots a..b (inclusive, clipped to the string) set to '1'. */
  function Fill(s: string, a: int, b: int): string {
    seq(|s|, i requires 0 <= i < |s| => if a <= i <= b then '1' else s[i])
  }

  /** Coverage with every counter of day d in a..b raised by one. */
  function Bump(cov: seq<seq<int>>, d: int, a: int, b: int): seq<seq<int>>
    requires 0 <= d < |cov|
  {
    cov[d := seq(|cov[d]|, i requires 0 <= i < |cov[d]| => if a <= i <= b then cov[d][i] + 1 else cov[d][i])]
  }

  /** The counters after `allowed` hours went to `id` and day d became `bits`. */
  function Booked(t: Tally, id: EmpId, d: int, bits: string, allowed: real): Tally
    requires id in t.remaining && id in t.scheduled && 0 <= d < |Current(t, id)|
  {
    Tally(t.schedules[id := Current(t, id)[d := bits]],
          t.remaining[id := t.remaining[id] - allowed],
          t.scheduled[id := t.scheduled[id] + allowed],
          t.total + allowed)
  }

  /** What an assignment that goes ahead implies about its size: it books at
      least a quarter hour, and its slots stay inside the clamped island. */
  lemma AssignSize(t: Tally, id: EmpId, start: int, end: int, budget: int)
    requires id in t.remaining && Assigns(Allowed(t, id, start, end, budget))
    ensures var a := Allowed(t, id, start, end, budget);
            && 0.25 <= a <= t.remaining[id] && t.total + a <= budget as real
            && 1 <= Trunc(a * 4.0) && Trunc(a * 4.0) as real <= 4.0 * a
            && start + Trunc(a * 4.0) - 1 <= end
  {
    var a := Allowed(t, id, start, end, budget);
    assert a * 4.0 >= 0.0;
    assert a <= ShiftHours(start, end);
  }

  /** The facts about one booking of n slots worth `a` hours that the
      invariant needs: the slots are free, inside [lo, hi] and the day; the
      hours fit the employee's remaining hours and the budget; the day string
      gains the n slots and at most n new assigned slots. */
  ghost predicate Booking(emps: seq<Employee>, budget: int, lo: int, hi: int, t: Tally,
                          e: Employee, d: int, start: int, n: int, a: real, bits: string)
    requires e.id in t.remaining && WeekShape(Current(t, e.id)) && WeekShape(e.availability)
  {
    && 0 <= d < DaysPerWeek && 0 <= start && lo <= start && 1 <= n && start + n - 1 <= hi && start + n - 1 < BitsPerDay
    && (forall i :: start <= i <= start + n - 1 ==> e.availability[d][i] == '0')
    && 0.0 < a && n as real <= 4.0 * a && a <= t.remaining[e.id] && t.total + a <= budget as real
    && bits == Fill(Current(t, e.id)[d], start, start + n - 1)
    && Count(bits, '1') <= Count(Current(t, e.id)[d], '1') + n
  }

  /** A booking keeps the employee's own accounting sound and adds at most n
      assigned slots. */
  lemma OwnerAfterBooking(emps: seq<Employee>, budget: int, lo: int, hi: int, t: Tally,
                          e: Employee, d: int, start: int, n: int, a: real, bits: string)
    requires emps != [] && EmpSound(emps, budget, lo, hi, t, e) && WeekShape(e.availability)
    requires WeekShape(Current(t, e.id))
    requires Booking(emps, budget, lo, hi, t, e, d, start, n, a, bits)
    ensures var t' := Booked(t, e.id, d, bits, a);
            && EmpSound(emps, budget, lo, hi, t', e)
            && WeekOnes(t'.schedules[e.id]) <= MeasureOf(Ones, Current(t, e.id)) + n
  {
    var old_w := Current(t, e.id);
    var w := old_w[d := bits];
    if e.id !in t.schedules {
      ZerosHaveNoOnes(old_w);
    }
    assert Contained(e, old_w, lo, hi);
    WeekOnesUpdate(old_w, d, bits);
    assert bits == bits[start := '1'];
    CountOnesSet(bits, start);
    WeekOnesUpdate(w, d, bits);
    assert Contained(e, w, lo, hi) by {
      forall dd, i | 0 <= dd < DaysPerWeek && 0 <= i < BitsPerDay && w[dd][i] == '1'
        ensures e.availability[dd][i] == '0' && lo <= i <= hi
      {
        if dd != d || !(start <= i <= start + n - 1) {
          assert old_w[dd][i] == '1';
        }
      }
    }
  }

  /** Booking for e leaves every other employee's accounting as it was. */
  lemma OthersAfterBooking(emps: seq<Employee>, budget: int, lo: int, hi: int, t: Tally, t': Tally, e: Employee)
    requires emps != [] && DistinctIds(emps) && e in emps
    requires forall x :: x in emps ==> EmpSound(emps, budget, lo, hi, t, x)
    requires forall id :: id != e.id ==> (id in t.schedules <==> id in t'.schedules)
    requires forall id :: id != e.id && id in t.schedules ==> t'.schedules[id] == t.schedules[id]
    requires forall id :: id != e.id && id in t.remaining ==> id in t'.remaining && t'.remaining[id] == t.remaining[id]
    requires forall id :: id != e.id && id in t.scheduled ==> id in t'.scheduled && t'.scheduled[id] == t.scheduled[id]
    requires EmpSound(emps, budget, lo, hi, t', e)
    ensures forall x :: x in emps ==> EmpSound(emps, budget, lo, hi, t', x)
  {
    forall x | x in emps ensures EmpSound(emps, budget, lo, hi, t', x) {
      if x.id == e.id {
        SameIdSame(emps, x, e);
      } else {
        assert EmpSound(emps, budget, lo, hi, t, x);
      }
    }
  }

  /** Every employee stays sound. */
  lemma EmployeesAfterBooking(emps: seq<Employee>, budget: int, lo: int, hi: int, t: Tally, cov: seq<seq<int>>,
                              e: Employee, d: int, start: int, n: int, a: real, bits: string)
    requires Sound(emps, budget, lo, hi, t, cov) && e in emps
    requires WeekShape(Current(t, e.id))
    requires Booking(emps, budget, lo, hi, t, e, d, start, n, a, bits)
    ensures forall x :: x in emps ==> EmpSound(emps, budget, lo, hi, Booked(t, e.id, d, bits, a), x)
  {
    OwnerAfterBooking(emps, budget, lo, hi, t, e, d, start, n, a, bits);
    OthersAfterBooking(emps, budget, lo, hi, t, Booked(t, e.id, d, bits, a), e);
  }

  /** The assigned slots of all employees stay within 4 x the booked total,
      and the total within the budget. */
  lemma TotalsAfterBooking(emps: seq<Employee>, budget: int, lo: int, hi: int, t: Tally,
                           e: Employee, d: int, start: int, n: int, a: real, bits: string)
    requires DistinctIds(emps) && e in emps && WeekShape(e.availability)
    requires t.remaining.Keys == Ids(emps) && t.scheduled.Keys == Ids(emps) && t.schedules.Keys <= Ids(emps)
    requires 0.0 <= t.total && SumOver(emps, t.schedules, Ones) as real <= 4.0 * t.total
    requires EmpSound(emps, budget, lo, hi, t, e) && WeekShape(Current(t, e.id))
    requires Booking(emps, budget, lo, hi, t, e, d, start, n, a, bits)
    ensures var t' := Booked(t, e.id, d, bits, a);
            && t'.remaining.Keys == Ids(emps) && t'.scheduled.Keys == Ids(emps) && t'.schedules.Keys <= Ids(emps)
            && 0.0 <= t'.total && (t'.total == 0.0 || t'.total <= budget as real)
            && SumOver(emps, t'.schedules, Ones) as real <= 4.0 * t'.total
  {
    var t' := Booked(t, e.id, d, bits, a);
    var w := Current(t, e.id)[d := bits];
    OwnerAfterBooking(emps, budget, lo, hi, t, e, d, start, n, a, bits);
    SumOverUpdate(emps, t.schedules, e, w, Ones);
    if e.id !in t.schedules {
      ZerosHaveNoOnes(Current(t, e.id));
    }
    assert SumOver(emps, t'.schedules, Ones) <= SumOver(emps, t.schedules, Ones) + n;
    assert (SumOver(emps, t.schedules, Ones) + n) as real == SumOver(emps, t.schedules, Ones) as real + n as real;
  }

  /** Every slot written is also counted once more in the coverage, so the
      counters still dominate the number of employees assigned to each slot. */
  lemma CoverageAfterBooking(emps: seq<Employee>, t: Tally, cov: seq<seq<int>>,
                             e: Employee, d: int, start: int, n: int, a: real, bits: string)
    requires DistinctIds(emps) && e in emps && CoverageShape(cov) && 0 <= d < DaysPerWeek
    requires e.id in t.remaining && e.id in t.scheduled && WeekShape(Current(t, e.id))
    requires bits == Fill(Current(t, e.id)[d], start, start + n - 1)
    requires forall dd, j :: 0 <= dd < DaysPerWeek && 0 <= j < BitsPerDay ==> SumOver(emps, t.schedules, Slot(dd, j)) <= cov[dd][j]
    ensures var sch := Booked(t, e.id, d, bits, a).schedules;
            var cov' := Bump(cov, d, start, start + n - 1);
            && CoverageShape(cov')
            && forall dd, j :: 0 <= dd < DaysPerWeek && 0 <= j < BitsPerDay ==> SumOver(emps, sch, Slot(dd, j)) <= cov'[dd][j]
  {
    var w := Current(t, e.id)[d := bits];
    var cov' := Bump(cov, d, start, start + n - 1);
    forall dd, j | 0 <= dd < DaysPerWeek && 0 <= j < BitsPerDay
      ensures SumOver(emps, t.schedules[e.id := w], Slot(dd, j)) <= cov'[dd][j]
    {
      SumOverUpdate(emps, t.schedules, e, w, Slot(dd, j));
      if e.id !in t.schedules {
        assert Current(t, e.id)[dd][j] == '0';
      }
    }
  }

  lemma SoundIntro(emps: seq<Employee>, budget: int, lo: int, hi: int, t: Tally, cov: seq<seq<int>>)
    requires WellFormed(emps)
    requires t.remaining.Keys == Ids(emps) && t.scheduled.Keys == Ids(emps) && t.schedules.Keys <= Ids(emps)
    requires forall e :: e in emps ==> EmpSound(emps, budget, lo, hi, t, e)
    requires 0.0 <= t.total && (t.total == 0.0 || t.total <= budget as real)
    requires SumOver(emps, t.schedules, Ones) as real <= 4.0 * t.total
    requires CoverageShape(cov)
    requires forall d, j :: 0 <= d < DaysPerWeek && 0 <= j < BitsPerDay ==> SumOver(emps, t.schedules, Slot(d, j)) <= cov[d][j]
    ensures Sound(emps, budget, lo, hi, t, cov)
  {
  }

  /** A booking keeps the whole run sound: t2 and cov2 are the tally and
      coverage after it. */
  lemma BookingKeepsSound(emps: seq<Employee>, budget: int, lo: int, hi: int, t: Tally, cov: seq<seq<int>>,
                          e: Employee, d: int, start: int, n: int, a: real, bits: string, t2: Tally, cov2: seq<seq<int>>)
    requires Sound(emps, budget, lo, hi, t, cov) && e in emps
    requires WeekShape(Current(t, e.id))
    requires Booking(emps, budget, lo, hi, t, e, d, start, n, a, bits)
    requires t2 == Booked(t, e.id, d, bits, a) && cov2 == Bump(cov, d, start, start + n - 1)
    ensures Sound(emps, budget, lo, hi, t2, cov2)
  {
    EmployeesAfterBooking(emps, budget, lo, hi, t, cov, e, d, start, n, a, bits);
    assert EmpSound(emps, budget, lo, hi, t, e);
    TotalsAfterBooking(emps, budget, lo, hi, t, e, d, start, n, a, bits);
    CoverageAfterBooking(emps, t, cov, e, d, start, n, a, bits);
    SoundIntro(emps, budget, lo, hi, t2, cov2);
  }

  /** Every member of a group has 96 slots of availability on the day. */
  lemma DayShapes(emps: seq<Employee>, budget: int, lo: int, hi: int, t: Tally, cov: seq<seq<int>>,
                  group: seq<Employee>, day: int)
    requires Sound(emps, budget, lo, hi, t, cov) && 0 <= day < DaysPerWeek
    requires forall x :: x in group ==> x in emps
    ensures forall x :: x in group ==> 0 <= day < |x.availability| && |x.availability[day]| == BitsPerDay
  {
    forall x | x in group ensures 0 <= day < |x.availability| && |x.availability[day]| == BitsPerDay {
      ShapeOf(emps, budget, lo, hi, t, cov, x);
    }
  }

  /** Every employee's availability and current schedule are 7 x 96. */
  lemma ShapeOf(emps: seq<Employee>, budget: int, lo: int, hi: int, t: Tally, cov: seq<seq<int>>, e: Employee)
    requires Sound(emps, budget, lo, hi, t, cov) && e in emps
    ensures WeekShape(Current(t, e.id)) && WeekShape(e.availability)
  {
    if e.id in t.schedules {
      assert EmpSound(emps, budget, lo, hi, t, e);
    }
  }

  /** No schedule yet: every sum is zero. */
  lemma {:induction false} SumOverEmpty(emps: seq<Employee>, m: Measure)
    ensures SumOver(emps, map[], m) == 0
  {
    if emps != [] {
      SumOverEmpty(emps[1..], m);
    }
  }

  /** The starting tally (nothing booked, every employee holding
      `min(max_hours, target)` hours) with zeroed coverage satisfies the
      invariant. */
  lemma StartingSound(emps: seq<Employee>, budget: int, lo: int, hi: int, t: Tally, cov: seq<seq<int>>)
    requires WellFormed(emps)
    requires t.schedules == map[] && t.total == 0.0
    requires t.remaining.Keys == Ids(emps) && t.scheduled.Keys == Ids(emps)
    requires forall x :: x in emps ==> t.remaining[x.id] == InitialRemaining(emps, x, budget) && t.scheduled[x.id] == 0.0
    requires cov == seq(DaysPerWeek, _ => seq(BitsPerDay, _ => 0))
    ensures Sound(emps, budget, lo, hi, t, cov)
  {
    SumOverEmpty(emps, Ones);
    forall d, j | 0 <= d < DaysPerWeek && 0 <= j < BitsPerDay ensures SumOver(emps, t.schedules, Slot(d, j)) <= cov[d][j] {
      SumOverEmpty(emps, Slot(d, j));
    }
  }

  /** What the invariant says about a finished run: containment, at most
      four slots per hour of `min(max_hours, target)` per employee (so none
      for an employee without hours), at most four slots per budget hour in
      total, and coverage counters at least the number of employees on each
      slot. */
  lemma SoundConsequences(emps: seq<Employee>, budget: int, lo: int, hi: int, t: Tally, cov: seq<seq<int>>)
    requires Sound(emps, budget, lo, hi, t, cov)
    ensures t.schedules.Keys <= Ids(emps)
    ensures forall e :: e in emps && e.id in t.schedules ==>
              && Contained(e, t.schedules[e.id], lo, hi)
              && 1 <= WeekOnes(t.schedules[e.id])
              && WeekOnes(t.schedules[e.id]) as real <= 4.0 * InitialRemaining(emps, e, budget)
    ensures forall e :: e in emps && e.maxHours <= 0.0 ==> e.id !in t.schedules
    ensures SumOver(emps, t.schedules, Ones) as real <= 4.0 * (if budget < 0 then 0 else budget) as real
    ensures CoverageShape(cov)
    ensures forall d, j :: 0 <= d < DaysPerWeek && 0 <= j < BitsPerDay ==> SumOver(emps, t.schedules, Slot(d, j)) <= cov[d][j]
  {
    forall e | e in emps && e.id in t.schedules
      ensures WeekOnes(t.schedules[e.id]) as real <= 4.0 * InitialRemaining(emps, e, budget)
    {
      assert EmpSound(emps, budget, lo, hi, t, e);
    }
    forall e | e in emps && e.maxHours <= 0.0 ensures e.id !in t.schedules {
      assert EmpSound(emps, budget, lo, hi, t, e);
    }
  }

  /** An assignment that goes ahead is a booking of `int(allowed * 4)` slots worth `allowed` hours. */
  lemma AssignIsBooking(emps: seq<Employee>, budget: int, lo: int, hi: int, t: Tally,
                        e: Employee, d: int, start: int, end: int, a: real, n: int, bits: string)
    requires e.id in t.remaining && 0 <= d < DaysPerWeek
    requires 0 <= start && lo <= start && end <= hi && end < BitsPerDay
    requires WeekShape(Current(t, e.id)) && WeekShape(e.availability)
    requires forall i :: start <= i <= end ==> e.availability[d][i] == '0'
    requires a == Allowed(t, e.id, start, end, budget) && Assigns(a) && n == Trunc(a * 4.0)
    requires bits == Fill(Current(t, e.id)[d], start, start + n - 1)
    requires Count(bits, '1') <= Count(Current(t, e.id)[d], '1') + n
    ensures Booking(emps, budget, lo, hi, t, e, d, start, n, a, bits)
  {
    AssignSize(t, e.id, start, end, budget);
  }

  // ---------------------------------------------------------------------
  // Pass 2 may select slots that are already assigned

  /** Booking the same slice twice: the second booking leaves the week as it
      was, yet still adds `allowed` to `scheduled_hours`, so booked hours can
      exceed the assigned slots / 4. */
  lemma {:induction false} RebookingCountsTwice(t: Tally, id: EmpId, d: int, start: int, n: int, a: real)
    requires id in t.remaining && id in t.scheduled && 0 <= d < |Current(t, id)|
    requires a > 0.0
    ensures var bits := Fill(Current(t, id)[d], start, start + n - 1);
            var t1 := Booked(t, id, d, bits, a);
            var t2 := Booked(t1, id, d, Fill(Current(t1, id)[d], start, start + n - 1), a);
            && t2.schedules == t1.schedules
            && t2.scheduled[id] == t1.scheduled[id] + a > t1.scheduled[id]
  {
    var bits := Fill(Current(t, id)[d], start, start + n - 1);
    var t1 := Booked(t, id, d, bits, a);
    assert Current(t1, id)[d] == bits;
    assert Fill(bits, start, start + n - 1) == bits;
    assert Current(t1, id)[d := bits] == Current(t1, id);
  }
}
