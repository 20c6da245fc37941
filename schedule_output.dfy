/** What `generate_schedule` does with the engine's result: it compares every
    alternative with the first schedule, clears shifts of alternatives that
    are too similar, turns every schedule's '1' runs into shift entries and
    pads the list to the number requested. The engine ignores its seed, so
    every iteration receives the same engine result. */
module ScheduleOutput {
  import opened Wrappers
  import opened Bitstrings
  import opened EngineSpec
  import opened Islands

  /** The engine's `{employee id: week}` dictionary, in insertion order. */
  type Schedule = seq<(EmpId, Week)>

  // ---------------------------------------------------------------------
  // Runs of '1' and the shift entries they become

  /** The end of the run of '1' starting at i: the first non-'1' slot at or
      after i, or the end of the string. */
  function RunEnd(s: string, i: int): (j: int)
    requires 0 <= i <= |s|
    ensures i <= j <= |s|
    ensures forall k :: i <= k < j ==> s[k] == '1'
    ensures j == |s| || s[j] != '1'
    decreases |s| - i
  {
    if i == |s| || s[i] != '1' then i else RunEnd(s, i + 1)
  }

  /** r lists runs of '1' in s[i..], as half-open [start, end) pairs, left
      to right: each starts at a '1' that does not continue a run begun
      before i, stops at the first slot that is not '1', and is separated
      from the next by at least one such slot. */
  ghost predicate RunsFrom(s: string, i: int, r: seq<(int, int)>)
    requires 0 <= i
  {
    && (forall k :: 0 <= k < |r| ==>
          && i <= r[k].0 < r[k].1 <= |s| && s[r[k].0] == '1'
          && (r[k].0 == i || s[r[k].0 - 1] != '1')
          && (r[k].1 == |s| || s[r[k].1] != '1'))
    && (forall k :: 0 <= k < |r| - 1 ==> r[k].1 < r[k + 1].0)
  }

  /** The runs of '1' in s[i..]. */
  function Runs(s: string, i: int): (r: seq<(int, int)>)
    requires 0 <= i <= |s|
    ensures RunsFrom(s, i, r)
    decreases |s| - i
  {
    if i == |s| then []
    else if s[i] != '1' then
      var rest := Runs(s, i + 1);
      RunsSkip(s, i, rest);
      rest
    else
      var j := RunEnd(s, i);
      var rest := Runs(s, j);
      RunsCons(s, i, j, rest);
      [(i, j)] + rest
  }

  /** Past a slot that is not '1', the runs after it are the runs from it. */
  lemma RunsSkip(s: string, i: int, rest: seq<(int, int)>)
    requires 0 <= i < |s| && s[i] != '1'
    requires RunsFrom(s, i + 1, rest)
    ensures RunsFrom(s, i, rest)
  {
  }

  /** A run from i to j followed by the runs after j: the runs from i. */
  lemma RunsCons(s: string, i: int, j: int, rest: seq<(int, int)>)
    requires 0 <= i < j <= |s| && (j == |s| || s[j] != '1')
    requires forall k :: i <= k < j ==> s[k] == '1'
    requires RunsFrom(s, j, rest)
    ensures RunsFrom(s, i, [(i, j)] + rest)
  {
    var r := [(i, j)] + rest;
    forall k | 1 <= k < |r| ensures r[k] == rest[k - 1] && j < r[k].0 {
      assert r[k] == rest[k - 1];
    }
  }

  /** The slot-by-slot unfolding of Runs. */
  lemma RunsStep(s: string, i: int)
    requires 0 <= i < |s|
    ensures s[i] != '1' ==> Runs(s, i) == Runs(s, i + 1) && RunEnd(s, i) == i
    ensures s[i] == '1' ==> Runs(s, i) == [(i, RunEnd(s, i))] + Runs(s, RunEnd(s, i)) && RunEnd(s, i) == RunEnd(s, i + 1)
  {
  }

  /** Some run of r contains slot p. */
  ghost predicate Covers(r: seq<(int, int)>, p: int) {
    exists k :: 0 <= k < |r| && r[k].0 <= p < r[k].1
  }

  lemma CoversCons(x: (int, int), r: seq<(int, int)>, p: int)
    ensures Covers([x] + r, p) <==> x.0 <= p < x.1 || Covers(r, p)
  {
    var xr := [x] + r;
    assert xr[0] == x;
    if x.0 <= p < x.1 {
      assert Covers(xr, p);
    }
    if Covers(r, p) {
      var k :| 0 <= k < |r| && r[k].0 <= p < r[k].1;
      assert xr[k + 1] == r[k];
      assert Covers(xr, p);
    }
    if Covers(xr, p) {
      var k :| 0 <= k < |xr| && xr[k].0 <= p < xr[k].1;
      if k > 0 {
        assert xr[k] == r[k - 1];
      }
    }
  }

  /** No run starting at or after q covers a slot before q. */
  lemma NotCoveredBefore(r: seq<(int, int)>, q: int, p: int)
    requires forall k :: 0 <= k < |r| ==> q <= r[k].0
    requires p < q
    ensures !Covers(r, p)
  {
  }

  /** The runs cover exactly the '1' slots of s[i..]. */
  lemma {:induction false} RunsCover(s: string, i: int)
    requires 0 <= i <= |s|
    ensures forall p :: i <= p < |s| ==> (s[p] == '1' <==> Covers(Runs(s, i), p))
    decreases |s| - i
  {
    if i < |s| {
      RunsStep(s, i);
      if s[i] != '1' {
        RunsCover(s, i + 1);
        NotCoveredBefore(Runs(s, i + 1), i + 1, i);
      } else {
        var j := RunEnd(s, i);
        RunsCover(s, j);
        forall p | i <= p < |s| ensures s[p] == '1' <==> Covers(Runs(s, i), p) {
          CoversCons((i, j), Runs(s, j), p);
          if p < j {
            NotCoveredBefore(Runs(s, j), j, p);
          }
        }
      }
    }
  }

  /** Runs are in increasing order overall, not only neighbour by neighbour. */
  lemma RunsOrdered(s: string, i: int)
    requires 0 <= i <= |s|
    ensures forall k, k' :: 0 <= k < k' < |Runs(s, i)| ==> Runs(s, i)[k].1 < Runs(s, i)[k'].0
  {
    var r := Runs(s, i);
    forall k, k' | 0 <= k < k' < |r| ensures r[k].1 < r[k'].0 {
      var m := k + 1;
      while m < k'
        invariant k < m <= k' && r[k].1 < r[m].0
      {
        m := m + 1;
      }
    }
  }

  /** The day the runs describe: '1' inside a run, '0' elsewhere. */
  ghost function Paint(n: nat, r: seq<(int, int)>): (s: string)
    ensures |s| == n
  {
    seq(n, p => if Covers(r, p) then '1' else '0')
  }

  /** Painting the runs of a binary day gives the day back. */
  lemma RunsRoundTrip(s: string)
    requires IsBinary(s)
    ensures Paint(|s|, Runs(s, 0)) == s
  {
    RunsCover(s, 0);
  }

  /** A day has no runs exactly when it has no '1'. */
  lemma NoRunsNoOnes(s: string)
    ensures Runs(s, 0) == [] <==> forall p :: 0 <= p < |s| ==> s[p] != '1'
  {
    RunsCover(s, 0);
    if Runs(s, 0) != [] {
      assert s[Runs(s, 0)[0].0] == '1';
    }
  }

  /** One shift of an entry: day and half-open slot range. */
  datatype Shift = Shift(day: int, startSlot: int, endSlot: int)

  /** Minutes after the base Monday's midnight at which the shift starts and
      ends: `timedelta(days=day_idx, minutes=slot * 15)`. */
  function Interval(sh: Shift): (r: (int, int))
    ensures r.1 - r.0 == 15 * (sh.endSlot - sh.startSlot)
    ensures 0 <= sh.day && 0 <= sh.startSlot && sh.endSlot <= BitsPerDay ==> sh.day * 1440 <= r.0 && r.1 <= (sh.day + 1) * 1440
  {
    (sh.day * 1440 + sh.startSlot * 15, sh.day * 1440 + sh.endSlot * 15)
  }

  function DayShifts(d: int, r: seq<(int, int)>): seq<Shift>
  {
    seq(|r|, k requires 0 <= k < |r| => Shift(d, r[k].0, r[k].1))
  }

  /** The shifts of a week, day by day. */
  function WeekShifts(week: Week): seq<Shift> {
    if week == [] then []
    else WeekShifts(week[..|week| - 1]) + DayShifts(|week| - 1, Runs(week[|week| - 1], 0))
  }

  /** Every shift lies inside its day. */
  ghost predicate ShiftsInside(week: Week, sh: seq<Shift>) {
    forall k :: 0 <= k < |sh| ==> 0 <= sh[k].day < |week| && 0 <= sh[k].startSlot < sh[k].endSlot <= |week[sh[k].day]|
  }

  /** The shifts come day by day, each day's in order with a gap between
      consecutive ones. */
  ghost predicate ShiftsOrdered(sh: seq<Shift>) {
    forall k, k' :: 0 <= k < k' < |sh| ==>
      sh[k].day < sh[k'].day || (sh[k].day == sh[k'].day && sh[k].endSlot < sh[k'].startSlot)
  }

  /** Some shift covers slot i of day d. */
  ghost predicate OnShift(sh: seq<Shift>, d: int, i: int) {
    exists k :: 0 <= k < |sh| && sh[k].day == d && sh[k].startSlot <= i < sh[k].endSlot
  }

  /** A slot is assigned exactly when a shift covers it. */
  ghost predicate ShiftsCover(week: Week, sh: seq<Shift>) {
    forall d, i :: 0 <= d < |week| && 0 <= i < |week[d]| ==> (week[d][i] == '1' <==> OnShift(sh, d, i))
  }

  lemma DayShiftsInside(week: Week, n: int)
    requires 0 <= n < |week|
    ensures ShiftsInside(week, DayShifts(n, Runs(week[n], 0)))
    ensures ShiftsOrdered(DayShifts(n, Runs(week[n], 0)))
    ensures forall k :: 0 <= k < |DayShifts(n, Runs(week[n], 0))| ==> DayShifts(n, Runs(week[n], 0))[k].day == n
  {
    RunsOrdered(week[n], 0);
  }

  lemma {:induction false} WeekShiftsInside(week: Week)
    ensures ShiftsInside(week, WeekShifts(week))
    ensures forall k :: 0 <= k < |WeekShifts(week)| ==> WeekShifts(week)[k].day < |week|
  {
    if week != [] {
      var n := |week| - 1;
      var init := week[..n];
      WeekShiftsInside(init);
      DayShiftsInside(week, n);
      var head := WeekShifts(init);
      var tail := DayShifts(n, Runs(week[n], 0));
      var sh := head + tail;
      forall k | 0 <= k < |sh|
        ensures 0 <= sh[k].day < |week| && 0 <= sh[k].startSlot < sh[k].endSlot <= |week[sh[k].day]|
      {
        if k < |head| {
          assert sh[k] == head[k] && week[head[k].day] == init[head[k].day];
        } else {
          assert sh[k] == tail[k - |head|];
        }
      }
    }
  }

  lemma {:induction false} WeekShiftsOrdered(week: Week)
    ensures ShiftsOrdered(WeekShifts(week))
  {
    if week != [] {
      var n := |week| - 1;
      var init := week[..n];
      WeekShiftsOrdered(init);
      WeekShiftsInside(init);
      DayShiftsInside(week, n);
      var head := WeekShifts(init);
      var tail := DayShifts(n, Runs(week[n], 0));
      var sh := head + tail;
      forall k, k' | 0 <= k < k' < |sh|
        ensures sh[k].day < sh[k'].day || (sh[k].day == sh[k'].day && sh[k].endSlot < sh[k'].startSlot)
      {
        if k' < |head| {
          assert sh[k] == head[k] && sh[k'] == head[k'];
        } else if k < |head| {
          assert sh[k] == head[k] && sh[k'] == tail[k' - |head|];
        } else {
          assert sh[k] == tail[k - |head|] && sh[k'] == tail[k' - |head|];
        }
      }
    }
  }

  lemma OnShiftSplit(head: seq<Shift>, tail: seq<Shift>, d: int, i: int)
    ensures OnShift(head + tail, d, i) <==> OnShift(head, d, i) || OnShift(tail, d, i)
  {
    var sh := head + tail;
    if OnShift(head, d, i) {
      var k :| 0 <= k < |head| && head[k].day == d && head[k].startSlot <= i < head[k].endSlot;
      assert sh[k] == head[k];
    }
    if OnShift(tail, d, i) {
      var k :| 0 <= k < |tail| && tail[k].day == d && tail[k].startSlot <= i < tail[k].endSlot;
      assert sh[|head| + k] == tail[k];
    }
    if OnShift(sh, d, i) {
      var k :| 0 <= k < |sh| && sh[k].day == d && sh[k].startSlot <= i < sh[k].endSlot;
      if k < |head| {
        assert sh[k] == head[k];
      } else {
        assert sh[k] == tail[k - |head|];
      }
    }
  }

  /** The shifts of day n cover its slot i exactly when one of its runs does. */
  lemma OnDayShift(n: int, r: seq<(int, int)>, d: int, i: int)
    ensures OnShift(DayShifts(n, r), d, i) <==> d == n && Covers(r, i)
  {
    var sh := DayShifts(n, r);
    if OnShift(sh, d, i) {
      var k :| 0 <= k < |sh| && sh[k].day == d && sh[k].startSlot <= i < sh[k].endSlot;
      assert r[k].0 <= i < r[k].1;
    }
    if d == n && Covers(r, i) {
      var k :| 0 <= k < |r| && r[k].0 <= i < r[k].1;
      assert sh[k].day == d && sh[k].startSlot <= i < sh[k].endSlot;
    }
  }

  lemma {:induction false} WeekShiftsCover(week: Week)
    ensures ShiftsCover(week, WeekShifts(week))
  {
    if week != [] {
      var n := |week| - 1;
      var init := week[..n];
      WeekShiftsCover(init);
      WeekShiftsInside(init);
      RunsCover(week[n], 0);
      var head := WeekShifts(init);
      var r := Runs(week[n], 0);
      forall d, i | 0 <= d < |week| && 0 <= i < |week[d]|
        ensures week[d][i] == '1' <==> OnShift(WeekShifts(week), d, i)
      {
        OnShiftSplit(head, DayShifts(n, r), d, i);
        OnDayShift(n, r, d, i);
        if d < n {
          assert week[d] == init[d];
        }
      }
    }
  }

  /** A week has no shifts exactly when nothing is assigned in it. */
  lemma NoShiftsNoOnes(week: Week)
    ensures WeekShifts(week) == [] <==> forall d, i :: 0 <= d < |week| && 0 <= i < |week[d]| ==> week[d][i] != '1'
  {
    WeekShiftsCover(week);
    WeekShiftsInside(week);
    var sh := WeekShifts(week);
    if sh != [] {
      assert OnShift(sh, sh[0].day, sh[0].startSlot);
      assert week[sh[0].day][sh[0].startSlot] == '1';
    }
    if exists d, i :: 0 <= d < |week| && 0 <= i < |week[d]| && week[d][i] == '1' {
      var d, i :| 0 <= d < |week| && 0 <= i < |week[d]| && week[d][i] == '1';
      assert OnShift(sh, d, i);
    }
  }

  /** The inner loop over one day: a run ends at the first slot that is not
      '1', and a run still open at the end of the day ends at its length. */
  method EmitDay(d: int, bitstring: string) returns (events: seq<Shift>)
    ensures events == DayShifts(d, Runs(bitstring, 0))
  {
    events := [];
    ghost var runs: seq<(int, int)> := [];
    var startSlot: Option<int> := None;
    for slotIdx := 0 to |bitstring|
      invariant events == DayShifts(d, runs)
      invariant Scanned(bitstring, runs, startSlot, slotIdx)
    {
      ScanStep(bitstring, runs, startSlot, slotIdx);
      if bitstring[slotIdx] == '1' {
        if startSlot.None? {
          startSlot := Some(slotIdx);
        }
      } else if startSlot.Some? {
        assert DayShifts(d, runs + [(startSlot.value, slotIdx)]) == events + [Shift(d, startSlot.value, slotIdx)];
        events := events + [Shift(d, startSlot.value, slotIdx)];
        runs := runs + [(startSlot.value, slotIdx)];
        startSlot := None;
      }
    }
    ScanEnd(bitstring, runs, startSlot);
    if startSlot.Some? {
      assert DayShifts(d, runs + [(startSlot.value, |bitstring|)]) == events + [Shift(d, startSlot.value, |bitstring|)];
      events := events + [Shift(d, startSlot.value, |bitstring|)];
    }
  }

  /** After scanning s[..idx]: the runs closed so far, then the run still
      open (if any), then the runs of the rest make up all runs of s. */
  ghost predicate Scanned(s: string, runs: seq<(int, int)>, start: Option<int>, idx: int) {
    && 0 <= idx <= |s|
    && (start.None? ==> Runs(s, 0) == runs + Runs(s, idx))
    && (start.Some? ==> 0 <= start.value < idx && Runs(s, 0) == runs + [(start.value, RunEnd(s, idx))] + Runs(s, RunEnd(s, idx)))
  }

  lemma ScanStep(s: string, runs: seq<(int, int)>, start: Option<int>, idx: int)
    requires Scanned(s, runs, start, idx) && idx < |s|
    ensures s[idx] == '1' ==> Scanned(s, runs, if start.None? then Some(idx) else start, idx + 1)
    ensures s[idx] != '1' && start.Some? ==> Scanned(s, runs + [(start.value, idx)], None, idx + 1)
    ensures s[idx] != '1' && start.None? ==> Scanned(s, runs, None, idx + 1)
  {
    if s[idx] == '1' {
      ScanOne(s, runs, start, idx);
    } else if start.Some? {
      ScanClose(s, runs, start.value, idx);
    } else {
      ScanZero(s, runs, idx);
    }
  }

  /** A '1' opens a run or continues the open one. */
  lemma ScanOne(s: string, runs: seq<(int, int)>, start: Option<int>, idx: int)
    requires Scanned(s, runs, start, idx) && idx < |s| && s[idx] == '1'
    ensures Scanned(s, runs, if start.None? then Some(idx) else start, idx + 1)
  {
    if start.None? {
      ScanOpen(s, runs, idx);
    } else {
      RunsStep(s, idx);
    }
  }

  /** A '1' outside a run opens one. */
  lemma ScanOpen(s: string, runs: seq<(int, int)>, idx: int)
    requires Scanned(s, runs, None, idx) && idx < |s| && s[idx] == '1'
    ensures Scanned(s, runs, Some(idx), idx + 1)
  {
    RunsStep(s, idx);
    var j := RunEnd(s, idx);
    assert runs + Runs(s, idx) == runs + [(idx, j)] + Runs(s, j);
  }

  /** A slot that is not '1' closes the open run. */
  lemma ScanClose(s: string, runs: seq<(int, int)>, start: int, idx: int)
    requires Scanned(s, runs, Some(start), idx) && idx < |s| && s[idx] != '1'
    ensures Scanned(s, runs + [(start, idx)], None, idx + 1)
  {
    assert RunEnd(s, idx) == idx;
    assert Runs(s, idx) == Runs(s, idx + 1);
    assert runs + [(start, idx)] + Runs(s, idx) == (runs + [(start, idx)]) + Runs(s, idx + 1);
  }

  /** A slot that is not '1' outside a run changes nothing. */
  lemma ScanZero(s: string, runs: seq<(int, int)>, idx: int)
    requires Scanned(s, runs, None, idx) && idx < |s| && s[idx] != '1'
    ensures Scanned(s, runs, None, idx + 1)
  {
    assert Runs(s, idx) == Runs(s, idx + 1);
  }

  lemma ScanEnd(s: string, runs: seq<(int, int)>, start: Option<int>)
    requires Scanned(s, runs, start, |s|)
    ensures start.None? ==> Runs(s, 0) == runs
    ensures start.Some? ==> Runs(s, 0) == runs + [(start.value, |s|)]
  {
    if start.None? {
      assert runs + Runs(s, |s|) == runs;
    } else {
      assert runs + [(start.value, |s|)] + Runs(s, |s|) == runs + [(start.value, |s|)];
    }
  }

  /** All shifts of one employee's week. */
  method EmitWeek(week: Week) returns (events: seq<Shift>)
    ensures events == WeekShifts(week)
  {
    events := [];
    for dayIdx := 0 to |week|
      invariant events == WeekShifts(week[..dayIdx])
    {
      var day := EmitDay(dayIdx, week[dayIdx]);
      assert week[..dayIdx + 1][..dayIdx] == week[..dayIdx];
      events := events + day;
    }
    assert week[..|week|] == week;
  }

  /** One entry of a formatted schedule. The employee's names, looked up by
      id, are not part of this model. */
  datatype Entry = Entry(employeeId: EmpId, events: seq<Shift>)

  /** The entries of a schedule: one per employee with at least one shift, in
      dictionary order. */
  function Formatted(schedule: Schedule): seq<Entry> {
    if schedule == [] then []
    else
      var last := schedule[|schedule| - 1];
      var sh := WeekShifts(last.1);
      Formatted(schedule[..|schedule| - 1]) + (if sh != [] then [Entry(last.0, sh)] else [])
  }

  /** e is the entry of some employee of the schedule, with all its shifts. */
  ghost predicate EntryOf(schedule: Schedule, e: Entry) {
    exists k :: 0 <= k < |schedule| && e == Entry(schedule[k].0, WeekShifts(schedule[k].1))
  }

  lemma EntryOfPrefix(schedule: Schedule, n: nat, e: Entry)
    requires n <= |schedule| && EntryOf(schedule[..n], e)
    ensures EntryOf(schedule, e)
  {
    var k :| 0 <= k < n && e == Entry(schedule[..n][k].0, WeekShifts(schedule[..n][k].1));
    assert schedule[..n][k] == schedule[k];
  }

  /** Every entry is an employee's full list of shifts and is not empty; there
      are no more entries than employees. */
  lemma {:induction false} FormattedSound(schedule: Schedule)
    ensures forall e :: e in Formatted(schedule) ==> e.events != [] && EntryOf(schedule, e)
    ensures |Formatted(schedule)| <= |schedule|
  {
    if schedule != [] {
      var n := |schedule| - 1;
      var init := schedule[..n];
      FormattedSound(init);
      forall e | e in Formatted(schedule) ensures e.events != [] && EntryOf(schedule, e) {
        if e in Formatted(init) {
          EntryOfPrefix(schedule, n, e);
        } else {
          assert e == Entry(schedule[n].0, WeekShifts(schedule[n].1));
        }
      }
    }
  }

  /** Every employee with an assigned slot has its entry. */
  lemma {:induction false} FormattedComplete(schedule: Schedule)
    ensures forall k :: 0 <= k < |schedule| && WeekShifts(schedule[k].1) != [] ==> Entry(schedule[k].0, WeekShifts(schedule[k].1)) in Formatted(schedule)
  {
    if schedule != [] {
      var n := |schedule| - 1;
      var init := schedule[..n];
      FormattedComplete(init);
      forall k | 0 <= k < |schedule| && WeekShifts(schedule[k].1) != []
        ensures Entry(schedule[k].0, WeekShifts(schedule[k].1)) in Formatted(schedule)
      {
        if k < n {
          assert schedule[k] == init[k];
          assert Entry(init[k].0, WeekShifts(init[k].1)) in Formatted(init);
        }
      }
    }
  }

  /** The per-employee loop: entries only for employees with shifts. */
  method FormatSchedule(schedule: Schedule) returns (entries: seq<Entry>)
    ensures entries == Formatted(schedule)
  {
    entries := [];
    for n := 0 to |schedule|
      invariant entries == Formatted(schedule[..n])
    {
      var (empId, empSched) := schedule[n];
      var events := EmitWeek(empSched);
      assert schedule[..n + 1][..n] == schedule[..n];
      if events != [] {
        entries := entries + [Entry(empId, events)];
      }
    }
    assert schedule[..|schedule|] == schedule;
  }

  // ---------------------------------------------------------------------
  // Similarity to the first schedule

  /** A week's days joined. */
  function Concat(week: Week): string {
    if week == [] then [] else Concat(week[..|week| - 1]) + week[|week| - 1]
  }

  /** All weeks of a schedule joined, in dictionary order. */
  function Flatten(schedule: Schedule): string {
    if schedule == [] then [] else Flatten(schedule[..|schedule| - 1]) + Concat(schedule[|schedule| - 1].1)
  }

  /** Positions, up to the shorter string, that are '1' in both. */
  function Overlap(a: string, b: string): nat {
    if a == [] || b == [] then 0
    else (if a[0] == '1' && b[0] == '1' then 1 else 0) + Overlap(a[1..], b[1..])
  }

  /** The overlap never exceeds the '1's of the first string. */
  lemma {:induction false} OverlapBound(a: string, b: string)
    ensures Overlap(a, b) <= Count(a, '1')
  {
    if a != [] && b != [] {
      OverlapBound(a[1..], b[1..]);
    }
  }

  /** A string overlaps itself in all of its '1's. */
  lemma {:induction false} SelfOverlap(a: string)
    ensures Overlap(a, a) == Count(a, '1')
  {
    if a != [] {
      SelfOverlap(a[1..]);
    }
  }

  /** `overlap / total if total > 0 else 0`, over `zip` of the two strings. */
  method Similarity(optimal: string, current: string) returns (similarity: real)
    ensures 0.0 <= similarity <= 1.0
    ensures Count(optimal, '1') == 0 ==> similarity == 0.0
    ensures Count(optimal, '1') > 0 ==> similarity == Overlap(optimal, current) as real / Count(optimal, '1') as real
  {
    var overlap := 0;
    var n := if |optimal| < |current| then |optimal| else |current|;
    for i := 0 to n
      invariant overlap + Overlap(optimal[i..], current[i..]) == Overlap(optimal, current)
    {
      assert optimal[i..][1..] == optimal[i + 1..] && current[i..][1..] == current[i + 1..];
      if optimal[i] == current[i] && optimal[i] == '1' {
        overlap := overlap + 1;
      }
    }
    var total := Count(optimal, '1');
    OverlapBound(optimal, current);
    if total > 0 {
      FractionAtMostOne(overlap, total);
      similarity := overlap as real / total as real;
    } else {
      similarity := 0.0;
    }
  }

  /** An alternative equal to the first schedule is as similar as can be:
      whenever the first schedule assigns anything, it is diversified. */
  lemma IdenticalIsTooSimilar(s: string)
    requires Count(s, '1') > 0
    ensures Overlap(s, s) as real / Count(s, '1') as real == 1.0
    ensures Overlap(s, s) as real / Count(s, '1') as real > 0.8
  {
    SelfOverlap(s);
  }

  /** A schedule whose joined text has a '1' has an employee. */
  lemma OnesNeedEmployees(schedule: Schedule)
    requires Count(Flatten(schedule), '1') > 0
    ensures schedule != []
  {
  }

  // ---------------------------------------------------------------------
  // Clearing a shift

  /** The first position at or after i holding c, or the end of the string. */
  function FindFrom(s: string, c: char, i: int): (j: int)
    requires 0 <= i <= |s|
    ensures i <= j <= |s|
    ensures forall p :: i <= p < j ==> s[p] != c
    ensures j < |s| ==> s[j] == c
    decreases |s| - i
  {
    if i == |s| || s[i] == c then i else FindFrom(s, c, i + 1)
  }

  /** The day with its first run of '1' cleared, provided a '0' follows the
      run; a first run reaching the end of the day is left alone. */
  function ClearFirst(s: string): (r: string)
    ensures |r| == |s|
  {
    var a := FindFrom(s, '1', 0);
    var b := if a < |s| then FindFrom(s, '0', a) else |s|;
    if b == |s| then s
    else seq(|s|, p requires 0 <= p < |s| => if a <= p < b then '0' else s[p])
  }

  /** Clearing only writes '0', and it changes the day exactly when some '1'
      of it comes before some '0'. */
  lemma ClearFirstChanges(s: string)
    ensures forall p :: 0 <= p < |s| && ClearFirst(s)[p] != s[p] ==> ClearFirst(s)[p] == '0'
    ensures ClearFirst(s) != s <==> exists p, q :: 0 <= p < q < |s| && s[p] == '1' && s[q] == '0'
  {
    var a := FindFrom(s, '1', 0);
    if exists p, q :: 0 <= p < q < |s| && s[p] == '1' && s[q] == '0' {
      var p, q :| 0 <= p < q < |s| && s[p] == '1' && s[q] == '0';
      assert a <= p;
      assert FindFrom(s, '0', a) <= q;
      assert ClearFirst(s)[a] == '0';
    }
  }

  /** What is cleared is the first run of '1': it starts at the first '1',
      every slot of it is '1', and it stops at the '0' after it. */
  lemma ClearFirstIsFirstRun(s: string)
    requires ClearFirst(s) != s
    ensures exists a, b :: 0 <= a < b < |s| && s[b] == '0'
              && (forall p :: 0 <= p < a ==> s[p] != '1')
              && (forall p :: a <= p < b ==> s[p] == '1' || s[p] != '0')
              && s[a] == '1'
              && forall p :: 0 <= p < |s| ==> ClearFirst(s)[p] == if a <= p < b then '0' else s[p]
  {
    var a := FindFrom(s, '1', 0);
    var b := FindFrom(s, '0', a);
    assert a < |s| && b < |s|;
  }

  /** The source's clearing loop over one day's bits. */
  method ClearFirstShift(dayBits: string) returns (cleared: string)
    ensures cleared == ClearFirst(dayBits)
  {
    var bits := dayBits;
    var inShift := false;
    var shiftStart := 0;
    var idx := 0;
    while idx < |bits|
      invariant 0 <= idx <= |bits| && bits == dayBits
      invariant !inShift ==> FindFrom(dayBits, '1', 0) >= idx
      invariant inShift ==> shiftStart == FindFrom(dayBits, '1', 0) && shiftStart < idx
      invariant inShift ==> FindFrom(dayBits, '0', shiftStart) >= idx
    {
      var bit := bits[idx];
      if bit == '1' && !inShift {
        inShift := true;
        shiftStart := idx;
      }
      if bit == '0' && inShift {
        var shiftEnd := idx;
        for j := shiftStart to shiftEnd
          invariant |bits| == |dayBits|
          invariant forall p :: 0 <= p < |bits| ==> bits[p] == if shiftStart <= p < j then '0' else dayBits[p]
        {
          bits := bits[j := '0'];
        }
        cleared := bits;
        return;
      }
      idx := idx + 1;
    }
    cleared := bits;
  }

  /** t arises from s by clearing: same employees in the same order, same
      shape, and no slot assigned in t that is not assigned in s. */
  ghost predicate Thinned(s: Schedule, t: Schedule) {
    && |t| == |s|
    && forall k :: 0 <= k < |s| ==>
         && t[k].0 == s[k].0 && |t[k].1| == |s[k].1|
         && forall d :: 0 <= d < |s[k].1| ==>
              && |t[k].1[d]| == |s[k].1[d]|
              && forall i :: 0 <= i < |s[k].1[d]| && t[k].1[d][i] == '1' ==> s[k].1[d][i] == '1'
  }

  /** Every week has the days 0..4 the clearing draws from. */
  ghost predicate HasWeekdays(schedule: Schedule) {
    forall k :: 0 <= k < |schedule| ==> 5 <= |schedule[k].1|
  }

  /** Clearing changes none of the days 0..4 of any employee. */
  ghost predicate Settled(schedule: Schedule) {
    forall k, d :: 0 <= k < |schedule| && 0 <= d <= 4 && d < |schedule[k].1| ==> ClearFirst(schedule[k].1[d]) == schedule[k].1[d]
  }

  /** t is thinned from s, and every day that differs is one of the drawn
      (employee, day) pairs, with a day among 0..4. */
  ghost predicate ChangedOnlyDrawn(s: Schedule, t: Schedule, drawn: seq<(int, int)>) {
    && Thinned(s, t)
    && forall k, d :: 0 <= k < |s| && 0 <= d < |s[k].1| && t[k].1[d] != s[k].1[d] ==> (k, d) in drawn && d <= 4
  }

  /** The schedule after clearing the first shift of day d of employee k. */
  function ClearAt(t: Schedule, k: int, d: int): (r: Schedule)
    requires 0 <= k < |t| && 0 <= d < |t[k].1|
    ensures |r| == |t| && r[k].0 == t[k].0 && |r[k].1| == |t[k].1|
    ensures forall d' :: 0 <= d' < |t[k].1| && d' != d ==> r[k].1[d'] == t[k].1[d']
    ensures r[k].1[d] == ClearFirst(t[k].1[d])
    ensures forall k' :: 0 <= k' < |t| && k' != k ==> r[k'] == t[k']
  {
    t[k := (t[k].0, t[k].1[d := ClearFirst(t[k].1[d])])]
  }

  /** One round of clearing keeps t thinned from s and its changes drawn. */
  lemma {:induction false} ClearAtKeeps(s: Schedule, t: Schedule, drawn: seq<(int, int)>, k: int, d: int)
    requires ChangedOnlyDrawn(s, t, drawn) && 0 <= k < |t| && 0 <= d <= 4 && d < |t[k].1|
    ensures ChangedOnlyDrawn(s, ClearAt(t, k, d), drawn + [(k, d)])
  {
    var r := ClearAt(t, k, d);
    ClearFirstChanges(t[k].1[d]);
    forall k', d' | 0 <= k' < |s| && 0 <= d' < |s[k'].1| && r[k'].1[d'] != s[k'].1[d']
      ensures (k', d') in drawn + [(k, d)] && d' <= 4
    {
      if k' != k || d' != d {
        assert r[k'].1[d'] == t[k'].1[d'];
      }
    }
  }

  /** A settled schedule is left alone by a round of clearing. */
  lemma ClearAtSettled(t: Schedule, k: int, d: int)
    requires Settled(t) && 0 <= k < |t| && 0 <= d <= 4 && d < |t[k].1|
    ensures ClearAt(t, k, d) == t
  {
    assert t[k].1[d := ClearFirst(t[k].1[d])] == t[k].1;
  }

  /** The diversification: three times, a random employee and a random day
      among Monday..Friday have that day's first shift cleared. With no
      employee, `random.choice` fails. Only the three drawn days can change. */
  method Diversify(schedule: Schedule) returns (result: Option<Schedule>, ghost drawn: seq<(int, int)>)
    requires HasWeekdays(schedule)
    ensures result.None? <==> schedule == []
    ensures result.Some? ==> ChangedOnlyDrawn(schedule, result.value, drawn) && HasWeekdays(result.value)
    ensures result.Some? && Settled(schedule) ==> result.value == schedule
  {
    drawn := [];
    if schedule == [] {
      return None, drawn;
    }
    var current := schedule;
    for round := 0 to 3
      invariant ChangedOnlyDrawn(schedule, current, drawn) && HasWeekdays(current)
      invariant Settled(schedule) ==> current == schedule
    {
      var k :| 0 <= k < |current|;
      var dayIdx :| 0 <= dayIdx <= 4;
      var dayBits := ClearFirstShift(current[k].1[dayIdx]);
      ClearAtKeeps(schedule, current, drawn, k, dayIdx);
      if Settled(schedule) {
        ClearAtSettled(current, k, dayIdx);
      }
      assert current[k := (current[k].0, current[k].1[dayIdx := dayBits])] == ClearAt(current, k, dayIdx);
      current := current[k := (current[k].0, current[k].1[dayIdx := dayBits])];
      drawn := drawn + [(k, dayIdx)];
    }
    return Some(current), drawn;
  }

  // ---------------------------------------------------------------------
  // Padding and the whole post-processing

  /** `while len(schedules) < num_schedules: schedules.append(schedules[0])`;
      on an empty list `schedules[0]` fails. */
  method Pad<T>(schedules: seq<T>, numSchedules: int) returns (padded: Option<seq<T>>)
    ensures padded.None? <==> schedules == [] && numSchedules > 0
    ensures padded.Some? ==> |padded.value| == (if numSchedules > |schedules| then numSchedules else |schedules|)
    ensures padded.Some? ==> padded.value[..|schedules|] == schedules
    ensures padded.Some? ==> forall i :: |schedules| <= i < |padded.value| ==> padded.value[i] == schedules[0]
  {
    if schedules == [] && numSchedules > 0 {
      return None;
    }
    var result := schedules;
    while |result| < numSchedules
      invariant |schedules| <= |result| && (|result| > |schedules| ==> |result| <= numSchedules)
      invariant result[..|schedules|] == schedules
      invariant forall i :: |schedules| <= i < |result| ==> result[i] == schedules[0]
      decreases numSchedules - |result|
    {
      result := result + [result[0]];
    }
    return Some(result);
  }

  /** What the rounds so far produced: formatted schedules of variants
      thinned from the engine's result, the first being that result, and
      all of them that result when it has nothing to clear. */
  ghost predicate Produced(engineResult: Schedule, generated: seq<seq<Entry>>, variants: seq<Schedule>) {
    && |generated| == |variants|
    && (|variants| > 0 ==> variants[0] == engineResult)
    && forall j :: 0 <= j < |generated| ==>
         && generated[j] == Formatted(variants[j])
         && Thinned(engineResult, variants[j])
         && (Count(Flatten(engineResult), '1') == 0 || Settled(engineResult) ==> variants[j] == engineResult)
  }

  lemma ProducedSnoc(engineResult: Schedule, generated: seq<seq<Entry>>, variants: seq<Schedule>, schedule: Schedule)
    requires Produced(engineResult, generated, variants)
    requires Thinned(engineResult, schedule)
    requires variants == [] || Count(Flatten(engineResult), '1') == 0 || Settled(engineResult) ==> schedule == engineResult
    ensures Produced(engineResult, generated + [Formatted(schedule)], variants + [schedule])
  {
    var g := generated + [Formatted(schedule)];
    var v := variants + [schedule];
    forall j | 0 <= j < |g|
      ensures g[j] == Formatted(v[j]) && Thinned(engineResult, v[j])
              && (Count(Flatten(engineResult), '1') == 0 || Settled(engineResult) ==> v[j] == engineResult)
    {
      if j < |generated| {
        assert g[j] == generated[j] && v[j] == variants[j];
      }
    }
  }

  /** The loop of `generate_schedule`: one formatted schedule per round,
      the engine's result first. */
  method BuildVariants(engineResult: Schedule, numSchedules: int) returns (generated: seq<seq<Entry>>, ghost variants: seq<Schedule>)
    requires 0 <= numSchedules && HasWeekdays(engineResult)
    ensures |generated| == numSchedules
    ensures Produced(engineResult, generated, variants)
  {
    generated := [];
    variants := [];
    var optimalBits := Flatten(engineResult);
    for i := 0 to numSchedules
      invariant |generated| == i
      invariant Produced(engineResult, generated, variants)
    {
      var schedule := Variant(engineResult, optimalBits, i);
      var formatted := FormatSchedule(schedule);
      ProducedSnoc(engineResult, generated, variants, schedule);
      generated := generated + [formatted];
      variants := variants + [schedule];
    }
  }

  /** Schedule i of the loop: the engine's result first, then alternatives. */
  method Variant(engineResult: Schedule, optimalBits: string, i: int) returns (schedule: Schedule)
    requires HasWeekdays(engineResult) && optimalBits == Flatten(engineResult)
    ensures Thinned(engineResult, schedule)
    ensures i <= 0 || Count(optimalBits, '1') == 0 || Settled(engineResult) ==> schedule == engineResult
  {
    schedule := engineResult;
    ThinnedRefl(engineResult);
    if i > 0 {
      ghost var drawn;
      schedule, drawn := Alternative(engineResult, optimalBits);
    }
  }

  /** Every schedule is thinned from itself. */
  lemma ThinnedRefl(s: Schedule)
    ensures Thinned(s, s)
  {
  }

  /** One alternative: the engine's result, diversified when it is more than
      80% similar to the first schedule (whose text is optimalBits). */
  method Alternative(engineResult: Schedule, optimalBits: string) returns (schedule: Schedule, ghost drawn: seq<(int, int)>)
    requires HasWeekdays(engineResult) && optimalBits == Flatten(engineResult)
    ensures ChangedOnlyDrawn(engineResult, schedule, drawn)
    ensures Count(optimalBits, '1') == 0 ==> schedule == engineResult
    ensures Settled(engineResult) ==> schedule == engineResult
  {
    schedule := engineResult;
    drawn := [];
    ThinnedRefl(engineResult);
    var currentBits := Flatten(schedule);
    var similarity := Similarity(optimalBits, currentBits);
    if similarity > 0.8 {
      OnesNeedEmployees(schedule);
      var diversified;
      diversified, drawn := Diversify(schedule);
      schedule := diversified.value;
    }
  }

  /** The loop of `generate_schedule` after validation. The first schedule
      is the engine's result formatted; each alternative is that result,
      diversified whenever it is more than 80% similar to the first, then
      formatted; the list is padded to the number requested. */
  method GenerateSchedules(engineResult: Schedule, numSchedules: int) returns (schedules: seq<seq<Entry>>, ghost variants: seq<Schedule>)
    requires 1 <= numSchedules <= 5 && HasWeekdays(engineResult)
    ensures |schedules| == numSchedules && |variants| == numSchedules
    ensures schedules[0] == Formatted(engineResult) && variants[0] == engineResult
    ensures forall i :: 0 <= i < numSchedules ==> schedules[i] == Formatted(variants[i]) && Thinned(engineResult, variants[i])
    ensures Count(Flatten(engineResult), '1') == 0 ==> forall i :: 0 <= i < numSchedules ==> schedules[i] == schedules[0]
    ensures Settled(engineResult) ==> forall i :: 0 <= i < numSchedules ==> schedules[i] == schedules[0]
  {
    var generated;
    generated, variants := BuildVariants(engineResult, numSchedules);
    var padded := Pad(generated, numSchedules);
    schedules := padded.value;
    assert schedules == schedules[..|generated|];
  }
}
