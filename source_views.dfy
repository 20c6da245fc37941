/** The earlier HTTP views: calendar events become a 7 x 96 matrix of busy
    blocks, and `generate_schedule` ranks engine runs by unstaffed cells and
    keeps the five cheapest. Time-zone conversion and ISO parsing happen
    before the model: an event carries the already converted local times. */
module SourceViews {
  import opened Bitstrings
  import opened Sorting
  import opened Coverage
  import opened Wrappers

  /** A local date-time as the converter reads it: weekday (0 = Monday),
      hour and minute. */
  datatype Stamp = Stamp(weekday: int, hour: int, minute: int) {
    /** What a `datetime` guarantees. */
    predicate Valid() {
      0 <= weekday < 7 && 0 <= hour < 24 && 0 <= minute < 60
    }
  }

  /** An event field: absent or empty, not ISO text, or a time. */
  datatype Field = Missing | Unparseable | At(stamp: Stamp)

  datatype Event = Event(start: Field, end: Field)

  ghost predicate ValidEvent(e: Event) {
    (e.start.At? ==> e.start.stamp.Valid()) && (e.end.At? ==> e.end.stamp.Valid())
  }

  /** `time_to_block`: the quarter-hour block a time falls in. */
  function TimeToBlock(t: Stamp): (b: int)
    requires t.Valid()
    ensures 0 <= b < BitsPerDay
    ensures b * 15 <= t.hour * 60 + t.minute < (b + 1) * 15
  {
    t.hour * 4 + t.minute / 15
  }

  /** `start + timedelta(minutes=15)`, of which only the clock time is used. */
  function QuarterLater(t: Stamp): (r: Stamp)
    requires t.Valid()
    ensures r.Valid()
    ensures r.hour * 60 + r.minute == (t.hour * 60 + t.minute + 15) % 1440
  {
    var m := (t.hour * 60 + t.minute + 15) % 1440;
    Stamp(if m < t.hour * 60 + t.minute then (t.weekday + 1) % 7 else t.weekday, m / 60, m % 60)
  }

  function Clamp(x: int, lo: int, hi: int): int {
    if x < lo then lo else if x > hi then hi else x
  }

  /** The row and the half-open block range an event marks, or None for an
      event without a usable start. */
  function Span(e: Event): (r: Option<(int, int, int)>)
    requires ValidEvent(e)
    ensures r.Some? <==> e.start.At?
    ensures r.Some? ==> 0 <= r.value.0 < DaysPerWeek && 0 <= r.value.1 < BitsPerDay && 0 <= r.value.2 <= BitsPerDay
  {
    if !e.start.At? then None
    else
      var start := e.start.stamp;
      var end := if e.end.At? then e.end.stamp else QuarterLater(start);
      Some((start.weekday, Clamp(TimeToBlock(start), 0, 95), Clamp(TimeToBlock(end), 0, 96)))
  }

  /** Event e marks cell (d, i). */
  ghost predicate Marks(e: Event, d: int, i: int)
    requires ValidEvent(e)
  {
    var s := Span(e);
    s.Some? && s.value.0 == d && s.value.1 <= i < s.value.2
  }

  /** Some event among the first n marks cell (d, i). */
  ghost predicate MarkedBy(events: seq<Event>, n: int, d: int, i: int)
    requires forall k :: 0 <= k < |events| ==> ValidEvent(events[k])
    requires 0 <= n <= |events|
  {
    exists k :: 0 <= k < n && Marks(events[k], d, i)
  }

  /** The matrix the events describe: 1 exactly where some event marks. */
  ghost function Matrix(events: seq<Event>): (m: seq<seq<int>>)
    requires forall k :: 0 <= k < |events| ==> ValidEvent(events[k])
  {
    seq(DaysPerWeek, d => seq(BitsPerDay, i => if MarkedBy(events, |events|, d, i) then 1 else 0))
  }

  /** The cells marked so far after n events. */
  ghost predicate Painted(m: seq<seq<int>>, events: seq<Event>, n: int)
    requires forall k :: 0 <= k < |events| ==> ValidEvent(events[k])
    requires 0 <= n <= |events|
  {
    && |m| == DaysPerWeek
    && (forall d :: 0 <= d < DaysPerWeek ==> |m[d]| == BitsPerDay)
    && forall d, i :: 0 <= d < DaysPerWeek && 0 <= i < BitsPerDay ==> m[d][i] == if MarkedBy(events, n, d, i) then 1 else 0
  }

  /** Marking blocks lo..hi-1 of row d: the inner `for` loop. */
  method MarkRow(m: seq<seq<int>>, d: int, lo: int, hi: int) returns (m': seq<seq<int>>)
    requires |m| == DaysPerWeek && forall r :: 0 <= r < DaysPerWeek ==> |m[r]| == BitsPerDay
    requires 0 <= d < DaysPerWeek && 0 <= lo && hi <= BitsPerDay
    ensures |m'| == DaysPerWeek && forall r :: 0 <= r < DaysPerWeek ==> |m'[r]| == BitsPerDay
    ensures forall r, i :: 0 <= r < DaysPerWeek && 0 <= i < BitsPerDay ==>
              m'[r][i] == if r == d && lo <= i < hi then 1 else m[r][i]
  {
    m' := m;
    var i := lo;
    while i < hi
      invariant |m'| == DaysPerWeek && forall r :: 0 <= r < DaysPerWeek ==> |m'[r]| == BitsPerDay
      invariant lo <= i || hi <= lo
      invariant forall r, j :: 0 <= r < DaysPerWeek && 0 <= j < BitsPerDay ==>
                  m'[r][j] == if r == d && lo <= j < i && j < hi then 1 else m[r][j]
    {
      m' := m'[d := m'[d][i := 1]];
      i := i + 1;
    }
  }

  /** `convert_events_to_unavailability_matrix`. */
  method ConvertEvents(events: seq<Event>) returns (m: seq<seq<int>>)
    requires forall k :: 0 <= k < |events| ==> ValidEvent(events[k])
    ensures m == Matrix(events)
  {
    m := seq(DaysPerWeek, _ => seq(BitsPerDay, _ => 0));
    var n := 0;
    while n < |events|
      invariant 0 <= n <= |events| && Painted(m, events, n)
    {
      var span := Span(events[n]);
      if span.Some? {
        var (day, startBlock, endBlock) := span.value;
        m := MarkRow(m, day, startBlock, endBlock);
      }
      MarkedStep(events, n);
      n := n + 1;
    }
    PaintedIsMatrix(m, events);
  }

  /** A matrix that agrees with the events on every cell is their matrix. */
  lemma PaintedIsMatrix(m: seq<seq<int>>, events: seq<Event>)
    requires forall k :: 0 <= k < |events| ==> ValidEvent(events[k])
    requires Painted(m, events, |events|)
    ensures m == Matrix(events)
  {
    var mx := Matrix(events);
    forall d | 0 <= d < DaysPerWeek ensures m[d] == mx[d] {
      assert forall i :: 0 <= i < BitsPerDay ==> m[d][i] == mx[d][i];
    }
  }

  lemma MarkedStep(events: seq<Event>, n: int)
    requires forall k :: 0 <= k < |events| ==> ValidEvent(events[k])
    requires 0 <= n < |events|
    ensures forall d, i :: MarkedBy(events, n + 1, d, i) <==> MarkedBy(events, n, d, i) || Marks(events[n], d, i)
  {
  }

  /** Cells are only ever set: more events mark a superset of cells. */
  lemma MoreEventsMarkMore(a: seq<Event>, b: seq<Event>, d: int, i: int)
    requires forall k :: 0 <= k < |a + b| ==> ValidEvent((a + b)[k])
    requires 0 <= d < DaysPerWeek && 0 <= i < BitsPerDay
    ensures forall k :: 0 <= k < |a| ==> ValidEvent(a[k])
    ensures Matrix(a)[d][i] == 1 ==> Matrix(a + b)[d][i] == 1
  {
    assert forall k :: 0 <= k < |a| ==> (a + b)[k] == a[k];
    if MarkedBy(a, |a|, d, i) {
      var k :| 0 <= k < |a| && Marks(a[k], d, i);
      assert (a + b)[k] == a[k];
    }
  }

  /** The matrix depends only on which events there are, not their order. */
  lemma OrderIrrelevant(a: seq<Event>, b: seq<Event>)
    requires forall k :: 0 <= k < |a| ==> ValidEvent(a[k])
    requires multiset(a) == multiset(b)
    ensures forall k :: 0 <= k < |b| ==> ValidEvent(b[k])
    ensures Matrix(a) == Matrix(b)
  {
    forall k | 0 <= k < |b| ensures ValidEvent(b[k]) {
      assert b[k] in multiset(a);
    }
    forall d, i | 0 <= d < DaysPerWeek && 0 <= i < BitsPerDay
      ensures MarkedBy(a, |a|, d, i) <==> MarkedBy(b, |b|, d, i)
    {
      if MarkedBy(a, |a|, d, i) {
        var k :| 0 <= k < |a| && Marks(a[k], d, i);
        assert a[k] in multiset(b);
        var j :| 0 <= j < |b| && b[j] == a[k];
      }
      if MarkedBy(b, |b|, d, i) {
        var k :| 0 <= k < |b| && Marks(b[k], d, i);
        assert b[k] in multiset(a);
        var j :| 0 <= j < |a| && a[j] == b[k];
      }
    }
    PaintedIsMatrix(Matrix(a), b);
  }

  /** An event without a usable end lasts a quarter hour: it marks exactly
      its start block, unless that block is the last of the day, whose
      quarter-hour end wraps to midnight and marks nothing. */
  lemma DefaultEndIsOneBlock(e: Event)
    requires ValidEvent(e) && e.start.At? && !e.end.At?
    ensures var s := Span(e).value;
            var b := TimeToBlock(e.start.stamp);
            if e.start.stamp.hour * 60 + e.start.stamp.minute + 15 < 1440
            then s.1 == b && s.2 == b + 1
            else s.2 == 0
  {
    QuarterLaterBlock(e.start.stamp);
  }

  /** A quarter hour later is the next block, or block 0 past midnight. */
  lemma QuarterLaterBlock(t: Stamp)
    requires t.Valid()
    ensures t.hour * 60 + t.minute + 15 < 1440 ==> TimeToBlock(QuarterLater(t)) == TimeToBlock(t) + 1
    ensures t.hour * 60 + t.minute + 15 >= 1440 ==> TimeToBlock(QuarterLater(t)) == 0
  {
    var q := QuarterLater(t);
    var m := t.hour * 60 + t.minute;
    BlockIsQuotient(t);
    BlockIsQuotient(q);
    if m + 15 < 1440 {
      assert q.hour * 60 + q.minute == m + 15;
      NextQuarter(m);
    } else {
      assert q.hour * 60 + q.minute == m + 15 - 1440;
    }
  }

  lemma NextQuarter(m: int)
    requires 0 <= m
    ensures (m + 15) / 15 == m / 15 + 1
  {
    assert m + 15 == 15 * (m / 15 + 1) + m % 15;
  }

  /** A block is the time of day in minutes, divided by 15. */
  lemma BlockIsQuotient(t: Stamp)
    requires t.Valid()
    ensures TimeToBlock(t) == (t.hour * 60 + t.minute) / 15
  {
    var b := TimeToBlock(t);
    var x := t.hour * 60 + t.minute;
    assert x == 15 * b + (x - 15 * b) && 0 <= x - 15 * b < 15;
  }

  // ---------------------------------------------------------------------
  // The cost-ranked selection

  /** `range(100000)`. */
  const Runs: nat := 100000
  /** `[:5]`. */
  const Shown: nat := 5

  /** One engine run as the view sees it: the schedules and the engine's
      violation counter. */
  datatype Run = Run(schedules: seq<Week>, violations: int)

  ghost predicate RunsIndexable(runs: seq<Run>) {
    forall r :: r in runs ==> Indexable(r.schedules)
  }

  /** The runs the view keeps: those without a violation, with their cost. */
  function Admitted(runs: seq<Run>): (s: seq<Scored>)
    requires RunsIndexable(runs)
    ensures forall x :: x in s ==> Indexable(x.schedule) && x.cost == Unfilled(x.schedule)
    ensures forall x :: x in s ==> exists r :: r in runs && r.violations <= 0 && r.schedules == x.schedule
  {
    if runs == [] then []
    else
      var init := runs[..|runs| - 1];
      var last := runs[|runs| - 1];
      assert RunsIndexable(init) by {
        forall r | r in init ensures Indexable(r.schedules) {
          assert r in runs;
        }
      }
      assert last in runs;
      assert forall r :: r in init ==> r in runs;
      if last.violations > 0 then Admitted(init)
      else Admitted(init) + [Scored(Unfilled(last.schedules), last.schedules)]
  }

  /** The view's counting loop: window cells nobody works. */
  method CountUnfilled(schedules: seq<Week>) returns (unfilled: nat)
    requires Indexable(schedules)
    ensures unfilled == Unfilled(schedules)
  {
    unfilled := 0;
    var i := FirstSlot;
    while i < EndSlot
      invariant FirstSlot <= i <= EndSlot
      invariant unfilled == SlotsBefore(schedules, i, Unstaffed)
    {
      var day := 0;
      while day < DaysPerWeek
        invariant 0 <= day <= DaysPerWeek
        invariant unfilled == SlotsBefore(schedules, i, Unstaffed) + DaysBefore(schedules, i, day, Unstaffed)
      {
        var count := Staffing(schedules, day, i);
        if count == 0 {
          unfilled := unfilled + 1;
        }
        day := day + 1;
      }
      i := i + 1;
    }
  }

  lemma AdmittedSnoc(runs: seq<Run>, n: int)
    requires RunsIndexable(runs) && 0 <= n < |runs|
    ensures RunsIndexable(runs[..n]) && RunsIndexable(runs[..n + 1]) && Indexable(runs[n].schedules)
    ensures Admitted(runs[..n + 1]) == if runs[n].violations > 0 then Admitted(runs[..n])
                                      else Admitted(runs[..n]) + [Scored(Unfilled(runs[n].schedules), runs[n].schedules)]
  {
    assert forall r :: r in runs[..n + 1] ==> r in runs;
    assert forall r :: r in runs[..n] ==> r in runs;
    assert runs[n] in runs;
    assert runs[..n + 1][..n] == runs[..n];
  }

  /** The ranking loop of `generate_schedule`: runs with a violation are only
      logged, the others are kept with their cost, and the five cheapest
      remain. The five are the cheapest of the admitted runs, in cost order. */
  method TopSchedules(runs: seq<Run>) returns (top: seq<Scored>)
    requires |runs| == Runs && RunsIndexable(runs)
    ensures top == Take(SortDesc(Admitted(runs), CostKey), Shown)
    ensures |top| <= Shown && CostOrdered(top)
    ensures forall t :: t in top ==> Indexable(t.schedule) && t.cost == Unfilled(t.schedule)
    ensures forall x, t :: x in multiset(Admitted(runs)) - multiset(top) && t in top ==> t.cost <= x.cost
  {
    var kept := AdmitRuns(runs);
    top := Take(SortDesc(kept, CostKey), Shown);
    Cheapest(kept, Shown);
    forall t | t in top ensures Indexable(t.schedule) && t.cost == Unfilled(t.schedule) {
      assert t in multiset(kept);
    }
  }

  /** The loop of `generate_schedule` over the engine runs: every run is
      costed, and only the runs without a violation are kept. */
  method AdmitRuns(runs: seq<Run>) returns (kept: seq<Scored>)
    requires RunsIndexable(runs)
    ensures kept == Admitted(runs)
  {
    kept := [];
    var n := 0;
    assert runs[..0] == [];
    while n < |runs|
      invariant 0 <= n <= |runs| && RunsIndexable(runs[..n])
      invariant kept == Admitted(runs[..n])
    {
      AdmittedSnoc(runs, n);
      var unfilled := CountUnfilled(runs[n].schedules);
      if runs[n].violations <= 0 {
        kept := kept + [Scored(unfilled, runs[n].schedules)];
      }
      n := n + 1;
    }
    assert runs[..n] == runs;
  }
}
