/** The batch selector of the `run_schedule` management command: it runs the
    engine many times, costs every run by its unstaffed window cells, keeps a
    running top ten and breaks the cheapest run down by staffing level. The
    engine's output for each iteration is an input here. */
module Batch {
  import opened Bitstrings
  import opened Sorting
  import opened Coverage

  /** `range(1, 50000)`. */
  const Iterations: nat := 49999
  /** `[:10]`. */
  const Kept: nat := 10

  /** The staffing histogram of one run: cells with 0, 1, 2 and 3+ workers. */
  datatype Breakdown = Breakdown(none: nat, one: nat, two: nat, more: nat)

  /** Every run's schedules can be indexed over the window. */
  ghost predicate AllIndexable(runs: seq<seq<Week>>) {
    forall r :: r in runs ==> Indexable(r)
  }

  /** Each run with the cost the command gives it, in iteration order. */
  function Scores(runs: seq<seq<Week>>): (s: seq<Scored>)
    requires AllIndexable(runs)
    ensures |s| == |runs|
  {
    if runs == [] then []
    else
      var init := runs[..|runs| - 1];
      assert AllIndexable(init) by {
        forall r | r in init ensures Indexable(r) {
          assert r in runs;
        }
      }
      assert runs[|runs| - 1] in runs;
      Scores(init) + [Scored(Unfilled(runs[|runs| - 1]), runs[|runs| - 1])]
  }

  /** Every entry is its run with that run's unstaffed-cell count as cost:
      the overstaffed count plays no part in the ranking. */
  lemma {:induction false} ScoresHonest(runs: seq<seq<Week>>)
    requires AllIndexable(runs)
    ensures forall x :: x in Scores(runs) ==> x.schedule in runs && Indexable(x.schedule) && x.cost == Unfilled(x.schedule)
  {
    if runs != [] {
      var init := runs[..|runs| - 1];
      assert AllIndexable(init) by {
        forall r | r in init ensures Indexable(r) {
          assert r in runs;
        }
      }
      ScoresHonest(init);
      assert forall r :: r in init ==> r in runs;
    }
  }

  lemma ScoresAt(runs: seq<seq<Week>>, k: int)
    requires AllIndexable(runs) && 0 <= k < |runs|
    ensures Indexable(runs[k]) && Scores(runs)[k] == Scored(Unfilled(runs[k]), runs[k])
    decreases |runs|
  {
    assert runs[k] in runs;
    if k < |runs| - 1 {
      var init := runs[..|runs| - 1];
      assert AllIndexable(init) by {
        forall r | r in init ensures Indexable(r) {
          assert r in runs;
        }
      }
      ScoresAt(init, k);
    }
  }

  lemma ScoresSnoc(runs: seq<seq<Week>>, n: int)
    requires AllIndexable(runs) && 0 <= n < |runs|
    ensures AllIndexable(runs[..n]) && AllIndexable(runs[..n + 1]) && Indexable(runs[n])
    ensures Scores(runs[..n + 1]) == Scores(runs[..n]) + [Scored(Unfilled(runs[n]), runs[n])]
  {
    assert forall r :: r in runs[..n + 1] ==> r in runs;
    assert forall r :: r in runs[..n] ==> r in runs;
    assert runs[n] in runs;
    assert runs[..n + 1][..n] == runs[..n];
  }

  /** The cost loop: counts the window cells nobody works and those more than
      two people work. */
  method CostOf(schedules: seq<Week>) returns (unfilled: nat, overstaffed: nat)
    requires Indexable(schedules)
    ensures unfilled == CountWindow(schedules, Unstaffed)
    ensures overstaffed == CountWindow(schedules, Crowded)
    ensures unfilled + overstaffed <= WindowCells
  {
    unfilled, overstaffed := 0, 0;
    var i := FirstSlot;
    while i < EndSlot
      invariant FirstSlot <= i <= EndSlot
      invariant unfilled == SlotsBefore(schedules, i, Unstaffed)
      invariant overstaffed == SlotsBefore(schedules, i, Crowded)
    {
      var day := 0;
      while day < DaysPerWeek
        invariant 0 <= day <= DaysPerWeek
        invariant unfilled == SlotsBefore(schedules, i, Unstaffed) + DaysBefore(schedules, i, day, Unstaffed)
        invariant overstaffed == SlotsBefore(schedules, i, Crowded) + DaysBefore(schedules, i, day, Crowded)
      {
        var count := Staffing(schedules, day, i);
        if count == 0 {
          unfilled := unfilled + 1;
        } else if count > 2 {
          overstaffed := overstaffed + 1;
        }
        day := day + 1;
      }
      i := i + 1;
    }
    WindowPartition(schedules);
  }

  /** The coverage breakdown of the best run. */
  method CoverageBreakdown(schedules: seq<Week>) returns (counts: Breakdown)
    requires Indexable(schedules)
    ensures counts.none == CountWindow(schedules, Unstaffed) && counts.one == CountWindow(schedules, Single)
    ensures counts.two == CountWindow(schedules, Pair) && counts.more == CountWindow(schedules, Crowded)
    ensures counts.none + counts.one + counts.two + counts.more == WindowCells
  {
    counts := Breakdown(0, 0, 0, 0);
    var i := FirstSlot;
    while i < EndSlot
      invariant FirstSlot <= i <= EndSlot
      invariant counts.none == SlotsBefore(schedules, i, Unstaffed) && counts.one == SlotsBefore(schedules, i, Single)
      invariant counts.two == SlotsBefore(schedules, i, Pair) && counts.more == SlotsBefore(schedules, i, Crowded)
    {
      counts := BreakdownSlot(schedules, i, counts);
      i := i + 1;
    }
    WindowPartition(schedules);
  }

  /** The inner loop of the breakdown: slot i on each of the seven days. */
  method BreakdownSlot(schedules: seq<Week>, i: int, start: Breakdown) returns (counts: Breakdown)
    requires Indexable(schedules) && 0 <= i < EndSlot
    ensures counts.none == start.none + DaysBefore(schedules, i, DaysPerWeek, Unstaffed)
    ensures counts.one == start.one + DaysBefore(schedules, i, DaysPerWeek, Single)
    ensures counts.two == start.two + DaysBefore(schedules, i, DaysPerWeek, Pair)
    ensures counts.more == start.more + DaysBefore(schedules, i, DaysPerWeek, Crowded)
  {
    counts := start;
    var day := 0;
    while day < DaysPerWeek
      invariant 0 <= day <= DaysPerWeek
      invariant counts.none == start.none + DaysBefore(schedules, i, day, Unstaffed)
      invariant counts.one == start.one + DaysBefore(schedules, i, day, Single)
      invariant counts.two == start.two + DaysBefore(schedules, i, day, Pair)
      invariant counts.more == start.more + DaysBefore(schedules, i, day, Crowded)
    {
      var count := Staffing(schedules, day, i);
      if count == 0 {
        counts := counts.(none := counts.none + 1);
      } else if count == 1 {
        counts := counts.(one := counts.one + 1);
      } else if count == 2 {
        counts := counts.(two := counts.two + 1);
      } else {
        counts := counts.(more := counts.more + 1);
      }
      day := day + 1;
    }
  }

  /** The first kept entry is a cheapest entry of all. */
  lemma FirstIsCheapest(all: seq<Scored>, top: seq<Scored>)
    requires all != [] && top == Take(SortDesc(all, CostKey), Kept)
    ensures top != [] && top[0] in all
    ensures forall x :: x in all ==> top[0].cost <= x.cost
  {
    Cheapest(all, Kept);
    assert top[0] in multiset(all);
    forall x | x in all ensures top[0].cost <= x.cost {
      assert x in multiset(all);
      if x in multiset(top) {
        var i :| 0 <= i < |top| && top[i] == x;
        assert top[0].cost <= top[i].cost;
      } else {
        assert x in multiset(all) - multiset(top);
        assert top[0] in top;
      }
    }
  }

  /** The first kept run is a cheapest run of all. */
  lemma BestIsCheapest(runs: seq<seq<Week>>, top: seq<Scored>)
    requires AllIndexable(runs) && runs != []
    requires top == Take(SortDesc(Scores(runs), CostKey), Kept)
    ensures top != [] && Indexable(top[0].schedule) && top[0].cost == Unfilled(top[0].schedule)
    ensures forall k :: 0 <= k < |runs| ==> Indexable(runs[k]) && top[0].cost <= Unfilled(runs[k])
  {
    var all := Scores(runs);
    FirstIsCheapest(all, top);
    ScoresHonest(runs);
    forall k | 0 <= k < |runs| ensures Indexable(runs[k]) && top[0].cost <= Unfilled(runs[k]) {
      ScoresAt(runs, k);
      assert all[k] in all;
    }
  }

  /** One iteration of the running selection, in terms of the entries seen so far. */
  lemma KeepStep(all: seq<Scored>, x: Scored, top: seq<Scored>)
    requires top == Take(SortDesc(all, CostKey), Kept)
    ensures var next := Take(SortDesc(top + [x], CostKey), Kept);
            next == Take(SortDesc(all + [x], CostKey), Kept) && |next| <= Kept && CostOrdered(next)
  {
    RunningSelection(all, x, CostKey, Kept);
    Cheapest(all + [x], Kept);
  }

  /** The loop of `Command.handle`: each run costed and the running top ten
      re-sorted with it. */
  method KeepCheapest(runs: seq<seq<Week>>) returns (top: seq<Scored>)
    requires AllIndexable(runs)
    ensures top == Take(SortDesc(Scores(runs), CostKey), Kept)
    ensures |top| <= Kept && CostOrdered(top)
  {
    top := [];
    var n := 0;
    assert runs[..0] == [];
    while n < |runs|
      invariant 0 <= n <= |runs| && AllIndexable(runs[..n])
      invariant top == Take(SortDesc(Scores(runs[..n]), CostKey), Kept)
      invariant |top| <= Kept && CostOrdered(top)
    {
      ScoresSnoc(runs, n);
      var cost, overstaffed := CostOf(runs[n]);
      KeepStep(Scores(runs[..n]), Scored(cost, runs[n]), top);
      top := Take(SortDesc(top + [Scored(cost, runs[n])], CostKey), Kept);
      n := n + 1;
    }
    assert runs[..n] == runs;
  }

  /** `Command.handle`: costs every run, keeps the ten cheapest (earlier runs
      first among equal costs) and breaks the cheapest one down. */
  method Handle(runs: seq<seq<Week>>) returns (top: seq<Scored>, counts: Breakdown)
    requires |runs| == Iterations && AllIndexable(runs)
    ensures top == Take(SortDesc(Scores(runs), CostKey), Kept)
    ensures |top| == Kept && CostOrdered(top)
    ensures forall k :: 0 <= k < |runs| ==> Indexable(runs[k]) && top[0].cost <= Unfilled(runs[k])
    ensures forall r :: WithKey(top, CostKey, r) <= WithKey(Scores(runs), CostKey, r)
    ensures Indexable(top[0].schedule)
    ensures counts == Breakdown(CountWindow(top[0].schedule, Unstaffed), CountWindow(top[0].schedule, Single),
                                CountWindow(top[0].schedule, Pair), CountWindow(top[0].schedule, Crowded))
    ensures counts.none == top[0].cost
    ensures counts.none + counts.one + counts.two + counts.more == WindowCells
  {
    top := KeepCheapest(runs);
    forall r {
      SelectionStable(Scores(runs), CostKey, Kept, r);
    }
    Cheapest(Scores(runs), Kept);
    BestIsCheapest(runs, top);
    var best := top[0].schedule;
    counts := CoverageBreakdown(best);
  }
}
