/** The cost both schedule selectors rank by: for every (slot, day) cell of
    the window 07:00-21:00 (slots 28..83) of the week, how many of a run's
    schedules have that cell set, sorted into the buckets 0, 1, 2 and more. */
module Coverage {
  import opened Bitstrings
  import opened Sorting

  const FirstSlot: nat := 28
  const EndSlot: nat := 84
  /** 56 slots on each of 7 days. */
  const WindowCells: nat := 392

  /** The schedule can be indexed at every day and window slot. */
  ghost predicate WindowShape(w: Week) {
    DaysPerWeek <= |w| && forall d :: 0 <= d < DaysPerWeek ==> EndSlot <= |w[d]|
  }

  /** Every schedule of the run can be indexed at every day and window slot. */
  ghost predicate Indexable(weeks: seq<Week>) {
    forall w :: w in weeks ==> WindowShape(w)
  }

  /** `sum(1 for sched in schedules if sched[day][i] == '1')`. */
  function Staffing(weeks: seq<Week>, d: int, i: int): (c: nat)
    requires Indexable(weeks) && 0 <= d < DaysPerWeek && 0 <= i < EndSlot
    ensures c <= |weeks|
  {
    if weeks == [] then 0
    else
      var rest := weeks[1..];
      assert WindowShape(weeks[0]);
      assert Indexable(rest) by {
        forall w | w in rest ensures WindowShape(w) {
          assert w in weeks;
        }
      }
      (if weeks[0][d][i] == '1' then 1 else 0) + Staffing(rest, d, i)
  }

  /** How a cell is staffed: nobody, one, exactly two, or more than two. */
  datatype Bucket = Unstaffed | Single | Pair | Crowded

  function BucketOf(c: nat): (b: Bucket)
    ensures b == Unstaffed <==> c == 0
    ensures b == Crowded <==> c > 2
  {
    if c == 0 then Unstaffed else if c == 1 then Single else if c == 2 then Pair else Crowded
  }

  /** Cells of slot i on days 0..d-1 that fall in bucket b. */
  function DaysBefore(weeks: seq<Week>, i: int, d: int, b: Bucket): (n: nat)
    requires Indexable(weeks) && 0 <= i < EndSlot && 0 <= d <= DaysPerWeek
    ensures n <= d
  {
    if d == 0 then 0
    else DaysBefore(weeks, i, d - 1, b) + (if BucketOf(Staffing(weeks, d - 1, i)) == b then 1 else 0)
  }

  /** Cells of slots FirstSlot..i-1 (all seven days) that fall in bucket b. */
  function SlotsBefore(weeks: seq<Week>, i: int, b: Bucket): (n: nat)
    requires Indexable(weeks) && FirstSlot <= i <= EndSlot
    ensures n <= (i - FirstSlot) * DaysPerWeek
  {
    if i == FirstSlot then 0
    else SlotsBefore(weeks, i - 1, b) + DaysBefore(weeks, i - 1, DaysPerWeek, b)
  }

  /** Cells of the whole window that fall in bucket b. */
  function CountWindow(weeks: seq<Week>, b: Bucket): (n: nat)
    requires Indexable(weeks)
    ensures n <= WindowCells
  {
    SlotsBefore(weeks, EndSlot, b)
  }

  /** The number of window cells nobody works: the selectors' cost. */
  function Unfilled(weeks: seq<Week>): (n: nat)
    requires Indexable(weeks)
    ensures n <= WindowCells
  {
    CountWindow(weeks, Unstaffed)
  }

  /** Each cell lands in exactly one bucket. */
  lemma {:induction false} DaysPartition(weeks: seq<Week>, i: int, d: int)
    requires Indexable(weeks) && 0 <= i < EndSlot && 0 <= d <= DaysPerWeek
    ensures DaysBefore(weeks, i, d, Unstaffed) + DaysBefore(weeks, i, d, Single)
            + DaysBefore(weeks, i, d, Pair) + DaysBefore(weeks, i, d, Crowded) == d
  {
    if d > 0 {
      DaysPartition(weeks, i, d - 1);
    }
  }

  lemma {:induction false} SlotsPartition(weeks: seq<Week>, i: int)
    requires Indexable(weeks) && FirstSlot <= i <= EndSlot
    ensures SlotsBefore(weeks, i, Unstaffed) + SlotsBefore(weeks, i, Single)
            + SlotsBefore(weeks, i, Pair) + SlotsBefore(weeks, i, Crowded) == (i - FirstSlot) * DaysPerWeek
  {
    if i > FirstSlot {
      SlotsPartition(weeks, i - 1);
      DaysPartition(weeks, i - 1, DaysPerWeek);
    }
  }

  /** The four buckets of the window add up to its 392 cells. */
  lemma WindowPartition(weeks: seq<Week>)
    requires Indexable(weeks)
    ensures CountWindow(weeks, Unstaffed) + CountWindow(weeks, Single)
            + CountWindow(weeks, Pair) + CountWindow(weeks, Crowded) == WindowCells
  {
    SlotsPartition(weeks, EndSlot);
  }

  // ---------------------------------------------------------------------
  // Ranking runs by cost

  /** A run together with its cost. */
  datatype Scored = Scored(cost: nat, schedule: seq<Week>)

  /** `sorted(..., key=lambda x: x[0])` sorts by cost, smallest first: the
      stable descending sort on the negated cost. */
  function CostKey(s: Scored): Rank {
    Rank(-(s.cost as real), 0)
  }

  /** Sorted by cost, smallest first. */
  ghost predicate CostOrdered(s: seq<Scored>) {
    forall i, j :: 0 <= i < j < |s| ==> s[i].cost <= s[j].cost
  }

  lemma SortedByCost(all: seq<Scored>)
    ensures CostOrdered(SortDesc(all, CostKey))
  {
    var sorted := SortDesc(all, CostKey);
    forall i, j | 0 <= i < j < |sorted| ensures sorted[i].cost <= sorted[j].cost {
      assert !Above(CostKey(sorted[j]), CostKey(sorted[i]));
    }
  }

  /** Every entry of the tail of a cost-ordered list costs at least as much
      as every entry of its head. */
  lemma HeadBelowTail(sorted: seq<Scored>, n: nat, x: Scored, t: Scored)
    requires CostOrdered(sorted) && n <= |sorted|
    requires x in multiset(sorted[n..]) && t in sorted[..n]
    ensures t.cost <= x.cost
  {
    var j :| 0 <= j < |sorted[n..]| && sorted[n..][j] == x;
    var i :| 0 <= i < n && sorted[..n][i] == t;
    assert sorted[i] == t && sorted[n + j] == x;
  }

  /** A prefix of a cost-ordered list is cost-ordered, and none of the
      entries after it costs less than one inside it. */
  lemma PrefixCheapest(sorted: seq<Scored>, n: nat)
    requires CostOrdered(sorted) && n <= |sorted|
    ensures CostOrdered(sorted[..n])
    ensures multiset(sorted[..n]) <= multiset(sorted)
    ensures forall x, t :: x in multiset(sorted) - multiset(sorted[..n]) && t in sorted[..n] ==> t.cost <= x.cost
  {
    var top := sorted[..n];
    assert sorted == top + sorted[n..];
    assert multiset(sorted) == multiset(top) + multiset(sorted[n..]);
    forall x, t | x in multiset(sorted) - multiset(top) && t in top ensures t.cost <= x.cost {
      HeadBelowTail(sorted, n, x, t);
    }
  }

  /** The first k entries of the cost-sorted runs are the k cheapest: they
      come in non-decreasing cost, are drawn from the runs, and no run left
      out costs less than any run kept. */
  lemma Cheapest(all: seq<Scored>, k: nat)
    ensures var top := Take(SortDesc(all, CostKey), k);
            && |top| == (if k < |all| then k else |all|)
            && CostOrdered(top)
            && multiset(top) <= multiset(all)
            && (forall x, t :: x in multiset(all) - multiset(top) && t in top ==> t.cost <= x.cost)
  {
    var sorted := SortDesc(all, CostKey);
    SortedByCost(all);
    var top := Take(sorted, k);
    assert top == sorted[..|top|];
    PrefixCheapest(sorted, |top|);
  }
}
