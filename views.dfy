/** The current HTTP views, bitstring part: turning calendar events into an
    availability week, the flag telling whether a student has submitted one,
    and the checks `generate_schedule` runs before starting the engine. Date
    parsing happens before the model: an event carries the weekday, hour and
    minute its ISO text denotes. */
module Views {
  import opened Wrappers
  import opened Bitstrings
  import opened EngineSpec

  /** A parsed time: weekday (0 = Monday), hour and minute. */
  datatype Clock = Clock(weekday: int, hour: int, minute: int) {
    predicate Valid() {
      0 <= weekday < DaysPerWeek && 0 <= hour < 24 && 0 <= minute < 60
    }
  }

  /** A calendar event; `end` is None when the event's end is empty. */
  datatype Event = Event(source: string, title: string, start: Clock, end: Option<Clock>)

  ghost predicate ValidEvents(events: seq<Event>) {
    forall e :: e in events ==> e.start.Valid() && (e.end.Some? ==> e.end.value.Valid())
  }

  /** Only events the student entered by hand as "Available" count. */
  predicate Applicable(e: Event) {
    e.source == "manual" && e.title == "Available"
  }

  /** An event without an end ends when it starts. */
  function EndOf(e: Event): Clock {
    if e.end.Some? then e.end.value else e.start
  }

  lemma QuarterFloor(h: int, m: int)
    requires 0 <= h && 0 <= m < 60
    ensures ((h as real + m as real / 60.0) * 4.0).Floor == 4 * h + m / 15
  {
    var x := (h as real + m as real / 60.0) * 4.0;
    assert x == (4 * h + m / 15) as real + (m % 15) as real / 15.0;
  }

  lemma QuarterCeil(h: int, m: int)
    requires 0 <= h && 0 <= m < 60
    ensures -((-((h as real + m as real / 60.0) * 4.0)).Floor) == 4 * h + (m + 14) / 15
  {
    var x := (h as real + m as real / 60.0) * 4.0;
    if m % 15 == 0 {
      assert x == (4 * h + m / 15) as real;
    } else {
      assert -x == (-(4 * h + m / 15) - 1) as real + (15 - m % 15) as real / 15.0;
    }
  }

  /** `floor((hour + minute / 60) * 4)`: the slot the event starts in. */
  function StartIndex(c: Clock): (a: int)
    requires c.Valid()
    ensures a == 4 * c.hour + c.minute / 15
    ensures 0 <= a < BitsPerDay
  {
    QuarterFloor(c.hour, c.minute);
    ((c.hour as real + c.minute as real / 60.0) * 4.0).Floor
  }

  /** `min(ceil((hour + minute / 60) * 4), 96)`: the first slot after the event. */
  function EndIndex(c: Clock): (b: int)
    requires c.Valid()
    ensures b == 4 * c.hour + (c.minute + 14) / 15
    ensures 0 <= b <= BitsPerDay
  {
    QuarterCeil(c.hour, c.minute);
    var up := -((-((c.hour as real + c.minute as real / 60.0) * 4.0)).Floor);
    if up < BitsPerDay then up else BitsPerDay
  }

  /** `s[:a] + '0' * (b - a) + s[b:]`, with Python's slicing and string
      repetition (a negative count repeats nothing). */
  function SpliceAsWritten(s: string, a: int, b: int): (r: string)
    ensures 0 <= a <= b <= |s| ==> |r| == |s| && forall i :: 0 <= i < |s| ==> r[i] == if a <= i < b then '0' else s[i]
    ensures 0 <= b < a <= |s| ==> |r| == |s| + (a - b)
  {
    PySlice(s, 0, a) + Repeat('0', if b > a then b - a else 0) + PySlice(s, b, |s|)
  }

  /** An event that ends, on the clock, before it starts (it runs past
      midnight): the splice then keeps the day's tail twice. */
  lemma SpliceGrows()
    ensures var e := Event("manual", "Available", Clock(0, 20, 0), Some(Clock(1, 0, 0)));
            var day := SpliceAsWritten(Repeat('1', BitsPerDay), StartIndex(e.start), EndIndex(EndOf(e)));
            Applicable(e) && |day| == 176
  {
  }

  /** The slots an event frees on its start day once an end past midnight
      is read as the end of that day. */
  function FreedRange(e: Event): (r: (int, int))
    requires e.start.Valid() && EndOf(e).Valid()
    ensures 0 <= r.0 <= r.1 <= BitsPerDay && r.0 < BitsPerDay
    ensures r.0 == StartIndex(e.start)
    ensures StartIndex(e.start) <= EndIndex(EndOf(e)) ==> r.1 == EndIndex(EndOf(e))
  {
    var a := StartIndex(e.start);
    var b := EndIndex(EndOf(e));
    (a, if b < a then BitsPerDay else b)
  }

  /** The day with the freed slots set to '0': its length never changes. */
  function SpliceClosed(s: string, e: Event): (r: string)
    requires e.start.Valid() && EndOf(e).Valid() && |s| == BitsPerDay
    ensures |r| == BitsPerDay
    ensures forall i :: 0 <= i < BitsPerDay ==> r[i] == if FreedRange(e).0 <= i < FreedRange(e).1 then '0' else s[i]
  {
    var (a, b) := FreedRange(e);
    s[..a] + Repeat('0', b - a) + s[b..]
  }

  /** Whenever the event does not run past midnight, the splice as written
      and the closed one agree. */
  lemma SpliceClosedAgrees(s: string, e: Event)
    requires e.start.Valid() && EndOf(e).Valid() && |s| == BitsPerDay
    requires StartIndex(e.start) <= EndIndex(EndOf(e))
    ensures SpliceAsWritten(s, StartIndex(e.start), EndIndex(EndOf(e))) == SpliceClosed(s, e)
  {
  }

  /** The applicable event runs past midnight. */
  ghost predicate Wraps(e: Event)
    requires e.start.Valid() && EndOf(e).Valid()
  {
    Applicable(e) && EndIndex(EndOf(e)) < StartIndex(e.start)
  }

  /** Some applicable event among the first n frees slot i of day d. */
  ghost predicate Covered(events: seq<Event>, n: int, d: int, i: int)
    requires ValidEvents(events) && 0 <= n <= |events|
  {
    exists k :: 0 <= k < n && Applicable(events[k]) && events[k].start.weekday == d
                && StartIndex(events[k].start) <= i < EndIndex(EndOf(events[k]))
  }

  /** Some applicable event among the first n starts on day d. */
  ghost predicate Touched(events: seq<Event>, n: int, d: int)
    requires 0 <= n <= |events|
  {
    exists k :: 0 <= k < n && Applicable(events[k]) && events[k].start.weekday == d
  }

  /** None of the first n events runs past midnight. */
  ghost predicate NoneWrap(events: seq<Event>, n: int)
    requires ValidEvents(events) && 0 <= n <= |events|
  {
    forall k :: 0 <= k < n ==> !Wraps(events[k])
  }

  /** The week after the first n events, when none of them wrapped. */
  ghost predicate Painted(availability: Week, events: seq<Event>, n: int)
    requires ValidEvents(events) && 0 <= n <= |events|
  {
    && WeekShape(availability)
    && forall d, i :: 0 <= d < DaysPerWeek && 0 <= i < BitsPerDay ==>
         availability[d][i] == if Covered(events, n, d, i) then '0' else '1'
  }

  /** `submit_availability`: the week starts all busy, and every applicable
      event frees its slots of its start day. Without an event past midnight
      the result is seven 96-slot days, free exactly where some applicable
      event covers the slot. Days no applicable event starts on stay busy
      in any case. */
  method SubmitAvailability(events: seq<Event>) returns (availability: Week)
    requires ValidEvents(events)
    ensures |availability| == DaysPerWeek
    ensures forall d :: 0 <= d < DaysPerWeek && !Touched(events, |events|, d) ==> availability[d] == Repeat('1', BitsPerDay)
    ensures NoneWrap(events, |events|) ==> WeekShape(availability)
    ensures NoneWrap(events, |events|) ==> forall d :: 0 <= d < DaysPerWeek ==> IsBinary(availability[d])
    ensures NoneWrap(events, |events|) ==> forall d, i :: 0 <= d < DaysPerWeek && 0 <= i < BitsPerDay ==>
              (availability[d][i] == '0' <==> Covered(events, |events|, d, i))
  {
    availability := seq(DaysPerWeek, _ => Repeat('1', BitsPerDay));
    ghost var closed := true;
    for n := 0 to |events|
      invariant |availability| == DaysPerWeek
      invariant closed <==> NoneWrap(events, n)
      invariant forall d :: 0 <= d < DaysPerWeek && !Touched(events, n, d) ==> availability[d] == Repeat('1', BitsPerDay)
      invariant closed ==> Painted(availability, events, n)
    {
      var event := events[n];
      assert event in events;
      EventStep(events, n);
      if Applicable(event) {
        var day := event.start.weekday;
        var startIdx := StartIndex(event.start);
        var endIdx := EndIndex(EndOf(event));
        if closed && startIdx <= endIdx {
          SpliceClosedAgrees(availability[day], event);
          PaintStep(availability, events, n);
        }
        availability := availability[day := SpliceAsWritten(availability[day], startIdx, endIdx)];
        closed := closed && startIdx <= endIdx;
      } else if closed {
        PaintSkip(availability, events, n);
      }
    }
  }

  /** What one more event adds to the days touched and to the events past
      midnight. */
  lemma EventStep(events: seq<Event>, n: int)
    requires ValidEvents(events) && 0 <= n < |events|
    ensures forall d :: Touched(events, n + 1, d) <==>
              Touched(events, n, d) || (Applicable(events[n]) && events[n].start.weekday == d)
    ensures events[n] in events
    ensures NoneWrap(events, n + 1) <==> NoneWrap(events, n) && !Wraps(events[n])
  {
    forall d | Touched(events, n + 1, d) && !Touched(events, n, d)
      ensures Applicable(events[n]) && events[n].start.weekday == d
    {
      var k :| 0 <= k < n + 1 && Applicable(events[k]) && events[k].start.weekday == d;
      assert k == n;
    }
    assert events[n] in events;
  }

  /** An event that is not applicable changes no slot. */
  lemma PaintSkip(availability: Week, events: seq<Event>, n: int)
    requires ValidEvents(events) && 0 <= n < |events| && !Applicable(events[n])
    requires Painted(availability, events, n)
    ensures Painted(availability, events, n + 1)
  {
    forall d, i | 0 <= d < DaysPerWeek && 0 <= i < BitsPerDay
      ensures Covered(events, n + 1, d, i) <==> Covered(events, n, d, i)
    {
      if Covered(events, n + 1, d, i) {
        var k :| 0 <= k < n + 1 && Applicable(events[k]) && events[k].start.weekday == d
                 && StartIndex(events[k].start) <= i < EndIndex(EndOf(events[k]));
        assert k < n;
      }
    }
  }

  /** An applicable event that stays within its day frees exactly its own
      slots of that day. */
  lemma PaintStep(availability: Week, events: seq<Event>, n: int)
    requires ValidEvents(events) && 0 <= n < |events| && Applicable(events[n])
    requires events[n] in events
    requires StartIndex(events[n].start) <= EndIndex(EndOf(events[n]))
    requires Painted(availability, events, n)
    ensures var day := events[n].start.weekday;
            Painted(availability[day := SpliceClosed(availability[day], events[n])], events, n + 1)
  {
    var e := events[n];
    var day := e.start.weekday;
    var next := availability[day := SpliceClosed(availability[day], e)];
    forall d, i | 0 <= d < DaysPerWeek && 0 <= i < BitsPerDay
      ensures next[d][i] == if Covered(events, n + 1, d, i) then '0' else '1'
    {
      PaintCell(events, n, d, i);
    }
  }

  /** A slot is covered by the first n + 1 events exactly when the first n
      cover it or event n frees it. */
  lemma PaintCell(events: seq<Event>, n: int, d: int, i: int)
    requires ValidEvents(events) && 0 <= n < |events| && Applicable(events[n])
    requires events[n] in events
    ensures Covered(events, n + 1, d, i) <==>
              Covered(events, n, d, i)
              || (d == events[n].start.weekday && StartIndex(events[n].start) <= i < EndIndex(EndOf(events[n])))
  {
    var e := events[n];
    var here := d == e.start.weekday && StartIndex(e.start) <= i < EndIndex(EndOf(e));
    if Covered(events, n + 1, d, i) && !here {
      var k :| 0 <= k < n + 1 && Applicable(events[k]) && events[k].start.weekday == d
               && StartIndex(events[k].start) <= i < EndIndex(EndOf(events[k]));
      assert k < n;
    }
    if here {
      assert Applicable(events[n]) && events[n].start.weekday == d
             && StartIndex(events[n].start) <= i < EndIndex(EndOf(events[n]));
    }
  }

  // ---------------------------------------------------------------------
  // The availability flag

  /** `any(day != '1' * 96 for day in availability)`. */
  function HasSubmittedAvailability(availability: Week): (r: bool)
    ensures r <==> exists d :: 0 <= d < |availability| && availability[d] != Repeat('1', BitsPerDay)
  {
    if availability == [] then false
    else
      availability[0] != Repeat('1', BitsPerDay) || HasSubmittedAvailability(availability[1..])
  }

  /** For a submitted week, the flag is set exactly when some applicable
      event freed at least one slot. */
  lemma FlagMeansFreedSlot(availability: Week, events: seq<Event>)
    requires ValidEvents(events) && Painted(availability, events, |events|)
    ensures HasSubmittedAvailability(availability) <==>
            exists d, i :: 0 <= d < DaysPerWeek && 0 <= i < BitsPerDay && Covered(events, |events|, d, i)
  {
    if HasSubmittedAvailability(availability) {
      var d :| 0 <= d < |availability| && availability[d] != Repeat('1', BitsPerDay);
      var i :| 0 <= i < BitsPerDay && availability[d][i] != Repeat('1', BitsPerDay)[i];
    }
    if exists d, i :: 0 <= d < DaysPerWeek && 0 <= i < BitsPerDay && Covered(events, |events|, d, i) {
      var d, i :| 0 <= d < DaysPerWeek && 0 <= i < BitsPerDay && Covered(events, |events|, d, i);
      assert availability[d][i] != Repeat('1', BitsPerDay)[i];
    }
  }

  // ---------------------------------------------------------------------
  // Request validation of `generate_schedule`

  /** Why a schedule request is refused, in the order the checks run. */
  datatype RequestError =
    | BadTotalHours
    | BadMinStaff
    | BadScheduleCount
    | NoneSelected
    | NoneFound
    | NoAvailability
    | NoMaxHours
    | OverCapacity(requested: int, capacity: real)

  /** The HTTP status of each refusal. */
  function Status(err: RequestError): int
  {
    if err.NoneFound? then 404 else 400
  }

  /** The position of a refusal among the checks. */
  function CheckIndex(err: RequestError): nat {
    match err
    case BadTotalHours => 0
    case BadMinStaff => 1
    case BadScheduleCount => 2
    case NoneSelected => 3
    case NoneFound => 4
    case NoAvailability => 5
    case NoMaxHours => 6
    case OverCapacity(_, _) => 7
  }

  /** `sum(emp.params.get('max_hours', 0) for emp in employees)`. */
  function TotalMaxHours(found: seq<Employee>): real {
    if found == [] then 0.0 else found[0].maxHours + TotalMaxHours(found[1..])
  }

  /** Check k of the request fails. `found` are the employees the ids match. */
  ghost predicate Fails(k: nat, totalHours: int, minStaff: int, numSchedules: int, ids: seq<string>, found: seq<Employee>) {
    match k
    case 0 => !(1 <= totalHours <= 168)
    case 1 => !(1 <= minStaff <= 10)
    case 2 => !(1 <= numSchedules <= 5)
    case 3 => ids == [] || ids[0] == ""
    case 4 => found == []
    case 5 => forall e :: e in found ==> !HasSubmittedAvailability(e.availability)
    case 6 => forall e :: e in found ==> e.maxHours <= 0.0
    case 7 => totalHours as real > TotalMaxHours(found)
    case _ => false
  }

  /** The status of a refused request: 404 exactly when the parameter and
      selection checks pass but no employee was found, 400 for every other
      refusal. */
  lemma RefusalStatus(totalHours: int, minStaff: int, numSchedules: int, ids: seq<string>, found: seq<Employee>)
    requires ValidateRequest(totalHours, minStaff, numSchedules, ids, found).Err?
    ensures var code := Status(ValidateRequest(totalHours, minStaff, numSchedules, ids, found).error);
      code == 404 <==>
        1 <= totalHours <= 168 && 1 <= minStaff <= 10 && 1 <= numSchedules <= 5
        && ids != [] && ids[0] != "" && found == []
    ensures var code := Status(ValidateRequest(totalHours, minStaff, numSchedules, ids, found).error);
      code != 404 ==> code == 400
  {
  }

  /** The checks in source order: the first failing one is reported, and a
      request passing all eight is accepted. */
  function ValidateRequest(totalHours: int, minStaff: int, numSchedules: int, ids: seq<string>, found: seq<Employee>)
    : (r: Result<(), RequestError>)
    ensures r.Ok? <==> forall k :: 0 <= k < 8 ==> !Fails(k, totalHours, minStaff, numSchedules, ids, found)
    ensures r.Err? ==> Fails(CheckIndex(r.error), totalHours, minStaff, numSchedules, ids, found)
    ensures r.Err? ==> forall k :: 0 <= k < CheckIndex(r.error) ==> !Fails(k, totalHours, minStaff, numSchedules, ids, found)
  {
    if totalHours <= 0 || totalHours > 168 then
      assert Fails(0, totalHours, minStaff, numSchedules, ids, found);
      Err(BadTotalHours)
    else if minStaff < 1 || minStaff > 10 then
      assert Fails(1, totalHours, minStaff, numSchedules, ids, found);
      Err(BadMinStaff)
    else if numSchedules < 1 || numSchedules > 5 then
      assert Fails(2, totalHours, minStaff, numSchedules, ids, found);
      Err(BadScheduleCount)
    else if ids == [] || ids[0] == "" then
      assert Fails(3, totalHours, minStaff, numSchedules, ids, found);
      Err(NoneSelected)
    else if found == [] then
      assert Fails(4, totalHours, minStaff, numSchedules, ids, found);
      Err(NoneFound)
    else if !AnySubmitted(found) then
      assert Fails(5, totalHours, minStaff, numSchedules, ids, found);
      Err(NoAvailability)
    else if !AnyMaxHours(found) then
      assert Fails(6, totalHours, minStaff, numSchedules, ids, found);
      Err(NoMaxHours)
    else if totalHours as real > TotalMaxHours(found) then
      assert Fails(7, totalHours, minStaff, numSchedules, ids, found);
      Err(OverCapacity(totalHours, TotalMaxHours(found)))
    else Ok(())
  }

  function AnySubmitted(found: seq<Employee>): (r: bool)
    ensures r <==> exists e :: e in found && HasSubmittedAvailability(e.availability)
  {
    if found == [] then false
    else HasSubmittedAvailability(found[0].availability) || AnySubmitted(found[1..])
  }

  function AnyMaxHours(found: seq<Employee>): (r: bool)
    ensures r <==> exists e :: e in found && e.maxHours > 0.0
  {
    if found == [] then false
    else found[0].maxHours > 0.0 || AnyMaxHours(found[1..])
  }

  /** The parameter cases of the validation test: the two in-range triples
      pass the range checks, and both out-of-range triples are refused with
      status 400. */
  lemma RangeCases(ids: seq<string>, found: seq<Employee>)
    ensures ValidateRequest(1, 1, 1, ids, found) !in {Err(BadTotalHours), Err(BadMinStaff), Err(BadScheduleCount)}
    ensures ValidateRequest(168, 10, 5, ids, found) !in {Err(BadTotalHours), Err(BadMinStaff), Err(BadScheduleCount)}
    ensures ValidateRequest(0, 0, 0, ids, found) == Err(BadTotalHours) && Status(BadTotalHours) == 400
    ensures ValidateRequest(169, 11, 6, ids, found) == Err(BadTotalHours)
  {
  }

  /** An accepted request leaves the engine a positive budget no larger than
      the hours the employees may work together. */
  lemma AcceptedFitsCapacity(totalHours: int, minStaff: int, numSchedules: int, ids: seq<string>, found: seq<Employee>)
    requires ValidateRequest(totalHours, minStaff, numSchedules, ids, found).Ok?
    ensures 0.0 < totalHours as real <= TotalMaxHours(found)
    ensures found != [] && exists e :: e in found && e.maxHours > 0.0
  {
    assert !Fails(7, totalHours, minStaff, numSchedules, ids, found);
    assert !Fails(6, totalHours, minStaff, numSchedules, ids, found);
  }
}
