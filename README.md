# Verified model of the student shift scheduler and its helpers

This project is a Dafny model of the scheduling core of the SCHEDULING
application (a Django backend with a React frontend that builds weekly work
schedules for student employees) and of the guest cart of the MANDALA shop
frontend. It covers:

- **the week grid** (`bitstrings.dfy`). A week is 7 day strings of 96
  quarter-hour slots. In availability '0' means free; in a schedule '1'
  means assigned. An *island* is a maximal run of free slots that lasts at
  least one hour.
- **the current engine** (`engine_spec.dfy`, `engine.dfy`, `islands.dfy`,
  `sorting.dfy`). This is `ScheduleEngine` as a class. The fields it
  mutates are `shiftCoverage` plus a `Tally` value carrying
  `empToSchedule`, `remaining_hours`, `scheduled_hours` and
  `total_scheduled_hours`. Its two greedy passes are proved to keep one
  invariant (`EngineSpec.Sound`): containment in availability and in the
  valid hours, the per-employee hour cap, the global budget and the
  coverage bookkeeping.
- **the earlier random engine** (`random_engine.dfy`). Every random draw is
  a nondeterministic choice, so its properties hold for every outcome.
- **the HTTP views**:
  - `views.py` (`views.dfy`, `schedule_output.dfy`): the availability
    splice, the "has submitted" flag, request validation, similarity,
    shift clearing, the decomposition of a schedule into shift entries,
    and padding;
  - the earlier `views.py` (`source_views.dfy`): the unavailability
    matrix and the top-5 selection;
  - the `run_schedule` batch command (`coverage.dfy`, `batch.dfy`).
- **`Employee.clean`** over a JSON datatype (`employee_model.dfy`).
- **the student-id hash**, in its Python and JavaScript versions
  (`student_hash.dfy`).
- **the guest cart and wishlist** in the browser's local storage
  (`guest_storage.dfy`).

Constants follow the code:

- 96 slots per day, 7 days;
- the default valid hours are slots 28..83 and the default budget is 200;
- the cost window is slots 28..83;
- the batch command runs 49 999 times and keeps 10; the earlier view runs
  100 000 times and keeps 5;
- validation ranges are 1..168 hours, 1..10 staff per shift and 1..5
  schedules;
- similarity above 0.8 triggers clearing.

## Model

| member | source | states |
|---|---|---|
| Bitstrings.IslandsOfUnique | SCHEDULING/backend/scheduler/scheduleEngine.py:332-346 | a day has only one island list, so every correct extractor returns the same one |
| Bitstrings.NoIslandsWhenBusy | SCHEDULING/backend/scheduler/scheduleEngine.py:332-346 | a day that is busy throughout has no island |
| Bitstrings.WholeDayIsland | SCHEDULING/backend/scheduler/scheduleEngine.py:332-346 | a fully free 96-slot day has exactly the one island (0, 95) |
| Bitstrings.IslandAt | SCHEDULING/backend/scheduler/scheduleEngine.py:337-343 | every listed island lies inside the day and starts on a free slot |
| Bitstrings.PySlice | SCHEDULING/backend/source/scheduler/scheduleEngine.py:151 | Python slicing never yields more than the string, and for i <= j never more than j - i slots; bounds inside the string select exactly `s[i..j]`, and a negative start counts from the end |
| Islands.IslandsInDay | SCHEDULING/backend/source/scheduler/scheduleEngine.py:126-142 | the scan returns exactly the maximal free runs of at least four slots, inclusive and in increasing order (the current engine's copy at scheduleEngine.py:332-346 is the same loop) |
| Islands.DayIslands | SCHEDULING/backend/source/scheduler/scheduleEngine.py:174-178 | entry d of an employee's list is the island list of day d of that employee |
| Islands.ExtractAvailabilityIslands | SCHEDULING/backend/source/scheduler/scheduleEngine.py:171-186 | the table has one key per employee id, and the last employee with each id has its own island table stored there |
| Islands.TableCovers | SCHEDULING/backend/scheduler/scheduleEngine.py:358-365 | with distinct ids every employee finds exactly its own islands in the table |
| Islands.TotalZeros | SCHEDULING/backend/source/scheduler/scheduleEngine.py:148-151 | the free slots counted never exceed the slots of the range times the number of employees |
| Islands.TotalZerosSnoc | SCHEDULING/backend/source/scheduler/scheduleEngine.py:149-151 | each employee adds its own free-slot count to the running total |
| Islands.ZeroDensity | SCHEDULING/backend/source/scheduler/scheduleEngine.py:144-154 | the zero density is a fraction in [0, 1] |
| Islands.ComputeZeroDensity | SCHEDULING/backend/scheduler/scheduleEngine.py:348-356 | the accumulating loop yields the free fraction of the employee-slots, in [0, 1] and 0 when no slot is counted |
| RandomEngine.CoinsAreFair | SCHEDULING/backend/source/scheduler/scheduleEngine.py:79-82 | `randint(0, 1) < 0.5` and `randint(0, 1) < 0.75` both hold for the draw 0 only, so both are fair coins |
| RandomEngine.IslandDay | SCHEDULING/backend/source/scheduler/scheduleEngine.py:100-103 | the fresh day has 96 binary slots, with '1' exactly on the chosen island |
| RandomEngine.ScheduledUpdate | SCHEDULING/backend/source/scheduler/scheduleEngine.py:99-103 | writing one of the employee's own islands over a valid day keeps the week a valid outcome |
| RandomEngine.OnesAreFree | SCHEDULING/backend/source/scheduler/scheduleEngine.py:76-103 | every assigned slot lies on a valid day, is free for the employee, and belongs to one whole island that is that day's only assignment |
| RandomEngine.EmptyWeekScheduled | SCHEDULING/backend/source/scheduler/scheduleEngine.py:62 | the all-'0' starting week is a possible outcome |
| RandomEngine.RemoveAt | SCHEDULING/backend/source/scheduler/scheduleEngine.py:56-57 | removing the drawn element from a set listed without repeats removes exactly that element |
| RandomEngine.IdList | SCHEDULING/backend/source/scheduler/scheduleEngine.py:52 | the id list holds exactly the employees' ids, without repeats when the ids are distinct |
| RandomEngine.ValidDayList | SCHEDULING/backend/source/scheduler/scheduleEngine.py:58 | the list holds exactly the valid days of the week |
| RandomEngine.ScheduleEngine.constructor | SCHEDULING/backend/source/scheduler/scheduleEngine.py:15-32 | the engine keeps exactly the parameters it was given |
| RandomEngine.ScheduleEngine.IslandDensities | SCHEDULING/backend/source/scheduler/scheduleEngine.py:84-87 | one density per island, in list order, each the island's zero density |
| RandomEngine.ScheduleEngine.PickIsland | SCHEDULING/backend/source/scheduler/scheduleEngine.py:82-92 | the chosen island is one of the day's islands; on the low-density draw it is the first of minimal zero density |
| RandomEngine.ScheduleEngine.ScheduleDay | SCHEDULING/backend/source/scheduler/scheduleEngine.py:71-103 | whatever the coins decide for one valid day, the week stays a valid outcome for the employee |
| RandomEngine.ScheduleEngine.ScheduleEmployee | SCHEDULING/backend/source/scheduler/scheduleEngine.py:68-103 | each valid day is visited once and is left untouched or gets one whole island; other days stay '0' |
| RandomEngine.ScheduleEngine.Schedule | SCHEDULING/backend/source/scheduler/scheduleEngine.py:43-112 | every employee id gets exactly one week, and that week is a valid outcome for the employee |
| Sorting.SortDesc | SCHEDULING/backend/scheduler/scheduleEngine.py:55-62 | the sort returns a permutation of its input in non-increasing key order |
| Sorting.SortDescMembers | SCHEDULING/backend/scheduler/scheduleEngine.py:112 | sorting neither adds nor drops an element |
| Sorting.SortDescSorted | SCHEDULING/backend/source/scheduler/management/commands/run_schedule.py:47 | sorting a list that is already in order leaves it unchanged |
| Sorting.SortDescStable | SCHEDULING/backend/scheduler/scheduleEngine.py:55-62 | the sort is stable: the elements with any one key come out in the order they went in |
| Sorting.SelectionStable | SCHEDULING/backend/source/scheduler/management/commands/run_schedule.py:47 | keeping the first n after sorting keeps, among the elements with any one key, a prefix of them in input order |
| Sorting.InsertWithKey | SCHEDULING/backend/source/scheduler/management/commands/run_schedule.py:47 | inserting into a sorted list puts the newcomer behind every element with its key |
| Sorting.RunningSelection | SCHEDULING/backend/source/scheduler/management/commands/run_schedule.py:46-47 | re-sorting the kept k plus a newcomer and keeping k equals sorting everything seen and keeping k |
| Sorting.Take | SCHEDULING/backend/source/scheduler/management/commands/run_schedule.py:47 | `[:k]` is a prefix of length min(k, n) |
| Sorting.FirstMax | SCHEDULING/backend/scheduler/scheduleEngine.py:144 | `max` returns the first index of a largest key |
| Sorting.FirstMin | SCHEDULING/backend/source/scheduler/scheduleEngine.py:84-87 | `min` returns the first index of a smallest key |
| EngineSpec.SameIdSame | SCHEDULING/backend/source/scheduler/models.py:16 | with `employee_id` as primary key, one id identifies one employee |
| EngineSpec.TotalPriority | SCHEDULING/backend/scheduler/scheduleEngine.py:84 | the total priority is at least the number of employees, so it is never zero when there are employees |
| EngineSpec.Target | SCHEDULING/backend/scheduler/scheduleEngine.py:86-89 | an employee's target is positive exactly when the budget is, and zero exactly when it is zero |
| EngineSpec.TargetsSumToBudget | SCHEDULING/backend/scheduler/scheduleEngine.py:84-89 | the targets of all employees add up to `max_man_hours` exactly |
| EngineSpec.TotalPriorityPermutation | SCHEDULING/backend/scheduler/scheduleEngine.py:84 | the total priority does not depend on the order the sort produced |
| EngineSpec.CountOnesSet | SCHEDULING/backend/scheduler/scheduleEngine.py:170-172 | writing one '1' adds at most one assigned slot |
| EngineSpec.SumOverUpdate | SCHEDULING/backend/scheduler/scheduleEngine.py:175-176 | replacing one employee's week changes a sum over employees by exactly that week's change |
| EngineSpec.AssignSize | SCHEDULING/backend/scheduler/scheduleEngine.py:158-168 | an assignment that goes ahead books at least a quarter hour, no more than the employee's remaining hours or the budget left, and its slots stay inside the clamped island |
| EngineSpec.OwnerAfterBooking | SCHEDULING/backend/scheduler/scheduleEngine.py:168-178 | a booking keeps the employee's own accounting sound: free slots only, hours within the cap |
| EngineSpec.OthersAfterBooking | SCHEDULING/backend/scheduler/scheduleEngine.py:176-178 | a booking leaves every other employee's accounting as it was |
| EngineSpec.TotalsAfterBooking | SCHEDULING/backend/scheduler/scheduleEngine.py:177-179 | after a booking, the assigned slots stay within four per booked hour and the total within the budget |
| EngineSpec.CoverageAfterBooking | SCHEDULING/backend/scheduler/scheduleEngine.py:170-173 | after a booking the coverage counters still dominate the number of employees on each slot |
| EngineSpec.BookingKeepsSound | SCHEDULING/backend/scheduler/scheduleEngine.py:153-179 | every single booking preserves the run's invariant |
| EngineSpec.StartingSound | SCHEDULING/backend/scheduler/scheduleEngine.py:92-102 | the starting state (nothing booked, `min(max_hours, target)` hours each, zero coverage) satisfies the invariant |
| EngineSpec.SoundConsequences | SCHEDULING/backend/scheduler/scheduleEngine.py:153-179 | the invariant implies containment, at most four slots per hour of `min(max_hours, target)` per employee, none for an employee without hours, the global budget, and dominating coverage |
| EngineSpec.AssignIsBooking | SCHEDULING/backend/scheduler/scheduleEngine.py:164-179 | an assignment that goes ahead is a booking of `int(allowed * 4)` free slots worth `allowed` hours |
| EngineSpec.RebookingCountsTwice | SCHEDULING/backend/scheduler/scheduleEngine.py:231-242 | booking slots that are already '1' leaves the schedules as they were but still adds the hours |
| Engine.WithHoursLeft | SCHEDULING/backend/scheduler/scheduleEngine.py:107 | keeps exactly the employees with hours left |
| Engine.Without | SCHEDULING/backend/scheduler/scheduleEngine.py:182 | drops exactly the group's members, and shrinks the list when the group holds its head |
| Engine.MinOf | SCHEDULING/backend/scheduler/scheduleEngine.py:294 | `min(coverage)` is a counter of the list and no larger than any |
| Engine.KeptStep | SCHEDULING/backend/scheduler/scheduleEngine.py:281-324 | each island is either kept, clamped and scored, or dropped because it no longer fits |
| Engine.ScoreIslands | SCHEDULING/backend/scheduler/scheduleEngine.py:280-324 | the scoring loop keeps every island that fits after clamping, in order, each with `length * 10^staff_needed` |
| Engine.ClampedIslandFree | SCHEDULING/backend/scheduler/scheduleEngine.py:146-150 | a clamped island stays inside the valid hours and the day, and is free throughout |
| Engine.PickedIsBest | SCHEDULING/backend/scheduler/scheduleEngine.py:326-330 | the first highest kept score belongs to the first best-scoring fitting island |
| Engine.BookingGrew | SCHEDULING/backend/scheduler/scheduleEngine.py:168-179 | a booking only grows the tally and assigns its start slot |
| Engine.GroupStep | SCHEDULING/backend/scheduler/scheduleEngine.py:154-179 | while a group is served, only slots of the island are assigned, and every member whose hours grew has the common start slot |
| Engine.StartsAsSnoc | SCHEDULING/backend/scheduler/scheduleEngine.py:92-99 | each comprehension step enters one employee with its starting hours |
| Engine.StartsAsPermutation | SCHEDULING/backend/scheduler/scheduleEngine.py:92-99 | built over the sorted list, the maps cover exactly the employees' ids with their starting hours |
| Engine.CommonAvailability | SCHEDULING/backend/scheduler/scheduleEngine.py:122-130 | None for an empty group; otherwise free exactly where every member is free, as long as the shortest member string (the pairwise `zip` step at :129-130 is the helper `ZipAnd`) |
| Engine.GroupIsland | SCHEDULING/backend/scheduler/scheduleEngine.py:122-150 | the group's island is the first longest island of its common availability, clamped to the valid hours, and free for every member |
| Engine.LongestIsland | SCHEDULING/backend/scheduler/scheduleEngine.py:136-150 | a common availability without islands gives no slot; otherwise the first longest island (first maximum of the key `end - start` at :144, the helper `Spans`), clamped to the valid hours, which is free throughout |
| Engine.ScheduleEngine.constructor | SCHEDULING/backend/scheduler/scheduleEngine.py:15-44 | the parameters are stored, the counters start empty, and the seed leaves no trace on the object |
| Engine.ScheduleEngine.FindDayWithLowestCoverage | SCHEDULING/backend/scheduler/scheduleEngine.py:259-272 | None exactly for no days; otherwise a valid day of lowest average coverage, the first such in ascending order |
| Engine.ScheduleEngine.FindBestIsland | SCHEDULING/backend/scheduler/scheduleEngine.py:274-330 | None exactly when no island still lasts an hour after clamping; otherwise the clamped island of highest score, the first on ties |
| Engine.ScheduleEngine.WriteSlots | SCHEDULING/backend/scheduler/scheduleEngine.py:168-175 | the range is set to '1' up to the day's end, each write counts once more in coverage, and at most one new slot per write |
| Engine.ScheduleEngine.TryAssign | SCHEDULING/backend/scheduler/scheduleEngine.py:153-179 | an assignment goes ahead exactly when `allowed` reaches one slot; it then books `int(allowed * 4)` slots from the start, at least a quarter hour, else nothing changes; the invariant holds after; only this employee's hours and only day d's counters change, and counters only rise |
| Engine.ScheduleEngine.Book | SCHEDULING/backend/scheduler/scheduleEngine.py:168-179 | the writes and counter updates of one assignment, which keep the invariant |
| Engine.ScheduleEngine.AssignGroup | SCHEDULING/backend/scheduler/scheduleEngine.py:152-179 | serving a group keeps the invariant, assigns only inside the island, and gives every booked member the same start slot; only the group's hours and only the day's counters change, and counters only rise |
| Engine.ScheduleEngine.CoverStep | SCHEDULING/backend/scheduler/scheduleEngine.py:114-182 | one step of a day keeps the invariant and never lowers the booked total; it changes only the listed employees' hours and only raises the day's counters; a group shorter than `min_staff_per_shift` ends the day with nothing changed; any other step shortens the list, which keeps only employees it already had |
| Engine.ScheduleEngine.StartingTally | SCHEDULING/backend/scheduler/scheduleEngine.py:84-102 | the run starts with nothing booked and each employee holding `min(max_hours, target)` hours |
| Engine.ScheduleEngine.ForcedCoveragePass | SCHEDULING/backend/scheduler/scheduleEngine.py:104-182 | the first pass keeps the invariant and never lowers the booked total; only employees who had hours left at its start change, and coverage counters only rise |
| Engine.ScheduleEngine.CoverDay | SCHEDULING/backend/scheduler/scheduleEngine.py:113-182 | one day of the first pass keeps the invariant and never lowers the booked total; only the given employees change and only that day's counters rise; the day ends when the list is empty or shorter than `min_staff_per_shift` |
| Engine.ScheduleEngine.PassDay | SCHEDULING/backend/scheduler/scheduleEngine.py:104-115 | one day of the first pass, from the employees with hours left sorted by remaining hours: keeps the invariant, never lowers the total, changes only employees who had hours at the pass's start, and raises only that day's counters |
| Engine.ScheduleEngine.TryEmployee | SCHEDULING/backend/scheduler/scheduleEngine.py:200-247 | an employee's attempt either books at least a quarter hour or changes nothing, and keeps the invariant; when it changes nothing, on every valid day with islands the best island lets no slot be assigned |
| Engine.ScheduleEngine.TryDay | SCHEDULING/backend/scheduler/scheduleEngine.py:205-245 | one day of an attempt either books at least a quarter hour or changes nothing; when it changes nothing and the day is a valid one, no best-scoring island of that day lets a slot be assigned |
| Engine.BestAtUnique | SCHEDULING/backend/scheduler/scheduleEngine.py:136-150 | the best island of a day is unique: the first with the highest score |
| Engine.ScheduleEngine.FillHoursPass | SCHEDULING/backend/scheduler/scheduleEngine.py:184-250 | the second pass terminates, keeps the invariant and never lowers the booked total; it stops only when the budget is used, nobody has hours left, or no one with hours left can be booked on any day |
| Engine.ScheduleEngine.FillRound | SCHEDULING/backend/scheduler/scheduleEngine.py:198-247 | a round either books at least a quarter hour or changes nothing; a round that books nothing found every employee it was given blocked on every day |
| Engine.ScheduleEngine.Schedule | SCHEDULING/backend/scheduler/scheduleEngine.py:46-257 | every assigned slot is free and inside the valid hours; no employee exceeds four slots per hour of `min(max_hours, target)`; no slot for an employee with no hours; at most four slots per budget hour overall; coverage dominates staffing; no employees gives `{}` |
| Coverage.Staffing | SCHEDULING/backend/source/scheduler/management/commands/run_schedule.py:37 | a cell's head count is at most the number of schedules |
| Coverage.BucketOf | SCHEDULING/backend/source/scheduler/management/commands/run_schedule.py:70-78 | a cell is unstaffed exactly at count 0 and crowded exactly above 2 |
| Coverage.CountWindow | SCHEDULING/backend/source/scheduler/management/commands/run_schedule.py:35-41 | a bucket never holds more than the window's 392 cells |
| Coverage.Unfilled | SCHEDULING/backend/source/scheduler/views.py:144-151 | the unfilled count lies in [0, 392] |
| Coverage.WindowPartition | SCHEDULING/backend/source/scheduler/management/commands/run_schedule.py:61-78 | the four buckets add up to the 392 window cells |
| Coverage.SortedByCost | SCHEDULING/backend/source/scheduler/management/commands/run_schedule.py:47 | sorting by cost gives non-decreasing costs |
| Coverage.Cheapest | SCHEDULING/backend/source/scheduler/management/commands/run_schedule.py:47 | the first k after sorting are min(k, n) runs, in cost order, drawn from the runs, and none left out costs less |
| Batch.Scores | SCHEDULING/backend/source/scheduler/management/commands/run_schedule.py:26-46 | one scored entry per iteration |
| Batch.ScoresHonest | SCHEDULING/backend/source/scheduler/management/commands/run_schedule.py:43-46 | every entry's cost is its run's unfilled count; the overstaffed count plays no part |
| Batch.CostOf | SCHEDULING/backend/source/scheduler/management/commands/run_schedule.py:32-41 | the nested loops count the unstaffed and the crowded window cells, together at most 392 |
| Batch.CoverageBreakdown | SCHEDULING/backend/source/scheduler/management/commands/run_schedule.py:61-78 | the histogram counts each bucket, and the four add up to 392 |
| Batch.BreakdownSlot | SCHEDULING/backend/source/scheduler/management/commands/run_schedule.py:69-78 | the seven days of one slot each add one to the bucket of their staffing count |
| Batch.FirstIsCheapest | SCHEDULING/backend/source/scheduler/management/commands/run_schedule.py:58 | the first kept entry costs no more than any entry |
| Batch.BestIsCheapest | SCHEDULING/backend/source/scheduler/management/commands/run_schedule.py:58 | the best schedule costs no more than any run |
| Batch.KeepStep | SCHEDULING/backend/source/scheduler/management/commands/run_schedule.py:46-47 | each iteration's keep-ten step leaves the ten cheapest seen so far, at most ten and in cost order |
| Batch.KeepCheapest | SCHEDULING/backend/source/scheduler/management/commands/run_schedule.py:22-47 | the running top ten after all runs is exactly the first ten of all runs sorted by cost, in cost order |
| Batch.Handle | SCHEDULING/backend/source/scheduler/management/commands/run_schedule.py:9-78 | the ten kept are the cheapest of all runs in cost order; among runs of equal cost the kept ones are the earliest, in run order; the best costs no more than any run; the breakdown counts the best run's window cells by staffing level, bucket 0 equals its cost and the buckets sum to 392 |
| SourceViews.TimeToBlock | SCHEDULING/backend/source/scheduler/views.py:28-29 | the block of a valid time lies in [0, 95] and contains that time |
| SourceViews.QuarterLater | SCHEDULING/backend/source/scheduler/views.py:47 | the default end is the clock time a quarter hour later, wrapping at midnight |
| SourceViews.QuarterLaterBlock | SCHEDULING/backend/source/scheduler/views.py:47-53 | a quarter hour later lies in the next block, or in block 0 once it passes midnight |
| SourceViews.Span | SCHEDULING/backend/source/scheduler/views.py:32-53 | an event marks a row exactly when it has a usable start; its row and clamped blocks are in range |
| SourceViews.MarkRow | SCHEDULING/backend/source/scheduler/views.py:55-56 | the inner loop sets exactly the cells of the range in the row to 1 and keeps all others |
| SourceViews.ConvertEvents | SCHEDULING/backend/source/scheduler/views.py:24-58 | the converter yields the 7 x 96 matrix with 1 exactly where some event marks |
| SourceViews.MoreEventsMarkMore | SCHEDULING/backend/source/scheduler/views.py:31-56 | no cell is ever reset: more events mark a superset of cells |
| SourceViews.OrderIrrelevant | SCHEDULING/backend/source/scheduler/views.py:31-56 | the matrix does not depend on the order of the events |
| SourceViews.DefaultEndIsOneBlock | SCHEDULING/backend/source/scheduler/views.py:43-53 | an event without a usable end marks exactly its start block, except in the last block of the day, where it marks nothing |
| SourceViews.Admitted | SCHEDULING/backend/source/scheduler/views.py:153-159 | only runs without a violation are kept, each with its unfilled count as cost |
| SourceViews.CountUnfilled | SCHEDULING/backend/source/scheduler/views.py:144-151 | the counting loop yields the unfilled window cells |
| SourceViews.TopSchedules | SCHEDULING/backend/source/scheduler/views.py:138-163 | at most five runs, in cost order, the cheapest of the runs without a violation |
| SourceViews.AdmitRuns | SCHEDULING/backend/source/scheduler/views.py:138-159 | the loop over engine runs keeps exactly the runs without a violation |
| Views.QuarterFloor | SCHEDULING/backend/scheduler/views.py:80-82 | `floor((h + m/60) * 4)` is `4h + m // 15` |
| Views.QuarterCeil | SCHEDULING/backend/scheduler/views.py:81-83 | `ceil((h + m/60) * 4)` is `4h + ceil(m / 15)` |
| Views.StartIndex | SCHEDULING/backend/scheduler/views.py:80-82 | the start slot is the quarter hour containing the start, in [0, 95] |
| Views.EndIndex | SCHEDULING/backend/scheduler/views.py:81-83 | the end slot is the first quarter hour boundary at or after the end, in [0, 96] |
| Views.SpliceAsWritten | SCHEDULING/backend/scheduler/views.py:85-89 | for start <= end the splice frees exactly that range and keeps the length; for end < start it grows the day by the difference |
| Views.SpliceGrows | SCHEDULING/backend/scheduler/views.py:82-89 | an "Available" event from 20:00 to midnight turns the day into a 176-character string |
| Views.FreedRange | SCHEDULING/backend/scheduler/views.py:82-83 | the corrected range starts at the start slot and ends at the end slot, or at the day's end for an event past midnight |
| Views.SpliceClosed | SCHEDULING/backend/scheduler/views.py:85-89 | the corrected splice keeps 96 slots and frees exactly the freed range |
| Views.SpliceClosedAgrees | SCHEDULING/backend/scheduler/views.py:85-89 | for events that do not pass midnight, the corrected splice equals the written one |
| Views.SubmitAvailability | SCHEDULING/backend/scheduler/views.py:66-89 | the week starts busy; days no applicable event starts on stay busy; without an event past midnight the result is 7 binary 96-slot days, free exactly where some manual "Available" event covers the slot |
| Views.PaintCell | SCHEDULING/backend/scheduler/views.py:76-89 | after one more applicable event a slot is free exactly when it was already, or the event frees it on its own day |
| Views.HasSubmittedAvailability | SCHEDULING/backend/scheduler/views.py:318 | the flag is set exactly when some day is not all '1' |
| Views.FlagMeansFreedSlot | SCHEDULING/backend/scheduler/views.py:318 | for a submitted week, the flag is set exactly when some applicable event freed a slot |
| Views.RefusalStatus | SCHEDULING/backend/scheduler/views.py:125-152 | a refused request gets 404 exactly when the hours, staff, schedule-count and selection checks pass and no employee is found; every other refusal gets 400 |
| Views.ValidateRequest | SCHEDULING/backend/scheduler/views.py:125-152 | a request is accepted exactly when all eight checks pass; otherwise the first failing check is reported |
| Views.AnySubmitted | SCHEDULING/backend/scheduler/views.py:140-142 | true exactly when some found employee has submitted availability |
| Views.AnyMaxHours | SCHEDULING/backend/scheduler/views.py:145-147 | true exactly when some found employee has positive max hours |
| Views.RangeCases | SCHEDULING/backend/scheduler/views.py:125-130 | in-range triples pass the range checks, and out-of-range triples are refused with 400 |
| Views.AcceptedFitsCapacity | SCHEDULING/backend/scheduler/views.py:145-152 | an accepted request has a positive budget within the employees' total max hours, and someone with hours |
| ScheduleOutput.RunEnd | SCHEDULING/backend/scheduler/views.py:218-222 | a run continues over '1' slots and stops at the first other slot or the day's end |
| ScheduleOutput.Runs | SCHEDULING/backend/scheduler/views.py:216-239 | runs are half-open ranges of '1', each maximal, in order with a gap between neighbours |
| ScheduleOutput.RunsCover | SCHEDULING/backend/scheduler/views.py:216-239 | the runs cover exactly the '1' slots |
| ScheduleOutput.RunsOrdered | SCHEDULING/backend/scheduler/views.py:216-239 | the runs are strictly increasing and pairwise disjoint |
| ScheduleOutput.RunsRoundTrip | SCHEDULING/backend/scheduler/views.py:216-239 | painting the runs of a binary day reproduces the day |
| ScheduleOutput.NoRunsNoOnes | SCHEDULING/backend/scheduler/views.py:216-239 | a day has no runs exactly when it has no '1' |
| ScheduleOutput.Interval | SCHEDULING/backend/scheduler/views.py:224-225 | a shift lasts 15 minutes per slot and lies within its own day |
| ScheduleOutput.WeekShiftsInside | SCHEDULING/backend/scheduler/views.py:216-239 | every shift lies inside a day of the week (each day's runs become shifts at :226-229, the helper `DayShifts`) |
| ScheduleOutput.WeekShiftsOrdered | SCHEDULING/backend/scheduler/views.py:216-239 | shifts come day by day, each day's in order and disjoint |
| ScheduleOutput.WeekShiftsCover | SCHEDULING/backend/scheduler/views.py:216-239 | a slot is assigned exactly when some shift covers it |
| ScheduleOutput.NoShiftsNoOnes | SCHEDULING/backend/scheduler/views.py:241 | a week has no shifts exactly when nothing is assigned |
| ScheduleOutput.EmitDay | SCHEDULING/backend/scheduler/views.py:217-239 | the slot loop emits exactly the day's runs, including one that reaches the end of the day |
| ScheduleOutput.ScanEnd | SCHEDULING/backend/scheduler/views.py:232-239 | after the scan, an open run is closed at the day's length |
| ScheduleOutput.EmitWeek | SCHEDULING/backend/scheduler/views.py:216-239 | the week loop emits the shifts of every day in order |
| ScheduleOutput.FormattedSound | SCHEDULING/backend/scheduler/views.py:241-249 | every entry is some employee's full, non-empty shift list; there are no more entries than employees |
| ScheduleOutput.FormattedComplete | SCHEDULING/backend/scheduler/views.py:241-249 | every employee with a shift has its entry |
| ScheduleOutput.FormatSchedule | SCHEDULING/backend/scheduler/views.py:212-249 | the loop yields the entries of exactly the employees with shifts |
| ScheduleOutput.OverlapBound | SCHEDULING/backend/scheduler/views.py:176-177 | the overlap never exceeds the optimal string's '1' count |
| ScheduleOutput.SelfOverlap | SCHEDULING/backend/scheduler/views.py:176-177 | a string overlaps itself in all its '1's |
| ScheduleOutput.Similarity | SCHEDULING/backend/scheduler/views.py:176-178 | the similarity is in [0, 1], 0 when the optimal string has no '1', and otherwise the overlap over that count |
| ScheduleOutput.IdenticalIsTooSimilar | SCHEDULING/backend/scheduler/views.py:178-180 | an alternative equal to the first schedule has similarity 1, above 0.8 |
| ScheduleOutput.OnesNeedEmployees | SCHEDULING/backend/scheduler/views.py:182-184 | a schedule with an assigned slot has an employee for `random.choice` to pick |
| ScheduleOutput.FindFrom | SCHEDULING/backend/scheduler/views.py:189-194 | the first position at or after i holding the character, or the end |
| ScheduleOutput.ClearFirst | SCHEDULING/backend/scheduler/views.py:186-199 | clearing keeps the day's length |
| ScheduleOutput.ClearFirstChanges | SCHEDULING/backend/scheduler/views.py:189-198 | clearing only writes '0', and changes the day exactly when some '1' precedes some '0' |
| ScheduleOutput.ClearFirstIsFirstRun | SCHEDULING/backend/scheduler/views.py:189-198 | what is cleared is the first run of '1', followed by a '0' |
| ScheduleOutput.ClearFirstShift | SCHEDULING/backend/scheduler/views.py:186-199 | the clearing loop computes the day with its first closed run cleared |
| ScheduleOutput.ClearAt | SCHEDULING/backend/scheduler/views.py:186-199 | only the drawn employee's drawn day changes |
| ScheduleOutput.ClearAtKeeps | SCHEDULING/backend/scheduler/views.py:183-199 | a round of clearing keeps the schedule thinned from the original, changed only on drawn days among 0..4 |
| ScheduleOutput.ClearAtSettled | SCHEDULING/backend/scheduler/views.py:183-199 | a schedule that clearing cannot change is left as it is |
| ScheduleOutput.Diversify | SCHEDULING/backend/scheduler/views.py:180-199 | fails exactly for an empty schedule; otherwise only the three drawn days change, only '1' to '0', and a settled schedule comes back unchanged |
| ScheduleOutput.Pad | SCHEDULING/backend/scheduler/views.py:253-258 | padding fails exactly on an empty list; otherwise the list reaches the requested length by repeating the first element |
| ScheduleOutput.Alternative | SCHEDULING/backend/scheduler/views.py:172-199 | an alternative is the engine's result thinned on drawn days; it is unchanged when nothing is assigned or clearing cannot change it |
| ScheduleOutput.Variant | SCHEDULING/backend/scheduler/views.py:172-199 | each iteration's schedule is a thinning of the engine's result, and is that result itself for the first iteration, for an empty optimum and for a schedule clearing cannot change |
| ScheduleOutput.BuildVariants | SCHEDULING/backend/scheduler/views.py:157-251 | the loop produces exactly `num_schedules` formatted schedules: the first is the engine's result itself, every other a thinning of it |
| ScheduleOutput.GenerateSchedules | SCHEDULING/backend/scheduler/views.py:157-255 | exactly `num_schedules` results, the first is the engine's result formatted, each is a thinned result formatted, and with nothing assigned or nothing clearable all are equal |
| EmployeeModel.Len | SCHEDULING/backend/source/scheduler/models.py:25 | `len` is defined exactly on strings, lists and dictionaries |
| EmployeeModel.BitsOnly | SCHEDULING/backend/source/scheduler/models.py:29 | the subset check raises exactly on a list with an unhashable element, and holds exactly for a binary string, a list of "0"/"1" or a dictionary keyed by them |
| EmployeeModel.CheckDays | SCHEDULING/backend/source/scheduler/models.py:28-32 | the loop passes exactly when every day passes; otherwise the first failing day's error is raised |
| EmployeeModel.Clean | SCHEDULING/backend/source/scheduler/models.py:23-32 | a non-list or wrong-length list raises the shape message; otherwise any error is some day's error |
| EmployeeModel.CheckDayAccepts | SCHEDULING/backend/source/scheduler/models.py:29-32 | one day passes exactly when it is a 96-character binary string or a list of 96 "0"/"1" strings |
| EmployeeModel.CleanAccepts | SCHEDULING/backend/source/scheduler/models.py:23-32 | `clean` accepts exactly a list of seven accepted days |
| EmployeeModel.StringDaysRaiseValidation | SCHEDULING/backend/source/scheduler/models.py:28-32 | with seven string days, `clean` fails exactly when some day is not 96 binary characters, and then with the day message |
| EmployeeModel.ListDaysAccepted | SCHEDULING/backend/source/scheduler/models.py:29 | seven lists of 96 "0" strings pass, though they are not bitstrings |
| EmployeeModel.CleanStrict | SCHEDULING/backend/source/scheduler/models.py:24 | the corrected check accepts exactly seven strings of 96 binary characters, and fails only with `ValidationError` |
| EmployeeModel.CleanStrictAgrees | SCHEDULING/backend/source/scheduler/models.py:23-32 | when every day is a string, the corrected and the written check agree |
| StudentHash.NatToString | SCHEDULING/backend/scheduler/utils.py:16 | the text is non-empty decimal digits without a leading zero |
| StudentHash.IntToString | SCHEDULING/backend/scheduler/utils.py:16 | the text is decimal digits, with a leading '-' exactly for negatives |
| StudentHash.IntToStringRoundTrip | SCHEDULING/backend/scheduler/utils.py:16 | reading the text back gives the number |
| StudentHash.IntToStringInjective | SCHEDULING/backend/scheduler/utils.py:16 | two numbers have the same text exactly when they are equal |
| StudentHash.Fold31 | SCHEDULING/backend/scheduler/utils.py:12-15 | the unbounded fold of non-negative codes is non-negative |
| StudentHash.HashStudentId | SCHEDULING/backend/scheduler/utils.py:12-16 | the loop returns the decimal text of the unbounded fold over `str(student_id)` |
| StudentHash.HashEmployeeId | SCHEDULING/backend/scheduler/views.py:274-279 | the views' copy returns the same text as `hash_student_id` on the id |
| StudentHash.PyHashFacts | SCHEDULING/backend/scheduler/utils.py:12-16 | the hash is non-negative, "0" for the empty id, and `hash(s + c) = 31 * hash(s) + ord(c)`, `ord` of every character being the helper `Codes` |
| StudentHash.NumberHashesAsText | SCHEDULING/backend/scheduler/utils.py:13 | a number and its decimal text hash alike |
| StudentHash.ToInt32 | SCHEDULING/frontend/src/utils/hash.js:11 | the result is a signed 32-bit integer congruent to the input modulo 2^32 |
| StudentHash.Utf16 | SCHEDULING/frontend/src/utils/hash.js:8-9 | code units are below 2^16 and equal the code points when no character is beyond U+FFFF |
| StudentHash.JsFold | SCHEDULING/frontend/src/utils/hash.js:7-12 | the frontend value always lies in [-2^31, 2^31) |
| StudentHash.JsHashStudentId | SCHEDULING/frontend/src/utils/hash.js:6-14 | the loop returns the decimal text of the 32-bit fold over the UTF-16 units |
| StudentHash.JsStepWraps | SCHEDULING/frontend/src/utils/hash.js:10-11 | a frontend step is `31h + code` cut to 32 bits |
| StudentHash.JsWrapsFold | SCHEDULING/frontend/src/utils/hash.js:7-12 | the frontend hash is the backend's unbounded fold cut to 32 bits |
| StudentHash.ToInt32Identity | SCHEDULING/frontend/src/utils/hash.js:11 | the cut leaves exactly the signed 32-bit integers alone |
| StudentHash.FoldGrows | SCHEDULING/backend/scheduler/utils.py:12-15 | a prefix's value never exceeds the final value |
| StudentHash.HashesAgree | SCHEDULING/backend/scheduler/utils.py:3-4 | on text within U+FFFF the two hashes give the same text exactly when the backend value stays below 2^31 |
| StudentHash.FitsThroughout | SCHEDULING/backend/scheduler/utils.py:15 | the final value is below 2^31 exactly when every intermediate value is |
| StudentHash.FoldAtLeastDigitFloor | SCHEDULING/backend/scheduler/utils.py:13-14 | a fold of n digit codes is at least the fold of n '0' codes |
| StudentHash.EightDigitIdsDisagree | SCHEDULING/backend/scheduler/utils.py:12-16 | every 8-digit id exceeds 2^31 on the backend, so the two hashes never agree on one |
| StudentHash.HashStudentId32 | SCHEDULING/backend/scheduler/utils.py:15 | the corrected backend loop returns the text of the fold cut to 32 bits |
| StudentHash.Hash32Agrees | SCHEDULING/frontend/src/utils/hash.js:6-14 | the corrected backend hash equals the frontend hash on text within U+FFFF |
| GuestStorage.FirstMatch | MANDALA/frontend/src/utils/guestStorage.ts:27-29 | `find` yields the first line with the key, or none |
| GuestStorage.Without | MANDALA/frontend/src/utils/guestStorage.ts:54-56 | exactly the lines without the key remain |
| GuestStorage.TotalUpdate | MANDALA/frontend/src/utils/guestStorage.ts:46-47 | setting a line's quantity moves the total by the difference |
| GuestStorage.AddTotal | MANDALA/frontend/src/utils/guestStorage.ts:31-35 | adding raises the total quantity by the item's quantity |
| GuestStorage.AddKeys | MANDALA/frontend/src/utils/guestStorage.ts:25-38 | adding adds the item's key, and lengthens the cart exactly when the key was new |
| GuestStorage.AddKeepsUnique | MANDALA/frontend/src/utils/guestStorage.ts:27-35 | adding never creates a second line for a key |
| GuestStorage.UpdateFacts | MANDALA/frontend/src/utils/guestStorage.ts:40-50 | updating sets the first match, moves the total by the difference, and keeps keys unique |
| GuestStorage.WithoutAppend | MANDALA/frontend/src/utils/guestStorage.ts:54-56 | removal keeps the remaining lines in order |
| GuestStorage.RemoveKeys | MANDALA/frontend/src/utils/guestStorage.ts:52-58 | after removal the key is gone, all other keys stay, and removing an absent key changes nothing |
| GuestStorage.WithoutKeepsUnique | MANDALA/frontend/src/utils/guestStorage.ts:52-58 | removal keeps keys unique |
| GuestStorage.WithoutNoMatch | MANDALA/frontend/src/utils/guestStorage.ts:54-56 | filtering a cart without the key leaves it unchanged |
| GuestStorage.WishlistWithout | MANDALA/frontend/src/utils/guestStorage.ts:84 | exactly the entries for other products remain |
| GuestStorage.WishlistAddFacts | MANDALA/frontend/src/utils/guestStorage.ts:74-80 | after adding, the product is listed, once more only if it was absent; adding is idempotent and keeps the list free of duplicates |
| GuestStorage.WishlistRemoveFacts | MANDALA/frontend/src/utils/guestStorage.ts:82-86 | after removal the product is not listed, and every other entry is kept |
| GuestStorage.WishlistWithoutAppend | MANDALA/frontend/src/utils/guestStorage.ts:84 | removal keeps the remaining entries in order |
| GuestStorage.WishlistWithoutKeepsNoDuplicates | MANDALA/frontend/src/utils/guestStorage.ts:82-86 | removal never creates a duplicate |
| GuestStorage.GuestStore.constructor | MANDALA/frontend/src/utils/guestStorage.ts:11-12 | a fresh browser has neither key set |
| GuestStorage.GuestStore.AddToGuestCart | MANDALA/frontend/src/utils/guestStorage.ts:25-38 | the stored cart becomes the old cart with the item added; the wishlist is untouched |
| GuestStorage.GuestStore.UpdateGuestCartItem | MANDALA/frontend/src/utils/guestStorage.ts:40-50 | with a match the stored cart gets the new quantity; without one nothing is written; the wishlist is untouched |
| GuestStorage.GuestStore.RemoveFromGuestCart | MANDALA/frontend/src/utils/guestStorage.ts:52-58 | the stored cart becomes the old cart without the key's lines |
| GuestStorage.GuestStore.ClearGuestCart | MANDALA/frontend/src/utils/guestStorage.ts:60-62 | the key is removed and the cart then reads as empty |
| GuestStorage.GuestStore.AddToGuestWishlist | MANDALA/frontend/src/utils/guestStorage.ts:74-80 | an absent product is appended and written; a listed one leaves storage untouched |
| GuestStorage.GuestStore.RemoveFromGuestWishlist | MANDALA/frontend/src/utils/guestStorage.ts:82-86 | the stored wishlist becomes the old one without the product |
| GuestStorage.GuestStore.ClearGuestWishlist | MANDALA/frontend/src/utils/guestStorage.ts:88-90 | the key is removed and the wishlist then reads as empty |

## Left out

- **Interfaces not modelled:**
  - Django request handling, `json.loads`/`JsonResponse`, the ORM (`Employee.objects.*`, `save`) and HTTP methods other than the branches modelled.
  - The employees' names looked up for each entry.
  - `admin_form_submission`, `update_parameters`, `save_schedule`, `get_schedules`, `delete_student` and `get_student_availability`: database plumbing only.
- **Date and time:**
  - `datetime.fromisoformat`, `pytz`, `weekday()`, the base Monday and `strftime`. An event carries its already parsed weekday, hour and minute, and a shift is a day and a slot range.
  - `ScheduleOutput.Interval` gives minutes after the base Monday rather than formatted timestamps.
- **Randomness:** the `random` module is not modelled.
  - The earlier engine's draws are nondeterministic choices.
  - The diversity clearing's employee and day are nondeterministic.
  - The engine's seeded branches (shuffle and score noise) are unreachable, because `self.random_seed` is never set. The model drops them and states the seed has no effect.
  - Every `generate_schedule` iteration therefore receives the same engine result, which `ScheduleOutput.GenerateSchedules` takes as a parameter.
- **Logging:** `print` output in the engine, the views and the batch command, including the violation warning.
- **Batch command inputs:** the dummy employees of the batch command are left out. `generate_block_availability` is not part of this model, so the runs are an input.
- **Hours are Dafny reals, not IEEE doubles:**
  - `int(allowed * 4)` is truncation toward zero.
  - The `1e-6` guard is kept as a constant.
  - `float('inf')` is the `Infinite` average.
  - Rounding effects of floating point are not modelled.
- **Constants:** `constants.py` is not part of this model. `BITS_PER_DAY` is taken as 96 and `DAYS_OF_WEEK` as seven days; valid days are indices into it.
- **Never-updated counters:** `total_emp_hour_limit_violations` and `scheduledHoursPerEmployee` are never updated by the engine. They are modelled as staying at their initial values, and a run's violation count is an input of `SourceViews.TopSchedules`.
- **Guest storage:**
  - Local storage is two optional slots holding the lists. `JSON.stringify` followed by `JSON.parse` is taken to give the list back.
  - A stored empty string, which reads as an empty list, is not distinguished from an absent key.
  - Quantities are integers rather than JavaScript numbers.
  - `mergeGuestDataWithUser` is left out: it performs network calls.
- **Students' ids:** the frontend hash takes its argument as a string. A non-string argument (no `length`) is not modelled.
  - The copy of the JavaScript hash at SCHEDULING/frontend/src/pages/student/StudentSchedulePage.jsx:10-18 is textually identical to hash.js and is covered by the same member.
  - The copy at SCHEDULING/backend/scheduler/tests/test_scheduling.py:8-13 is identical to utils.py.
- EngineSpec.SoundConsequences: caps each employee's assigned slots by four per hour of `min(max_hours, target)`. It does not cap booked hours against assigned slots, because the second pass can book slots that are already '1' and count their hours again (`EngineSpec.RebookingCountsTwice`).
- **The earlier `generate_schedule` view's responses** (SCHEDULING/backend/source/scheduler/views.py:119-170) are not modelled. Only the selection it computes is modelled, by `SourceViews.TopSchedules`.
  - After selecting the top five at :163 the view reaches its end without a `return`, so a successful request yields `None`.
  - It calls `HttpResponseBadRequest` at :121, :129, :133 and :169, but the imports at :1-7 do not bring that name in.
  - So a non-POST request raises `NameError`, the two input checks fall into the generic 500 handler, and invalid JSON raises `NameError` from inside its handler.
- **Priorities are natural numbers** (`EngineSpec.Employee.priority`). `update_parameters` stores whatever JSON value it is given (SCHEDULING/backend/source/scheduler/views.py:104-105).
  - With negative priorities, `total_priority` (SCHEDULING/backend/scheduler/scheduleEngine.py:84) can be zero, and the division at :89 then raises `ZeroDivisionError`.
  - Mixed signs give negative targets.
  - Neither case is modelled.
- **Day order relies on CPython's set iteration.** The second pass visits `valid_days_set` in ascending order (SCHEDULING/backend/scheduler/scheduleEngine.py:202-205), and so does `find_day_with_lowest_coverage` (:265). That is CPython's iteration order for a set of small integers, which the language does not promise. The model fixes the ascending order.
- Engine.ScheduleEngine.Schedule: the valid work days restrict only the second pass; the first pass visits all seven days, as the code does.
- SourceViews.TopSchedules: proved for any run list of the required length. The engine the earlier view imports is not part of this model, so no link to its outputs is made.
- Views.SubmitAvailability: with an event past midnight only the busy days untouched by events are stated, because the written splice then changes the day's length (see Findings).

## Findings

| source | as written | input that shows it | evidently intended | confidence | as-written member | corrected member |
|---|---|---|---|---|---|---|
| SCHEDULING/backend/scheduler/views.py:82-89 | the splice `s[:a] + '0' * (b - a) + s[b:]` with the end slot computed from the end's clock time | an "Available" event on Monday from 20:00 to 00:00 the next day: a = 80, b = 0, and the day becomes 176 characters | the day keeps 96 slots, freeing from the start slot to the end of the day | high (proved; not executed) | Views.SpliceGrows | Views.SpliceClosed |
| SCHEDULING/backend/scheduler/utils.py:12-16 | `h & h` on Python's unbounded integers is the identity, so nothing is cut to 32 bits, while hash.js cuts every step | any 8-digit student id, e.g. "12345678": backend 1394003017860, frontend -1861353340 | the backend equals the frontend hash, as its docstring and comment say | high (proved; not executed) | StudentHash.EightDigitIdsDisagree | StudentHash.HashStudentId32 |
| SCHEDULING/backend/source/scheduler/models.py:28-31 | `len(day)` and `set(day)` also accept a list of one-character strings | an availability of seven lists of 96 "0" strings is accepted | only seven 96-character bitstrings pass, as the docstring says | high (proved; not executed) | EmployeeModel.ListDaysAccepted | EmployeeModel.CleanStrict |

The diversity assertion of SCHEDULING/backend/scheduler/tests/test_scheduling.py:318-323 requires three pairwise-different schedules. That cannot hold whenever the engine result assigns nothing or has nothing clearable (`ScheduleOutput.GenerateSchedules`): the engine ignores its seed, so every alternative starts from the same result.
