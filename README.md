# Energy-aware task scheduler

A Dafny model of the daily task scheduler in `app.py`, the Streamlit energy
tracker. The scheduler starts with all 24 hours of the day free. It takes
tasks in list order. For each task it:

1. splits the free hours into maximal runs of consecutive hours
   (`get_segments`);
2. slides a window of `duration` hours over every run that is long enough;
3. keeps the window with the lowest mean energy if a task's specific label
   is `"Sleep"`, and the window with the highest mean otherwise. The
   comparisons are strict, so the first window scanned wins a tie;
4. removes the chosen hours from the free list and records one
   recommendation. The block is empty (`None`) when no run is long enough.

The session callbacks around the scheduler are modelled too:

- adding a task (`Add Task`);
- `remove_task`;
- the energy-rating toggle `toggle_option`;
- "Submit Response", which clears the rating;
- storing a simulated profile;
- the two refusals of "Generate Schedule".

Files:

- `wrappers.dfy`: `Option` and `Result`.
- `segments.dfy`: the `sorted` call as an insertion-sort function `Sort`,
  the maximal runs `Runs`, and `GetSegments`, the loop of `get_segments`.
  `GetSegments` is proved equal to `Runs(Sort(hours))`, and `Runs` is proved
  to be the unique split into maximal consecutive runs.
- `scheduler.dfy`: one task.
  - `Candidates` lists the windows in scan order.
  - `Scan` is the running best (`best_block`).
  - `Choose` is the block a task gets from a pool of free hours.
  - `After` is the pool once the block's hours are removed with
    `list.remove`.
  - The methods `ScanSegment` and `ChooseBlock` are the nested loops. They
    carry the running best window sum (`best_avg`) and are proved to
    compute `Scan(Candidates(...))`.
- `run.dfy`: the loop over all tasks.
  - `Schedule` is the recommendation list; `PoolBefore` is the free list
    before task k.
  - The method `ScheduleTask` is proved to compute one step of the run:
    `Choose` and `After` for one task. The methods `ScheduleFrom` and
    `GenerateSchedule` are proved to compute `Schedule`.
  - The lemmas cover the whole run: one recommendation per task, disjoint
    blocks, a pool that only shrinks, hour accounting, and the pigeonhole
    consequence.
- `scenarios.dfy`: three worked runs, proved generically and then
  instantiated on a full day:
  - a flat profile, where every task gets the first hours of the pool;
  - two 20-hour tasks, where only the first fits;
  - the morning-person curve, where a 2-hour task gets hours 6 and 7.
- `session.dfy`: the class `Session`, holding the list of tasks, the selected
  rating, the recorded responses and the simulated profile, with the
  callbacks as methods.

How the model represents the data:

- **Energy profile.** A `seq<int>` of 24 entries, in tenths of a rating.
  Every simulator returns a value in 1.0..4.0 rounded to one decimal: the
  patterned ones clamp to that range, and the patternless one draws from it.
  So the values are 10..40.
- **Window scores.** All windows compared for one task have the same
  length, so comparing their means is the same as comparing their sums.
  The model compares integer sums (`WindowSum`).
- **Profile lookup.** The profile frame has one row per hour, so the
  `df["hour"].isin(block)` lookup reads the profile at each hour of the
  block (`Energy`).
- **Infinite starting values.** `float('inf')` and `-float('inf')` are the
  `None` case of the running best, which the first window always beats.
- **`if best_block:`** A window is never empty, because durations are at
  least 1. So this test is `Some?`.

## Model

| member | source | states |
|---|---|---|
| Segments.GetSegments | app.py:336-347 | The loop's result is `Runs(Sort(hours))`: non-empty consecutive runs whose concatenation is the sorted input. Empty input gives no runs. |
| Segments.Sort | app.py:339 | No contract of its own. `SortFacts` shows it returns an ascending permutation, and `SortOfAscending` shows it leaves the free list as it is. |
| Segments.Runs | app.py:336-347 | No contract of its own. `RunsCharacterization` shows it is the one split into maximal consecutive runs, and `GetSegments` is proved to compute it. |
| Segments.RunsCharacterization | app.py:336-347 | A list of runs is a split of `s` into non-empty consecutive runs that no next run could extend, if and only if it equals `Runs(s)`. |
| Segments.RunsIsRunSplit | app.py:336-347 | `Runs(s)` concatenates back to `s`. Each run is non-empty and consecutive. A run is never followed by its successor value. |
| Segments.RunSplitUnique | app.py:336-347 | Two maximal run splits of the same list are equal. |
| Segments.RunsAreSeparated | app.py:336-347 | On a strictly ascending list, each run ends at least two below the start of the next run (a gap of one or more hours). |
| Segments.SortFacts | app.py:339 | `Sort` returns an ascending permutation of its input (same multiset). |
| Segments.InsertFacts | app.py:339 | Inserting into an ascending list keeps it ascending and adds exactly the new element. |
| Segments.SortOfAscending | app.py:339 | Sorting an ascending list returns it unchanged. The free list is always ascending, so `sorted` does not reorder it. |
| Segments.ConsecutiveIsStrictlyAscending | app.py:340-341 | A run built by appending `last + 1` is strictly ascending, so it has no repeated hour. |
| Scheduler.AllHours | app.py:334 | No contract of its own. `AllHoursFacts` shows it is a pool of the 24 hours 0..23 in order, one consecutive run. |
| Scheduler.IsSleep | app.py:350 | No contract of its own. The exact test on the specific label `"Sleep"` that picks the `<` branch (app.py:350-368) over the `>` branch (app.py:369-387); `ChooseOptimal` and `ChooseOptimalWindow` state what each branch gets. |
| Scheduler.Energy | app.py:358 | No contract of its own. The profile's value at one hour, read as `df["hour"].isin(block)` does for a frame with one row per hour (also app.py:377). |
| Scheduler.WindowSum | app.py:358 | No contract of its own. The total energy of a block, its mean times its length (also app.py:377); `FlatSum` and `PairSum` evaluate it. |
| Scheduler.Better | app.py:359 | No contract of its own. The strict `<` for Sleep and `>` otherwise (also app.py:378); `FirstBestUnique` shows the strictness makes the first optimal candidate unique. |
| Scheduler.SegmentWindows | app.py:355-357 | No contract of its own. `SegmentWindowsShape` shows it is empty exactly for a segment shorter than the duration and otherwise slices start by start, and `CandidatesAreAllWindows` shows the candidates are exactly these windows. |
| Scheduler.Pick | app.py:352-361 | No contract of its own. One scan step: `None` is the infinite starting value, which any window replaces, and otherwise only a strictly better window replaces the best (also app.py:371-380). `Consider` is proved to take it, and `ScanCharacterization` shows the strict update keeps the first optimal candidate. |
| Scheduler.Consider | app.py:358-361 | Visiting one window takes one scan step: the window replaces the best so far when there is none or when its sum is strictly better. The running sum stays the sum of the kept window. |
| Scheduler.ScanSegment | app.py:355-361 | The inner loop over window starts in one segment continues the scan: the kept block is `Scan` of the earlier windows followed by this segment's windows. `bestSum` is the kept block's sum. |
| Scheduler.ChooseBlock | app.py:350-380 | The segment loop returns `Scan(Candidates(segments, duration))`, with `<` for Sleep and `>` otherwise. |
| Scheduler.CandidatesEmpty | app.py:355 | There are no candidate windows exactly when no segment is as long as the duration. |
| Scheduler.Candidates | app.py:354-357 | No contract of its own. `CandidatesAreAllWindows` shows its entries are exactly the `duration`-windows of the segments, and `CandidateStartsAscend` shows they come in order of first hour. |
| Scheduler.CandidatesAreWindows | app.py:354-357 | Every candidate is `duration` entries taken from one segment at some start. |
| Scheduler.WindowsAreCandidates | app.py:354-357 | Conversely, every `duration`-window of every segment at least that long is a candidate. |
| Scheduler.CandidatesAreAllWindows | app.py:354-357 | A list is a candidate if and only if it is a `duration`-window of some segment. |
| Scheduler.CandidateStartsAscend | app.py:354-357 | When the segments concatenate to a strictly ascending list, every candidate has `duration` hours and the candidates are scanned in strictly ascending order of their first hour. |
| Scheduler.Scan | app.py:358-361 | No contract of its own. `ScanCharacterization` shows it keeps exactly the first optimal candidate, and `ChooseBlock` is proved to compute it. |
| Scheduler.Choose | app.py:350-361 | No contract of its own. `ChooseNoneIff`, `ChooseBlockShape`, `ChooseOptimalWindow` and `ChooseEarliestStart` pin it down. |
| Scheduler.ScanFirstBest | app.py:354-361 | The scan keeps nothing only when there are no candidates. Otherwise it keeps a candidate that is optimal and strictly better than every earlier one. |
| Scheduler.ScanCharacterization | app.py:354-361 | The scan keeps `w` if and only if `w` is the first optimal candidate in scan order. |
| Scheduler.FirstBestUnique | app.py:359 | Because the comparison is strict, only one candidate can be the first optimal one. |
| Scheduler.ChooseNoneIff | app.py:354-362 | A task gets no block if and only if no run of the free hours is as long as its duration. |
| Scheduler.ChooseBlockShape | app.py:354-357 | A chosen block has exactly `duration` consecutive hours, is a window of one run, and lies inside the free hours. |
| Scheduler.ChooseOptimal | app.py:350-380 | A Sleep block's sum is at most every candidate's sum. Any other task's block sum is at least every candidate's sum. |
| Scheduler.ChooseOptimalWindow | app.py:350-380 | The same over every `duration`-hour window of every free run: a Sleep block's sum is at most that window's sum, any other block's sum at least that window's sum. |
| Scheduler.ChooseEarliestStart | app.py:354-380 | The block has `duration` hours. Every `duration`-hour window of a free run that starts at a lower hour than the block is strictly worse, so ties go to the lowest starting hour. |
| Scheduler.ChooseEarliest | app.py:354-380 | The chosen block is candidate k, and every candidate scanned before k is strictly worse, so ties go to the earliest window. |
| Scheduler.RemoveFirst | app.py:365 | No contract of its own. `RemoveFirstFacts` pins it down. Its absent-hour case is the one admitted under "Left out". |
| Scheduler.RemoveAll | app.py:364-365 | No contract of its own. `RemoveAllFacts` pins it down, and `ScheduleTask` is proved to compute it. |
| Scheduler.After | app.py:362-367 | No contract of its own. `AfterChoose` and `AfterShrinks` pin it down. |
| Scheduler.AfterChoose | app.py:362-386 | After a block is chosen, the free list is still sorted, loses exactly the block's hours, and is `duration` shorter. Without a block it is unchanged. |
| Scheduler.AfterShrinks | app.py:364-365 | Removing a block leaves a free list that is contained in the old one and no longer. |
| Scheduler.RemoveFirstFacts | app.py:365 | `list.remove` of an hour on a strictly ascending list keeps it strictly ascending and drops exactly that hour. It shortens the list by one when the hour is present. |
| Scheduler.RemoveAllFacts | app.py:364-365 | Removing the hours of a block from a strictly ascending list keeps it strictly ascending and removes exactly those hours. When the block is itself strictly ascending and lies inside the list, the list shrinks by the block's length. |
| ScheduleRun.Schedule | app.py:348-387 | No contract of its own. `ScheduleLength` and `ScheduleAt` pin it down, and `ScheduleFrom` is proved to compute it. |
| ScheduleRun.PoolBefore | app.py:348-387 | No contract of its own. `PoolStep`, `PoolStaysPool` and `PoolShrinks` pin it down. |
| ScheduleRun.ScheduleTask | app.py:349-368 | One pass of the loop over tasks returns the recommendation `(specific, duration, Choose(...))` and the free list `After(...)`. The removal loop is proved to equal `After`. |
| ScheduleRun.ScheduleFrom | app.py:348-387 | The loop over tasks appends recommendations in task order and returns `Schedule(tasks, start, p)`. |
| ScheduleRun.GenerateSchedule | app.py:333-387 | Starting from all 24 hours free, the run returns `Schedule(tasks, AllHours(), p)`: one recommendation per task, labelled with that task. |
| ScheduleRun.ScheduleLength | app.py:368 | A run produces exactly one recommendation per task. |
| ScheduleRun.ScheduleAt | app.py:348-387 | Recommendation k is for task k. Its block is what task k chooses from the pool left by tasks 0..k-1. |
| ScheduleRun.PoolStep | app.py:364-365 | The pool before task k+1 is the pool before task k with task k's block removed. |
| ScheduleRun.PoolStaysPool | app.py:334 | Every intermediate free list is sorted, has no repeats, and holds hours 0..23. |
| ScheduleRun.PoolShrinks | app.py:364-365 | A later pool is contained in an earlier one and is no longer: freed hours never come back. |
| ScheduleRun.PoolStepShrinks | app.py:383-384 | One task never grows the pool. |
| ScheduleRun.RecommendationFacts | app.py:354-367 | Recommendation k carries task k's label and duration. It has no block if and only if no run of its pool is long enough. Otherwise its block has `duration` consecutive hours from one run of its pool, all within 0..23. |
| ScheduleRun.StartHour | app.py:363 | No contract of its own. A block's `start` (`time` for other tasks, app.py:382) is its first hour; `RecommendedSpan` bounds it. |
| ScheduleRun.EndHour | app.py:363 | No contract of its own. A Sleep block's `end` is its last hour plus one; `RecommendedSpan` shows it is `start` plus the duration. |
| ScheduleRun.RecommendedSpan | app.py:363 | For a block, `end` (last hour + 1) equals `start` + duration, with 0 <= start and end <= 24. |
| ScheduleRun.ChoicesDisjoint | app.py:364-365 | An hour of an earlier task's block is not in any later task's block, because it has left the pool. |
| ScheduleRun.BlocksDisjoint | app.py:362-386 | The blocks of two different tasks of one run share no hour. |
| ScheduleRun.Accounting | app.py:364-365 | After the run, the hours left free plus the hours handed out equal the hours the run started with. |
| ScheduleRun.AllAssigned | app.py:362-365 | If every task got a block, the hours handed out equal the sum of the durations. |
| ScheduleRun.Pigeonhole | app.py:334 | When the durations add up to more than 24 hours, some task of the run gets no block. |
| Scenarios.RunsOfConsecutive | app.py:336-347 | A consecutive non-empty list is a single run. |
| Scenarios.FlatProfileTakesEarliest | app.py:354-361 | On a flat profile, from a pool that is one run, any task gets the first `duration` hours of the pool. |
| Scenarios.FlatSleepFrom | app.py:350-367 | An 8-hour Sleep task on a profile flat at 2.5, from hours 0..23, gets hours 0 to 7. |
| Scenarios.ScenarioFlatSleep | app.py:350-367 | The same for the concrete Sleep task on the full day. |
| Scenarios.TwoLongTasksFrom | app.py:348-387 | Of two 20-hour tasks on 24 consecutive free hours, the first gets a block and the second gets none. |
| Scenarios.ScenarioTwoLongTasks | app.py:348-387 | The same starting from all 24 hours free. |
| Scenarios.MorningStudyFrom | app.py:369-380 | With the morning-person curve (3.8 for hours 6 to 10, otherwise 2.0), a 2-hour task other than Sleep gets hours 6 and 7. That is the earliest of the peak windows. |
| Scenarios.ScenarioMorningStudy | app.py:369-387 | The same for the concrete study task on the full day. |
| Session.RemoveAt | app.py:75-79 | In range: the result is one shorter, keeps the entries before `index`, and shifts the entries after it down by one. Out of range: the list is unchanged. |
| Session.RemoveAtMultiset | app.py:78 | Removing entry `index` loses exactly that entry and nothing else. |
| Session.Toggled | app.py:96 | The result is `None` exactly when the selection was already `v`. Otherwise it is `Some(v)`. |
| Session.ToggleTwice | app.py:96 | Pressing the same rating twice, from no selection or from that rating, returns to the starting selection. |
| Session.ToggleSwitches | app.py:96 | Pressing a rating other than the selected one selects it rather than clearing. |
| Session.Session.constructor | app.py:63-70 | A new session has no tasks, no selection, no responses and no profile. |
| Session.Session.AddTask | app.py:308-315 | The new task is appended at the end of the list. Nothing else changes. |
| Session.Session.RemoveTask | app.py:75-79 | The list of tasks becomes `RemoveAt(old tasks, index)`. Nothing else changes. |
| Session.Session.ToggleOption | app.py:95-96 | The selected rating becomes `Toggled(old selection, v)`. Nothing else changes. |
| Session.Session.SubmitResponse | app.py:104-113 | The selected rating is recorded at the given hour and appended to the responses. The selection becomes `None`. |
| Session.Session.SetProfile | app.py:205-208 | The simulated profile is stored. Nothing else changes. |
| Session.Session.GenerateSchedule | app.py:327-334 | With no profile it fails with `NoSimulatedData`. Otherwise, with no tasks it fails with `NoTasks`. Otherwise it returns the schedule of all tasks from a fully free day. |

## Left out

- Page rendering, sidebar and tab navigation, buttons, select boxes and text
  output: this is user-interface glue. Each callback is modelled as a method
  called with the value its widget would pass.
- The Plotly charts, the animation-frame rows and the rectangle overlays
  draw data and compute nothing the scheduler uses.
- The four energy simulators. They draw from `np.random.uniform` and use
  `np.sin` and float rounding. The profile is an input instead, and a
  stored profile is any 24 values in 10..40.
- Floating-point means. Windows are compared by integer sums in tenths,
  which is exact. Float rounding of pandas' `mean` could in principle break
  an exact tie differently; the model does not capture that.
- The clock. The hour of a response is a parameter of `SubmitResponse`, and
  the timestamp column is dropped.
- The `pd.concat` of the response log and the hourly `groupby` average.
  The log is a sequence of (hour, rating) pairs.
- The duration widgets: 8 hours fixed for the "Sleep" category, 1 to 8 for
  every other category (including the "Sleep" task under "Sleep & Personal
  Care", which is still scheduled as Sleep because its label is "Sleep"). The
  model requires only `duration >= 1` (`ValidTasks`, and the precondition
  of `AddTask`), which is what the scheduler relies on.
- The `start`, `end` and `time` fields of a recommendation. They are read
  off the block (`StartHour`, `EndHour`) and are not stored separately.
- The chat bot widget, an embedded third-party script.
- Scheduler.RemoveFirst: for an absent hour it returns the list unchanged,
  where `list.remove` would raise `ValueError`. A chosen block always lies
  inside the free list (`ChooseBlockShape`), so this case never arises.
- `ScheduleRun.GenerateSchedule` requires a 24-entry profile. The session
  method only passes in stored profiles, which have 24 entries.
