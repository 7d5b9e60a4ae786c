/** A whole scheduling run: every task in list order, each one taking its
    block out of the pool the earlier tasks left behind. */
module ScheduleRun {
  import opened Wrappers
  import opened Segments
  import opened Scheduler

  /** One entry of schedule_recommendations.  The source also stores the
      block's first hour (and, for Sleep, one past its last hour); both are
      read off `block`. */
  datatype Recommendation = Recommendation(task: string, duration: int, block: Option<seq<int>>)

  /** Durations are at least one hour (the input widgets enforce 1..8). */
  predicate ValidTasks(tasks: seq<Task>) {
    forall i :: 0 <= i < |tasks| ==> tasks[i].duration >= 1
  }

  /** The recommendations for `tasks`, starting from pool `free`. */
  function Schedule(tasks: seq<Task>, free: seq<int>, p: seq<int>): seq<Recommendation>
    requires ValidTasks(tasks)
    decreases |tasks|
  {
    if tasks == [] then []
    else
      var t := tasks[0];
      var choice := Choose(t, free, p);
      TailValid(tasks);
      [Recommendation(t.specific, t.duration, choice)] + Schedule(tasks[1..], After(free, choice), p)
  }

  lemma ScheduleCons(tasks: seq<Task>, free: seq<int>, p: seq<int>)
    requires ValidTasks(tasks) && tasks != []
    ensures ValidTasks(tasks[1..])
    ensures Schedule(tasks, free, p) ==
            [Recommendation(tasks[0].specific, tasks[0].duration, Choose(tasks[0], free, p))]
            + Schedule(tasks[1..], After(free, Choose(tasks[0], free, p)), p)
  {
    TailValid(tasks);
  }

  lemma TailValid(tasks: seq<Task>)
    requires ValidTasks(tasks) && tasks != []
    ensures ValidTasks(tasks[1..])
  {
    forall i | 0 <= i < |tasks| - 1 ensures tasks[1..][i].duration >= 1 {
      assert tasks[1..][i] == tasks[i + 1];
    }
  }

  /** The pool just before task k is considered. */
  function PoolBefore(tasks: seq<Task>, free: seq<int>, p: seq<int>, k: int): seq<int>
    requires ValidTasks(tasks) && 0 <= k <= |tasks|
    decreases k
  {
    if k == 0 then free
    else
      TailValid(tasks);
      PoolBefore(tasks[1..], After(free, Choose(tasks[0], free, p)), p, k - 1)
  }

  function TotalDuration(tasks: seq<Task>): int {
    if tasks == [] then 0 else tasks[0].duration + TotalDuration(tasks[1..])
  }

  /** Hours handed out over a list of recommendations. */
  function AssignedHours(recs: seq<Recommendation>): int {
    if recs == [] then 0
    else (if recs[0].block.Some? then |recs[0].block.value| else 0) + AssignedHours(recs[1..])
  }

  // ---------------------------------------------------------------------------
  // Structure of a run
  // ---------------------------------------------------------------------------

  /** Exactly one recommendation per task. */
  lemma {:induction false} ScheduleLength(tasks: seq<Task>, free: seq<int>, p: seq<int>)
    requires ValidTasks(tasks)
    ensures |Schedule(tasks, free, p)| == |tasks|
    decreases |tasks|
  {
    if tasks != [] {
      TailValid(tasks);
      ScheduleLength(tasks[1..], After(free, Choose(tasks[0], free, p)), p);
    }
  }

  /** Recommendation k is for task k, and its block is what task k chooses
      from the pool left by tasks 0..k-1. */
  lemma {:induction false} ScheduleAt(tasks: seq<Task>, free: seq<int>, p: seq<int>, k: int)
    requires ValidTasks(tasks) && 0 <= k < |tasks|
    ensures |Schedule(tasks, free, p)| == |tasks|
    ensures Schedule(tasks, free, p)[k] ==
            Recommendation(tasks[k].specific, tasks[k].duration, Choose(tasks[k], PoolBefore(tasks, free, p, k), p))
    decreases k
  {
    ScheduleLength(tasks, free, p);
    ScheduleCons(tasks, free, p);
    if k > 0 {
      var next := After(free, Choose(tasks[0], free, p));
      ScheduleAt(tasks[1..], next, p, k - 1);
      assert tasks[1..][k - 1] == tasks[k];
      assert PoolBefore(tasks, free, p, k) == PoolBefore(tasks[1..], next, p, k - 1);
    }
  }

  /** The pool before task k+1 is the pool before task k after task k. */
  lemma {:induction false} PoolStep(tasks: seq<Task>, free: seq<int>, p: seq<int>, k: int)
    requires ValidTasks(tasks) && 0 <= k < |tasks|
    ensures PoolBefore(tasks, free, p, k + 1) ==
            After(PoolBefore(tasks, free, p, k), Choose(tasks[k], PoolBefore(tasks, free, p, k), p))
    decreases k
  {
    TailValid(tasks);
    if k > 0 {
      PoolStep(tasks[1..], After(free, Choose(tasks[0], free, p)), p, k - 1);
      assert tasks[1..][k - 1] == tasks[k];
    }
  }

  /** Every intermediate pool is still a sorted pool of hours of the day. */
  lemma {:induction false} PoolStaysPool(tasks: seq<Task>, free: seq<int>, p: seq<int>, k: int)
    requires ValidTasks(tasks) && IsPool(free) && 0 <= k <= |tasks|
    ensures IsPool(PoolBefore(tasks, free, p, k))
    decreases k
  {
    if k > 0 {
      PoolStaysPool(tasks, free, p, k - 1);
      PoolStep(tasks, free, p, k - 1);
      AfterChoose(tasks[k - 1], PoolBefore(tasks, free, p, k - 1), p);
    }
  }

  /** One task shrinks the pool. */
  lemma PoolStepShrinks(tasks: seq<Task>, free: seq<int>, p: seq<int>, k: int)
    requires ValidTasks(tasks) && IsPool(free) && 0 <= k < |tasks|
    ensures forall h :: h in PoolBefore(tasks, free, p, k + 1) ==> h in PoolBefore(tasks, free, p, k)
    ensures |PoolBefore(tasks, free, p, k + 1)| <= |PoolBefore(tasks, free, p, k)|
  {
    var before := PoolBefore(tasks, free, p, k);
    PoolStaysPool(tasks, free, p, k);
    PoolStep(tasks, free, p, k);
    AfterShrinks(tasks[k], before, p);
  }

  /** The pool only shrinks: a later pool is contained in an earlier one and
      is no longer. */
  lemma {:induction false} PoolShrinks(tasks: seq<Task>, free: seq<int>, p: seq<int>, k1: int, k2: int)
    requires ValidTasks(tasks) && IsPool(free) && 0 <= k1 <= k2 <= |tasks|
    ensures forall h :: h in PoolBefore(tasks, free, p, k2) ==> h in PoolBefore(tasks, free, p, k1)
    ensures |PoolBefore(tasks, free, p, k2)| <= |PoolBefore(tasks, free, p, k1)|
    decreases k2
  {
    if k1 < k2 {
      PoolShrinks(tasks, free, p, k1, k2 - 1);
      PoolStepShrinks(tasks, free, p, k2 - 1);
    }
  }

  /** What one recommendation of a run promises: no block exactly when no
      free segment is long enough; otherwise `duration` consecutive free hours
      of the day, taken from one segment of the pool at that time. */
  lemma RecommendationFacts(tasks: seq<Task>, free: seq<int>, p: seq<int>, k: int)
    requires ValidTasks(tasks) && IsPool(free) && 0 <= k < |tasks|
    ensures |Schedule(tasks, free, p)| == |tasks|
    ensures var rec := Schedule(tasks, free, p)[k];
            var pool := PoolBefore(tasks, free, p, k);
            && rec.task == tasks[k].specific
            && rec.duration == tasks[k].duration
            && (rec.block.None? <==> NoRoom(Runs(pool), tasks[k].duration))
            && (rec.block.Some? ==>
                  && |rec.block.value| == tasks[k].duration
                  && Consecutive(rec.block.value)
                  && IsWindowOf(rec.block.value, Runs(pool), tasks[k].duration)
                  && forall h :: h in rec.block.value ==> h in pool && 0 <= h < 24)
  {
    ScheduleAt(tasks, free, p, k);
    PoolStaysPool(tasks, free, p, k);
    var pool := PoolBefore(tasks, free, p, k);
    var choice := Choose(tasks[k], pool, p);
    assert Schedule(tasks, free, p)[k].block == choice;
    ChooseNoneIff(tasks[k], pool, p);
    if choice.Some? {
      ChooseBlockShape(tasks[k], pool, p);
    }
  }

  /** The hour a recommended block starts at (`start`, or `time` for a task
      other than Sleep). */
  function StartHour(b: seq<int>): int
    requires b != []
  {
    b[0]
  }

  /** The hour a recommended block ends at, exclusive (`end`). */
  function EndHour(b: seq<int>): int
    requires b != []
  {
    Last(b) + 1
  }

  /** A recommended block spans `duration` hours from its start, inside the
      day: the displayed "start:00 to end:00" covers exactly the block. */
  lemma RecommendedSpan(tasks: seq<Task>, free: seq<int>, p: seq<int>, k: int)
    requires ValidTasks(tasks) && IsPool(free) && 0 <= k < |tasks|
    ensures |Schedule(tasks, free, p)| == |tasks|
    ensures var rec := Schedule(tasks, free, p)[k];
            rec.block.Some? ==>
              && rec.block.value != []
              && 0 <= StartHour(rec.block.value)
              && EndHour(rec.block.value) == StartHour(rec.block.value) + rec.duration
              && EndHour(rec.block.value) <= 24
  {
    RecommendationFacts(tasks, free, p, k);
    var rec := Schedule(tasks, free, p)[k];
    if rec.block.Some? {
      var b := rec.block.value;
      assert b[0] in b && b[|b| - 1] in b;
      ConsecutiveValues(b);
    }
  }

  /** A later task's block avoids the hours of an earlier task's block. */
  lemma ChoicesDisjoint(tasks: seq<Task>, free: seq<int>, p: seq<int>, k1: int, k2: int, h: int)
    requires ValidTasks(tasks) && IsPool(free) && 0 <= k1 < k2 < |tasks|
    requires Choose(tasks[k1], PoolBefore(tasks, free, p, k1), p).Some?
    requires Choose(tasks[k2], PoolBefore(tasks, free, p, k2), p).Some?
    requires h in Choose(tasks[k1], PoolBefore(tasks, free, p, k1), p).value
    ensures h !in Choose(tasks[k2], PoolBefore(tasks, free, p, k2), p).value
  {
    var pool1 := PoolBefore(tasks, free, p, k1);
    var pool2 := PoolBefore(tasks, free, p, k2);
    assert h !in PoolBefore(tasks, free, p, k1 + 1) by {
      PoolStaysPool(tasks, free, p, k1);
      PoolStep(tasks, free, p, k1);
      AfterChoose(tasks[k1], pool1, p);
    }
    assert h !in pool2 by {
      PoolShrinks(tasks, free, p, k1 + 1, k2);
    }
    assert IsPool(pool2) by {
      PoolStaysPool(tasks, free, p, k2);
    }
    ChooseBlockShape(tasks[k2], pool2, p);
  }

  /** Blocks given to two different tasks of one run share no hour. */
  lemma BlocksDisjoint(tasks: seq<Task>, free: seq<int>, p: seq<int>, k1: int, k2: int)
    requires ValidTasks(tasks) && IsPool(free) && 0 <= k1 < k2 < |tasks|
    ensures |Schedule(tasks, free, p)| == |tasks|
    ensures var recs := Schedule(tasks, free, p);
            recs[k1].block.Some? && recs[k2].block.Some? ==>
              forall h :: h in recs[k1].block.value ==> h !in recs[k2].block.value
  {
    ScheduleAt(tasks, free, p, k1);
    ScheduleAt(tasks, free, p, k2);
    forall h | Schedule(tasks, free, p)[k1].block.Some? && Schedule(tasks, free, p)[k2].block.Some? &&
               h in Schedule(tasks, free, p)[k1].block.value
      ensures h !in Schedule(tasks, free, p)[k2].block.value
    {
      ChoicesDisjoint(tasks, free, p, k1, k2, h);
    }
  }

  /** The hours left at the end plus the hours handed out account for every
      hour of the starting pool. */
  lemma {:induction false} Accounting(tasks: seq<Task>, free: seq<int>, p: seq<int>)
    requires ValidTasks(tasks) && IsPool(free)
    ensures |PoolBefore(tasks, free, p, |tasks|)| + AssignedHours(Schedule(tasks, free, p)) == |free|
    decreases |tasks|
  {
    if tasks != [] {
      TailValid(tasks);
      var choice := Choose(tasks[0], free, p);
      AfterChoose(tasks[0], free, p);
      if choice.Some? {
        ChooseBlockShape(tasks[0], free, p);
      }
      Accounting(tasks[1..], After(free, choice), p);
    }
  }

  /** If every task got a block, the hours handed out are the total duration. */
  lemma {:induction false} AllAssigned(tasks: seq<Task>, free: seq<int>, p: seq<int>)
    requires ValidTasks(tasks) && IsPool(free)
    ensures var recs := Schedule(tasks, free, p);
            (forall k :: 0 <= k < |recs| ==> recs[k].block.Some?) ==>
              AssignedHours(recs) == TotalDuration(tasks)
    decreases |tasks|
  {
    if tasks != [] {
      TailValid(tasks);
      var choice := Choose(tasks[0], free, p);
      var recs := Schedule(tasks, free, p);
      var rest := Schedule(tasks[1..], After(free, choice), p);
      assert recs == [Recommendation(tasks[0].specific, tasks[0].duration, choice)] + rest;
      AfterChoose(tasks[0], free, p);
      if choice.Some? {
        ChooseBlockShape(tasks[0], free, p);
      }
      AllAssigned(tasks[1..], After(free, choice), p);
      if forall k :: 0 <= k < |recs| ==> recs[k].block.Some? {
        assert forall k :: 0 <= k < |rest| ==> rest[k] == recs[k + 1];
      }
    }
  }

  /** Pigeonhole: when the durations add up to more than a day, some task of
      the run gets no block. */
  lemma Pigeonhole(tasks: seq<Task>, p: seq<int>)
    requires ValidTasks(tasks) && TotalDuration(tasks) > 24
    ensures var recs := Schedule(tasks, AllHours(), p);
            exists k :: 0 <= k < |recs| && recs[k].block.None?
  {
    AllHoursFacts();
    Accounting(tasks, AllHours(), p);
    AllAssigned(tasks, AllHours(), p);
  }

  // ---------------------------------------------------------------------------
  // The scheduler loop
  // ---------------------------------------------------------------------------

  /** The body of the scheduler loop for one task: split the free hours
      into segments, scan the windows, and remove the chosen hours one by
      one (free_hours.remove). */
  method ScheduleTask(task: Task, free: seq<int>, p: seq<int>) returns (rec: Recommendation, next: seq<int>)
    requires task.duration >= 1
    ensures rec == Recommendation(task.specific, task.duration, Choose(task, free, p))
    ensures next == After(free, Choose(task, free, p))
  {
    var duration := task.duration;
    var segments := GetSegments(free);
    var best := ChooseBlock(segments, duration, p, IsSleep(task));
    next := free;
    if best.Some? {
      var block := best.value;
      var j := 0;
      while j < |block|
        invariant 0 <= j <= |block|
        invariant next == RemoveAll(free, block[..j])
      {
        RemoveAllSnoc(free, block, j);
        next := RemoveFirst(next, block[j]);
        j := j + 1;
      }
      assert block[..j] == block;
    }
    rec := Recommendation(task.specific, duration, best);
  }

  /** The scheduler loop over all tasks, from a given pool. */
  method ScheduleFrom(tasks: seq<Task>, start: seq<int>, p: seq<int>) returns (recs: seq<Recommendation>)
    requires ValidTasks(tasks)
    ensures recs == Schedule(tasks, start, p)
  {
    var free := start;
    recs := [];
    var i := 0;
    assert tasks[i..] == tasks;
    while i < |tasks|
      invariant 0 <= i <= |tasks|
      invariant ValidTasks(tasks[i..])
      invariant recs + Schedule(tasks[i..], free, p) == Schedule(tasks, start, p)
    {
      var rec, next := ScheduleTask(tasks[i], free, p);
      assert ValidTasks(tasks[i + 1..]) && Schedule(tasks[i..], free, p) == [rec] + Schedule(tasks[i + 1..], next, p) by {
        ScheduleCons(tasks[i..], free, p);
        assert tasks[i..][0] == tasks[i] && tasks[i..][1..] == tasks[i + 1..];
      }
      assert (recs + [rec]) + Schedule(tasks[i + 1..], next, p) == recs + ([rec] + Schedule(tasks[i + 1..], next, p));
      recs := recs + [rec];
      free := next;
      i := i + 1;
    }
  }

  /** "Generate Schedule": one recommendation per task, in order, starting
      from all 24 hours free. */
  method GenerateSchedule(tasks: seq<Task>, p: seq<int>) returns (recs: seq<Recommendation>)
    requires |p| == 24 && ValidTasks(tasks)
    ensures recs == Schedule(tasks, AllHours(), p)
    ensures |recs| == |tasks|
    ensures forall k :: 0 <= k < |recs| ==> recs[k].task == tasks[k].specific
  {
    recs := ScheduleFrom(tasks, AllHours(), p);
    ScheduleLength(tasks, AllHours(), p);
    forall k | 0 <= k < |recs| ensures recs[k].task == tasks[k].specific {
      ScheduleAt(tasks, AllHours(), p, k);
    }
  }
}
