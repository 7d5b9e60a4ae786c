/** Worked runs of the scheduler: a full day of free hours, a flat profile, a
    morning-peak profile, and two tasks that cannot both fit. */
module Scenarios {
  import opened Wrappers
  import opened Segments
  import opened Scheduler
  import opened ScheduleRun

  /** A consecutive list is a single run. */
  lemma RunsOfConsecutive(s: seq<int>)
    requires s != [] && Consecutive(s)
    ensures Runs(s) == [s]
  {
    assert [s][1..] == [];
    assert Flatten([s]) == s;
    RunsCharacterization(s, [s]);
  }

  /** The candidates of a single-run pool are its windows, in start order. */
  lemma SingleRunCandidates(free: seq<int>, d: int)
    requires free != [] && Consecutive(free) && 1 <= d <= |free|
    ensures Runs(free) == [free]
    ensures Candidates(Runs(free), d) == SegmentWindows(free, d)
    ensures |Candidates(Runs(free), d)| == |free| - d + 1
    ensures forall j :: 0 <= j <= |free| - d ==> Candidates(Runs(free), d)[j] == free[j..j + d]
  {
    RunsOfConsecutive(free);
    assert [free][..0] == [];
    SegmentWindowsShape(free, d);
  }

  /** On a flat profile every window of d hours of the day weighs d times the
      common value. */
  lemma {:induction false} FlatSum(p: seq<int>, v: int, w: seq<int>)
    requires |p| == 24 && forall h :: 0 <= h < 24 ==> p[h] == v
    requires forall h :: h in w ==> 0 <= h < 24
    ensures WindowSum(p, w) == v * |w|
  {
    if w != [] {
      assert w[0] in w;
      assert forall h :: h in w[1..] ==> h in w;
      FlatSum(p, v, w[1..]);
    }
  }

  /** On a flat profile, from a pool that is one run, a task gets the first
      `duration` hours of the pool, whether it is Sleep or not: every window
      ties and ties go to the first one. */
  lemma FlatProfileTakesEarliest(t: Task, free: seq<int>, p: seq<int>, v: int)
    requires IsPool(free) && free != [] && Consecutive(free) && 1 <= t.duration <= |free|
    requires |p| == 24 && forall h :: 0 <= h < 24 ==> p[h] == v
    ensures Choose(t, free, p) == Some(free[..t.duration])
  {
    var d := t.duration;
    var c := Candidates(Runs(free), d);
    assert c[0] == free[..d] by {
      SingleRunCandidates(free, d);
    }
    assert Choose(t, free, p).Some? by {
      SingleRunCandidates(free, d);
      ChooseNoneIff(t, free, p);
    }
    var b := Choose(t, free, p).value;
    var k := ChooseEarliest(t, free, p);
    assert WindowSum(p, b) == v * d by {
      ChooseBlockShape(t, free, p);
      FlatSum(p, v, b);
    }
    assert WindowSum(p, c[0]) == v * d by {
      assert forall h :: h in free[..d] ==> h in free;
      FlatSum(p, v, c[0]);
    }
    assert k == 0;
  }

  /** Only one of two 20-hour tasks fits in a day of 24 consecutive hours. */
  lemma TwoLongTasksFrom(tasks: seq<Task>, free: seq<int>, p: seq<int>)
    requires |tasks| == 2 && tasks[0].duration == 20 && tasks[1].duration == 20
    requires IsPool(free) && Consecutive(free) && |free| == 24
    ensures |Schedule(tasks, free, p)| == 2
    ensures Schedule(tasks, free, p)[0].block.Some?
    ensures Schedule(tasks, free, p)[1].block.None?
  {
    assert Choose(tasks[0], free, p).Some? by {
      RunsOfConsecutive(free);
      assert |Runs(free)[0]| == 24;
      ChooseNoneIff(tasks[0], free, p);
    }
    var pool1 := PoolBefore(tasks, free, p, 1);
    assert IsPool(pool1) && |pool1| == 4 by {
      PoolStep(tasks, free, p, 0);
      AfterChoose(tasks[0], free, p);
    }
    assert Choose(tasks[1], pool1, p).None? by {
      RunLengthBound(pool1);
      assert NoRoom(Runs(pool1), 20);
      ChooseNoneIff(tasks[1], pool1, p);
    }
    ScheduleAt(tasks, free, p, 0);
    ScheduleAt(tasks, free, p, 1);
  }

  /** Two tasks of 20 hours each: the first gets a block, the second none. */
  lemma ScenarioTwoLongTasks(a: Task, b: Task, p: seq<int>)
    requires a.duration == 20 && b.duration == 20
    ensures var recs := Schedule([a, b], AllHours(), p);
            |recs| == 2 && recs[0].block.Some? && recs[1].block.None?
  {
    AllHoursFacts();
    TwoLongTasksFrom([a, b], AllHours(), p);
  }

  /** A profile flat at 2.5 all day. */
  function FlatProfile(): seq<int> {
    seq(24, h => 25)
  }

  lemma FlatSleepFrom(tasks: seq<Task>, free: seq<int>, p: seq<int>)
    requires |tasks| == 1 && IsSleep(tasks[0]) && tasks[0].duration == 8
    requires IsPool(free) && Consecutive(free) && |free| == 24
    requires forall i :: 0 <= i < 24 ==> free[i] == i
    requires |p| == 24 && forall h :: 0 <= h < 24 ==> p[h] == 25
    ensures |Schedule(tasks, free, p)| == 1
    ensures Schedule(tasks, free, p)[0].block == Some([0, 1, 2, 3, 4, 5, 6, 7])
  {
    ScheduleAt(tasks, free, p, 0);
    FlatProfileTakesEarliest(tasks[0], free, p, 25);
    assert free[..8] == [0, 1, 2, 3, 4, 5, 6, 7];
  }

  /** Sleep for 8 hours on a profile flat at 2.5: hours 0 to 7. */
  lemma ScenarioFlatSleep()
    ensures var recs := Schedule([Task("Sleep", "Sleep", "Sleep", 8)], AllHours(), FlatProfile());
            |recs| == 1 && recs[0].block == Some([0, 1, 2, 3, 4, 5, 6, 7])
  {
    var tasks := [Task("Sleep", "Sleep", "Sleep", 8)];
    var free, p := AllHours(), FlatProfile();
    assert IsPool(free) && Consecutive(free) && |free| == 24 && forall i :: 0 <= i < 24 ==> free[i] == i by {
      AllHoursFacts();
    }
    assert |p| == 24 && forall h :: 0 <= h < 24 ==> p[h] == 25;
    FlatSleepFrom(tasks, free, p);
  }

  lemma PairSum(p: seq<int>, a: int, b: int)
    ensures WindowSum(p, [a, b]) == Energy(p, a) + Energy(p, b)
  {
    assert [a, b][1..] == [b];
    assert [b][1..] == [];
    assert WindowSum(p, [b]) == Energy(p, b) + WindowSum(p, []);
  }

  /** The morning-person curve in tenths: 3.8 for hours 6 to 10, 2.0 elsewhere. */
  function MorningProfile(): seq<int> {
    seq(24, h => if 6 <= h <= 10 then 38 else 20)
  }

  /** The two-hour candidates of a whole day are [j, j + 1] for each start j. */
  lemma DayPairs(free: seq<int>)
    requires |free| == 24 && forall i :: 0 <= i < 24 ==> free[i] == i
    ensures Consecutive(free)
    ensures |Candidates(Runs(free), 2)| == 23
    ensures forall j :: 0 <= j < 23 ==> Candidates(Runs(free), 2)[j] == [j, j + 1]
  {
    SingleRunCandidates(free, 2);
    forall j | 0 <= j < 23 ensures Candidates(Runs(free), 2)[j] == [j, j + 1] {
      assert free[j..j + 2] == [free[j], free[j + 1]];
    }
  }

  /** A two-hour study task on the morning curve starts at hour 6, the first
      of the windows inside the peak. */
  lemma MorningStudyFrom(t: Task, free: seq<int>)
    requires !IsSleep(t) && t.duration == 2
    requires IsPool(free) && |free| == 24 && forall i :: 0 <= i < 24 ==> free[i] == i
    ensures Choose(t, free, MorningProfile()) == Some([6, 7])
  {
    var p := MorningProfile();
    var c := Candidates(Runs(free), 2);
    DayPairs(free);
    assert Choose(t, free, p).Some? by {
      assert Consecutive(free);
      RunsOfConsecutive(free);
      assert !NoRoom(Runs(free), 2);
      ChooseNoneIff(t, free, p);
    }
    var b := Choose(t, free, p).value;
    var k := ChooseEarliest(t, free, p);
    assert WindowSum(p, b) >= WindowSum(p, c[6]) by {
      ChooseOptimal(t, free, p);
    }
    assert b == [k, k + 1];
    assert WindowSum(p, c[6]) == 76 by {
      PairSum(p, 6, 7);
    }
    assert WindowSum(p, b) == p[k] + p[k + 1] by {
      PairSum(p, k, k + 1);
    }
    assert 6 <= k <= 9;
  }

  /** A two-hour study task on the morning curve gets hours 6 and 7. */
  lemma ScenarioMorningStudy()
    ensures var t := Task("Academic Tasks", "Studying & Revision", "Intensive study sessions for exams and quizzes", 2);
            var recs := Schedule([t], AllHours(), MorningProfile());
            |recs| == 1 && recs[0].block == Some([6, 7])
  {
    var t := Task("Academic Tasks", "Studying & Revision", "Intensive study sessions for exams and quizzes", 2);
    AllHoursFacts();
    ScheduleAt([t], AllHours(), MorningProfile(), 0);
    MorningStudyFrom(t, AllHours());
  }
}
