/** The per-session state the scheduler works from: the list of tasks, the
    energy rating chosen on the tracker tab, the recorded responses and the
    simulated profile, with the callbacks that change them. */
module Session {
  import opened Wrappers
  import opened Scheduler
  import opened ScheduleRun

  /** One submitted response: the hour it was given at and the rating. */
  datatype Observation = Observation(hour: int, energy: int)

  /** Why "Generate Schedule" produced no schedule. */
  datatype ScheduleError = NoSimulatedData | NoTasks

  /** A simulated profile: one value per hour, in tenths, within 1.0..4.0. */
  predicate ValidProfile(p: seq<int>) {
    |p| == 24 && forall h :: 0 <= h < 24 ==> 10 <= p[h] <= 40
  }

  /** The list without its entry at `index`; any other index leaves it as is. */
  function RemoveAt<T>(s: seq<T>, index: int): (r: seq<T>)
    ensures 0 <= index < |s| ==>
              && |r| == |s| - 1
              && (forall j :: 0 <= j < index ==> r[j] == s[j])
              && (forall j :: index <= j < |r| ==> r[j] == s[j + 1])
    ensures !(0 <= index < |s|) ==> r == s
  {
    if 0 <= index < |s| then s[..index] + s[index + 1..] else s
  }

  /** Removing an entry loses exactly that entry. */
  lemma RemoveAtMultiset<T>(s: seq<T>, index: int)
    requires 0 <= index < |s|
    ensures multiset(RemoveAt(s, index)) + multiset{s[index]} == multiset(s)
  {
    assert s == s[..index] + [s[index]] + s[index + 1..];
  }

  /** The rating after pressing the button for `v`: pressing the selected
      rating clears the selection, pressing another one selects it. */
  function Toggled(sel: Option<int>, v: int): (r: Option<int>)
    ensures r == None <==> sel == Some(v)
    ensures r != None ==> r == Some(v)
  {
    if sel != Some(v) then Some(v) else None
  }

  /** Pressing the same rating twice from no selection, or from that rating,
      comes back to where it started. */
  lemma ToggleTwice(sel: Option<int>, v: int)
    requires sel == None || sel == Some(v)
    ensures Toggled(Toggled(sel, v), v) == sel
  {
  }

  /** Pressing a different rating replaces the selection rather than
      clearing it. */
  lemma ToggleSwitches(w: int, v: int)
    requires w != v
    ensures Toggled(Some(w), v) == Some(v)
  {
  }

  class Session {
    var tasks: seq<Task>
    var selectedEnergy: Option<int>
    var observations: seq<Observation>
    var profile: Option<seq<int>>

    /** Every task lasts at least an hour, recorded hours are hours of the
        day, and a stored profile is a valid one. */
    ghost predicate Valid()
      reads this
    {
      && ValidTasks(tasks)
      && (forall i :: 0 <= i < |observations| ==> 0 <= observations[i].hour < 24)
      && (profile.Some? ==> ValidProfile(profile.value))
    }

    /** A fresh session: no tasks, no selection, no responses, no profile. */
    constructor()
      ensures Valid()
      ensures tasks == [] && selectedEnergy == None && observations == [] && profile == None
    {
      tasks := [];
      selectedEnergy := None;
      observations := [];
      profile := None;
    }

    /** "Add Task": the new task goes to the end of the list. */
    method AddTask(t: Task)
      requires Valid() && t.duration >= 1
      modifies this
      ensures Valid()
      ensures tasks == old(tasks) + [t]
      ensures selectedEnergy == old(selectedEnergy) && observations == old(observations)
      ensures profile == old(profile)
    {
      tasks := tasks + [t];
    }

    /** remove_task: pop the entry at `index` when it is in range. */
    method RemoveTask(index: int)
      requires Valid()
      modifies this
      ensures Valid()
      ensures tasks == RemoveAt(old(tasks), index)
      ensures selectedEnergy == old(selectedEnergy) && observations == old(observations)
      ensures profile == old(profile)
    {
      if 0 <= index < |tasks| {
        tasks := tasks[..index] + tasks[index + 1..];
      }
    }

    /** toggle_option: select `v`, or clear the selection if `v` is already
        selected. */
    method ToggleOption(v: int)
      requires Valid()
      modifies this
      ensures Valid()
      ensures selectedEnergy == Toggled(old(selectedEnergy), v)
      ensures tasks == old(tasks) && observations == old(observations) && profile == old(profile)
    {
      selectedEnergy := if selectedEnergy != Some(v) then Some(v) else None;
    }

    /** "Submit Response" (only offered while a rating is selected): record
        the rating at the current hour and clear the selection. The hour is
        the clock's and is passed in. */
    method SubmitResponse(hour: int) returns (recorded: Observation)
      requires Valid() && selectedEnergy.Some? && 0 <= hour < 24
      modifies this
      ensures Valid()
      ensures recorded == Observation(hour, old(selectedEnergy).value)
      ensures observations == old(observations) + [recorded]
      ensures selectedEnergy == None
      ensures tasks == old(tasks) && profile == old(profile)
    {
      recorded := Observation(hour, selectedEnergy.value);
      observations := observations + [recorded];
      selectedEnergy := None;
    }

    /** Storing a simulated profile for the scheduler. */
    method SetProfile(p: seq<int>)
      requires Valid() && ValidProfile(p)
      modifies this
      ensures Valid()
      ensures profile == Some(p)
      ensures tasks == old(tasks) && selectedEnergy == old(selectedEnergy)
      ensures observations == old(observations)
    {
      profile := Some(p);
    }

    /** "Generate Schedule": refuse without a profile, then refuse without
        tasks, otherwise schedule every task from a fully free day. */
    method GenerateSchedule() returns (r: Result<seq<Recommendation>, ScheduleError>)
      requires Valid()
      ensures profile == None ==> r == Failure(NoSimulatedData)
      ensures profile != None && tasks == [] ==> r == Failure(NoTasks)
      ensures profile != None && tasks != [] ==>
                r == Success(Schedule(tasks, AllHours(), profile.value))
    {
      if profile == None {
        return Failure(NoSimulatedData);
      }
      if tasks == [] {
        return Failure(NoTasks);
      }
      var recs := ScheduleRun.GenerateSchedule(tasks, profile.value);
      return Success(recs);
    }
  }
}
