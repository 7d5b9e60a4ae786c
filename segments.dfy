/** Hours and their maximal runs of consecutive values: the `sorted` call and
    the `get_segments` helper the scheduler uses to split the free hours. */
module Segments {

  predicate Ascending(s: seq<int>) {
    forall i, j :: 0 <= i < j < |s| ==> s[i] <= s[j]
  }

  predicate StrictlyAscending(s: seq<int>) {
    forall i, j :: 0 <= i < j < |s| ==> s[i] < s[j]
  }

  /** Every element is one more than the one before it. */
  predicate Consecutive(s: seq<int>) {
    forall k :: 0 <= k < |s| - 1 ==> s[k + 1] == s[k] + 1
  }

  function Last(s: seq<int>): int
    requires s != []
  {
    s[|s| - 1]
  }

  function Flatten(ss: seq<seq<int>>): seq<int> {
    if ss == [] then [] else ss[0] + Flatten(ss[1..])
  }

  /** `ss` splits `s` into maximal runs: the runs concatenate to `s`, each run
      is non-empty and consecutive, and no run could be continued by the
      first element of the next one. */
  predicate IsRunSplit(ss: seq<seq<int>>, s: seq<int>) {
    && Flatten(ss) == s
    && (forall k :: 0 <= k < |ss| ==> ss[k] != [] && Consecutive(ss[k]))
    && (forall k :: 0 <= k < |ss| - 1 ==> ss[k + 1][0] != Last(ss[k]) + 1)
  }

  /** Run `a` ends at least two below where run `b` starts. */
  predicate Gap(a: seq<int>, b: seq<int>) {
    a != [] && b != [] && Last(a) + 1 < b[0]
  }

  /** Each run is followed by a gap of at least one missing value. */
  predicate Separated(ss: seq<seq<int>>) {
    forall k :: 0 <= k < |ss| - 1 ==> Gap(ss[k], ss[k + 1])
  }

  // ---------------------------------------------------------------------------
  // Sorting (Python's `sorted` on a list of ints)
  // ---------------------------------------------------------------------------

  /** Insert x before the first element not smaller than it. */
  function Insert(x: int, s: seq<int>): seq<int> {
    if s == [] || x <= s[0] then [x] + s else [s[0]] + Insert(x, s[1..])
  }

  /** Putting an element no larger than the head in front keeps a list
      ascending. */
  lemma AscendingCons(a: int, r: seq<int>)
    requires Ascending(r) && (r == [] || a <= r[0])
    ensures Ascending([a] + r)
  {
    var s := [a] + r;
    forall i, j | 0 <= i < j < |s| ensures s[i] <= s[j] {
      if i == 0 {
        assert s[j] == r[j - 1];
      } else {
        assert s[i] == r[i - 1] && s[j] == r[j - 1];
      }
    }
  }

  /** Insert adds exactly x. */
  lemma {:induction false} InsertMultiset(x: int, s: seq<int>)
    ensures multiset(Insert(x, s)) == multiset(s) + multiset{x}
  {
    if s != [] && x > s[0] {
      InsertMultiset(x, s[1..]);
      assert s == [s[0]] + s[1..];
    }
  }

  /** Inserting into an ascending list keeps it ascending and adds x. */
  lemma {:induction false} InsertFacts(x: int, s: seq<int>)
    requires Ascending(s)
    ensures Ascending(Insert(x, s))
    ensures multiset(Insert(x, s)) == multiset(s) + multiset{x}
  {
    InsertMultiset(x, s);
    InsertAscending(x, s);
  }

  lemma {:induction false} InsertAscending(x: int, s: seq<int>)
    requires Ascending(s)
    ensures Ascending(Insert(x, s))
    ensures Insert(x, s)[0] == if s == [] || x <= s[0] then x else s[0]
  {
    if s == [] || x <= s[0] {
      AscendingCons(x, s);
    } else {
      var rest := Insert(x, s[1..]);
      assert Ascending(s[1..]);
      InsertAscending(x, s[1..]);
      assert s[0] <= rest[0] by {
        if |s| > 1 {
          assert s[1..][0] == s[1];
        }
      }
      AscendingCons(s[0], rest);
    }
  }

  /** The ascending rearrangement of `s` (insertion sort). */
  function Sort(s: seq<int>): seq<int> {
    if s == [] then [] else Insert(s[0], Sort(s[1..]))
  }

  /** Sort returns an ascending permutation of its input. */
  lemma {:induction false} SortFacts(s: seq<int>)
    ensures Ascending(Sort(s))
    ensures multiset(Sort(s)) == multiset(s)
  {
    if s != [] {
      SortFacts(s[1..]);
      InsertFacts(s[0], Sort(s[1..]));
      assert s == [s[0]] + s[1..];
    }
  }

  /** Sorting an already ascending list gives it back unchanged. */
  lemma {:induction false} SortOfAscending(s: seq<int>)
    requires Ascending(s)
    ensures Sort(s) == s
  {
    if s != [] {
      assert Ascending(s[1..]);
      SortOfAscending(s[1..]);
      assert s == [s[0]] + s[1..];
    }
  }

  // ---------------------------------------------------------------------------
  // Runs: the value `get_segments` computes, written as its loop unrolled
  // ---------------------------------------------------------------------------

  /** The runs still to be produced when `cur` is the run being built and
      `s` is what is left of the (already sorted) input. */
  function RunsFrom(s: seq<int>, cur: seq<int>): seq<seq<int>>
    decreases |s|
  {
    if s == [] then (if cur == [] then [] else [cur])
    else if cur == [] || s[0] == Last(cur) + 1 then RunsFrom(s[1..], cur + [s[0]])
    else [cur] + RunsFrom(s[1..], [s[0]])
  }

  function Runs(s: seq<int>): seq<seq<int>> {
    RunsFrom(s, [])
  }

  lemma ConsecutiveValues(s: seq<int>)
    requires Consecutive(s)
    ensures forall i :: 0 <= i < |s| ==> s[i] == s[0] + i
  {
    if |s| > 1 {
      var init := s[..|s| - 1];
      assert Consecutive(init) by {
        forall k | 0 <= k < |init| - 1
          ensures init[k + 1] == init[k] + 1
        {
          assert init[k] == s[k] && init[k + 1] == s[k + 1];
        }
      }
      ConsecutiveValues(init);
      assert s[|s| - 1] == s[|s| - 2] + 1;
      assert forall i :: 0 <= i < |s| - 1 ==> s[i] == init[i];
    }
  }

  /** A consecutive run is strictly ascending (so it has no repeated hour). */
  lemma ConsecutiveIsStrictlyAscending(s: seq<int>)
    requires Consecutive(s)
    ensures StrictlyAscending(s)
  {
    ConsecutiveValues(s);
  }

  lemma {:induction false} RunsFromSplit(s: seq<int>, cur: seq<int>)
    requires Consecutive(cur)
    ensures IsRunSplit(RunsFrom(s, cur), cur + s)
    ensures cur + s != [] ==> RunsFrom(s, cur) != [] && RunsFrom(s, cur)[0][0] == (cur + s)[0]
    decreases |s|
  {
    if s == [] {
      assert cur + s == cur;
      if cur != [] {
        assert [cur][1..] == [];
      }
    } else if cur == [] || s[0] == Last(cur) + 1 {
      var next := cur + [s[0]];
      assert Consecutive(next);
      RunsFromSplit(s[1..], next);
      assert next + s[1..] == cur + s;
    } else {
      RunsFromSplit(s[1..], [s[0]]);
      var rest := RunsFrom(s[1..], [s[0]]);
      assert [s[0]] + s[1..] == s;
      var r := [cur] + rest;
      assert r[1..] == rest;
      assert Flatten(r) == cur + s;
      forall k | 0 <= k < |r| - 1
        ensures r[k + 1][0] != Last(r[k]) + 1
      {
        if k > 0 {
          assert r[k] == rest[k - 1] && r[k + 1] == rest[k];
        }
      }
    }
  }

  lemma {:induction false} RunsFromGaps(s: seq<int>, cur: seq<int>)
    requires StrictlyAscending(cur + s)
    ensures Separated(RunsFrom(s, cur))
    decreases |s|
  {
    if s == [] {
    } else if cur == [] || s[0] == Last(cur) + 1 {
      assert (cur + [s[0]]) + s[1..] == cur + s;
      RunsFromGaps(s[1..], cur + [s[0]]);
    } else {
      assert StrictlyAscending([s[0]] + s[1..]) by {
        assert [s[0]] + s[1..] == (cur + s)[|cur|..];
      }
      assert Last(cur) < s[0] by {
        assert Last(cur) == (cur + s)[|cur| - 1] && s[0] == (cur + s)[|cur|];
      }
      RunsFromGaps(s[1..], [s[0]]);
      RunsFromSplit(s[1..], [s[0]]);
      var rest := RunsFrom(s[1..], [s[0]]);
      var r := [cur] + rest;
      forall k | 0 <= k < |r| - 1
        ensures Gap(r[k], r[k + 1])
      {
        if k > 0 {
          assert r[k] == rest[k - 1] && r[k + 1] == rest[k];
        }
      }
    }
  }

  /** Runs(s) splits s into maximal consecutive runs. */
  lemma RunsIsRunSplit(s: seq<int>)
    ensures IsRunSplit(Runs(s), s)
  {
    RunsFromSplit(s, []);
    assert [] + s == s;
  }

  /** On a list without repeats, consecutive runs are separated by a gap of
      at least one missing hour. */
  lemma RunsAreSeparated(s: seq<int>)
    requires StrictlyAscending(s)
    ensures Separated(Runs(s))
  {
    assert [] + s == s;
    RunsFromGaps(s, []);
  }

  lemma {:induction false} FlattenEmpty(ss: seq<seq<int>>)
    requires forall k :: 0 <= k < |ss| ==> ss[k] != []
    ensures Flatten(ss) == [] <==> ss == []
  {
    if ss != [] {
      assert |Flatten(ss)| >= |ss[0]|;
    }
  }

  lemma SplitTail(ss: seq<seq<int>>, s: seq<int>)
    requires IsRunSplit(ss, s) && ss != []
    ensures s[..|ss[0]|] == ss[0]
    ensures IsRunSplit(ss[1..], s[|ss[0]|..])
    ensures |ss| > 1 ==> |s| > |ss[0]| && s[|ss[0]|] == ss[1][0]
  {
    var tail := ss[1..];
    assert s == ss[0] + Flatten(tail);
    forall k | 0 <= k < |tail| - 1
      ensures tail[k + 1][0] != Last(tail[k]) + 1
    {
      assert tail[k] == ss[k + 1] && tail[k + 1] == ss[k + 2];
    }
    if |ss| > 1 {
      assert Flatten(tail) == ss[1] + Flatten(tail[1..]);
    }
  }

  lemma FirstRunNotShorter(ss: seq<seq<int>>, tt: seq<seq<int>>, s: seq<int>)
    requires IsRunSplit(ss, s) && IsRunSplit(tt, s) && ss != [] && tt != []
    ensures |ss[0]| >= |tt[0]|
  {
    SplitTail(ss, s);
    SplitTail(tt, s);
    if |ss[0]| < |tt[0]| {
      assert false;
    }
  }

  /** There is only one way to split a list into maximal consecutive runs. */
  lemma {:induction false} RunSplitUnique(ss: seq<seq<int>>, tt: seq<seq<int>>, s: seq<int>)
    requires IsRunSplit(ss, s) && IsRunSplit(tt, s)
    ensures ss == tt
    decreases |s|
  {
    FlattenEmpty(ss);
    FlattenEmpty(tt);
    if s != [] {
      FirstRunNotShorter(ss, tt, s);
      FirstRunNotShorter(tt, ss, s);
      SplitTail(ss, s);
      SplitTail(tt, s);
      RunSplitUnique(ss[1..], tt[1..], s[|ss[0]|..]);
      assert ss == [ss[0]] + ss[1..];
      assert tt == [tt[0]] + tt[1..];
    }
  }

  /** Runs(s) is exactly the split of s into maximal consecutive runs. */
  lemma RunsCharacterization(s: seq<int>, ss: seq<seq<int>>)
    ensures IsRunSplit(ss, s) <==> ss == Runs(s)
  {
    RunsIsRunSplit(s);
    if IsRunSplit(ss, s) {
      RunSplitUnique(ss, Runs(s), s);
    }
  }

  /** A run is no longer than the list the runs concatenate to. */
  lemma {:induction false} RunShorterThanFlatten(ss: seq<seq<int>>, k: int)
    requires 0 <= k < |ss|
    ensures |ss[k]| <= |Flatten(ss)|
  {
    if k > 0 {
      RunShorterThanFlatten(ss[1..], k - 1);
    }
  }

  /** No run is longer than the list it splits. */
  lemma RunLengthBound(s: seq<int>)
    ensures forall k :: 0 <= k < |Runs(s)| ==> |Runs(s)[k]| <= |s|
  {
    RunsIsRunSplit(s);
    forall k | 0 <= k < |Runs(s)| ensures |Runs(s)[k]| <= |s| {
      RunShorterThanFlatten(Runs(s), k);
    }
  }

  /** get_segments: sort the hours, then walk them, extending the current run
      while the next hour follows on and starting a new run otherwise. */
  method GetSegments(hours: seq<int>) returns (segments: seq<seq<int>>)
    ensures segments == Runs(Sort(hours))
    ensures IsRunSplit(segments, Sort(hours))
    ensures hours == [] ==> segments == []
  {
    var sorted := Sort(hours);
    segments := [];
    var current: seq<int> := [];
    var i := 0;
    while i < |sorted|
      invariant 0 <= i <= |sorted|
      invariant segments + RunsFrom(sorted[i..], current) == Runs(sorted)
    {
      var hr := sorted[i];
      assert sorted[i..][1..] == sorted[i + 1..];
      if current == [] || hr == Last(current) + 1 {
        current := current + [hr];
      } else {
        segments := segments + [current];
        current := [hr];
      }
      i := i + 1;
    }
    if current != [] {
      segments := segments + [current];
    }
    RunsIsRunSplit(sorted);
  }
}
