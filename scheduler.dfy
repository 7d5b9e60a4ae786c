/** One step of the greedy scheduler: pick the block for a single task out of
    the hours still free, and remove it from the pool.

    Energy is an integer profile in tenths (one entry per hour).  All windows
    considered for one task have the same length, so comparing their mean
    energies is the same as comparing their sums; the model compares sums. */
module Scheduler {
  import opened Wrappers
  import opened Segments

  datatype Task = Task(category: string, subcategory: string, specific: string, duration: int)

  /** Only tasks whose specific label is exactly "Sleep" look for low energy. */
  predicate IsSleep(t: Task) {
    t.specific == "Sleep"
  }

  /** A free-hours pool: hours of the day without repeats, in ascending order. */
  predicate IsPool(free: seq<int>) {
    StrictlyAscending(free) && forall h :: h in free ==> 0 <= h < 24
  }

  /** list(range(24)) */
  function AllHours(): seq<int> {
    seq(24, h => h)
  }

  /** The full day is a pool of the 24 hours in order, one consecutive run. */
  lemma AllHoursFacts()
    ensures IsPool(AllHours()) && Consecutive(AllHours()) && |AllHours()| == 24
    ensures forall i :: 0 <= i < 24 ==> AllHours()[i] == i
  {
  }

  /** Energy of hour h; the profile has one entry per hour 0..23, so the
      default is never used for an hour of a pool. */
  function Energy(p: seq<int>, h: int): int {
    if 0 <= h < |p| then p[h] else 0
  }

  /** Total energy of a window (its mean times its length). */
  function WindowSum(p: seq<int>, block: seq<int>): int {
    if block == [] then 0 else Energy(p, block[0]) + WindowSum(p, block[1..])
  }

  /** The strict comparison the scan uses: `<` for Sleep, `>` otherwise. */
  predicate Better(a: int, b: int, sleep: bool) {
    if sleep then a < b else a > b
  }

  // ---------------------------------------------------------------------------
  // Candidate windows, in scan order
  // ---------------------------------------------------------------------------

  /** The windows `seg[i..i+d]` for every start i, or none if seg is too short. */
  function SegmentWindows(seg: seq<int>, d: int): seq<seq<int>>
    requires d >= 1
  {
    if |seg| < d then []
    else seq(|seg| - d + 1, i requires 0 <= i <= |seg| - d => seg[i..i + d])
  }

  /** All windows of length d, segment by segment, start by start. */
  function Candidates(segs: seq<seq<int>>, d: int): seq<seq<int>>
    requires d >= 1
  {
    if segs == [] then []
    else Candidates(segs[..|segs| - 1], d) + SegmentWindows(segs[|segs| - 1], d)
  }

  /** w occurs in seg starting at index i. */
  predicate IsSliceAt(seg: seq<int>, i: int, w: seq<int>) {
    0 <= i && i + |w| <= |seg| && seg[i..i + |w|] == w
  }

  /** w is d consecutive entries of one segment. */
  ghost predicate IsWindowOf(w: seq<int>, segs: seq<seq<int>>, d: int) {
    |w| == d && exists k, i :: 0 <= k < |segs| && IsSliceAt(segs[k], i, w)
  }

  /** No segment is long enough for d hours. */
  predicate NoRoom(segs: seq<seq<int>>, d: int) {
    forall k :: 0 <= k < |segs| ==> |segs[k]| < d
  }

  // ---------------------------------------------------------------------------
  // The scan for the best window (best_block / best_avg)
  // ---------------------------------------------------------------------------

  /** One scan step: `best` is None before the first window, standing for the
      infinite starting value of best_avg, which every window beats. */
  function Pick(p: seq<int>, sleep: bool, best: Option<seq<int>>, w: seq<int>): Option<seq<int>> {
    if best.None? || Better(WindowSum(p, w), WindowSum(p, best.value), sleep) then Some(w) else best
  }

  /** The block the scan keeps after visiting every candidate in order. */
  function Scan(c: seq<seq<int>>, p: seq<int>, sleep: bool): Option<seq<int>> {
    if c == [] then None
    else Pick(p, sleep, Scan(c[..|c| - 1], p, sleep), c[|c| - 1])
  }

  /** Candidate k is optimal and every earlier candidate is strictly worse:
      it is the first optimal candidate in scan order. */
  predicate FirstBest(c: seq<seq<int>>, p: seq<int>, sleep: bool, k: int) {
    && 0 <= k < |c|
    && (forall j :: 0 <= j < |c| ==> !Better(WindowSum(p, c[j]), WindowSum(p, c[k]), sleep))
    && (forall j :: 0 <= j < k ==> Better(WindowSum(p, c[k]), WindowSum(p, c[j]), sleep))
  }

  /** The block the scheduler picks for task t from the pool (None: no slot). */
  function Choose(t: Task, free: seq<int>, p: seq<int>): Option<seq<int>>
    requires t.duration >= 1
  {
    Scan(Candidates(Runs(Sort(free)), t.duration), p, IsSleep(t))
  }

  // ---------------------------------------------------------------------------
  // Removing the chosen hours (free_hours.remove)
  // ---------------------------------------------------------------------------

  /** list.remove: drop the first occurrence of x. */
  function RemoveFirst(s: seq<int>, x: int): seq<int> {
    if s == [] then []
    else if s[0] == x then s[1..]
    else [s[0]] + RemoveFirst(s[1..], x)
  }

  /** `for hr in block: free.remove(hr)` */
  function RemoveAll(s: seq<int>, block: seq<int>): seq<int> {
    if block == [] then s
    else RemoveFirst(RemoveAll(s, block[..|block| - 1]), block[|block| - 1])
  }

  lemma RemoveAllSnoc(s: seq<int>, block: seq<int>, j: int)
    requires 0 <= j < |block|
    ensures RemoveAll(s, block[..j + 1]) == RemoveFirst(RemoveAll(s, block[..j]), block[j])
  {
    assert block[..j + 1][..j] == block[..j];
  }

  /** The pool after a task: the chosen hours removed, or unchanged. */
  function After(free: seq<int>, choice: Option<seq<int>>): seq<int> {
    if choice.Some? then RemoveAll(free, choice.value) else free
  }

  // ---------------------------------------------------------------------------
  // Lemmas: candidates
  // ---------------------------------------------------------------------------

  lemma SegmentWindowsShape(seg: seq<int>, d: int)
    requires d >= 1
    ensures SegmentWindows(seg, d) == [] <==> |seg| < d
    ensures |seg| >= d ==> |SegmentWindows(seg, d)| == |seg| - d + 1
    ensures forall i :: 0 <= i < |SegmentWindows(seg, d)| ==> SegmentWindows(seg, d)[i] == seg[i..i + d]
  {
  }

  /** There is no candidate exactly when no segment is long enough. */
  lemma {:induction false} CandidatesEmpty(segs: seq<seq<int>>, d: int)
    requires d >= 1
    ensures Candidates(segs, d) == [] <==> NoRoom(segs, d)
  {
    if segs != [] {
      var n := |segs| - 1;
      var init := segs[..n];
      CandidatesEmpty(init, d);
      assert Candidates(segs, d) == Candidates(init, d) + SegmentWindows(segs[n], d);
      assert SegmentWindows(segs[n], d) == [] <==> |segs[n]| < d;
      assert forall k :: 0 <= k < n ==> init[k] == segs[k];
    }
  }

  /** Every candidate is d consecutive entries of one segment. */
  lemma {:induction false} CandidatesAreWindows(segs: seq<seq<int>>, d: int)
    requires d >= 1
    ensures forall j :: 0 <= j < |Candidates(segs, d)| ==> IsWindowOf(Candidates(segs, d)[j], segs, d)
  {
    if segs != [] {
      var init := segs[..|segs| - 1];
      var last := segs[|segs| - 1];
      CandidatesAreWindows(init, d);
      SegmentWindowsShape(last, d);
      var ci := Candidates(init, d);
      var c := Candidates(segs, d);
      assert c == ci + SegmentWindows(last, d);
      forall j | 0 <= j < |c|
        ensures IsWindowOf(c[j], segs, d)
      {
        if j < |ci| {
          assert c[j] == ci[j];
          assert IsWindowOf(ci[j], init, d);
          var k, i :| 0 <= k < |init| && IsSliceAt(init[k], i, ci[j]);
          assert segs[k] == init[k];
        } else {
          var i := j - |ci|;
          assert c[j] == last[i..i + d];
          assert IsSliceAt(segs[|segs| - 1], i, c[j]);
        }
      }
    }
  }

  /** Every d-window of a segment long enough for it is a candidate. */
  lemma {:induction false} WindowsAreCandidates(segs: seq<seq<int>>, d: int, k: int, i: int)
    requires d >= 1 && 0 <= k < |segs| && 0 <= i && i + d <= |segs[k]|
    ensures segs[k][i..i + d] in Candidates(segs, d)
  {
    var n := |segs| - 1;
    var init := segs[..n];
    assert Candidates(segs, d) == Candidates(init, d) + SegmentWindows(segs[n], d);
    if k < n {
      WindowsAreCandidates(init, d, k, i);
      assert init[k] == segs[k];
    } else {
      SegmentWindowsShape(segs[n], d);
      assert SegmentWindows(segs[n], d)[i] == segs[k][i..i + d];
    }
  }

  /** The candidates are exactly the d-windows of the segments. */
  lemma CandidatesAreAllWindows(segs: seq<seq<int>>, d: int)
    requires d >= 1
    ensures forall w :: w in Candidates(segs, d) <==> IsWindowOf(w, segs, d)
  {
    var c := Candidates(segs, d);
    CandidatesAreWindows(segs, d);
    forall w | IsWindowOf(w, segs, d)
      ensures w in c
    {
      var k, i :| 0 <= k < |segs| && IsSliceAt(segs[k], i, w);
      WindowsAreCandidates(segs, d, k, i);
    }
    forall w | w in c
      ensures IsWindowOf(w, segs, d)
    {
      var j :| 0 <= j < |c| && c[j] == w;
    }
  }

  lemma {:induction false} FlattenSnoc(ss: seq<seq<int>>)
    requires ss != []
    ensures Flatten(ss) == Flatten(ss[..|ss| - 1]) + ss[|ss| - 1]
  {
    if |ss| > 1 {
      var tail := ss[1..];
      FlattenSnoc(tail);
      assert ss[..|ss| - 1][1..] == tail[..|tail| - 1];
    }
  }

  /** The first hour of a candidate ahead of `last`'s windows lies before all of `last`. */
  lemma StartBeforeLast(init: seq<seq<int>>, last: seq<int>, d: int, w: seq<int>, i: int)
    requires d >= 1 && StrictlyAscending(Flatten(init) + last)
    requires IsWindowOf(w, init, d) && 0 <= i < |last|
    ensures w[0] < last[i]
  {
    var k, i0 :| 0 <= k < |init| && IsSliceAt(init[k], i0, w);
    assert w[0] == init[k][i0];
    MemberOfFlatten(init, k, w[0]);
    var f := Flatten(init);
    var a :| 0 <= a < |f| && f[a] == w[0];
    assert (f + last)[a] == w[0] && (f + last)[|f| + i] == last[i];
  }

  lemma AscendingParts(f: seq<int>, last: seq<int>)
    requires StrictlyAscending(f + last)
    ensures StrictlyAscending(f) && StrictlyAscending(last)
  {
    forall a, b | 0 <= a < b < |f| ensures f[a] < f[b] {
      assert f[a] == (f + last)[a] && f[b] == (f + last)[b];
    }
    forall a, b | 0 <= a < b < |last| ensures last[a] < last[b] {
      assert last[a] == (f + last)[|f| + a] && last[b] == (f + last)[|f| + b];
    }
  }

  /** On an ascending list of segments, candidates are scanned in order of
      their first hour. */
  lemma {:induction false} CandidateStartsAscend(segs: seq<seq<int>>, d: int)
    requires d >= 1 && StrictlyAscending(Flatten(segs))
    ensures forall j :: 0 <= j < |Candidates(segs, d)| ==> |Candidates(segs, d)[j]| == d
    ensures forall j, k :: 0 <= j < k < |Candidates(segs, d)| ==>
              Candidates(segs, d)[j][0] < Candidates(segs, d)[k][0]
  {
    CandidatesAreWindows(segs, d);
    if segs != [] {
      var n := |segs| - 1;
      var init := segs[..n];
      var last := segs[n];
      FlattenSnoc(segs);
      AscendingParts(Flatten(init), last);
      CandidateStartsAscend(init, d);
      var ci := Candidates(init, d);
      var c := Candidates(segs, d);
      assert c == ci + SegmentWindows(last, d);
      forall j, k | 0 <= j < k < |c|
        ensures c[j][0] < c[k][0]
      {
        if k < |ci| {
          assert c[j] == ci[j] && c[k] == ci[k];
        } else {
          SegmentWindowsShape(last, d);
          assert c[k][0] == last[k - |ci|];
          if j >= |ci| {
            assert c[j][0] == last[j - |ci|];
          } else {
            assert c[j] == ci[j] && IsWindowOf(ci[j], init, d) by {
              CandidatesAreWindows(init, d);
            }
            StartBeforeLast(init, last, d, ci[j], k - |ci|);
          }
        }
      }
    }
  }

  // ---------------------------------------------------------------------------
  // Lemmas: the scan keeps the first optimal candidate
  // ---------------------------------------------------------------------------

  /** A new candidate strictly better than the first optimal one of the
      earlier candidates is the first optimal one of them all. */
  lemma FirstBestTakeNew(c: seq<seq<int>>, p: seq<int>, sleep: bool, k0: int)
    requires c != [] && FirstBest(c[..|c| - 1], p, sleep, k0)
    requires Better(WindowSum(p, c[|c| - 1]), WindowSum(p, c[k0]), sleep)
    ensures FirstBest(c, p, sleep, |c| - 1)
  {
    var n := |c| - 1;
    forall j | 0 <= j < n
      ensures Better(WindowSum(p, c[n]), WindowSum(p, c[j]), sleep)
    {
      assert c[..n][j] == c[j] && c[..n][k0] == c[k0];
    }
  }

  /** A new candidate no better than the first optimal one of the earlier
      candidates leaves it the first optimal one. */
  lemma FirstBestKeepOld(c: seq<seq<int>>, p: seq<int>, sleep: bool, k0: int)
    requires c != [] && FirstBest(c[..|c| - 1], p, sleep, k0)
    requires !Better(WindowSum(p, c[|c| - 1]), WindowSum(p, c[k0]), sleep)
    ensures FirstBest(c, p, sleep, k0)
  {
    var n := |c| - 1;
    assert c[..n][k0] == c[k0];
    forall j | 0 <= j < n
      ensures !Better(WindowSum(p, c[j]), WindowSum(p, c[k0]), sleep)
    {
      assert c[..n][j] == c[j];
    }
    forall j | 0 <= j < k0
      ensures Better(WindowSum(p, c[k0]), WindowSum(p, c[j]), sleep)
    {
      assert c[..n][j] == c[j];
    }
  }

  lemma {:induction false} ScanFirstBest(c: seq<seq<int>>, p: seq<int>, sleep: bool)
    ensures Scan(c, p, sleep).None? <==> c == []
    ensures Scan(c, p, sleep).Some? ==>
              exists k :: FirstBest(c, p, sleep, k) && Scan(c, p, sleep).value == c[k]
  {
    if c != [] {
      var n := |c| - 1;
      var init := c[..n];
      var w := c[n];
      ScanFirstBest(init, p, sleep);
      if init == [] {
        assert FirstBest(c, p, sleep, 0);
      } else {
        var k0 :| FirstBest(init, p, sleep, k0) && Scan(init, p, sleep).value == init[k0];
        assert init[k0] == c[k0];
        if Better(WindowSum(p, w), WindowSum(p, c[k0]), sleep) {
          FirstBestTakeNew(c, p, sleep, k0);
        } else {
          FirstBestKeepOld(c, p, sleep, k0);
        }
      }
    }
  }

  /** Only one candidate can be the first optimal one. */
  lemma FirstBestUnique(c: seq<seq<int>>, p: seq<int>, sleep: bool, k1: int, k2: int)
    requires FirstBest(c, p, sleep, k1) && FirstBest(c, p, sleep, k2)
    ensures k1 == k2
  {
    var s1, s2 := WindowSum(p, c[k1]), WindowSum(p, c[k2]);
  }

  /** The scan returns w exactly when w is the first optimal candidate. */
  lemma ScanCharacterization(c: seq<seq<int>>, p: seq<int>, sleep: bool, w: seq<int>)
    ensures Scan(c, p, sleep) == Some(w) <==> exists k :: FirstBest(c, p, sleep, k) && w == c[k]
  {
    ScanFirstBest(c, p, sleep);
    if exists k :: FirstBest(c, p, sleep, k) && w == c[k] {
      var k :| FirstBest(c, p, sleep, k) && w == c[k];
      var k0 :| FirstBest(c, p, sleep, k0) && Scan(c, p, sleep).value == c[k0];
      FirstBestUnique(c, p, sleep, k, k0);
    }
  }

  // ---------------------------------------------------------------------------
  // Lemmas: removing hours from the pool
  // ---------------------------------------------------------------------------

  lemma {:induction false} RemoveFirstFacts(s: seq<int>, x: int)
    requires StrictlyAscending(s)
    ensures StrictlyAscending(RemoveFirst(s, x))
    ensures forall y :: y in RemoveFirst(s, x) <==> y in s && y != x
    ensures |RemoveFirst(s, x)| == if x in s then |s| - 1 else |s|
  {
    if s != [] {
      assert StrictlyAscending(s[1..]);
      RemoveFirstFacts(s[1..], x);
      assert s == [s[0]] + s[1..];
      if s[0] == x {
        assert x !in s[1..];
      } else {
        var r := RemoveFirst(s[1..], x);
        assert forall y :: y in r ==> s[0] < y;
        assert forall j :: 0 <= j < |r| ==> s[0] < r[j] by {
          forall j | 0 <= j < |r| ensures s[0] < r[j] {
            assert r[j] in r;
          }
        }
      }
    }
  }

  /** Removing a block of distinct hours, all in the pool, leaves a pool with
      exactly the other hours, still ascending, |block| hours shorter. */
  lemma {:induction false} RemoveAllFacts(s: seq<int>, block: seq<int>)
    requires StrictlyAscending(s)
    ensures StrictlyAscending(RemoveAll(s, block))
    ensures forall y :: y in RemoveAll(s, block) <==> y in s && y !in block
    ensures StrictlyAscending(block) && (forall h :: h in block ==> h in s) ==>
              |RemoveAll(s, block)| == |s| - |block|
  {
    if block != [] {
      var n := |block| - 1;
      var init := block[..n];
      RemoveAllFacts(s, init);
      RemoveFirstFacts(RemoveAll(s, init), block[n]);
      assert block == init + [block[n]];
      if StrictlyAscending(block) && (forall h :: h in block ==> h in s) {
        assert block[n] !in init by {
          forall j | 0 <= j < n ensures init[j] != block[n] {
            assert init[j] == block[j];
          }
        }
        assert StrictlyAscending(init);
      }
    }
  }

  // ---------------------------------------------------------------------------
  // Lemmas: one scheduling step
  // ---------------------------------------------------------------------------

  lemma PoolSegments(free: seq<int>)
    requires IsPool(free)
    ensures Sort(free) == free
    ensures IsRunSplit(Runs(free), free)
  {
    SortOfAscending(free);
    RunsIsRunSplit(free);
  }

  lemma MemberOfFlatten(ss: seq<seq<int>>, k: int, h: int)
    requires 0 <= k < |ss| && h in ss[k]
    ensures h in Flatten(ss)
  {
    if k > 0 {
      MemberOfFlatten(ss[1..], k - 1, h);
    }
  }

  /** A task gets no block exactly when no free segment has room for it. */
  lemma ChooseNoneIff(t: Task, free: seq<int>, p: seq<int>)
    requires IsPool(free) && t.duration >= 1
    ensures Choose(t, free, p).None? <==> NoRoom(Runs(free), t.duration)
  {
    PoolSegments(free);
    CandidatesEmpty(Runs(free), t.duration);
    ScanFirstBest(Candidates(Runs(free), t.duration), p, IsSleep(t));
  }

  /** A window of a run split of the pool is consecutive and lies in the pool. */
  lemma WindowInPool(w: seq<int>, segs: seq<seq<int>>, d: int, free: seq<int>)
    requires IsRunSplit(segs, free) && IsWindowOf(w, segs, d)
    ensures Consecutive(w)
    ensures forall h :: h in w ==> h in free
  {
    var k, i :| 0 <= k < |segs| && IsSliceAt(segs[k], i, w);
    var seg := segs[k];
    assert Consecutive(seg);
    forall m | 0 <= m < |w| - 1 ensures w[m + 1] == w[m] + 1 {
      assert w[m] == seg[i + m] && w[m + 1] == seg[i + m + 1];
    }
    forall h | h in w ensures h in free {
      assert h in seg;
      MemberOfFlatten(segs, k, h);
    }
  }

  /** A chosen block is `duration` consecutive hours of one free segment, so
      every one of its hours is free. */
  lemma ChooseBlockShape(t: Task, free: seq<int>, p: seq<int>)
    requires IsPool(free) && t.duration >= 1 && Choose(t, free, p).Some?
    ensures var b := Choose(t, free, p).value;
            && |b| == t.duration
            && Consecutive(b)
            && IsWindowOf(b, Runs(free), t.duration)
            && (forall h :: h in b ==> h in free)
  {
    PoolSegments(free);
    var segs := Runs(free);
    var c := Candidates(segs, t.duration);
    CandidatesAreWindows(segs, t.duration);
    ScanFirstBest(c, p, IsSleep(t));
    var b := Choose(t, free, p).value;
    var j :| FirstBest(c, p, IsSleep(t), j) && b == c[j];
    WindowInPool(b, segs, t.duration, free);
  }

  /** Sleep gets a window whose energy is at most every candidate's; any other
      task gets one whose energy is at least every candidate's. */
  lemma ChooseOptimal(t: Task, free: seq<int>, p: seq<int>)
    requires IsPool(free) && t.duration >= 1 && Choose(t, free, p).Some?
    ensures var b := Choose(t, free, p).value;
            var c := Candidates(Runs(free), t.duration);
            forall j :: 0 <= j < |c| ==>
              if IsSleep(t) then WindowSum(p, b) <= WindowSum(p, c[j])
              else WindowSum(p, b) >= WindowSum(p, c[j])
  {
    PoolSegments(free);
    var c := Candidates(Runs(free), t.duration);
    ScanFirstBest(c, p, IsSleep(t));
  }

  /** Ties go to the first window scanned: the chosen block is candidate k
      and every candidate before it is strictly worse. */
  lemma ChooseEarliest(t: Task, free: seq<int>, p: seq<int>) returns (k: int)
    requires IsPool(free) && t.duration >= 1 && Choose(t, free, p).Some?
    ensures var c := Candidates(Runs(free), t.duration);
            0 <= k < |c| && Choose(t, free, p).value == c[k]
    ensures var b := Choose(t, free, p).value;
            var c := Candidates(Runs(free), t.duration);
            forall j :: 0 <= j < k ==>
              if IsSleep(t) then WindowSum(p, c[j]) > WindowSum(p, b)
              else WindowSum(p, c[j]) < WindowSum(p, b)
  {
    PoolSegments(free);
    var c := Candidates(Runs(free), t.duration);
    ScanFirstBest(c, p, IsSleep(t));
    k :| FirstBest(c, p, IsSleep(t), k) && Choose(t, free, p).value == c[k];
  }

  /** The optimality of the chosen block, stated over every `duration`-hour
      window of a free run rather than over the candidate list. */
  lemma ChooseOptimalWindow(t: Task, free: seq<int>, p: seq<int>)
    requires IsPool(free) && t.duration >= 1 && Choose(t, free, p).Some?
    ensures var b := Choose(t, free, p).value;
            forall w :: IsWindowOf(w, Runs(free), t.duration) ==>
              if IsSleep(t) then WindowSum(p, b) <= WindowSum(p, w)
              else WindowSum(p, b) >= WindowSum(p, w)
  {
    PoolSegments(free);
    var c := Candidates(Runs(free), t.duration);
    ScanFirstBest(c, p, IsSleep(t));
    CandidatesAreAllWindows(Runs(free), t.duration);
    var k :| FirstBest(c, p, IsSleep(t), k) && Choose(t, free, p).value == c[k];
    forall w | IsWindowOf(w, Runs(free), t.duration)
      ensures !Better(WindowSum(p, w), WindowSum(p, c[k]), IsSleep(t))
    {
      var j :| 0 <= j < |c| && c[j] == w;
    }
  }

  /** Ties go to the lowest starting hour: every `duration`-hour window of a
      free run that starts before the chosen block is strictly worse. */
  lemma ChooseEarliestStart(t: Task, free: seq<int>, p: seq<int>)
    requires IsPool(free) && t.duration >= 1 && Choose(t, free, p).Some?
    ensures |Choose(t, free, p).value| == t.duration
    ensures var b := Choose(t, free, p).value;
            forall w :: IsWindowOf(w, Runs(free), t.duration) && w[0] < b[0] ==>
              if IsSleep(t) then WindowSum(p, w) > WindowSum(p, b)
              else WindowSum(p, w) < WindowSum(p, b)
  {
    PoolSegments(free);
    var c := Candidates(Runs(free), t.duration);
    var k := ChooseEarliest(t, free, p);
    CandidateStartsAscend(Runs(free), t.duration);
    CandidatesAreAllWindows(Runs(free), t.duration);
    var b := Choose(t, free, p).value;
    forall w | IsWindowOf(w, Runs(free), t.duration) && w[0] < b[0]
      ensures if IsSleep(t) then WindowSum(p, w) > WindowSum(p, b)
              else WindowSum(p, w) < WindowSum(p, b)
    {
      var j :| 0 <= j < |c| && c[j] == w;
      assert j < k;
    }
  }

  /** After a task the pool is still a pool; with a block it has lost exactly
      the block's hours, without one it is unchanged. */
  lemma AfterChoose(t: Task, free: seq<int>, p: seq<int>)
    requires IsPool(free) && t.duration >= 1
    ensures var choice := Choose(t, free, p);
            var next := After(free, choice);
            && IsPool(next)
            && (choice.None? ==> next == free)
            && (choice.Some? ==>
                  && |next| == |free| - t.duration
                  && forall h :: h in next <==> h in free && h !in choice.value)
  {
    var choice := Choose(t, free, p);
    if choice.Some? {
      ChooseBlockShape(t, free, p);
      ConsecutiveIsStrictlyAscending(choice.value);
      RemoveAllFacts(free, choice.value);
    }
  }

  /** After a task the pool is contained in the old one and no longer. */
  lemma AfterShrinks(t: Task, free: seq<int>, p: seq<int>)
    requires IsPool(free) && t.duration >= 1
    ensures var next := After(free, Choose(t, free, p));
            && (forall h :: h in next ==> h in free)
            && |next| <= |free|
  {
    AfterChoose(t, free, p);
  }

  /** The scan continued over `c` from a running best `best`. */
  function ScanFrom(best: Option<seq<int>>, c: seq<seq<int>>, p: seq<int>, sleep: bool): Option<seq<int>> {
    if c == [] then best
    else Pick(p, sleep, ScanFrom(best, c[..|c| - 1], p, sleep), c[|c| - 1])
  }

  /** Scanning `done` and then `ws` is continuing the scan of `done` over `ws`. */
  lemma {:induction false} ScanAppend(done: seq<seq<int>>, ws: seq<seq<int>>, p: seq<int>, sleep: bool)
    ensures Scan(done + ws, p, sleep) == ScanFrom(Scan(done, p, sleep), ws, p, sleep)
    decreases |ws|
  {
    if ws == [] {
      assert done + ws == done;
    } else {
      var n := |ws| - 1;
      ScanAppend(done, ws[..n], p, sleep);
      assert (done + ws)[..|done + ws| - 1] == done + ws[..n];
    }
  }

  /** One more segment adds its windows to the candidates, or none when it
      is shorter than d. */
  lemma CandidatesStep(segs: seq<seq<int>>, n: int, d: int)
    requires 0 <= n < |segs| && d >= 1
    ensures |segs[n]| >= d ==>
              Candidates(segs[..n + 1], d) == Candidates(segs[..n], d) + SegmentWindows(segs[n], d)
    ensures |segs[n]| < d ==> Candidates(segs[..n + 1], d) == Candidates(segs[..n], d)
  {
    assert segs[..n + 1][..n] == segs[..n];
    if |segs[n]| < d {
      assert Candidates(segs[..n], d) + [] == Candidates(segs[..n], d);
    }
  }

  // ---------------------------------------------------------------------------
  // The window scan (the two `for seg in segments` loops, Sleep and other)
  // ---------------------------------------------------------------------------

  lemma ScanFromStep(best0: Option<seq<int>>, ws: seq<seq<int>>, i: int, p: seq<int>, sleep: bool)
    requires 0 <= i < |ws|
    ensures ScanFrom(best0, ws[..i + 1], p, sleep) == Pick(p, sleep, ScanFrom(best0, ws[..i], p, sleep), ws[i])
  {
    assert ws[..i + 1][..i] == ws[..i];
  }

  /** `sum` is the energy sum of the running best (`best_avg` times the
      window length), when there is one. */
  predicate SumOf(p: seq<int>, best: Option<seq<int>>, sum: int) {
    best.Some? ==> sum == WindowSum(p, best.value)
  }

  /** One window visited: keep it if it is the first one, or if its mean
      beats the best so far (`<` for Sleep, `>` otherwise). */
  method Consider(block: seq<int>, p: seq<int>, sleep: bool, best0: Option<seq<int>>, bestSum0: int)
    returns (best: Option<seq<int>>, bestSum: int)
    requires SumOf(p, best0, bestSum0)
    ensures best == Pick(p, sleep, best0, block)
    ensures SumOf(p, best, bestSum)
  {
    var total := WindowSum(p, block);
    if best0.None? || Better(total, bestSum0, sleep) {
      best, bestSum := Some(block), total;
    } else {
      best, bestSum := best0, bestSum0;
    }
  }

  /** The inner loop over the window starts of one segment, continuing a
      scan that has visited the candidates `done`. */
  method ScanSegment(seg: seq<int>, duration: int, p: seq<int>, sleep: bool,
                     ghost done: seq<seq<int>>, best0: Option<seq<int>>, bestSum0: int)
    returns (best: Option<seq<int>>, bestSum: int)
    requires duration >= 1 && |seg| >= duration
    requires best0 == Scan(done, p, sleep)
    requires SumOf(p, best0, bestSum0)
    ensures best == Scan(done + SegmentWindows(seg, duration), p, sleep)
    ensures SumOf(p, best, bestSum)
  {
    ghost var windows := SegmentWindows(seg, duration);
    assert |windows| == |seg| - duration + 1;
    best, bestSum := best0, bestSum0;
    var i := 0;
    while i < |seg| - duration + 1
      invariant 0 <= i <= |seg| - duration + 1
      invariant best == ScanFrom(best0, windows[..i], p, sleep)
      invariant SumOf(p, best, bestSum)
    {
      ScanFromStep(best0, windows, i, p, sleep);
      assert windows[i] == seg[i..i + duration];
      best, bestSum := Consider(seg[i..i + duration], p, sleep, best, bestSum);
      i := i + 1;
    }
    ScanAppend(done, windows, p, sleep);
    assert windows[..i] == windows;
  }

  /** The loop over the segments, skipping those shorter than the duration. */
  method ChooseBlock(segments: seq<seq<int>>, duration: int, p: seq<int>, sleep: bool)
    returns (best: Option<seq<int>>)
    requires duration >= 1
    ensures best == Scan(Candidates(segments, duration), p, sleep)
  {
    best := None;
    var bestSum := 0;
    var si := 0;
    while si < |segments|
      invariant 0 <= si <= |segments|
      invariant best == Scan(Candidates(segments[..si], duration), p, sleep)
      invariant SumOf(p, best, bestSum)
    {
      var seg := segments[si];
      CandidatesStep(segments, si, duration);
      if |seg| >= duration {
        best, bestSum := ScanSegment(seg, duration, p, sleep, Candidates(segments[..si], duration), best, bestSum);
      }
      si := si + 1;
    }
    assert segments[..si] == segments;
  }
}
