/**
 * Job selection of problem1/index.js: a backward greedy walk over the jobs
 * that picks a job when it has no compatible predecessor, or when its profit
 * plus that of its last compatible predecessor beats the profit of the job just
 * before it; and the complement (count and profit) left for the others.
 */
module JobScheduling {

  /** A job: start and end time as HHMM integers, and its profit. */
  datatype Job = Job(startTime: int, endTime: int, profit: int)

  /** Job `k` may run before job `index`: it ends no later than `index` starts. */
  ghost predicate Compatible(jobs: seq<Job>, k: int, index: int)
    requires 0 <= k < |jobs| && 0 <= index < |jobs|
  {
    jobs[k].endTime <= jobs[index].startTime
  }

  /** The highest index below `below` that is compatible with `index`, or -1 if none is. */
  ghost function LastNonConflictBelow(jobs: seq<Job>, index: int, below: int): (r: int)
    requires 0 <= index < |jobs| && 0 <= below <= index
    ensures -1 <= r < below
    ensures r >= 0 ==> Compatible(jobs, r, index)
    ensures forall k :: r < k < below ==> !Compatible(jobs, k, index)
    decreases below
  {
    if below == 0 then -1
    else if Compatible(jobs, below - 1, index) then below - 1
    else LastNonConflictBelow(jobs, index, below - 1)
  }

  /** The last job before `index` that does not conflict with it, or -1. */
  ghost function LastNonConflict(jobs: seq<Job>, index: int): int
    requires 0 <= index < |jobs|
  {
    LastNonConflictBelow(jobs, index, index)
  }

  /** The backward scan of findLastNonConflict, with its early return. */
  method FindLastNonConflict(jobs: seq<Job>, index: int) returns (r: int)
    requires 0 <= index < |jobs|
    ensures -1 <= r < index
    ensures r >= 0 ==> Compatible(jobs, r, index)
    ensures forall k :: r < k < index ==> !Compatible(jobs, k, index)
    ensures r == LastNonConflict(jobs, index)
  {
    var i := index - 1;
    while i >= 0
      invariant -1 <= i < index
      invariant forall k :: i < k < index ==> !Compatible(jobs, k, index)
    {
      if jobs[i].endTime <= jobs[index].startTime {
        LastNonConflictUnique(jobs, index, i);
        return i;
      }
      i := i - 1;
    }
    LastNonConflictUnique(jobs, index, -1);
    return -1;
  }

  /** The three properties of the scan's result determine it. */
  lemma LastNonConflictUnique(jobs: seq<Job>, index: int, r: int)
    requires 0 <= index < |jobs| && -1 <= r < index
    requires r >= 0 ==> Compatible(jobs, r, index)
    requires forall k :: r < k < index ==> !Compatible(jobs, k, index)
    ensures r == LastNonConflict(jobs, index)
  {
  }

  /**
   * The walk's decision at job `i`. When a compatible predecessor exists it
   * lies below `i`, so `jobs[i - 1]` is only read for `i >= 1`.
   */
  ghost predicate TakesJob(jobs: seq<Job>, i: int)
    requires 0 <= i < |jobs|
  {
    var last := LastNonConflict(jobs, i);
    last == -1 || jobs[i].profit + (if last == -1 then 0 else jobs[last].profit) > jobs[i - 1].profit
  }

  /** The index the walk visits after job `i`. */
  ghost function NextVisit(jobs: seq<Job>, i: int): (r: int)
    requires 0 <= i < |jobs|
    ensures -1 <= r < i
  {
    if TakesJob(jobs, i) then LastNonConflict(jobs, i) else i - 1
  }

  /** The indices taken by the walk that starts at `i`, in ascending order (the order after the final reverse). */
  ghost function TakenFrom(jobs: seq<Job>, i: int): (r: seq<int>)
    requires -1 <= i < |jobs|
    ensures IndicesIn(r, i + 1)
    ensures forall p, q :: 0 <= p < q < |r| ==> r[p] < r[q]
    ensures i >= 0 ==> |r| >= 1
    decreases i + 1
  {
    if i < 0 then []
    else if TakesJob(jobs, i) then TakenFrom(jobs, LastNonConflict(jobs, i)) + [i]
    else TakenFrom(jobs, i - 1)
  }

  /** The indices the walk that starts at `i` visits, in the order it visits them. */
  ghost function VisitedFrom(jobs: seq<Job>, i: int): (r: seq<int>)
    requires -1 <= i < |jobs|
    decreases i + 1
  {
    if i < 0 then [] else [i] + VisitedFrom(jobs, NextVisit(jobs, i))
  }

  /** The indices taken by determineJobsTaken on the whole array. */
  ghost function TakenIndices(jobs: seq<Job>): seq<int>
  {
    TakenFrom(jobs, |jobs| - 1)
  }

  /** Every index in `idx` is a position of a sequence of length `n`. */
  predicate IndicesIn(idx: seq<int>, n: int)
  {
    forall p :: 0 <= p < |idx| ==> 0 <= idx[p] < n
  }

  /** The jobs at the positions `idx`, in that order. */
  ghost function Select(jobs: seq<Job>, idx: seq<int>): (r: seq<Job>)
    requires IndicesIn(idx, |jobs|)
    ensures |r| == |idx|
    ensures forall p :: 0 <= p < |idx| ==> r[p] == jobs[idx[p]]
  {
    if idx == [] then [] else Select(jobs, idx[..|idx| - 1]) + [jobs[idx[|idx| - 1]]]
  }

  /** `s` backwards. */
  function Reverse<T>(s: seq<T>): (r: seq<T>)
    ensures |r| == |s|
    ensures forall k :: 0 <= k < |s| ==> r[k] == s[|s| - 1 - k]
  {
    if s == [] then [] else [s[|s| - 1]] + Reverse(s[..|s| - 1])
  }

  /** determineJobsTaken: walk back from the last job, push taken jobs, reverse at the end. */
  method DetermineJobsTaken(jobs: seq<Job>) returns (taken: seq<Job>)
    ensures taken == Select(jobs, TakenIndices(jobs))
    ensures |taken| <= |jobs|
    ensures |jobs| > 0 ==> |taken| >= 1
  {
    var n := |jobs|;
    var chosenJobs: seq<Job> := [];
    ghost var chosenIdx: seq<int> := [];
    var i := n - 1;
    while i >= 0
      invariant -1 <= i < n
      invariant IndicesIn(chosenIdx, n)
      invariant chosenJobs == Select(jobs, chosenIdx)
      invariant TakenIndices(jobs) == TakenFrom(jobs, i) + Reverse(chosenIdx)
      decreases i + 1
    {
      var lastNonConflict := FindLastNonConflict(jobs, i);
      if lastNonConflict == -1 || jobs[i].profit + (
          if lastNonConflict == -1 then 0 else jobs[lastNonConflict].profit) > jobs[i - 1].profit
      {
        PushTaken(jobs, i, chosenIdx);
        chosenJobs := chosenJobs + [jobs[i]];
        chosenIdx := chosenIdx + [i];
        i := lastNonConflict;
      } else {
        i := i - 1;
      }
    }
    taken := Reverse(chosenJobs);
    WalkFinished(jobs, chosenIdx);
  }

  /** Pushing a taken job `i` keeps the walk's invariant: it moves from the rest of the walk to the reversed pushes. */
  lemma PushTaken(jobs: seq<Job>, i: int, chosenIdx: seq<int>)
    requires 0 <= i < |jobs| && TakesJob(jobs, i)
    requires IndicesIn(chosenIdx, |jobs|)
    ensures IndicesIn(chosenIdx + [i], |jobs|)
    ensures Select(jobs, chosenIdx + [i]) == Select(jobs, chosenIdx) + [jobs[i]]
    ensures TakenFrom(jobs, i) + Reverse(chosenIdx)
         == TakenFrom(jobs, LastNonConflict(jobs, i)) + Reverse(chosenIdx + [i])
  {
    TakeStep(jobs, i, chosenIdx);
    SelectSnoc(jobs, chosenIdx, i);
  }

  lemma TakeStep(jobs: seq<Job>, i: int, chosenIdx: seq<int>)
    requires 0 <= i < |jobs| && TakesJob(jobs, i)
    ensures TakenFrom(jobs, i) + Reverse(chosenIdx)
         == TakenFrom(jobs, LastNonConflict(jobs, i)) + Reverse(chosenIdx + [i])
  {
    var rest := TakenFrom(jobs, LastNonConflict(jobs, i));
    assert TakenFrom(jobs, i) == rest + [i];
    var rc := Reverse(chosenIdx);
    ReverseSnoc(chosenIdx, i);
  }

  lemma SelectSnoc(jobs: seq<Job>, idx: seq<int>, i: int)
    requires 0 <= i < |jobs| && IndicesIn(idx, |jobs|)
    ensures IndicesIn(idx + [i], |jobs|)
    ensures Select(jobs, idx + [i]) == Select(jobs, idx) + [jobs[i]]
  {
    assert (idx + [i])[..|idx|] == idx;
  }

  /** When the walk has reached -1, the reversed pushes are the jobs the walk takes. */
  lemma WalkFinished(jobs: seq<Job>, chosenIdx: seq<int>)
    requires IndicesIn(chosenIdx, |jobs|)
    requires TakenIndices(jobs) == TakenFrom(jobs, -1) + Reverse(chosenIdx)
    ensures Reverse(Select(jobs, chosenIdx)) == Select(jobs, TakenIndices(jobs))
    ensures |TakenIndices(jobs)| <= |jobs|
  {
    assert TakenIndices(jobs) == Reverse(chosenIdx);
    SelectReverse(jobs, chosenIdx);
    TakenLength(jobs, |jobs| - 1);
  }

  lemma ReverseSnoc<T>(s: seq<T>, x: T)
    ensures Reverse(s + [x]) == [x] + Reverse(s)
  {
    assert (s + [x])[..|s|] == s;
  }

  lemma SelectReverse(jobs: seq<Job>, idx: seq<int>)
    requires IndicesIn(idx, |jobs|)
    ensures IndicesIn(Reverse(idx), |jobs|)
    ensures Reverse(Select(jobs, idx)) == Select(jobs, Reverse(idx))
  {
    var r := Reverse(idx);
    assert forall p :: 0 <= p < |r| ==> 0 <= r[p] < |jobs|;
    var a, b := Reverse(Select(jobs, idx)), Select(jobs, r);
    forall k | 0 <= k < |a|
      ensures a[k] == b[k]
    {
    }
  }

  /** A walk from `i` takes at most `i + 1` jobs, and at least one. */
  lemma {:induction false} TakenLength(jobs: seq<Job>, i: int)
    requires -1 <= i < |jobs|
    ensures |TakenFrom(jobs, i)| <= i + 1
  {
    if i >= 0 {
      TakenLength(jobs, NextVisit(jobs, i));
    }
  }

  /** The walk takes exactly the visited jobs at which its decision is to take. */
  lemma {:induction false} TakenAreVisitedTakes(jobs: seq<Job>, i: int, k: int)
    requires -1 <= i < |jobs| && 0 <= k < |jobs|
    ensures k in TakenFrom(jobs, i) <==> k in VisitedFrom(jobs, i) && TakesJob(jobs, k)
    decreases i + 1
  {
    if i >= 0 {
      var next := NextVisit(jobs, i);
      TakenAreVisitedTakes(jobs, next, k);
      if k in VisitedFrom(jobs, next) {
        VisitedBelow(jobs, next, k);
      }
      if TakesJob(jobs, i) {
        assert TakenFrom(jobs, i) == TakenFrom(jobs, next) + [i];
      }
    }
  }

  /** The walk from `i` visits only indices up to `i`. */
  lemma {:induction false} VisitedBelow(jobs: seq<Job>, i: int, k: int)
    requires -1 <= i < |jobs|
    requires k in VisitedFrom(jobs, i)
    ensures 0 <= k <= i
    decreases i + 1
  {
    if i >= 0 && k != i {
      VisitedBelow(jobs, NextVisit(jobs, i), k);
    }
  }

  /** A visited job with no compatible predecessor is always taken; job 0 in particular. */
  lemma VisitedUnconstrainedTaken(jobs: seq<Job>, i: int, k: int)
    requires -1 <= i < |jobs| && 0 <= k < |jobs|
    requires k in VisitedFrom(jobs, i)
    requires LastNonConflict(jobs, k) == -1
    ensures k in TakenFrom(jobs, i)
  {
    TakenAreVisitedTakes(jobs, i, k);
  }

  /** Job 0 has no compatible predecessor, so a walk that reaches it takes it. */
  lemma FirstJobTakenWhenVisited(jobs: seq<Job>)
    requires |jobs| > 0 && 0 in VisitedFrom(jobs, |jobs| - 1)
    ensures 0 in TakenIndices(jobs)
  {
    VisitedUnconstrainedTaken(jobs, |jobs| - 1, 0);
  }

  /** The earliest job the walk takes has no compatible predecessor: the walk only ends by jumping to -1. */
  lemma {:induction false} EarliestTakenUnconstrained(jobs: seq<Job>, i: int)
    requires 0 <= i < |jobs|
    ensures LastNonConflict(jobs, TakenFrom(jobs, i)[0]) == -1
    decreases i + 1
  {
    var next := NextVisit(jobs, i);
    if next >= 0 {
      EarliestTakenUnconstrained(jobs, next);
      if TakesJob(jobs, i) {
        assert TakenFrom(jobs, i)[0] == TakenFrom(jobs, next)[0];
      }
    }
  }

  /** The total profit of a list of jobs: the left fold `(acc, job) => acc + job.profit` from 0. */
  function Profit(jobs: seq<Job>): int
  {
    if jobs == [] then 0 else Profit(jobs[..|jobs| - 1]) + jobs[|jobs| - 1].profit
  }

  /** The first `n` jobs whose index is in `idx`, in their original order. */
  ghost function Kept(jobs: seq<Job>, n: nat, idx: seq<int>): seq<Job>
    requires n <= |jobs|
  {
    if n == 0 then [] else Kept(jobs, n - 1, idx) + (if n - 1 in idx then [jobs[n - 1]] else [])
  }

  /** The first `n` jobs whose index is not in `idx`, in their original order. */
  ghost function Unkept(jobs: seq<Job>, n: nat, idx: seq<int>): seq<Job>
    requires n <= |jobs|
  {
    if n == 0 then [] else Unkept(jobs, n - 1, idx) + (if n - 1 in idx then [] else [jobs[n - 1]])
  }

  /** Splitting the first `n` jobs by membership in `idx` loses no job. */
  lemma {:induction false} PartitionKeepsCount(jobs: seq<Job>, n: nat, idx: seq<int>)
    requires n <= |jobs|
    ensures |Kept(jobs, n, idx)| + |Unkept(jobs, n, idx)| == n
  {
    if n > 0 {
      PartitionKeepsCount(jobs, n - 1, idx);
    }
  }

  /** Splitting the first `n` jobs by membership in `idx` loses no profit. */
  lemma {:induction false} PartitionKeepsProfit(jobs: seq<Job>, n: nat, idx: seq<int>)
    requires n <= |jobs|
    ensures Profit(jobs[..n]) == Profit(Kept(jobs, n, idx)) + Profit(Unkept(jobs, n, idx))
  {
    if n > 0 {
      PartitionKeepsProfit(jobs, n - 1, idx);
      var x := [jobs[n - 1]];
      assert jobs[..n][..n - 1] == jobs[..n - 1];
      var k, u := Kept(jobs, n - 1, idx), Unkept(jobs, n - 1, idx);
      if n - 1 in idx {
        assert Unkept(jobs, n, idx) == u + [] == u;
        assert (k + x)[..|k|] == k;
      } else {
        assert Kept(jobs, n, idx) == k + [] == k;
        assert (u + x)[..|u|] == u;
      }
    }
  }

  /** Kept only looks at the indices below `n`. */
  lemma {:induction false} KeptAgrees(jobs: seq<Job>, n: nat, a: seq<int>, b: seq<int>)
    requires n <= |jobs|
    requires forall k :: 0 <= k < n ==> (k in a <==> k in b)
    ensures Kept(jobs, n, a) == Kept(jobs, n, b)
  {
    if n > 0 {
      KeptAgrees(jobs, n - 1, a, b);
    }
  }

  /** Selecting a strictly increasing list of indices keeps those jobs in their original order. */
  lemma {:induction false} SelectIsSubsequence(jobs: seq<Job>, n: nat, idx: seq<int>)
    requires n <= |jobs|
    requires forall p :: 0 <= p < |idx| ==> 0 <= idx[p] < n
    requires forall p, q :: 0 <= p < q < |idx| ==> idx[p] < idx[q]
    ensures Select(jobs, idx) == Kept(jobs, n, idx)
  {
    if n > 0 {
      if idx != [] && idx[|idx| - 1] == n - 1 {
        var init := idx[..|idx| - 1];
        SelectIsSubsequence(jobs, n - 1, init);
        KeptAgrees(jobs, n - 1, init, idx);
        assert Select(jobs, idx) == Select(jobs, init) + [jobs[n - 1]];
      } else {
        assert n - 1 !in idx;
        SelectIsSubsequence(jobs, n - 1, idx);
      }
    }
  }

  /** The jobs taken from the whole array are the jobs kept by the taken indices, in original order. */
  lemma TakenIsSubsequence(jobs: seq<Job>)
    ensures Select(jobs, TakenIndices(jobs)) == Kept(jobs, |jobs|, TakenIndices(jobs))
  {
    SelectIsSubsequence(jobs, |jobs|, TakenIndices(jobs));
  }

  /**
   * jobsLeftForOthers: the number and total profit of the jobs the walk does
   * not take.
   */
  method JobsLeftForOthers(jobs: seq<Job>) returns (count: int, earnings: int)
    ensures count == |Unkept(jobs, |jobs|, TakenIndices(jobs))|
    ensures earnings == Profit(Unkept(jobs, |jobs|, TakenIndices(jobs)))
    ensures count + |Select(jobs, TakenIndices(jobs))| == |jobs|
    ensures 0 <= count && (|jobs| > 0 ==> count < |jobs|)
  {
    var totalEarnings := Profit(jobs);
    var jobsForJohn := DetermineJobsTaken(jobs);
    var earningsForJohn := Profit(jobsForJohn);
    count, earnings := |jobs| - |jobsForJohn|, totalEarnings - earningsForJohn;
    TakenIsSubsequence(jobs);
    PartitionKeepsCount(jobs, |jobs|, TakenIndices(jobs));
    PartitionKeepsProfit(jobs, |jobs|, TakenIndices(jobs));
    assert jobs[..|jobs|] == jobs;
  }

  /** The first input of the unit tests: only (1000, 1200, 500) is taken. */
  const OverlappingTrio := [Job(900, 1030, 100), Job(1000, 1200, 500), Job(1100, 1200, 300)]

  /** The second input of the unit tests. */
  const HeavyMiddle := [Job(900, 1000, 250), Job(945, 1200, 550), Job(1130, 1500, 150)]

  /** The third input of the unit tests: equal profits, jobs 0 and 2 are taken. */
  const EqualProfits := [Job(900, 1030, 100), Job(1000, 1200, 100), Job(1100, 1200, 100)]

  /**
   * A walk over three jobs in which the last job's compatible predecessor is
   * the first job, the last job is declined and the middle job has no
   * compatible predecessor: the middle job alone is taken.
   */
  lemma MiddleTaken(jobs: seq<Job>)
    requires |jobs| == 3
    requires LastNonConflict(jobs, 2) == 0 && !TakesJob(jobs, 2)
    requires LastNonConflict(jobs, 1) == -1
    ensures TakenIndices(jobs) == [1]
    ensures Unkept(jobs, |jobs|, TakenIndices(jobs)) == [jobs[0], jobs[2]]
  {
    assert TakenFrom(jobs, 1) == [1];
    assert Unkept(jobs, 1, [1]) == [jobs[0]];
  }

  method ExampleOverlappingTrio() returns (count: int, earnings: int)
    ensures TakenIndices(OverlappingTrio) == [1]
    ensures count == 2 && earnings == 400
  {
    count, earnings := JobsLeftForOthers(OverlappingTrio);
    assert LastNonConflict(OverlappingTrio, 2) == 0 && LastNonConflict(OverlappingTrio, 1) == -1;
    MiddleTaken(OverlappingTrio);
    assert Profit([OverlappingTrio[0]]) == 100;
  }

  method ExampleHeavyMiddle() returns (count: int, earnings: int)
    ensures count == 2 && earnings == 400
  {
    count, earnings := JobsLeftForOthers(HeavyMiddle);
    assert LastNonConflict(HeavyMiddle, 2) == 0 && LastNonConflict(HeavyMiddle, 1) == -1;
    MiddleTaken(HeavyMiddle);
    assert Profit([HeavyMiddle[0]]) == 250;
  }

  method ExampleEqualProfits() returns (count: int, earnings: int)
    ensures TakenIndices(EqualProfits) == [0, 2]
    ensures count == 1 && earnings == 100
  {
    count, earnings := JobsLeftForOthers(EqualProfits);
    EqualProfitsWalk();
  }

  /** On the third input the walk takes job 2, jumps to job 0 and takes it, leaving job 1. */
  lemma EqualProfitsWalk()
    ensures TakenIndices(EqualProfits) == [0, 2]
    ensures Unkept(EqualProfits, |EqualProfits|, TakenIndices(EqualProfits)) == [EqualProfits[1]]
  {
    var jobs := EqualProfits;
    assert LastNonConflict(jobs, 2) == 0 && TakesJob(jobs, 2);
    assert LastNonConflict(jobs, 0) == -1;
    assert TakenFrom(jobs, 0) == [0];
    assert Unkept(jobs, 1, [0, 2]) == [];
  }

  /**
   * The walk does not guarantee a non-overlapping selection: after taking job 3
   * it jumps to job 2, declines it, steps to job 1 and takes it, though job 1
   * (0 to 100) overlaps job 3 (10 to 20).
   */
  lemma WalkMayTakeOverlappingJobs()
    ensures var jobs := [Job(0, 1, 1), Job(0, 100, 50), Job(2, 3, 1), Job(10, 20, 1)];
      && TakenIndices(jobs) == [1, 3]
      && jobs[1].startTime < jobs[3].endTime && jobs[3].startTime < jobs[1].endTime
  {
    var jobs := [Job(0, 1, 1), Job(0, 100, 50), Job(2, 3, 1), Job(10, 20, 1)];
    assert LastNonConflict(jobs, 3) == 2;
    assert LastNonConflict(jobs, 2) == 0;
    assert LastNonConflict(jobs, 1) == -1;
  }
}
