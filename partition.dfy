/**
 * processAvgNum (content.go) and the slicing done by the dispatch loop of handleM3u8:
 * the ordered task list is cut into one contiguous range per worker, the remainder
 * going one task each to the front workers.
 */
module Partition {

  /** The `[start, end)` pair processAvgNum returns, as indices into the task list. */
  datatype TaskRange = TaskRange(start: int, end: int)

  /** Worker `currentProcessNum`'s range out of `totalTaskNum` tasks shared by
      `totalProcessNum` workers; workers are numbered from 1. */
  function ProcessAvgNum(totalTaskNum: nat, totalProcessNum: int, currentProcessNum: int): (r: TaskRange)
    requires 1 <= currentProcessNum <= totalProcessNum
    ensures 0 <= r.start <= r.end <= totalTaskNum
  {
    if totalTaskNum < totalProcessNum then
      if currentProcessNum > totalTaskNum then TaskRange(0, 0)
      else TaskRange(currentProcessNum - 1, currentProcessNum)
    else
      var avgInt := totalTaskNum / totalProcessNum;
      var avgOver := totalTaskNum % totalProcessNum;
      var offset := (currentProcessNum - 1) * avgInt;
      OffsetBounds(totalTaskNum, totalProcessNum, currentProcessNum);
      if avgOver >= 1 then
        if currentProcessNum <= avgOver then
          var intOver := (currentProcessNum - 1) * 1;
          TaskRange(offset + intOver, offset + intOver + avgInt + 1)
        else
          TaskRange(offset + avgOver, offset + avgOver + avgInt)
      else
        TaskRange(offset, offset + avgInt)
  }

  function Min(a: int, b: int): int { if a <= b then a else b }

  /** Number of tasks that the first `k` workers hold together: `k` base shares and one
      extra task for each of them that is among the first `total % n`. */
  function Boundary(total: nat, n: int, k: nat): int
    requires 1 <= n
  {
    k * (total / n) + Min(k, total % n)
  }

  lemma MulMonotone(a: nat, b: nat, c: nat)
    requires a <= b
    ensures a * c <= b * c
  {}

  lemma MulPred(k: int, c: int)
    ensures (k - 1) * c + c == k * c
  {}

  /** No boundary lies past the end of the list; the last one is the end of the list. */
  lemma BoundaryBelowTotal(total: nat, n: int, k: nat)
    requires 1 <= n && k <= n
    ensures 0 <= Boundary(total, n, k) <= Boundary(total, n, n) == total
  {
    MulMonotone(k, n, total / n);
  }

  /** The arithmetic behind processAvgNum's ranges staying inside the task list. */
  lemma OffsetBounds(total: nat, n: int, i: int)
    requires 1 <= i <= n
    ensures 0 <= total / n && 0 <= (i - 1) * (total / n)
    ensures (i - 1) * (total / n) + total / n + Min(i, total % n) <= total
  {
    BoundaryBelowTotal(total, n, i);
    MulPred(i, total / n);
    MulMonotone(0, i - 1, total / n);
  }

  /** Boundaries never decrease. */
  lemma BoundaryMonotone(total: nat, n: int, j: nat, k: nat)
    requires 1 <= n && j <= k
    ensures Boundary(total, n, j) <= Boundary(total, n, k)
  {
    MulMonotone(j, k, total / n);
  }

  /** Every worker's range is the stretch between two consecutive boundaries, except that a
      worker with nothing to do, when there are fewer tasks than workers, gets `[0, 0)`. */
  lemma RangeBetweenBoundaries(total: nat, n: int, i: int)
    requires 1 <= i <= n
    ensures var r := ProcessAvgNum(total, n, i);
            || (r.start == Boundary(total, n, i - 1) && r.end == Boundary(total, n, i))
            || (total < i && r == TaskRange(0, 0) && Boundary(total, n, i - 1) == Boundary(total, n, i))
  {
    var a, o := total / n, total % n;
    if total < n {
      SmallQuotient(total, n);
      assert (i - 1) * a == 0 && i * a == 0;
    } else {
      MulPred(i, a);
    }
  }

  lemma SmallQuotient(total: nat, n: int)
    requires 0 <= total < n
    ensures total / n == 0 && total % n == total
  {}

  /** With fewer tasks than workers, worker `i` gets task `i - 1` alone, or nothing once the
      tasks have run out. */
  lemma FewerTasksThanWorkers(total: nat, n: int, i: int)
    requires 1 <= i <= n && total < n
    ensures ProcessAvgNum(total, n, i) == if i > total then TaskRange(0, 0) else TaskRange(i - 1, i)
  {}

  /** Worker `i` gets `total / n` tasks, plus one if it is among the first `total % n`. */
  lemma RangeSize(total: nat, n: int, i: int)
    requires 1 <= i <= n
    ensures var r := ProcessAvgNum(total, n, i);
            r.end - r.start == total / n + (if i <= total % n then 1 else 0)
  {}

  /** The shares are balanced: no worker holds more than one task more than another, and a
      worker never holds fewer tasks than a worker after it. */
  lemma {:induction false} SharesBalanced(total: nat, n: int, i: int, j: int)
    requires 1 <= i <= j <= n
    ensures var ri, rj := ProcessAvgNum(total, n, i), ProcessAvgNum(total, n, j);
            0 <= (ri.end - ri.start) - (rj.end - rj.start) <= 1
  {
    RangeSize(total, n, i);
    RangeSize(total, n, j);
  }

  /** When every worker has at least one task, the ranges lie end to end: worker 1 starts
      at 0, each worker starts where the one before it ends, and worker `n` ends at `total`. */
  lemma {:induction false} RangesContiguous(total: nat, n: int, i: int)
    requires 1 <= i <= n <= total
    ensures i == 1 ==> ProcessAvgNum(total, n, i).start == 0
    ensures i < n ==> ProcessAvgNum(total, n, i).end == ProcessAvgNum(total, n, i + 1).start
    ensures i == n ==> ProcessAvgNum(total, n, i).end == total
  {
    RangeBetweenBoundaries(total, n, i);
    if i < n {
      RangeBetweenBoundaries(total, n, i + 1);
    }
    BoundaryBelowTotal(total, n, n);
  }

  predicate InRange(r: TaskRange, t: int) {
    r.start <= t < r.end
  }

  /** No task is given to two workers. */
  lemma {:induction false} RangesDisjoint(total: nat, n: int, i: int, j: int, t: int)
    requires 1 <= i < j <= n
    ensures !(InRange(ProcessAvgNum(total, n, i), t) && InRange(ProcessAvgNum(total, n, j), t))
  {
    RangeBetweenBoundaries(total, n, i);
    RangeBetweenBoundaries(total, n, j);
    BoundaryMonotone(total, n, i, j - 1);
  }

  /** Every task is given to some worker. */
  lemma {:induction false} TaskCovered(total: nat, n: int, t: int)
    requires 1 <= n && 0 <= t < total
    ensures exists i :: 1 <= i <= n && InRange(ProcessAvgNum(total, n, i), t)
  {
    var i := OwnerFrom(total, n, n, t);
    RangeBetweenBoundaries(total, n, i);
    assert InRange(ProcessAvgNum(total, n, i), t);
  }

  /** The worker among the first `k` whose boundaries enclose task `t`. */
  lemma {:induction false} OwnerFrom(total: nat, n: int, k: nat, t: int) returns (i: int)
    requires 1 <= n && k <= n && 0 <= t < Boundary(total, n, k)
    ensures 1 <= i <= k && Boundary(total, n, i - 1) <= t < Boundary(total, n, i)
  {
    if t < Boundary(total, n, k - 1) {
      i := OwnerFrom(total, n, k - 1, t);
    } else {
      i := k;
    }
  }

  /** The concatenation of a list of slices. */
  function Flatten<T>(slices: seq<seq<T>>): seq<T> {
    if slices == [] then [] else Flatten(slices[..|slices| - 1]) + slices[|slices| - 1]
  }

  /** Worker `i`'s slice is what follows the first `i - 1` workers' tasks. */
  lemma SliceExtendsPrefix<T>(links: seq<T>, n: int, i: int)
    requires 1 <= i <= n
    ensures Boundary(|links|, n, i) <= |links|
    ensures links[..Boundary(|links|, n, i)] == links[..Boundary(|links|, n, i - 1)] + WorkerSlice(links, n, i)
  {
    RangeBetweenBoundaries(|links|, n, i);
    BoundaryBelowTotal(|links|, n, i);
    BoundaryMonotone(|links|, n, i - 1, i);
    var r, lo, hi := ProcessAvgNum(|links|, n, i), Boundary(|links|, n, i - 1), Boundary(|links|, n, i);
    assert 0 <= lo <= hi <= |links|;
    assert (r.start == lo && r.end == hi) || (r == TaskRange(0, 0) && lo == hi);
    SliceStep(links, r, lo, hi);
  }

  lemma SliceStep<T>(links: seq<T>, r: TaskRange, lo: int, hi: int)
    requires 0 <= lo <= hi <= |links|
    requires (r.start == lo && r.end == hi) || (r == TaskRange(0, 0) && lo == hi)
    ensures links[..hi] == links[..lo] + links[r.start..r.end]
  {
    if r.start == lo && r.end == hi {
      assert links[..hi] == links[..lo] + links[lo..hi];
    } else {
      assert links[..hi] == links[..lo];
    }
  }

  /** The tasks worker `i` is handed: `links[start:end]` for its range. */
  function WorkerSlice<T>(links: seq<T>, n: int, i: int): seq<T>
    requires 1 <= i <= n
  {
    var r := ProcessAvgNum(|links|, n, i);
    links[r.start..r.end]
  }

  /** The slicing done by the dispatch loop of handleM3u8: for workers 1 to `threads`, in
      turn, the slice of `links` processAvgNum assigns it. Together the slices are the whole
      list in its order, every task exactly once. */
  method AssignTasks<T>(links: seq<T>, threads: int) returns (slices: seq<seq<T>>)
    requires 1 <= threads
    ensures |slices| == threads
    ensures forall i :: 1 <= i <= threads ==> slices[i - 1] == WorkerSlice(links, threads, i)
    ensures Flatten(slices) == links
  {
    slices := [];
    var i := 1;
    ghost var done := 0;
    while i <= threads
      invariant 1 <= i <= threads + 1
      invariant |slices| == i - 1
      invariant forall j :: 1 <= j < i ==> slices[j - 1] == WorkerSlice(links, threads, j)
      invariant done == Boundary(|links|, threads, i - 1) && done <= |links|
      invariant Flatten(slices) == links[..done]
    {
      var taskIndex := ProcessAvgNum(|links|, threads, i);
      SliceExtendsPrefix(links, threads, i);
      BoundaryMonotone(|links|, threads, i - 1, i);
      AssignStep(links, slices, done, Boundary(|links|, threads, i), WorkerSlice(links, threads, i));
      slices := slices + [links[taskIndex.start..taskIndex.end]];
      done := Boundary(|links|, threads, i);
      i := i + 1;
    }
    AllAssigned(links, threads, slices, done);
  }

  /** Appending the slice that takes the handed-out prefix from `lo` to `hi` tasks. */
  lemma AssignStep<T>(links: seq<T>, slices: seq<seq<T>>, lo: int, hi: int, w: seq<T>)
    requires 0 <= lo <= hi <= |links|
    requires Flatten(slices) == links[..lo] && links[..hi] == links[..lo] + w
    ensures Flatten(slices + [w]) == links[..hi]
  {
    var more := slices + [w];
    assert more[..|more| - 1] == slices;
  }

  /** After the last worker every task has been handed out. */
  lemma AllAssigned<T>(links: seq<T>, n: int, slices: seq<seq<T>>, done: nat)
    requires 1 <= n
    requires done == Boundary(|links|, n, n) && done <= |links|
    requires Flatten(slices) == links[..done]
    ensures Flatten(slices) == links
  {
    BoundaryBelowTotal(|links|, n, n);
    assert links[..|links|] == links;
  }
}
