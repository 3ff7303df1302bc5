/** The download end to end: whatever the interleaving of the worker pool, a run that ends without an error leaves every
    file equal to its parts in order. */
module PoolAssembly {
  import opened Common
  import opened FileWriting
  import opened SegmentProcessing
  import opened FileAssembly
  import opened WorkerPool
  import opened WorkerPoolRuns

  /** The id of a task's first segment: jobs are numbered in dispatch order. */
  function TaskBase(tasks: seq<Task>, k: nat): nat
    requires k <= |tasks|
  {
    |AllJobs(tasks[..k])|
  }

  lemma {:induction false} TaskIds(tasks: seq<Task>, k: nat, i: nat)
    requires k < |tasks| && !tasks[k].isComplete && i < |tasks[k].segments|
    ensures TaskBase(tasks, k) + i < |AllJobs(tasks)|
    ensures AllJobs(tasks)[TaskBase(tasks, k) + i] == TaskJob(tasks[k], i)
    decreases |tasks|
  {
    var front := tasks[..|tasks| - 1];
    if k < |front| {
      assert front[..k] == tasks[..k];
      TaskIds(front, k, i);
    }
  }

  /** The successes that belong to one task, as segment numbers, in the order they happened. */
  function Within(ids: seq<nat>, base: nat, n: nat): seq<nat> {
    if ids == [] then []
    else
      var rest := Within(ids[..|ids| - 1], base, n);
      var last := ids[|ids| - 1];
      if base <= last < base + n then rest + [last - base] else rest
  }

  lemma {:induction false} WithinCounts(ids: seq<nat>, base: nat, n: nat, i: nat)
    requires i < n
    ensures SumOf(Within(ids, base, n), IdIs(i)) == SumOf(ids, IdIs(base + i))
    ensures forall x | x in Within(ids, base, n) :: x < n
  {
    if ids != [] {
      var front, last := ids[..|ids| - 1], ids[|ids| - 1];
      assert ids == front + [last];
      WithinCounts(front, base, n, i);
      SumOfAppend<nat>(front, last, IdIs(base + i));
      if base <= last < base + n {
        SumOfAppend<nat>(Within(front, base, n), last - base, IdIs(i));
      }
    }
  }

  lemma {:induction false} CountedIsMember(ids: seq<nat>, i: nat) returns (j: nat)
    requires SumOf(ids, IdIs(i)) > 0
    ensures j < |ids| && ids[j] == i
  {
    if ids[0] == i {
      j := 0;
    } else {
      var k := CountedIsMember(ids[1..], i);
      j := k + 1;
    }
  }

  function Range(n: nat): seq<nat> {
    seq(n, i requires 0 <= i < n => i)
  }

  /** A sequence that holds each number below `n` once, and no other, sums like the range. */
  lemma {:induction false} PermutationSum(order: seq<nat>, n: nat, f: nat -> int)
    requires forall x | x in order :: x < n
    requires forall i: nat | i < n :: SumOf(order, IdIs(i)) == 1
    ensures SumOf(order, f) == SumOf(Range(n), f)
  {
    if n == 0 {
      SumOfZeros(order, f);
    } else {
      var j := CountedIsMember(order, n - 1);
      var rest: seq<nat> := Remove(order, j);
      SumOfRemove<nat>(order, j, f);
      SumOfRemove<nat>(order, j, IdIs(n - 1));
      forall x: nat | x in rest ensures x < n - 1 {
        assert x in order[..j] || x in order[j + 1..];
        assert x in order;
        if x == n - 1 {
          MemberIsCounted(rest, x);
        }
      }
      forall i: nat | i < n - 1 ensures SumOf(rest, IdIs(i)) == 1 {
        SumOfRemove<nat>(order, j, IdIs(i));
        assert IdIs(i)(order[j]) == 0;
      }
      PermutationSum(rest, n - 1, f);
      assert Range(n) == Range(n - 1) + [n - 1];
      SumOfAppend<nat>(Range(n - 1), n - 1, f);
    }
  }

  lemma {:induction false} MemberIsCounted(ids: seq<nat>, i: nat)
    requires i in ids
    ensures SumOf(ids, IdIs(i)) > 0
  {
    NonNegative(ids[1..], IdIs(i));
    if ids[0] != i {
      MemberIsCounted(ids[1..], i);
    }
  }

  /** The writes of one task's successful attempts, in the order they happened. */
  function AttemptWrites(attempts: seq<Outcome>): seq<WriteOp>
    requires AllDecoded(attempts)
  {
    seq(|attempts|, j requires 0 <= j < |attempts| => SegmentWrite(attempts[j]))
  }

  predicate AllDecoded(attempts: seq<Outcome>) {
    forall j :: 0 <= j < |attempts| ==> attempts[j].Decoded? && attempts[j].offset >= 0
  }

  function AttemptSize(o: Outcome): int {
    if o.Decoded? then |o.data| else 0
  }

  /** The pool's run over the tasks ended, without error. */
  predicate EndedWell(c: Config, run: seq<Step>, tasks: seq<Task>) {
    && c.Valid() && c.total == |AllJobs(tasks)|
    && ValidRun(c, Init(c), run) && Uncancelled(run)
    && After(c, Init(c), run).collector.Finished? && !After(c, Init(c), run).failed
  }

  /** The segments of task `k` in the order in which they succeeded. */
  function Successes(c: Config, run: seq<Step>, tasks: seq<Task>, k: nat): seq<nat>
    requires c.Valid() && ValidRun(c, Init(c), run) && k < |tasks|
  {
    Within(After(c, Init(c), run).successes, TaskBase(tasks, k), |tasks[k].segments|)
  }

  /** Every part of the file is listed once. */
  predicate ListedOnce(t: Task, parts: seq<Bytes>, listed: seq<nat>) {
    && |t.segments| == |listed| == |parts|
    && forall i: nat | i < |parts| :: SumOf(listed, IdIs(i)) == 1
  }

  /** Each of these attempts, one for every success in `order`, carries its segment's part. */
  predicate AttemptsCarry(t: Task, parts: seq<Bytes>, listed: seq<nat>, order: seq<nat>, attempts: seq<Outcome>) {
    && |attempts| == |order| && |t.segments| == |listed|
    && forall j :: 0 <= j < |order| ==> order[j] < |listed| && CarriedBy(t, parts, listed, order[j], attempts[j])
  }

  /** A pool run over `tasks` that ends without error, in which the attempt that succeeded for each segment of task `k`
      carried its part, whatever earlier attempts gave: the task's file, after those writes in whatever order the pool
      made them and the final truncation, is the concatenation of its parts; and they together added exactly the file's
      length to the progress count. */
  lemma FilesComeOutWhole(
      c: Config, run: seq<Step>, tasks: seq<Task>, k: nat,
      parts: seq<Bytes>, listed: seq<nat>, attempts: seq<Outcome>, content: Bytes)
    requires EndedWell(c, run, tasks) && k < |tasks| && !tasks[k].isComplete
    requires ListedOnce(tasks[k], parts, listed) && FirstPartListedFirst(tasks[k], parts, listed)
    requires AttemptsCarry(tasks[k], parts, listed, Successes(c, run, tasks, k), attempts)
    ensures AllDecoded(attempts)
            && Resize(Replay(content, AttemptWrites(attempts)), |Concat(parts)|) == Concat(parts)
            && SumOf(attempts, AttemptSize) == |Concat(parts)|
  {
    var t, order := tasks[k], Successes(c, run, tasks, k);
    OrderIsPermutation(c, run, tasks, k);
    var outcomes := OnePerSegment(t, parts, listed, order, attempts, |listed|);
    assert AllDecoded(attempts) by {
      forall j | 0 <= j < |attempts| ensures attempts[j].Decoded? && attempts[j].offset >= 0 {
        assert CarriedBy(t, parts, listed, order[j], attempts[j]);
      }
    }
    AttemptsAssemble(t, parts, listed, order, attempts, outcomes, content);
    AttemptSizes(t, parts, listed, order, attempts, outcomes, |order|);
    assert order[..|order|] == order && attempts[..|order|] == attempts;
    PermutationSum(order, |listed|, DataSize(outcomes));
    DecodedSizesAddUp(t, parts, listed, outcomes);
  }

  /** Some success of each of the first `n` segments. */
  lemma {:induction false} OnePerSegment(t: Task, parts: seq<Bytes>, listed: seq<nat>, order: seq<nat>,
                                         attempts: seq<Outcome>, n: nat) returns (outcomes: seq<Outcome>)
    requires AttemptsCarry(t, parts, listed, order, attempts) && n <= |listed|
    requires forall i: nat | i < n :: SumOf(order, IdIs(i)) == 1
    ensures |outcomes| == n && forall i: nat :: i < n ==> CarriedBy(t, parts, listed, i, outcomes[i])
  {
    if n == 0 {
      outcomes := [];
    } else {
      var before := OnePerSegment(t, parts, listed, order, attempts, n - 1);
      var j := CountedIsMember(order, n - 1);
      outcomes := before + [attempts[j]];
    }
  }

  lemma AttemptsAssemble(t: Task, parts: seq<Bytes>, listed: seq<nat>, order: seq<nat>, attempts: seq<Outcome>,
                         outcomes: seq<Outcome>, content: Bytes)
    requires ListedOnce(t, parts, listed) && FirstPartListedFirst(t, parts, listed)
    requires AttemptsCarry(t, parts, listed, order, attempts) && AllDecoded(attempts)
    requires |outcomes| == |listed| && forall i: nat :: i < |listed| ==> Carries(t, parts, listed, outcomes, i)
    requires forall i: nat | i < |listed| :: SumOf(order, IdIs(i)) == 1
    ensures Resize(Replay(content, AttemptWrites(attempts)), |Concat(parts)|) == Concat(parts)
  {
    var log := AttemptWrites(attempts);
    forall i: nat | i < |listed| ensures i in order {
      var j := CountedIsMember(order, i);
    }
    forall i: nat | i < |parts| ensures i in listed {
      var j := CountedIsMember(listed, i);
    }
    forall j | 0 <= j < |order|
      ensures order[j] < |listed| && Carries(t, parts, listed, outcomes, order[j])
              && log[j] == SegmentWrite(outcomes[order[j]])
    {
      assert CarriedBy(t, parts, listed, order[j], attempts[j]);
    }
    FileIsAssembled(t, parts, listed, outcomes, content, order, log);
  }

  lemma {:induction false} AttemptSizes(t: Task, parts: seq<Bytes>, listed: seq<nat>, order: seq<nat>,
                                        attempts: seq<Outcome>, outcomes: seq<Outcome>, n: nat)
    requires AttemptsCarry(t, parts, listed, order, attempts) && n <= |order|
    requires |outcomes| == |listed| && forall i: nat :: i < |listed| ==> Carries(t, parts, listed, outcomes, i)
    ensures SumOf(attempts[..n], AttemptSize) == SumOf(order[..n], DataSize(outcomes))
  {
    if n > 0 {
      AttemptSizes(t, parts, listed, order, attempts, outcomes, n - 1);
      assert CarriedBy(t, parts, listed, order[n - 1], attempts[n - 1]);
      assert Carries(t, parts, listed, outcomes, order[n - 1]);
      assert attempts[..n] == attempts[..n - 1] + [attempts[n - 1]] && order[..n] == order[..n - 1] + [order[n - 1]];
      SumOfAppend(attempts[..n - 1], attempts[n - 1], AttemptSize);
      SumOfAppend<nat>(order[..n - 1], order[n - 1], DataSize(outcomes));
    }
  }

  function DataSize(outcomes: seq<Outcome>): nat -> int {
    (i: nat) => if i < |outcomes| && outcomes[i].Decoded? then |outcomes[i].data| else 0
  }

  /** A finished run without error succeeded once for each segment of task `k`. */
  lemma OrderIsPermutation(c: Config, run: seq<Step>, tasks: seq<Task>, k: nat)
    requires EndedWell(c, run, tasks) && k < |tasks| && !tasks[k].isComplete
    ensures var n, order := |tasks[k].segments|, Successes(c, run, tasks, k);
            && (forall i | i in order :: i < n)
            && (forall i: nat | i < n :: SumOf(order, IdIs(i)) == 1)
  {
    var n, base := |tasks[k].segments|, TaskBase(tasks, k);
    var p := After(c, Init(c), run);
    CleanShutdown(c, run);
    if n == 0 {
      WithinNothing(p.successes, base);
    } else {
      WithinCounts(p.successes, base, n, 0);
    }
    forall i: nat | i < n ensures SumOf(Within(p.successes, base, n), IdIs(i)) == 1 {
      TaskIds(tasks, k, i);
      WithinCounts(p.successes, base, n, i);
      assert SuccessesOf(p, base + i) == 1;
    }
  }

  lemma DecodedSizesAddUp(t: Task, parts: seq<Bytes>, listed: seq<nat>, outcomes: seq<Outcome>)
    requires |t.segments| == |listed| == |outcomes| == |parts|
    requires forall i: nat :: i < |listed| ==> Carries(t, parts, listed, outcomes, i)
    requires forall i: nat | i < |parts| :: SumOf(listed, IdIs(i)) == 1
    ensures SumOf(Range(|listed|), DataSize(outcomes)) == |Concat(parts)|
  {
    var n := |listed|;
    ListedSizes(t, parts, listed, outcomes, n);
    forall x | x in listed ensures x < |parts| {
      var i: nat :| i < n && listed[i] == x;
      assert Carries(t, parts, listed, outcomes, i);
    }
    PermutationSum(listed, |parts|, PartSize(parts));
    PartSizes(parts, |parts|);
    BytesWrittenIsTotal(parts);
    assert parts[..|parts|] == parts && listed[..n] == listed;
  }

  lemma {:induction false} WithinNothing(ids: seq<nat>, base: nat)
    ensures Within(ids, base, 0) == []
  {
    if ids != [] {
      WithinNothing(ids[..|ids| - 1], base);
    }
  }

  function PartSize(parts: seq<Bytes>): nat -> int {
    (k: nat) => if k < |parts| then |parts[k]| else 0
  }

  lemma {:induction false} PartSizes(parts: seq<Bytes>, n: nat)
    requires n <= |parts|
    ensures SumOf(Range(n), PartSize(parts)) == SumOf(parts[..n], ByteCount)
  {
    if n > 0 {
      PartSizes(parts, n - 1);
      assert Range(n) == Range(n - 1) + [n - 1] && parts[..n] == parts[..n - 1] + [parts[n - 1]];
      SumOfAppend<nat>(Range(n - 1), n - 1, PartSize(parts));
      SumOfAppend(parts[..n - 1], parts[n - 1], ByteCount);
    }
  }

  lemma {:induction false} ListedSizes(t: Task, parts: seq<Bytes>, listed: seq<nat>, outcomes: seq<Outcome>, n: nat)
    requires n <= |t.segments| == |listed| == |outcomes|
    requires forall i: nat :: i < |listed| ==> Carries(t, parts, listed, outcomes, i)
    ensures SumOf(Range(n), DataSize(outcomes)) == SumOf(listed[..n], PartSize(parts))
  {
    if n > 0 {
      ListedSizes(t, parts, listed, outcomes, n - 1);
      assert Carries(t, parts, listed, outcomes, n - 1);
      assert Range(n) == Range(n - 1) + [n - 1] && listed[..n] == listed[..n - 1] + [listed[n - 1]];
      SumOfAppend<nat>(Range(n - 1), n - 1, DataSize(outcomes));
      SumOfAppend<nat>(listed[..n - 1], listed[n - 1], PartSize(parts));
    }
  }
}
