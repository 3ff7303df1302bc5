/** After a cancellation the collector is gone and a worker's send has no way out: exactly when a worker can be left
    blocked for ever. */
module WorkerPoolCancellation {
  import opened Common
  import opened WorkerPool
  import opened WorkerPoolRuns

  /** The worker holds a result, the results channel is full and nobody receives from it any more. */
  predicate Stranded(c: Config, p: Pool, w: nat) {
    w < |p.workers| && p.workers[w].Sending? && |p.results| >= c.BufferSize() && p.collector.Aborted?
  }

  /** No continuation frees a stranded worker. */
  lemma {:induction false} StrandedForEver(c: Config, p: Pool, w: nat, run: seq<Step>)
    requires Stranded(c, p, w) && ValidRun(c, p, run)
    ensures Stranded(c, After(c, p, run), w) && After(c, p, run).workers[w] == p.workers[w]
    decreases |run|
  {
    if run != [] {
      StrandedForEver(c, Next(c, p, run[0]), w, run[1..]);
    }
  }

  predicate Strands(c: Config, run: seq<Step>, w: nat) {
    ValidRun(c, Init(c), run) && Stranded(c, After(c, Init(c), run), w)
  }

  /** A cancelled run can strand a worker exactly when there are more segments than places in the results channel. */
  lemma CancellationCanStrandAWorker(c: Config)
    requires c.Valid()
    ensures (exists run, w :: Strands(c, run, w)) <==> c.total > 2 * (c.capacity + 2)
  {
    if run, w :| Strands(c, run, w) {
      InitialSums(c.total, 0);
      SumOfZeros(Init(c).workers, WorkerJobs(One));
      RunKeepsAtMostAll(c, Init(c), run);
      StrandedIsCounted(After(c, Init(c), run), w);
    }
    if c.total > c.BufferSize() {
      var run := FillingRun(c);
      assert Strands(c, run, 0);
    }
  }

  // ---------------------------------------------------------------- only then

  ghost predicate AtMostAll(c: Config, p: Pool) {
    Live(p, One) + |p.completed| <= c.total
  }

  lemma {:induction false} RunKeepsAtMostAll(c: Config, p: Pool, run: seq<Step>)
    requires AtMostAll(c, p) && ValidRun(c, p, run)
    ensures AtMostAll(c, After(c, p, run))
    decreases |run|
  {
    if run != [] {
      LiveStep(c, p, run[0], One);
      if !run[0].Collect? {
        OnlyCollectRecords(c, p, run[0]);
      }
      RunKeepsAtMostAll(c, Next(c, p, run[0]), run[1..]);
    }
  }

  lemma StrandedIsCounted(p: Pool, w: nat)
    requires w < |p.workers| && p.workers[w].Sending?
    ensures Live(p, One) >= |p.results| + 1
  {
    forall r ensures ResultJobs(One)(r) == 1 {
      assert One(r.job) == 1;
    }
    LengthIsSum(p.results, ResultJobs(One));
    NonNegative(p.undispatched, One);
    NonNegative(p.jobs, One);
    NonNegative(p.delayed, One);
    SenderIsCounted(p.workers, w);
  }

  lemma {:induction false} SenderIsCounted(workers: seq<Worker>, w: nat)
    requires w < |workers| && workers[w].Sending?
    ensures SumOf(workers, WorkerJobs(One)) >= 1
  {
    HolderIsCounted(workers[1..]);
    assert WorkerJobs(One)(workers[0]) == WorkerJob(workers[0], One);
    if w > 0 {
      SenderIsCounted(workers[1..], w - 1);
    }
  }

  // ---------------------------------------------------------------- then

  /** The first worker has handled `k` jobs and the collector none. */
  function Pumped(c: Config, k: nat): Pool
    requires k <= c.total
  {
    Init(c).(undispatched := InitialJobs(c.total)[k..],
             results := seq(k, i requires 0 <= i < k => Result(Job(i, 0), Ok)),
             successes := seq(k, i requires 0 <= i < k => i))
  }

  const PUMP: seq<Step> := [Dispatch, Take(0), Reply(0, Ok), Send(0)]

  lemma PumpOne(c: Config, k: nat)
    requires c.Valid() && k < c.total && k < c.BufferSize()
    ensures ValidRun(c, Pumped(c, k), PUMP) && After(c, Pumped(c, k), PUMP) == Pumped(c, k + 1)
  {
    var job := Job(k, 0);
    var p0 := Pumped(c, k);
    assert p0.undispatched[0] == job && p0.undispatched[1..] == Pumped(c, k + 1).undispatched;
    var p1 := Next(c, p0, Dispatch);
    assert p1.jobs == [job];
    var p2 := Next(c, p1, Take(0));
    assert p2.jobs == [] && p2.workers[0] == Processing(job);
    var p3 := Next(c, p2, Reply(0, Ok));
    var p4 := Next(c, p3, Send(0));
    assert p4.workers == Init(c).workers;
    assert p4.results == Pumped(c, k + 1).results && p4.successes == Pumped(c, k + 1).successes;
    assert PUMP[1..] == [Take(0), Reply(0, Ok), Send(0)] && PUMP[1..][1..] == [Reply(0, Ok), Send(0)];
    assert PUMP[1..][1..][1..] == [Send(0)] && PUMP[1..][1..][1..][1..] == [];
    assert After(c, p3, [Send(0)]) == p4;
    assert After(c, p2, [Reply(0, Ok), Send(0)]) == p4;
    assert After(c, p1, [Take(0), Reply(0, Ok), Send(0)]) == p4;
  }

  lemma {:induction false} RunThenRun(c: Config, p: Pool, a: seq<Step>, b: seq<Step>)
    requires ValidRun(c, p, a) && ValidRun(c, After(c, p, a), b)
    ensures ValidRun(c, p, a + b) && After(c, p, a + b) == After(c, After(c, p, a), b)
    decreases |a|
  {
    if a == [] {
      assert a + b == b;
    } else {
      assert (a + b)[1..] == a[1..] + b;
      RunThenRun(c, Next(c, p, a[0]), a[1..], b);
    }
  }

  lemma {:induction false} PumpMany(c: Config, k: nat) returns (run: seq<Step>)
    requires c.Valid() && k <= c.total && k <= c.BufferSize()
    ensures ValidRun(c, Init(c), run) && After(c, Init(c), run) == Pumped(c, k)
  {
    if k == 0 {
      run := [];
      assert InitialJobs(c.total)[0..] == InitialJobs(c.total);
    } else {
      run := PumpMany(c, k - 1);
      PumpOne(c, k - 1);
      RunThenRun(c, Init(c), run, PUMP);
      run := run + PUMP;
    }
  }

  lemma FillingRun(c: Config) returns (run: seq<Step>)
    requires c.Valid() && c.total > c.BufferSize()
    ensures Strands(c, run, 0)
  {
    run := PumpMany(c, c.BufferSize());
    var last := [Dispatch, Take(0), Reply(0, Ok), Cancel, Abort];
    var p0 := Pumped(c, c.BufferSize());
    var p1 := Next(c, p0, Dispatch);
    var p2 := Next(c, p1, Take(0));
    var p3 := Next(c, p2, Reply(0, Ok));
    var p4 := Next(c, p3, Cancel);
    var p5 := Next(c, p4, Abort);
    assert last[1..] == [Take(0), Reply(0, Ok), Cancel, Abort] && last[1..][1..] == [Reply(0, Ok), Cancel, Abort];
    assert last[1..][1..][1..] == [Cancel, Abort] && last[1..][1..][1..][1..] == [Abort];
    assert last[1..][1..][1..][1..][1..] == [];
    assert After(c, p4, [Abort]) == p5;
    assert After(c, p3, [Cancel, Abort]) == p5;
    assert After(c, p2, [Reply(0, Ok), Cancel, Abort]) == p5;
    assert After(c, p1, [Take(0), Reply(0, Ok), Cancel, Abort]) == p5;
    RunThenRun(c, Init(c), run, last);
    run := run + last;
  }
}
