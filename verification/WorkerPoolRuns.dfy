/** What every uncancelled run of the worker pool keeps, why it ends, and what cancellation can leave behind. */
module WorkerPoolRuns {
  import opened Common
  import opened WorkerPool

  // ---------------------------------------------------------------- what is counted

  function Is(id: nat): Job -> int {
    (j: Job) => if j.id == id then 1 else 0
  }

  function One(j: Job): int {
    1
  }

  function OverRetried(j: Job): int {
    if j.retryCount > MAX_RETRIES then 1 else 0
  }

  /** Errors a job may still return before it is given up. */
  function Budget(j: Job): int {
    MAX_RETRIES + 1 - j.retryCount
  }

  function RetriesOf(id: nat): Job -> int {
    (j: Job) => if j.id == id then j.retryCount else 0
  }

  function IdIs(id: nat): nat -> int {
    (i: nat) => if i == id then 1 else 0
  }

  function OkResult(id: nat): Result -> int {
    (r: Result) => if r.answer == Ok && r.job.id == id then 1 else 0
  }

  function OkWorker(id: nat): Worker -> int {
    (w: Worker) => if w.Sending? then OkResult(id)(w.result) else 0
  }

  function ErrorResult(id: nat): Result -> int {
    (r: Result) => if r.answer == Error && r.job.id == id then 1 else 0
  }

  function IsError(r: Result): int {
    if r.answer == Error then 1 else 0
  }

  function IsBusy(r: Result): int {
    if r.answer == Busy then 1 else 0
  }

  /** Errors a completed segment had returned. */
  function SpentOf(id: nat): Result -> int {
    (r: Result) => if r.job.id != id then 0
                   else if r.answer == Error then MAX_RETRIES + 1 else r.job.retryCount
  }

  /** In how many places segment `id` is: undispatched, queued, held, in the results, delayed or completed. */
  function Placed(p: Pool, id: nat): int {
    Live(p, Is(id)) + SumOf(p.completed, ResultJobs(Is(id)))
  }

  /** Successful replies for `id` that are on their way to the collector or already counted. */
  function OkAnswers(p: Pool, id: nat): int {
    SumOf(p.workers, OkWorker(id)) + SumOf(p.results, OkResult(id)) + SumOf(p.completed, OkResult(id))
  }

  function SuccessesOf(p: Pool, id: nat): int {
    SumOf(p.successes, IdIs(id))
  }

  function ErrorsOf(p: Pool, id: nat): int {
    SumOf(p.errors, IdIs(id))
  }

  function SpentBy(p: Pool, id: nat): int {
    Live(p, RetriesOf(id)) + SumOf(p.completed, SpentOf(id))
  }

  // ---------------------------------------------------------------- the invariant

  ghost predicate Shape(c: Config, p: Pool) {
    && c.Valid() && |p.workers| == c.WorkerCount()
    && |p.jobs| <= c.BufferSize() && |p.results| <= c.BufferSize()
    && !p.cancelled && !p.collector.Aborted?
  }

  ghost predicate Conserved(c: Config, p: Pool) {
    && (forall id: nat :: Placed(p, id) == if id < c.total then 1 else 0)
    && Live(p, One) + |p.completed| == c.total
    && (p.collector.Finished? <==> |p.completed| == c.total)
  }

  ghost predicate Budgeted(c: Config, p: Pool) {
    && Live(p, OverRetried) == 0 && SumOf(p.completed, ResultJobs(OverRetried)) == 0
    && p.otherResults + Live(p, Budget) <= (MAX_RETRIES + 1) * c.total
  }

  ghost predicate Recorded(p: Pool) {
    && (p.failed <==> SumOf(p.completed, IsError) > 0)
    && SumOf(p.completed, IsBusy) == 0
    && (forall id: nat :: SuccessesOf(p, id) == OkAnswers(p, id))
    && (forall id: nat :: ErrorsOf(p, id) == SpentBy(p, id))
  }

  ghost predicate Inv(c: Config, p: Pool) {
    Shape(c, p) && Conserved(c, p) && Budgeted(c, p) && Recorded(p)
  }

  lemma {:induction false} NonNegative<T(!new)>(s: seq<T>, f: T -> int)
    requires forall x :: f(x) >= 0
    ensures SumOf(s, f) >= 0
  {
    if s != [] {
      NonNegative(s[1..], f);
    }
  }

  lemma LiveNonNegative(p: Pool, f: Job -> int)
    requires forall j :: f(j) >= 0
    ensures Live(p, f) >= 0
    ensures p.results != [] ==> f(p.results[0].job) <= Live(p, f)
    ensures p.delayed != [] ==> 0 <= f(p.delayed[0]) <= Live(p, f)
  {
    forall w ensures WorkerJobs(f)(w) >= 0 {
      assert WorkerJob(w, f) >= 0;
    }
    forall r ensures ResultJobs(f)(r) >= 0 {
      assert f(r.job) >= 0;
    }
    NonNegative(p.undispatched, f);
    NonNegative(p.jobs, f);
    NonNegative(p.workers, WorkerJobs(f));
    NonNegative(p.results, ResultJobs(f));
    NonNegative(p.delayed, f);
    if p.results != [] {
      NonNegative(p.results[1..], ResultJobs(f));
    }
    if p.delayed != [] {
      NonNegative(p.delayed[1..], f);
    }
  }

  lemma ResultIsBounded(c: Config, p: Pool)
    requires Budgeted(c, p) && p.results != []
    ensures p.results[0].job.retryCount <= MAX_RETRIES
  {
    LiveNonNegative(p, OverRetried);
  }

  lemma {:induction false} LengthIsSum<T>(s: seq<T>, f: T -> int)
    requires forall x | x in s :: f(x) == 1
    ensures SumOf(s, f) == |s|
  {
    if s != [] {
      LengthIsSum(s[1..], f);
    }
  }

  /** Once everything is counted, nothing is in flight. */
  lemma NothingInFlight(c: Config, p: Pool)
    requires Shape(c, p) && Live(p, One) == 0
    ensures p.undispatched == [] && p.jobs == [] && p.results == [] && p.delayed == []
    ensures forall w | w in p.workers :: w.Idle? || w.Exited?
  {
    LengthIsSum(p.undispatched, One);
    LengthIsSum(p.jobs, One);
    forall r ensures ResultJobs(One)(r) == 1 {
      assert One(r.job) == 1;
    }
    LengthIsSum(p.results, ResultJobs(One));
    LengthIsSum(p.delayed, One);
    HolderIsCounted(p.workers);
  }

  lemma {:induction false} HolderIsCounted(workers: seq<Worker>)
    ensures SumOf(workers, WorkerJobs(One)) >= 0
    ensures SumOf(workers, WorkerJobs(One)) == 0 ==> forall w | w in workers :: w.Idle? || w.Exited?
  {
    if workers != [] {
      HolderIsCounted(workers[1..]);
      assert WorkerJobs(One)(workers[0]) == WorkerJob(workers[0], One);
    }
  }

  // ---------------------------------------------------------------- every step keeps it

  lemma StepKeepsShape(c: Config, p: Pool, step: Step)
    requires Inv(c, p) && Enabled(c, p, step) && !step.Cancel?
    ensures Shape(c, Next(c, p, step))
    ensures !step.DropDelayed?
  {
    if p.collector.Finished? {
      NothingInFlight(c, p);
    }
  }

  /** Everything but the collector leaves the records of consumed results alone. */
  lemma OnlyCollectRecords(c: Config, p: Pool, step: Step)
    requires Enabled(c, p, step) && !step.Collect?
    ensures var q := Next(c, p, step);
            && q.completed == p.completed && q.errors == p.errors && q.failed == p.failed
            && q.busyResults == p.busyResults && q.otherResults == p.otherResults
  {
  }

  lemma PlacedByCollect(c: Config, p: Pool, id: nat)
    requires p.results != []
    ensures Placed(Collected(c, p), id) == Placed(p, id)
  {
    var r := p.results[0];
    assert Is(id)(r.job.(retryCount := r.job.retryCount + 1)) == Is(id)(r.job) == ResultJobs(Is(id))(r);
    LiveCollected(c, p, Is(id));
    SumOfAppend(p.completed, r, ResultJobs(Is(id)));
  }

  lemma PlacedStep(c: Config, p: Pool, step: Step, id: nat)
    requires Enabled(c, p, step) && !step.DropDelayed?
    ensures Placed(Next(c, p, step), id) == Placed(p, id)
  {
    if step.Collect? {
      PlacedByCollect(c, p, id);
    } else {
      OnlyCollectRecords(c, p, step);
      LiveStep(c, p, step, Is(id));
    }
  }

  lemma StepKeepsConserved(c: Config, p: Pool, step: Step)
    requires Inv(c, p) && Enabled(c, p, step) && !step.Cancel?
    ensures Conserved(c, Next(c, p, step))
  {
    var q := Next(c, p, step);
    StepKeepsShape(c, p, step);
    forall id: nat ensures Placed(q, id) == if id < c.total then 1 else 0 {
      assert Placed(p, id) == if id < c.total then 1 else 0;
      PlacedStep(c, p, step, id);
    }
    LiveStep(c, p, step, One);
    LiveNonNegative(q, One);
  }

  lemma StepKeepsBudgeted(c: Config, p: Pool, step: Step)
    requires Inv(c, p) && Enabled(c, p, step) && !step.Cancel?
    ensures Budgeted(c, Next(c, p, step))
  {
    StepKeepsShape(c, p, step);
    LiveStep(c, p, step, OverRetried);
    LiveStep(c, p, step, Budget);
    if step.Collect? {
      ResultIsBounded(c, p);
      SumOfAppend(p.completed, p.results[0], ResultJobs(OverRetried));
    } else {
      OnlyCollectRecords(c, p, step);
    }
  }

  lemma SpentByCollect(c: Config, p: Pool, id: nat)
    requires p.results != [] && p.results[0].job.retryCount <= MAX_RETRIES
    ensures ErrorsOf(Collected(c, p), id) - ErrorsOf(p, id) == SpentBy(Collected(c, p), id) - SpentBy(p, id)
  {
    LiveCollected(c, p, RetriesOf(id));
    ErrorsByCollect(c, p, id);
    CompletedByCollect(c, p, SpentOf(id));
  }

  lemma ErrorsByCollect(c: Config, p: Pool, id: nat)
    requires p.results != []
    ensures var r := p.results[0];
            ErrorsOf(Collected(c, p), id) == ErrorsOf(p, id) + if r.answer == Error && r.job.id == id then 1 else 0
  {
    SumOfAppend(p.errors, p.results[0].job.id, IdIs(id));
  }

  lemma CompletedByCollect(c: Config, p: Pool, f: Result -> int)
    requires p.results != []
    ensures var r := p.results[0];
            SumOf(Collected(c, p).completed, f)
            == SumOf(p.completed, f)
             + if r.answer == Busy || (r.answer == Error && r.job.retryCount < MAX_RETRIES) then 0 else f(r)
  {
    SumOfAppend(p.completed, p.results[0], f);
  }

  lemma SpentStep(c: Config, p: Pool, step: Step, id: nat)
    requires Enabled(c, p, step) && !step.DropDelayed?
    requires step.Collect? ==> p.results[0].job.retryCount <= MAX_RETRIES
    ensures ErrorsOf(Next(c, p, step), id) - ErrorsOf(p, id) == SpentBy(Next(c, p, step), id) - SpentBy(p, id)
  {
    if step.Collect? {
      SpentByCollect(c, p, id);
    } else {
      OnlyCollectRecords(c, p, step);
      LiveStep(c, p, step, RetriesOf(id));
    }
  }

  lemma StepKeepsRecorded(c: Config, p: Pool, step: Step)
    requires Inv(c, p) && Enabled(c, p, step) && !step.Cancel?
    ensures Recorded(Next(c, p, step))
  {
    var q := Next(c, p, step);
    StepKeepsShape(c, p, step);
    if step.Collect? {
      ResultIsBounded(c, p);
      SumOfAppend(p.completed, p.results[0], IsError);
      SumOfAppend(p.completed, p.results[0], IsBusy);
      NonNegative(p.completed, IsError);
    }
    forall id: nat ensures SuccessesOf(q, id) == OkAnswers(q, id) {
      assert SuccessesOf(p, id) == OkAnswers(p, id);
      OkAnswersStep(c, p, step, id);
    }
    forall id: nat ensures ErrorsOf(q, id) == SpentBy(q, id) {
      assert ErrorsOf(p, id) == SpentBy(p, id);
      SpentStep(c, p, step, id);
    }
  }

  lemma OkAnswersStep(c: Config, p: Pool, step: Step, id: nat)
    requires Enabled(c, p, step)
    ensures SuccessesOf(Next(c, p, step), id) - SuccessesOf(p, id) == OkAnswers(Next(c, p, step), id) - OkAnswers(p, id)
  {
    if step.Collect? {
      SumOfAppend(p.completed, p.results[0], OkResult(id));
    } else if step.Take? || step.Reply? || step.Send? || step.WorkerExit? {
      OkWorkerStep(c, p, step, id);
    }
  }

  lemma OkWorkerStep(c: Config, p: Pool, step: Step, id: nat)
    requires Enabled(c, p, step) && (step.Take? || step.Reply? || step.Send? || step.WorkerExit?)
    ensures SuccessesOf(Next(c, p, step), id) - SuccessesOf(p, id) == OkAnswers(Next(c, p, step), id) - OkAnswers(p, id)
  {
    SumOfUpdate(p.workers, step.w, Next(c, p, step).workers[step.w], OkWorker(id));
    if step.Reply? {
      SumOfAppend(p.successes, p.workers[step.w].job.id, IdIs(id));
    } else if step.Send? {
      SumOfAppend(p.results, p.workers[step.w].result, OkResult(id));
    }
  }

  lemma StepKeepsInv(c: Config, p: Pool, step: Step)
    requires Inv(c, p) && Enabled(c, p, step) && !step.Cancel?
    ensures Inv(c, Next(c, p, step))
  {
    StepKeepsShape(c, p, step);
    StepKeepsConserved(c, p, step);
    StepKeepsBudgeted(c, p, step);
    StepKeepsRecorded(c, p, step);
  }

  lemma {:induction false} InitialSums(n: nat, id: nat)
    ensures SumOf(InitialJobs(n), Is(id)) == if id < n then 1 else 0
    ensures SumOf(InitialJobs(n), One) == n
    ensures SumOf(InitialJobs(n), OverRetried) == 0
    ensures SumOf(InitialJobs(n), Budget) == (MAX_RETRIES + 1) * n
    ensures SumOf(InitialJobs(n), RetriesOf(id)) == 0
  {
    if n > 0 {
      assert InitialJobs(n) == InitialJobs(n - 1) + [Job(n - 1, 0)];
      InitialSums(n - 1, id);
      SumOfAppend(InitialJobs(n - 1), Job(n - 1, 0), Is(id));
      SumOfAppend(InitialJobs(n - 1), Job(n - 1, 0), One);
      SumOfAppend(InitialJobs(n - 1), Job(n - 1, 0), OverRetried);
      SumOfAppend(InitialJobs(n - 1), Job(n - 1, 0), Budget);
      SumOfAppend(InitialJobs(n - 1), Job(n - 1, 0), RetriesOf(id));
    }
  }

  lemma {:induction false} SumOfZeros<T>(s: seq<T>, f: T -> int)
    requires forall x | x in s :: f(x) == 0
    ensures SumOf(s, f) == 0
  {
    if s != [] {
      SumOfZeros(s[1..], f);
    }
  }

  lemma InitHolds(c: Config)
    requires c.Valid()
    ensures Inv(c, Init(c))
  {
    var p := Init(c);
    InitialSums(c.total, 0);
    SumOfZeros(p.workers, WorkerJobs(One));
    SumOfZeros(p.workers, WorkerJobs(OverRetried));
    SumOfZeros(p.workers, WorkerJobs(Budget));
    forall id: nat ensures Placed(p, id) == if id < c.total then 1 else 0 {
      InitialSums(c.total, id);
      SumOfZeros(p.workers, WorkerJobs(Is(id)));
    }
    forall id: nat ensures SuccessesOf(p, id) == OkAnswers(p, id) && ErrorsOf(p, id) == SpentBy(p, id) {
      InitialSums(c.total, id);
      SumOfZeros(p.workers, OkWorker(id));
      SumOfZeros(p.workers, WorkerJobs(RetriesOf(id)));
    }
  }

  predicate Uncancelled(run: seq<Step>) {
    Cancel !in run
  }

  lemma {:induction false} RunKeepsInv(c: Config, p: Pool, run: seq<Step>)
    requires Inv(c, p) && ValidRun(c, p, run) && Uncancelled(run)
    ensures Inv(c, After(c, p, run))
    decreases |run|
  {
    if run != [] {
      StepKeepsInv(c, p, run[0]);
      RunKeepsInv(c, Next(c, p, run[0]), run[1..]);
    }
  }

  // ---------------------------------------------------------------- theorems about uncancelled runs

  /** In every reachable uncancelled state each segment is in exactly one place. */
  lemma EverySegmentInOnePlace(c: Config, run: seq<Step>, id: nat)
    requires c.Valid() && ValidRun(c, Init(c), run) && Uncancelled(run)
    ensures Placed(After(c, Init(c), run), id) == if id < c.total then 1 else 0
  {
    InitHolds(c);
    RunKeepsInv(c, Init(c), run);
  }

  /** When the collector leaves its loop, nothing is in a channel and no worker holds a job, so waiting for the workers
      cannot block; every segment has then succeeded exactly once or has returned exactly four errors that count, and
      the pool's own error says whether the latter happened. */
  lemma CleanShutdown(c: Config, run: seq<Step>)
    requires c.Valid() && ValidRun(c, Init(c), run) && Uncancelled(run)
    requires After(c, Init(c), run).collector.Finished?
    ensures var p := After(c, Init(c), run);
            && p.undispatched == [] && p.jobs == [] && p.results == [] && p.delayed == []
            && (forall w | w in p.workers :: w.Idle? || w.Exited?)
            && (forall id: nat | id < c.total ::
                  if SuccessesOf(p, id) == 0 then ErrorsOf(p, id) == 4
                  else SuccessesOf(p, id) == 1 && ErrorsOf(p, id) <= 3)
            && (!p.failed <==> forall id: nat | id < c.total :: SuccessesOf(p, id) == 1)
  {
    InitHolds(c);
    RunKeepsInv(c, Init(c), run);
    var p := After(c, Init(c), run);
    NothingInFlight(c, p);
    forall id: nat | id < c.total
      ensures if SuccessesOf(p, id) == 0 then ErrorsOf(p, id) == MAX_RETRIES + 1
              else SuccessesOf(p, id) == 1 && ErrorsOf(p, id) <= MAX_RETRIES
      ensures SuccessesOf(p, id) == 0 ==> p.failed
    {
      FinishedSegment(c, p, id);
    }
    if p.failed {
      var id := SomeError(p.completed);
      FinishedSegment(c, p, id);
      assert id < c.total && SuccessesOf(p, id) == 0;
    }
  }

  /** At the end a segment's completed results account for all that is recorded about it. */
  lemma FinishedSegment(c: Config, p: Pool, id: nat)
    requires Inv(c, p)
    requires p.undispatched == [] && p.jobs == [] && p.results == [] && p.delayed == []
    requires forall w | w in p.workers :: w.Idle? || w.Exited?
    ensures SuccessesOf(p, id) + SumOf(p.completed, ErrorResult(id)) == if id < c.total then 1 else 0
    ensures 0 <= SuccessesOf(p, id) && 0 <= SumOf(p.completed, ErrorResult(id)) <= SumOf(p.completed, IsError)
    ensures 4 * SumOf(p.completed, ErrorResult(id)) <= ErrorsOf(p, id)
            <= 4 * SumOf(p.completed, ErrorResult(id)) + 3 * SuccessesOf(p, id)
  {
    SumOfZeros(p.workers, WorkerJobs(Is(id)));
    SumOfZeros(p.workers, WorkerJobs(RetriesOf(id)));
    SumOfZeros(p.workers, OkWorker(id));
    assert Placed(p, id) == if id < c.total then 1 else 0;
    assert SuccessesOf(p, id) == OkAnswers(p, id) && ErrorsOf(p, id) == SpentBy(p, id);
    SplitByAnswer(p.completed, id);
  }

  lemma {:induction false} SplitByAnswer(completed: seq<Result>, id: nat)
    requires SumOf(completed, IsBusy) == 0 && SumOf(completed, ResultJobs(OverRetried)) == 0
    ensures SumOf(completed, ResultJobs(Is(id))) == SumOf(completed, OkResult(id)) + SumOf(completed, ErrorResult(id))
    ensures 0 <= SumOf(completed, OkResult(id))
    ensures 0 <= SumOf(completed, ErrorResult(id)) <= SumOf(completed, IsError)
    ensures 4 * SumOf(completed, ErrorResult(id)) <= SumOf(completed, SpentOf(id))
            <= 4 * SumOf(completed, ErrorResult(id)) + 3 * SumOf(completed, OkResult(id))
  {
    if completed != [] {
      var r, rest := completed[0], completed[1..];
      forall x ensures ResultJobs(OverRetried)(x) >= 0 {
        assert OverRetried(x.job) >= 0;
      }
      NonNegative(rest, IsBusy);
      NonNegative(rest, ResultJobs(OverRetried));
      assert ResultJobs(OverRetried)(r) == OverRetried(r.job);
      SplitByAnswer(rest, id);
    }
  }

  lemma {:induction false} SomeError(completed: seq<Result>) returns (id: nat)
    requires SumOf(completed, IsError) > 0
    ensures SumOf(completed, ErrorResult(id)) > 0
  {
    if completed[0].answer == Error {
      id := completed[0].job.id;
      NonNegative(completed[1..], ErrorResult(id));
    } else {
      id := SomeError(completed[1..]);
    }
  }

  // ---------------------------------------------------------------- progress

  /** Until the last segment is counted some step of the dispatcher, a worker, the collector or a requeue can run,
      however full the two channels are. */
  lemma Progress(c: Config, run: seq<Step>) returns (step: Step)
    requires c.Valid() && ValidRun(c, Init(c), run) && Uncancelled(run)
    requires After(c, Init(c), run).collector.Collecting?
    ensures Enabled(c, After(c, Init(c), run), step)
    ensures step.Dispatch? || step.Take? || step.Reply? || step.Send? || step.Collect? || step.Requeue?
  {
    InitHolds(c);
    RunKeepsInv(c, Init(c), run);
    RunStopsNobody(c, Init(c), run);
    var p := After(c, Init(c), run);
    if p.results != [] {
      step := Collect;
    } else if w: nat :| w < |p.workers| && p.workers[w].Sending? {
      step := Send(w);
    } else if w: nat :| w < |p.workers| && p.workers[w].Processing? {
      step := Reply(w, Ok);
    } else if p.jobs != [] {
      assert p.workers[0].Idle?;
      step := Take(0);
    } else {
      SumOfZeros(p.workers, WorkerJobs(One));
      step := if p.undispatched != [] then Dispatch else Requeue(0);
    }
  }

  ghost predicate Running(p: Pool) {
    !p.cancelled && !p.dispatcherStopped && forall w | w in p.workers :: !w.Exited?
  }

  lemma {:induction false} RunStopsNobody(c: Config, p: Pool, run: seq<Step>)
    requires Inv(c, p) && ValidRun(c, p, run) && Uncancelled(run)
    requires Running(p) && After(c, p, run).collector.Collecting?
    ensures Running(After(c, p, run)) && p.collector.Collecting?
    decreases |run|
  {
    if run != [] {
      StepKeepsInv(c, p, run[0]);
      if p.collector.Finished? {
        StaysFinished(c, p, run);
      } else {
        RunStopsNobody(c, Next(c, p, run[0]), run[1..]);
      }
    }
  }

  lemma {:induction false} StaysFinished(c: Config, p: Pool, run: seq<Step>)
    requires ValidRun(c, p, run) && p.collector.Finished?
    ensures After(c, p, run).collector.Finished?
    decreases |run|
  {
    if run != [] {
      StaysFinished(c, Next(c, p, run[0]), run[1..]);
    }
  }

  /** How far every job in flight has come since it was dispatched or requeued, plus the goroutines that have ended. */
  function Advancement(p: Pool): int {
    |p.jobs| + SumOf(p.workers, WorkerStage) + 4 * |p.results| + if p.dispatcherStopped then 1 else 0
  }

  function WorkerStage(w: Worker): int {
    match w
    case Idle => 0
    case Processing(_) => 2
    case Sending(_) => 3
    case Exited => 1
  }

  lemma AdvancementStep(c: Config, p: Pool, step: Step)
    requires Enabled(c, p, step) && !step.Cancel? && !step.Abort? && !step.DropDelayed?
    ensures var q := Next(c, p, step);
            Advancement(q) - Advancement(p) == 1 - 5 * (q.busyResults + q.otherResults - p.busyResults - p.otherResults)
  {
    if step.Take? || step.Reply? || step.Send? || step.WorkerExit? {
      WorkerAdvances(c, p, step);
    } else if step.Collect? {
      CollectorAdvances(c, p);
    }
  }

  lemma WorkerAdvances(c: Config, p: Pool, step: Step)
    requires Enabled(c, p, step) && (step.Take? || step.Reply? || step.Send? || step.WorkerExit?)
    ensures Advancement(Next(c, p, step)) - Advancement(p) == 1
    ensures Next(c, p, step).busyResults == p.busyResults && Next(c, p, step).otherResults == p.otherResults
  {
    SumOfUpdate(p.workers, step.w, Next(c, p, step).workers[step.w], WorkerStage);
  }

  lemma CollectorAdvances(c: Config, p: Pool)
    requires p.results != []
    ensures Advancement(Collected(c, p)) - Advancement(p) == -4
    ensures Collected(c, p).busyResults + Collected(c, p).otherResults == p.busyResults + p.otherResults + 1
  {
  }

  lemma {:induction false} RunLength(c: Config, p: Pool, run: seq<Step>)
    requires Inv(c, p) && ValidRun(c, p, run) && Uncancelled(run)
    ensures var q := After(c, p, run);
            |run| == Advancement(q) - Advancement(p) + 5 * (q.busyResults + q.otherResults - p.busyResults - p.otherResults)
    decreases |run|
  {
    if run != [] {
      StepKeepsShape(c, p, run[0]);
      StepKeepsInv(c, p, run[0]);
      AdvancementStep(c, p, run[0]);
      RunLength(c, Next(c, p, run[0]), run[1..]);
    }
  }

  /** At most four results that count are consumed per segment, and a run can go on only by collecting busy results:
      its length is bounded by them and the pool's size. */
  lemma OnlyBusyResultsProlongARun(c: Config, run: seq<Step>)
    requires c.Valid() && ValidRun(c, Init(c), run) && Uncancelled(run)
    ensures var p := After(c, Init(c), run);
            && p.otherResults <= 4 * c.total
            && |run| <= 5 * p.busyResults + 20 * c.total + 13 * c.WorkerCount() + 1
  {
    InitHolds(c);
    RunKeepsInv(c, Init(c), run);
    RunLength(c, Init(c), run);
    AdvancementBounds(c, After(c, Init(c), run));
    LiveBudget(After(c, Init(c), run));
    SumOfZeros(Init(c).workers, WorkerStage);
  }

  lemma AdvancementBounds(c: Config, p: Pool)
    requires Shape(c, p)
    ensures Advancement(p) <= 13 * c.WorkerCount() + 1
  {
    SumOfBound(p.workers, WorkerStage, 0, 3);
  }

  lemma LiveBudget(p: Pool)
    requires Live(p, OverRetried) == 0
    ensures Live(p, Budget) >= 0
  {
    BudgetBound(p.undispatched);
    BudgetBound(p.jobs);
    BudgetBound(p.delayed);
    WorkerBudgetBound(p.workers);
    ResultBudgetBound(p.results);
  }

  lemma {:induction false} BudgetBound(s: seq<Job>)
    ensures SumOf(s, OverRetried) >= 0
    ensures SumOf(s, OverRetried) == 0 ==> SumOf(s, Budget) >= 0
  {
    if s != [] {
      BudgetBound(s[1..]);
    }
  }

  lemma {:induction false} WorkerBudgetBound(s: seq<Worker>)
    ensures SumOf(s, WorkerJobs(OverRetried)) >= 0
    ensures SumOf(s, WorkerJobs(OverRetried)) == 0 ==> SumOf(s, WorkerJobs(Budget)) >= 0
  {
    if s != [] {
      WorkerBudgetBound(s[1..]);
      assert WorkerJobs(OverRetried)(s[0]) == WorkerJob(s[0], OverRetried);
      assert WorkerJobs(Budget)(s[0]) == WorkerJob(s[0], Budget);
    }
  }

  lemma {:induction false} ResultBudgetBound(s: seq<Result>)
    ensures SumOf(s, ResultJobs(OverRetried)) >= 0
    ensures SumOf(s, ResultJobs(OverRetried)) == 0 ==> SumOf(s, ResultJobs(Budget)) >= 0
  {
    if s != [] {
      ResultBudgetBound(s[1..]);
      assert ResultJobs(OverRetried)(s[0]) == OverRetried(s[0].job);
      assert ResultJobs(Budget)(s[0]) == Budget(s[0].job);
    }
  }
}
