/** The download worker pool as a step relation: dispatcher, workers, collector and delayed requeues over two bounded
    channels, under every interleaving. */
module WorkerPool {
  import opened Common

  /** A segment in flight; `id` is its place in dispatch order. */
  datatype Job = Job(id: nat, retryCount: nat)

  /** How processing a segment came out: done, no connection free, or any other error. */
  datatype Answer = Ok | Busy | Error

  datatype Result = Result(job: Job, answer: Answer)

  datatype Worker = Idle | Processing(job: Job) | Sending(result: Result) | Exited

  /** Aborted: the collector returned the context's error without waiting for the workers. */
  datatype Collector = Collecting | Finished | Aborted

  datatype Config = Config(total: nat, capacity: nat)
  {
    predicate Valid() {
      total > 0 && capacity > 0
    }

    function WorkerCount(): nat {
      capacity + 2
    }

    function BufferSize(): nat {
      WorkerCount() * 2
    }
  }

  /** The last four fields are history: the order of successes, the ids of the errors collected, and result counts. */
  datatype Pool = Pool(
    undispatched: seq<Job>, jobs: seq<Job>, workers: seq<Worker>, results: seq<Result>, delayed: seq<Job>,
    completed: seq<Result>, failed: bool, collector: Collector, cancelled: bool, dispatcherStopped: bool,
    successes: seq<nat>, errors: seq<nat>, busyResults: nat, otherResults: nat)
  {
    predicate WorkersCancelled() {
      cancelled || collector != Collecting
    }
  }

  const MAX_RETRIES := 3

  function InitialJobs(total: nat): seq<Job> {
    seq(total, i requires 0 <= i < total => Job(i, 0))
  }

  function Init(c: Config): Pool {
    Pool(InitialJobs(c.total), [], seq(c.WorkerCount(), _ => Idle), [], [], [], false, Collecting, false, false,
         [], [], 0, 0)
  }

  datatype Step =
    | Dispatch
    | Take(w: nat)
    | Reply(w: nat, answer: Answer)
    | Send(w: nat)
    | Collect
    | Requeue(i: nat)
    | Cancel
    | Abort
    | WorkerExit(w: nat)
    | DispatcherStop
    | DropDelayed(i: nat)

  predicate Enabled(c: Config, p: Pool, step: Step) {
    match step
    case Dispatch => !p.dispatcherStopped && p.undispatched != [] && |p.jobs| < c.BufferSize()
    case Take(w) => w < |p.workers| && p.workers[w].Idle? && p.jobs != []
    case Reply(w, _) => w < |p.workers| && p.workers[w].Processing?
    case Send(w) => w < |p.workers| && p.workers[w].Sending? && |p.results| < c.BufferSize()
    case Collect => p.collector.Collecting? && p.results != []
    case Requeue(i) => i < |p.delayed| && |p.jobs| < c.BufferSize()
    case Cancel => !p.cancelled
    case Abort => p.collector.Collecting? && p.cancelled
    case WorkerExit(w) => w < |p.workers| && p.workers[w].Idle? && p.WorkersCancelled()
    case DispatcherStop => !p.dispatcherStopped && p.WorkersCancelled()
    case DropDelayed(i) => i < |p.delayed| && p.WorkersCancelled()
  }

  function Remove<T>(s: seq<T>, i: nat): seq<T>
    requires i < |s|
  {
    s[..i] + s[i + 1..]
  }

  /** The collector's reaction to the oldest result. */
  function Collected(c: Config, p: Pool): Pool
    requires p.results != []
  {
    var r := p.results[0];
    var q := p.(results := p.results[1..]);
    if r.answer == Busy then
      q.(delayed := q.delayed + [r.job], busyResults := q.busyResults + 1)
    else if r.answer == Error && r.job.retryCount < MAX_RETRIES then
      q.(delayed := q.delayed + [r.job.(retryCount := r.job.retryCount + 1)],
         errors := q.errors + [r.job.id],
         otherResults := q.otherResults + 1)
    else
      q.(completed := q.completed + [r],
         failed := q.failed || r.answer == Error,
         collector := if |q.completed| + 1 < c.total then Collecting else Finished,
         errors := if r.answer == Error then q.errors + [r.job.id] else q.errors,
         otherResults := q.otherResults + 1)
  }

  function Next(c: Config, p: Pool, step: Step): Pool
    requires Enabled(c, p, step)
  {
    match step
    case Dispatch => p.(undispatched := p.undispatched[1..], jobs := p.jobs + [p.undispatched[0]])
    case Take(w) => p.(jobs := p.jobs[1..], workers := p.workers[w := Processing(p.jobs[0])])
    case Reply(w, answer) =>
      var job := p.workers[w].job;
      p.(workers := p.workers[w := Sending(Result(job, answer))],
         successes := if answer == Ok then p.successes + [job.id] else p.successes)
    case Send(w) => p.(workers := p.workers[w := Idle], results := p.results + [p.workers[w].result])
    case Collect => Collected(c, p)
    case Requeue(i) => p.(delayed := Remove(p.delayed, i), jobs := p.jobs + [p.delayed[i]])
    case Cancel => p.(cancelled := true)
    case Abort => p.(collector := Aborted)
    case WorkerExit(w) => p.(workers := p.workers[w := Exited])
    case DispatcherStop => p.(dispatcherStopped := true)
    case DropDelayed(i) => p.(delayed := Remove(p.delayed, i))
  }

  /** A run is valid from `p` when each of its steps is enabled where it is taken. */
  predicate ValidRun(c: Config, p: Pool, run: seq<Step>)
    decreases |run|
  {
    run != [] ==> Enabled(c, p, run[0]) && ValidRun(c, Next(c, p, run[0]), run[1..])
  }

  function After(c: Config, p: Pool, run: seq<Step>): Pool
    requires ValidRun(c, p, run)
    decreases |run|
  {
    if run == [] then p else After(c, Next(c, p, run[0]), run[1..])
  }

  // ---------------------------------------------------------------- sums over the jobs in flight

  function WorkerJob(w: Worker, f: Job -> int): int {
    match w
    case Processing(job) => f(job)
    case Sending(r) => f(r.job)
    case _ => 0
  }

  function WorkerJobs(f: Job -> int): Worker -> int {
    (w: Worker) => WorkerJob(w, f)
  }

  function ResultJobs(f: Job -> int): Result -> int {
    (r: Result) => f(r.job)
  }

  /** `f` summed over every job that is not completed, wherever it is. */
  function Live(p: Pool, f: Job -> int): int {
    SumOf(p.undispatched, f) + SumOf(p.jobs, f) + SumOf(p.workers, WorkerJobs(f)) +
    SumOf(p.results, ResultJobs(f)) + SumOf(p.delayed, f)
  }

  lemma SumOfOne<T>(x: T, f: T -> int)
    ensures SumOf([x], f) == f(x)
  {
    assert [x][1..] == [];
  }

  lemma SumOfAppend<T>(s: seq<T>, x: T, f: T -> int)
    ensures SumOf(s + [x], f) == SumOf(s, f) + f(x)
  {
    SumOfConcat(s, [x], f);
    SumOfOne(x, f);
  }

  lemma SumOfRemove<T>(s: seq<T>, i: nat, f: T -> int)
    requires i < |s|
    ensures SumOf(Remove(s, i), f) == SumOf(s, f) - f(s[i])
  {
    assert s == s[..i] + ([s[i]] + s[i + 1..]);
    SumOfConcat(s[..i], [s[i]] + s[i + 1..], f);
    SumOfConcat([s[i]], s[i + 1..], f);
    SumOfOne(s[i], f);
    SumOfConcat(s[..i], s[i + 1..], f);
  }

  /** What the collector does to the job of the result it takes. */
  function CollectedChange(r: Result, f: Job -> int): int {
    if r.answer == Busy then 0
    else if r.answer == Error && r.job.retryCount < MAX_RETRIES
    then f(r.job.(retryCount := r.job.retryCount + 1)) - f(r.job)
    else -f(r.job)
  }

  lemma LiveCollected(c: Config, p: Pool, f: Job -> int)
    requires p.results != []
    ensures Live(Collected(c, p), f) == Live(p, f) + CollectedChange(p.results[0], f)
  {
    var r := p.results[0];
    if r.answer == Busy {
      SumOfAppend(p.delayed, r.job, f);
    } else if r.answer == Error && r.job.retryCount < MAX_RETRIES {
      SumOfAppend(p.delayed, r.job.(retryCount := r.job.retryCount + 1), f);
    }
  }

  lemma LiveWorkerStep(c: Config, p: Pool, step: Step, f: Job -> int)
    requires Enabled(c, p, step) && (step.Take? || step.Reply? || step.Send? || step.WorkerExit?)
    ensures Live(Next(c, p, step), f) == Live(p, f)
  {
    SumOfUpdate(p.workers, step.w, Next(c, p, step).workers[step.w], WorkerJobs(f));
    if step.Send? {
      SumOfAppend(p.results, p.workers[step.w].result, ResultJobs(f));
    }
  }

  lemma LiveDelayedStep(c: Config, p: Pool, step: Step, f: Job -> int)
    requires Enabled(c, p, step) && (step.Requeue? || step.DropDelayed?)
    ensures Live(Next(c, p, step), f) == Live(p, f) - if step.DropDelayed? then f(p.delayed[step.i]) else 0
  {
    SumOfRemove(p.delayed, step.i, f);
    SumOfAppend(p.jobs, p.delayed[step.i], f);
  }

  /** Only the collector and, once cancelled, dropped requeues change what is in flight. */
  lemma LiveStep(c: Config, p: Pool, step: Step, f: Job -> int)
    requires Enabled(c, p, step)
    ensures Live(Next(c, p, step), f) == Live(p, f) +
            match step
            case Collect => CollectedChange(p.results[0], f)
            case DropDelayed(i) => -f(p.delayed[i])
            case _ => 0
  {
    match step
    case Collect => LiveCollected(c, p, f);
    case Dispatch => SumOfAppend(p.jobs, p.undispatched[0], f);
    case Requeue(_) => LiveDelayedStep(c, p, step, f);
    case DropDelayed(_) => LiveDelayedStep(c, p, step, f);
    case Cancel =>
    case Abort =>
    case DispatcherStop =>
    case _ => LiveWorkerStep(c, p, step, f);
  }
}
