/** The runner loop against concurrent Add, Cancel, Pause, Resume and Stop, one locked section at a time. */
module QueueRunner {
  import opened Common
  import opened QueueManagement

  /** Where `Execute` is with the job. */
  datatype Stage =
    | AtPending | Hydrating | Hydrated
    | AtDownload | InDownload | DownloadDone | MarkProcessing
    | AtPost | InPost
    | Ending(err: Option<JobError>)

  datatype Runner =
    | Top                     // about to look at the queue
    | Waiting                 // blocked on the channel
    | PickedUp(id: nat)       // chose an item, has not activated it
    | Running(id: nat, stage: Stage, processed: bool)
    | Cleanup                 // finalized, about to clear `activeItem`
    | Quit

  /** `sends` counts the callers of `Add` and `Resume` between their change and their wake-up. */
  datatype System = System(m: Shared, runner: Runner, sends: nat)

  datatype Action =
    | Look | Receive | Leave | Activate
    | SkipPending | Hydrate | HydrateOk | HydrateFails(err: JobError) | SetDownloading
    | SkipDownload | Download | DownloadOk | DownloadFails(err: JobError)
    | SeeCancelled | SeeRunning | SetProcessing
    | SkipPost | PostProcess | PostOk | PostFails(err: JobError)
    | Finalize | Clean
    | Add | Send | Pause | Resume | Cancel(id: nat) | Stop

  predicate At(s: System, stage: Stage) {
    s.runner.Running? && s.runner.stage == stage && s.runner.id < |s.m.items|
  }

  function JobStatus(s: System): Status
    requires s.runner.Running? && s.runner.id < |s.m.items|
  {
    s.m.items[s.runner.id].status
  }

  predicate Enabled(s: System, a: Action) {
    && Known(s.m)
    && match a
       case Look => s.runner.Top?
       case Receive => s.runner.Waiting? && s.m.token
       case Leave => (s.runner.Waiting? || s.runner.PickedUp?) && s.m.stopped
       case Activate => s.runner.PickedUp? && s.runner.id < |s.m.items|
       case SkipPending => At(s, AtPending) && JobStatus(s) != Pending
       case Hydrate => At(s, AtPending) && JobStatus(s) == Pending
       case HydrateOk => At(s, Hydrating)
       case HydrateFails(_) => At(s, Hydrating)
       case SetDownloading => At(s, Hydrated)
       case SkipDownload => At(s, AtDownload) && (s.m.jobCancelled || JobStatus(s) != Downloading)
       case Download => At(s, AtDownload) && !(s.m.jobCancelled || JobStatus(s) != Downloading)
       case DownloadOk => At(s, InDownload)
       case DownloadFails(_) => At(s, InDownload)
       case SeeCancelled => At(s, DownloadDone) && s.m.jobCancelled
       case SeeRunning => At(s, DownloadDone) && !s.m.jobCancelled
       case SetProcessing => At(s, MarkProcessing)
       case SkipPost => At(s, AtPost) && (s.m.jobCancelled || JobStatus(s) != Processing)
       case PostProcess => At(s, AtPost) && !(s.m.jobCancelled || JobStatus(s) != Processing)
       case PostOk => At(s, InPost)
       case PostFails(_) => At(s, InPost)
       case Finalize => s.runner.Running? && s.runner.stage.Ending? && s.runner.id < |s.m.items|
       case Clean => s.runner.Cleanup?
       case Send => s.sends > 0
       case _ => true
  }

  function Go(s: System, stage: Stage): System
    requires s.runner.Running?
  {
    s.(runner := s.runner.(stage := stage))
  }

  function Apply(s: System, a: Action): System
    requires Enabled(s, a)
  {
    match a
    case Look =>
      (match if s.m.paused then None else FirstRunnable(s.m.items, s.m.queue)
       case None => s.(runner := Waiting)
       case Some(id) => s.(runner := PickedUp(id)))
    case Receive => s.(runner := Top, m := s.m.(token := false))
    case Leave => s.(runner := Quit)
    case Activate => s.(runner := Running(s.runner.id, AtPending, false), m := Activated(s.m, s.runner.id))
    case SkipPending => Go(s, AtDownload)
    case Hydrate => Go(s, Hydrating)
    case HydrateOk => Go(s, Hydrated)
    case HydrateFails(err) => Go(s, Ending(Some(err)))
    case SetDownloading => Go(s.(m := WithStatus(s.m, s.runner.id, Downloading)), AtDownload)
    case SkipDownload => Go(s, AtPost)
    case Download => Go(s, InDownload)
    case DownloadOk => Go(s, DownloadDone)
    case DownloadFails(err) => Go(s, Ending(Some(err)))
    case SeeCancelled => Go(s, AtPost)
    case SeeRunning => Go(s, MarkProcessing)
    case SetProcessing => Go(s.(m := WithStatus(s.m, s.runner.id, Processing)), AtPost)
    case SkipPost => Go(s, Ending(None))
    case PostProcess => Go(s, InPost)
    case PostOk => s.(runner := s.runner.(stage := Ending(None), processed := true))
    case PostFails(err) => Go(s, Ending(Some(err)))
    case Finalize => s.(runner := Cleanup, m := Finalized(s.m, s.runner.id, s.runner.stage.err))
    case Clean => s.(runner := Top, m := s.m.(active := None))
    case Add => s.(m := Added(s.m), sends := s.sends + 1)
    case Send => s.(m := s.m.(token := true), sends := s.sends - 1)
    case Pause => s.(m := Paused(s.m))
    case Resume => System(s.m.(paused := false), s.runner, if s.m.paused then s.sends + 1 else s.sends)
    case Cancel(id) => s.(m := CancelledItem(s.m, id))
    case Stop => s.(m := Stopped(s.m))
  }

  // ---------------------------------------------------------------- the invariant

  /** Live items are known, in loading order, each once; live is the same as not terminal. */
  predicate LiveOk(m: Shared) {
    && Known(m) && Increasing(m.queue)
    && forall k: nat :: k < |m.items| ==> (k in m.queue <==> !Terminal(m.items[k].status))
  }

  /** Exactly the item the runner runs is active and has a cancel function. */
  predicate ActiveOk(m: Shared, r: Runner) {
    && (m.active == if r.Running? then Some(r.id) else None)
    && forall k: nat :: k < |m.items| ==> (m.items[k].hasCancel <==> m.active == Some(k))
  }

  /** What the job's stage says of a live item, and of one cancelled before it was activated. */
  predicate StageOk(m: Shared, r: Runner) {
    match r
    case PickedUp(id) => id < |m.items| && (id !in m.queue ==> m.items[id].status == Failed)
    case Running(id, stage, processed) =>
      && id < |m.items|
      && (processed ==> stage == Ending(None))
      && (id !in m.queue ==>
            && m.items[id].status == Failed && !processed
            && (stage == AtPending || stage == AtDownload || stage == AtPost || stage == Ending(None)))
      && (id in m.queue ==>
            && (stage == AtDownload ==> m.items[id].status != Pending)
            && (stage == AtPost ==> m.jobCancelled || m.items[id].status == Processing)
            && (stage == Ending(None) ==> m.jobCancelled || processed))
    case _ => true
  }

  /** A runner that is blocked has nothing to do, or will be woken. */
  predicate WakeOk(s: System) {
    s.runner.Waiting? ==> s.m.paused || s.m.queue == [] || s.m.token || s.sends > 0
  }

  /** A pause asked for the running job and signalled it, or for a job that has left the queue for good. */
  predicate PauseOk(m: Shared, r: Runner) {
    match m.pauseRequested
    case None => true
    case Some(id) => id < |m.items| && if Runs(r, id) then m.jobCancelled else id !in m.queue && r != PickedUp(id)
  }

  predicate Runs(r: Runner, id: nat) {
    r.Running? && r.id == id
  }

  predicate Inv(s: System) {
    LiveOk(s.m) && ActiveOk(s.m, s.runner) && StageOk(s.m, s.runner) && WakeOk(s) && PauseOk(s.m, s.runner)
  }

  function Start(loaded: seq<Item>): System {
    System(Shared(loaded, seq(|loaded|, i => i), None, false, None, false, false, false), Top, 0)
  }

  /** What the store may hold: unfinished items without a cancel function. */
  predicate Loadable(loaded: seq<Item>) {
    forall k :: 0 <= k < |loaded| ==> !Terminal(loaded[k].status) && !loaded[k].hasCancel
  }

  lemma StartInv(loaded: seq<Item>)
    requires Loadable(loaded)
    ensures Inv(Start(loaded))
  {
    var q := Start(loaded).m.queue;
    forall k: nat | k < |loaded| ensures k in q {
      assert q[k] == k;
    }
  }

  // ---------------------------------------------------------------- every step keeps it

  lemma FirstOfLive(m: Shared, queue: seq<nat>)
    requires KnownIds(m.items, queue) && forall k :: 0 <= k < |queue| ==> !Terminal(m.items[queue[k]].status)
    ensures FirstRunnable(m.items, queue) == if queue == [] then None else Some(queue[0])
  {
  }

  /** Changing the status of a live item to another unfinished one, its cancel function and its error. */
  lemma LiveKept(m: Shared, id: nat, item: Item)
    requires LiveOk(m) && id < |m.items| && id in m.queue && !Terminal(item.status)
    ensures LiveOk(m.(items := m.items[id := item]))
  {
  }

  lemma RemovedOk(m: Shared, id: nat, item: Item)
    requires LiveOk(m) && id < |m.items| && Terminal(item.status)
    ensures LiveOk(m.(items := m.items[id := item], queue := Remove(m.queue, id)))
  {
    RemoveKeepsOrder(m.queue, id);
    RemovedStayKnown(m.items, m.queue, id);
  }

  lemma AddedOk(m: Shared)
    requires LiveOk(m)
    ensures LiveOk(Added(m))
  {
    var m' := Added(m);
    forall k: nat | k < |m'.items| ensures k in m'.queue <==> !Terminal(m'.items[k].status) {
      if k < |m.items| {
        assert k in m.queue <==> k in m'.queue;
      } else {
        assert m'.queue[|m.queue|] == k;
      }
    }
  }

  lemma RunnerStep(s: System, a: Action)
    requires Inv(s) && Enabled(s, a)
    requires a.Look? || a.Receive? || a.Leave? || a.SkipPending? || a.Hydrate? || a.HydrateOk? || a.HydrateFails?
             || a.SkipDownload? || a.Download? || a.DownloadOk? || a.DownloadFails? || a.SeeCancelled? || a.SeeRunning?
             || a.SkipPost? || a.PostProcess? || a.PostOk? || a.PostFails? || a.Clean?
    ensures Inv(Apply(s, a))
  {
    if a.Look? {
      FirstOfLive(s.m, s.m.queue);
    }
  }

  lemma StatusStep(s: System, a: Action)
    requires Inv(s) && Enabled(s, a) && (a.SetDownloading? || a.SetProcessing? || a.Activate?)
    ensures Inv(Apply(s, a))
  {
    var id := s.runner.id;
    var m' := Apply(s, a).m;
    if id in s.m.queue {
      LiveKept(s.m, id, m'.items[id]);
    }
  }

  lemma FinalizeStep(s: System)
    requires Inv(s) && Enabled(s, Finalize)
    ensures Inv(Apply(s, Finalize))
  {
    var id, err := s.runner.id, s.runner.stage.err;
    if err == Some(Canceled) && s.m.pauseRequested == Some(id) {
      LiveKept(s.m, id, Item(Pending, false, None));
    } else {
      RemovedOk(s.m, id, Item(if err.Some? then Failed else Completed, false, err));
    }
  }

  lemma CancelStep(s: System, id: nat)
    requires Inv(s)
    ensures Inv(Apply(s, Cancel(id)))
  {
    if Cancellable(s.m, id) && !s.m.items[id].hasCancel {
      RemovedOk(s.m, id, Item(Failed, false, Some(Canceled)));
      RemoveKeepsOrder(s.m.queue, id);
    }
  }

  lemma OutsideStep(s: System, a: Action)
    requires Inv(s) && Enabled(s, a) && (a.Add? || a.Send? || a.Pause? || a.Resume? || a.Stop?)
    ensures Inv(Apply(s, a))
  {
    if a.Add? {
      AddedOk(s.m);
    }
  }

  lemma StepKeepsInv(s: System, a: Action)
    requires Inv(s) && Enabled(s, a)
    ensures Inv(Apply(s, a))
  {
    if a.Finalize? {
      FinalizeStep(s);
    } else if a.Cancel? {
      CancelStep(s, a.id);
    } else if a.SetDownloading? || a.SetProcessing? || a.Activate? {
      StatusStep(s, a);
    } else if a.Add? || a.Send? || a.Pause? || a.Resume? || a.Stop? {
      OutsideStep(s, a);
    } else {
      RunnerStep(s, a);
    }
  }

  // ---------------------------------------------------------------- runs

  ghost predicate Next(s: System, s': System) {
    exists a: Action :: Enabled(s, a) && s' == Apply(s, a)
  }

  ghost predicate IsRun(run: seq<System>) {
    && run != [] && Loadable(run[0].m.items) && run[0] == Start(run[0].m.items)
    && forall k :: 0 <= k < |run| - 1 ==> Next(run[k], run[k + 1])
  }

  lemma {:induction false} RunKeepsInv(run: seq<System>, k: nat)
    requires IsRun(run) && k < |run|
    ensures Inv(run[k])
  {
    if k == 0 {
      StartInv(run[0].m.items);
    } else {
      RunKeepsInv(run, k - 1);
      assert Next(run[k - 1], run[k - 1 + 1]);
      var a: Action :| Enabled(run[k - 1], a) && run[k] == Apply(run[k - 1], a);
      StepKeepsInv(run[k - 1], a);
    }
  }

  /** No lost wake-up: a runner blocked while the queue is unpaused and has a job will find a token, or the caller
      that is about to send one. */
  lemma NoLostWakeUp(run: seq<System>, k: nat)
    requires IsRun(run) && k < |run|
    requires run[k].runner.Waiting? && !run[k].m.paused && run[k].m.queue != []
    ensures run[k].m.token || run[k].sends > 0
    ensures Enabled(run[k], Receive) || Enabled(run[k], Send)
  {
    RunKeepsInv(run, k);
  }

  /** Outside the channel the runner is never stuck: some step of its own is possible until it has left. */
  lemma RunnerIsNeverStuck(run: seq<System>, k: nat)
    requires IsRun(run) && k < |run| && !run[k].runner.Waiting? && !run[k].runner.Quit?
    ensures exists a: Action ::
              Enabled(run[k], a) && Apply(run[k], a).runner != run[k].runner
  {
    RunKeepsInv(run, k);
    var s := run[k];
    var a := NextOfRunner(s);
    assert Enabled(s, a) && Apply(s, a).runner != s.runner;
  }

  /** How many steps of its own the runner is away from the top of its loop, or from having left. */
  function StepsLeft(r: Runner): nat {
    match r
    case PickedUp(_) => 12
    case Running(_, stage, _) =>
      (match stage
       case AtPending => 11
       case Hydrating => 10
       case Hydrated => 9
       case AtDownload => 8
       case InDownload => 7
       case DownloadDone => 6
       case MarkProcessing => 5
       case AtPost => 4
       case InPost => 3
       case Ending(_) => 2)
    case Cleanup => 1
    case _ => 0
  }

  /** The steps from `j` to `k` in which the runner itself moved. */
  function OwnSteps(run: seq<System>, j: nat, k: nat): nat
    requires j <= k < |run|
  {
    if j == k then 0 else OwnSteps(run, j, k - 1) + if run[k - 1].runner != run[k].runner then 1 else 0
  }

  lemma OwnStepGoesOn(s: System, a: Action)
    requires Enabled(s, a) && StepsLeft(s.runner) > 0
    ensures GoesOn(s.runner, Apply(s, a).runner)
  {
  }

  /** Between two looks at the queue the runner takes at most twelve steps of its own, whatever the callers do: with
      `RunnerIsNeverStuck`, a picked job always comes to its end. */
  lemma JobIsBounded(run: seq<System>, j: nat, k: nat)
    requires IsRun(run) && j <= k < |run| && forall i :: j <= i < k ==> StepsLeft(run[i].runner) > 0
    ensures OwnSteps(run, j, k) + StepsLeft(run[k].runner) <= StepsLeft(run[j].runner) <= 12
  {
    forall i | j <= i < k ensures GoesOn(run[i].runner, run[i + 1].runner) {
      assert Next(run[i], run[i + 1]);
      var a: Action :| Enabled(run[i], a) && run[i + 1] == Apply(run[i], a);
      OwnStepGoesOn(run[i], a);
    }
    OwnStepsBounded(run, j, k);
  }

  predicate GoesOn(r: Runner, r': Runner) {
    r == r' || StepsLeft(r') < StepsLeft(r)
  }

  lemma {:induction false} OwnStepsBounded(run: seq<System>, j: nat, k: nat)
    requires j <= k < |run| && forall i :: j <= i < k ==> GoesOn(run[i].runner, run[i + 1].runner)
    ensures OwnSteps(run, j, k) + StepsLeft(run[k].runner) <= StepsLeft(run[j].runner)
  {
    if j < k {
      OwnStepsBounded(run, j, k - 1);
      assert GoesOn(run[k - 1].runner, run[k - 1 + 1].runner);
    }
  }

  function NextOfRunner(s: System): Action
    requires Inv(s) && !s.runner.Waiting? && !s.runner.Quit?
  {
    match s.runner
    case Top => Look
    case PickedUp(_) => Activate
    case Cleanup => Clean
    case Running(id, stage, _) =>
      assert s.runner.Running? && s.runner.id == id && id < |s.m.items|;
      (match stage
       case AtPending => if JobStatus(s) == Pending then Hydrate else SkipPending
       case Hydrating => HydrateOk
       case Hydrated => SetDownloading
       case AtDownload => if s.m.jobCancelled || JobStatus(s) != Downloading then SkipDownload else Download
       case InDownload => DownloadOk
       case DownloadDone => if s.m.jobCancelled then SeeCancelled else SeeRunning
       case MarkProcessing => SetProcessing
       case AtPost => if s.m.jobCancelled || JobStatus(s) != Processing then SkipPost else PostProcess
       case InPost => PostOk
       case Ending(_) => Finalize)
    case _ => Look
  }

  /** In every reachable state the live queue is in loading order without repetition, holds exactly the unfinished
      items, and an item has a cancel function exactly while it is the active one. */
  lemma LiveQueue(run: seq<System>, k: nat)
    requires IsRun(run) && k < |run|
    ensures var m := run[k].m;
            && Increasing(m.queue)
            && (forall id: nat :: id < |m.items| ==> (id in m.queue <==> !Terminal(m.items[id].status)))
            && (forall id: nat :: id < |m.items| ==> (m.items[id].hasCancel <==> m.active == Some(id)))
  {
    RunKeepsInv(run, k);
  }

  /** `Pause` signals a running job unless the queue was paused already; `Cancel` of a live item either signals the
      running job or fails and removes a waiting one, leaving every other item alone. */
  lemma PauseAndCancelDecide(run: seq<System>, k: nat, id: nat)
    requires IsRun(run) && k < |run| && id < |run[k].m.items|
    ensures Known(run[k].m)
    ensures var s := run[k];
            Runs(s.runner, id) ==>
              && (Paused(s.m).pauseRequested == Some(id) <==> !s.m.paused || s.m.pauseRequested == Some(id))
              && (Paused(s.m).pauseRequested == Some(id) ==> Paused(s.m).jobCancelled)
    ensures var m := run[k].m;
            && (Cancellable(m, id) <==> id in m.queue)
            && (id in m.queue && m.active == Some(id) ==> CancelledItem(m, id) == m.(jobCancelled := true))
            && (id in m.queue && m.active != Some(id) ==>
                  && CancelledItem(m, id).items == m.items[id := Item(Failed, false, Some(Canceled))]
                  && id !in CancelledItem(m, id).queue
                  && forall x :: x != id ==> (x in CancelledItem(m, id).queue <==> x in m.queue))
  {
    RunKeepsInv(run, k);
    RemoveKeepsOrder(run[k].m.queue, id);
  }

  // ---------------------------------------------------------------- which running jobs a pause has signalled

  /** The step from `k`, between states that keep the invariant. */
  lemma StepFrom(run: seq<System>, k: nat) returns (a: Action)
    requires IsRun(run) && k + 1 < |run|
    ensures Inv(run[k]) && Enabled(run[k], a) && run[k + 1] == Apply(run[k], a)
  {
    RunKeepsInv(run, k);
    assert Next(run[k], run[k + 1]);
    a :| Enabled(run[k], a) && run[k + 1] == Apply(run[k], a);
  }

  /** The item runs in every state from `j` to `k`: one activation of it. */
  ghost predicate RunsFrom(run: seq<System>, j: nat, k: nat, id: nat) {
    j <= k < |run| && forall i :: j <= i <= k ==> Runs(run[i].runner, id)
  }

  /** The step from `j` pauses the queue while the item runs, which goes on running until `k`. */
  ghost predicate PausedAt(run: seq<System>, j: nat, k: nat, id: nat) {
    j < k && RunsFrom(run, j, k, id) && !run[j].m.paused && run[j + 1].m.paused
  }

  /** A pause took effect since the item was activated. */
  ghost predicate PausedWhileRunning(run: seq<System>, k: nat, id: nat) {
    exists j: nat :: PausedAt(run, j, k, id)
  }

  /** A running job has been asked to stop by a pause exactly when a pause took effect since its activation; the
      request has then ended its context. */
  lemma {:induction false} PauseSignalsSince(run: seq<System>, k: nat, id: nat)
    requires IsRun(run) && k < |run| && Runs(run[k].runner, id)
    ensures run[k].m.pauseRequested == Some(id) <==> PausedWhileRunning(run, k, id)
    ensures run[k].m.pauseRequested == Some(id) ==> run[k].m.jobCancelled
  {
    RunKeepsInv(run, k);
    assert k > 0;
    var a := StepFrom(run, k - 1);
    if Runs(run[k - 1].runner, id) {
      PauseSignalsSince(run, k - 1, id);
      PauseSignalStep(run[k - 1], a, id);
      PausedWhileRunningStep(run, k - 1, id);
    } else {
      ActivationIsUnsignalled(run[k - 1], a, id);
      assert !PausedWhileRunning(run, k, id);
    }
  }

  lemma PausedWhileRunningStep(run: seq<System>, k: nat, id: nat)
    requires k + 1 < |run| && Runs(run[k].runner, id) && Runs(run[k + 1].runner, id)
    ensures PausedWhileRunning(run, k + 1, id)
            <==> PausedWhileRunning(run, k, id) || (!run[k].m.paused && run[k + 1].m.paused)
  {
    var n := k + 1;
    if j: nat :| PausedAt(run, j, n, id) && j < k {
      assert PausedAt(run, j, k, id);
    }
    if j: nat :| PausedAt(run, j, k, id) {
      assert PausedAt(run, j, k + 1, id);
    }
    if !run[k].m.paused && run[k + 1].m.paused {
      assert PausedAt(run, k, k + 1, id);
    }
  }

  lemma PauseSignalStep(s: System, a: Action, id: nat)
    requires Inv(s) && Enabled(s, a) && Runs(s.runner, id) && Runs(Apply(s, a).runner, id)
    ensures Apply(s, a).m.pauseRequested == Some(id)
            <==> s.m.pauseRequested == Some(id) || (!s.m.paused && Apply(s, a).m.paused)
  {
    if !a.Pause? {
      assert Apply(s, a).m.pauseRequested == s.m.pauseRequested;
    }
  }

  lemma ActivationIsUnsignalled(s: System, a: Action, id: nat)
    requires Inv(s) && Enabled(s, a) && !Runs(s.runner, id) && Runs(Apply(s, a).runner, id)
    ensures s.runner == PickedUp(id) && Apply(s, a).m == Activated(s.m, id) && s.m.pauseRequested != Some(id)
  {
  }

  /** The step asks the running item to stop: a pause takes effect, or a cancel names the item while it is live. */
  predicate Asks(s: System, s': System, id: nat) {
    || (!s.m.paused && s'.m.paused)
    || (id in s.m.queue && Enabled(s, Cancel(id)) && s' == Apply(s, Cancel(id)))
  }

  ghost predicate AskedAt(run: seq<System>, j: nat, k: nat, id: nat) {
    j < k && RunsFrom(run, j, k, id) && Asks(run[j], run[j + 1], id)
  }

  ghost predicate AskedWhileRunning(run: seq<System>, k: nat, id: nat) {
    exists j: nat :: AskedAt(run, j, k, id)
  }

  /** The context of the running job has ended exactly when the manager has been stopped, even before the job began, or
      a pause took effect or a cancel named the job since its activation. */
  lemma {:induction false} ContextEndedExactlyWhen(run: seq<System>, k: nat, id: nat)
    requires IsRun(run) && k < |run| && Runs(run[k].runner, id)
    ensures run[k].m.jobCancelled <==> run[k].m.stopped || AskedWhileRunning(run, k, id)
  {
    assert k > 0;
    RunKeepsInv(run, k - 1);
    var a := StepFrom(run, k - 1);
    ContextStep(run[k - 1], a, id);
    if Runs(run[k - 1].runner, id) {
      ContextEndedExactlyWhen(run, k - 1, id);
      AskedWhileRunningStep(run, k - 1, id);
    } else {
      assert !AskedWhileRunning(run, k, id);
    }
  }

  lemma ContextStep(s: System, a: Action, id: nat)
    requires Inv(s) && Enabled(s, a) && Runs(Apply(s, a).runner, id)
    ensures var s' := Apply(s, a);
            && (s'.m.stopped <==> s.m.stopped || a.Stop?)
            && (s'.m.jobCancelled
                <==> if Runs(s.runner, id) then s.m.jobCancelled || a.Stop? || Asks(s, s', id) else s'.m.stopped)
  {
    StopStep(s, a);
    if Runs(s.runner, id) {
      AskStep(s, a, id);
    } else {
      ActivationIsUnsignalled(s, a, id);
    }
  }

  lemma StopStep(s: System, a: Action)
    requires Enabled(s, a)
    ensures Apply(s, a).m.stopped <==> s.m.stopped || a.Stop?
  {
  }

  lemma AskStep(s: System, a: Action, id: nat)
    requires Inv(s) && Enabled(s, a) && Runs(s.runner, id) && Runs(Apply(s, a).runner, id)
    ensures Apply(s, a).m.jobCancelled <==> s.m.jobCancelled || a.Stop? || Asks(s, Apply(s, a), id)
  {
    if !a.Pause? {
      assert Apply(s, a).m.paused ==> s.m.paused;
    }
  }

  lemma AskedWhileRunningStep(run: seq<System>, k: nat, id: nat)
    requires k + 1 < |run| && Runs(run[k].runner, id) && Runs(run[k + 1].runner, id)
    ensures AskedWhileRunning(run, k + 1, id) <==> AskedWhileRunning(run, k, id) || Asks(run[k], run[k + 1], id)
  {
    var n := k + 1;
    if j: nat :| AskedAt(run, j, n, id) && j < k {
      assert AskedAt(run, j, k, id);
    }
    if j: nat :| AskedAt(run, j, k, id) {
      assert AskedAt(run, j, k + 1, id);
    }
    if Asks(run[k], run[k + 1], id) {
      assert AskedAt(run, k, k + 1, id);
    }
  }

  predicate Holds(r: Runner, id: nat) {
    r == PickedUp(id) || Runs(r, id)
  }

  /** The step from `j` pauses the queue between the pick of the item and its activation, and the queue stays paused
      and the item in the runner's hands until `k`. */
  ghost predicate PausedOncePicked(run: seq<System>, j: nat, k: nat, id: nat) {
    && j < k < |run| && !run[j].m.paused && run[j].runner == run[j + 1].runner == PickedUp(id)
    && forall i :: j < i <= k ==> run[i].m.paused && Holds(run[i].runner, id)
  }

  ghost predicate PausedBeforeActivation(run: seq<System>, k: nat, id: nat) {
    exists j: nat :: PausedOncePicked(run, j, k, id)
  }

  /** The queue is paused and the item in the runner's hands has not been asked to stop. */
  predicate Unsignalled(s: System, id: nat) {
    Holds(s.runner, id) && s.m.paused && s.m.pauseRequested != Some(id)
  }

  /** A job runs on in a paused queue, never asked to stop, exactly when the pause took effect between its pick and
      its activation; pausing again changes nothing. */
  lemma UnsignalledExactlyWhen(run: seq<System>, k: nat, id: nat)
    requires IsRun(run) && k < |run| && Holds(run[k].runner, id)
    ensures Unsignalled(run[k], id) <==> PausedBeforeActivation(run, k, id)
    ensures Known(run[k].m) && (Unsignalled(run[k], id) ==> Paused(run[k].m) == run[k].m)
  {
    RunKeepsInv(run, k);
    assert !Holds(run[0].runner, id);
    forall i | 0 <= i < k ensures SignalFact(run[i], run[i + 1], id) {
      var a := StepFrom(run, i);
      SignalStep(run[i], a, id);
    }
    UnsignalledChain(run, k, id);
  }

  /** What a step says of a job picked by it, or in the runner's hands before and after it. */
  predicate SignalFact(s: System, s': System, id: nat) {
    Holds(s'.runner, id) ==>
      if Holds(s.runner, id) then
        Unsignalled(s', id)
        <==> s'.m.paused && (Unsignalled(s, id) || (!s.m.paused && s.runner == s'.runner == PickedUp(id)))
      else
        !s'.m.paused && s'.runner == PickedUp(id)
  }

  lemma SignalStep(s: System, a: Action, id: nat)
    requires Inv(s) && Enabled(s, a)
    ensures SignalFact(s, Apply(s, a), id)
  {
    if Holds(Apply(s, a).runner, id) {
      if Holds(s.runner, id) {
        UnsignalledStep(s, a, id);
      } else {
        PickIsUnpaused(s, a, id);
      }
    }
  }

  lemma {:induction false} UnsignalledChain(run: seq<System>, k: nat, id: nat)
    requires k < |run| && Holds(run[k].runner, id) && !Holds(run[0].runner, id)
    requires forall i :: 0 <= i < k ==> SignalFact(run[i], run[i + 1], id)
    ensures Unsignalled(run[k], id) <==> PausedBeforeActivation(run, k, id)
  {
    assert SignalFact(run[k - 1], run[k - 1 + 1], id);
    if Holds(run[k - 1].runner, id) {
      UnsignalledChain(run, k - 1, id);
      PausedBeforeActivationStep(run, k - 1, id);
    } else {
      assert !PausedBeforeActivation(run, k, id);
    }
  }

  lemma PausedBeforeActivationStep(run: seq<System>, k: nat, id: nat)
    requires k + 1 < |run| && Holds(run[k + 1].runner, id)
    ensures PausedBeforeActivation(run, k + 1, id)
            <==> run[k + 1].m.paused && (PausedBeforeActivation(run, k, id)
                                         || (!run[k].m.paused && run[k].runner == run[k + 1].runner == PickedUp(id)))
  {
    var n := k + 1;
    if j: nat :| PausedOncePicked(run, j, n, id) && j < k {
      assert PausedOncePicked(run, j, k, id);
    }
    if j: nat :| PausedOncePicked(run, j, k, id) && run[k + 1].m.paused {
      assert PausedOncePicked(run, j, k + 1, id);
    }
    if !run[k].m.paused && run[k + 1].m.paused && run[k].runner == run[k + 1].runner == PickedUp(id) {
      assert PausedOncePicked(run, k, k + 1, id);
    }
  }

  lemma UnsignalledStep(s: System, a: Action, id: nat)
    requires Inv(s) && Enabled(s, a) && Holds(s.runner, id) && Holds(Apply(s, a).runner, id)
    ensures Unsignalled(Apply(s, a), id)
            <==> Apply(s, a).m.paused
                 && (Unsignalled(s, id) || (!s.m.paused && s.runner == Apply(s, a).runner == PickedUp(id)))
  {
    if !a.Pause? {
      assert Apply(s, a).m.pauseRequested == s.m.pauseRequested;
    }
  }

  lemma PickIsUnpaused(s: System, a: Action, id: nat)
    requires Inv(s) && Enabled(s, a) && !Holds(s.runner, id) && Holds(Apply(s, a).runner, id)
    ensures !Apply(s, a).m.paused && Apply(s, a).runner == PickedUp(id)
  {
  }

  // ---------------------------------------------------------------- how a job ends

  /** A finished item is reopened by a step exactly when the step finalizes the running job and that job left the
      queue before it was activated; the cancelled job then counts as completed. */
  lemma TerminalChangesOnlyForEarlyCancel(run: seq<System>, k: nat, a: Action, id: nat)
    requires IsRun(run) && k < |run| && Enabled(run[k], a)
    requires id < |run[k].m.items| && Terminal(run[k].m.items[id].status)
    ensures var s, s' := run[k], Apply(run[k], a);
            && id < |s'.m.items|
            && (s'.m.items[id].status != s.m.items[id].status
                <==> a.Finalize? && s.runner.id == id && id !in s.m.queue)
            && (s'.m.items[id].status != s.m.items[id].status ==>
                  s.m.items[id].status == Failed && s'.m.items[id].status == Completed)
  {
    RunKeepsInv(run, k);
    TerminalStep(run[k], a, id);
  }

  lemma TerminalStep(s: System, a: Action, id: nat)
    requires Inv(s) && Enabled(s, a) && id < |s.m.items| && Terminal(s.m.items[id].status)
    ensures var s' := Apply(s, a);
            && id < |s'.m.items|
            && (s'.m.items[id].status != s.m.items[id].status
                <==> a.Finalize? && s.runner.id == id && id !in s.m.queue)
            && (s'.m.items[id].status != s.m.items[id].status ==>
                  s.m.items[id].status == Failed && s'.m.items[id].status == Completed)
  {
    if !a.Finalize? {
      assert Apply(s, a).m.items[id].status == s.m.items[id].status;
    }
  }

  predicate CancelledOncePicked(s: System, s': System, id: nat) {
    && s.runner == s'.runner == PickedUp(id) && Known(s.m)
    && id in s.m.queue && s'.m == CancelledItem(s.m, id) && id !in s'.m.queue
  }

  /** A running job that is not in the queue was cancelled between being picked and being activated. */
  lemma {:induction false} OutOfQueueSince(run: seq<System>, k: nat)
    requires IsRun(run) && k < |run|
    requires (run[k].runner.PickedUp? || run[k].runner.Running?) && OutOfQueue(run[k], run[k].runner.id)
    ensures exists j :: 0 <= j < k && CancelledOncePicked(run[j], run[j + 1], run[k].runner.id)
  {
    if k == 0 {
    } else {
      var id := run[k].runner.id;
      OutOfQueueBefore(run, k - 1, id);
      if OutOfQueue(run[k - 1], id) {
        OutOfQueueSince(run, k - 1);
      }
    }
  }

  /** The runner has picked or runs the item, which is not in the queue. */
  predicate OutOfQueue(s: System, id: nat) {
    (s.runner.PickedUp? || s.runner.Running?) && s.runner.id == id && id !in s.m.queue
  }

  lemma OutOfQueueBefore(run: seq<System>, k: nat, id: nat)
    requires IsRun(run) && k + 1 < |run| && OutOfQueue(run[k + 1], id)
    ensures OutOfQueue(run[k], id) || CancelledOncePicked(run[k], run[k + 1], id)
  {
    RunKeepsInv(run, k);
    assert Next(run[k], run[k + 1]);
    var a: Action :| Enabled(run[k], a) && run[k + 1] == Apply(run[k], a);
    OutOfQueueStep(run[k], a, id);
  }

  lemma OutOfQueueStep(s: System, a: Action, id: nat)
    requires Inv(s) && Enabled(s, a)
    requires OutOfQueue(Apply(s, a), id)
    ensures OutOfQueue(s, id) || CancelledOncePicked(s, Apply(s, a), id)
  {
    if a.Look? {
      FirstOfLive(s.m, s.m.queue);
    } else if a.Cancel? {
      RemoveKeepsOrder(s.m.queue, a.id);
    }
  }

  /** The item is pending again at its place in the queue, as it was when it was added, and nothing else has changed. */
  predicate Requeued(s: System, s': System, id: nat) {
    && id < |s.m.items| && s'.m.items == s.m.items[id := Item(Pending, false, None)] && s'.m.queue == s.m.queue
    && s'.m.active == None && s'.m.pauseRequested == None
  }

  /** The item has ended with the status and its job's error, no other item has changed, and it is the only one to leave
      the queue. */
  ghost predicate Ended(s: System, s': System, id: nat, status: Status) {
    && id < |s.m.items| && Enabled(s, Finalize)
    && s'.m.items == s.m.items[id := Item(status, false, s.runner.stage.err)]
    && s'.m.active == None && s'.m.pauseRequested == s.m.pauseRequested
    && forall x :: x in s'.m.queue <==> x in s.m.queue && x != id
  }

  /** What finalizing makes of a live job: requeued in its place exactly when it ended with a cancellation and a pause
      took effect since its activation, failed for any other error, completed without one. */
  lemma HowAJobEnds(run: seq<System>, k: nat, id: nat)
    requires IsRun(run) && k < |run| && Enabled(run[k], Finalize) && Runs(run[k].runner, id) && id in run[k].m.queue
    ensures var s, s', err := run[k], Apply(run[k], Finalize), run[k].runner.stage.err;
            && (Requeued(s, s', id) <==> err == Some(Canceled) && PausedWhileRunning(run, k, id))
            && (Ended(s, s', id, Failed)
                <==> err.Some? && !(err == Some(Canceled) && PausedWhileRunning(run, k, id)))
            && (Ended(s, s', id, Completed) <==> err == None)
  {
    PauseSignalsSince(run, k, id);
    RunKeepsInv(run, k);
    RemoveKeepsOrder(run[k].m.queue, id);
    assert Apply(run[k], Finalize).m.items[id].status in [Pending, Failed, Completed];
  }

  /** The step from `j` is an accepted cancel of the running item. */
  predicate CancelAccepted(s: System, s': System, id: nat) {
    Known(s.m) && Runs(s.runner, id) && Cancellable(s.m, id) && s' == s.(m := CancelledItem(s.m, id))
  }

  /** An accepted cancel of the running job ends its context until the job ends; the job is then requeued exactly when
      it ended with the cancellation and a pause took effect since its activation, completed exactly when it ended
      without an error, and failed otherwise. */
  lemma HowACancelledJobEnds(run: seq<System>, j: nat, k: nat, id: nat)
    requires IsRun(run) && j < k && RunsFrom(run, j, k, id) && CancelAccepted(run[j], run[j + 1], id)
    requires Enabled(run[k], Finalize)
    ensures run[k].m.jobCancelled
    ensures var s, s', err := run[k], Apply(run[k], Finalize), run[k].runner.stage.err;
            && (Requeued(s, s', id) <==> err == Some(Canceled) && PausedWhileRunning(run, k, id))
            && (Ended(s, s', id, Failed)
                <==> err.Some? && !(err == Some(Canceled) && PausedWhileRunning(run, k, id)))
            && (Ended(s, s', id, Completed) <==> err == None)
  {
    CancelStays(run, j, k, id);
    HowAJobEnds(run, k, id);
  }

  lemma {:induction false} CancelStays(run: seq<System>, j: nat, k: nat, id: nat)
    requires IsRun(run) && j < k && RunsFrom(run, j, k, id) && CancelAccepted(run[j], run[j + 1], id)
    ensures run[k].m.jobCancelled && id in run[k].m.queue
  {
    RunKeepsInv(run, k - 1);
    if k > j + 1 {
      CancelStays(run, j, k - 1, id);
      var a := StepFrom(run, k - 1);
      LiveStays(run[k - 1], a, id);
    } else {
      CancelSignals(run[j], run[k], id);
    }
  }

  lemma CancelSignals(s: System, s': System, id: nat)
    requires Inv(s) && CancelAccepted(s, s', id)
    ensures s'.m.jobCancelled && id in s'.m.queue
  {
  }

  /** While an item runs it stays in the queue, and its context stays ended. */
  lemma LiveStays(s: System, a: Action, id: nat)
    requires Inv(s) && Enabled(s, a) && Runs(s.runner, id) && Runs(Apply(s, a).runner, id)
    ensures id in s.m.queue ==> id in Apply(s, a).m.queue
    ensures s.m.jobCancelled ==> Apply(s, a).m.jobCancelled
  {
    if a.Cancel? {
      RemoveKeepsOrder(s.m.queue, a.id);
    }
  }

  /** The step from `j` decides about the job's post-processing, which is under way or over until `k`. */
  ghost predicate DecidedAt(run: seq<System>, j: nat, k: nat, id: nat) {
    && j < k && RunsFrom(run, j, k, id) && run[j].runner.stage == AtPost
    && forall i :: j < i <= k ==> run[i].runner.stage == InPost || run[i].runner.stage == Ending(None)
  }

  /** A job that ended without an error passed through the decision about its post-processing, and was post-processed
      exactly when it then was neither cancelled nor out of the queue; a later cancel makes no difference. */
  lemma ProcessedUnlessCancelled(run: seq<System>, k: nat, id: nat)
    requires IsRun(run) && k < |run| && Runs(run[k].runner, id) && run[k].runner.stage == Ending(None)
    ensures exists j: nat :: DecidedAt(run, j, k, id)
    ensures forall j: nat :: DecidedAt(run, j, k, id) ==>
              (run[k].runner.processed <==> !run[j].m.jobCancelled && id in run[j].m.queue)
  {
    DecisionExists(run, k, id);
    forall j: nat | DecidedAt(run, j, k, id)
      ensures run[k].runner.processed <==> !run[j].m.jobCancelled && id in run[j].m.queue
    {
      DecisionHolds(run, j, k, id);
    }
  }

  lemma {:induction false} DecisionExists(run: seq<System>, k: nat, id: nat)
    requires IsRun(run) && k < |run| && Runs(run[k].runner, id)
    requires run[k].runner.stage == InPost || run[k].runner.stage == Ending(None)
    ensures exists j: nat :: DecidedAt(run, j, k, id)
  {
    assert k > 0;
    PostStepFrom(run, k - 1, id);
    if run[k - 1].runner.stage == AtPost {
      assert DecidedAt(run, k - 1, k, id);
    } else {
      DecisionExists(run, k - 1, id);
      var j: nat :| DecidedAt(run, j, k - 1, id);
      DecidedLonger(run, j, k - 1, id);
    }
  }

  lemma {:induction false} DecidedLonger(run: seq<System>, j: nat, k: nat, id: nat)
    requires DecidedAt(run, j, k, id) && k + 1 < |run| && Runs(run[k + 1].runner, id)
    requires run[k + 1].runner.stage == InPost || run[k + 1].runner.stage == Ending(None)
    ensures DecidedAt(run, j, k + 1, id)
  {
  }

  /** Either the job is being or has been post-processed, as the decision allowed, or it was skipped. */
  lemma DecisionHolds(run: seq<System>, j: nat, k: nat, id: nat)
    requires IsRun(run) && DecidedAt(run, j, k, id)
    ensures run[k].runner.stage == InPost || run[k].runner.processed
            <==> !run[j].m.jobCancelled && id in run[j].m.queue
  {
    forall i | j <= i < k ensures PostFact(run[i], run[i + 1], id) {
      assert Runs(run[i + 1].runner, id);
      PostStepFrom(run, i, id);
    }
    DecisionChain(run, j, k, id);
  }

  lemma {:induction false} DecisionChain(run: seq<System>, j: nat, k: nat, id: nat)
    requires DecidedAt(run, j, k, id) && forall i :: j <= i < k ==> PostFact(run[i], run[i + 1], id)
    ensures run[k].runner.stage == InPost || run[k].runner.processed
            <==> !run[j].m.jobCancelled && id in run[j].m.queue
  {
    assert PostFact(run[k - 1], run[k - 1 + 1], id);
    if k > j + 1 {
      DecidedEarlier(run, j, k, id);
      DecisionChain(run, j, k - 1, id);
    }
  }

  lemma DecidedEarlier(run: seq<System>, j: nat, k: nat, id: nat)
    requires DecidedAt(run, j, k, id) && j + 1 < k
    ensures DecidedAt(run, j, k - 1, id) && run[k - 1].runner.stage != AtPost
  {
  }

  /** What a step within or into the post-processing of a job does. */
  predicate PostFact(s: System, s': System, id: nat) {
    && Runs(s.runner, id) && Runs(s'.runner, id)
    && (s.runner.stage == AtPost ==>
          (s'.runner.stage == InPost || s'.runner.processed <==> !s.m.jobCancelled && id in s.m.queue))
    && (s.runner.stage == InPost ==> s'.runner.stage == InPost || s'.runner.processed)
    && (s.runner.stage != AtPost && s.runner.stage != InPost ==> s'.runner == s.runner)
  }

  lemma PostStepFrom(run: seq<System>, k: nat, id: nat)
    requires IsRun(run) && k + 1 < |run| && Runs(run[k + 1].runner, id)
    requires run[k + 1].runner.stage == InPost || run[k + 1].runner.stage == Ending(None)
    ensures PostFact(run[k], run[k + 1], id)
  {
    var a := StepFrom(run, k);
    PostStep(run[k], a, id);
  }

  lemma PostStep(s: System, a: Action, id: nat)
    requires Inv(s) && Enabled(s, a) && Runs(Apply(s, a).runner, id)
    requires var stage := Apply(s, a).runner.stage; stage == InPost || stage == Ending(None)
    ensures PostFact(s, Apply(s, a), id)
  {
  }

  // ---------------------------------------------------------------- four runs

  function One(status: Status, error: Option<JobError>, live: bool, running: bool, paused: bool, asked: bool,
               cancelled: bool, r: Runner): System {
    System(Shared([Item(status, running, error)], if live then [0] else [], if running then Some(0) else None, paused,
                  if asked then Some(0) else None, cancelled, false, false), r, 0)
  }

  function EarlyCancel(): seq<System> {
    [ Start([Item(Pending, false, None)]),
      One(Pending, None, true, false, false, false, false, PickedUp(0)),
      One(Failed, Some(Canceled), false, false, false, false, false, PickedUp(0)),
      One(Failed, Some(Canceled), false, true, false, false, false, Running(0, AtPending, false)),
      One(Failed, Some(Canceled), false, true, false, false, false, Running(0, AtDownload, false)),
      One(Failed, Some(Canceled), false, true, false, false, false, Running(0, AtPost, false)),
      One(Failed, Some(Canceled), false, true, false, false, false, Running(0, Ending(None), false)),
      One(Completed, None, false, false, false, false, false, Cleanup) ]
  }

  function EarlyCancelActions(): seq<Action> {
    [Look, Cancel(0), Activate, SkipPending, SkipDownload, SkipPost, Finalize]
  }

  function PauseThenCancel(): seq<System> {
    [ Start([Item(Downloading, false, None)]),
      One(Downloading, None, true, false, false, false, false, PickedUp(0)),
      One(Downloading, None, true, true, false, false, false, Running(0, AtPending, false)),
      One(Downloading, None, true, true, false, false, false, Running(0, AtDownload, false)),
      One(Downloading, None, true, true, false, false, false, Running(0, InDownload, false)),
      One(Downloading, None, true, true, true, true, true, Running(0, InDownload, false)),
      One(Downloading, None, true, true, true, true, true, Running(0, InDownload, false)),
      One(Downloading, None, true, true, true, true, true, Running(0, Ending(Some(Canceled)), false)),
      One(Pending, None, true, false, true, false, true, Cleanup) ]
  }

  function PauseThenCancelActions(): seq<Action> {
    [Look, Activate, SkipPending, Download, Pause, Cancel(0), DownloadFails(Canceled), Finalize]
  }

  function LateCancel(): seq<System> {
    [ Start([Item(Downloading, false, None)]),
      One(Downloading, None, true, false, false, false, false, PickedUp(0)),
      One(Downloading, None, true, true, false, false, false, Running(0, AtPending, false)),
      One(Downloading, None, true, true, false, false, false, Running(0, AtDownload, false)),
      One(Downloading, None, true, true, false, false, false, Running(0, InDownload, false)),
      One(Downloading, None, true, true, false, false, false, Running(0, DownloadDone, false)),
      One(Downloading, None, true, true, false, false, true, Running(0, DownloadDone, false)),
      One(Downloading, None, true, true, false, false, true, Running(0, AtPost, false)),
      One(Downloading, None, true, true, false, false, true, Running(0, Ending(None), false)),
      One(Completed, None, false, false, false, false, true, Cleanup) ]
  }

  function LateCancelActions(): seq<Action> {
    [Look, Activate, SkipPending, Download, DownloadOk, Cancel(0), SeeCancelled, SkipPost, Finalize]
  }

  /** The second pause finds the queue paused already. */
  function EarlyPause(): seq<System> {
    [ Start([Item(Pending, false, None)]),
      One(Pending, None, true, false, false, false, false, PickedUp(0)),
      One(Pending, None, true, false, true, false, false, PickedUp(0)),
      One(Pending, None, true, true, true, false, false, Running(0, AtPending, false)),
      One(Pending, None, true, true, true, false, false, Running(0, AtPending, false)) ]
  }

  function EarlyPauseActions(): seq<Action> {
    [Look, Pause, Activate, Pause]
  }

  predicate Plays(run: seq<System>, acts: seq<Action>) {
    |run| == |acts| + 1
    && forall k :: 0 <= k < |acts| ==> Enabled(run[k], acts[k]) && run[k + 1] == Apply(run[k], acts[k])
  }

  lemma PlayedIsRun(run: seq<System>, acts: seq<Action>)
    requires run != [] && Loadable(run[0].m.items) && run[0] == Start(run[0].m.items) && Plays(run, acts)
    ensures IsRun(run)
  {
  }

  /** A terminal status is not absorbing: cancelled between pick and activation, the job ends as completed. */
  lemma FailedCanBecomeCompleted()
    ensures IsRun(EarlyCancel())
    ensures EarlyCancel()[2].m.items[0].status == Failed && EarlyCancel()[7].m.items[0].status == Completed
  {
    var run, acts := EarlyCancel(), EarlyCancelActions();
    forall k | 0 <= k < |acts| ensures Enabled(run[k], acts[k]) && run[k + 1] == Apply(run[k], acts[k]) {
      EarlyCancelStep(k);
    }
    assert run[0].m.queue == [0];
    PlayedIsRun(run, acts);
  }

  lemma EarlyCancelStep(k: nat)
    requires k < 7
    ensures var run, a := EarlyCancel(), EarlyCancelActions()[k];
            Enabled(run[k], a) && run[k + 1] == Apply(run[k], a)
  {
    assert EarlyCancel()[0].m.queue == [0];
  }

  /** Paused does not mean signalled: a job paused between pick and activation runs on, its context alive. */
  lemma PausedJobCanRunOn()
    ensures IsRun(EarlyPause())
    ensures var s := EarlyPause()[4];
            Runs(s.runner, 0) && Unsignalled(s, 0) && !s.m.jobCancelled && Paused(s.m) == s.m
  {
    var run, acts := EarlyPause(), EarlyPauseActions();
    forall k | 0 <= k < |acts| ensures Enabled(run[k], acts[k]) && run[k + 1] == Apply(run[k], acts[k]) {
      EarlyPauseStep(k);
    }
    PlayedIsRun(run, acts);
  }

  lemma EarlyPauseStep(k: nat)
    requires k < 4
    ensures var run, a := EarlyPause(), EarlyPauseActions()[k];
            Enabled(run[k], a) && run[k + 1] == Apply(run[k], a)
  {
    assert EarlyPause()[0].m.queue == [0];
  }

  /** An accepted cancel does not mean failed: after a pause it ends in a requeue. */
  lemma CancelCanEndInRequeue()
    ensures IsRun(PauseThenCancel())
    ensures Cancellable(PauseThenCancel()[5].m, 0) && PauseThenCancel()[6].m == CancelledItem(PauseThenCancel()[5].m, 0)
    ensures PauseThenCancel()[8].m.items[0].status == Pending && PauseThenCancel()[8].m.queue == [0]
  {
    var run, acts := PauseThenCancel(), PauseThenCancelActions();
    forall k | 0 <= k < |acts| ensures Enabled(run[k], acts[k]) && run[k + 1] == Apply(run[k], acts[k]) {
      PauseThenCancelStep(k);
    }
    PauseThenCancelStep(5);
    PlayedIsRun(run, acts);
  }

  lemma PauseThenCancelStep(k: nat)
    requires k < 8
    ensures var run, a := PauseThenCancel(), PauseThenCancelActions()[k];
            Enabled(run[k], a) && run[k + 1] == Apply(run[k], a)
  {
    assert PauseThenCancel()[0].m.queue == [0];
  }

  /** Completed does not mean post-processed: a cancel right after the download skips it. */
  lemma CompletedCanBeUnprocessed()
    ensures IsRun(LateCancel())
    ensures LateCancel()[9].m.items[0].status == Completed && !LateCancel()[8].runner.processed
  {
    var run, acts := LateCancel(), LateCancelActions();
    forall k | 0 <= k < |acts| ensures Enabled(run[k], acts[k]) && run[k + 1] == Apply(run[k], acts[k]) {
      LateCancelStep(k);
    }
    PlayedIsRun(run, acts);
  }

  lemma LateCancelStep(k: nat)
    requires k < 9
    ensures var run, a := LateCancel(), LateCancelActions()[k];
            Enabled(run[k], a) && run[k + 1] == Apply(run[k], a)
  {
    if k < 5 {
      LateCancelBegins(k);
    } else {
      LateCancelEnds(k);
    }
  }

  lemma LateCancelBegins(k: nat)
    requires k < 5
    ensures var run, a := LateCancel(), LateCancelActions()[k];
            Enabled(run[k], a) && run[k + 1] == Apply(run[k], a)
  {
    assert LateCancel()[0].m.queue == [0];
  }

  lemma LateCancelEnds(k: nat)
    requires 5 <= k < 9
    ensures var run, a := LateCancel(), LateCancelActions()[k];
            Enabled(run[k], a) && run[k + 1] == Apply(run[k], a)
  {
  }
}
