/** The live queue of jobs: what each locked section of the queue manager does to it. */
module QueueManagement {
  import opened Common

  datatype Status = Pending | Downloading | Processing | Completed | Failed

  /** `context.Canceled`, or any other error a job ends with. */
  datatype JobError = Canceled | OtherError

  /** A queue item; `hasCancel` says whether its `CancelFunc` is set. Items are numbered as they are loaded or added. */
  datatype Item = Item(status: Status, hasCancel: bool, error: Option<JobError>)

  /** The fields behind the mutex, the context of the running job and of the loop, and the wake-up channel. */
  datatype Shared = Shared(
    items: seq<Item>, queue: seq<nat>, active: Option<nat>, paused: bool, pauseRequested: Option<nat>,
    jobCancelled: bool, stopped: bool, token: bool)

  predicate Terminal(s: Status) {
    s.Completed? || s.Failed?
  }

  function Remove(queue: seq<nat>, id: nat): seq<nat> {
    if queue == [] then [] else if queue[0] == id then queue[1..] else [queue[0]] + Remove(queue[1..], id)
  }

  predicate KnownIds(items: seq<Item>, queue: seq<nat>) {
    forall k :: 0 <= k < |queue| ==> queue[k] < |items|
  }

  /** The first item of the queue that is not terminal. */
  function FirstRunnable(items: seq<Item>, queue: seq<nat>): Option<nat>
    requires KnownIds(items, queue)
  {
    if queue == [] then None
    else if !Terminal(items[queue[0]].status) then Some(queue[0])
    else FirstRunnable(items, queue[1..])
  }

  /** The item at place `k` is the first that has neither completed nor failed. */
  predicate IsFirstRunnable(items: seq<Item>, queue: seq<nat>, k: nat)
    requires KnownIds(items, queue)
  {
    && k < |queue| && items[queue[k]].status !in [Completed, Failed]
    && forall j :: 0 <= j < k ==> items[queue[j]].status in [Completed, Failed]
  }

  lemma {:induction false} FirstRunnableIsFirst(items: seq<Item>, queue: seq<nat>)
    requires KnownIds(items, queue)
    ensures FirstRunnable(items, queue) == None
            <==> forall k :: 0 <= k < |queue| ==> items[queue[k]].status in [Completed, Failed]
    ensures FirstRunnable(items, queue).Some? ==>
              exists k: nat :: IsFirstRunnable(items, queue, k) && queue[k] == FirstRunnable(items, queue).value
  {
    if queue != [] {
      var rest := queue[1..];
      FirstRunnableIsFirst(items, rest);
      if !Terminal(items[queue[0]].status) {
        assert IsFirstRunnable(items, queue, 0);
      } else if FirstRunnable(items, rest).Some? {
        var k: nat :| IsFirstRunnable(items, rest, k) && rest[k] == FirstRunnable(items, rest).value;
        var n := k + 1;
        assert IsFirstRunnable(items, queue, n) && queue[n] == rest[k];
      } else {
        assert forall k :: 0 < k < |queue| ==> queue[k] == rest[k - 1];
      }
    }
  }

  predicate Known(s: Shared) {
    && KnownIds(s.items, s.queue)
    && (s.active.Some? ==> s.active.value < |s.items|)
  }

  // ---------------------------------------------------------------- the locked sections, as functions

  function Added(s: Shared): Shared {
    s.(items := s.items + [Item(Pending, false, None)], queue := s.queue + [|s.items|])
  }

  function Paused(s: Shared): Shared
    requires Known(s)
  {
    if s.paused then s
    else if s.active.Some? && s.items[s.active.value].hasCancel
    then s.(paused := true, pauseRequested := s.active, jobCancelled := true)
    else s.(paused := true)
  }

  /** Whether a cancel request is accepted. */
  predicate Cancellable(s: Shared, id: nat)
    requires Known(s)
  {
    id in s.queue && !Terminal(s.items[id].status)
  }

  /** Signal a job that has a cancel function; fail and remove one that has none. */
  function CancelledItem(s: Shared, id: nat): Shared
    requires Known(s)
  {
    if !Cancellable(s, id) then s
    else if s.items[id].hasCancel then s.(jobCancelled := true)
    else s.(items := s.items[id := Item(Failed, false, Some(Canceled))], queue := Remove(s.queue, id))
  }

  function Stopped(s: Shared): Shared
    requires Known(s)
  {
    s.(stopped := true, jobCancelled := true)
  }

  function WithStatus(s: Shared, id: nat, status: Status): Shared
    requires id < |s.items|
  {
    s.(items := s.items[id := s.items[id].(status := status)])
  }

  /** A job ends: requeued in place when the end was asked for by a pause, terminal and out of the queue otherwise. */
  function Finalized(s: Shared, id: nat, err: Option<JobError>): Shared
    requires id < |s.items|
  {
    if err == Some(Canceled) && s.pauseRequested == Some(id)
    then s.(items := s.items[id := Item(Pending, false, None)], pauseRequested := None, active := None)
    else s.(items := s.items[id := Item(if err.Some? then Failed else Completed, false, err)],
            queue := Remove(s.queue, id), active := None)
  }

  function Activated(s: Shared, id: nat): Shared
    requires id < |s.items|
  {
    s.(items := s.items[id := s.items[id].(hasCancel := true)], active := Some(id), jobCancelled := s.stopped)
  }

  // ---------------------------------------------------------------- removal

  lemma {:induction false} RemoveFirst(queue: seq<nat>, i: nat)
    requires i < |queue| && forall k :: 0 <= k < i ==> queue[k] != queue[i]
    ensures Remove(queue, queue[i]) == queue[..i] + queue[i + 1..]
  {
    if i > 0 {
      RemoveFirst(queue[1..], i - 1);
      assert queue[..i] == [queue[0]] + queue[1..][..i - 1];
    }
  }

  lemma {:induction false} RemoveAbsent(queue: seq<nat>, id: nat)
    requires id !in queue
    ensures Remove(queue, id) == queue
  {
    if queue != [] {
      RemoveAbsent(queue[1..], id);
    }
  }

  /** In loading order, each once. */
  predicate Increasing(queue: seq<nat>) {
    forall i, j :: 0 <= i < j < |queue| ==> queue[i] < queue[j]
  }

  lemma {:induction false} RemoveKeepsOrder(queue: seq<nat>, id: nat)
    requires Increasing(queue)
    ensures Increasing(Remove(queue, id))
    ensures forall x :: x in Remove(queue, id) <==> x in queue && x != id
  {
    if queue != [] {
      var head, tail := queue[0], queue[1..];
      RemoveKeepsOrder(tail, id);
      HeadIsLeast(queue);
      var rest := Remove(tail, id);
      if head != id {
        forall i, j | 0 <= i < j < |Remove(queue, id)| ensures Remove(queue, id)[i] < Remove(queue, id)[j] {
          assert Remove(queue, id)[j] == rest[j - 1] && rest[j - 1] in rest;
        }
      }
      forall x ensures x in Remove(queue, id) <==> x in queue && x != id {
        assert x in queue <==> x == head || x in tail;
        if head != id {
          assert x in [head] + rest <==> x == head || x in rest;
        }
      }
    }
  }

  lemma HeadIsLeast(queue: seq<nat>)
    requires queue != [] && Increasing(queue)
    ensures Increasing(queue[1..]) && forall x :: x in queue[1..] ==> queue[0] < x
    ensures queue == [queue[0]] + queue[1..]
  {
  }

  // ---------------------------------------------------------------- the manager

  class QueueManager {
    var items: seq<Item>
    var queue: seq<nat>
    var activeItem: Option<nat>
    var paused: bool
    var pauseRequestedID: Option<nat>
    var jobCancelled: bool
    var stopped: bool
    var newJobChan: bool

    /** Items loaded from the store; the channel has one slot and starts empty. */
    constructor (loaded: seq<Item>)
      ensures State() == Shared(loaded, seq(|loaded|, i => i), None, false, None, false, false, false)
    {
      items, queue := loaded, seq(|loaded|, i => i);
      activeItem, paused, pauseRequestedID, jobCancelled, stopped, newJobChan := None, false, None, false, false, false;
    }

    function State(): Shared
      reads this
    {
      Shared(items, queue, activeItem, paused, pauseRequestedID, jobCancelled, stopped, newJobChan)
    }

    predicate Valid()
      reads this
    {
      Known(State())
    }

    method Add() returns (id: nat)
      requires Valid()
      modifies this
      ensures Valid() && id == |old(items)| && State() == Added(old(State()))
      ensures queue == old(queue) + [id] && items == old(items) + [Item(Pending, false, None)]
    {
      id := |items|;
      items, queue := items + [Item(Pending, false, None)], queue + [id];
    }

    /** The non-blocking send after `Add` and `Resume`. */
    method Wake()
      modifies this`newJobChan
      ensures State() == old(State()).(token := true)
    {
      newJobChan := true;
    }

    /** What the loop would run next, looked up under the read lock. */
    method Pick() returns (next: Option<nat>)
      requires Valid()
      ensures next == if paused then None else FirstRunnable(items, queue)
      ensures next == None
              <==> paused || forall k :: 0 <= k < |queue| ==> items[queue[k]].status in [Completed, Failed]
      ensures next.Some? ==> exists k: nat :: IsFirstRunnable(items, queue, k) && queue[k] == next.value
    {
      FirstRunnableIsFirst(items, queue);
      next := None;
      if !paused {
        var i := 0;
        while i < |queue|
          invariant i <= |queue| && FirstRunnable(items, queue) == FirstRunnable(items, queue[i..])
        {
          assert queue[i..][1..] == queue[i + 1..];
          if !Terminal(items[queue[i]].status) {
            return Some(queue[i]);
          }
          i := i + 1;
        }
      }
    }

    method Activate(id: nat)
      requires Valid() && id < |items|
      modifies this
      ensures Valid() && State() == Activated(old(State()), id)
      ensures activeItem == Some(id) && items[id].hasCancel && jobCancelled == old(stopped)
    {
      activeItem := Some(id);
      items := items[id := items[id].(hasCancel := true)];
      jobCancelled := stopped;
    }

    method Pause()
      requires Valid()
      modifies this
      ensures Valid() && State() == Paused(old(State()))
    {
      if paused {
        return;
      }
      paused := true;
      if activeItem.Some? && items[activeItem.value].hasCancel {
        pauseRequestedID := activeItem;
        jobCancelled := true;
      }
    }

    method Resume() returns (wasPaused: bool)
      requires Valid()
      modifies this
      ensures Valid() && wasPaused == old(paused) && State() == old(State()).(paused := false)
    {
      wasPaused := paused;
      paused := false;
    }

    method Cancel(id: nat) returns (ok: bool)
      requires Valid()
      modifies this
      ensures Valid() && ok == Cancellable(old(State()), id) && State() == CancelledItem(old(State()), id)
    {
      var i := 0;
      while i < |queue|
        invariant i <= |queue| && State() == old(State()) && forall k :: 0 <= k < i ==> queue[k] != id
      {
        if queue[i] == id {
          if Terminal(items[id].status) {
            return false;
          }
          if items[id].hasCancel {
            jobCancelled := true;
            return true;
          }
          items := items[id := Item(Failed, false, Some(Canceled))];
          RemovedStayKnown(items, queue, id);
          RemoveFromLiveQueue(id);
          return true;
        }
        i := i + 1;
      }
      return false;
    }

    method Stop()
      requires Valid()
      modifies this
      ensures Valid() && State() == Stopped(old(State()))
    {
      stopped := true;
      jobCancelled := true;
    }

    method UpdateStatus(id: nat, status: Status)
      requires Valid() && id < |items|
      modifies this`items
      ensures Valid() && State() == WithStatus(old(State()), id, status)
    {
      items := items[id := items[id].(status := status)];
    }

    method FinalizeJob(id: nat, err: Option<JobError>)
      requires Valid() && id < |items|
      modifies this
      ensures Valid() && State() == Finalized(old(State()), id, err)
    {
      if err == Some(Canceled) && pauseRequestedID == Some(id) {
        items := items[id := Item(Pending, false, None)];
        pauseRequestedID := None;
        activeItem := None;
        return;
      }
      items := items[id := items[id].(hasCancel := false)];
      if err.Some? {
        items := items[id := items[id].(status := Failed, error := err)];
      } else {
        items := items[id := items[id].(status := Completed, error := None)];
      }
      activeItem := None;
      RemovedStayKnown(items, queue, id);
      RemoveFromLiveQueue(id);
    }

    method RemoveFromLiveQueue(id: nat)
      modifies this`queue
      ensures queue == Remove(old(queue), id)
    {
      var i := 0;
      while i < |queue|
        invariant i <= |queue| && queue == old(queue) && forall k :: 0 <= k < i ==> queue[k] != id
      {
        if queue[i] == id {
          RemoveFirst(queue, i);
          queue := queue[..i] + queue[i + 1..];
          return;
        }
        i := i + 1;
      }
      RemoveAbsent(queue, id);
    }
  }

  lemma {:induction false} RemovedStayKnown(items: seq<Item>, queue: seq<nat>, id: nat)
    requires KnownIds(items, queue)
    ensures KnownIds(items, Remove(queue, id))
  {
    if queue != [] {
      RemovedStayKnown(items, queue[1..], id);
    }
  }
}
