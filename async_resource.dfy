/** A value being computed on another thread, as the GUI's windows hold it:
    nothing asked yet, waiting on the promise, the value, or the error's
    message. Whether the promise has settled when it is polled is given to
    each poll as `ready`: `None` while it is still running, else what the task
    gave. */
module AsyncResources {
  import opened Wrappers

  datatype ResourceState<R> = Idle | Pending | Finished(value: R) | Error(message: string)

  /** One poll: the state after it and what it hands out. */
  function PollStep<R>(s: ResourceState<R>, ready: Option<Result<R>>): (ResourceState<R>, Option<R>) {
    match s
    case Pending =>
      (match ready
       case Some(Ok(r)) => (Finished(r), Some(r))
       case Some(Err(e)) => (Error(e), None)
       case None => (Pending, None))
    case _ => (s, None)
  }

  /** Only a pending resource moves on a poll, and only a settled promise moves
      it: to `Finished` handing out the value, or to `Error` handing out
      nothing. */
  lemma PollMoves<R>(s: ResourceState<R>, ready: Option<Result<R>>)
    ensures PollStep(s, ready).0 != s <==> s.Pending? && ready.Some?
    ensures PollStep(s, ready).1.Some? <==> s.Pending? && ready.Some? && ready.value.Ok?
    ensures PollStep(s, ready).1.Some? ==> PollStep(s, ready).0 == Finished(PollStep(s, ready).1.value)
    ensures s.Pending? && ready.Some? && ready.value.Err? ==> PollStep(s, ready).0 == Error(ready.value.error)
  {
  }

  /** The state after a run of polls. */
  function PollAll<R>(s: ResourceState<R>, readies: seq<Option<Result<R>>>): ResourceState<R>
    decreases |readies|
  {
    if readies == [] then s else PollAll(PollStep(s, readies[0]).0, readies[1..])
  }

  /** How many polls of the run hand out a value. */
  function Handed<R>(s: ResourceState<R>, readies: seq<Option<Result<R>>>): nat
    decreases |readies|
  {
    if readies == [] then 0
    else (if PollStep(s, readies[0]).1.Some? then 1 else 0) + Handed(PollStep(s, readies[0]).0, readies[1..])
  }

  /** However often it is polled, a resource hands out its value at most once,
      and only if it was pending; once it has, it is finished. */
  lemma {:induction false} HandedAtMostOnce<R>(s: ResourceState<R>, readies: seq<Option<Result<R>>>)
    ensures Handed(s, readies) <= (if s.Pending? then 1 else 0)
    ensures Handed(s, readies) == 1 ==> PollAll(s, readies).Finished?
    decreases |readies|
  {
    if readies != [] {
      var next := PollStep(s, readies[0]).0;
      HandedAtMostOnce(next, readies[1..]);
      if !s.Pending? {
        assert next == s;
      } else if PollStep(s, readies[0]).1.Some? {
        assert next.Finished?;
        assert PollAll(next, readies[1..]) == next by {
          SettledStays(next, readies[1..]);
        }
      }
    }
  }

  /** A resource that is not pending stays as it is whatever the polls find. */
  lemma {:induction false} SettledStays<R>(s: ResourceState<R>, readies: seq<Option<Result<R>>>)
    requires !s.Pending?
    ensures PollAll(s, readies) == s && Handed(s, readies) == 0
    decreases |readies|
  {
    if readies != [] {
      SettledStays(s, readies[1..]);
    }
  }

  /** `AsyncResource`. */
  class AsyncResource<R> {
    var state: ResourceState<R>

    /** `default`: nothing asked. */
    constructor Default()
      ensures state == Idle
    {
      state := Idle;
    }

    /** `new`: the task is started on its own thread and the resource waits on
      it. */
    constructor New()
      ensures state == Pending
    {
      state := Pending;
    }

    /** `poll`: a settled promise moves a pending resource on, handing out the
      value when there is one; anything else leaves it as it is. */
    method Poll(ready: Option<Result<R>>) returns (r: Option<R>)
      modifies this
      ensures (state, r) == PollStep(old(state), ready)
    {
      match state {
        case Pending =>
          match ready {
            case Some(Ok(v)) =>
              var res := Some(v);
              state := Finished(v);
              return res;
            case Some(Err(e)) =>
              state := Error(e);
            case None =>
          }
        case _ =>
      }
      r := None;
    }

    /** `is_pending`: whether a poll can still move the resource, as a poll
      that finds the task failed does exactly when it is pending. */
    function IsPending(): (b: bool)
      reads this
      ensures b <==> PollStep(state, Some(Err(""))).0 != state
    {
      state.Pending?
    }
  }
}
