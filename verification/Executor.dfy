/** The future that runs a request handler on its own thread: the worker's and the poller's
    atomic steps, interleaved in every order.

    The flag is accessed with relaxed ordering, so a load may still return the old value after the
    store unless the poller has synchronised with it: by taking the mutex after the worker released
    it, or by being polled because of the worker's notification. */
module Executor {
  import opened Common

  datatype ApiResult = ApiOk(body: string) | ApiError(message: string)

  datatype Response = Success(body: string) | BadRequest(message: string)

  /** Where the worker is in the closure; `Notifying` and `Exiting` hold the mutex. */
  datatype WorkerPc = Handling | Storing | Locking | Notifying | Exiting | Done

  /** Where the poller is in `poll`; `Registering` and `Unlocking` hold the mutex. */
  datatype PollerPc = Idle | AwaitingLock | Registering | Unlocking | Loading | Joining | Panicked

  datatype Holder = Free | Worker | Poller

  datatype State = State(
    worker: WorkerPc,
    poller: PollerPc,
    lock: Holder,
    finished: bool,             // the flag `running`, negated, as last stored
    seen: bool,                 // the poller has synchronised with the store: its loads return it
    task: bool,                 // the shared cell holds a task handle
    taskSet: bool,              // the poller's own field
    joined: bool,               // the join handle has been taken
    request: string,            // the request state, moved through the worker
    result: Option<ApiResult>,  // the worker's result, once there
    woken: bool,                // a notification the executor has not yet answered with a poll
    notReady: bool,             // the last completed poll returned NotReady
    delivered: seq<(string, Response)>)

  datatype Action =
    | HandlerReturns(result: ApiResult) | StoreFlag | WorkerLock | Notify | WorkerExit
    | PollStart | PollLock | Register | PollUnlock | LoadFlag(running: bool) | Join

  function Initial(request: string): State {
    State(Handling, Idle, Free, false, false, false, false, false, request, None, false, false, [])
  }

  function Render(r: ApiResult): Response {
    match r
    case ApiOk(body) => Success(body)
    case ApiError(message) => BadRequest(message)
  }

  predicate Enabled(s: State, a: Action) {
    match a
    case HandlerReturns(_) => s.worker.Handling?
    case StoreFlag => s.worker.Storing?
    case WorkerLock => s.worker.Locking? && s.lock.Free?
    case Notify => s.worker.Notifying?
    case WorkerExit => s.worker.Exiting?
    case PollStart => s.poller.Idle?
    case PollLock => s.poller.AwaitingLock? && s.lock.Free?
    case Register => s.poller.Registering?
    case PollUnlock => s.poller.Unlocking?
    case LoadFlag(running) => s.poller.Loading? && (if running then !s.seen else s.finished)
    case Join => s.poller.Joining? && s.worker.Done?
  }

  function Apply(s: State, a: Action): State
    requires Enabled(s, a)
  {
    match a
    case HandlerReturns(r) => s.(worker := Storing, result := Some(r))
    case StoreFlag => s.(worker := Locking, finished := true)
    case WorkerLock => s.(worker := Notifying, lock := Worker)
    case Notify => s.(worker := Exiting, woken := s.woken || s.task)
    case WorkerExit => s.(worker := Done, lock := Free)
    case PollStart =>
      s.(poller := if s.taskSet then Loading else AwaitingLock, seen := s.seen || s.woken, woken := false)
    case PollLock => s.(poller := Registering, lock := Poller, seen := s.seen || s.worker.Done?)
    case Register => s.(poller := Unlocking, task := true)
    case PollUnlock => s.(poller := Loading, lock := Free, taskSet := true)
    case LoadFlag(running) =>
      if running then s.(poller := Idle, notReady := true)
      else if s.joined then s.(poller := Panicked, seen := true)
      else s.(poller := Joining, seen := true, joined := true)
    case Join =>
      s.(poller := Idle, notReady := false,
         delivered := s.delivered + if s.result.Some? then [(s.request, Render(s.result.value))] else [])
  }

  // ----- what holds in every reachable state

  ghost predicate Invariant(s: State) {
    // the mutex is held exactly inside the two critical sections
    (s.lock.Worker? <==> s.worker.Notifying? || s.worker.Exiting?) &&
    (s.lock.Poller? <==> s.poller.Registering? || s.poller.Unlocking?) &&
    // the flag follows the worker, and is seen only after it was stored
    (s.finished <==> !(s.worker.Handling? || s.worker.Storing?)) &&
    (s.seen ==> s.finished) &&
    (s.result.Some? <==> !s.worker.Handling?) &&
    // the poller loads the flag only once the cell is filled
    (s.taskSet || s.poller.Unlocking? ==> s.task) &&
    (s.poller.Loading? || s.poller.Joining? || s.poller.Panicked? || s.notReady || s.joined ==> s.taskSet) &&
    (s.task ==> s.taskSet || s.poller.Unlocking?) &&
    (s.poller.AwaitingLock? || s.poller.Registering? || s.poller.Unlocking? ==> !s.taskSet) &&
    // a wake-up is pending, or the poller knows already
    (s.worker.Done? && (s.task || s.poller.Registering?) ==> s.woken || s.seen) &&
    (s.worker.Exiting? && s.task ==> s.woken || s.seen) &&
    (s.woken ==> s.worker.Exiting? || s.worker.Done?) &&
    (s.poller.Idle? && s.notReady ==> !s.seen) && (s.poller.Idle? && s.seen ==> s.joined) &&
    // the result is delivered once, by the poll that took the join handle
    (s.poller.Joining? ==> s.joined && s.delivered == []) &&
    (!s.joined ==> s.delivered == []) &&
    (s.joined && !s.poller.Joining? ==> s.result.Some? && s.delivered == [(s.request, Render(s.result.value))]) &&
    (s.joined ==> s.seen) && (s.poller.Panicked? ==> s.joined)
  }

  lemma InvariantKept(s: State, a: Action)
    requires Invariant(s) && Enabled(s, a)
    ensures Invariant(Apply(s, a)) && Apply(s, a).request == s.request
  {}

  /** A finite interleaving, as the list of actions taken. */
  ghost predicate Possible(s: State, run: seq<Action>)
    decreases |run|
  {
    run == [] || (Enabled(s, run[0]) && Possible(Apply(s, run[0]), run[1..]))
  }

  function After(s: State, run: seq<Action>): State
    requires Possible(s, run)
    decreases |run|
  {
    if run == [] then s else After(Apply(s, run[0]), run[1..])
  }

  lemma {:induction false} RunKeeps(s: State, run: seq<Action>)
    requires Invariant(s) && Possible(s, run)
    ensures Invariant(After(s, run)) && After(s, run).request == s.request
    decreases |run|
  {
    if run != [] {
      hide Invariant, Enabled, Apply;
      InvariantKept(s, run[0]);
      RunKeeps(Apply(s, run[0]), run[1..]);
    }
  }

  lemma Reachable(request: string, run: seq<Action>) returns (s: State)
    requires Possible(Initial(request), run)
    ensures s == After(Initial(request), run) && Invariant(s) && s.request == request
  {
    s := After(Initial(request), run);
    RunKeeps(Initial(request), run);
  }

  // ----- what the state tells about the run

  lemma {:induction false} PossibleSnoc(s: State, run: seq<Action>)
    requires run != [] && Possible(s, run)
    ensures var n := |run| - 1;
      Possible(s, run[..n]) && Enabled(After(s, run[..n]), run[n]) && After(s, run) == Apply(After(s, run[..n]), run[n])
    decreases |run|
  {
    hide Enabled, Apply;
    var n := |run| - 1;
    if n > 0 {
      PossibleSnoc(Apply(s, run[0]), run[1..]);
      assert run[..n][1..] == run[1..][..n - 1] && run[..n][0] == run[0];
    }
  }

  /** A notification that reached a registered task and that no poll has answered. */
  ghost predicate WokenBy(run: seq<Action>, n: nat) {
    n < |run| && run[n] == Notify && Register in run[..n] && PollStart !in run[n..]
  }

  /** A poll returned NotReady and no later one has delivered. */
  ghost predicate NotReadyBy(run: seq<Action>, n: nat) {
    n < |run| && run[n] == LoadFlag(true) && Join !in run[n..]
  }

  lemma WokenBySnoc(run: seq<Action>, a: Action)
    ensures (exists n :: WokenBy(run + [a], n)) <==>
      a != PollStart && ((a == Notify && Register in run) || exists n :: WokenBy(run, n))
  {
    var all := run + [a];
    forall n: nat | n < |run|
      ensures WokenBy(all, n) <==> a != PollStart && WokenBy(run, n)
    {
      assert all[..n] == run[..n] && all[n..] == run[n..] + [a];
    }
    assert all[..|run|] == run && all[|run|..] == [a];
    assert WokenBy(all, |run|) <==> a == Notify && Register in run;
  }

  lemma NotReadyBySnoc(run: seq<Action>, a: Action)
    ensures (exists n :: NotReadyBy(run + [a], n)) <==>
      a == LoadFlag(true) || (a != Join && exists n :: NotReadyBy(run, n))
  {
    var all := run + [a];
    forall n: nat | n < |run|
      ensures NotReadyBy(all, n) <==> a != Join && NotReadyBy(run, n)
    {
      assert all[n..] == run[n..] + [a];
    }
    assert all[|run|..] == [a];
    assert NotReadyBy(all, |run|) <==> a == LoadFlag(true);
  }

  lemma StepTells(s: State, a: Action)
    requires Invariant(s) && Enabled(s, a)
    ensures var s' := Apply(s, a);
      (s'.finished <==> s.finished || a == StoreFlag) && (s'.task <==> s.task || a == Register) &&
      (s'.taskSet <==> s.taskSet || a == PollUnlock) && (s'.joined <==> s.joined || a == LoadFlag(false)) &&
      (s'.worker.Exiting? || s'.worker.Done? <==> s.worker.Exiting? || s.worker.Done? || a == Notify)
  {}

  lemma WorkerTells(s: State, a: Action)
    requires Enabled(s, a)
    ensures var s' := Apply(s, a);
      (s'.worker.Handling? <==> s.worker.Handling? && !a.HandlerReturns?) &&
      (s'.worker.Done? <==> s.worker.Done? || a == WorkerExit) &&
      (s'.worker in {Notifying, Exiting, Done} <==> s.worker in {Notifying, Exiting, Done} || a == WorkerLock)
  {
    match a {
      case HandlerReturns(_) =>
      case StoreFlag =>
      case WorkerLock =>
      case Notify =>
      case WorkerExit =>
      case _ =>
    }
  }

  lemma PollTells(s: State, a: Action)
    requires Invariant(s) && Enabled(s, a)
    ensures var s' := Apply(s, a);
      (s'.woken <==> a != PollStart && ((a == Notify && s.task) || s.woken)) &&
      (s'.notReady <==> a == LoadFlag(true) || (a != Join && s.notReady)) &&
      (s'.delivered != [] <==> s.delivered != [] || a == Join)
  {}

  ghost predicate NotReturned(run: seq<Action>) {
    forall m :: 0 <= m < |run| ==> !run[m].HandlerReturns?
  }

  /** Every field of the state is a fact about the actions taken so far. */
  ghost predicate Tells(s: State, run: seq<Action>) {
    (s.finished <==> StoreFlag in run) && (s.task <==> Register in run) && (s.taskSet <==> PollUnlock in run) &&
    (s.worker.Handling? <==> NotReturned(run)) && (s.worker in {Notifying, Exiting, Done} <==> WorkerLock in run) &&
    (s.worker.Exiting? || s.worker.Done? <==> Notify in run) && (s.worker.Done? <==> WorkerExit in run) &&
    (s.joined <==> LoadFlag(false) in run) &&
    (s.woken <==> exists n :: WokenBy(run, n)) && (s.notReady <==> exists n :: NotReadyBy(run, n)) &&
    (s.delivered != [] <==> Join in run)
  }

  lemma NotReturnedSnoc(run: seq<Action>, a: Action)
    ensures NotReturned(run + [a]) <==> NotReturned(run) && !a.HandlerReturns?
  {
    var all := run + [a];
    assert all[|run|] == a;
    forall m | 0 <= m < |run| ensures all[m] == run[m] {}
    if NotReturned(all) {
      forall m | 0 <= m < |run| ensures !run[m].HandlerReturns? {
        assert !all[m].HandlerReturns?;
      }
    }
  }

  lemma TellsNext(s: State, run: seq<Action>, a: Action)
    requires Tells(s, run) && Invariant(s) && Enabled(s, a)
    ensures Tells(Apply(s, a), run + [a])
  {
    WokenBySnoc(run, a);
    NotReadyBySnoc(run, a);
    StepTells(s, a);
    WorkerTells(s, a);
    PollTells(s, a);
    NotReturnedSnoc(run, a);
    hide NotReturned, WokenBy, NotReadyBy, Apply, Enabled, Invariant;
  }

  lemma {:induction false} StateTells(request: string, run: seq<Action>)
    requires Possible(Initial(request), run)
    ensures Tells(After(Initial(request), run), run)
  {
    if run != [] {
      hide *;
      var n, s := |run| - 1, Initial(request);
      PossibleSnoc(s, run);
      StateTells(request, run[..n]);
      var _ := Reachable(request, run[..n]);
      TellsNext(After(s, run[..n]), run[..n], run[n]);
      assert run == run[..n] + [run[n]];
    }
  }

  // ----- the laws over runs alone

  lemma RunSplit(s: State, a: seq<Action>, b: seq<Action>)
    requires Possible(s, a + b)
    ensures Possible(s, a) && Possible(After(s, a), b) && After(s, a + b) == After(After(s, a), b)
    decreases |a|
  {
    hide Enabled, Apply;
    if a == [] {
      assert a + b == b;
    } else {
      assert (a + b)[1..] == a[1..] + b;
      RunSplit(Apply(s, a[0]), a[1..], b);
    }
  }

  /** The action at `n`, when the run is stopped there. */
  lemma ActionAt(request: string, run: seq<Action>, n: nat) returns (s: State)
    requires Possible(Initial(request), run) && n < |run|
    ensures Possible(Initial(request), run[..n]) && s == After(Initial(request), run[..n])
    ensures Invariant(s) && Enabled(s, run[n]) && Possible(Apply(s, run[n]), run[n + 1..])
    ensures After(Initial(request), run) == After(Apply(s, run[n]), run[n + 1..])
  {
    hide Enabled, Apply, Invariant;
    assert run == run[..n] + run[n..] && run[n..][0] == run[n] && run[n..][1..] == run[n + 1..];
    RunSplit(Initial(request), run[..n], run[n..]);
    s := Reachable(request, run[..n]);
  }

  /** The worker stores the flag after the handler returned, takes the mutex after that, notifies while
      it holds it and releases it when it exits; and a poll joins it only after its exit, having read the
      flag as cleared, which it is only after the store. */
  lemma StepsInOrder(request: string, run: seq<Action>, n: nat)
    requires Possible(Initial(request), run) && n < |run|
    ensures run[n] == StoreFlag ==> !NotReturned(run[..n])
    ensures run[n] == WorkerLock ==> StoreFlag in run[..n]
    ensures run[n] == Notify ==> WorkerLock in run[..n]
    ensures run[n] == WorkerExit ==> Notify in run[..n]
    ensures run[n] == LoadFlag(false) ==> StoreFlag in run[..n] && PollUnlock in run[..n]
    ensures run[n] == Join ==> WorkerExit in run[..n] && LoadFlag(false) in run[..n]
  {
    var s := ActionAt(request, run, n);
    StateTells(request, run[..n]);
    hide Possible, After, Apply, WokenBy, NotReadyBy, NotReturned;
  }

  /** Nothing is lost: when the worker has passed its notify step and the executor's last poll has
      come back NotReady, that step found the task and no poll has been made since. */
  lemma LastPollIsAnswered(request: string, run: seq<Action>, k: nat)
    requires Possible(Initial(request), run) && Notify in run
    requires k < |run| && run[k] == LoadFlag(true) && PollStart !in run[k..]
    ensures exists n :: WokenBy(run, n)
  {
    var s := ActionAt(request, run, k);
    StateTells(request, run);
    IdleStays(Apply(s, run[k]), run[k + 1..]);
    NoLostWakeUp(request, run);
    hide Possible, After, Apply, Enabled, WokenBy;
    assert run[k..][0] == run[k] && forall i :: k < i < |run| ==> run[k..][i - k] == run[i];
  }

  lemma IdleStep(s: State, a: Action)
    requires s.poller.Idle? && Enabled(s, a) && a != PollStart
    ensures Apply(s, a).poller.Idle? && Apply(s, a).notReady == s.notReady
  {
    match a {
      case HandlerReturns(_) =>
      case StoreFlag =>
      case WorkerLock =>
      case Notify =>
      case WorkerExit =>
      case _ =>
    }
  }

  /** Without a new poll the poller stays out. */
  lemma {:induction false} IdleStays(s: State, run: seq<Action>)
    requires s.poller.Idle? && Possible(s, run) && PollStart !in run
    ensures After(s, run).poller.Idle? && After(s, run).notReady == s.notReady
    decreases |run|
  {
    if run != [] {
      IdleStep(s, run[0]);
      hide Enabled, Apply;
      IdleStays(Apply(s, run[0]), run[1..]);
    }
  }

  /** A poll begun after the notification never comes back NotReady. */
  lemma NoPollMissesTheResult(request: string, run: seq<Action>, n: nat, p: nat, k: nat)
    requires Possible(Initial(request), run) && n < p < k < |run|
    requires run[n] == Notify && Register in run[..n] && run[p] == PollStart
    ensures run[k] != LoadFlag(true)
  {
    var before := run[..k];
    var last := ActionAt(request, run, k);
    assert before[p] == run[p] && before[..p] == run[..p];
    var s := ActionAt(request, before, p);
    assert before[..p][n] == run[n] && forall a :: a in run[..n] ==> a in before[..p];
    StateTells(request, before[..p]);
    assert Apply(s, PollStart).seen;
    SeenStays(Apply(s, PollStart), before[p + 1..]);
    hide Apply, Invariant, Possible, After;
  }


  // ----- no wake-up is lost

  /** In every interleaving: if the last poll returned NotReady and the worker is past its notify
      step, a notification is pending that the executor has not yet answered. */
  lemma NoLostWakeUp(request: string, run: seq<Action>)
    requires Possible(Initial(request), run)
    ensures var s := After(Initial(request), run);
      s.poller.Idle? && s.notReady && (s.worker.Exiting? || s.worker.Done?) ==> s.woken && s.task
  {
    var s := Reachable(request, run);
  }

  lemma {:induction false} SeenStays(s: State, run: seq<Action>)
    requires s.seen && Possible(s, run)
    ensures After(s, run).seen
    decreases |run|
  {
    if run != [] { SeenStays(Apply(s, run[0]), run[1..]); }
  }

  /** The poll that answers the notification never returns NotReady: however the steps that follow
      it are interleaved, once that poll has returned the result has been delivered. */
  lemma WokenPollDelivers(request: string, run: seq<Action>, rest: seq<Action>)
    requires Possible(Initial(request), run)
    requires After(Initial(request), run).woken && After(Initial(request), run).poller.Idle?
    requires Possible(Apply(After(Initial(request), run), PollStart), rest)
    ensures var s := After(Apply(After(Initial(request), run), PollStart), rest);
      s.poller.Idle? ==> |s.delivered| == 1
  {
    var s := Reachable(request, run);
    InvariantKept(s, PollStart);
    RunKeeps(Apply(s, PollStart), rest);
    SeenStays(Apply(s, PollStart), rest);
  }

  // ----- no deadlock, and every poll ends

  /** How much the two threads can still do without a new poll. */
  function Rank(s: State): nat {
    (match s.worker case Handling => 5 case Storing => 4
     case Locking => 3 case Notifying => 2 case Exiting => 1 case Done => 0) +
    (match s.poller case AwaitingLock => 5 case Registering => 4 case Unlocking => 3 case Loading => 2 case Joining => 1
     case Idle => 0 case Panicked => 0)
  }

  /** Whatever the interleaving so far, some thread can move until the worker has exited and no
      poll is under way, and an idle future can always be polled; in particular the join never waits for
      a worker that waits for the poller. */
  lemma NoDeadlock(request: string, run: seq<Action>, r: ApiResult)
    requires Possible(Initial(request), run)
    ensures var s := After(Initial(request), run);
      (s.worker.Done? && (s.poller.Idle? || s.poller.Panicked?)) ||
      exists a: Action :: !a.PollStart? && Enabled(s, a)
    ensures After(Initial(request), run).poller.Idle? ==> Enabled(After(Initial(request), run), PollStart)
  {
    var s := Reachable(request, run);
    if !s.worker.Done? && s.lock != Poller {
      var a := match s.worker case Handling => HandlerReturns(r) case Storing => StoreFlag case Locking => WorkerLock
        case Notifying => Notify case _ => WorkerExit;
      assert Enabled(s, a);
    } else if !(s.poller.Idle? || s.poller.Panicked?) {
      var a := match s.poller case AwaitingLock => PollLock case Registering => Register case Unlocking => PollUnlock
        case Loading => LoadFlag(!s.finished) case _ => Join;
      assert Enabled(s, a);
    }
  }

  /** Every step but a new poll uses up rank, so between polls both threads come to rest. */
  lemma StepsRunOut(s: State, a: Action)
    requires Enabled(s, a) && !a.PollStart?
    ensures Rank(Apply(s, a)) < Rank(s)
  {}

  lemma {:induction false} RunsEnd(s: State, run: seq<Action>)
    requires Possible(s, run) && PollStart !in run
    ensures |run| + Rank(After(s, run)) <= Rank(s)
    decreases |run|
  {
    if run != [] {
      StepsRunOut(s, run[0]);
      hide Enabled, Apply, Rank;
      RunsEnd(Apply(s, run[0]), run[1..]);
    }
  }

  // ----- the result is delivered exactly once

  /** The handler returned `r` at step `n` of the run, and at no other. */
  ghost predicate ReturnedAt(run: seq<Action>, n: nat, r: ApiResult) {
    n < |run| && run[n] == HandlerReturns(r) && forall m :: 0 <= m < |run| && run[m].HandlerReturns? ==> m == n
  }

  lemma ReturnedSnoc(run: seq<Action>, a: Action, n: nat, r: ApiResult)
    requires (ReturnedAt(run, n, r) && !a.HandlerReturns?) || (NotReturned(run) && a == HandlerReturns(r) && n == |run|)
    ensures ReturnedAt(run + [a], n, r)
  {}

  lemma {:induction false} ResultIsHandlers(request: string, run: seq<Action>)
    requires Possible(Initial(request), run)
    ensures var s := After(Initial(request), run);
      if s.worker.Handling? then NotReturned(run) else s.result.Some? && exists n :: ReturnedAt(run, n, s.result.value)
  {
    if run != [] {
      var n, s := |run| - 1, Initial(request);
      PossibleSnoc(s, run);
      ResultIsHandlers(request, run[..n]);
      assert run == run[..n] + [run[n]];
      var before := After(s, run[..n]);
      ResultStep(before, run[n]);
      hide Possible, After, Apply, Enabled, ReturnedAt;
      if before.worker.Handling? {
        if run[n].HandlerReturns? { ReturnedSnoc(run[..n], run[n], n, run[n].result); }
      } else {
        var k :| ReturnedAt(run[..n], k, before.result.value);
        ReturnedSnoc(run[..n], run[n], k, before.result.value);
      }
    }
  }

  lemma ResultStep(s: State, a: Action)
    requires Enabled(s, a)
    ensures var s' := Apply(s, a);
      (a.HandlerReturns? ==> s.worker.Handling? && !s'.worker.Handling? && s'.result == Some(a.result)) &&
      (!a.HandlerReturns? ==> s'.result == s.result && (s'.worker.Handling? <==> s.worker.Handling?))
  {}

  /** At most one delivery, once a poll has taken the result: the request's own state with what the
      handler returned, as its body if it succeeded and as a bad request if it failed. */
  lemma DeliveredOnce(request: string, run: seq<Action>)
    requires Possible(Initial(request), run)
    ensures After(Initial(request), run).delivered != [] <==> Join in run
    ensures Join in run ==>
      exists n, r :: ReturnedAt(run, n, r) && After(Initial(request), run).delivered ==
        [(request, if r.ApiOk? then Success(r.body) else BadRequest(r.message))]
  {
    var s := Reachable(request, run);
    StateTells(request, run);
    ResultIsHandlers(request, run);
    hide ReturnedAt, Possible, After;
  }

  /** The panic is reached exactly by polling on after the result was delivered: one more poll then
      always ends in it, and no run that has not delivered is in it. */
  lemma PanicsOnlyAfterReady(request: string, run: seq<Action>)
    requires Possible(Initial(request), run)
    ensures var s := After(Initial(request), run);
      (s.poller.Panicked? ==> s.delivered != []) &&
      (s.poller.Idle? && s.delivered != [] ==>
        Possible(s, [PollStart, LoadFlag(false)]) && After(s, [PollStart, LoadFlag(false)]).poller.Panicked? &&
        !Enabled(Apply(s, PollStart), LoadFlag(true)))
  {
    var s := Reachable(request, run);
    assert [PollStart, LoadFlag(false)][1..] == [LoadFlag(false)] && [LoadFlag(false)][1..] == [];
  }

  /** When both threads have come to rest and the future has been polled at all, it has delivered
      or a notification is on its way to the executor. */
  lemma RestIsDeliveredOrWoken(request: string, run: seq<Action>)
    requires Possible(Initial(request), run)
    ensures var s := After(Initial(request), run);
      s.worker.Done? && s.poller.Idle? && s.taskSet && !s.woken ==> |s.delivered| == 1
  {
    var s := Reachable(request, run);
  }

  // ----- what may happen

  lemma Joined(s: State, a: seq<Action>, b: seq<Action>)
    requires Possible(s, a) && Possible(After(s, a), b)
    ensures Possible(s, a + b) && After(s, a + b) == After(After(s, a), b)
    decreases |a|
  {
    hide Enabled, Apply;
    if a == [] {
      assert a + b == b;
    } else {
      assert (a + b)[1..] == a[1..] + b;
      Joined(Apply(s, a[0]), a[1..], b);
    }
  }

  lemma One(s: State, a: Action)
    requires Enabled(s, a)
    ensures Possible(s, [a]) && After(s, [a]) == Apply(s, a)
  {
    hide Enabled, Apply;
    assert [a][1..] == [];
  }

  lemma Two(s: State, a: Action, b: Action)
    requires Enabled(s, a) && Enabled(Apply(s, a), b)
    ensures Possible(s, [a, b]) && After(s, [a, b]) == Apply(Apply(s, a), b)
  {
    hide Enabled, Apply;
    One(s, a);
    One(Apply(s, a), b);
    Joined(s, [a], [b]);
    assert [a] + [b] == [a, b];
  }

  /** The worker's own steps, from the handler's return to its exit. */
  lemma WorkerPart(s: State, r: ApiResult) returns (run: seq<Action>)
    requires s.worker.Handling? && s.lock.Free?
    ensures run == [HandlerReturns(r), StoreFlag, WorkerLock, Notify, WorkerExit] && Possible(s, run)
    ensures After(s, run) == s.(worker := Done, result := Some(r), finished := true, woken := s.woken || s.task)
  {
    var s2 := Apply(Apply(s, HandlerReturns(r)), StoreFlag);
    var s4 := Apply(Apply(s2, WorkerLock), Notify);
    Two(s, HandlerReturns(r), StoreFlag);
    Two(s2, WorkerLock, Notify);
    One(s4, WorkerExit);
    hide Enabled, Possible, After;
    Joined(s2, [WorkerLock, Notify], [WorkerExit]);
    Joined(s, [HandlerReturns(r), StoreFlag], [WorkerLock, Notify] + [WorkerExit]);
    run := [HandlerReturns(r), StoreFlag] + ([WorkerLock, Notify] + [WorkerExit]);
  }

  /** The first poll, up to its load of the flag. */
  lemma FirstPoll(s: State) returns (run: seq<Action>)
    requires s.poller.Idle? && !s.taskSet && s.lock.Free?
    ensures run == [PollStart, PollLock, Register, PollUnlock] && Possible(s, run)
    ensures After(s, run) == s.(poller := Loading, woken := false, task := true, taskSet := true,
      seen := s.seen || s.woken || s.worker.Done?)
  {
    var s2 := Apply(Apply(s, PollStart), PollLock);
    Two(s, PollStart, PollLock);
    Two(s2, Register, PollUnlock);
    hide Enabled, Possible, After;
    Joined(s, [PollStart, PollLock], [Register, PollUnlock]);
    run := [PollStart, PollLock] + [Register, PollUnlock];
  }

  /** A later poll that finds the worker done. */
  lemma LaterPoll(s: State) returns (run: seq<Action>)
    requires s.poller.Idle? && s.taskSet && s.finished && !s.joined && s.worker.Done? && s.result.Some?
    ensures run == [PollStart, LoadFlag(false), Join] && Possible(s, run)
    ensures |After(s, run).delivered| == |s.delivered| + 1
  {
    var s2 := Apply(Apply(s, PollStart), LoadFlag(false));
    Two(s, PollStart, LoadFlag(false));
    One(s2, Join);
    hide Enabled, Possible, After;
    Joined(s, [PollStart, LoadFlag(false)], [Join]);
    run := [PollStart, LoadFlag(false)] + [Join];
  }

  /** The handler may be slow: the first poll comes back NotReady, the worker wakes the task, and the
      next poll delivers. */
  lemma SlowHandlerRun(request: string, r: ApiResult) returns (run: seq<Action>)
    ensures run == [PollStart, PollLock, Register, PollUnlock, LoadFlag(true), HandlerReturns(r), StoreFlag,
      WorkerLock, Notify, WorkerExit, PollStart, LoadFlag(false), Join]
    ensures Possible(Initial(request), run) && |After(Initial(request), run).delivered| == 1
  {
    var s0 := Initial(request);
    var poll := FirstPoll(s0);
    var s1 := After(s0, poll);
    One(s1, LoadFlag(true));
    var s2 := Apply(s1, LoadFlag(true));
    hide Possible, After;
    var work := WorkerPart(s2, r);
    var last := LaterPoll(After(s2, work));
    hide *;
    Joined(s2, work, last);
    Joined(s1, [LoadFlag(true)], work + last);
    Joined(s0, poll, [LoadFlag(true)] + (work + last));
    run := poll + ([LoadFlag(true)] + (work + last));
  }

  /** It may be fast: the worker is done before the first poll, which delivers without any wake-up. */
  lemma FastHandlerRun(request: string, r: ApiResult) returns (run: seq<Action>)
    ensures run == [HandlerReturns(r), StoreFlag, WorkerLock, Notify, WorkerExit,
      PollStart, PollLock, Register, PollUnlock, LoadFlag(false), Join]
    ensures Possible(Initial(request), run) && !After(Initial(request), run).woken
    ensures |After(Initial(request), run).delivered| == 1
  {
    var s0 := Initial(request);
    var work := WorkerPart(s0, r);
    var s1 := After(s0, work);
    var poll := FirstPoll(s1);
    var s2 := After(s1, poll);
    Two(s2, LoadFlag(false), Join);
    var s3 := Apply(Apply(s2, LoadFlag(false)), Join);
    assert |s3.delivered| == 1 && !s3.woken;
    hide *;
    Joined(s1, poll, [LoadFlag(false), Join]);
    Joined(s0, work, poll + [LoadFlag(false), Join]);
    run := work + (poll + [LoadFlag(false), Join]);
  }

  /** A poll may read the flag as still set after it was cleared, since the access is relaxed; the
      notification is then still to come. */
  lemma StaleLoadRun(request: string, r: ApiResult) returns (run: seq<Action>)
    ensures run == [PollStart, PollLock, Register, PollUnlock, HandlerReturns(r), StoreFlag, LoadFlag(true)]
    ensures Possible(Initial(request), run)
  {
    var s0 := Initial(request);
    var poll := FirstPoll(s0);
    var s1 := After(s0, poll);
    Two(s1, HandlerReturns(r), StoreFlag);
    One(Apply(Apply(s1, HandlerReturns(r)), StoreFlag), LoadFlag(true));
    hide *;
    Joined(s1, [HandlerReturns(r), StoreFlag], [LoadFlag(true)]);
    Joined(s0, poll, [HandlerReturns(r), StoreFlag] + [LoadFlag(true)]);
    run := poll + ([HandlerReturns(r), StoreFlag] + [LoadFlag(true)]);
  }
}
