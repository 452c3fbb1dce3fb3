/**
 * From any state of a pool: every schedule is finite, and from where the destructor is sure to return. Spurious wakeups
 * are left out throughout.
 */
module PoolClose {
  import opened Options
  import opened Pool
  import opened PoolSafety
  import opened PoolShutdown
  import opened PoolJoin

  /** Everything threads can do once nobody starts another append; spurious wakeups are not among it. */
  predicate CloseStep(step: Step) {
    DrainStep(step) || step.BeginDestroy? || step.ReadFlag? || step.ClearFlag? || step.NotifyAll? || step.Join?
  }

  /** The part of it that workers and appenders do. */
  predicate DrainStep(step: Step) {
    WorkerStep(step) || (AppenderStep(step) && !step.Enter?)
  }

  predicate AllClose(steps: seq<Step>) {
    forall i :: 0 <= i < |steps| ==> CloseStep(steps[i])
  }

  predicate AllDrain(steps: seq<Step>) {
    forall i :: 0 <= i < |steps| ==> DrainStep(steps[i])
  }

  ghost predicate CloseStuck(s: Pool) {
    forall step :: CloseStep(step) ==> !Enabled(s, step)
  }

  /** s can go on to t, destructor included, and nothing more can happen there. */
  ghost predicate Closes(s: Pool, steps: seq<Step>, t: Pool) {
    Run(s, steps, t) && AllClose(steps) && CloseStuck(t)
  }

  ghost predicate Open(n: nat, a: nat, s: Pool) {
    Reachable(n, a, s) && Built(s)
  }

  ghost predicate AllWaiting(s: Pool) {
    forall w :: 0 <= w < |s.workers| ==> s.workers[w] == Waiting
  }

  // ----- one measure for all of it

  /** What a worker may still do before it waits, apart from what the tasks in the queue pay for. */
  ghost function Work(w: Worker): nat {
    match w
    case Unborn => 0
    case Exited => 0
    case Waiting => 0
    case Retesting(woken) => if woken then 8 else 1
    case Testing => 2
    case Locking => 3
    case Checking => 4
    case InTask => 5
    case Calling(_) => 6
    case Leaving(_) => 7
    case Waking => 9
  }

  /** What an appender may still do, the task it pushes and the worker it wakes included. */
  ghost function Errand(a: Appender): nat {
    match a
    case Idle => 0
    case Notifying => 10
    case Unlocking => 11
    case Pushing(_) => 20
    case Entering(_) => 21
  }

  /** What the destructor may still do, the n workers it wakes included. */
  ghost function OwnerLeft(owner: Owner, n: nat): nat {
    match owner
    case Spawning(_) => 0
    case SettingControl => 0
    case Alive => 10 * n + 5
    case ReadingFlag => 10 * n + 4
    case Clearing => 10 * n + 3
    case NotifyingAll => 10 * n + 2
    case Joining(next) => if next <= n then n - next + 1 else 0
    case Gone => 0
  }

  ghost function Budget(s: Pool): nat {
    8 * |s.tasks| + Sum(s.workers, Work) + Sum(s.appenders, Errand) + OwnerLeft(s.owner, |s.workers|)
  }

  /** A worker's step frees more than it costs: taking a task pays for one more round. */
  lemma WorkerPays(s: Pool, step: Step)
    requires StillFull(s) && Enabled(s, step) && WorkerStep(step)
    ensures var t := Apply(s, step);
            && t.workers == s.workers[step.w := t.workers[step.w]] && t.appenders == s.appenders && t.owner == s.owner
            && 8 * |t.tasks| + Work(t.workers[step.w]) < 8 * |s.tasks| + Work(s.workers[step.w])
  {
  }

  lemma WorkerBudget(s: Pool, step: Step)
    requires StillFull(s) && Enabled(s, step) && WorkerStep(step)
    ensures Budget(Apply(s, step)) < Budget(s)
  {
    WorkerPays(s, step);
    SumUpdate(s.workers, step.w, Apply(s, step).workers[step.w], Work);
  }

  lemma AppenderBudget(s: Pool, step: Step)
    requires Enabled(s, step) && AppenderStep(step) && !step.Enter?
    ensures Budget(Apply(s, step)) < Budget(s)
  {
    SumUpdate(s.appenders, step.a, Apply(s, step).appenders[step.a], Errand);
    if step.NotifyOne? && step.woken.Some? {
      SumUpdate(s.workers, step.woken.value, Waking, Work);
    }
  }

  lemma {:induction false} WakeWork(workers: seq<Worker>)
    ensures Sum(WakeAll(workers), Work) <= Sum(workers, Work) + 9 * |workers|
  {
    if workers != [] {
      assert WakeAll(workers)[1..] == WakeAll(workers[1..]);
      WakeWork(workers[1..]);
    }
  }

  lemma OwnerBudget(s: Pool, step: Step)
    requires Flags(s) && Enabled(s, step) && CloseStep(step) && OwnerStep(step)
    ensures Budget(Apply(s, step)) < Budget(s)
  {
    if step.NotifyAll? { WakeWork(s.workers); }
  }

  lemma OpenStep(n: nat, a: nat, s: Pool, step: Step)
    requires Open(n, a, s) && Enabled(s, step) && CloseStep(step)
    ensures Open(n, a, Apply(s, step)) && Budget(Apply(s, step)) < Budget(s)
  {
    ReachableStep(n, a, s, step);
    StepBudget(n, a, s, step);
  }

  lemma StepBudget(n: nat, a: nat, s: Pool, step: Step)
    requires Reachable(n, a, s) && Enabled(s, step) && CloseStep(step)
    ensures Budget(Apply(s, step)) < Budget(s)
  {
    InvReachable(n, a, s);
    if AppenderStep(step) {
      AppenderBudget(s, step);
    } else if OwnerStep(step) {
      OwnerBudget(s, step);
    } else {
      WorkerBudget(s, step);
    }
  }

  /** Each step uses up some of the budget. */
  lemma {:induction false} BudgetRun(n: nat, a: nat, s: Pool, steps: seq<Step>, t: Pool)
    requires Open(n, a, s) && Run(s, steps, t) && AllClose(steps)
    ensures Open(n, a, t) && |steps| + Budget(t) <= Budget(s)
    decreases |steps|
  {
    if steps != [] {
      OpenStep(n, a, s, steps[0]);
      BudgetRun(n, a, Apply(s, steps[0]), steps[1..], t);
    }
  }

  lemma BudgetBound(n: nat, a: nat, s: Pool)
    requires Reachable(n, a, s)
    ensures |s.workers| == n && |s.appenders| == a
    ensures Sum(s.workers, Work) <= 9 * n && Sum(s.appenders, Errand) <= 21 * a
  {
    InvReachable(n, a, s);
    SumBound(s.workers, Work, 9);
    SumBound(s.appenders, Errand, 21);
  }

  lemma ClosesLater(s: Pool, step: Step, steps: seq<Step>, t: Pool)
    requires Enabled(s, step) && CloseStep(step) && Closes(Apply(s, step), steps, t)
    ensures Closes(s, [step] + steps, t)
  {
    assert ([step] + steps)[1..] == steps;
  }

  /** From every state there is a schedule to its end. */
  lemma {:induction false} SomeClose(n: nat, a: nat, s: Pool) returns (steps: seq<Step>, t: Pool)
    requires Open(n, a, s)
    ensures Closes(s, steps, t)
    decreases Budget(s)
  {
    if CloseStuck(s) {
      return [], s;
    }
    var step :| CloseStep(step) && Enabled(s, step);
    OpenStep(n, a, s, step);
    var rest;
    rest, t := SomeClose(n, a, Apply(s, step));
    ClosesLater(s, step, rest, t);
    steps := [step] + rest;
  }

  // ----- a running pool works its queue off

  lemma {:induction false} DrainFrame(s: Pool, steps: seq<Step>, t: Pool)
    requires Run(s, steps, t) && AllDrain(steps)
    ensures t.owner == s.owner && t.running == s.running && s.appended <= t.appended
    decreases |steps|
  {
    if steps != [] {
      DrainFrame(Apply(s, steps[0]), steps[1..], t);
    }
  }

  /**
   * While _running holds and nobody starts another append, every schedule is finite, and where it ends the queue is
   * empty, every worker is parked, and Task was called with every pair ever appended.
   */
  lemma DrainsAlways(n: nat, a: nat, s: Pool, steps: seq<Step>, t: Pool)
    requires n > 0 && Open(n, a, s) && s.running && Run(s, steps, t) && AllDrain(steps)
    ensures |steps| <= 8 * |s.tasks| + 9 * n + 21 * a
    ensures Quiet(t) ==> t.tasks == [] && |t.workers| == n && AllWaiting(t) && NoAppends(t)
    ensures Quiet(t) ==> s.appended <= t.appended && forall k :: 0 <= k < |t.appended| ==> Called(t.calls, k)
  {
    DrainFrame(s, steps, t);
    BudgetRun(n, a, s, steps, t);
    BudgetBound(n, a, s);
    BudgetBound(n, a, t);
    if Quiet(t) {
      NoForgottenTask(n, a, t);
      RestCalled(n, a, t);
    }
  }

  lemma RestCalled(n: nat, a: nat, t: Pool)
    requires Open(n, a, t) && Quiet(t) && t.tasks == [] && AllWaiting(t)
    ensures NoAppends(t) && forall k :: 0 <= k < |t.appended| ==> Called(t.calls, k)
  {
    InvReachable(n, a, t);
    QuietMeansParked(t);
    forall k | 0 <= k < |t.appended| ensures Called(t.calls, k) {
      assert HandOf(t.workers[t.popped[k].worker]) == None;
    }
  }

  // ----- from rest the destructor always returns

  /** Where no schedule goes wrong: everybody at rest, or after notify_all nobody about to wait in vain. */
  ghost predicate Calm(s: Pool) {
    NoAppends(s) && if s.notifiedAll then !MayHang(s) else AllWaiting(s)
  }

  lemma CalmBefore(s: Pool, step: Step)
    requires Flags(s) && Built(s) && Calm(s) && !s.notifiedAll && Enabled(s, step) && CloseStep(step)
    ensures Calm(Apply(s, step))
  {
  }

  lemma OnlyTail(s: Pool, step: Step)
    requires Flags(s) && s.notifiedAll && NoAppends(s) && Enabled(s, step) && CloseStep(step)
    ensures TailStep(step)
  {
  }

  lemma CalmStep(n: nat, a: nat, s: Pool, step: Step)
    requires Open(n, a, s) && Calm(s) && Enabled(s, step) && CloseStep(step)
    ensures Calm(Apply(s, step))
  {
    InvReachable(n, a, s);
    if s.notifiedAll {
      OnlyTail(s, step);
      WindingStep(n, a, s, step);
      SafeReachable(n, a, s, step);
    } else {
      CalmBefore(s, step);
    }
  }

  /** When nothing can happen any more the destructor has returned, or it is joining a worker that has not exited. */
  lemma StuckOwner(s: Pool)
    requires Flags(s) && Built(s) && CloseStuck(s)
    ensures s.owner == Gone || (s.owner.Joining? && s.owner.next < |s.workers| && s.workers[s.owner.next] != Exited)
    ensures s.notifiedAll && TailStuck(s)
  {
    assert !Enabled(s, BeginDestroy);
    assert !Enabled(s, ReadFlag);
    assert !Enabled(s, ClearFlag);
    assert !Enabled(s, NotifyAll);
    assert !Enabled(s, Join);
  }

  lemma StuckReachable(n: nat, a: nat, s: Pool)
    requires Open(n, a, s) && CloseStuck(s)
    ensures |s.workers| == n && s.notifiedAll && TailStuck(s) && NoAppends(s)
    ensures forall w :: 0 <= w < n ==> s.workers[w] == Waiting || s.workers[w] == Exited
    ensures s.owner == Gone <==> forall w :: 0 <= w < n ==> s.workers[w] == Exited
  {
    InvReachable(n, a, s);
    StuckOwner(s);
    assert Quiet(s);
    QuietMeansParked(s);
    StuckOutcome(s);
  }

  lemma {:induction false} CalmReturns(n: nat, a: nat, s: Pool, steps: seq<Step>, t: Pool)
    requires Open(n, a, s) && Calm(s) && Closes(s, steps, t)
    ensures t.owner == Gone
    decreases |steps|
  {
    if steps == [] {
      StuckReachable(n, a, s);
      NeverHangs(n, a, s, [], s);
    } else {
      CalmStep(n, a, s, steps[0]);
      OpenStep(n, a, s, steps[0]);
      CalmReturns(n, a, Apply(s, steps[0]), steps[1..], t);
    }
  }

  // ----- from anywhere else some schedule blocks it for ever

  /** Somebody is not at rest. */
  ghost predicate Restless(s: Pool) {
    (exists w :: 0 <= w < |s.workers| && s.workers[w] != Waiting) || !NoAppends(s)
  }

  /** A worker about to wait on the empty queue of a pool without appends. */
  ghost predicate AboutToWait(s: Pool, w: nat) {
    w < |s.workers| && s.workers[w] == Testing && s.tasks == [] && NoAppends(s)
  }

  lemma WorkerRestless(s: Pool, step: Step)
    requires Enabled(s, step) && WorkerStep(step) && (step.Test? ==> s.tasks != [])
    ensures Apply(s, step).workers[step.w] != Waiting && Apply(s, step).owner == s.owner
  {
  }

  lemma WorkerFrameAppenders(s: Pool, step: Step)
    requires Enabled(s, step) && WorkerStep(step)
    ensures Apply(s, step).appenders == s.appenders && Apply(s, step).owner == s.owner
  {
  }

  lemma AppenderRestless(s: Pool, step: Step)
    requires Enabled(s, step) && AppenderStep(step) && |s.workers| > 0
    ensures Restless(Apply(s, step)) && Apply(s, step).owner == s.owner
  {
    var t := Apply(s, step);
    if step.NotifyOne? {
      var w := if step.woken.Some? then step.woken.value else 0;
      assert t.workers[w] != Waiting;
    } else {
      assert t.appenders[step.a] != Idle;
    }
  }

  /** A worker that is neither parked nor inside its critical section can go on as soon as the mutex is free. */
  lemma FreeWorkerCanStep(s: Pool, w: nat) returns (step: Step)
    requires Exclusion(s) && Births(s) && Exits(s) && s.running && Built(s) && s.lock == None
    requires w < |s.workers| && s.workers[w] != Waiting
    ensures Enabled(s, step) && WorkerStep(step) && !step.Test?
  {
    assert !InCritical(s.workers[w]);
    step := match s.workers[w]
      case Checking => Check(w)
      case Locking => Lock(w)
      case Waking => Relock(w)
      case Calling(_) => CallTask(w)
      case _ => Return(w);
  }

  lemma FreeAppenderCanStep(s: Pool, x: nat) returns (step: Step)
    requires Exclusion(s) && s.lock == None && x < |s.appenders| && s.appenders[x] != Idle
    ensures Enabled(s, step) && AppenderStep(step) && !step.Enter?
  {
    if s.appenders[x].Entering? {
      step := LockToPush(x);
    } else {
      step := NotifierCanStep(s, x);
    }
  }

  /** Unless a worker is about to wait for nothing, some thread can go on so that somebody is not at rest afterwards. */
  lemma RestlessStep(n: nat, a: nat, s: Pool) returns (step: Step)
    requires n > 0 && Open(n, a, s) && s.owner == Alive && Restless(s)
    requires forall w: nat :: !AboutToWait(s, w)
    ensures Enabled(s, step) && CloseStep(step) && Apply(s, step).owner == Alive && Restless(Apply(s, step))
  {
    InvReachable(n, a, s);
    if s.lock.Some? {
      step := HolderCanStep(s);
    } else if !NoAppends(s) {
      var x :| 0 <= x < |s.appenders| && s.appenders[x] != Idle;
      step := FreeAppenderCanStep(s, x);
    } else {
      var w :| 0 <= w < |s.workers| && s.workers[w] != Waiting;
      step := FreeWorkerCanStep(s, w);
    }
    if AppenderStep(step) {
      AppenderRestless(s, step);
    } else if NoAppends(s) {
      assert step.Test? ==> !AboutToWait(s, step.w);
      WorkerRestless(s, step);
    } else {
      WorkerFrameAppenders(s, step);
    }
  }

  lemma TailIsClose(n: nat, a: nat, s: Pool, steps: seq<Step>, t: Pool)
    requires Winding(n, a, s) && Settles(s, steps, t)
    ensures Closes(s, steps, t)
  {
    InvReachable(n, a, s);
    WindDownEnds(s, steps, t);
    StuckFlags(t);
  }

  lemma StuckFlags(t: Pool)
    requires Flags(t) && t.notifiedAll && NoAppends(t) && TailStuck(t)
    ensures CloseStuck(t)
  {
    forall step | CloseStep(step) ensures !Enabled(t, step) {
      if Enabled(t, step) { OnlyTail(t, step); }
    }
  }

  /** The destructor from the call to the end of notify_all, with the workers standing still. */
  function Rush(s: Pool): Pool
    requires s.owner == Alive && s.running
  {
    Apply(Apply(Apply(Apply(s, BeginDestroy), ReadFlag), ClearFlag), NotifyAll)
  }

  lemma RushReachable(n: nat, a: nat, s: Pool)
    requires Open(n, a, s) && s.owner == Alive
    ensures s.running && Open(n, a, Rush(s)) && Rush(s).notifiedAll
    ensures Rush(s).workers == WakeAll(s.workers) && Rush(s).tasks == s.tasks && Rush(s).appenders == s.appenders
  {
    InvReachable(n, a, s);
    OpenStep(n, a, s, BeginDestroy);
    OpenStep(n, a, Apply(s, BeginDestroy), ReadFlag);
    OpenStep(n, a, Apply(Apply(s, BeginDestroy), ReadFlag), ClearFlag);
    OpenStep(n, a, Apply(Apply(Apply(s, BeginDestroy), ReadFlag), ClearFlag), NotifyAll);
  }

  lemma RushThen(s: Pool, steps: seq<Step>, t: Pool) returns (all: seq<Step>)
    requires s.owner == Alive && s.running && Closes(Rush(s), steps, t)
    ensures Closes(s, all, t)
  {
    var read := Apply(s, BeginDestroy);
    var clear := Apply(read, ReadFlag);
    var notify := Apply(clear, ClearFlag);
    ClosesLater(notify, NotifyAll, steps, t);
    ClosesLater(clear, ClearFlag, [NotifyAll] + steps, t);
    ClosesLater(read, ReadFlag, [ClearFlag] + ([NotifyAll] + steps), t);
    ClosesLater(s, BeginDestroy, [ReadFlag] + ([ClearFlag] + ([NotifyAll] + steps)), t);
    all := [BeginDestroy] + ([ReadFlag] + ([ClearFlag] + ([NotifyAll] + steps)));
  }

  /** The destructor overtakes a worker that is about to wait. */
  lemma Overtake(n: nat, a: nat, s: Pool, w: nat) returns (steps: seq<Step>, t: Pool)
    requires Open(n, a, s) && s.owner == Alive && AboutToWait(s, w)
    ensures Closes(s, steps, t) && t.owner != Gone
  {
    RushReachable(n, a, s);
    assert Rush(s).workers[w] == Testing;
    var rest;
    rest, t := SomeHangs(n, a, Rush(s));
    var x :| 0 <= x < |t.workers| && t.workers[x] == Waiting;
    HangsAtJoin(n, a, Rush(s), rest, t, x);
    TailIsClose(n, a, Rush(s), rest, t);
    steps := RushThen(s, rest, t);
  }

  lemma {:induction false} RestlessHangs(n: nat, a: nat, s: Pool) returns (steps: seq<Step>, t: Pool)
    requires n > 0 && Open(n, a, s) && s.owner == Alive && Restless(s)
    ensures Closes(s, steps, t) && t.owner != Gone
    decreases Budget(s)
  {
    if w: nat :| AboutToWait(s, w) {
      steps, t := Overtake(n, a, s, w);
    } else {
      var step := RestlessStep(n, a, s);
      OpenStep(n, a, s, step);
      var rest;
      rest, t := RestlessHangs(n, a, Apply(s, step));
      ClosesLater(s, step, rest, t);
      steps := [step] + rest;
    }
  }

  // ----- the theorems

  /** Every schedule from a living pool, destructor included, is finite. */
  lemma CloseEnds(n: nat, a: nat, s: Pool, steps: seq<Step>, t: Pool)
    requires Reachable(n, a, s) && s.owner == Alive && Run(s, steps, t) && AllClose(steps)
    ensures |steps| <= 8 * |s.tasks| + 19 * n + 21 * a + 5
  {
    BudgetBound(n, a, s);
    BudgetRun(n, a, s, steps, t);
  }

  /** The destructor returns on every schedule. */
  ghost predicate SafeToDestroy(s: Pool) {
    forall steps, t :: Closes(s, steps, t) ==> t.owner == Gone
  }

  /** No workers at all, or every worker parked in wait and no append under way. */
  ghost predicate AtRest(s: Pool) {
    s.workers == [] || (AllWaiting(s) && NoAppends(s))
  }

  /**
   * When may a living pool be destroyed? Provided no append starts any more and there are no spurious wakeups, the
   * destructor returns on every schedule exactly when the pool is at rest at the moment of the call.
   */
  lemma DestructorSafeIff(n: nat, a: nat, s: Pool)
    requires Reachable(n, a, s) && s.owner == Alive
    ensures SafeToDestroy(s) <==> AtRest(s)
  {
    BudgetBound(n, a, s);
    if AtRest(s) {
      forall steps, t | Closes(s, steps, t) ensures t.owner == Gone {
        AtRestReturns(n, a, s, steps, t);
      }
    } else {
      var steps, t := RestlessHangs(n, a, s);
    }
  }

  lemma AtRestReturns(n: nat, a: nat, s: Pool, steps: seq<Step>, t: Pool)
    requires Open(n, a, s) && s.owner == Alive && Closes(s, steps, t)
    requires AtRest(s)
    ensures t.owner == Gone
  {
    BudgetBound(n, a, s);
    if n == 0 {
      BudgetRun(n, a, s, steps, t);
      StuckReachable(n, a, t);
    } else {
      NotNotified(n, a, s);
      CalmReturns(n, a, s, steps, t);
    }
  }

  lemma NotNotified(n: nat, a: nat, s: Pool)
    requires Open(n, a, s) && s.owner == Alive
    ensures !s.notifiedAll
  {
    InvReachable(n, a, s);
  }

  // ----- who is parked in the end

  /** Whoever is parked, or on the way to it, was on the way to it when notify_all came. */
  ghost predicate Latecomers(was: seq<Worker>, t: Pool) {
    && |t.workers| == |was| && t.notifiedAll
    && forall w :: 0 <= w < |was| && (t.workers[w] == Waiting || Committed(t.workers[w])) ==> Committed(was[w])
  }

  lemma LatecomersStep(was: seq<Worker>, t: Pool, step: Step)
    requires Flags(t) && Latecomers(was, t) && Enabled(t, step) && CloseStep(step)
    ensures Latecomers(was, Apply(t, step))
  {
    if AppenderStep(step) || OwnerStep(step) {
      LatecomersOthers(was, t, step);
    } else {
      LatecomersWorker(was, t, step);
    }
  }

  lemma LatecomersOthers(was: seq<Worker>, t: Pool, step: Step)
    requires Flags(t) && Latecomers(was, t) && Enabled(t, step) && CloseStep(step) && !WorkerStep(step)
    ensures Latecomers(was, Apply(t, step))
  {
  }

  lemma LatecomersWorker(was: seq<Worker>, t: Pool, step: Step)
    requires Flags(t) && Latecomers(was, t) && Enabled(t, step) && WorkerStep(step)
    ensures Latecomers(was, Apply(t, step))
  {
    FateStep(t, step);
  }

  lemma FlagsReachable(n: nat, a: nat, s: Pool)
    requires Reachable(n, a, s)
    ensures Flags(s) && Lateness(s)
  {
    InvReachable(n, a, s);
  }

  lemma {:induction false} LatecomersRun(n: nat, a: nat, was: seq<Worker>, s: Pool, steps: seq<Step>, t: Pool)
    requires Open(n, a, s) && Latecomers(was, s) && Run(s, steps, t) && AllClose(steps)
    ensures Open(n, a, t) && Latecomers(was, t)
    decreases |steps|
  {
    if steps != [] {
      FlagsReachable(n, a, s);
      LatecomersStep(was, s, steps[0]);
      OpenStep(n, a, s, steps[0]);
      LatecomersRun(n, a, was, Apply(s, steps[0]), steps[1..], t);
    }
  }

  lemma {:induction false} CloseIsTail(n: nat, a: nat, s: Pool, steps: seq<Step>, t: Pool)
    requires Winding(n, a, s) && Closes(s, steps, t)
    ensures Settles(s, steps, t)
    decreases |steps|
  {
    FlagsReachable(n, a, s);
    if steps == [] {
      assert forall step :: TailStep(step) ==> CloseStep(step);
    } else {
      OnlyTail(s, steps[0]);
      WindingStep(n, a, s, steps[0]);
      CloseIsTail(n, a, Apply(s, steps[0]), steps[1..], t);
      SettlesLater(s, steps[0], steps[1..], t);
      assert [steps[0]] + steps[1..] == steps;
    }
  }

  /**
   * From notify_all on, without spurious wakeups but with any appends still under way: in the end each worker is parked
   * or has exited, the parked ones entered wait after notify_all, having read _running as true before it, and the
   * destructor returns iff there is none. Without appends under way the parked ones are exactly those that entered wait
   * after notify_all, and with an empty queue exactly those that were then between their read of _running and their
   * wait.
   */
  lemma Shutdown(n: nat, a: nat, s: Pool, steps: seq<Step>, t: Pool)
    requires Reachable(n, a, s) && Enabled(s, NotifyAll) && Closes(Apply(s, NotifyAll), steps, t)
    ensures |s.workers| == n && |t.workers| == n
    ensures forall w :: 0 <= w < n ==> t.workers[w] == Exited || (t.workers[w] == Waiting && w in t.late)
    ensures forall w :: 0 <= w < n && t.workers[w] == Waiting ==> Committed(s.workers[w])
    ensures t.owner == Gone <==> forall w :: 0 <= w < n ==> t.workers[w] == Exited
    ensures NoAppends(s) ==> forall w :: 0 <= w < n ==> (t.workers[w] == Waiting <==> w in t.late)
    ensures NoAppends(s) && s.tasks == [] ==>
              forall w :: 0 <= w < n ==> (t.workers[w] == Waiting <==> Committed(s.workers[w]))
  {
    var r := Apply(s, NotifyAll);
    AfterNotifyAll(n, a, s);
    LatecomersRun(n, a, s.workers, r, steps, t);
    StuckReachable(n, a, t);
    FlagsReachable(n, a, t);
    if NoAppends(s) {
      CloseIsTail(n, a, r, steps, t);
      WindDown(n, a, r, steps, t);
      if s.tasks == [] { EmptyQueueParks(n, a, r, steps, t); }
    }
  }
}
