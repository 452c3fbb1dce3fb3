/** Calls of Task without a task, and what they need: how many there are, and that the pool is built by then. */
module PoolWakes {
  import opened Options
  import opened Pool
  import opened PoolSafety

  // ----- empty wakes

  /** A worker out of wait that may yet call Task with nothing. */
  ghost function Debt(w: Worker): nat {
    if w == Waking || w == Retesting(true) || w == Leaving(None) || w == Calling(None) then 1 else 0
  }

  ghost function Empty(c: Call): nat {
    if c.hand == None then 1 else 0
  }

  /** Every empty call, made or still to come, is paid for by a notification. */
  ghost predicate Paid(s: Pool) {
    Sum(s.workers, Debt) + Sum(s.calls, Empty) <= s.notifyOnes + if s.notifiedAll then |s.workers| else 0
  }

  lemma {:induction false} SumAppend<T>(s: seq<T>, x: T, weight: T -> nat)
    ensures Sum(s + [x], weight) == Sum(s, weight) + weight(x)
  {
    if s == [] {
      assert ([] + [x])[1..] == [];
    } else {
      assert (s + [x])[1..] == s[1..] + [x];
      SumAppend(s[1..], x, weight);
    }
  }

  /** Waking everybody adds at most one debt a worker. */
  lemma {:induction false} WakeDebt(workers: seq<Worker>)
    ensures Sum(WakeAll(workers), Debt) <= Sum(workers, Debt) + |workers|
  {
    if workers != [] {
      assert WakeAll(workers)[1..] == WakeAll(workers[1..]);
      WakeDebt(workers[1..]);
    }
  }

  /** The only way to a debt without a notification would be to find the queue empty without having waited. */
  lemma DebtFalls(s: Pool, step: Step)
    requires StillFull(s) && Enabled(s, step) && WorkerStep(step)
    ensures step.w < |Apply(s, step).workers|
    ensures Debt(Apply(s, step).workers[step.w])
          + (if step.CallTask? then Empty(Call(step.w, s.workers[step.w].hand)) else 0)
         <= Debt(s.workers[step.w])
  {
  }

  lemma WorkerFrame(s: Pool, step: Step)
    requires Enabled(s, step) && WorkerStep(step)
    ensures var t := Apply(s, step);
            && |t.workers| == |s.workers| && t.workers == s.workers[step.w := t.workers[step.w]]
            && t.notifyOnes == s.notifyOnes && t.notifiedAll == s.notifiedAll
            && t.calls == if step.CallTask? then s.calls + [Call(step.w, s.workers[step.w].hand)] else s.calls
  {
  }

  lemma PaidWorker(s: Pool, step: Step)
    requires Paid(s) && StillFull(s) && Enabled(s, step) && WorkerStep(step)
    ensures Paid(Apply(s, step))
  {
    WorkerFrame(s, step);
    DebtFalls(s, step);
    SumUpdate(s.workers, step.w, Apply(s, step).workers[step.w], Debt);
    if step.CallTask? {
      SumAppend(s.calls, Call(step.w, s.workers[step.w].hand), Empty);
    }
  }

  lemma PaidAppender(s: Pool, step: Step)
    requires Paid(s) && Enabled(s, step) && AppenderStep(step)
    ensures Paid(Apply(s, step))
  {
    if step.NotifyOne? && step.woken.Some? {
      SumUpdate(s.workers, step.woken.value, Waking, Debt);
    }
  }

  lemma PaidOwner(s: Pool, step: Step)
    requires Paid(s) && Flags(s) && Births(s) && Enabled(s, step) && OwnerStep(step)
    ensures Paid(Apply(s, step))
  {
    if step.Spawn? && s.owner.next < |s.workers| {
      SumUpdate(s.workers, s.owner.next, Checking, Debt);
    } else if step.NotifyAll? {
      WakeDebt(s.workers);
    }
  }

  lemma {:induction false} PaidRun(s: Pool, steps: seq<Step>, t: Pool)
    requires Inv(s) && Paid(s) && Run(s, steps, t) && NoSpurious(steps)
    ensures Paid(t)
    decreases |steps|
  {
    if steps != [] {
      InvStep(s, steps[0]);
      if AppenderStep(steps[0]) {
        PaidAppender(s, steps[0]);
      } else if OwnerStep(steps[0]) {
        PaidOwner(s, steps[0]);
      } else {
        PaidWorker(s, steps[0]);
      }
      PaidRun(Apply(s, steps[0]), steps[1..], t);
    }
  }

  /**
   * Without spurious wakeups, calls with no task number at most the notify_one calls, plus n once notify_all was
   * called.
   */
  lemma EmptyWakesBounded(n: nat, a: nat, steps: seq<Step>, s: Pool)
    requires Run(Init(n, a), steps, s) && NoSpurious(steps)
    ensures Sum(s.calls, Empty) <= s.notifyOnes + if s.notifiedAll then n else 0
  {
    InvInit(n, a);
    SumBound(Init(n, a).workers, Debt, 0);
    PaidRun(Init(n, a), steps, s);
    InvRun(Init(n, a), steps, s);
  }

  /** A worker leaves its critical section with nothing exactly when it came through wait and found the queue empty. */
  lemma EmptyHandedIff(n: nat, a: nat, s: Pool, w: nat)
    requires Reachable(n, a, s) && Enabled(s, Retest(w))
    ensures Apply(s, Retest(w)).workers[w] == Leaving(None) <==> s.workers[w] == Retesting(true) && s.tasks == []
    ensures s.tasks == [] ==> Apply(s, Retest(w)) == Move(s, w, Leaving(None))
  {
    InvReachable(n, a, s);
  }

  // ----- Task uses _control

  /** What can have happened before the constructor sets _control, last of all. */
  ghost predicate Dormant(s: Pool) {
    !s.control ==>
      && s.calls == [] && s.tasks == []
      && (forall a :: 0 <= a < |s.appenders| ==> s.appenders[a] == Idle)
      && (forall w :: 0 <= w < |s.workers| ==>
            s.workers[w] in {Unborn, Checking, Locking, Testing, Waiting})
  }

  lemma DormantStep(s: Pool, step: Step)
    requires Dormant(s) && Flags(s) && s.running && !s.control && Enabled(s, step) && !step.Spurious?
    ensures Dormant(Apply(s, step))
  {
  }

  lemma {:induction false} DormantRun(s: Pool, steps: seq<Step>, t: Pool)
    requires Inv(s) && Dormant(s) && Run(s, steps, t) && NoSpurious(steps)
    ensures Dormant(t)
    decreases |steps|
  {
    if steps != [] {
      InvStep(s, steps[0]);
      if !s.control {
        DormantStep(s, steps[0]);
      }
      DormantRun(Apply(s, steps[0]), steps[1..], t);
    }
  }

  /** A spurious wakeup before the constructor has set _control. */
  ghost predicate EarlySpurious(steps: seq<Step>) {
    exists i :: 0 <= i < |steps| && steps[i].Spurious? && SetControl !in steps[..i]
  }

  lemma {:induction false} ControlStays(s: Pool, steps: seq<Step>, t: Pool)
    requires Run(s, steps, t) && !t.control
    ensures !s.control && SetControl !in steps
    decreases |steps|
  {
    if steps != [] {
      ControlStays(Apply(s, steps[0]), steps[1..], t);
      assert steps == [steps[0]] + steps[1..];
    }
  }

  /**
   * Task is never called before the constructor has set the _control it dereferences, unless a worker woke
   * spuriously.
   */
  lemma ControlSetBeforeTask(n: nat, a: nat, steps: seq<Step>, s: Pool, w: nat)
    requires Run(Init(n, a), steps, s) && Enabled(s, CallTask(w))
    ensures s.control || EarlySpurious(steps)
  {
    if !s.control {
      ControlStays(Init(n, a), steps, s);
      QuietStart(n, a, steps, s, w);
      var i :| 0 <= i < |steps| && steps[i].Spurious?;
      assert SetControl !in steps[..i];
    }
  }

  lemma QuietStart(n: nat, a: nat, steps: seq<Step>, s: Pool, w: nat)
    requires Run(Init(n, a), steps, s) && Enabled(s, CallTask(w)) && !s.control
    ensures !NoSpurious(steps)
  {
    if NoSpurious(steps) {
      DormantStart(n, a, steps, s);
    }
  }

  lemma DormantStart(n: nat, a: nat, steps: seq<Step>, s: Pool)
    requires Run(Init(n, a), steps, s) && NoSpurious(steps)
    ensures Dormant(s)
  {
    InvInit(n, a);
    DormantRun(Init(n, a), steps, s);
  }

  /** Before _control is set nothing was appended. */
  ghost predicate Unused(s: Pool) {
    !s.control ==> s.tasks == [] && forall a :: 0 <= a < |s.appenders| ==> s.appenders[a] == Idle
  }

  lemma UnusedStep(s: Pool, step: Step)
    requires Unused(s) && Flags(s) && Enabled(s, step)
    ensures Unused(Apply(s, step))
  {
    if AppenderStep(step) {
      UnusedAppender(s, step);
    } else {
      UnusedOthers(s, step);
    }
  }

  lemma UnusedAppender(s: Pool, step: Step)
    requires Unused(s) && Flags(s) && Enabled(s, step) && AppenderStep(step)
    ensures Unused(Apply(s, step))
  {
  }

  lemma UnusedOthers(s: Pool, step: Step)
    requires Unused(s) && Enabled(s, step) && !AppenderStep(step)
    ensures Unused(Apply(s, step))
  {
  }

  lemma {:induction false} UnusedRun(s: Pool, steps: seq<Step>, t: Pool)
    requires Inv(s) && Unused(s) && Run(s, steps, t)
    ensures Unused(t)
    decreases |steps|
  {
    if steps != [] {
      InvStep(s, steps[0]);
      UnusedStep(s, steps[0]);
      UnusedRun(Apply(s, steps[0]), steps[1..], t);
    }
  }

  /** A pool still under construction: what its workers find. */
  ghost predicate Nascent(s: Pool) {
    Exclusion(s) && StillFull(s) && Unused(s) && s.running && !s.control && Exits(s)
  }

  lemma NascentReachable(n: nat, a: nat, s: Pool)
    requires Reachable(n, a, s) && !s.control
    ensures Nascent(s) && |s.workers| == n
  {
    InvReachable(n, a, s);
    UnusedReachable(n, a, s);
  }

  lemma UnusedReachable(n: nat, a: nat, s: Pool)
    requires Reachable(n, a, s)
    ensures Unused(s)
  {
    var steps :| Run(Init(n, a), steps, s);
    InvInit(n, a);
    UnusedRun(Init(n, a), steps, s);
  }

  predicate Eager(step: Step) {
    WorkerStep(step) || step.Spurious?
  }

  predicate AllEager(steps: seq<Step>) {
    forall i :: 0 <= i < |steps| ==> Eager(steps[i])
  }

  /** How far a worker is from calling Task with nothing. */
  ghost function Ahead(w: Worker): nat {
    match w
    case Calling(_) => 0
    case Leaving(_) => 1
    case Retesting(_) => 2
    case Waking => 3
    case Waiting => 4
    case Testing => 5
    case Locking => 6
    case Checking => 7
    case InTask => 8
    case Unborn => 9
    case Exited => 9
  }

  /** How far the holder of the mutex is from releasing it, when the queue is empty. */
  ghost function HolderLeft(s: Pool): nat {
    match s.lock
    case Some(W(x)) => if x < |s.workers| && s.workers[x].Retesting? then 2 else 1
    case _ => 0
  }

  /** The holder of the mutex moves towards releasing it. */
  lemma NudgeHolder(s: Pool, w: nat) returns (step: Step)
    requires Nascent(s) && s.lock.Some? && w < |s.workers| && !InCritical(s.workers[w])
    ensures Enabled(s, step) && WorkerStep(step)
    ensures Apply(s, step).workers[w] == s.workers[w] && HolderLeft(Apply(s, step)) < HolderLeft(s)
  {
    match s.lock.value
    case W(x) =>
      step := if s.workers[x] == Testing then Test(x) else if s.workers[x].Retesting? then Retest(x) else Unlock(x);
    case A(y) =>
      assert false;
  }

  /** Worker w itself moves towards its call. */
  lemma NudgeWorker(s: Pool, w: nat) returns (step: Step)
    requires Nascent(s) && w < |s.workers| && s.workers[w] != Unborn && !s.workers[w].Calling?
    requires s.lock == None || (s.workers[w] != Waking && s.workers[w] != Locking)
    ensures Enabled(s, step) && Eager(step) && Ahead(Apply(s, step).workers[w]) < Ahead(s.workers[w])
  {
    step := match s.workers[w]
      case Checking => Check(w)
      case Locking => Lock(w)
      case Testing => Test(w)
      case Waiting => Spurious(w)
      case Waking => Relock(w)
      case Retesting(_) => Retest(w)
      case Leaving(_) => Unlock(w)
      case _ => Return(w);
  }

  lemma EagerFrame(s: Pool, step: Step, w: nat)
    requires Enabled(s, step) && Eager(step) && w < |s.workers|
    ensures Apply(s, step).control == s.control
    ensures s.workers[w] == Unborn ==> Apply(s, step).workers[w] == Unborn
  {
  }

  lemma Nudge(n: nat, a: nat, s: Pool, w: nat) returns (step: Step)
    requires Reachable(n, a, s) && !s.control && w < |s.workers| && s.workers[w] != Unborn && !s.workers[w].Calling?
    ensures Enabled(s, step) && Eager(step)
    ensures var t := Apply(s, step);
            && Reachable(n, a, t) && !t.control && t.workers[w] != Unborn
            && (Ahead(t.workers[w]) < Ahead(s.workers[w])
                || (t.workers[w] == s.workers[w] && HolderLeft(t) < HolderLeft(s)))
  {
    NascentReachable(n, a, s);
    if s.lock.Some? && (s.workers[w] == Waking || s.workers[w] == Locking) {
      step := NudgeHolder(s, w);
    } else {
      step := NudgeWorker(s, w);
    }
    EagerFrame(s, step, w);
    ReachableStep(n, a, s, step);
  }

  /** Worker and spurious steps lead from s to t, where w is about to call Task and there is no _control yet. */
  ghost predicate CallsEarly(s: Pool, steps: seq<Step>, t: Pool, w: nat) {
    Run(s, steps, t) && AllEager(steps) && Enabled(t, CallTask(w)) && !t.control
  }

  lemma CallsLater(s: Pool, step: Step, steps: seq<Step>, t: Pool, w: nat)
    requires Enabled(s, step) && Eager(step) && CallsEarly(Apply(s, step), steps, t, w)
    ensures CallsEarly(s, [step] + steps, t, w)
  {
    assert ([step] + steps)[1..] == steps;
  }

  /** From any state under construction, any worker that exists can be brought to call Task with nothing. */
  lemma {:induction false} EarlyCall(n: nat, a: nat, s: Pool, w: nat) returns (steps: seq<Step>, t: Pool)
    requires Reachable(n, a, s) && !s.control && w < |s.workers| && s.workers[w] != Unborn
    ensures CallsEarly(s, steps, t, w)
    decreases Ahead(s.workers[w]), HolderLeft(s)
  {
    if s.workers[w].Calling? {
      return [], s;
    }
    var step := Nudge(n, a, s, w);
    var rest;
    rest, t := EarlyCall(n, a, Apply(s, step), w);
    CallsLater(s, step, rest, t, w);
    steps := [step] + rest;
  }

  lemma {:induction false} UnbornStays(s: Pool, steps: seq<Step>, t: Pool, w: nat)
    requires Run(s, steps, t) && AllEager(steps) && w < |s.workers| && s.workers[w] == Unborn
    ensures w < |t.workers| && t.workers[w] == Unborn && !CallsEarly(s, steps, t, w)
    decreases |steps|
  {
    if steps != [] {
      EagerFrame(s, steps[0], w);
      UnbornStays(Apply(s, steps[0]), steps[1..], t, w);
    }
  }

  /**
   * Until the constructor sets _control, worker and spurious steps alone can bring worker w to call Task, exactly when
   * its thread has been created.
   */
  lemma EarlyCallIff(n: nat, a: nat, s: Pool, w: nat)
    requires Reachable(n, a, s) && !s.control && w < n
    ensures |s.workers| == n
    ensures (exists steps, t :: CallsEarly(s, steps, t, w)) <==> s.workers[w] != Unborn
  {
    SizeReachable(n, a, s);
    if s.workers[w] != Unborn {
      var steps, t := EarlyCall(n, a, s, w);
    } else {
      forall steps, t ensures !CallsEarly(s, steps, t, w) {
        if CallsEarly(s, steps, t, w) { UnbornStays(s, steps, t, w); }
      }
    }
  }

  lemma SizeReachable(n: nat, a: nat, s: Pool)
    requires Reachable(n, a, s)
    ensures |s.workers| == n
  {
    InvReachable(n, a, s);
  }

  /** The smallest case: one worker, created but not yet given a _control, wakes spuriously and calls Task. */
  lemma SpuriousCallBeforeControl()
    ensures exists s :: Reachable(1, 0, s) && Enabled(s, CallTask(0)) && !s.control
  {
    ReachableInit(1, 0);
    var s := Apply(Init(1, 0), Spawn);
    ReachableStep(1, 0, Init(1, 0), Spawn);
    var steps, t := EarlyCall(1, 0, s, 0);
    ReachableRun(1, 0, s, steps, t);
  }

  lemma {:induction false} ReachableRun(n: nat, a: nat, s: Pool, steps: seq<Step>, t: Pool)
    requires Reachable(n, a, s) && Run(s, steps, t)
    ensures Reachable(n, a, t)
    decreases |steps|
  {
    if steps != [] {
      ReachableStep(n, a, s, steps[0]);
      ReachableRun(n, a, Apply(s, steps[0]), steps[1..], t);
    }
  }
}
