/** What every interleaving keeps: mutual exclusion, conservation and order of the tasks, and no forgotten work. */
module PoolSafety {
  import opened Options
  import opened Pool

  // ----- mutual exclusion and the life cycle

  predicate InCritical(w: Worker) {
    w == Testing || w.Retesting? || w.Leaving?
  }

  /** Exactly the thread recorded in the lock is in its critical section. */
  ghost predicate Exclusion(s: Pool) {
    && (forall w :: 0 <= w < |s.workers| ==> (InCritical(s.workers[w]) <==> s.lock == Some(W(w))))
    && (forall a :: 0 <= a < |s.appenders| ==>
          (s.appenders[a].Pushing? || s.appenders[a] == Unlocking <==> s.lock == Some(A(a))))
    && (s.lock.Some? ==> match s.lock.value case W(w) => w < |s.workers| case A(a) => a < |s.appenders|)
  }

  /** A worker that skipped the wait still finds a task: nobody else can have taken it. */
  ghost predicate StillFull(s: Pool) {
    forall w :: 0 <= w < |s.workers| && s.workers[w] == Retesting(false) ==> s.tasks != []
  }

  /** How the flags follow the thread that constructs and destroys the pool. */
  ghost predicate Flags(s: Pool) {
    && (s.running <==> !s.owner.NotifyingAll? && !s.owner.Joining? && !s.owner.Gone?)
    && (s.control <==> Built(s))
    && (s.notifiedAll <==> s.owner.Joining? || s.owner.Gone?)
    && (s.owner.Spawning? ==> s.owner.next <= |s.workers|)
    && (s.owner.Joining? ==> s.owner.next <= |s.workers|)
  }

  /** Workers exist once spawned. */
  ghost predicate Births(s: Pool) {
    forall w :: 0 <= w < |s.workers| ==> (s.workers[w] == Unborn <==> s.owner.Spawning? && s.owner.next <= w)
  }

  /** Workers exit only after _running was cleared, and are joined only after they exited. */
  ghost predicate Exits(s: Pool) {
    && (s.running ==> forall w :: 0 <= w < |s.workers| ==> s.workers[w] != Exited)
    && (s.owner.Joining? ==> forall w :: 0 <= w < s.owner.next && w < |s.workers| ==> s.workers[w] == Exited)
    && (s.owner.Gone? ==> forall w :: 0 <= w < |s.workers| ==> s.workers[w] == Exited)
  }

  /** After notify_all only workers that entered wait later are parked. */
  ghost predicate Lateness(s: Pool) {
    && (s.notifiedAll ==> forall w :: 0 <= w < |s.workers| && s.workers[w] == Waiting ==> w in s.late)
    && (!s.notifiedAll ==> s.late == {})
  }

  ghost predicate LifeCycle(s: Pool) {
    Flags(s) && Births(s) && Exits(s) && Lateness(s)
  }

  lemma ExclusionStep(s: Pool, step: Step)
    requires Exclusion(s) && Births(s) && Enabled(s, step)
    ensures Exclusion(Apply(s, step))
  {
    if AppenderStep(step) {
      ExclusionAppender(s, step);
    } else if OwnerStep(step) {
      ExclusionOwner(s, step);
    } else if step.Lock? || step.Relock? || step.Test? || step.Unlock? {
      ExclusionLock(s, step);
    } else {
      ExclusionWorker(s, step);
    }
  }

  lemma ExclusionLock(s: Pool, step: Step)
    requires Exclusion(s) && Enabled(s, step) && (step.Lock? || step.Relock? || step.Test? || step.Unlock?)
    ensures Exclusion(Apply(s, step))
  {
  }

  lemma ExclusionWorker(s: Pool, step: Step)
    requires Exclusion(s) && Enabled(s, step)
    requires step.Check? || step.Retest? || step.CallTask? || step.Return? || step.Spurious?
    ensures Exclusion(Apply(s, step))
  {
  }

  lemma ExclusionAppender(s: Pool, step: Step)
    requires Exclusion(s) && Enabled(s, step) && AppenderStep(step)
    ensures Exclusion(Apply(s, step))
  {
  }

  lemma ExclusionOwner(s: Pool, step: Step)
    requires Exclusion(s) && Births(s) && Enabled(s, step) && OwnerStep(step)
    ensures Exclusion(Apply(s, step))
  {
  }

  lemma StillFullStep(s: Pool, step: Step)
    requires Exclusion(s) && StillFull(s) && Enabled(s, step)
    ensures StillFull(Apply(s, step))
  {
    if AppenderStep(step) || OwnerStep(step) {
      StillFullOthers(s, step);
    } else {
      StillFullWorker(s, step);
    }
  }

  lemma StillFullOthers(s: Pool, step: Step)
    requires StillFull(s) && Enabled(s, step) && (AppenderStep(step) || OwnerStep(step))
    ensures StillFull(Apply(s, step))
  {
  }

  lemma StillFullWorker(s: Pool, step: Step)
    requires Exclusion(s) && StillFull(s) && Enabled(s, step) && (WorkerStep(step) || step.Spurious?)
    ensures StillFull(Apply(s, step))
  {
  }

  lemma FlagsStep(s: Pool, step: Step)
    requires Flags(s) && Enabled(s, step)
    ensures Flags(Apply(s, step))
  {
  }

  lemma BirthsStep(s: Pool, step: Step)
    requires Births(s) && Flags(s) && Enabled(s, step)
    ensures Births(Apply(s, step))
  {
  }

  lemma ExitsStep(s: Pool, step: Step)
    requires Exits(s) && Flags(s) && Births(s) && Enabled(s, step)
    ensures Exits(Apply(s, step))
  {
    if OwnerStep(step) {
      ExitsOwner(s, step);
    } else {
      ExitsOthers(s, step);
    }
  }

  lemma ExitsOwner(s: Pool, step: Step)
    requires Exits(s) && Flags(s) && Births(s) && Enabled(s, step) && OwnerStep(step)
    ensures Exits(Apply(s, step))
  {
  }

  lemma ExitsOthers(s: Pool, step: Step)
    requires Exits(s) && Flags(s) && Enabled(s, step) && !OwnerStep(step)
    ensures Exits(Apply(s, step))
  {
  }

  lemma LatenessStep(s: Pool, step: Step)
    requires Lateness(s) && Flags(s) && Enabled(s, step)
    ensures Lateness(Apply(s, step))
  {
  }

  lemma LifeCycleStep(s: Pool, step: Step)
    requires LifeCycle(s) && Enabled(s, step)
    ensures LifeCycle(Apply(s, step))
  {
    FlagsStep(s, step);
    BirthsStep(s, step);
    ExitsStep(s, step);
    LatenessStep(s, step);
  }

  // ----- conservation, order, and who calls Task with what

  ghost function TasksOf(popped: seq<Pop>): seq<Task> {
    seq(|popped|, k requires 0 <= k < |popped| => popped[k].task)
  }

  /** First in, first out: the pops so far followed by the queue are the pushes so far. */
  ghost predicate Conserved(s: Pool) {
    s.appended == TasksOf(s.popped) + s.tasks
  }

  lemma ConservedStep(s: Pool, step: Step)
    requires Conserved(s) && Enabled(s, step)
    ensures Conserved(Apply(s, step))
  {
    var t := Apply(s, step);
    if step.Push? {
      assert t.appended == TasksOf(s.popped) + (s.tasks + [s.appenders[step.a].task]);
    } else if step.Retest? && s.tasks != [] {
      assert TasksOf(t.popped) == TasksOf(s.popped) + [s.tasks[0]];
      assert s.tasks == [s.tasks[0]] + t.tasks;
    }
  }

  function HandOf(w: Worker): Hand {
    match w
    case Leaving(hand) => hand
    case Calling(hand) => hand
    case _ => None
  }

  ghost predicate Called(calls: seq<Call>, k: nat) {
    exists c :: 0 <= c < |calls| && calls[c].hand == Some(k)
  }

  /** Whatever a worker holds it popped itself, and Task has not been called with it yet. */
  ghost predicate Held(s: Pool) {
    forall w :: 0 <= w < |s.workers| && HandOf(s.workers[w]).Some? ==>
      var k := HandOf(s.workers[w]).value;
      k < |s.popped| && s.popped[k].worker == w && !Called(s.calls, k)
  }

  /** Task is called with a popped pair only by the worker that popped it, and never twice with the same one. */
  ghost predicate CalledOnce(s: Pool) {
    && (forall c :: 0 <= c < |s.calls| && s.calls[c].hand.Some? ==>
          s.calls[c].hand.value < |s.popped| && s.popped[s.calls[c].hand.value].worker == s.calls[c].worker)
    && (forall c, d :: 0 <= c < d < |s.calls| && s.calls[c].hand.Some? ==> s.calls[c].hand != s.calls[d].hand)
  }

  /** No popped pair is lost: it is still held by its worker, or Task was called with it. */
  ghost predicate Accounted(s: Pool) {
    forall k :: 0 <= k < |s.popped| ==>
      && s.popped[k].worker < |s.workers|
      && (HandOf(s.workers[s.popped[k].worker]) == Some(k) || Called(s.calls, k))
  }

  /** The hand of worker w after a step: it changes only where w takes a pair or passes it to Task. */
  function HandAfter(s: Pool, step: Step, w: nat): Hand
    requires w < |s.workers|
  {
    if step == CallTask(w) then None
    else if step == Retest(w) && s.tasks != [] then Some(|s.popped|)
    else HandOf(s.workers[w])
  }

  lemma HandsAfterOthers(s: Pool, step: Step, w: nat)
    requires Births(s) && Enabled(s, step) && w < |s.workers| && (AppenderStep(step) || OwnerStep(step))
    ensures |Apply(s, step).workers| == |s.workers|
    ensures HandOf(Apply(s, step).workers[w]) == HandOf(s.workers[w])
  {
  }

  lemma HandsAfterWorker(s: Pool, step: Step, w: nat)
    requires Enabled(s, step) && w < |s.workers| && (WorkerStep(step) || step.Spurious?)
    ensures |Apply(s, step).workers| == |s.workers|
    ensures HandOf(Apply(s, step).workers[w]) == HandAfter(s, step, w)
  {
    var i := step.w;
    assert Apply(s, step).workers == s.workers[i := Apply(s, step).workers[i]];
  }

  lemma HandsAfter(s: Pool, step: Step, w: nat)
    requires Births(s) && Enabled(s, step) && w < |s.workers|
    ensures |Apply(s, step).workers| == |s.workers|
    ensures HandOf(Apply(s, step).workers[w]) == HandAfter(s, step, w)
  {
    if AppenderStep(step) || OwnerStep(step) {
      HandsAfterOthers(s, step, w);
    } else {
      HandsAfterWorker(s, step, w);
    }
  }

  lemma HistoryAfter(s: Pool, step: Step)
    requires Enabled(s, step)
    ensures Apply(s, step).popped
         == if step.Retest? && s.tasks != [] then s.popped + [Pop(s.tasks[0], step.w)] else s.popped
    ensures Apply(s, step).calls
         == if step.CallTask? then s.calls + [Call(step.w, HandOf(s.workers[step.w]))] else s.calls
  {
  }

  lemma CalledAppend(calls: seq<Call>, call: Call, k: nat)
    ensures Called(calls + [call], k) <==> Called(calls, k) || call.hand == Some(k)
  {
    if Called(calls, k) {
      var c :| 0 <= c < |calls| && calls[c].hand == Some(k);
      assert (calls + [call])[c].hand == Some(k);
    }
    if call.hand == Some(k) {
      assert (calls + [call])[|calls|].hand == Some(k);
    }
  }

  lemma HeldStep(s: Pool, step: Step)
    requires Births(s) && Held(s) && CalledOnce(s) && Enabled(s, step)
    ensures Held(Apply(s, step))
  {
    var t := Apply(s, step);
    HistoryAfter(s, step);
    forall w | 0 <= w < |t.workers| && HandOf(t.workers[w]).Some?
      ensures var k := HandOf(t.workers[w]).value; k < |t.popped| && t.popped[k].worker == w && !Called(t.calls, k)
    {
      HandsAfter(s, step, 0);
      HandsAfter(s, step, w);
      var k := HandOf(t.workers[w]).value;
      if step.CallTask? {
        CalledAppend(s.calls, Call(step.w, HandOf(s.workers[step.w])), k);
      }
    }
  }

  lemma CalledOnceStep(s: Pool, step: Step)
    requires Held(s) && CalledOnce(s) && Enabled(s, step)
    ensures CalledOnce(Apply(s, step))
  {
    HistoryAfter(s, step);
    if step.CallTask? && HandOf(s.workers[step.w]).Some? {
      assert !Called(s.calls, HandOf(s.workers[step.w]).value);
    }
  }

  lemma AccountedStep(s: Pool, step: Step)
    requires Births(s) && Accounted(s) && Enabled(s, step)
    ensures Accounted(Apply(s, step))
  {
    HistoryAfter(s, step);
    forall k | 0 <= k < |Apply(s, step).popped| {
      AccountedAt(s, step, k);
    }
  }

  lemma AccountedAt(s: Pool, step: Step, k: nat)
    requires Births(s) && Accounted(s) && Enabled(s, step) && k < |Apply(s, step).popped|
    ensures var t := Apply(s, step);
            && t.popped[k].worker < |t.workers|
            && (HandOf(t.workers[t.popped[k].worker]) == Some(k) || Called(t.calls, k))
  {
    HistoryAfter(s, step);
    HandsAfter(s, step, Apply(s, step).popped[k].worker);
    if step.CallTask? {
      CalledAppend(s.calls, Call(step.w, HandOf(s.workers[step.w])), k);
    }
  }

  // ----- no forgotten work

  ghost function Parked(w: Worker): nat {
    if w == Waiting then 1 else 0
  }

  /** An appender that pushed and has yet to notify. */
  ghost function Promised(a: Appender): nat {
    if a == Unlocking || a == Notifying then 1 else 0
  }

  /** As long as a worker is parked, each queued task has its own awake worker or pending notification. */
  ghost predicate Spare(s: Pool) {
    Sum(s.workers, Parked) > 0 ==> |s.tasks| + Sum(s.workers, Parked) <= |s.workers| + Sum(s.appenders, Promised)
  }

  lemma SpareAppender(s: Pool, step: Step)
    requires Spare(s) && Enabled(s, step) && AppenderStep(step)
    ensures Spare(Apply(s, step))
  {
    var t := Apply(s, step);
    SumUpdate(s.appenders, step.a, t.appenders[step.a], Promised);
    if step.NotifyOne? {
      match step.woken
      case Some(w) => SumUpdate(s.workers, w, Waking, Parked);
      case None => SumBound(s.workers, Parked, 0);
    }
  }

  lemma SpareWorker(s: Pool, step: Step)
    requires Spare(s) && Enabled(s, step) && (WorkerStep(step) || step.Spurious?)
    ensures Spare(Apply(s, step))
  {
    var t := Apply(s, step);
    SumUpdate(s.workers, step.w, t.workers[step.w], Parked);
    SumBound(t.workers, Parked, 1);
  }

  lemma SpareOwner(s: Pool, step: Step)
    requires Spare(s) && Births(s) && Enabled(s, step) && OwnerStep(step)
    ensures Spare(Apply(s, step))
  {
    var t := Apply(s, step);
    if step.Spawn? && s.owner.next < |s.workers| {
      SumUpdate(s.workers, s.owner.next, Checking, Parked);
    } else if step.NotifyAll? {
      SumBound(t.workers, Parked, 0);
    }
  }

  // ----- every reachable state

  ghost predicate Inv(s: Pool) {
    && Exclusion(s) && StillFull(s) && LifeCycle(s)
    && Conserved(s) && Held(s) && CalledOnce(s) && Accounted(s)
    && Spare(s)
  }

  lemma InvInit(n: nat, a: nat)
    ensures Inv(Init(n, a))
  {
    SumBound(Init(n, a).workers, Parked, 0);
    assert TasksOf([]) == [];
  }

  lemma InvStep(s: Pool, step: Step)
    requires Inv(s) && Enabled(s, step)
    ensures Inv(Apply(s, step))
  {
    ExclusionStep(s, step);
    StillFullStep(s, step);
    LifeCycleStep(s, step);
    ConservedStep(s, step);
    HeldStep(s, step);
    CalledOnceStep(s, step);
    AccountedStep(s, step);
    if AppenderStep(step) {
      SpareAppender(s, step);
    } else if OwnerStep(step) {
      SpareOwner(s, step);
    } else {
      SpareWorker(s, step);
    }
  }

  /** The invariants hold after any number of steps, in any order the threads may take. */
  lemma {:induction false} InvRun(s: Pool, steps: seq<Step>, t: Pool)
    requires Inv(s) && Run(s, steps, t)
    ensures Inv(t) && |t.workers| == |s.workers| && |t.appenders| == |s.appenders|
    decreases |steps|
  {
    if steps != [] {
      InvStep(s, steps[0]);
      InvRun(Apply(s, steps[0]), steps[1..], t);
    }
  }

  lemma InvReachable(n: nat, a: nat, s: Pool)
    requires Reachable(n, a, s)
    ensures Inv(s) && |s.workers| == n && |s.appenders| == a
  {
    var steps :| Run(Init(n, a), steps, s);
    InvInit(n, a);
    InvRun(Init(n, a), steps, s);
  }

  // ----- the theorems

  /** What was appended is, in lock order, what was popped followed by what is still queued. */
  lemma ConservationAndOrder(n: nat, a: nat, s: Pool)
    requires Reachable(n, a, s)
    ensures |s.appended| == |s.popped| + |s.tasks|
    ensures forall k :: 0 <= k < |s.appended| ==>
              s.appended[k] == if k < |s.popped| then s.popped[k].task else s.tasks[k - |s.popped|]
  {
    InvReachable(n, a, s);
  }

  /** Every popped pair is in its worker's hand or was passed to Task, never both; and only by that worker, once. */
  lemma EachTaskOnce(n: nat, a: nat, s: Pool, k: nat)
    requires Reachable(n, a, s) && k < |s.popped|
    ensures |s.workers| == n && s.popped[k].worker < n
    ensures HandOf(s.workers[s.popped[k].worker]) == Some(k) <==> !Called(s.calls, k)
    ensures forall w :: 0 <= w < n && w != s.popped[k].worker ==> HandOf(s.workers[w]) != Some(k)
    ensures forall c :: 0 <= c < |s.calls| && s.calls[c].hand == Some(k) ==> s.calls[c].worker == s.popped[k].worker
    ensures forall c, d :: 0 <= c < d < |s.calls| ==> !(s.calls[c].hand == Some(k) && s.calls[d].hand == Some(k))
  {
    InvReachable(n, a, s);
  }

  function Min(x: nat, y: nat): nat {
    if x <= y then x else y
  }

  /** Queued tasks are matched by workers that are not parked and notifications still to come. */
  lemma WorkConservation(n: nat, a: nat, s: Pool)
    requires Reachable(n, a, s)
    ensures Min(|s.tasks|, n) <= (n - Sum(s.workers, Parked)) + Sum(s.appenders, Promised)
  {
    InvReachable(n, a, s);
    SumBound(s.workers, Parked, 1);
  }

  /** No thread of the pool can go on, and no append is under way. */
  ghost predicate Quiet(s: Pool) {
    forall step :: WorkerStep(step) || (AppenderStep(step) && !step.Enter?) ==> !Enabled(s, step)
  }

  /** Whoever holds the mutex can always go on. */
  lemma HolderCanStep(s: Pool) returns (step: Step)
    requires Exclusion(s) && s.lock.Some?
    ensures Enabled(s, step) && (WorkerStep(step) || step.Push? || step.UnlockPushed?)
  {
    match s.lock.value
    case W(w) =>
      step := if s.workers[w] == Testing then Test(w) else if s.workers[w].Retesting? then Retest(w) else Unlock(w);
    case A(a) =>
      step := if s.appenders[a].Pushing? then Push(a) else UnlockPushed(a);
  }

  /** notify_one never blocks. */
  lemma NotifierCanStep(s: Pool, a: nat) returns (step: Step)
    requires a < |s.appenders| && s.appenders[a] == Notifying
    ensures Enabled(s, step) && step.NotifyOne?
  {
    if w: nat :| w < |s.workers| && s.workers[w] == Waiting {
      step := NotifyOne(a, Some(w));
    } else {
      step := NotifyOne(a, None);
    }
  }

  lemma QuietMeansUnlocked(s: Pool)
    requires Exclusion(s) && Quiet(s)
    ensures s.lock == None
  {
    if s.lock.Some? {
      var step := HolderCanStep(s);
    }
  }

  lemma QuietWorker(s: Pool, w: nat)
    requires Exclusion(s) && Births(s) && Built(s) && Quiet(s) && w < |s.workers|
    ensures s.workers[w] == Waiting || s.workers[w] == Exited
  {
    QuietMeansUnlocked(s);
    assert !Enabled(s, Check(w));
    assert !Enabled(s, Lock(w));
    assert !Enabled(s, Relock(w));
    assert !Enabled(s, CallTask(w));
    assert !Enabled(s, Return(w));
  }

  lemma QuietAppender(s: Pool, a: nat)
    requires Exclusion(s) && Quiet(s) && a < |s.appenders|
    ensures s.appenders[a] == Idle
  {
    QuietMeansUnlocked(s);
    assert !Enabled(s, LockToPush(a));
    if s.appenders[a] == Notifying {
      var step := NotifierCanStep(s, a);
    }
  }

  /** There is no deadlock: when nothing can go on, each worker is parked or done and no append is under way. */
  lemma QuietMeansParked(s: Pool)
    requires Exclusion(s) && Births(s) && Built(s) && Quiet(s)
    ensures forall w :: 0 <= w < |s.workers| ==> s.workers[w] == Waiting || s.workers[w] == Exited
    ensures forall a :: 0 <= a < |s.appenders| ==> s.appenders[a] == Idle
  {
    forall w | 0 <= w < |s.workers| ensures s.workers[w] == Waiting || s.workers[w] == Exited {
      QuietWorker(s, w);
    }
    forall a | 0 <= a < |s.appenders| ensures s.appenders[a] == Idle {
      QuietAppender(s, a);
    }
  }

  /** While the pool runs, it never comes to rest with a task in the queue. */
  lemma NoForgottenTask(n: nat, a: nat, s: Pool)
    requires n > 0 && Reachable(n, a, s) && s.running && Built(s) && Quiet(s)
    ensures s.tasks == [] && |s.workers| == n
    ensures forall w :: 0 <= w < n ==> s.workers[w] == Waiting
    ensures TasksOf(s.popped) == s.appended
  {
    InvReachable(n, a, s);
    QuietMeansParked(s);
    SumBound(s.appenders, Promised, 0);
    AllParked(s.workers);
    assert TasksOf(s.popped) + [] == TasksOf(s.popped);
  }

  lemma {:induction false} AllParked(workers: seq<Worker>)
    requires forall w :: 0 <= w < |workers| ==> workers[w] == Waiting
    ensures Sum(workers, Parked) == |workers|
  {
    if workers != [] {
      AllParked(workers[1..]);
    }
  }
}
