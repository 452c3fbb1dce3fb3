/** The destructor: how the workers wind down after it clears _running, and when its joins return. */
module PoolShutdown {
  import opened Options
  import opened Pool
  import opened PoolSafety

  // ----- after _running is cleared, at most one more Task per worker

  /** A worker that cannot start another task without reading _running again. */
  predicate Spent(w: Worker) {
    w == InTask || w == Checking || w == Exited
  }

  ghost predicate TailBound(s: Pool) {
    !s.running ==>
      && s.clearedAt <= |s.calls|
      && (forall c :: s.clearedAt <= c < |s.calls| ==>
            s.calls[c].worker < |s.workers| && Spent(s.workers[s.calls[c].worker]))
      && (forall c, d :: s.clearedAt <= c < d < |s.calls| ==> s.calls[c].worker != s.calls[d].worker)
  }

  lemma TailBoundStep(s: Pool, step: Step)
    requires TailBound(s) && Flags(s) && Enabled(s, step)
    ensures TailBound(Apply(s, step))
  {
    if AppenderStep(step) {
      TailBoundAppender(s, step);
    } else if OwnerStep(step) {
      TailBoundOwner(s, step);
    } else if step.CallTask? {
      TailBoundCall(s, step.w);
    } else {
      TailBoundWorker(s, step);
    }
  }

  lemma TailBoundOwner(s: Pool, step: Step)
    requires TailBound(s) && Flags(s) && Enabled(s, step) && OwnerStep(step)
    ensures TailBound(Apply(s, step))
  {
  }

  lemma TailBoundAppender(s: Pool, step: Step)
    requires TailBound(s) && Enabled(s, step) && AppenderStep(step)
    ensures TailBound(Apply(s, step))
  {
  }

  lemma TailBoundCall(s: Pool, w: nat)
    requires TailBound(s) && Enabled(s, CallTask(w))
    ensures TailBound(Apply(s, CallTask(w)))
  {
  }

  lemma TailBoundWorker(s: Pool, step: Step)
    requires TailBound(s) && Enabled(s, step) && (WorkerStep(step) || step.Spurious?) && !step.CallTask?
    ensures TailBound(Apply(s, step))
  {
    var t := Apply(s, step);
    assert t.workers == s.workers[step.w := t.workers[step.w]];
    assert !s.running && Spent(s.workers[step.w]) ==> Spent(t.workers[step.w]);
  }

  lemma {:induction false} TailBoundRun(s: Pool, steps: seq<Step>, t: Pool)
    requires Inv(s) && TailBound(s) && Run(s, steps, t)
    ensures TailBound(t)
    decreases |steps|
  {
    if steps != [] {
      InvStep(s, steps[0]);
      TailBoundStep(s, steps[0]);
      TailBoundRun(Apply(s, steps[0]), steps[1..], t);
    }
  }

  /** Distinct numbers below n are at most n many. */
  lemma {:induction false} DistinctBelow(xs: seq<nat>, n: nat)
    requires forall i :: 0 <= i < |xs| ==> xs[i] < n
    requires forall i, j :: 0 <= i < j < |xs| ==> xs[i] != xs[j]
    ensures |xs| <= n
  {
    if xs != [] {
      assert xs[0] < n;
      if i :| 0 <= i < |xs| && xs[i] == n - 1 {
        var rest := xs[..i] + xs[i + 1..];
        DistinctBelow(rest, n - 1);
      } else {
        DistinctBelow(xs, n - 1);
      }
    }
  }

  lemma TailReachable(n: nat, a: nat, s: Pool)
    requires Reachable(n, a, s)
    ensures TailBound(s) && |s.workers| == n
  {
    var steps :| Run(Init(n, a), steps, s);
    InvInit(n, a);
    TailBoundRun(Init(n, a), steps, s);
    InvReachable(n, a, s);
  }

  /** Once _running is cleared each worker starts at most one more Task, so all of them together at most n. */
  lemma BoundedTail(n: nat, a: nat, s: Pool)
    requires Reachable(n, a, s) && !s.running
    ensures s.clearedAt <= |s.calls| <= s.clearedAt + n
    ensures forall c, d :: s.clearedAt <= c < d < |s.calls| ==> s.calls[c].worker != s.calls[d].worker
  {
    TailReachable(n, a, s);
    var tail := s.calls[s.clearedAt..];
    DistinctBelow(seq(|tail|, i requires 0 <= i < |tail| => tail[i].worker), n);
  }

  /** When all workers have exited, exactly the popped prefix was passed to Task and the queue is the rest. */
  lemma LeftoverIsSuffix(n: nat, a: nat, s: Pool)
    requires Reachable(n, a, s) && forall w :: 0 <= w < |s.workers| ==> s.workers[w] == Exited
    ensures |s.popped| <= |s.appended| && s.tasks == s.appended[|s.popped|..]
    ensures forall k :: 0 <= k < |s.appended| ==> (Called(s.calls, k) <==> k < |s.popped|)
  {
    InvReachable(n, a, s);
    forall k | 0 <= k < |s.popped| ensures Called(s.calls, k) {
      assert HandOf(s.workers[s.popped[k].worker]) == None;
    }
  }

  // ----- winding down

  predicate TailStep(step: Step) {
    WorkerStep(step) || step.Join?
  }

  predicate AllTail(steps: seq<Step>) {
    forall i :: 0 <= i < |steps| ==> TailStep(steps[i])
  }

  ghost predicate NoAppends(s: Pool) {
    forall a :: 0 <= a < |s.appenders| ==> s.appenders[a] == Idle
  }

  /** How many steps a worker can still take when _running is clear and nobody wakes it. */
  ghost function Rank(w: Worker): nat {
    match w
    case Unborn => 0
    case Exited => 0
    case Waiting => 0
    case Checking => 1
    case InTask => 2
    case Calling(_) => 3
    case Leaving(_) => 4
    case Retesting(_) => 5
    case Testing => 6
    case Waking => 6
    case Locking => 7
  }

  ghost function JoinsLeft(s: Pool): nat {
    if s.owner.Joining? && s.owner.next <= |s.workers| then |s.workers| - s.owner.next + 1 else 0
  }

  ghost function Measure(s: Pool): nat {
    Sum(s.workers, Rank) + JoinsLeft(s)
  }

  lemma RankFalls(s: Pool, step: Step)
    requires Flags(s) && s.notifiedAll && Enabled(s, step) && WorkerStep(step)
    ensures |Apply(s, step).workers| == |s.workers| && Rank(Apply(s, step).workers[step.w]) < Rank(s.workers[step.w])
    ensures Apply(s, step).workers == s.workers[step.w := Apply(s, step).workers[step.w]]
  {
  }

  lemma TailFrame(s: Pool, step: Step)
    requires s.notifiedAll && Enabled(s, step) && TailStep(step)
    ensures Apply(s, step).notifiedAll && Apply(s, step).appenders == s.appenders
    ensures !step.Join? ==> Apply(s, step).owner == s.owner
    ensures step.Join? ==> Apply(s, step).workers == s.workers
    ensures step.Join? && s.owner.next <= |s.workers| ==> JoinsLeft(Apply(s, step)) < JoinsLeft(s)
  {
  }

  lemma TailDecreases(s: Pool, step: Step)
    requires Flags(s) && s.notifiedAll && NoAppends(s) && Enabled(s, step) && TailStep(step)
    ensures var t := Apply(s, step); t.notifiedAll && NoAppends(t) && Measure(t) < Measure(s)
  {
    TailFrame(s, step);
    if !step.Join? {
      RankFalls(s, step);
      SumUpdate(s.workers, step.w, Apply(s, step).workers[step.w], Rank);
    }
  }

  /** Every schedule of the wind-down is finite; its length is bounded by the measure it uses up. */
  lemma {:induction false} WindDownEnds(s: Pool, steps: seq<Step>, t: Pool)
    requires Inv(s) && s.notifiedAll && NoAppends(s) && Run(s, steps, t) && AllTail(steps)
    ensures |steps| + Measure(t) <= Measure(s) <= 8 * |s.workers| + 1
    ensures Inv(t) && t.notifiedAll && NoAppends(t) && |t.workers| == |s.workers|
    decreases |steps|
  {
    SumBound(s.workers, Rank, 7);
    if steps != [] {
      InvStep(s, steps[0]);
      TailDecreases(s, steps[0]);
      WindDownEnds(Apply(s, steps[0]), steps[1..], t);
    }
  }

  /** Between its read of _running and its wait. */
  predicate Committed(w: Worker) {
    w == Locking || w == Testing
  }

  /** What the wind-down from s keeps: who can be parked in the end, and who must be. */
  ghost predicate Descends(s: Pool, t: Pool) {
    && |t.workers| == |s.workers| && t.notifiedAll
    && (forall w :: 0 <= w < |s.workers| ==> Fate(s.workers[w], t.workers[w], w in t.late && w !in s.late))
    && (s.tasks == [] ==>
          && t.tasks == []
          && forall w :: 0 <= w < |s.workers| && Committed(s.workers[w]) ==>
              t.workers[w] == Waiting || Committed(t.workers[w]))
  }

  predicate Fate(was: Worker, now: Worker, enteredSince: bool) {
    && (was == Waiting ==> now == Waiting)
    && (now == Waiting || Committed(now) ==> was == Waiting || Committed(was))
    && (enteredSince ==> now == Waiting)
  }

  lemma FateStep(s: Pool, step: Step)
    requires s.notifiedAll && Flags(s) && Enabled(s, step) && WorkerStep(step)
    ensures var t, w := Apply(s, step), step.w;
            && t.workers == s.workers[w := t.workers[w]] && t.notifiedAll
            && s.workers[w] != Waiting
            && (t.workers[w] == Waiting || Committed(t.workers[w]) ==> Committed(s.workers[w]))
            && t.late == (if t.workers[w] == Waiting then s.late + {w} else s.late)
            && (s.tasks == [] ==>
                  t.tasks == [] && (Committed(s.workers[w]) ==> t.workers[w] == Waiting || Committed(t.workers[w])))
  {
  }

  lemma DescendsStep(s: Pool, t: Pool, step: Step)
    requires Descends(s, t) && Flags(t) && Enabled(t, step) && TailStep(step)
    ensures Descends(s, Apply(t, step))
  {
    if !step.Join? {
      FateStep(t, step);
    }
  }

  lemma {:induction false} DescendsRun(s: Pool, t: Pool, steps: seq<Step>, u: Pool)
    requires Inv(t) && Descends(s, t) && Run(t, steps, u) && AllTail(steps)
    ensures Descends(s, u)
    decreases |steps|
  {
    if steps != [] {
      InvStep(t, steps[0]);
      DescendsStep(s, t, steps[0]);
      DescendsRun(s, Apply(t, steps[0]), steps[1..], u);
    }
  }

  ghost predicate TailStuck(s: Pool) {
    forall step :: TailStep(step) ==> !Enabled(s, step)
  }

  /** In a stuck state each worker is parked or done, and the destructor has returned iff none is parked. */
  lemma StuckOutcome(s: Pool)
    requires Inv(s) && s.notifiedAll && NoAppends(s) && TailStuck(s)
    ensures forall w :: 0 <= w < |s.workers| ==> s.workers[w] == Waiting || s.workers[w] == Exited
    ensures s.owner == Gone <==> forall w :: 0 <= w < |s.workers| ==> s.workers[w] == Exited
  {
    assert Quiet(s);
    QuietMeansParked(s);
    assert !Enabled(s, Join);
  }

  /**
   * Once _running is clear, notify_all is done and appends have stopped, and when no worker wakes spuriously (TailStep
   * leaves such steps out, here and below), the wind-down is finite and ends with every worker exited or parked. A
   * parked one entered wait after notify_all: it was parked when appends stopped, or had then read _running as true and
   * not yet reached its wait. The destructor returns exactly when none is parked.
   */
  lemma WindDown(n: nat, a: nat, s: Pool, steps: seq<Step>, t: Pool)
    requires Reachable(n, a, s) && s.notifiedAll && NoAppends(s)
    requires Run(s, steps, t) && AllTail(steps) && TailStuck(t)
    ensures |s.workers| == n && |t.workers| == n && |steps| <= 8 * n + 1
    ensures forall w :: 0 <= w < n ==> t.workers[w] == Exited || (t.workers[w] == Waiting && w in t.late)
    ensures forall w :: 0 <= w < n ==> Fate(s.workers[w], t.workers[w], w in t.late && w !in s.late)
    ensures t.owner == Gone <==> forall w :: 0 <= w < n ==> t.workers[w] == Exited
  {
    InvReachable(n, a, s);
    assert Descends(s, s);
    WindDownEnds(s, steps, t);
    DescendsRun(s, s, steps, t);
    StuckOutcome(t);
  }

  /** What notify_all does to a pool whose destructor has come that far. */
  lemma AfterNotifyAll(n: nat, a: nat, s: Pool)
    requires Reachable(n, a, s) && Enabled(s, NotifyAll)
    ensures var r := Apply(s, NotifyAll);
            && Reachable(n, a, r) && r.notifiedAll && r.late == {} && r.appenders == s.appenders && r.tasks == s.tasks
            && |s.workers| == |r.workers| == n
            && forall w :: 0 <= w < n ==>
                 r.workers[w] != Waiting && (Committed(r.workers[w]) <==> Committed(s.workers[w]))
  {
    InvReachable(n, a, s);
    ReachableStep(n, a, s, NotifyAll);
  }

  lemma EmptyQueueParks(n: nat, a: nat, s: Pool, steps: seq<Step>, t: Pool)
    requires Reachable(n, a, s) && s.notifiedAll && NoAppends(s) && s.tasks == []
    requires Run(s, steps, t) && AllTail(steps) && TailStuck(t)
    ensures |s.workers| == n && |t.workers| == n
    ensures forall w :: 0 <= w < n && Committed(s.workers[w]) ==> t.workers[w] == Waiting
  {
    InvReachable(n, a, s);
    assert Descends(s, s);
    WindDownEnds(s, steps, t);
    DescendsRun(s, s, steps, t);
    StuckOutcome(t);
  }

  // ----- the destructor does not always return

  /** A pool of one worker during construction, and once built. */
  function Young(w: Worker, owner: Owner): Pool {
    Init(1, 0).(workers := [w], owner := owner)
  }

  function Grown(w: Worker, owner: Owner): Pool {
    Young(w, owner).(control := true)
  }

  /** The same after _running was cleared. */
  function Closing(w: Worker, owner: Owner): Pool {
    Grown(w, owner).(running := false)
  }

  function Notified(w: Worker): Pool {
    Closing(w, Joining(0)).(notifiedAll := true)
  }

  lemma CommittedReachable()
    ensures Reachable(1, 0, Grown(Locking, Alive))
  {
    ReachableInit(1, 0);
    Reaches(1, 0, Init(1, 0), Spawn, Young(Checking, Spawning(1)));
    Reaches(1, 0, Young(Checking, Spawning(1)), Spawn, Young(Checking, SettingControl));
    Reaches(1, 0, Young(Checking, SettingControl), SetControl, Grown(Checking, Alive));
    Reaches(1, 0, Grown(Checking, Alive), Check(0), Grown(Locking, Alive));
  }

  lemma ClearedReachable()
    ensures Reachable(1, 0, Closing(Locking, NotifyingAll))
  {
    CommittedReachable();
    Reaches(1, 0, Grown(Locking, Alive), BeginDestroy, Grown(Locking, ReadingFlag));
    Reaches(1, 0, Grown(Locking, ReadingFlag), ReadFlag, Grown(Locking, Clearing));
    Reaches(1, 0, Grown(Locking, Clearing), ClearFlag, Closing(Locking, NotifyingAll));
  }

  lemma NotifiedReachable()
    ensures Reachable(1, 0, Notified(Locking))
  {
    ClearedReachable();
    assert WakeAll([Locking]) == [Locking];
    Reaches(1, 0, Closing(Locking, NotifyingAll), NotifyAll, Notified(Locking));
  }

  /**
   * The worker read _running as true, the destructor clears it and notifies, and only then does the worker wait: only
   * a spurious wakeup could still move it, and without one the join never returns.
   */
  lemma DestructorCanHang()
    ensures exists s :: Reachable(1, 0, s) && TailStuck(s) && s.owner == Joining(0) && s.workers == [Waiting]
  {
    NotifiedReachable();
    var s := Notified(Testing).(lock := Some(W(0)));
    Reaches(1, 0, Notified(Locking), Lock(0), s);
    Reaches(1, 0, s, Test(0), Notified(Waiting).(late := {0}));
    ParkedIsStuck();
  }

  lemma ParkedIsStuck()
    ensures TailStuck(Notified(Waiting).(late := {0}))
  {
  }
}
