/**
 * Whether the destructor returns once notify_all is done: the exact condition, over all schedules of the wind-down
 * without spurious wakeups.
 */
module PoolJoin {
  import opened Pool
  import opened PoolSafety
  import opened PoolShutdown

  /** After notify_all, with appends stopped. */
  ghost predicate Winding(n: nat, a: nat, s: Pool) {
    Reachable(n, a, s) && s.notifiedAll && NoAppends(s)
  }

  /** s can wind down to t, where nothing more can happen. */
  ghost predicate Settles(s: Pool, steps: seq<Step>, t: Pool) {
    Run(s, steps, t) && AllTail(steps) && TailStuck(t)
  }

  lemma WindingStep(n: nat, a: nat, s: Pool, step: Step)
    requires Winding(n, a, s) && Enabled(s, step) && TailStep(step)
    ensures Winding(n, a, Apply(s, step)) && Measure(Apply(s, step)) < Measure(s)
  {
    InvReachable(n, a, s);
    ReachableStep(n, a, s, step);
    TailDecreases(s, step);
  }

  lemma SettlesLater(s: Pool, step: Step, steps: seq<Step>, t: Pool)
    requires Enabled(s, step) && TailStep(step) && Settles(Apply(s, step), steps, t)
    ensures Settles(s, [step] + steps, t)
  {
    assert ([step] + steps)[1..] == steps;
  }

  /** Taking any enabled step again and again comes to an end. */
  lemma {:induction false} SomeSchedule(n: nat, a: nat, s: Pool) returns (steps: seq<Step>, t: Pool)
    requires Winding(n, a, s)
    ensures Settles(s, steps, t)
    decreases Measure(s)
  {
    if TailStuck(s) {
      return [], s;
    }
    var step :| TailStep(step) && Enabled(s, step);
    WindingStep(n, a, s, step);
    var rest;
    rest, t := SomeSchedule(n, a, Apply(s, step));
    SettlesLater(s, step, rest, t);
    steps := [step] + rest;
  }

  /** On the way to the queue: it will look for a task once more. */
  ghost function Hungry(w: Worker): nat {
    if w == Waking || w == Locking || w == Testing || w.Retesting? then 1 else 0
  }

  /** As long as the queue is not empty, each worker that gives up looking takes one task with it. */
  lemma HungerBalance(s: Pool, step: Step)
    requires Flags(s) && s.notifiedAll && s.tasks != [] && Enabled(s, step) && WorkerStep(step)
    ensures Sum(Apply(s, step).workers, Hungry) - |Apply(s, step).tasks| == Sum(s.workers, Hungry) - |s.tasks|
  {
    WorkerChange(s, step);
    SumUpdate(s.workers, step.w, Apply(s, step).workers[step.w], Hungry);
  }

  lemma WorkerChange(s: Pool, step: Step)
    requires Flags(s) && s.notifiedAll && s.tasks != [] && Enabled(s, step) && WorkerStep(step)
    ensures var t := Apply(s, step);
            && t.workers == s.workers[step.w := t.workers[step.w]]
            && Hungry(t.workers[step.w]) - |t.tasks| == Hungry(s.workers[step.w]) - |s.tasks|
  {
  }

  /**
   * What the state must look like for the join to be able to block: a worker is parked already; or one is about to
   * wait on an empty queue; or one has read _running as true and not taken the mutex, and the tasks are too few for
   * all the workers on their way to the queue.
   */
  ghost predicate MayHang(s: Pool) {
    || (exists w :: 0 <= w < |s.workers| && s.workers[w] == Waiting)
    || (s.tasks == [] && exists w :: 0 <= w < |s.workers| && s.workers[w] == Testing)
    || (|s.tasks| < Sum(s.workers, Hungry) && exists w :: 0 <= w < |s.workers| && s.workers[w] == Locking)
  }

  // ----- when it cannot hang, it never will

  lemma SafeStep(s: Pool, step: Step)
    requires Exclusion(s) && Flags(s) && s.notifiedAll && !MayHang(s) && Enabled(s, step) && WorkerStep(step)
    ensures !MayHang(Apply(s, step))
  {
    if s.tasks == [] {
      NobodyCommitted(s);
      SafeEmpty(s, step);
    } else {
      HungerBalance(s, step);
      SafeFull(s, step);
    }
  }

  ghost predicate Uncommitted(workers: seq<Worker>) {
    forall w :: 0 <= w < |workers| ==> !Committed(workers[w]) && workers[w] != Waiting
  }

  lemma NobodyCommitted(s: Pool)
    requires !MayHang(s) && s.tasks == []
    ensures Uncommitted(s.workers)
  {
    forall w | 0 <= w < |s.workers| ensures s.workers[w] != Locking {
      SumMember(s.workers, w, Hungry);
    }
  }

  lemma SafeEmpty(s: Pool, step: Step)
    requires Flags(s) && s.notifiedAll && Uncommitted(s.workers) && s.tasks == []
    requires Enabled(s, step) && WorkerStep(step)
    ensures !MayHang(Apply(s, step))
  {
    var t := Apply(s, step);
    assert t.workers == s.workers[step.w := t.workers[step.w]];
    assert Uncommitted(t.workers);
  }

  lemma SafeFull(s: Pool, step: Step)
    requires Exclusion(s) && Flags(s) && s.notifiedAll && !MayHang(s) && s.tasks != []
    requires Enabled(s, step) && WorkerStep(step)
    requires Sum(Apply(s, step).workers, Hungry) - |Apply(s, step).tasks| == Sum(s.workers, Hungry) - |s.tasks|
    ensures !MayHang(Apply(s, step))
  {
    var t := Apply(s, step);
    assert t.workers == s.workers[step.w := t.workers[step.w]];
  }

  lemma SafeReachable(n: nat, a: nat, s: Pool, step: Step)
    requires Winding(n, a, s) && !MayHang(s) && Enabled(s, step) && TailStep(step)
    ensures !MayHang(Apply(s, step))
  {
    InvReachable(n, a, s);
    if !step.Join? { SafeStep(s, step); }
  }

  lemma {:induction false} NeverHangs(n: nat, a: nat, s: Pool, steps: seq<Step>, t: Pool)
    requires Winding(n, a, s) && !MayHang(s) && Settles(s, steps, t)
    ensures t.owner == Gone
    decreases |steps|
  {
    if steps == [] {
      InvReachable(n, a, s);
      StuckOutcome(s);
    } else {
      WindingStep(n, a, s, steps[0]);
      SafeReachable(n, a, s, steps[0]);
      NeverHangs(n, a, Apply(s, steps[0]), steps[1..], t);
    }
  }

  // ----- when it may, some schedule does

  /** Someone other than w can make a step that leaves w where it is. */
  lemma OtherStep(s: Pool, w: nat) returns (step: Step)
    requires Exclusion(s) && NoAppends(s) && w < |s.workers| && s.workers[w] == Locking
    requires s.tasks != [] && |s.tasks| < Sum(s.workers, Hungry)
    ensures Enabled(s, step) && WorkerStep(step) && step.w != w
  {
    if s.lock.Some? {
      step := HolderCanStep(s);
    } else {
      var x := OtherHungry(s.workers, w);
      step := if s.workers[x] == Waking then Relock(x) else Lock(x);
    }
  }

  lemma {:induction false} OtherHungry(workers: seq<Worker>, w: nat) returns (x: nat)
    requires w < |workers| && Sum(workers, Hungry) > 1
    ensures x < |workers| && x != w && Hungry(workers[x]) == 1
  {
    var rest := workers[w := Unborn];
    SumUpdate(workers, w, Unborn, Hungry);
    if forall x :: 0 <= x < |rest| ==> Hungry(rest[x]) == 0 {
      SumBound(rest, Hungry, 0);
      assert false;
    }
    x :| x < |rest| && Hungry(rest[x]) != 0;
  }

  lemma StaysLocking(s: Pool, step: Step, w: nat)
    requires Enabled(s, step) && WorkerStep(step) && step.w != w && w < |s.workers|
    ensures Apply(s, step).workers[w] == s.workers[w]
  {
  }

  /** The others take all the tasks, then w waits on the empty queue. */
  lemma {:induction false} Starve(n: nat, a: nat, s: Pool, w: nat) returns (steps: seq<Step>, t: Pool)
    requires Winding(n, a, s) && w < |s.workers| && s.workers[w] == Locking && |s.tasks| < Sum(s.workers, Hungry)
    ensures Settles(s, steps, t) && w < |t.workers| && t.workers[w] == Waiting
    decreases Measure(s)
  {
    if s.tasks == [] {
      steps, t := SomeSchedule(n, a, s);
      EmptyQueueParks(n, a, s, steps, t);
    } else {
      var step := StarveStep(n, a, s, w);
      var rest;
      rest, t := Starve(n, a, Apply(s, step), w);
      SettlesLater(s, step, rest, t);
      steps := [step] + rest;
    }
  }

  lemma StarveStep(n: nat, a: nat, s: Pool, w: nat) returns (step: Step)
    requires Winding(n, a, s) && w < |s.workers| && s.workers[w] == Locking
    requires s.tasks != [] && |s.tasks| < Sum(s.workers, Hungry)
    ensures Enabled(s, step) && TailStep(step)
    ensures var t := Apply(s, step);
            && Winding(n, a, t) && Measure(t) < Measure(s)
            && w < |t.workers| && t.workers[w] == Locking && |t.tasks| < Sum(t.workers, Hungry)
  {
    InvReachable(n, a, s);
    step := OtherStep(s, w);
    WindingStep(n, a, s, step);
    HungerBalance(s, step);
    StaysLocking(s, step, w);
  }

  lemma SomeHangs(n: nat, a: nat, s: Pool) returns (steps: seq<Step>, t: Pool)
    requires Winding(n, a, s) && MayHang(s)
    ensures Settles(s, steps, t) && exists w :: 0 <= w < |t.workers| && t.workers[w] == Waiting
  {
    if w :| 0 <= w < |s.workers| && s.workers[w] == Waiting {
      steps, t := SomeSchedule(n, a, s);
      WindDown(n, a, s, steps, t);
      assert Fate(s.workers[w], t.workers[w], w in t.late && w !in s.late);
    } else if w :| 0 <= w < |s.workers| && s.workers[w] == Testing && s.tasks == [] {
      steps, t := SomeSchedule(n, a, s);
      EmptyQueueParks(n, a, s, steps, t);
      assert t.workers[w] == Waiting;
    } else {
      var w :| 0 <= w < |s.workers| && s.workers[w] == Locking;
      steps, t := Starve(n, a, s, w);
    }
  }

  lemma HangsAtJoin(n: nat, a: nat, s: Pool, steps: seq<Step>, t: Pool, w: nat)
    requires Winding(n, a, s) && Settles(s, steps, t) && w < |t.workers| && t.workers[w] == Waiting
    ensures t.owner != Gone
  {
    WindDown(n, a, s, steps, t);
  }

  /**
   * There is a schedule to the end, and the destructor returns on every schedule exactly when the state cannot hang.
   */
  lemma DestructorReturnsIff(n: nat, a: nat, s: Pool)
    requires Winding(n, a, s)
    ensures exists steps, t :: Settles(s, steps, t)
    ensures (forall steps, t :: Settles(s, steps, t) ==> t.owner == Gone) <==> !MayHang(s)
  {
    if MayHang(s) {
      var steps, t := SomeHangs(n, a, s);
      var w :| 0 <= w < |t.workers| && t.workers[w] == Waiting;
      HangsAtJoin(n, a, s, steps, t, w);
    } else {
      var steps, t := SomeSchedule(n, a, s);
      forall steps, t | Settles(s, steps, t) ensures t.owner == Gone {
        NeverHangs(n, a, s, steps, t);
      }
    }
  }
}
