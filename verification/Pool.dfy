/**
 * The worker pool as a step relation: its threads' program counters, the shared fields, and a history of what was
 * appended, taken and called. One step is one access to shared state.
 */
module Pool {
  import opened Options

  /** A queued pair of descriptor and request. */
  datatype Task = Task(fd: int, req: string)

  /** What a worker carries out of its critical section: the number of the pair it took, or nothing. */
  type Hand = Option<nat>

  /** Where a worker is in ThreadWork. */
  datatype Worker =
    | Unborn                   // thread not created yet
    | Checking                 // about to read _running
    | Locking                  // read true, about to take _mtx
    | Testing                  // holds _mtx, about to test _tasks.empty()
    | Waiting                  // parked in wait, _mtx released
    | Waking                   // out of wait, about to take _mtx again
    | Retesting(woken: bool)   // holds _mtx, about to test !_tasks.empty(); woken when it came through wait
    | Leaving(hand: Hand)      // left the inner loop, still holds _mtx
    | Calling(hand: Hand)      // released _mtx, about to call Task
    | InTask
    | Exited

  /** Where an appender is in AppandTask; any number of calls one after the other. */
  datatype Appender =
    | Idle
    | Entering(task: Task)     // about to take _mtx
    | Pushing(task: Task)      // holds _mtx
    | Unlocking                // pushed, still holds _mtx
    | Notifying                // about to call notify_one

  /** The thread that constructs and destroys the pool. */
  datatype Owner =
    | Spawning(next: nat)
    | SettingControl
    | Alive
    | ReadingFlag              // destructor: about to read _running
    | Clearing                 // about to clear it
    | NotifyingAll             // about to call notify_all
    | Joining(next: nat)
    | Gone

  datatype Thread = W(worker: nat) | A(appender: nat)

  datatype Pop = Pop(task: Task, worker: nat)
  datatype Call = Call(worker: nat, hand: Hand)

  datatype Pool = Pool(
    workers: seq<Worker>,
    appenders: seq<Appender>,
    owner: Owner,
    lock: Option<Thread>,
    running: bool,
    control: bool,
    tasks: seq<Task>,
    // history
    appended: seq<Task>,         // in the order of the pushes
    popped: seq<Pop>,            // in the order of the pops
    calls: seq<Call>,            // calls of Task, in the order they start
    notifyOnes: nat,
    notifiedAll: bool,
    clearedAt: nat,              // how many calls had started when _running was cleared
    late: set<nat>               // workers that entered wait after notify_all
  )

  /** A pool about to be constructed with n workers and used by a threads. */
  function Init(n: nat, a: nat): Pool {
    Pool(seq(n, _ => Unborn), seq(a, _ => Idle), Spawning(0), None, true, false, [], [], [], [], 0, false, 0, {})
  }

  datatype Step =
    | Spawn | SetControl
    | Enter(a: nat, task: Task) | LockToPush(a: nat) | Push(a: nat) | UnlockPushed(a: nat)
      | NotifyOne(a: nat, woken: Option<nat>)
    | Check(w: nat) | Lock(w: nat) | Test(w: nat) | Relock(w: nat) | Retest(w: nat) | Unlock(w: nat)
      | CallTask(w: nat) | Return(w: nat)
    | Spurious(w: nat)
    | BeginDestroy | ReadFlag | ClearFlag | NotifyAll | Join

  predicate Built(s: Pool) {
    !s.owner.Spawning? && !s.owner.SettingControl?
  }

  predicate WorkerStep(step: Step) {
    || step.Check? || step.Lock? || step.Test? || step.Relock?
    || step.Retest? || step.Unlock? || step.CallTask? || step.Return?
  }

  predicate AppenderStep(step: Step) {
    step.Enter? || step.LockToPush? || step.Push? || step.UnlockPushed? || step.NotifyOne?
  }

  predicate OwnerStep(step: Step) {
    || step.Spawn? || step.SetControl?
    || step.BeginDestroy? || step.ReadFlag? || step.ClearFlag? || step.NotifyAll? || step.Join?
  }

  predicate Enabled(s: Pool, step: Step) {
    match step
    case Spawn => s.owner.Spawning? && s.owner.next <= |s.workers|
    case SetControl => s.owner == SettingControl
    case Enter(a, _) => a < |s.appenders| && s.appenders[a] == Idle && Built(s) && s.owner != Gone
    case LockToPush(a) => a < |s.appenders| && s.appenders[a].Entering? && s.lock == None
    case Push(a) => a < |s.appenders| && s.appenders[a].Pushing?
    case UnlockPushed(a) => a < |s.appenders| && s.appenders[a] == Unlocking
    case NotifyOne(a, woken) =>
      && a < |s.appenders| && s.appenders[a] == Notifying
      && (match woken
          case None => forall w :: 0 <= w < |s.workers| ==> s.workers[w] != Waiting
          case Some(w) => w < |s.workers| && s.workers[w] == Waiting)
    case Check(w) => w < |s.workers| && s.workers[w] == Checking
    case Lock(w) => w < |s.workers| && s.workers[w] == Locking && s.lock == None
    case Test(w) => w < |s.workers| && s.workers[w] == Testing
    case Relock(w) => w < |s.workers| && s.workers[w] == Waking && s.lock == None
    case Retest(w) => w < |s.workers| && s.workers[w].Retesting?
    case Unlock(w) => w < |s.workers| && s.workers[w].Leaving?
    case CallTask(w) => w < |s.workers| && s.workers[w].Calling?
    case Return(w) => w < |s.workers| && s.workers[w] == InTask
    case Spurious(w) => w < |s.workers| && s.workers[w] == Waiting
    case BeginDestroy => s.owner == Alive
    case ReadFlag => s.owner == ReadingFlag
    case ClearFlag => s.owner == Clearing
    case NotifyAll => s.owner == NotifyingAll
    case Join => s.owner.Joining? && (s.owner.next < |s.workers| ==> s.workers[s.owner.next] == Exited)
  }

  function Move(s: Pool, w: nat, to: Worker): (t: Pool)
    requires w < |s.workers|
  {
    s.(workers := s.workers[w := to])
  }

  function WakeAll(workers: seq<Worker>): (out: seq<Worker>)
    ensures |out| == |workers|
    ensures forall w :: 0 <= w < |workers| ==> out[w] == if workers[w] == Waiting then Waking else workers[w]
  {
    seq(|workers|, w requires 0 <= w < |workers| => if workers[w] == Waiting then Waking else workers[w])
  }

  function Apply(s: Pool, step: Step): (t: Pool)
    requires Enabled(s, step)
    ensures |t.workers| == |s.workers| && |t.appenders| == |s.appenders|
  {
    match step
    // constructor
    case Spawn =>
      var k := s.owner.next;
      if k < |s.workers| then Move(s, k, Checking).(owner := Spawning(k + 1)) else s.(owner := SettingControl)
    case SetControl => s.(owner := Alive, control := true)
    // AppandTask
    case Enter(a, task) => s.(appenders := s.appenders[a := Entering(task)])
    case LockToPush(a) => s.(appenders := s.appenders[a := Pushing(s.appenders[a].task)], lock := Some(A(a)))
    case Push(a) =>
      var task := s.appenders[a].task;
      s.(appenders := s.appenders[a := Unlocking], tasks := s.tasks + [task], appended := s.appended + [task])
    case UnlockPushed(a) => s.(appenders := s.appenders[a := Notifying], lock := None)
    case NotifyOne(a, woken) =>
      var s' := s.(appenders := s.appenders[a := Idle], notifyOnes := s.notifyOnes + 1);
      (match woken
       case None => s'
       case Some(w) => Move(s', w, Waking))
    // ThreadWork
    case Check(w) => Move(s, w, if s.running then Locking else Exited)
    case Lock(w) => Move(s, w, Testing).(lock := Some(W(w)))
    case Test(w) =>
      if s.tasks == [] then
        Move(s, w, Waiting).(lock := None, late := if s.notifiedAll then s.late + {w} else s.late)
      else Move(s, w, Retesting(false))
    case Relock(w) => Move(s, w, Retesting(true)).(lock := Some(W(w)))
    case Retest(w) =>
      if s.tasks != [] then
        Move(s, w, Leaving(Some(|s.popped|))).(tasks := s.tasks[1..], popped := s.popped + [Pop(s.tasks[0], w)])
      else
        // the empty wake: `continue` leaves only the inner loop, and the worker goes on to call Task
        Move(s, w, Leaving(None))
    case Unlock(w) => Move(s, w, Calling(s.workers[w].hand)).(lock := None)
    case CallTask(w) => Move(s, w, InTask).(calls := s.calls + [Call(w, s.workers[w].hand)])
    case Return(w) => Move(s, w, Checking)
    case Spurious(w) => Move(s, w, Waking)
    // destructor: neither the clearing nor the notification takes _mtx
    case BeginDestroy => s.(owner := ReadingFlag)
    case ReadFlag => s.(owner := if s.running then Clearing else Gone)
    case ClearFlag => s.(owner := NotifyingAll, running := false, clearedAt := |s.calls|)
    case NotifyAll => s.(owner := Joining(0), workers := WakeAll(s.workers), notifiedAll := true)
    case Join => s.(owner := if s.owner.next < |s.workers| then Joining(s.owner.next + 1) else Gone)
  }

  /** The steps lead from s to t. */
  ghost predicate Run(s: Pool, steps: seq<Step>, t: Pool)
    decreases |steps|
  {
    if steps == [] then s == t
    else Enabled(s, steps[0]) && Run(Apply(s, steps[0]), steps[1..], t)
  }

  ghost predicate Reachable(n: nat, a: nat, s: Pool) {
    exists steps :: Run(Init(n, a), steps, s)
  }

  lemma {:induction false} RunExtends(s: Pool, steps: seq<Step>, t: Pool, step: Step)
    requires Run(s, steps, t) && Enabled(t, step)
    ensures Run(s, steps + [step], Apply(t, step))
    decreases |steps|
  {
    if steps == [] {
      assert ([] + [step])[1..] == [];
    } else {
      RunExtends(Apply(s, steps[0]), steps[1..], t, step);
      assert (steps + [step])[1..] == steps[1..] + [step];
    }
  }

  lemma ReachableStep(n: nat, a: nat, s: Pool, step: Step)
    requires Reachable(n, a, s) && Enabled(s, step)
    ensures Reachable(n, a, Apply(s, step))
  {
    var steps :| Run(Init(n, a), steps, s);
    RunExtends(Init(n, a), steps, s, step);
  }

  lemma Reaches(n: nat, a: nat, s: Pool, step: Step, t: Pool)
    requires Reachable(n, a, s) && Enabled(s, step) && Apply(s, step) == t
    ensures Reachable(n, a, t)
  {
    ReachableStep(n, a, s, step);
  }

  lemma ReachableInit(n: nat, a: nat)
    ensures Reachable(n, a, Init(n, a))
  {
    assert Run(Init(n, a), [], Init(n, a));
  }

  predicate NoSpurious(steps: seq<Step>) {
    forall i :: 0 <= i < |steps| ==> !steps[i].Spurious?
  }

  // ----- counting over threads

  ghost function Sum<T>(s: seq<T>, weight: T -> nat): nat {
    if s == [] then 0 else weight(s[0]) + Sum(s[1..], weight)
  }

  lemma {:induction false} SumUpdate<T>(s: seq<T>, i: nat, x: T, weight: T -> nat)
    requires i < |s|
    ensures Sum(s[i := x], weight) == Sum(s, weight) - weight(s[i]) + weight(x)
  {
    if i > 0 {
      assert s[i := x][1..] == s[1..][i - 1 := x];
      SumUpdate(s[1..], i - 1, x, weight);
    } else {
      assert s[i := x][1..] == s[1..];
    }
  }

  lemma {:induction false} SumBound<T>(s: seq<T>, weight: T -> nat, max: nat)
    requires forall i :: 0 <= i < |s| ==> weight(s[i]) <= max
    ensures Sum(s, weight) <= max * |s|
  {
    if s != [] {
      SumBound(s[1..], weight, max);
    }
  }

  lemma {:induction false} SumMember<T>(s: seq<T>, i: nat, weight: T -> nat)
    requires i < |s|
    ensures weight(s[i]) <= Sum(s, weight)
  {
    if i > 0 {
      SumMember(s[1..], i - 1, weight);
    }
  }

  /** If each weight is at most its counterpart, so is the sum; if all are equal, so are the sums. */
  lemma {:induction false} SumCompare<T>(s: seq<T>, t: seq<T>, f: T -> nat, g: T -> nat)
    requires |s| == |t| && forall i :: 0 <= i < |s| ==> f(s[i]) <= g(t[i])
    ensures Sum(s, f) <= Sum(t, g)
  {
    if s != [] {
      SumCompare(s[1..], t[1..], f, g);
    }
  }
}
