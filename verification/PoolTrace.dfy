/**
 * The pool told by its history alone. What a thread may do next is read off the statement it made last and what it read
 * there; what was pushed, popped and called is read off the steps. No state of the pool is mentioned in any of it, and
 * it is proved to be exactly what the step relation does.
 */
module PoolTrace {
  import opened Options
  import opened Pool
  import opened PoolSafety

  datatype Who = TheWorker(w: nat) | TheAppender(a: nat) | TheOwner

  /** Whose statement a step is. Being woken is not a statement of the woken worker. */
  predicate By(step: Step, who: Who) {
    match who
    case TheWorker(w) => WorkerStep(step) && step.w == w
    case TheAppender(a) => AppenderStep(step) && step.a == a
    case TheOwner => OwnerStep(step)
  }

  // ----- what a thread did last, and what happened before and since

  function LastOf(h: seq<Step>, who: Who): (last: Option<Step>)
    ensures last.Some? ==> By(last.value, who)
    decreases |h|
  {
    if h == [] then None
    else if By(h[|h| - 1], who) then Some(h[|h| - 1])
    else LastOf(h[..|h| - 1], who)
  }

  function Before(h: seq<Step>, who: Who): seq<Step>
    decreases |h|
  {
    if h == [] then [] else if By(h[|h| - 1], who) then h[..|h| - 1] else Before(h[..|h| - 1], who)
  }

  function Since(h: seq<Step>, who: Who): seq<Step>
    decreases |h|
  {
    if h == [] || By(h[|h| - 1], who) then [] else Since(h[..|h| - 1], who) + [h[|h| - 1]]
  }

  lemma Grow(h: seq<Step>, step: Step, who: Who)
    ensures LastOf(h + [step], who) == if By(step, who) then Some(step) else LastOf(h, who)
    ensures Before(h + [step], who) == if By(step, who) then h else Before(h, who)
    ensures Since(h + [step], who) == if By(step, who) then [] else Since(h, who) + [step]
  {
    assert (h + [step])[..|h|] == h;
  }

  // ----- counting and collecting

  function Count(h: seq<Step>, step: Step): nat
    decreases |h|
  {
    if h == [] then 0 else Count(h[..|h| - 1], step) + if h[|h| - 1] == step then 1 else 0
  }

  /** The pair appender a was last called with. */
  function Brought(h: seq<Step>, a: nat): Option<Task>
    decreases |h|
  {
    if h == [] then None
    else if h[|h| - 1].Enter? && h[|h| - 1].a == a then Some(h[|h| - 1].task)
    else Brought(h[..|h| - 1], a)
  }

  /** The pairs pushed: at each push the one its appender was called with. */
  function Pushes(h: seq<Step>): seq<Task>
    decreases |h|
  {
    if h == [] then []
    else Pushes(h[..|h| - 1]) + if h[|h| - 1].Push? then Given(Brought(h[..|h| - 1], h[|h| - 1].a)) else []
  }

  function Given(task: Option<Task>): seq<Task> {
    match task
    case Some(t) => [t]
    case None => []
  }

  /** How many of them were taken: one at each second test, unless all were. */
  function Taken(h: seq<Step>): (k: nat)
    ensures k <= |Pushes(h)|
    decreases |h|
  {
    if h == [] then 0
    else
      var k := Taken(h[..|h| - 1]);
      if h[|h| - 1].Retest? && k < |Pushes(h[..|h| - 1])| then k + 1 else k
  }

  /** The queue is empty: everything pushed was taken. */
  predicate Drained(h: seq<Step>) {
    Taken(h) == |Pushes(h)|
  }

  /** Who took what, in order: the pairs leave in the order they came. */
  function Pops(h: seq<Step>): (pops: seq<Pop>)
    ensures |pops| == Taken(h)
    decreases |h|
  {
    if h == [] then []
    else
      var f := h[..|h| - 1];
      Pops(f) + if h[|h| - 1].Retest? && !Drained(f) then [Pop(Pushes(f)[Taken(f)], h[|h| - 1].w)] else []
  }

  /** What worker w got at its last second test. */
  function Took(h: seq<Step>, w: nat): Hand
    decreases |h|
  {
    if h == [] then None
    else if h[|h| - 1] == Retest(w) then
      var f := h[..|h| - 1];
      if Drained(f) then None else Some(Taken(f))
    else Took(h[..|h| - 1], w)
  }

  /** The calls of Task, each with what its worker took. */
  function Calls(h: seq<Step>): seq<Call>
    decreases |h|
  {
    if h == [] then []
    else
      var f := h[..|h| - 1];
      Calls(f) + if h[|h| - 1].CallTask? then [Call(h[|h| - 1].w, Took(f, h[|h| - 1].w))] else []
  }

  /** The calls of notify_one. */
  function Notified(h: seq<Step>): nat
    decreases |h|
  {
    if h == [] then 0 else Notified(h[..|h| - 1]) + if h[|h| - 1].NotifyOne? then 1 else 0
  }

  /** How many calls of Task had started when _running was cleared. */
  function CallsAtClear(h: seq<Step>): nat
    decreases |h|
  {
    if h == [] then 0 else if h[|h| - 1].ClearFlag? then |Calls(h[..|h| - 1])| else CallsAtClear(h[..|h| - 1])
  }

  /** The workers that found the queue empty after notify_all. */
  function Late(h: seq<Step>): set<nat>
    decreases |h|
  {
    if h == [] then {}
    else
      var f := h[..|h| - 1];
      if h[|h| - 1].Test? && Drained(f) && NotifyAll in f then Late(f) + {h[|h| - 1].w} else Late(f)
  }

  lemma Collect(h: seq<Step>, step: Step)
    ensures Pushes(h + [step]) == Pushes(h) + if step.Push? then Given(Brought(h, step.a)) else []
    ensures Taken(h + [step]) == if step.Retest? && !Drained(h) then Taken(h) + 1 else Taken(h)
    ensures Pops(h + [step])
         == Pops(h) + if step.Retest? && !Drained(h) then [Pop(Pushes(h)[Taken(h)], step.w)] else []
    ensures Calls(h + [step]) == Calls(h) + if step.CallTask? then [Call(step.w, Took(h, step.w))] else []
    ensures Notified(h + [step]) == Notified(h) + if step.NotifyOne? then 1 else 0
    ensures CallsAtClear(h + [step]) == if step.ClearFlag? then |Calls(h)| else CallsAtClear(h)
    ensures Late(h + [step]) == if step.Test? && Drained(h) && NotifyAll in h then Late(h) + {step.w} else Late(h)
  {
    assert (h + [step])[..|h|] == h;
  }

  lemma CollectOf(h: seq<Step>, step: Step, x: nat, other: Step)
    ensures Brought(h + [step], x) == if step.Enter? && step.a == x then Some(step.task) else Brought(h, x)
    ensures Took(h + [step], x)
         == if step == Retest(x) then if Drained(h) then None else Some(Taken(h)) else Took(h, x)
    ensures Count(h + [step], other) == Count(h, other) + if step == other then 1 else 0
  {
    assert (h + [step])[..|h|] == h;
  }

  // ----- what a thread read, and who holds the mutex

  /** At its last statement worker w saw _running cleared. */
  predicate SawCleared(h: seq<Step>, w: nat) {
    ClearFlag in Before(h, TheWorker(w))
  }

  /** At its last statement worker w saw the queue empty. */
  predicate SawEmpty(h: seq<Step>, w: nat) {
    Drained(Before(h, TheWorker(w)))
  }

  predicate Wakes(step: Step, w: nat) {
    step == NotifyAll || step == Spurious(w) || (step.NotifyOne? && step.woken == Some(w))
  }

  /** Worker w was woken since its last statement. */
  predicate Woken(h: seq<Step>, w: nat) {
    exists i :: 0 <= i < |Since(h, TheWorker(w))| && Wakes(Since(h, TheWorker(w))[i], w)
  }

  predicate IsParked(h: seq<Step>, w: nat) {
    LastOf(h, TheWorker(w)) == Some(Test(w)) && SawEmpty(h, w) && !Woken(h, w)
  }

  predicate HasExited(h: seq<Step>, w: nat) {
    LastOf(h, TheWorker(w)) == Some(Check(w)) && SawCleared(h, w)
  }

  predicate WorkerHolds(h: seq<Step>, w: nat) {
    var last := LastOf(h, TheWorker(w));
    || last == Some(Lock(w)) || last == Some(Relock(w)) || last == Some(Retest(w))
    || (last == Some(Test(w)) && !SawEmpty(h, w))
  }

  predicate AppenderHolds(h: seq<Step>, a: nat) {
    var last := LastOf(h, TheAppender(a));
    last == Some(LockToPush(a)) || last == Some(Push(a))
  }

  predicate MutexFree(n: nat, a: nat, h: seq<Step>) {
    && (forall w :: 0 <= w < n ==> !WorkerHolds(h, w))
    && (forall x :: 0 <= x < a ==> !AppenderHolds(h, x))
  }

  // ----- the program text

  /** ThreadWork: after which statement of worker w the given one may come. */
  predicate WorkerMay(n: nat, a: nat, h: seq<Step>, step: Step)
    requires WorkerStep(step)
  {
    var w := step.w;
    var last := LastOf(h, TheWorker(w));
    && w < n && w < Count(h, Spawn)
    && match step
       case Check(_) => last == None || last == Some(Return(w))
       case Lock(_) => last == Some(Check(w)) && !SawCleared(h, w) && MutexFree(n, a, h)
       case Test(_) => last == Some(Lock(w))
       case Relock(_) => last == Some(Test(w)) && SawEmpty(h, w) && Woken(h, w) && MutexFree(n, a, h)
       case Retest(_) => last == Some(Relock(w)) || (last == Some(Test(w)) && !SawEmpty(h, w))
       case Unlock(_) => last == Some(Retest(w))
       case CallTask(_) => last == Some(Unlock(w))
       case Return(_) => last == Some(CallTask(w))
  }

  /** AppandTask, called one time after the other. */
  predicate AppenderMay(n: nat, a: nat, h: seq<Step>, step: Step)
    requires AppenderStep(step)
  {
    var x := step.a;
    var last := LastOf(h, TheAppender(x));
    && x < a
    && match step
       case Enter(_, _) =>
         (last == None || last.value.NotifyOne?) && SetControl in h && Count(h, Join) <= n
       case LockToPush(_) => last.Some? && last.value.Enter? && MutexFree(n, a, h)
       case Push(_) => last == Some(LockToPush(x))
       case UnlockPushed(_) => last == Some(Push(x))
       case NotifyOne(_, woken) =>
         && last == Some(UnlockPushed(x))
         && (match woken
             case None => forall w :: 0 <= w < n ==> !IsParked(h, w)
             case Some(w) => w < n && IsParked(h, w))
  }

  /** The constructor, then the destructor. */
  predicate OwnerMay(n: nat, h: seq<Step>, step: Step)
    requires OwnerStep(step)
  {
    var last := LastOf(h, TheOwner);
    match step
    case Spawn => Count(h, Spawn) <= n && (last == None || last == Some(Spawn))
    case SetControl => last == Some(Spawn) && Count(h, Spawn) == n + 1
    case BeginDestroy => last == Some(SetControl)
    case ReadFlag => last == Some(BeginDestroy)
    case ClearFlag => last == Some(ReadFlag)
    case NotifyAll => last == Some(ClearFlag)
    case Join =>
      && (last == Some(NotifyAll) || last == Some(Join))
      && Count(h, Join) <= n && (Count(h, Join) < n ==> HasExited(h, Count(h, Join)))
  }

  predicate May(n: nat, a: nat, h: seq<Step>, step: Step) {
    if WorkerStep(step) then WorkerMay(n, a, h, step)
    else if AppenderStep(step) then AppenderMay(n, a, h, step)
    else if OwnerStep(step) then OwnerMay(n, h, step)
    else step.w < n && IsParked(h, step.w)
  }

  /** Every step was allowed by those before it. */
  ghost predicate Lawful(n: nat, a: nat, steps: seq<Step>) {
    forall i :: 0 <= i < |steps| ==> May(n, a, steps[..i], steps[i])
  }

  // ----- the state that a history leads to

  ghost function Place(h: seq<Step>, w: nat): Worker {
    if Count(h, Spawn) <= w then Unborn
    else PlaceAfter(LastOf(h, TheWorker(w)), SawCleared(h, w), SawEmpty(h, w), Woken(h, w), Took(h, w))
  }

  /** Where the last statement of a worker leaves it, with what it read there and what happened since. */
  ghost function PlaceAfter(last: Option<Step>, cleared: bool, empty: bool, woken: bool, took: Hand): Worker {
    match last
    case None => Checking
    case Some(step) =>
      match step
      case Check(_) => if cleared then Exited else Locking
      case Lock(_) => Testing
      case Test(_) => if !empty then Retesting(false) else if woken then Waking else Waiting
      case Relock(_) => Retesting(true)
      case Retest(_) => Leaving(took)
      case Unlock(_) => Calling(took)
      case CallTask(_) => InTask
      case _ => Checking
  }

  ghost function Station(h: seq<Step>, x: nat): Appender {
    StationAfter(LastOf(h, TheAppender(x)), Brought(h, x))
  }

  /** Where the last statement of an appender leaves it, with the pair it was called with. */
  ghost function StationAfter(last: Option<Step>, brought: Option<Task>): Appender {
    if last.None? then Idle
    else
      match last.value
      case Enter(_, task) => Entering(task)
      case LockToPush(_) => if brought.Some? then Pushing(brought.value) else Idle
      case Push(_) => Unlocking
      case UnlockPushed(_) => Notifying
      case _ => Idle
  }

  ghost function Post(n: nat, h: seq<Step>): Owner {
    match LastOf(h, TheOwner)
    case None => Spawning(0)
    case Some(step) =>
      match step
      case Spawn => if Count(h, Spawn) <= n then Spawning(Count(h, Spawn)) else SettingControl
      case SetControl => Alive
      case BeginDestroy => ReadingFlag
      case ReadFlag => Clearing
      case ClearFlag => NotifyingAll
      case NotifyAll => Joining(0)
      case _ => if Count(h, Join) <= n then Joining(Count(h, Join)) else Gone
  }

  ghost predicate Workers(n: nat, h: seq<Step>, s: Pool) {
    && |s.workers| == n
    && (forall w :: 0 <= w < n ==> s.workers[w] == Place(h, w))
    && (forall w: nat :: Count(h, Spawn) <= w ==> LastOf(h, TheWorker(w)) == None)
  }

  ghost predicate HasBrought(h: seq<Step>, x: nat) {
    match LastOf(h, TheAppender(x))
    case Some(Enter(_, task)) => Brought(h, x) == Some(task)
    case Some(LockToPush(_)) => Brought(h, x).Some?
    case _ => true
  }

  ghost predicate Appenders(a: nat, h: seq<Step>, s: Pool) {
    |s.appenders| == a && forall x :: 0 <= x < a ==> s.appenders[x] == Station(h, x) && HasBrought(h, x)
  }

  ghost predicate Shared(h: seq<Step>, s: Pool) {
    && s.tasks == Pushes(h)[Taken(h)..] && s.appended == Pushes(h)
    && s.popped == Pops(h) && s.calls == Calls(h)
    && (s.running <==> ClearFlag !in h) && (s.control <==> SetControl in h) && (s.notifiedAll <==> NotifyAll in h)
    && s.clearedAt == CallsAtClear(h) && s.late == Late(h) && s.notifyOnes == Notified(h)
  }

  ghost predicate Owners(n: nat, h: seq<Step>, s: Pool) {
    && s.owner == Post(n, h)
    && match LastOf(h, TheOwner)
       case None => Count(h, Spawn) == 0 && Count(h, Join) == 0
       case Some(Spawn) => 1 <= Count(h, Spawn) <= n + 1 && Count(h, Join) == 0
       case Some(Join) => Count(h, Spawn) == n + 1 && 1 <= Count(h, Join) <= n + 1
       case _ => Count(h, Spawn) == n + 1 && Count(h, Join) == 0
  }

  ghost predicate Linked(n: nat, a: nat, h: seq<Step>, s: Pool) {
    Workers(n, h, s) && Appenders(a, h, s) && Shared(h, s) && Owners(n, h, s)
  }

  // ----- what is enabled is what the program text allows

  lemma LockIff(n: nat, a: nat, h: seq<Step>, s: Pool)
    requires Workers(n, h, s) && Appenders(a, h, s) && Exclusion(s)
    ensures s.lock == None <==> MutexFree(n, a, h)
  {
    forall w | 0 <= w < n ensures WorkerHolds(h, w) <==> InCritical(s.workers[w]) {
      assert s.workers[w] == Place(h, w);
    }
    forall x | 0 <= x < a ensures AppenderHolds(h, x) <==> s.appenders[x].Pushing? || s.appenders[x] == Unlocking {
      assert s.appenders[x] == Station(h, x) && HasBrought(h, x);
    }
    if s.lock.Some? {
      match s.lock.value
      case W(w) => assert InCritical(s.workers[w]);
      case A(x) => assert s.appenders[x].Pushing? || s.appenders[x] == Unlocking;
    }
  }

  lemma ParkedIff(n: nat, h: seq<Step>, s: Pool, w: nat)
    requires Workers(n, h, s) && w < n
    ensures s.workers[w] == Waiting <==> IsParked(h, w)
    ensures s.workers[w] == Exited <==> HasExited(h, w)
    ensures s.workers[w] == Unborn <==> Count(h, Spawn) <= w
  {
    assert s.workers[w] == Place(h, w);
  }

  lemma EnabledWorker(n: nat, a: nat, h: seq<Step>, s: Pool, step: Step)
    requires Workers(n, h, s) && Appenders(a, h, s) && Exclusion(s) && WorkerStep(step)
    ensures Enabled(s, step) <==> May(n, a, h, step)
  {
    if step.Lock? || step.Relock? {
      LockIff(n, a, h, s);
      EnabledLocking(n, a, h, s, step);
    } else {
      EnabledUnblocked(n, a, h, s, step);
    }
  }

  lemma EnabledLocking(n: nat, a: nat, h: seq<Step>, s: Pool, step: Step)
    requires Workers(n, h, s) && (s.lock == None <==> MutexFree(n, a, h)) && (step.Lock? || step.Relock?)
    ensures Enabled(s, step) <==> May(n, a, h, step)
  {
    if step.w < n {
      assert s.workers[step.w] == Place(h, step.w);
    }
  }

  /** Each place is reached by one statement only. */
  lemma PlaceTells(last: Option<Step>, cleared: bool, empty: bool, woken: bool, took: Hand, w: nat)
    requires last.Some? ==> By(last.value, TheWorker(w))
    ensures var p := PlaceAfter(last, cleared, empty, woken, took);
            && (p == Checking <==> last == None || last == Some(Return(w)))
            && (p == Testing <==> last == Some(Lock(w)))
            && (p.Retesting? <==> last == Some(Relock(w)) || (last == Some(Test(w)) && !empty))
            && (p.Leaving? <==> last == Some(Retest(w)))
            && (p.Calling? <==> last == Some(Unlock(w)))
            && (p == InTask <==> last == Some(CallTask(w)))
            && p != Unborn
  {
  }

  lemma EnabledUnblocked(n: nat, a: nat, h: seq<Step>, s: Pool, step: Step)
    requires Workers(n, h, s) && WorkerStep(step) && !step.Lock? && !step.Relock?
    ensures Enabled(s, step) <==> May(n, a, h, step)
  {
    if step.w < n {
      var w := step.w;
      PlaceTells(LastOf(h, TheWorker(w)), SawCleared(h, w), SawEmpty(h, w), Woken(h, w), Took(h, w), w);
      assert s.workers[w] == Place(h, w);
    }
  }

  lemma EnabledAppender(n: nat, a: nat, h: seq<Step>, s: Pool, step: Step)
    requires Linked(n, a, h, s) && Exclusion(s) && Flags(s) && AppenderStep(step)
    ensures Enabled(s, step) <==> May(n, a, h, step)
  {
    if step.Enter? {
      EnabledEnter(n, a, h, s, step);
    } else if step.NotifyOne? {
      EnabledNotify(n, a, h, s, step);
    } else {
      LockIff(n, a, h, s);
      EnabledPushing(n, a, h, s, step);
    }
  }

  lemma EnabledEnter(n: nat, a: nat, h: seq<Step>, s: Pool, step: Step)
    requires Appenders(a, h, s) && Owners(n, h, s) && Shared(h, s) && Flags(s) && step.Enter?
    ensures Enabled(s, step) <==> May(n, a, h, step)
  {
    if step.a < a {
      assert s.appenders[step.a] == Station(h, step.a) && HasBrought(h, step.a);
    }
  }

  lemma EnabledPushing(n: nat, a: nat, h: seq<Step>, s: Pool, step: Step)
    requires Appenders(a, h, s) && (s.lock == None <==> MutexFree(n, a, h))
    requires step.LockToPush? || step.Push? || step.UnlockPushed?
    ensures Enabled(s, step) <==> May(n, a, h, step)
  {
    if step.a < a {
      assert s.appenders[step.a] == Station(h, step.a) && HasBrought(h, step.a);
    }
  }

  lemma EnabledNotify(n: nat, a: nat, h: seq<Step>, s: Pool, step: Step)
    requires Appenders(a, h, s) && Workers(n, h, s) && step.NotifyOne?
    ensures Enabled(s, step) <==> May(n, a, h, step)
  {
    if step.a < a {
      assert s.appenders[step.a] == Station(h, step.a) && HasBrought(h, step.a);
    }
    forall w | 0 <= w < n ensures s.workers[w] == Waiting <==> IsParked(h, w) {
      ParkedIff(n, h, s, w);
    }
  }

  lemma EnabledOwner(n: nat, a: nat, h: seq<Step>, s: Pool, step: Step)
    requires Linked(n, a, h, s) && OwnerStep(step)
    ensures Enabled(s, step) <==> May(n, a, h, step)
  {
    if step.Join? {
      EnabledJoin(n, a, h, s);
    } else {
      EnabledBefore(n, a, h, s, step);
    }
  }

  lemma EnabledBefore(n: nat, a: nat, h: seq<Step>, s: Pool, step: Step)
    requires Owners(n, h, s) && |s.workers| == n && OwnerStep(step) && !step.Join?
    ensures Enabled(s, step) <==> May(n, a, h, step)
  {
  }

  lemma EnabledJoin(n: nat, a: nat, h: seq<Step>, s: Pool)
    requires Owners(n, h, s) && Workers(n, h, s)
    ensures Enabled(s, Join) <==> May(n, a, h, Join)
  {
    if Count(h, Join) < n {
      ParkedIff(n, h, s, Count(h, Join));
    }
  }

  lemma EnabledIff(n: nat, a: nat, h: seq<Step>, s: Pool, step: Step)
    requires Linked(n, a, h, s) && Exclusion(s) && Flags(s)
    ensures Enabled(s, step) <==> May(n, a, h, step)
  {
    if WorkerStep(step) {
      EnabledWorker(n, a, h, s, step);
    } else if AppenderStep(step) {
      EnabledAppender(n, a, h, s, step);
    } else if OwnerStep(step) {
      EnabledOwner(n, a, h, s, step);
    } else if step.w < n {
      ParkedIff(n, h, s, step.w);
    }
  }

  // ----- one more step

  lemma WokenGrow(h: seq<Step>, step: Step, w: nat)
    requires !By(step, TheWorker(w))
    ensures Woken(h + [step], w) <==> Woken(h, w) || Wakes(step, w)
  {
    Grow(h, step, TheWorker(w));
    var old_, new_ := Since(h, TheWorker(w)), Since(h + [step], TheWorker(w));
    if Woken(h, w) {
      var i :| 0 <= i < |old_| && Wakes(old_[i], w);
      assert Wakes(new_[i], w);
    }
    if Wakes(step, w) {
      assert Wakes(new_[|old_|], w);
    }
  }

  /** A wake moves a worker only out of wait. */
  lemma WakeMoves(last: Option<Step>, cleared: bool, empty: bool, woken: bool, wakes: bool, took: Hand)
    ensures PlaceAfter(last, cleared, empty, woken || wakes, took)
         == if wakes && PlaceAfter(last, cleared, empty, woken, took) == Waiting then Waking
            else PlaceAfter(last, cleared, empty, woken, took)
  {
  }

  /** What the steps of others leave of what a worker did, read and took. */
  lemma ReadsGrow(h: seq<Step>, step: Step, w: nat)
    requires !By(step, TheWorker(w))
    ensures LastOf(h + [step], TheWorker(w)) == LastOf(h, TheWorker(w)) && Took(h + [step], w) == Took(h, w)
    ensures SawCleared(h + [step], w) == SawCleared(h, w) && SawEmpty(h + [step], w) == SawEmpty(h, w)
    ensures Woken(h + [step], w) == (Woken(h, w) || Wakes(step, w))
    ensures Count(h + [step], Spawn) == Count(h, Spawn) + if step == Spawn then 1 else 0
  {
    Grow(h, step, TheWorker(w));
    CollectOf(h, step, w, Spawn);
    WokenGrow(h, step, w);
  }

  lemma PlaceOther(h: seq<Step>, step: Step, w: nat)
    requires !By(step, TheWorker(w)) && (Count(h, Spawn) <= w ==> LastOf(h, TheWorker(w)) == None)
    ensures Place(h + [step], w)
         == if step == Spawn && Count(h, Spawn) == w then Checking
            else if Wakes(step, w) && Place(h, w) == Waiting then Waking
            else Place(h, w)
  {
    ReadsGrow(h, step, w);
    WakeMoves(LastOf(h, TheWorker(w)), SawCleared(h, w), SawEmpty(h, w), Woken(h, w), Wakes(step, w), Took(h, w));
  }

  lemma PlaceOwn(h: seq<Step>, step: Step, w: nat)
    requires By(step, TheWorker(w)) && w < Count(h, Spawn)
    ensures Place(h + [step], w)
         == match step
            case Check(_) => if ClearFlag in h then Exited else Locking
            case Lock(_) => Testing
            case Test(_) => if Drained(h) then Waiting else Retesting(false)
            case Relock(_) => Retesting(true)
            case Retest(_) => Leaving(if Drained(h) then None else Some(Taken(h)))
            case Unlock(_) => Calling(Took(h, w))
            case CallTask(_) => InTask
            case _ => Checking
  {
    Grow(h, step, TheWorker(w));
    CollectOf(h, step, w, Spawn);
  }

  lemma UnbornGrow(n: nat, h: seq<Step>, s: Pool, step: Step)
    requires Workers(n, h, s) && Enabled(s, step)
    ensures forall w: nat :: Count(h + [step], Spawn) <= w ==> LastOf(h + [step], TheWorker(w)) == None
  {
    if WorkerStep(step) { OnlyBorn(n, h, s, step); }
    forall w: nat | Count(h + [step], Spawn) <= w ensures LastOf(h + [step], TheWorker(w)) == None {
      Grow(h, step, TheWorker(w));
      CollectOf(h, step, w, Spawn);
    }
  }

  lemma OnlyBorn(n: nat, h: seq<Step>, s: Pool, step: Step)
    requires Workers(n, h, s) && Enabled(s, step) && WorkerStep(step)
    ensures step.w < Count(h, Spawn)
  {
    assert s.workers[step.w] == Place(h, step.w);
  }

  lemma WorkersOwn(n: nat, h: seq<Step>, s: Pool, step: Step)
    requires Workers(n, h, s) && Shared(h, s) && Enabled(s, step) && WorkerStep(step)
    ensures Apply(s, step).workers == s.workers[step.w := Place(h + [step], step.w)]
  {
    OnlyBorn(n, h, s, step);
    if s.workers[step.w].Leaving? { TookTells(n, h, s, step.w); }
    PlaceOwn(h, step, step.w);
    OwnMoved(s, step, ClearFlag in h, Drained(h), Taken(h), Took(h, step.w));
  }

  lemma TookTells(n: nat, h: seq<Step>, s: Pool, w: nat)
    requires Workers(n, h, s) && w < n && s.workers[w].Leaving?
    ensures s.workers[w].hand == Took(h, w)
  {
    assert s.workers[w] == Place(h, w);
  }

  lemma OwnMoved(s: Pool, step: Step, cleared: bool, drained: bool, taken: nat, took: Hand)
    requires Enabled(s, step) && WorkerStep(step)
    requires s.running == !cleared && (s.tasks == [] <==> drained) && |s.popped| == taken
    requires s.workers[step.w].Leaving? ==> s.workers[step.w].hand == took
    ensures Apply(s, step).workers
         == s.workers[step.w := match step
                                case Check(_) => if cleared then Exited else Locking
                                case Lock(_) => Testing
                                case Test(_) => if drained then Waiting else Retesting(false)
                                case Relock(_) => Retesting(true)
                                case Retest(_) => Leaving(if drained then None else Some(taken))
                                case Unlock(_) => Calling(took)
                                case CallTask(_) => InTask
                                case _ => Checking]
  {
  }

  lemma WorkersStep(n: nat, h: seq<Step>, s: Pool, step: Step)
    requires Workers(n, h, s) && Shared(h, s) && Enabled(s, step) && WorkerStep(step)
    ensures Workers(n, h + [step], Apply(s, step))
  {
    UnbornGrow(n, h, s, step);
    WorkersOwn(n, h, s, step);
    forall w | 0 <= w < n ensures Apply(s, step).workers[w] == Place(h + [step], w) {
      if w != step.w { PlaceOther(h, step, w); }
    }
  }

  lemma WorkersOthers(n: nat, h: seq<Step>, s: Pool, step: Step)
    requires Workers(n, h, s) && Owners(n, h, s) && Enabled(s, step) && !WorkerStep(step)
    ensures Workers(n, h + [step], Apply(s, step))
  {
    UnbornGrow(n, h, s, step);
    WorkersMoved(n, h, s, step);
    forall w | 0 <= w < n ensures Apply(s, step).workers[w] == Place(h + [step], w) {
      PlaceOther(h, step, w);
    }
  }

  lemma WorkersMoved(n: nat, h: seq<Step>, s: Pool, step: Step)
    requires Workers(n, h, s) && Owners(n, h, s) && Enabled(s, step) && !WorkerStep(step)
    ensures forall w :: 0 <= w < n ==>
              Apply(s, step).workers[w] == if step == Spawn && Count(h, Spawn) == w then Checking
                                           else if Wakes(step, w) && s.workers[w] == Waiting then Waking
                                           else s.workers[w]
  {
    if step.Spawn? {
      SpawnMoved(n, h, s);
    } else {
      WakesMoved(s, step);
    }
  }

  lemma SpawnMoved(n: nat, h: seq<Step>, s: Pool)
    requires |s.workers| == n && Owners(n, h, s) && Enabled(s, Spawn)
    ensures forall w :: 0 <= w < n ==>
              Apply(s, Spawn).workers[w] == if Count(h, Spawn) == w then Checking else s.workers[w]
  {
  }

  lemma WakesMoved(s: Pool, step: Step)
    requires Enabled(s, step) && !WorkerStep(step) && !step.Spawn?
    ensures forall w :: 0 <= w < |s.workers| ==>
              Apply(s, step).workers[w] == if Wakes(step, w) && s.workers[w] == Waiting then Waking else s.workers[w]
  {
  }

  lemma StationGrow(h: seq<Step>, step: Step, x: nat)
    requires HasBrought(h, x)
    ensures !By(step, TheAppender(x)) ==> Station(h + [step], x) == Station(h, x) && HasBrought(h + [step], x)
    ensures By(step, TheAppender(x)) && (step.LockToPush? ==> Station(h, x).Entering?) ==>
              && HasBrought(h + [step], x)
              && Station(h + [step], x) == match step
                                           case Enter(_, task) => Entering(task)
                                           case LockToPush(_) => Pushing(Station(h, x).task)
                                           case Push(_) => Unlocking
                                           case UnlockPushed(_) => Notifying
                                           case _ => Idle
  {
    Grow(h, step, TheAppender(x));
    BroughtGrow(h, step, x);
  }

  lemma BroughtGrow(h: seq<Step>, step: Step, x: nat)
    ensures Brought(h + [step], x) == if step.Enter? && step.a == x then Some(step.task) else Brought(h, x)
  {
    assert (h + [step])[..|h|] == h;
  }

  lemma AppendersStep(a: nat, h: seq<Step>, s: Pool, step: Step)
    requires Appenders(a, h, s) && Enabled(s, step)
    ensures Appenders(a, h + [step], Apply(s, step))
  {
    AppendersMoved(s, step);
    forall x | 0 <= x < a
      ensures Apply(s, step).appenders[x] == Station(h + [step], x) && HasBrought(h + [step], x)
    {
      StationGrow(h, step, x);
    }
  }

  lemma AppendersMoved(s: Pool, step: Step)
    requires Enabled(s, step)
    ensures !AppenderStep(step) ==> Apply(s, step).appenders == s.appenders
    ensures AppenderStep(step) ==>
              Apply(s, step).appenders
              == s.appenders[step.a := match step
                                       case Enter(_, task) => Entering(task)
                                       case LockToPush(_) => Pushing(s.appenders[step.a].task)
                                       case Push(_) => Unlocking
                                       case UnlockPushed(_) => Notifying
                                       case _ => Idle]
  {
  }

  lemma SharedStep(n: nat, a: nat, h: seq<Step>, s: Pool, step: Step)
    requires Linked(n, a, h, s) && Enabled(s, step)
    ensures Shared(h + [step], Apply(s, step))
  {
    Collect(h, step);
    if AppenderStep(step) {
      SharedAppender(a, h, s, step);
    } else if WorkerStep(step) {
      SharedWorker(n, h, s, step);
    } else {
      SharedOthers(h, s, step);
    }
  }

  lemma SharedAppender(a: nat, h: seq<Step>, s: Pool, step: Step)
    requires Appenders(a, h, s) && Shared(h, s) && Enabled(s, step) && AppenderStep(step)
    ensures Shared(h + [step], Apply(s, step))
  {
    Collect(h, step);
    if step.Push? {
      assert s.appenders[step.a] == Station(h, step.a) && HasBrought(h, step.a);
    }
  }

  lemma SharedWorker(n: nat, h: seq<Step>, s: Pool, step: Step)
    requires Workers(n, h, s) && Shared(h, s) && Enabled(s, step) && WorkerStep(step)
    ensures Shared(h + [step], Apply(s, step))
  {
    if step.Retest? {
      SharedRetest(h, s, step);
    } else if step.CallTask? {
      assert s.workers[step.w] == Place(h, step.w);
      SharedCall(h, s, step);
    } else {
      SharedSilent(h, s, step);
    }
  }

  lemma SharedRetest(h: seq<Step>, s: Pool, step: Step)
    requires Shared(h, s) && Enabled(s, step) && step.Retest?
    ensures Shared(h + [step], Apply(s, step))
  {
    Collect(h, step);
  }

  lemma SharedCall(h: seq<Step>, s: Pool, step: Step)
    requires Shared(h, s) && Enabled(s, step) && step.CallTask? && s.workers[step.w].hand == Took(h, step.w)
    ensures Shared(h + [step], Apply(s, step))
  {
    Collect(h, step);
  }

  lemma SharedSilent(h: seq<Step>, s: Pool, step: Step)
    requires Shared(h, s) && Enabled(s, step) && WorkerStep(step) && !step.Retest? && !step.CallTask?
    ensures Shared(h + [step], Apply(s, step))
  {
    Collect(h, step);
  }

  lemma SharedOthers(h: seq<Step>, s: Pool, step: Step)
    requires Shared(h, s) && Enabled(s, step) && !AppenderStep(step) && !WorkerStep(step)
    ensures Shared(h + [step], Apply(s, step))
  {
    Collect(h, step);
  }

  lemma OwnersStep(n: nat, h: seq<Step>, s: Pool, step: Step)
    requires Owners(n, h, s) && |s.workers| == n && Flags(s) && Enabled(s, step)
    ensures Owners(n, h + [step], Apply(s, step))
  {
    Grow(h, step, TheOwner);
    CollectOf(h, step, 0, Spawn);
    CollectOf(h, step, 0, Join);
    if OwnerStep(step) {
      OwnersOwn(n, h, s, step);
    } else {
      OwnersFrame(s, step);
    }
  }

  lemma OwnersFrame(s: Pool, step: Step)
    requires Enabled(s, step) && !OwnerStep(step)
    ensures Apply(s, step).owner == s.owner
  {
  }

  lemma OwnersOwn(n: nat, h: seq<Step>, s: Pool, step: Step)
    requires Owners(n, h, s) && |s.workers| == n && Flags(s) && Enabled(s, step) && OwnerStep(step)
    requires LastOf(h + [step], TheOwner) == Some(step)
    requires Count(h + [step], Spawn) == Count(h, Spawn) + if step == Spawn then 1 else 0
    requires Count(h + [step], Join) == Count(h, Join) + if step == Join then 1 else 0
    ensures Owners(n, h + [step], Apply(s, step))
  {
  }

  lemma LinkedStep(n: nat, a: nat, h: seq<Step>, s: Pool, step: Step)
    requires Linked(n, a, h, s) && Flags(s) && Enabled(s, step)
    ensures Linked(n, a, h + [step], Apply(s, step))
  {
    if WorkerStep(step) {
      WorkersStep(n, h, s, step);
    } else {
      WorkersOthers(n, h, s, step);
    }
    AppendersStep(a, h, s, step);
    SharedStep(n, a, h, s, step);
    OwnersStep(n, h, s, step);
  }

  // ----- whole runs

  lemma LinkedInit(n: nat, a: nat)
    ensures Linked(n, a, [], Init(n, a))
  {
    WorkersInit(n, a);
    SharedInit(n, a);
  }

  lemma WorkersInit(n: nat, a: nat)
    ensures Workers(n, [], Init(n, a)) && Appenders(a, [], Init(n, a)) && Owners(n, [], Init(n, a))
  {
  }

  lemma SharedInit(n: nat, a: nat)
    ensures Shared([], Init(n, a))
  {
  }

  /** A run with its last step split off. */
  lemma {:induction false} RunFront(s: Pool, steps: seq<Step>, t: Pool) returns (u: Pool)
    requires Run(s, steps, t) && steps != []
    ensures Run(s, steps[..|steps| - 1], u) && Enabled(u, steps[|steps| - 1]) && Apply(u, steps[|steps| - 1]) == t
    decreases |steps|
  {
    if |steps| == 1 {
      u := s;
    } else {
      u := RunFront(Apply(s, steps[0]), steps[1..], t);
      assert steps[1..][..|steps| - 2] == steps[..|steps| - 1][1..];
    }
  }

  lemma {:induction false} RunLinked(n: nat, a: nat, steps: seq<Step>, s: Pool)
    requires Run(Init(n, a), steps, s)
    ensures Linked(n, a, steps, s) && Lawful(n, a, steps)
    decreases |steps|
  {
    if steps == [] {
      LinkedInit(n, a);
    } else {
      var h, step := steps[..|steps| - 1], steps[|steps| - 1];
      assert steps == h + [step];
      var u := RunFront(Init(n, a), steps, s);
      RunLinked(n, a, h, u);
      LinkedMore(n, a, h, u, step);
      LawfulMore(n, a, h, step);
    }
  }

  lemma LinkedMore(n: nat, a: nat, h: seq<Step>, u: Pool, step: Step)
    requires Run(Init(n, a), h, u) && Linked(n, a, h, u)
    ensures Enabled(u, step) <==> May(n, a, h, step)
    ensures Enabled(u, step) ==> Linked(n, a, h + [step], Apply(u, step))
  {
    InvReachable(n, a, u);
    EnabledIff(n, a, h, u, step);
    if Enabled(u, step) { LinkedStep(n, a, h, u, step); }
  }

  lemma LawfulMore(n: nat, a: nat, h: seq<Step>, step: Step)
    ensures Lawful(n, a, h + [step]) <==> Lawful(n, a, h) && May(n, a, h, step)
  {
    var more := h + [step];
    assert more[..|h|] == h;
    assert forall i :: 0 <= i < |h| ==> more[..i] == h[..i] && more[i] == h[i];
    if Lawful(n, a, more) {
      assert May(n, a, more[..|h|], more[|h|]);
      forall i | 0 <= i < |h| ensures May(n, a, h[..i], h[i]) {
        assert May(n, a, more[..i], more[i]);
      }
    }
  }

  lemma MayEnables(n: nat, a: nat, h: seq<Step>, u: Pool, step: Step)
    requires Run(Init(n, a), h, u) && May(n, a, h, step)
    ensures Enabled(u, step)
  {
    RunLinked(n, a, h, u);
    LinkedMore(n, a, h, u, step);
  }

  lemma {:induction false} LawfulRuns(n: nat, a: nat, steps: seq<Step>) returns (s: Pool)
    requires Lawful(n, a, steps)
    ensures Run(Init(n, a), steps, s)
    decreases |steps|
  {
    if steps == [] {
      s := Init(n, a);
    } else {
      var h, step := steps[..|steps| - 1], steps[|steps| - 1];
      assert steps == h + [step];
      LawfulMore(n, a, h, step);
      var u := LawfulRuns(n, a, h);
      MayEnables(n, a, h, u, step);
      RunExtends(Init(n, a), h, u, step);
      s := Apply(u, step);
    }
  }

  ghost predicate Possible(n: nat, a: nat, steps: seq<Step>) {
    exists s :: Run(Init(n, a), steps, s)
  }

  lemma PossibleLawful(n: nat, a: nat, steps: seq<Step>)
    requires Possible(n, a, steps)
    ensures Lawful(n, a, steps)
  {
    var s :| Run(Init(n, a), steps, s);
    RunLinked(n, a, steps, s);
  }

  lemma LawfulPossible(n: nat, a: nat, steps: seq<Step>)
    requires Lawful(n, a, steps)
    ensures Possible(n, a, steps)
  {
    var s := LawfulRuns(n, a, steps);
  }

  /** The runs of the pool are exactly the sequences of steps that the program text and what was read in it allow. */
  lemma RunIffLawful(n: nat, a: nat, steps: seq<Step>)
    ensures Possible(n, a, steps) <==> Lawful(n, a, steps)
  {
    if Lawful(n, a, steps) {
      LawfulPossible(n, a, steps);
    } else if Possible(n, a, steps) {
      PossibleLawful(n, a, steps);
    }
  }

  /** What was pushed, taken and called is what the steps say: the callers' own pairs, in order, to their takers. */
  lemma HistoryTells(n: nat, a: nat, steps: seq<Step>, s: Pool)
    requires Run(Init(n, a), steps, s)
    ensures s.appended == Pushes(steps) && s.tasks == Pushes(steps)[Taken(steps)..]
    ensures s.popped == Pops(steps) && s.calls == Calls(steps)
    ensures s.clearedAt == CallsAtClear(steps) && s.late == Late(steps) && s.notifyOnes == Notified(steps)
    ensures s.running <==> ClearFlag !in steps
    ensures s.control <==> SetControl in steps
    ensures s.notifiedAll <==> NotifyAll in steps
  {
    RunLinked(n, a, steps, s);
  }

  /** Where each worker is: parked and exited mean what the steps say. */
  lemma PlacesTell(n: nat, a: nat, steps: seq<Step>, s: Pool, w: nat)
    requires Run(Init(n, a), steps, s) && w < n
    ensures |s.workers| == n
    ensures s.workers[w] == Waiting <==> IsParked(steps, w)
    ensures s.workers[w] == Exited <==> HasExited(steps, w)
    ensures s.workers[w] == Unborn <==> Count(steps, Spawn) <= w
  {
    RunWorkers(n, a, steps, s);
    ParkedIff(n, steps, s, w);
  }

  lemma RunWorkers(n: nat, a: nat, steps: seq<Step>, s: Pool)
    requires Run(Init(n, a), steps, s)
    ensures Workers(n, steps, s)
  {
    RunLinked(n, a, steps, s);
  }

  // ----- what a parked worker had read

  /** Where a thread's last statement stands. */
  lemma {:induction false} LastAt(h: seq<Step>, who: Who) returns (j: nat)
    requires LastOf(h, who).Some?
    ensures j < |h| && h[j] == LastOf(h, who).value && Before(h, who) == h[..j]
    ensures forall k :: j < k < |h| ==> !By(h[k], who)
    decreases |h|
  {
    var f := h[..|h| - 1];
    if By(h[|h| - 1], who) {
      j := |h| - 1;
    } else {
      j := LastAt(f, who);
      assert f[..j] == h[..j];
    }
  }

  /** At position i worker w last did h[j], and nothing of its own between. */
  ghost predicate Preceded(steps: seq<Step>, j: nat, i: nat, w: nat) {
    j < i <= |steps| && forall k :: j < k < i ==> !By(steps[k], TheWorker(w))
  }

  lemma LockAt(n: nat, a: nat, steps: seq<Step>, i: nat, w: nat)
    requires Possible(n, a, steps) && i < |steps| && steps[i] == Lock(w)
    ensures LastOf(steps[..i], TheWorker(w)) == Some(Check(w)) && !SawCleared(steps[..i], w)
  {
    PossibleLawful(n, a, steps);
    assert May(n, a, steps[..i], steps[i]);
  }

  lemma TestAt(n: nat, a: nat, steps: seq<Step>, i: nat, w: nat)
    requires Possible(n, a, steps) && i < |steps| && steps[i] == Test(w)
    ensures LastOf(steps[..i], TheWorker(w)) == Some(Lock(w))
  {
    PossibleLawful(n, a, steps);
    assert May(n, a, steps[..i], steps[i]);
  }

  /** Before a worker takes the mutex at the top of its loop it has read _running, and before that was cleared. */
  lemma ReadBeforeLock(n: nat, a: nat, steps: seq<Step>, i: nat, w: nat) returns (j: nat)
    requires Possible(n, a, steps) && i < |steps| && steps[i] == Lock(w)
    ensures Preceded(steps, j, i, w) && steps[j] == Check(w) && ClearFlag !in steps[..j]
  {
    LockAt(n, a, steps, i, w);
    j := LastAt(steps[..i], TheWorker(w));
    assert steps[..i][..j] == steps[..j];
  }

  lemma LockBeforeTest(n: nat, a: nat, steps: seq<Step>, i: nat, w: nat) returns (j: nat)
    requires Possible(n, a, steps) && i < |steps| && steps[i] == Test(w)
    ensures Preceded(steps, j, i, w) && steps[j] == Lock(w)
  {
    TestAt(n, a, steps, i, w);
    j := LastAt(steps[..i], TheWorker(w));
  }

  /** A parked worker read _running before it was cleared, took the mutex, found the queue empty, and did no more. */
  lemma ParkedHadRead(n: nat, a: nat, steps: seq<Step>, s: Pool, w: nat) returns (i: nat, j: nat, k: nat)
    requires Run(Init(n, a), steps, s) && w < n && IsParked(steps, w)
    ensures |s.workers| == n && s.workers[w] == Waiting
    ensures Preceded(steps, i, j, w) && Preceded(steps, j, k, w) && Preceded(steps, k, |steps|, w)
    ensures steps[i] == Check(w) && steps[j] == Lock(w) && steps[k] == Test(w)
    ensures ClearFlag !in steps[..i] && Drained(steps[..k])
  {
    PlacesTell(n, a, steps, s, w);
    k := LastAt(steps, TheWorker(w));
    j := LockBeforeTest(n, a, steps, k, w);
    i := ReadBeforeLock(n, a, steps, j, w);
  }

  /** A worker that has to read _running again, or for the first time, with nothing done since. */
  ghost predicate AtLoopHead(h: seq<Step>, w: nat) {
    LastOf(h, TheWorker(w)) == None || LastOf(h, TheWorker(w)) == Some(Return(w))
  }

  lemma OnlyChecks(n: nat, a: nat, h: seq<Step>, step: Step, w: nat)
    requires ClearFlag in h && (AtLoopHead(h, w) || HasExited(h, w)) && May(n, a, h, step)
    ensures By(step, TheWorker(w)) ==> step == Check(w)
    ensures AtLoopHead(h + [step], w) || HasExited(h + [step], w)
  {
    Grow(h, step, TheWorker(w));
  }

  lemma OnlyChecksAt(n: nat, a: nat, steps: seq<Step>, m: nat, w: nat)
    requires Possible(n, a, steps) && m < |steps| && ClearFlag in steps[..m]
    requires AtLoopHead(steps[..m], w) || HasExited(steps[..m], w)
    ensures By(steps[m], TheWorker(w)) ==> steps[m] == Check(w)
    ensures AtLoopHead(steps[..m] + [steps[m]], w) || HasExited(steps[..m] + [steps[m]], w)
  {
    PossibleLawful(n, a, steps);
    assert May(n, a, steps[..m], steps[m]);
    OnlyChecks(n, a, steps[..m], steps[m], w);
  }

  /** If _running was cleared while a worker was there, it never waits or calls Task again: it reads and exits. */
  lemma {:induction false} ClearedAtLoopHead(n: nat, a: nat, steps: seq<Step>, c: nat, m: nat, w: nat)
    requires Possible(n, a, steps) && c < m <= |steps| && steps[c] == ClearFlag && AtLoopHead(steps[..c], w)
    ensures AtLoopHead(steps[..m], w) || HasExited(steps[..m], w)
    ensures forall i :: c <= i < m && By(steps[i], TheWorker(w)) ==> steps[i] == Check(w)
    decreases m
  {
    assert steps[..m] == steps[..m - 1] + [steps[m - 1]];
    if m == c + 1 {
      Grow(steps[..c], ClearFlag, TheWorker(w));
    } else {
      ClearedAtLoopHead(n, a, steps, c, m - 1, w);
      assert steps[..m - 1][c] == ClearFlag;
      OnlyChecksAt(n, a, steps, m - 1, w);
    }
  }

  /** So a pool destroyed before its worker has read _running leaves that worker unparked. */
  lemma NeverParked(n: nat, a: nat, steps: seq<Step>, s: Pool, c: nat, w: nat)
    requires Run(Init(n, a), steps, s) && w < n && c < |steps| && steps[c] == ClearFlag && AtLoopHead(steps[..c], w)
    ensures |s.workers| == n && s.workers[w] != Waiting
    ensures CallTask(w) !in steps[c..] && Lock(w) !in steps[c..]
  {
    ClearedAtLoopHead(n, a, steps, c, |steps|, w);
    assert steps[..|steps|] == steps;
    PlacesTell(n, a, steps, s, w);
    assert forall i :: c <= i < |steps| ==> steps[i] != CallTask(w) && steps[i] != Lock(w);
  }

  // ----- what Task is called with

  /** Every pair pushed is one that some append was called with. */
  lemma {:induction false} PushedWasBrought(h: seq<Step>, k: nat)
    requires k < |Pushes(h)|
    ensures exists i :: 0 <= i < |h| && h[i].Enter? && h[i].task == Pushes(h)[k]
    decreases |h|
  {
    var f := h[..|h| - 1];
    if k < |Pushes(f)| {
      PushedWasBrought(f, k);
      var i :| 0 <= i < |f| && f[i].Enter? && f[i].task == Pushes(f)[k];
      assert h[i].Enter? && h[i].task == Pushes(h)[k];
    } else {
      var i := BroughtAt(f, h[|h| - 1].a);
      assert h[i].Enter? && h[i].task == Pushes(h)[k];
    }
  }

  lemma {:induction false} BroughtAt(h: seq<Step>, a: nat) returns (i: nat)
    requires Brought(h, a).Some?
    ensures i < |h| && h[i] == Enter(a, Brought(h, a).value)
    decreases |h|
  {
    if h[|h| - 1].Enter? && h[|h| - 1].a == a {
      i := |h| - 1;
    } else {
      i := BroughtAt(h[..|h| - 1], a);
    }
  }

  /** Task is called with a pair that some append was called with, the one pushed at the same place in the order. */
  lemma CalledWithBrought(n: nat, a: nat, steps: seq<Step>, s: Pool, c: nat, k: nat)
    requires Run(Init(n, a), steps, s) && c < |s.calls| && s.calls[c].hand == Some(k)
    ensures k < |s.popped| && k < |Pushes(steps)| && s.popped[k].task == Pushes(steps)[k]
    ensures exists i :: 0 <= i < |steps| && steps[i].Enter? && steps[i].task == s.popped[k].task
  {
    InvReachable(n, a, s);
    HistoryTells(n, a, steps, s);
    assert TasksOf(s.popped)[k] == s.popped[k].task;
    PushedWasBrought(steps, k);
  }
}
