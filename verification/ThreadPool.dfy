/**
 * The thread pool of ctpl/ctpl_stl.h as interleaved atomic steps: workers, callers of push, and one call of
 * stop(true) once all pushes have returned. Tasks are numbered in the order in which they enter the queue.
 */
module ThreadPool {

  /** Where a worker stands in the loop of set_thread. */
  datatype WorkerPc =
    | Starting             // before its first q.pop
    | Running(task: nat)   // calling what it has popped
    | Finished             // the call has returned; it pops again next
    | Locking              // nothing popped: about to lock the pool mutex
    | Testing              // holds the mutex, in the wait predicate, before q.pop
    | Popped(task: nat)    // holds the mutex, the predicate has popped a task
    | Checking             // holds the mutex, the pop failed, before reading isDone
    | Waiting              // blocked on the condition variable
    | Notified             // woken, about to lock the mutex again
    | Returning            // holds the mutex, isDone was set: leaves the loop
    | Exited

  /** Where a caller of push stands; `left` counts the pushes it has not completed. */
  datatype PusherPc =
    | Idle(left: nat)
    | Pushed(left: nat)        // q.push is done, about to lock the mutex
    | PushLocked(left: nat)    // holds the mutex, before notify_one
    | PushNotified(left: nat)  // holds the mutex, after notify_one

  /** Where the caller of stop(true) stands. */
  datatype StopPc =
    | BeforeStop | StopCalled | DoneSet | StopLocked | StopNotified
    | Joining(next: nat) | Clearing | Stopped

  datatype Owner = Free | WorkerOwns(w: nat) | PusherOwns(p: nat) | StopperOwns

  datatype Run = Run(worker: nat, task: nat)

  datatype Pool = Pool(
    workers: seq<WorkerPc>,
    pushers: seq<PusherPc>,
    stop: StopPc,
    mutex: Owner,
    queue: seq<nat>,
    isDone: bool,
    nextTask: nat,    // how many tasks have been pushed
    log: seq<Run>,    // the calls that have returned
    dropped: nat)     // tasks that clear_queue deleted

  datatype Step =
    | Pop(w: nat) | Finish(w: nat) | Lock(w: nat) | Test(w: nat) | Check(w: nat) | Leave(w: nat)
    | Spurious(w: nat)
    | Push(p: nat) | PushLock(p: nat) | NotifyOne(p: nat, w: nat) | NotifyNobody(p: nat) | PushUnlock(p: nat)
    | CallStop | SetDone | StopLock | NotifyAll | StopUnlock | Join | Clear

  predicate NobodyWaits(s: Pool) {
    forall w :: 0 <= w < |s.workers| ==> s.workers[w] != Waiting
  }

  predicate Enabled(s: Pool, l: Step) {
    match l
    case Pop(w) => w < |s.workers| && (s.workers[w] == Starting || s.workers[w] == Finished)
    case Finish(w) => w < |s.workers| && s.workers[w].Running?
    case Lock(w) => w < |s.workers| && (s.workers[w] == Locking || s.workers[w] == Notified) && s.mutex == Free
    case Test(w) => w < |s.workers| && s.workers[w] == Testing
    case Check(w) => w < |s.workers| && s.workers[w] == Checking
    case Leave(w) => w < |s.workers| && (s.workers[w].Popped? || s.workers[w] == Returning)
    case Spurious(w) => w < |s.workers| && s.workers[w] == Waiting
    case Push(p) => p < |s.pushers| && s.pushers[p].Idle? && s.pushers[p].left > 0
    case PushLock(p) => p < |s.pushers| && s.pushers[p].Pushed? && s.mutex == Free
    case NotifyOne(p, w) => p < |s.pushers| && s.pushers[p].PushLocked? && w < |s.workers| && s.workers[w] == Waiting
    case NotifyNobody(p) => p < |s.pushers| && s.pushers[p].PushLocked? && NobodyWaits(s)
    case PushUnlock(p) => p < |s.pushers| && s.pushers[p].PushNotified?
    case CallStop => s.stop == BeforeStop && forall p :: 0 <= p < |s.pushers| ==> s.pushers[p] == Idle(0)
    case SetDone => s.stop == StopCalled
    case StopLock => s.stop == DoneSet && s.mutex == Free
    case NotifyAll => s.stop == StopLocked
    case StopUnlock => s.stop == StopNotified
    case Join => s.stop.Joining? && (s.stop.next < |s.workers| ==> s.workers[s.stop.next] == Exited)
    case Clear => s.stop == Clearing
  }

  /** q.pop: the front task, or false. */
  function Take(s: Pool, w: nat, got: nat -> WorkerPc, none: WorkerPc): Pool
    requires w < |s.workers|
  {
    if s.queue == [] then s.(workers := s.workers[w := none])
    else s.(workers := s.workers[w := got(s.queue[0])], queue := s.queue[1..])
  }

  function Next(s: Pool, l: Step): Pool
    requires Enabled(s, l)
  {
    match l
    case Pop(w) => Take(s, w, (t: nat) => Running(t), Locking)
    case Finish(w) => s.(workers := s.workers[w := Finished], log := s.log + [Run(w, s.workers[w].task)])
    case Lock(w) => s.(workers := s.workers[w := Testing], mutex := WorkerOwns(w))
    case Test(w) => Take(s, w, (t: nat) => Popped(t), Checking)
    case Check(w) =>
      if s.isDone then s.(workers := s.workers[w := Returning])
      else s.(workers := s.workers[w := Waiting], mutex := Free)
    case Leave(w) =>
      s.(workers := s.workers[w := if s.workers[w].Popped? then Running(s.workers[w].task) else Exited], mutex := Free)
    case Spurious(w) => s.(workers := s.workers[w := Notified])
    case Push(p) =>
      s.(pushers := s.pushers[p := Pushed(s.pushers[p].left)],
         queue := s.queue + [s.nextTask], nextTask := s.nextTask + 1)
    case PushLock(p) => s.(pushers := s.pushers[p := PushLocked(s.pushers[p].left)], mutex := PusherOwns(p))
    case NotifyOne(p, w) =>
      s.(pushers := s.pushers[p := PushNotified(s.pushers[p].left)], workers := s.workers[w := Notified])
    case NotifyNobody(p) => s.(pushers := s.pushers[p := PushNotified(s.pushers[p].left)])
    case PushUnlock(p) =>
      var left := s.pushers[p].left;
      s.(pushers := s.pushers[p := Idle(if left > 0 then left - 1 else 0)], mutex := Free)
    case CallStop => s.(stop := if s.isDone then Stopped else StopCalled)
    case SetDone => s.(stop := DoneSet, isDone := true)
    case StopLock => s.(stop := StopLocked, mutex := StopperOwns)
    case NotifyAll => s.(stop := StopNotified, workers := WakeAll(s.workers))
    case StopUnlock => s.(stop := Joining(0), mutex := Free)
    case Join => s.(stop := if s.stop.next < |s.workers| then Joining(s.stop.next + 1) else Clearing)
    case Clear =>
      if s.queue == [] then s.(stop := Stopped) else s.(queue := s.queue[1..], dropped := s.dropped + 1)
  }

  function WakeAll(ws: seq<WorkerPc>): (r: seq<WorkerPc>)
    ensures |r| == |ws| && forall w :: 0 <= w < |ws| ==> r[w] == if ws[w] == Waiting then Notified else ws[w]
  {
    seq(|ws|, w requires 0 <= w < |ws| => if ws[w] == Waiting then Notified else ws[w])
  }

  /** A pool of `n` threads, with one entry in `pushes` for each thread that will call push. */
  function Fresh(n: nat, pushes: seq<nat>): Pool {
    Pool(seq(n, _ => Starting), seq(|pushes|, p requires 0 <= p < |pushes| => Idle(pushes[p])),
         BeforeStop, Free, [], false, 0, [], 0)
  }

  // ----- What holds in every reachable state

  predicate Holds(pc: WorkerPc, t: nat) {
    pc == Running(t) || pc == Popped(t)
  }

  predicate InMutex(pc: WorkerPc) {
    pc == Testing || pc.Popped? || pc == Checking || pc == Returning
  }

  /** A worker that will test the queue before it can block. */
  predicate WillTest(pc: WorkerPc) {
    pc == Starting || pc.Running? || pc == Finished || pc == Locking || pc == Testing || pc.Popped? || pc == Notified
  }

  /** A pusher that has a task in the queue it has not notified anybody of. */
  predicate OwesNotify(pc: PusherPc) {
    pc.Pushed? || pc.PushLocked?
  }

  function Head(s: Pool): int {
    s.nextTask - |s.queue|
  }

  /** The queue holds the last tasks pushed, in order, so tasks are handed out in order. */
  ghost predicate QueueInOrder(s: Pool) {
    Head(s) >= 0 && forall i :: 0 <= i < |s.queue| ==> s.queue[i] == Head(s) + i
  }

  ghost predicate Logged(s: Pool, t: nat) {
    exists i :: 0 <= i < |s.log| && s.log[i].task == t
  }

  ghost predicate Held(s: Pool, t: nat) {
    exists w :: 0 <= w < |s.workers| && Holds(s.workers[w], t)
  }

  predicate HasTask(pc: WorkerPc) {
    pc.Running? || pc.Popped?
  }

  /** Tasks in hand have left the queue, and no two workers have the same one. */
  ghost predicate HeldByOne(s: Pool) {
    && (forall w :: 0 <= w < |s.workers| && HasTask(s.workers[w]) ==> s.workers[w].task < Head(s))
    && (forall v, w :: 0 <= v < w < |s.workers| && HasTask(s.workers[v]) && HasTask(s.workers[w]) ==>
          s.workers[v].task != s.workers[w].task)
  }

  /** Tasks that have been run are run once, and are in nobody's hands. */
  ghost predicate RunOnce(s: Pool) {
    && (forall i :: 0 <= i < |s.log| ==> s.log[i].task < Head(s))
    && (forall i, w :: 0 <= i < |s.log| && 0 <= w < |s.workers| ==> !Holds(s.workers[w], s.log[i].task))
    && (forall i, j :: 0 <= i < j < |s.log| ==> s.log[i].task != s.log[j].task)
  }

  /** Every task handed out is with a worker or has been run. */
  ghost predicate NoneLost(s: Pool) {
    forall t: nat :: t < Head(s) ==> Held(s, t) || Logged(s, t)
  }

  ghost predicate MutexInv(s: Pool) {
    WorkersOwn(s) && PushersOwn(s) && (s.stop == StopLocked || s.stop == StopNotified <==> s.mutex == StopperOwns)
  }

  ghost predicate WorkersOwn(s: Pool) {
    && (forall w :: 0 <= w < |s.workers| ==> (InMutex(s.workers[w]) <==> s.mutex == WorkerOwns(w)))
    && (s.mutex.WorkerOwns? ==> s.mutex.w < |s.workers|)
  }

  ghost predicate PushersOwn(s: Pool) {
    && (forall p :: 0 <= p < |s.pushers| ==> (s.pushers[p].PushLocked? || s.pushers[p].PushNotified? <==>
      s.mutex == PusherOwns(p)))
    && (s.mutex.PusherOwns? ==> s.mutex.p < |s.pushers|)
  }

  /** isDone is set only when all pushes have returned; from notify_all on, nobody waits. */
  ghost predicate StopInv(s: Pool) {
    && (s.isDone <==> s.stop != BeforeStop && s.stop != StopCalled)
    && (s.stop != BeforeStop ==> forall p :: 0 <= p < |s.pushers| ==> s.pushers[p] == Idle(0))
    && (s.isDone && s.stop != DoneSet && s.stop != StopLocked ==> NobodyWaits(s))
    && Joined(s) && s.dropped == 0
  }

  /** Workers that have been joined have exited. */
  ghost predicate Joined(s: Pool) {
    && (s.stop.Joining? ==> s.stop.next <= |s.workers| && forall w :: 0 <= w < s.stop.next ==> s.workers[w] == Exited)
    && (s.stop == Clearing || s.stop == Stopped ==> forall w :: 0 <= w < |s.workers| ==> s.workers[w] == Exited)
  }

  ghost predicate SomeoneOwesNotify(s: Pool) {
    exists p :: 0 <= p < |s.pushers| && OwesNotify(s.pushers[p])
  }

  ghost predicate SomeoneWillTest(s: Pool) {
    exists w :: 0 <= w < |s.workers| && WillTest(s.workers[w])
  }

  /** No wakeup is lost: a task in the queue always has somebody who must still look, or tell. */
  ghost predicate NoLostWakeup(s: Pool) {
    s.queue != [] ==> SomeoneWillTest(s) || SomeoneOwesNotify(s)
  }

  /** A worker whose pop failed blocks only while the notification for any later task is still due. */
  ghost predicate CheckersCovered(s: Pool) {
    forall w :: 0 <= w < |s.workers| && s.workers[w] == Checking && s.queue != [] ==> SomeoneOwesNotify(s)
  }

  /** Workers leave only when the pool is done and the queue is empty. */
  ghost predicate LeaversDone(s: Pool) {
    forall w :: 0 <= w < |s.workers| && (s.workers[w] == Returning || s.workers[w] == Exited) ==>
      s.isDone && s.queue == []
  }

  ghost predicate Inv(s: Pool) {
    && |s.workers| >= 1 && QueueInOrder(s) && HeldByOne(s) && RunOnce(s) && NoneLost(s)
    && MutexInv(s) && StopInv(s) && NoLostWakeup(s) && CheckersCovered(s) && LeaversDone(s)
    && forall p :: 0 <= p < |s.pushers| && !s.pushers[p].Idle? ==> s.pushers[p].left > 0
  }

  lemma InvInit(n: nat, pushes: seq<nat>)
    requires n >= 1
    ensures Inv(Fresh(n, pushes))
  {
  }

  lemma OrderKept(s: Pool, l: Step)
    requires Inv(s) && Enabled(s, l)
    ensures QueueInOrder(Next(s, l))
  {
    var s' := Next(s, l);
    if |s'.queue| < |s.queue| {
      forall i | 0 <= i < |s'.queue| ensures s'.queue[i] == Head(s') + i {
        assert s'.queue[i] == s.queue[i + 1];
      }
    }
  }

  lemma WorkersOwnKept(s: Pool, l: Step)
    requires Inv(s) && Enabled(s, l)
    ensures WorkersOwn(Next(s, l))
  {
    hide QueueInOrder, HeldByOne, RunOnce, NoneLost, StopInv, NoLostWakeup, CheckersCovered, LeaversDone;
  }

  lemma MutexKept(s: Pool, l: Step)
    requires Inv(s) && Enabled(s, l)
    ensures MutexInv(Next(s, l))
  {
    hide QueueInOrder, HeldByOne, RunOnce, NoneLost, StopInv, NoLostWakeup, CheckersCovered, LeaversDone;
    WorkersOwnKept(s, l);
  }

  lemma JoinedKept(s: Pool, l: Step)
    requires Inv(s) && Enabled(s, l)
    ensures Joined(Next(s, l))
  {
    hide QueueInOrder, HeldByOne, RunOnce, NoneLost, MutexInv, NoLostWakeup, CheckersCovered, LeaversDone;
  }

  lemma StopKept(s: Pool, l: Step)
    requires Inv(s) && Enabled(s, l)
    ensures StopInv(Next(s, l))
  {
    hide QueueInOrder, HeldByOne, RunOnce, NoneLost, NoLostWakeup, CheckersCovered, LeaversDone;
    NothingToClear(s);
    JoinedKept(s, l);
  }

  /** After the joins the queue is empty. */
  lemma NothingToClear(s: Pool)
    requires Inv(s)
    ensures s.stop == Clearing ==> s.queue == []
  {
    assert s.stop == Clearing ==> s.workers[0] == Exited;
  }

  lemma OwedKept(s: Pool, l: Step)
    requires Inv(s) && Enabled(s, l) && SomeoneOwesNotify(s) && !l.NotifyOne? && !l.NotifyNobody?
    ensures SomeoneOwesNotify(Next(s, l))
  {
    var p :| 0 <= p < |s.pushers| && OwesNotify(s.pushers[p]);
    assert OwesNotify(Next(s, l).pushers[p]);
  }

  lemma WakeupKept(s: Pool, l: Step)
    requires Inv(s) && Enabled(s, l)
    ensures NoLostWakeup(Next(s, l))
  {
    var s' := Next(s, l);
    if l.Push? {
      assert OwesNotify(s'.pushers[l.p]);
    } else if l.NotifyOne? {
      assert WillTest(s'.workers[l.w]);
    } else if l.NotifyNobody? {
      assert WillTest(s'.workers[0]);
    } else if SomeoneOwesNotify(s) {
      OwedKept(s, l);
    } else if s'.queue != [] && s.queue != [] {
      var w :| 0 <= w < |s.workers| && WillTest(s.workers[w]);
      assert WillTest(s'.workers[w]);
    }
  }

  lemma CheckersKept(s: Pool, l: Step)
    requires Inv(s) && Enabled(s, l)
    ensures CheckersCovered(Next(s, l))
  {
    if l.Push? {
      assert OwesNotify(Next(s, l).pushers[l.p]);
    } else if SomeoneOwesNotify(s) && !l.NotifyOne? && !l.NotifyNobody? {
      OwedKept(s, l);
    }
  }

  lemma LeaversKept(s: Pool, l: Step)
    requires Inv(s) && Enabled(s, l)
    ensures LeaversDone(Next(s, l))
  {
    hide QueueInOrder, HeldByOne, RunOnce, NoneLost, NoLostWakeup;
  }

  lemma HeldKept(s: Pool, l: Step)
    requires Inv(s) && Enabled(s, l)
    ensures HeldByOne(Next(s, l))
  {
    hide RunOnce, NoneLost, MutexInv, StopInv, NoLostWakeup, CheckersCovered, LeaversDone, HeldByOne;
    if l.Pop? || l.Test? {
      HandedOutOnce(s, l);
    } else {
      NothingHandedOut(s, l);
    }
  }

  /** A pop hands out the head of the queue, which nobody has. */
  lemma HandedOutOnce(s: Pool, l: Step)
    requires QueueInOrder(s) && HeldByOne(s) && Enabled(s, l) && (l.Pop? || l.Test?)
    ensures HeldByOne(Next(s, l))
  {
  }

  /** Every other step leaves each worker with what it has, or without. */
  lemma NothingHandedOut(s: Pool, l: Step)
    requires HeldByOne(s) && Enabled(s, l) && !l.Pop? && !l.Test?
    ensures HeldByOne(Next(s, l))
  {
    var s' := Next(s, l);
    assert Head(s') >= Head(s);
    assert forall w :: 0 <= w < |s.workers| && HasTask(s'.workers[w]) ==>
      HasTask(s.workers[w]) && s'.workers[w].task == s.workers[w].task;
  }

  lemma RunOnceKept(s: Pool, l: Step)
    requires Inv(s) && Enabled(s, l)
    ensures RunOnce(Next(s, l))
  {
    hide NoneLost, MutexInv, StopInv, NoLostWakeup, CheckersCovered, LeaversDone;
  }

  lemma NoneLostKept(s: Pool, l: Step)
    requires Inv(s) && Enabled(s, l)
    ensures NoneLost(Next(s, l))
  {
    hide HeldByOne, RunOnce, MutexInv, StopInv, LeaversDone, NoLostWakeup, CheckersCovered;
    NothingToClear(s);
    var s' := Next(s, l);
    forall t: nat | t < Head(s') ensures Held(s', t) || Logged(s', t) {
      if t == Head(s) {
        assert Holds(s'.workers[l.w], t);
      } else if Logged(s, t) {
        var i :| 0 <= i < |s.log| && s.log[i].task == t;
        assert s'.log[i].task == t;
      } else {
        var w :| 0 <= w < |s.workers| && Holds(s.workers[w], t);
        if l == Finish(w) {
          assert s'.log[|s.log|].task == t;
        } else {
          assert Holds(s'.workers[w], t);
        }
      }
    }
  }

  lemma InvKept(s: Pool, l: Step)
    requires Inv(s) && Enabled(s, l)
    ensures Inv(Next(s, l))
  {
    OrderKept(s, l);
    MutexKept(s, l);
    StopKept(s, l);
    WakeupKept(s, l);
    CheckersKept(s, l);
    LeaversKept(s, l);
    HeldKept(s, l);
    RunOnceKept(s, l);
    NoneLostKept(s, l);
  }

  // ----- Runs

  /** `ls` is a run from `s`: each step is enabled when its turn comes. */
  ghost predicate IsRun(s: Pool, ls: seq<Step>)
    decreases |ls|
  {
    ls == [] || (Enabled(s, ls[0]) && IsRun(Next(s, ls[0]), ls[1..]))
  }

  /** A step that is enabled is a run, and runs go on with any step enabled at their end. */
  lemma {:induction false} RunGoesOn(s: Pool, ls: seq<Step>, l: Step)
    requires IsRun(s, ls) && Enabled(After(s, ls), l)
    ensures IsRun(s, ls + [l]) && After(s, ls + [l]) == Next(After(s, ls), l)
    decreases |ls|
  {
    if ls == [] {
      assert [l][1..] == [];
    } else {
      RunGoesOn(Next(s, ls[0]), ls[1..], l);
      assert (ls + [l])[1..] == ls[1..] + [l];
    }
  }

  ghost function After(s: Pool, ls: seq<Step>): Pool
    requires IsRun(s, ls)
    decreases |ls|
  {
    if ls == [] then s else After(Next(s, ls[0]), ls[1..])
  }

  lemma {:induction false} InvOnRuns(s: Pool, ls: seq<Step>)
    requires Inv(s) && IsRun(s, ls)
    ensures Inv(After(s, ls))
    decreases |ls|
  {
    if ls != [] {
      InvKept(s, ls[0]);
      InvOnRuns(Next(s, ls[0]), ls[1..]);
    }
  }

  predicate AllExited(s: Pool) {
    forall w :: 0 <= w < |s.workers| ==> s.workers[w] == Exited
  }

  /** The calls made so far, counted per task. */
  function Calls(log: seq<Run>, t: nat): nat {
    if log == [] then 0 else Calls(log[..|log| - 1], t) + if log[|log| - 1].task == t then 1 else 0
  }

  lemma {:induction false} CallsAbsent(log: seq<Run>, t: nat)
    requires forall i :: 0 <= i < |log| ==> log[i].task != t
    ensures Calls(log, t) == 0
  {
    if log != [] { CallsAbsent(log[..|log| - 1], t); }
  }

  lemma {:induction false} CallsOnce(log: seq<Run>, t: nat, k: nat)
    requires k < |log| && log[k].task == t
    requires forall i, j :: 0 <= i < j < |log| ==> log[i].task != log[j].task
    ensures Calls(log, t) == 1
  {
    var n := |log| - 1;
    if k == n { CallsAbsent(log[..n], t); } else { CallsOnce(log[..n], t, k); }
  }

  /**
   * At every moment of every run, no task has been called twice, and none that is still queued or in hand has
   * been called.
   */
  lemma AtMostOnce(n: nat, pushes: seq<nat>, ls: seq<Step>, t: nat)
    requires n >= 1 && IsRun(Fresh(n, pushes), ls)
    ensures var s := After(Fresh(n, pushes), ls);
      Calls(s.log, t) <= 1 && (t in s.queue || Held(s, t) ==> Calls(s.log, t) == 0)
  {
    InvInit(n, pushes);
    InvOnRuns(Fresh(n, pushes), ls);
    var s := After(Fresh(n, pushes), ls);
    if Logged(s, t) {
      var k :| 0 <= k < |s.log| && s.log[k].task == t;
      CallsOnce(s.log, t, k);
    } else {
      CallsAbsent(s.log, t);
    }
  }

  /** In every run that ends with all workers gone, each pushed task has been called exactly once and none is left. */
  lemma ExactlyOnce(n: nat, pushes: seq<nat>, ls: seq<Step>)
    requires n >= 1 && IsRun(Fresh(n, pushes), ls)
    ensures var s := After(Fresh(n, pushes), ls);
      s.dropped == 0 && (AllExited(s) ==>
        s.queue == [] && forall t: nat :: Calls(s.log, t) == if t < s.nextTask then 1 else 0)
  {
    InvInit(n, pushes);
    InvOnRuns(Fresh(n, pushes), ls);
    var s := After(Fresh(n, pushes), ls);
    if AllExited(s) {
      assert s.workers[0] == Exited;
      forall t: nat ensures Calls(s.log, t) == if t < s.nextTask then 1 else 0 {
        if t < s.nextTask {
          assert Logged(s, t);
          var k :| 0 <= k < |s.log| && s.log[k].task == t;
          CallsOnce(s.log, t, k);
        } else {
          CallsAbsent(s.log, t);
        }
      }
    }
  }

  /** Tasks are handed out in the order in which they were pushed. */
  lemma HandedOutInOrder(n: nat, pushes: seq<nat>, ls: seq<Step>, w: nat)
    requires n >= 1 && IsRun(Fresh(n, pushes), ls)
    requires var s := After(Fresh(n, pushes), ls); s.queue != [] && (Enabled(s, Pop(w)) || Enabled(s, Test(w)))
    ensures var s := After(Fresh(n, pushes), ls);
      var s' := Next(s, if Enabled(s, Pop(w)) then Pop(w) else Test(w));
      HasTask(s'.workers[w]) && s'.workers[w].task == Head(s) && Head(s') == Head(s) + 1
  {
    InvInit(n, pushes);
    InvOnRuns(Fresh(n, pushes), ls);
  }

  /**
   * In every reachable state, a queued task has a worker that must test the queue before it can block, or a
   * pusher that must still notify; and once isDone is set, a waiting worker has notify_all still to come.
   */
  lemma NoWakeupIsLost(n: nat, pushes: seq<nat>, ls: seq<Step>)
    requires n >= 1 && IsRun(Fresh(n, pushes), ls)
    ensures var s := After(Fresh(n, pushes), ls);
      && (s.queue != [] ==>
        || (exists w :: 0 <= w < |s.workers| && s.workers[w] != Waiting && s.workers[w] != Checking
              && s.workers[w] != Returning && s.workers[w] != Exited)
        || (exists p :: 0 <= p < |s.pushers| && (s.pushers[p].Pushed? || s.pushers[p].PushLocked?)))
      && (s.isDone && (exists w :: 0 <= w < |s.workers| && s.workers[w] == Waiting) ==>
        s.stop == DoneSet || s.stop == StopLocked)
  {
    InvInit(n, pushes);
    InvOnRuns(Fresh(n, pushes), ls);
  }

  /** A run: one task is pushed to a pool of one, taken, and called. */
  lemma OneTask()
    ensures var ls := [Push(0), PushLock(0), NotifyNobody(0), PushUnlock(0), Pop(0), Finish(0)];
      IsRun(Fresh(1, [1]), ls) && Calls(After(Fresh(1, [1]), ls).log, 0) == 1
  {
    hide IsRun, After, Calls;
    var s := Fresh(1, [1]);
    EmptyRun(s);
    RunGoesOn(s, [], Push(0));
    var ls: seq<Step> := [] + [Push(0)];
    RunGoesOn(s, ls, PushLock(0));
    ls := ls + [PushLock(0)];
    RunGoesOn(s, ls, NotifyNobody(0));
    ls := ls + [NotifyNobody(0)];
    RunGoesOn(s, ls, PushUnlock(0));
    ls := ls + [PushUnlock(0)];
    RunGoesOn(s, ls, Pop(0));
    ls := ls + [Pop(0)];
    RunGoesOn(s, ls, Finish(0));
    ls := ls + [Finish(0)];
    assert ls == [Push(0), PushLock(0), NotifyNobody(0), PushUnlock(0), Pop(0), Finish(0)];
    CallsOnce(After(s, ls).log, 0, 0);
  }

  lemma EmptyRun(s: Pool)
    ensures IsRun(s, []) && After(s, []) == s
  {
  }
}
