/**
 * The thread pool makes progress: some step is always possible until stop(true) returns, and runs cannot go on
 * forever.
 */
module ThreadPoolProgress {
  import opened ThreadPool

  /** A step that is possible and is not a spurious wakeup. */
  ghost predicate CanStep(s: Pool) {
    exists l :: Enabled(s, l) && !l.Spurious?
  }

  lemma WorkerCanStep(s: Pool, w: nat)
    requires Inv(s) && w < |s.workers| && s.workers[w] != Waiting && s.workers[w] != Exited
    requires s.mutex == Free || s.mutex == WorkerOwns(w)
    ensures CanStep(s)
  {
    var l := match s.workers[w]
      case Starting => Pop(w)
      case Finished => Pop(w)
      case Running(_) => Finish(w)
      case Locking => Lock(w)
      case Notified => Lock(w)
      case Testing => Test(w)
      case Checking => Check(w)
      case Popped(_) => Leave(w)
      case Returning => Leave(w)
      case Waiting => Spurious(w)
      case Exited => CallStop;
    assert Enabled(s, l) && !l.Spurious?;
  }

  lemma PusherCanStep(s: Pool, p: nat)
    requires Inv(s) && p < |s.pushers| && s.pushers[p] != Idle(0)
    requires s.mutex == Free || s.mutex == PusherOwns(p)
    ensures CanStep(s)
  {
    if s.pushers[p].PushLocked? && !NobodyWaits(s) {
      var w :| 0 <= w < |s.workers| && s.workers[w] == Waiting;
      assert Enabled(s, NotifyOne(p, w));
    } else {
      var l := match s.pushers[p]
        case Idle(_) => Push(p)
        case Pushed(_) => PushLock(p)
        case PushLocked(_) => NotifyNobody(p)
        case PushNotified(_) => PushUnlock(p);
      assert Enabled(s, l);
    }
  }

  lemma StopperCanStep(s: Pool)
    requires Inv(s) && s.stop != Stopped && (s.mutex == Free || s.mutex == StopperOwns)
    requires s.stop == BeforeStop ==> forall p :: 0 <= p < |s.pushers| ==> s.pushers[p] == Idle(0)
    requires s.stop.Joining? ==> AllExited(s)
    ensures CanStep(s)
  {
    var l := match s.stop
      case BeforeStop => CallStop
      case StopCalled => SetDone
      case DoneSet => StopLock
      case StopLocked => NotifyAll
      case StopNotified => StopUnlock
      case Joining(_) => Join
      case Clearing => Clear
      case Stopped => CallStop;
    assert Enabled(s, l);
  }

  /** No deadlock: until stop(true) has returned, somebody can go on without a spurious wakeup. */
  lemma NoDeadlock(s: Pool)
    requires Inv(s) && s.stop != Stopped
    ensures exists l :: Enabled(s, l) && !l.Spurious?
  {
    if s.mutex.WorkerOwns? {
      WorkerCanStep(s, s.mutex.w);
    } else if s.mutex.PusherOwns? {
      PusherCanStep(s, s.mutex.p);
    } else if s.mutex == StopperOwns {
      StopperCanStep(s);
    } else if w :| 0 <= w < |s.workers| && s.workers[w] != Waiting && s.workers[w] != Exited {
      WorkerCanStep(s, w);
    } else if p :| 0 <= p < |s.pushers| && s.pushers[p] != Idle(0) {
      PusherCanStep(s, p);
    } else {
      StopperCanStep(s);
    }
  }

  // ----- A measure that every step but a spurious wakeup decreases

  function WorkerWeight(pc: WorkerPc): nat {
    match pc
    case Popped(_) => 7
    case Running(_) => 6
    case Starting => 5
    case Finished => 5
    case Locking => 4
    case Notified => 4
    case Testing => 3
    case Checking => 2
    case Returning => 1
    case Waiting => 0
    case Exited => 0
  }

  function PusherWeight(pc: PusherPc): nat {
    match pc
    case Idle(left) => 13 * left
    case Pushed(left) => 13 * left - (if left > 0 then 6 else 0)
    case PushLocked(left) => 13 * left - (if left > 0 then 7 else 0)
    case PushNotified(left) => 13 * left - (if left > 0 then 12 else 0)
  }

  function StopWeight(pc: StopPc, n: nat): nat {
    match pc
    case BeforeStop => 5 * n + 7
    case StopCalled => 5 * n + 6
    case DoneSet => 5 * n + 5
    case StopLocked => 5 * n + 4
    case StopNotified => n + 3
    case Joining(k) => (if k <= n then n - k else 0) + 2
    case Clearing => 1
    case Stopped => 0
  }

  function Total<T>(xs: seq<T>, weight: T -> nat): nat {
    if xs == [] then 0 else Total(xs[..|xs| - 1], weight) + weight(xs[|xs| - 1])
  }

  lemma {:induction false} TotalUpdate<T>(xs: seq<T>, i: nat, x: T, weight: T -> nat)
    requires i < |xs|
    ensures Total(xs[i := x], weight) == Total(xs, weight) - weight(xs[i]) + weight(x)
  {
    var n := |xs| - 1;
    if i == n {
      assert xs[i := x][..n] == xs[..n];
    } else {
      assert xs[i := x][..n] == xs[..n][i := x];
      TotalUpdate(xs[..n], i, x, weight);
    }
  }

  lemma {:induction false} TotalWake(ws: seq<WorkerPc>)
    ensures Total(WakeAll(ws), WorkerWeight) <= Total(ws, WorkerWeight) + 4 * |ws|
  {
    if ws != [] {
      var n := |ws| - 1;
      TotalWake(ws[..n]);
      assert WakeAll(ws)[..n] == WakeAll(ws[..n]);
    }
  }

  function Measure(s: Pool): nat {
    Total(s.workers, WorkerWeight) + Total(s.pushers, PusherWeight) + 5 * |s.queue| + StopWeight(s.stop, |s.workers|)
  }

  predicate OfWorker(l: Step) {
    l.Pop? || l.Finish? || l.Lock? || l.Test? || l.Check? || l.Leave?
  }

  lemma WorkerDecreases(s: Pool, l: Step)
    requires Inv(s) && Enabled(s, l) && OfWorker(l)
    ensures Measure(Next(s, l)) < Measure(s)
  {
    hide Inv, Total;
    TotalUpdate(s.workers, l.w, Next(s, l).workers[l.w], WorkerWeight);
  }

  predicate OfPusher(l: Step) {
    l.Push? || l.PushLock? || l.NotifyOne? || l.NotifyNobody? || l.PushUnlock?
  }

  lemma PusherLeft(s: Pool, l: Step)
    requires Inv(s) && Enabled(s, l) && OfPusher(l)
    ensures s.pushers[l.p].left > 0
  {
  }

  lemma PusherDecreases(s: Pool, l: Step)
    requires Inv(s) && Enabled(s, l) && OfPusher(l)
    ensures Measure(Next(s, l)) < Measure(s)
  {
    hide Inv, Total;
    PusherLeft(s, l);
    TotalUpdate(s.pushers, l.p, Next(s, l).pushers[l.p], PusherWeight);
    if l.NotifyOne? {
      TotalUpdate(s.workers, l.w, Notified, WorkerWeight);
    }
  }

  /** Every step but a spurious wakeup decreases the measure. */
  lemma StepDecreases(s: Pool, l: Step)
    requires Inv(s) && Enabled(s, l) && !l.Spurious?
    ensures Measure(Next(s, l)) < Measure(s)
  {
    hide Inv, Measure;
    if OfWorker(l) {
      WorkerDecreases(s, l);
    } else if OfPusher(l) {
      PusherDecreases(s, l);
    } else {
      StopperDecreases(s, l);
    }
  }

  lemma StopperDecreases(s: Pool, l: Step)
    requires Enabled(s, l) && !OfWorker(l) && !OfPusher(l) && !l.Spurious?
    ensures Measure(Next(s, l)) < Measure(s)
  {
    hide Total, WakeAll;
    TotalWake(s.workers);
  }

  /** A spurious wakeup costs what a notified worker has before it. */
  lemma SpuriousCosts(s: Pool, l: Step)
    requires Enabled(s, l) && l.Spurious?
    ensures Measure(Next(s, l)) == Measure(s) + 4
  {
    hide Total;
    TotalUpdate(s.workers, l.w, Notified, WorkerWeight);
  }

  function Wakeups(ls: seq<Step>): nat {
    if ls == [] then 0 else (if ls[0].Spurious? then 1 else 0) + Wakeups(ls[1..])
  }

  /** Each spurious wakeup counts once. */
  lemma {:induction false} WakeupsCounted(ls: seq<Step>, ks: seq<Step>)
    ensures Wakeups(ls + ks) == Wakeups(ls) + Wakeups(ks)
    ensures (forall i :: 0 <= i < |ls| ==> !ls[i].Spurious?) ==> Wakeups(ls) == 0
    ensures (forall i :: 0 <= i < |ls| ==> ls[i].Spurious?) ==> Wakeups(ls) == |ls|
  {
    if ls == [] {
      assert ls + ks == ks;
    } else {
      WakeupsCounted(ls[1..], ks);
      assert (ls + ks)[1..] == ls[1..] + ks;
    }
  }

  /** A run has at most Measure(s) steps, and five more for each spurious wakeup in it. */
  lemma {:induction false} RunsAreFinite(s: Pool, ls: seq<Step>)
    requires Inv(s) && IsRun(s, ls)
    ensures |ls| + Measure(After(s, ls)) <= Measure(s) + 5 * Wakeups(ls)
    decreases |ls|
  {
    hide Inv, Measure, Next;
    if ls != [] {
      InvKept(s, ls[0]);
      if ls[0].Spurious? { SpuriousCosts(s, ls[0]); } else { StepDecreases(s, ls[0]); }
      RunsAreFinite(Next(s, ls[0]), ls[1..]);
    }
  }

  /** The tasks a pusher has still to put in the queue. */
  function Unpushed(pc: PusherPc): nat {
    if pc.Idle? then pc.left else if pc.left > 0 then pc.left - 1 else 0
  }

  lemma {:induction false} PushesCounted(s: Pool, ls: seq<Step>)
    requires Inv(s) && IsRun(s, ls)
    ensures After(s, ls).nextTask + Total(After(s, ls).pushers, Unpushed) == s.nextTask + Total(s.pushers, Unpushed)
    decreases |ls|
  {
    if ls != [] {
      hide Inv, Total, Next;
      InvKept(s, ls[0]);
      PushCounted(s, ls[0]);
      PushesCounted(Next(s, ls[0]), ls[1..]);
    }
  }

  lemma PushCounted(s: Pool, l: Step)
    requires Inv(s) && Enabled(s, l)
    ensures Next(s, l).nextTask + Total(Next(s, l).pushers, Unpushed) == s.nextTask + Total(s.pushers, Unpushed)
  {
    hide Inv, Total;
    if OfPusher(l) {
      PusherLeft(s, l);
      TotalUpdate(s.pushers, l.p, Next(s, l).pushers[l.p], Unpushed);
    }
  }

  lemma {:induction false} TotalAtStart(n: nat, pushes: seq<nat>)
    ensures Total(Fresh(n, pushes).pushers, Unpushed) == Total(pushes, (k: nat) => k)
  {
    if pushes != [] {
      var m := |pushes| - 1;
      TotalAtStart(n, pushes[..m]);
      assert Fresh(n, pushes).pushers[..m] == Fresh(n, pushes[..m]).pushers;
    }
  }

  lemma {:induction false} TotalAtEnd(ps: seq<PusherPc>)
    requires forall p :: 0 <= p < |ps| ==> ps[p] == Idle(0)
    ensures Total(ps, Unpushed) == 0
  {
    if ps != [] { TotalAtEnd(ps[..|ps| - 1]); }
  }

  /**
   * Runs are bounded in length by their spurious wakeups; and a run after which nothing but such a wakeup can happen
   * has ended with stop(true) returned, all workers gone, and every task of every pusher called exactly once.
   */
  lemma EveryRunCompletes(n: nat, pushes: seq<nat>, ls: seq<Step>)
    requires n >= 1 && IsRun(Fresh(n, pushes), ls)
    ensures |ls| <= Measure(Fresh(n, pushes)) + 5 * Wakeups(ls)
    ensures var s, tasks := After(Fresh(n, pushes), ls), Total(pushes, (k: nat) => k);
      (forall l :: Enabled(s, l) ==> l.Spurious?) ==>
        && s.stop == Stopped && s.queue == [] && (forall w :: 0 <= w < |s.workers| ==> s.workers[w] == Exited)
        && s.nextTask == tasks && s.dropped == 0
        && forall t: nat :: Calls(s.log, t) == if t < tasks then 1 else 0
  {
    InvInit(n, pushes);
    InvOnRuns(Fresh(n, pushes), ls);
    RunsAreFinite(Fresh(n, pushes), ls);
    var s := After(Fresh(n, pushes), ls);
    if forall l :: Enabled(s, l) ==> l.Spurious? {
      if s.stop != Stopped { NoDeadlock(s); }
      ExactlyOnce(n, pushes, ls);
      PushesCounted(Fresh(n, pushes), ls);
      TotalAtStart(n, pushes);
      TotalAtEnd(s.pushers);
    }
  }
}
