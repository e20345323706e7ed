/**
  The thread pool of src/util/ThreadPool.h as a labelled transition system.

  One action is one region that runs under the pool's mutex, or one notification, or one return of a
  task, or one join.  Any number of client threads (and running tasks) may call enqueue, so a push
  may interleave anywhere; the notify_one that follows it is owed until it is delivered.
 */
module PoolModel {

  // A task is known by an identifier only.  Distinct calls may pass equal identifiers.
  type Task = nat

  datatype Worker =
    | Checking              // about to take the lock and test the wait predicate
    | Asleep                // inside condition.wait, lock released
    | Running(task: Task)   // outside the lock, executing a task
    | Exited                // returned from the worker loop

  // How far the destructor has come.
  datatype Shutdown = NotStarted | StopSet | Joining(next: nat) | Joined

  datatype Action =
    | Check(w: nat)       // take the lock, test the predicate, then sleep, exit or pop
    | Wake(w: nat)        // spurious wake-up
    | Finish(w: nat)      // the running task returns
    | Push(task: Task)    // the locked region of enqueue
    | NotifyOne(w: nat)   // an owed notify_one wakes sleeper w
    | NotifyNobody        // an owed notify_one finds no sleeper
    | SetStop             // the locked region of the destructor
    | NotifyAll           // the destructor's notify_all
    | Join                // the destructor's next join

  datatype Pool = Pool(
    tasks: seq<Task>,
    workers: seq<Worker>,
    shutdown: Shutdown,
    owed: nat,              // notify_one calls still to come from enqueuers
    accepted: seq<Task>,    // history: every task enqueue accepted, in order
    dequeued: seq<Task>,    // history: every task a worker popped, in order
    finished: seq<Task>)    // history: every task that returned
  {
    predicate Stop() {
      !shutdown.NotStarted?
    }
  }

  function New(threads: nat): Pool {
    Pool([], seq(threads, _ => Checking), NotStarted, 0, [], [], [])
  }

  predicate Enabled(p: Pool, a: Action) {
    match a
    case Check(w) => w < |p.workers| && p.workers[w].Checking?
    case Wake(w) => w < |p.workers| && p.workers[w].Asleep?
    case Finish(w) => w < |p.workers| && p.workers[w].Running?
    case Push(_) => true
    case NotifyOne(w) => p.owed > 0 && w < |p.workers| && p.workers[w].Asleep?
    case NotifyNobody => p.owed > 0 && forall w | 0 <= w < |p.workers| :: !p.workers[w].Asleep?
    case SetStop => p.shutdown.NotStarted?
    case NotifyAll => p.shutdown.StopSet?
    case Join =>
      && p.shutdown.Joining?
      && (p.shutdown.next < |p.workers| ==> p.workers[p.shutdown.next].Exited?)
  }

  function WakeAll(ws: seq<Worker>): (r: seq<Worker>)
    ensures |r| == |ws|
    ensures forall w | 0 <= w < |ws| :: r[w] == if ws[w].Asleep? then Checking else ws[w]
  {
    seq(|ws|, w requires 0 <= w < |ws| => if ws[w].Asleep? then Checking else ws[w])
  }

  function Step(p: Pool, a: Action): Pool
    requires Enabled(p, a)
  {
    match a
    case Check(w) =>
      if p.Stop() || p.tasks != [] then
        if p.Stop() && p.tasks == [] then
          p.(workers := p.workers[w := Exited])
        else
          p.(tasks := p.tasks[1..],
             workers := p.workers[w := Running(p.tasks[0])],
             dequeued := p.dequeued + [p.tasks[0]])
      else
        p.(workers := p.workers[w := Asleep])
    case Wake(w) => p.(workers := p.workers[w := Checking])
    case Finish(w) =>
      p.(workers := p.workers[w := Checking], finished := p.finished + [p.workers[w].task])
    case Push(t) =>
      if p.Stop() then p  // enqueue throws
      else p.(tasks := p.tasks + [t], accepted := p.accepted + [t], owed := p.owed + 1)
    case NotifyOne(w) => p.(workers := p.workers[w := Checking], owed := p.owed - 1)
    case NotifyNobody => p.(owed := p.owed - 1)
    case SetStop => p.(shutdown := StopSet)
    case NotifyAll => p.(workers := WakeAll(p.workers), shutdown := Joining(0))
    case Join =>
      if p.shutdown.next < |p.workers| then p.(shutdown := Joining(p.shutdown.next + 1))
      else p.(shutdown := Joined)
  }

  // acts is an interleaving that p admits.
  predicate CanRun(p: Pool, acts: seq<Action>)
    decreases acts
  {
    acts == [] || (Enabled(p, acts[0]) && CanRun(Step(p, acts[0]), acts[1..]))
  }

  function Run(p: Pool, acts: seq<Action>): Pool
    requires CanRun(p, acts)
    decreases acts
  {
    if acts == [] then p else Run(Step(p, acts[0]), acts[1..])
  }

  // -------- counting workers --------

  function Sum(f: Worker -> nat, ws: seq<Worker>): nat {
    if ws == [] then 0 else f(ws[0]) + Sum(f, ws[1..])
  }

  function OneIfAsleep(w: Worker): nat { if w.Asleep? then 1 else 0 }

  function OneIfChecking(w: Worker): nat { if w.Checking? then 1 else 0 }

  // How many more steps of its own a worker can take once stop is set and the queue is empty.
  function Weight(w: Worker): nat {
    match w
    case Exited => 0
    case Checking => 1
    case Running(_) => 2
    case Asleep => 2
  }

  function TaskOf(w: Worker): multiset<Task> {
    if w.Running? then multiset{w.task} else multiset{}
  }

  function RunningTasks(ws: seq<Worker>): multiset<Task> {
    if ws == [] then multiset{} else TaskOf(ws[0]) + RunningTasks(ws[1..])
  }

  lemma {:induction false} SumUpdate(f: Worker -> nat, ws: seq<Worker>, w: nat, v: Worker)
    requires w < |ws|
    ensures Sum(f, ws[w := v]) + f(ws[w]) == Sum(f, ws) + f(v)
  {
    if w == 0 {
      assert ws[0 := v][1..] == ws[1..];
    } else {
      assert ws[w := v][1..] == ws[1..][w - 1 := v];
      SumUpdate(f, ws[1..], w - 1, v);
    }
  }

  lemma {:induction false} SumAtLeast(f: Worker -> nat, ws: seq<Worker>, w: nat)
    requires w < |ws|
    ensures Sum(f, ws) >= f(ws[w])
  {
    if w > 0 {
      SumAtLeast(f, ws[1..], w - 1);
    }
  }

  lemma {:induction false} SumPointwise(f: Worker -> nat, ws: seq<Worker>, vs: seq<Worker>)
    requires |ws| == |vs| && forall w | 0 <= w < |ws| :: f(ws[w]) <= f(vs[w])
    ensures Sum(f, ws) <= Sum(f, vs)
  {
    if ws != [] {
      assert forall w | 0 <= w < |ws| - 1 :: ws[1..][w] == ws[w + 1] && vs[1..][w] == vs[w + 1];
      SumPointwise(f, ws[1..], vs[1..]);
    }
  }

  lemma {:induction false} NoneAsleep(ws: seq<Worker>)
    ensures Sum(OneIfAsleep, ws) == 0 <==> forall w | 0 <= w < |ws| :: !ws[w].Asleep?
  {
    if ws != [] {
      NoneAsleep(ws[1..]);
      assert forall w | 0 < w < |ws| :: ws[w] == ws[1..][w - 1];
    }
  }

  lemma {:induction false} RunningUpdate(ws: seq<Worker>, w: nat, v: Worker)
    requires w < |ws|
    ensures forall t ::
      RunningTasks(ws[w := v])[t] + TaskOf(ws[w])[t] == RunningTasks(ws)[t] + TaskOf(v)[t]
  {
    var us := ws[w := v];
    assert RunningTasks(us) == TaskOf(us[0]) + RunningTasks(us[1..]);
    if w == 0 {
      assert us[1..] == ws[1..];
    } else {
      assert us[1..] == ws[1..][w - 1 := v];
      RunningUpdate(ws[1..], w - 1, v);
    }
  }

  lemma {:induction false} RunningWakeAll(ws: seq<Worker>)
    ensures RunningTasks(WakeAll(ws)) == RunningTasks(ws)
  {
    if ws != [] {
      assert WakeAll(ws)[1..] == WakeAll(ws[1..]);
      RunningWakeAll(ws[1..]);
    }
  }

  lemma {:induction false} NoneRunning(ws: seq<Worker>)
    requires forall w | 0 <= w < |ws| :: !ws[w].Running?
    ensures RunningTasks(ws) == multiset{}
  {
    if ws != [] {
      NoneRunning(ws[1..]);
    }
  }

  predicate AllExited(p: Pool) {
    forall w | 0 <= w < |p.workers| :: p.workers[w].Exited?
  }

  // -------- the invariant --------

  // The queue is what was accepted and not yet popped, and what was popped is running or done.
  ghost predicate Conserved(p: Pool) {
    && p.accepted == p.dequeued + p.tasks
    && multiset(p.dequeued) == multiset(p.finished) + RunningTasks(p.workers)
  }

  // A worker leaves its loop only for good reason.
  ghost predicate ExitsAreFinal(p: Pool) {
    && (forall w | 0 <= w < |p.workers| && p.workers[w].Exited? :: p.Stop() && p.tasks == [])
    && (p.shutdown.Joining? ==>
          && p.shutdown.next <= |p.workers|
          && forall w | 0 <= w < p.shutdown.next :: p.workers[w].Exited?)
    && (p.shutdown.Joined? ==> AllExited(p))
  }

  // While anyone sleeps, every queued task is matched by a worker about to look or a notify still owed.
  ghost predicate WakeupsSuffice(p: Pool) {
    Sum(OneIfAsleep, p.workers) > 0 ==> |p.tasks| <= p.owed + Sum(OneIfChecking, p.workers)
  }

  // Once stop is set, only the owed notify_all can leave a worker asleep.
  ghost predicate SleepersAwaitNotifyAll(p: Pool) {
    p.Stop() && !p.shutdown.StopSet? ==> forall w | 0 <= w < |p.workers| :: !p.workers[w].Asleep?
  }

  ghost predicate Inv(p: Pool) {
    Conserved(p) && ExitsAreFinal(p) && WakeupsSuffice(p) && SleepersAwaitNotifyAll(p)
  }

  lemma NewEstablishesInv(threads: nat)
    ensures Inv(New(threads))
  {
    NoneRunning(New(threads).workers);
    NoneAsleep(New(threads).workers);
  }

  lemma PopConserves(p: Pool, w: nat)
    requires Conserved(p) && w < |p.workers| && p.workers[w].Checking? && p.tasks != []
    ensures p.accepted == (p.dequeued + [p.tasks[0]]) + p.tasks[1..]
    ensures multiset(p.dequeued + [p.tasks[0]])
         == multiset(p.finished) + RunningTasks(p.workers[w := Running(p.tasks[0])])
  {
    var t := p.tasks[0];
    assert p.tasks == [t] + p.tasks[1..];
    assert multiset(p.dequeued + [t]) == multiset(p.dequeued) + multiset{t};
    RunningUpdate(p.workers, w, Running(t));
    assert TaskOf(Running(t)) == multiset{t} && TaskOf(Checking) == multiset{};
  }

  lemma FinishConserves(p: Pool, w: nat)
    requires Conserved(p) && w < |p.workers| && p.workers[w].Running?
    ensures multiset(p.dequeued)
         == multiset(p.finished + [p.workers[w].task]) + RunningTasks(p.workers[w := Checking])
  {
    var t := p.workers[w].task;
    assert multiset(p.finished + [t]) == multiset(p.finished) + multiset{t};
    RunningUpdate(p.workers, w, Checking);
    assert TaskOf(p.workers[w]) == multiset{t} && TaskOf(Checking) == multiset{};
  }

  lemma IdleUpdate(ws: seq<Worker>, w: nat, v: Worker)
    requires w < |ws| && !ws[w].Running? && !v.Running?
    ensures RunningTasks(ws[w := v]) == RunningTasks(ws)
  {
    RunningUpdate(ws, w, v);
  }

  lemma StepConserves(p: Pool, a: Action)
    requires Conserved(p) && Enabled(p, a)
    ensures Conserved(Step(p, a))
  {
    match a {
      case Check(w) =>
        if p.tasks != [] { PopConserves(p, w); } else { IdleUpdate(p.workers, w, Step(p, a).workers[w]); }
      case Wake(w) => IdleUpdate(p.workers, w, Checking);
      case Finish(w) => FinishConserves(p, w);
      case NotifyOne(w) => IdleUpdate(p.workers, w, Checking);
      case NotifyAll => RunningWakeAll(p.workers);
      case Push(t) => assert p.accepted + [t] == p.dequeued + (p.tasks + [t]);
      case NotifyNobody =>
      case SetStop =>
      case Join =>
    }
  }

  lemma StepKeepsWakeups(p: Pool, a: Action)
    requires WakeupsSuffice(p) && Enabled(p, a)
    ensures WakeupsSuffice(Step(p, a))
  {
    var q := Step(p, a);
    NoneAsleep(p.workers);
    NoneAsleep(q.workers);
    match a {
      case Check(w) =>
        SumUpdate(OneIfAsleep, p.workers, w, q.workers[w]);
        SumUpdate(OneIfChecking, p.workers, w, q.workers[w]);
      case Wake(w) =>
        SumUpdate(OneIfAsleep, p.workers, w, Checking);
        SumUpdate(OneIfChecking, p.workers, w, Checking);
      case Finish(w) =>
        SumUpdate(OneIfAsleep, p.workers, w, Checking);
        SumUpdate(OneIfChecking, p.workers, w, Checking);
      case NotifyOne(w) =>
        SumUpdate(OneIfAsleep, p.workers, w, Checking);
        SumUpdate(OneIfChecking, p.workers, w, Checking);
      case Push(_) =>
      case NotifyNobody =>
      case SetStop =>
      case NotifyAll =>
      case Join =>
    }
  }

  lemma StepKeepsExits(p: Pool, a: Action)
    requires ExitsAreFinal(p) && SleepersAwaitNotifyAll(p) && Enabled(p, a)
    ensures ExitsAreFinal(Step(p, a)) && SleepersAwaitNotifyAll(Step(p, a))
    ensures |Step(p, a).workers| == |p.workers|
  {
    var q := Step(p, a);
    assert forall w | 0 <= w < |p.workers| && p.workers[w].Exited? :: q.workers[w].Exited?;
  }

  lemma StepKeepsInv(p: Pool, a: Action)
    requires Inv(p) && Enabled(p, a)
    ensures Inv(Step(p, a)) && |Step(p, a).workers| == |p.workers|
  {
    StepConserves(p, a);
    StepKeepsWakeups(p, a);
    StepKeepsExits(p, a);
  }

  lemma {:induction false} RunKeepsInv(p: Pool, acts: seq<Action>)
    requires Inv(p) && CanRun(p, acts)
    ensures Inv(Run(p, acts)) && |Run(p, acts).workers| == |p.workers|
    decreases acts
  {
    if acts != [] {
      StepKeepsInv(p, acts[0]);
      RunKeepsInv(Step(p, acts[0]), acts[1..]);
    }
  }

  // -------- safety over every interleaving --------

  // Tasks are popped in the order they were accepted, and each accepted task is in exactly one place.
  lemma TasksConserved(threads: nat, acts: seq<Action>)
    requires CanRun(New(threads), acts)
    ensures var p := Run(New(threads), acts);
      && p.dequeued <= p.accepted
      && multiset(p.accepted) == multiset(p.finished) + RunningTasks(p.workers) + multiset(p.tasks)
  {
    NewEstablishesInv(threads);
    RunKeepsInv(New(threads), acts);
  }

  // When all of at least one worker have exited, the queue is drained and everything accepted has run.
  lemma ExitedPoolIsDrained(threads: nat, acts: seq<Action>)
    requires threads > 0 && CanRun(New(threads), acts) && AllExited(Run(New(threads), acts))
    ensures var p := Run(New(threads), acts);
      p.tasks == [] && p.Stop() && multiset(p.finished) == multiset(p.accepted)
  {
    var p := Run(New(threads), acts);
    NewEstablishesInv(threads);
    RunKeepsInv(New(threads), acts);
    assert p.workers[0].Exited?;
    NoneRunning(p.workers);
    assert p.accepted == p.dequeued;
  }

  // Without workers the queue is abandoned: the destructor finishes with the task still queued.
  lemma NoWorkersAbandonsQueue(t: Task)
    ensures var acts := [Push(t), NotifyNobody, SetStop, NotifyAll, Join];
      && CanRun(New(0), acts)
      && Run(New(0), acts).shutdown.Joined?
      && Run(New(0), acts).tasks == [t]
  {
    var p0 := New(0);
    var p1 := Step(p0, Push(t));
    var p2 := Step(p1, NotifyNobody);
    var p3 := Step(p2, SetStop);
    var p4 := Step(p3, NotifyAll);
    var acts := [Push(t), NotifyNobody, SetStop, NotifyAll, Join];
    assert acts[1..] == [NotifyNobody, SetStop, NotifyAll, Join];
    assert acts[1..][1..] == [SetStop, NotifyAll, Join];
    assert [SetStop, NotifyAll, Join][1..] == [NotifyAll, Join];
    assert [NotifyAll, Join][1..] == [Join];
    var p5 := Step(p4, Join);
    assert CanRun(p5, []) && Run(p5, []) == p5;
    assert CanRun(p4, [Join]) && Run(p4, [Join]) == p5;
    assert CanRun(p3, [NotifyAll, Join]) && Run(p3, [NotifyAll, Join]) == p5;
    assert CanRun(p2, [SetStop, NotifyAll, Join]) && Run(p2, [SetStop, NotifyAll, Join]) == p5;
  }

  // No wake-up is lost, although every notification is sent after the lock has been released.
  lemma NoLostWakeup(threads: nat, acts: seq<Action>)
    requires threads > 0 && CanRun(New(threads), acts)
    ensures var p := Run(New(threads), acts);
      // a sleeper never coexists with a queued task that nobody is about to look for
      && (Sum(OneIfAsleep, p.workers) > 0 ==> |p.tasks| <= p.owed + Sum(OneIfChecking, p.workers))
      // so queued work always has an awake worker or an owed notify
      && (p.tasks != [] ==>
            || p.owed > 0
            || exists w :: 0 <= w < |p.workers| && (p.workers[w].Checking? || p.workers[w].Running?))
      // and a worker asleep after stop is still owed the notify_all
      && (forall w | 0 <= w < |p.workers| && p.workers[w].Asleep? :: p.Stop() ==> p.shutdown.StopSet?)
  {
    var p := Run(New(threads), acts);
    NewEstablishesInv(threads);
    RunKeepsInv(New(threads), acts);
    if p.tasks != [] && p.owed == 0 {
      NoneAsleep(p.workers);
      assert !p.workers[0].Exited?;
      if Sum(OneIfAsleep, p.workers) > 0 {
        SomeoneChecks(p.workers);
      }
    }
  }

  lemma {:induction false} SomeoneChecks(ws: seq<Worker>)
    requires Sum(OneIfChecking, ws) > 0
    ensures exists w :: 0 <= w < |ws| && ws[w].Checking?
  {
    if ws[0].Checking? {
    } else {
      SomeoneChecks(ws[1..]);
      var w :| 0 <= w < |ws| - 1 && ws[1..][w].Checking?;
      assert ws[w + 1].Checking?;
    }
  }

  // -------- shutdown terminates --------

  // The actions of the pool itself; an enqueue after stop throws and changes nothing.
  predicate PoolAction(a: Action) {
    !a.Push? && !a.SetStop?
  }

  function ShutdownLeft(p: Pool): nat {
    match p.shutdown
    case NotStarted => |p.workers| + 3
    case StopSet => |p.workers| + 2
    case Joining(k) => if k <= |p.workers| then |p.workers| - k + 1 else 1
    case Joined => 0
  }

  // Bounds the number of pool steps that are left once stop is set.
  function Measure(p: Pool): nat {
    2 * |p.tasks| + Sum(Weight, p.workers) + p.owed + ShutdownLeft(p)
  }

  lemma StepDecreasesMeasure(p: Pool, a: Action)
    requires Inv(p) && p.Stop() && PoolAction(a) && Enabled(p, a)
    ensures Measure(Step(p, a)) < Measure(p) && Step(p, a).Stop()
  {
    var q := Step(p, a);
    match a {
      case Check(w) => SumUpdate(Weight, p.workers, w, q.workers[w]);
      case Wake(w) => SumUpdate(Weight, p.workers, w, Checking);
      case Finish(w) => SumUpdate(Weight, p.workers, w, Checking);
      case NotifyOne(w) => SumUpdate(Weight, p.workers, w, Checking);
      case NotifyAll => SumPointwise(Weight, q.workers, p.workers);
      case NotifyNobody =>
      case Join =>
    }
  }

  // How many actions of the run are the pool's own.
  function PoolSteps(acts: seq<Action>): nat {
    if acts == [] then 0 else (if PoolAction(acts[0]) then 1 else 0) + PoolSteps(acts[1..])
  }

  // After stop, no run has more pool steps than the measure, however many refused enqueues come in between.
  lemma {:induction false} ShutdownRunsAreBounded(p: Pool, acts: seq<Action>)
    requires Inv(p) && p.Stop() && CanRun(p, acts)
    ensures PoolSteps(acts) + Measure(Run(p, acts)) <= Measure(p) && Run(p, acts).Stop()
    decreases acts
  {
    if acts != [] {
      var q := Step(p, acts[0]);
      assert Inv(q) by { StepKeepsInv(p, acts[0]); }
      if PoolAction(acts[0]) {
        assert Measure(q) < Measure(p) && q.Stop() by { StepDecreasesMeasure(p, acts[0]); }
      } else {
        assert q == p;
      }
      ShutdownRunsAreBounded(q, acts[1..]);
    }
  }

  // Until the destructor has joined everyone some pool step is possible.
  lemma ShutdownIsNeverStuck(p: Pool) returns (a: Action)
    requires Inv(p) && p.Stop() && !p.shutdown.Joined?
    ensures PoolAction(a) && Enabled(p, a)
  {
    if p.shutdown.StopSet? {
      return NotifyAll;
    }
    var k := p.shutdown.next;
    if k == |p.workers| {
      return Join;
    }
    match p.workers[k] {
      case Checking => return Check(k);
      case Running(_) => return Finish(k);
      case Exited => return Join;
      case Asleep => assert false;
    }
  }

  // Whatever the schedule, the pool takes a bounded number of steps after stop, and when it can take no more
  // the destructor has joined every worker and every task accepted before stop has run.
  lemma ShutdownCompletes(threads: nat, before: seq<Action>, after: seq<Action>)
    requires threads > 0 && CanRun(New(threads), before) && Run(New(threads), before).Stop()
    requires CanRun(Run(New(threads), before), after)
    ensures PoolSteps(after) <= Measure(Run(New(threads), before))
    ensures var p := Run(Run(New(threads), before), after);
      (forall a | PoolAction(a) :: !Enabled(p, a)) ==>
        && p.shutdown.Joined? && AllExited(p)
        && multiset(p.finished) == multiset(p.accepted)
        && p.accepted == Run(New(threads), before).accepted
  {
    var s := Run(New(threads), before);
    var p := Run(s, after);
    NewEstablishesInv(threads);
    RunKeepsInv(New(threads), before);
    RunKeepsInv(s, after);
    ShutdownRunsAreBounded(s, after);
    StopClosesQueue(s, after);
    if forall a | PoolAction(a) :: !Enabled(p, a) {
      if !p.shutdown.Joined? {
        var a := ShutdownIsNeverStuck(p);
        assert false;
      }
      JoinedIsDrained(p);
    }
  }

  lemma JoinedIsDrained(p: Pool)
    requires Inv(p) && p.shutdown.Joined?
    ensures AllExited(p) && (|p.workers| > 0 ==> p.tasks == [] && multiset(p.finished) == multiset(p.accepted))
  {
    if |p.workers| > 0 {
      assert p.workers[0].Exited?;
      NoneRunning(p.workers);
      assert p.accepted == p.dequeued;
    }
  }

  // The tasks that clients hand over before the destructor sets stop, in order; stopped says whether it has.
  function Offered(acts: seq<Action>, stopped: bool): seq<Task> {
    if acts == [] || stopped then []
    else (if acts[0].Push? then [acts[0].task] else []) + Offered(acts[1..], acts[0].SetStop?)
  }

  // Every one of them is accepted, and nothing else.
  lemma {:induction false} AcceptedIsOffered(p: Pool, acts: seq<Action>)
    requires CanRun(p, acts)
    ensures Run(p, acts).accepted == p.accepted + Offered(acts, p.Stop())
    decreases acts
  {
    if p.Stop() {
      StopClosesQueue(p, acts);
    } else if acts != [] {
      AcceptedIsOffered(Step(p, acts[0]), acts[1..]);
    }
  }

  // So on a pool with workers that comes to rest, exactly the tasks handed over before stop have run.
  lemma RestedPoolRanWhatWasOffered(threads: nat, acts: seq<Action>)
    requires threads > 0 && CanRun(New(threads), acts)
    requires forall a | Progress(a) :: !Enabled(Run(New(threads), acts), a)
    ensures multiset(Run(New(threads), acts).finished) == multiset(Offered(acts, false))
  {
    var p := Run(New(threads), acts);
    assert CanRun(p, []) && Run(p, []) == p;
    IdlePoolHasRunEverything(threads, acts, []);
    AcceptedIsOffered(New(threads), acts);
    assert New(threads).accepted + Offered(acts, false) == Offered(acts, false);
  }

  // Nothing is accepted once stop is set, not even by enqueuers that raced with the destructor.
  lemma {:induction false} StopClosesQueue(p: Pool, acts: seq<Action>)
    requires p.Stop() && CanRun(p, acts)
    ensures Run(p, acts).Stop() && Run(p, acts).accepted == p.accepted
    decreases acts
  {
    if acts != [] {
      StopClosesQueue(Step(p, acts[0]), acts[1..]);
    }
  }

  // -------- a pool that is left alone drains its queue --------

  // Actions that are neither new work, nor spurious, nor part of the destructor.
  predicate Progress(a: Action) {
    a.Check? || a.Finish? || a.NotifyOne? || a.NotifyNobody?
  }

  function LiveWeight(w: Worker): nat {
    match w
    case Exited => 0
    case Asleep => 0
    case Checking => 1
    case Running(_) => 2
  }

  function LiveMeasure(p: Pool): nat {
    2 * |p.tasks| + Sum(LiveWeight, p.workers) + 2 * p.owed
  }

  lemma StepDecreasesLiveMeasure(p: Pool, a: Action)
    requires Progress(a) && Enabled(p, a)
    ensures LiveMeasure(Step(p, a)) < LiveMeasure(p)
  {
    var q := Step(p, a);
    match a {
      case Check(w) => SumUpdate(LiveWeight, p.workers, w, q.workers[w]);
      case Finish(w) => SumUpdate(LiveWeight, p.workers, w, Checking);
      case NotifyOne(w) => SumUpdate(LiveWeight, p.workers, w, Checking);
      case NotifyNobody =>
    }
  }

  function ProgressSteps(acts: seq<Action>): nat {
    if acts == [] then 0 else (if Progress(acts[0]) then 1 else 0) + ProgressSteps(acts[1..])
  }

  // What the other actions of a run can add to the measure: a push four steps, a spurious wake-up one, and
  // notify_all one for each worker.
  function Impulse(acts: seq<Action>, threads: nat): nat {
    if acts == [] then 0
    else
      (match acts[0]
       case Push(_) => 4
       case Wake(_) => 1
       case NotifyAll => threads
       case _ => 0)
      + Impulse(acts[1..], threads)
  }

  lemma StepBoundsLiveMeasure(p: Pool, a: Action)
    requires Enabled(p, a)
    ensures |Step(p, a).workers| == |p.workers|
    ensures ProgressSteps([a]) + LiveMeasure(Step(p, a)) <= LiveMeasure(p) + Impulse([a], |p.workers|)
  {
    if Progress(a) {
      StepDecreasesLiveMeasure(p, a);
    } else if a.Wake? {
      SumUpdate(LiveWeight, p.workers, a.w, Checking);
    } else if a.NotifyAll? {
      WakeAllAddsAtMost(p.workers);
    }
  }

  lemma {:induction false} WakeAllAddsAtMost(ws: seq<Worker>)
    ensures Sum(LiveWeight, WakeAll(ws)) <= Sum(LiveWeight, ws) + |ws|
  {
    if ws != [] {
      assert WakeAll(ws)[1..] == WakeAll(ws[1..]);
      WakeAllAddsAtMost(ws[1..]);
    }
  }

  // In any run whatever, the progress made is bounded by what there was to do and what the rest of the run
  // added: the pool does nothing endlessly by itself.
  lemma {:induction false} ProgressIsBounded(p: Pool, acts: seq<Action>)
    requires CanRun(p, acts)
    ensures ProgressSteps(acts) + LiveMeasure(Run(p, acts)) <= LiveMeasure(p) + Impulse(acts, |p.workers|)
    decreases acts
  {
    if acts != [] {
      StepBoundsLiveMeasure(p, acts[0]);
      assert [acts[0]][1..] == [];
      ProgressIsBounded(Step(p, acts[0]), acts[1..]);
    }
  }

  // At any moment of any run, with clients, spurious wake-ups and the destructor interleaved as they like: when
  // no worker can take a step and no notification is owed, everything accepted so far has finished.  And the
  // steps it takes to get there are bounded by what the others do.
  lemma IdlePoolHasRunEverything(threads: nat, before: seq<Action>, after: seq<Action>)
    requires threads > 0 && CanRun(New(threads), before)
    requires CanRun(Run(New(threads), before), after)
    ensures ProgressSteps(after) <= LiveMeasure(Run(New(threads), before)) + Impulse(after, threads)
    ensures var p := Run(Run(New(threads), before), after);
      (forall a | Progress(a) :: !Enabled(p, a)) ==> p.tasks == [] && multiset(p.finished) == multiset(p.accepted)
  {
    var s := Run(New(threads), before);
    var p := Run(s, after);
    NewEstablishesInv(threads);
    RunKeepsInv(New(threads), before);
    RunKeepsInv(s, after);
    ProgressIsBounded(s, after);
    if forall a | Progress(a) :: !Enabled(p, a) {
      NobodyBusy(p);
      NoneRunning(p.workers);
      assert p.accepted == p.dequeued;
    }
  }

  lemma NobodyBusy(p: Pool)
    requires Inv(p) && |p.workers| > 0 && forall a | Progress(a) :: !Enabled(p, a)
    ensures p.tasks == [] && forall w | 0 <= w < |p.workers| :: !p.workers[w].Running?
  {
    forall w | 0 <= w < |p.workers|
      ensures !p.workers[w].Checking? && !p.workers[w].Running?
    {
      assert !Enabled(p, Check(w)) && !Enabled(p, Finish(w));
    }
    NoneAsleep(p.workers);
    if Sum(OneIfChecking, p.workers) > 0 {
      SomeoneChecks(p.workers);
      assert false;
    }
    if Sum(OneIfAsleep, p.workers) > 0 {
      var w :| 0 <= w < |p.workers| && p.workers[w].Asleep?;
      assert !Enabled(p, NotifyOne(w));
    } else {
      assert p.workers[0].Exited?;
    }
  }
}

/** The pool's own code: one method for each locked region and notification of ThreadPool.h, and the destructor. */
module ThreadPoolClass {
  import opened PoolModel

  class ThreadPool {
    var workers: seq<Worker>
    var tasks: seq<Task>
    var stop: bool

    var owed: nat             // enqueuers that have left the locked region and not yet notified

    ghost var shutdown: Shutdown
    ghost var accepted: seq<Task>
    ghost var dequeued: seq<Task>
    ghost var finished: seq<Task>

    ghost predicate Valid()
      reads this
    {
      stop == !shutdown.NotStarted? && Inv(State())
    }

    ghost function State(): Pool
      reads this
    {
      Pool(tasks, workers, shutdown, owed, accepted, dequeued, finished)
    }

    constructor (threads: nat)
      ensures Valid() && State() == New(threads)
      ensures tasks == [] && !stop && |workers| == threads && forall w | 0 <= w < threads :: workers[w].Checking?
    {
      tasks, stop := [], false;
      shutdown, owed, accepted, dequeued, finished := NotStarted, 0, [], [], [];
      workers := [];
      new;
      for i := 0 to threads
        invariant !stop && State() == New(i)
      {
        workers := workers + [Checking];
        assert workers == New(i + 1).workers;
      }
      NewEstablishesInv(threads);
    }

    // From taking the lock to sleeping, returning, or leaving the locked region with a task.
    method TakeTask(w: nat) returns (task: seq<Task>)
      requires Valid() && w < |workers| && workers[w].Checking?
      modifies this
      ensures Valid() && State() == Step(old(State()), Check(w))
      ensures if old(tasks) != [] then
                task == [old(tasks)[0]] && tasks == old(tasks)[1..] && workers == old(workers)[w := Running(task[0])]
              else
                task == [] && tasks == [] && workers == old(workers)[w := if old(stop) then Exited else Asleep]
      ensures stop == old(stop) && owed == old(owed)
    {
      StepKeepsInv(State(), Check(w));
      task := [];
      if stop || tasks != [] {
        if stop && tasks == [] {
          workers := workers[w := Exited];
          return;
        }
        task := [tasks[0]];
        dequeued := dequeued + [tasks[0]];
        tasks := tasks[1..];
        workers := workers[w := Running(task[0])];
      } else {
        workers := workers[w := Asleep];
      }
    }

    method TaskReturns(w: nat)
      requires Valid() && w < |workers| && workers[w].Running?
      modifies this
      ensures Valid() && State() == Step(old(State()), Finish(w))
      ensures workers == old(workers)[w := Checking] && finished == old(finished) + [old(workers[w].task)]
      ensures tasks == old(tasks) && stop == old(stop) && owed == old(owed)
    {
      ghost var was := State();
      finished := finished + [workers[w].task];
      workers := workers[w := Checking];
      assert State() == Step(was, Finish(w));
      assert Inv(State()) by { StepKeepsInv(was, Finish(w)); }
    }

    // The locked region of enqueue; false stands for the exception.
    method Enqueue(task: Task) returns (ok: bool)
      requires Valid()
      modifies this
      ensures Valid() && State() == Step(old(State()), Push(task))
      ensures ok == !old(stop) && stop == old(stop) && workers == old(workers)
      ensures tasks == old(tasks) + (if ok then [task] else []) && owed == old(owed) + (if ok then 1 else 0)
      ensures accepted == old(accepted) + (if ok then [task] else [])
    {
      if stop {
        return false;
      }
      ghost var was := State();
      tasks := tasks + [task];
      accepted := accepted + [task];
      owed := owed + 1;
      assert State() == Step(was, Push(task));
      assert Inv(State()) by { StepKeepsInv(was, Push(task)); }
      return true;
    }

    // An enqueuer's notify_one: any one sleeper wakes, if there is one.
    method NotifyOneSleeper() returns (ghost a: Action)
      requires Valid() && owed > 0
      modifies this
      ensures a.NotifyOne? || a.NotifyNobody?
      ensures Enabled(old(State()), a) && Valid() && State() == Step(old(State()), a)
      ensures owed == old(owed) - 1 && tasks == old(tasks) && stop == old(stop) && |workers| == |old(workers)|
      ensures a.NotifyOne? ==> old(workers)[a.w].Asleep? && workers == old(workers)[a.w := Checking]
      ensures a.NotifyNobody? ==> workers == old(workers) && forall w | 0 <= w < |workers| :: !workers[w].Asleep?
    {
      ghost var was := State();
      owed := owed - 1;
      if w: nat :| w < |workers| && workers[w].Asleep? {
        a := NotifyOne(w);
        workers := workers[w := Checking];
      } else {
        a := NotifyNobody;
      }
      assert State() == Step(was, a);
      assert Inv(State()) by { StepKeepsInv(was, a); }
    }

    method RaiseStop()
      requires Valid() && !stop
      modifies this
      ensures Valid() && State() == Step(old(State()), SetStop)
      ensures stop && tasks == old(tasks) && workers == old(workers) && owed == old(owed)
    {
      StepKeepsInv(State(), SetStop);
      stop := true;
      shutdown := StopSet;
    }

    method NotifyEveryone()
      requires Valid() && shutdown.StopSet?
      modifies this
      ensures Valid() && State() == Step(old(State()), NotifyAll)
      ensures |workers| == |old(workers)| && forall w | 0 <= w < |workers| ::
        workers[w] == if old(workers)[w].Asleep? then Checking else old(workers)[w]
      ensures stop && tasks == old(tasks) && owed == old(owed)
    {
      StepKeepsInv(State(), NotifyAll);
      for i := 0 to |workers|
        invariant stop && State() == old(State()).(workers := workers) && |workers| == |old(workers)|
        invariant forall w | 0 <= w < |workers| ::
          workers[w] == if w < i then WakeAll(old(workers))[w] else old(workers)[w]
      {
        if workers[i].Asleep? {
          workers := workers[i := Checking];
        }
      }
      assert workers == WakeAll(old(workers));
      shutdown := Joining(0);
    }

    // A sleeper wakes although nobody notified it.
    method WakeWithoutCause(w: nat)
      requires Valid() && w < |workers| && workers[w].Asleep?
      modifies this
      ensures Valid() && State() == Step(old(State()), Wake(w))
      ensures workers == old(workers)[w := Checking] && tasks == old(tasks) && stop == old(stop) && owed == old(owed)
    {
      ghost var was := State();
      workers := workers[w := Checking];
      assert State() == Step(was, Wake(w));
      assert Inv(State()) by { StepKeepsInv(was, Wake(w)); }
    }

    // Somebody other than the destructor moves, whoever the scheduler picks: a worker that is awake, a sleeper
    // that wakes without cause, or an enqueuer that still owes its notification.
    method SomebodyMoves() returns (ghost a: Action)
      requires Valid() && stop && !AllExited(State())
      modifies this
      ensures PoolAction(a) && Enabled(old(State()), a) && State() == Step(old(State()), a)
      ensures Valid() && shutdown == old(shutdown) && |workers| == |old(workers)| && accepted == old(accepted)
      ensures Measure(State()) < Measure(old(State()))
    {
      ghost var was := State();
      if {
        case w: nat :| w < |workers| && workers[w].Checking? =>
          a := Check(w);
          var _ := TakeTask(w);
        case w: nat :| w < |workers| && workers[w].Running? =>
          a := Finish(w);
          TaskReturns(w);
        case w: nat :| w < |workers| && workers[w].Asleep? =>
          a := Wake(w);
          WakeWithoutCause(w);
        case owed > 0 =>
          a := NotifyOneSleeper();
      }
      assert State() == Step(was, a);
      assert |workers| == |was.workers| by { StepKeepsInv(was, a); }
      assert Measure(State()) < Measure(was) by { StepDecreasesMeasure(was, a); }
    }

    // Between the destructor's locked region and its notify_all.
    method OthersMove()
      requires Valid() && shutdown.StopSet?
      modifies this
      ensures Valid() && shutdown.StopSet? && |workers| == |old(workers)| && accepted == old(accepted)
      ensures |workers| == 0 ==> tasks == old(tasks)
    {
      var more: bool := *;
      while more && exists w :: 0 <= w < |workers| && !workers[w].Exited?
        invariant Valid() && shutdown.StopSet? && |workers| == |old(workers)| && accepted == old(accepted)
        invariant |workers| == 0 ==> tasks == old(tasks)
        decreases Measure(State())
      {
        ghost var _ := SomebodyMoves();
        more := *;
      }
    }

    // The join of worker k waits until it has left its loop, while everybody else goes on.
    method JoinWorker(k: nat)
      requires Valid() && shutdown == Joining(k) && k < |workers|
      modifies this
      ensures Valid() && shutdown == Joining(k + 1) && |workers| == |old(workers)| && accepted == old(accepted)
    {
      while !workers[k].Exited?
        invariant Valid() && shutdown == Joining(k) && |workers| == |old(workers)| && accepted == old(accepted)
        decreases Measure(State())
      {
        ghost var _ := SomebodyMoves();
      }
      StepKeepsInv(State(), Join);
      shutdown := Joining(k + 1);
    }

    // The destructor, while everybody else moves as the scheduler likes.  It ends, and then every worker has
    // left its loop and everything accepted has run; without workers the queue is as it was.
    method Destroy()
      requires Valid() && !stop
      modifies this
      ensures Valid() && shutdown.Joined? && AllExited(State())
      ensures |workers| == |old(workers)| && accepted == old(accepted)
      ensures if |workers| > 0 then tasks == [] && multiset(finished) == multiset(accepted) else tasks == old(tasks)
    {
      RaiseStop();
      OthersMove();
      NotifyEveryone();
      JoinEveryone();
      JoinedIsDrained(State());
    }

    method JoinEveryone()
      requires Valid() && shutdown == Joining(0)
      modifies this
      ensures Valid() && shutdown.Joined? && |workers| == |old(workers)| && accepted == old(accepted)
      ensures |workers| == 0 ==> tasks == old(tasks)
    {
      for k := 0 to |workers|
        invariant Valid() && shutdown == Joining(k) && |workers| == |old(workers)| && accepted == old(accepted)
        invariant |workers| == 0 ==> tasks == old(tasks)
      {
        JoinWorker(k);
      }
      StepKeepsInv(State(), Join);
      shutdown := Joined;
    }
  }
}
