// The thread pool of lib/server/thread_pool.cpp as a system of atomic steps:
// any number of workers and producers, any interleaving, spurious wake-ups.

module ThreadPool {
  type Job = nat

  // Where a worker is.  Checking and Taken hold the mutex; a Checking worker
  // remembers whether it comes from a wake-up.
  datatype Worker =
    | Starting
    | Checking(woken: bool)
    | Parked
    | Woken
    | Taken(job: Job)
    | Running(job: Job)

  // Where a thread_pool_queue call is.  All but Idle hold the mutex.
  datatype Producer = Idle | Locked(job: Job) | Pushed | Signalled

  datatype Holder = Free | ByWorker(i: nat) | ByProducer(j: nat)

  // pushed, dequeued and finished are history.
  datatype State = State(
    workers: seq<Worker>,
    producers: seq<Producer>,
    mutex: Holder,
    queue: seq<Job>,
    pushed: seq<Job>,
    dequeued: seq<Job>,
    finished: seq<Job>)

  // thread_pool_init
  ghost predicate Init(s: State) {
    |s.workers| > 0 && (forall i :: 0 <= i < |s.workers| ==> s.workers[i] == Starting) &&
    (forall j :: 0 <= j < |s.producers| ==> s.producers[j] == Idle) &&
    s.mutex == Free && s.queue == [] && s.pushed == [] && s.dequeued == [] && s.finished == []
  }

  datatype Step =
    | Lock(i: nat)
    | Park(i: nat)
    | Take(i: nat)
    | Unlock(i: nat)
    | Finish(i: nat)
    | WakeSpuriously(i: nat)
    | QueueLock(j: nat, job: Job)
    | QueuePush(j: nat)
    | QueueSignal(j: nat, i: nat)
    | QueueUnlock(j: nat)

  ghost predicate Enabled(s: State, step: Step) {
    match step
    case Lock(i) => i < |s.workers| && (s.workers[i].Starting? || s.workers[i].Woken?) && s.mutex == Free
    case Park(i) => i < |s.workers| && s.workers[i].Checking? && s.queue == []
    case Take(i) => i < |s.workers| && s.workers[i].Checking? && s.queue != []
    case Unlock(i) => i < |s.workers| && s.workers[i].Taken?
    case Finish(i) => i < |s.workers| && s.workers[i].Running?
    case WakeSpuriously(i) => i < |s.workers| && s.workers[i].Parked?
    case QueueLock(j, job) => j < |s.producers| && s.producers[j].Idle? && s.mutex == Free
    case QueuePush(j) => j < |s.producers| && s.producers[j].Locked?
    // The signal wakes one parked worker, if there is one; more than one is
    // this step and spurious wake-ups.
    case QueueSignal(j, i) =>
      j < |s.producers| && s.producers[j].Pushed? &&
      (SomeParked(s) ==> i < |s.workers| && s.workers[i].Parked?)
    case QueueUnlock(j) => j < |s.producers| && s.producers[j].Signalled?
  }

  ghost predicate SomeParked(s: State) {
    exists i :: 0 <= i < |s.workers| && s.workers[i].Parked?
  }

  ghost function Apply(s: State, step: Step): State
    requires Enabled(s, step)
  {
    match step
    case Lock(i) => s.(workers := s.workers[i := Checking(s.workers[i].Woken?)], mutex := ByWorker(i))
    case Park(i) => s.(workers := s.workers[i := Parked], mutex := Free)
    case Take(i) =>
      s.(workers := s.workers[i := Taken(s.queue[0])], queue := s.queue[1..], dequeued := s.dequeued + [s.queue[0]])
    case Unlock(i) => s.(workers := s.workers[i := Running(s.workers[i].job)], mutex := Free)
    case Finish(i) =>
      s.(workers := s.workers[i := Starting], finished := s.finished + [s.workers[i].job])
    case WakeSpuriously(i) => s.(workers := s.workers[i := Woken])
    case QueueLock(j, job) => s.(producers := s.producers[j := Locked(job)], mutex := ByProducer(j))
    case QueuePush(j) =>
      var job := s.producers[j].job;
      s.(producers := s.producers[j := Pushed], queue := s.queue + [job], pushed := s.pushed + [job])
    case QueueSignal(j, i) =>
      s.(producers := s.producers[j := Signalled],
         workers := if SomeParked(s) then s.workers[i := Woken] else s.workers)
    case QueueUnlock(j) => s.(producers := s.producers[j := Idle], mutex := Free)
  }

  // ----- The invariant -----

  // Workers on their way from a wake-up to looking at the queue.
  ghost function Rechecking(ws: seq<Worker>): nat {
    if ws == [] then 0
    else Rechecking(ws[..|ws| - 1]) + if IsRechecking(ws[|ws| - 1]) then 1 else 0
  }

  predicate IsRechecking(w: Worker) {
    w.Woken? || (w.Checking? && w.woken)
  }

  // How many times a job occurs in a list, and in the hands of workers.
  ghost function Count(s: seq<Job>, x: Job): nat {
    if s == [] then 0 else Count(s[..|s| - 1], x) + if s[|s| - 1] == x then 1 else 0
  }

  ghost function Held(ws: seq<Worker>, x: Job): nat {
    if ws == [] then 0 else Held(ws[..|ws| - 1], x) + if Holds(ws[|ws| - 1], x) then 1 else 0
  }

  predicate Holds(w: Worker, x: Job) {
    (w.Taken? || w.Running?) && w.job == x
  }

  // Every dequeued job is in the hands of a worker or finished, once.
  ghost predicate Conserved(s: State) {
    forall x :: Count(s.dequeued, x) == Held(s.workers, x) + Count(s.finished, x)
  }

  ghost predicate MutexRight(s: State) {
    (forall i :: 0 <= i < |s.workers| ==>
      ((s.workers[i].Checking? || s.workers[i].Taken?) <==> s.mutex == ByWorker(i))) &&
    (forall j :: 0 <= j < |s.producers| ==> (!s.producers[j].Idle? <==> s.mutex == ByProducer(j))) &&
    (s.mutex.ByWorker? ==> s.mutex.i < |s.workers|) && (s.mutex.ByProducer? ==> s.mutex.j < |s.producers|)
  }

  // A pushed job whose signal is still to come.
  ghost predicate SignalDue(s: State) {
    s.mutex.ByProducer? && s.mutex.j < |s.producers| && s.producers[s.mutex.j].Pushed?
  }

  // While a worker is parked, every queued job has a worker coming for it.
  ghost predicate NoLostWakeUp(s: State) {
    SomeParked(s) ==> |s.queue| <= Rechecking(s.workers) + if SignalDue(s) then 1 else 0
  }

  ghost predicate Inv(s: State) {
    |s.workers| > 0 && MutexRight(s) && s.dequeued + s.queue == s.pushed &&
    Conserved(s) && NoLostWakeUp(s)
  }

  lemma {:induction false} HeldUpdate(ws: seq<Worker>, i: nat, w: Worker, x: Job)
    requires i < |ws|
    ensures Held(ws[i := w], x) ==
      Held(ws, x) - (if Holds(ws[i], x) then 1 else 0) + (if Holds(w, x) then 1 else 0)
  {
    var n := |ws| - 1;
    if i < n {
      HeldUpdate(ws[..n], i, w, x);
      assert ws[i := w][..n] == ws[..n][i := w];
    } else {
      assert ws[i := w][..n] == ws[..n];
    }
  }

  lemma CountSnoc(s: seq<Job>, y: Job, x: Job)
    ensures Count(s + [y], x) == Count(s, x) + if y == x then 1 else 0
  {
    assert (s + [y])[..|s|] == s;
  }

  lemma {:induction false} CountConcat(a: seq<Job>, b: seq<Job>, x: Job)
    ensures Count(a + b, x) == Count(a, x) + Count(b, x)
  {
    if b == [] {
      assert a + b == a;
    } else {
      CountConcat(a, b[..|b| - 1], x);
      assert (a + b)[..|a + b| - 1] == a + b[..|b| - 1];
    }
  }

  lemma {:induction false} RecheckingUpdate(ws: seq<Worker>, i: nat, w: Worker)
    requires i < |ws|
    ensures Rechecking(ws[i := w]) ==
      Rechecking(ws) - (if IsRechecking(ws[i]) then 1 else 0) + (if IsRechecking(w) then 1 else 0)
  {
    var n := |ws| - 1;
    if i < n {
      RecheckingUpdate(ws[..n], i, w);
      assert ws[i := w][..n] == ws[..n][i := w];
    } else {
      assert ws[i := w][..n] == ws[..n];
    }
  }

  lemma {:induction false} AllStarting(ws: seq<Worker>)
    requires forall i :: 0 <= i < |ws| ==> ws[i] == Starting
    ensures forall x :: Held(ws, x) == 0
  {
    if ws != [] { AllStarting(ws[..|ws| - 1]); }
  }

  lemma InitInv(s: State)
    requires Init(s)
    ensures Inv(s)
  {
    AllStarting(s.workers);
  }

  lemma MutexKept(s: State, step: Step)
    requires Enabled(s, step) && MutexRight(s)
    ensures MutexRight(Apply(s, step))
  {
  }

  lemma FifoKept(s: State, step: Step)
    requires Enabled(s, step) && s.dequeued + s.queue == s.pushed
    ensures var t := Apply(s, step); t.dequeued + t.queue == t.pushed
  {
    match step
    case Take(i) => assert s.queue == [s.queue[0]] + s.queue[1..];
    case QueuePush(j) =>
      var job := s.producers[j].job;
      assert s.dequeued + (s.queue + [job]) == s.dequeued + s.queue + [job];
    case _ =>
  }

  lemma ConservedKept(s: State, step: Step)
    requires Enabled(s, step) && Conserved(s)
    ensures Conserved(Apply(s, step))
  {
    hide Held, Count;
    var t := Apply(s, step);
    forall x ensures Count(t.dequeued, x) == Held(t.workers, x) + Count(t.finished, x) {
      match step
      case Lock(i) => HeldUpdate(s.workers, i, Checking(s.workers[i].Woken?), x);
      case Park(i) => HeldUpdate(s.workers, i, Parked, x);
      case Take(i) =>
        HeldUpdate(s.workers, i, Taken(s.queue[0]), x);
        CountSnoc(s.dequeued, s.queue[0], x);
      case Unlock(i) => HeldUpdate(s.workers, i, Running(s.workers[i].job), x);
      case Finish(i) =>
        HeldUpdate(s.workers, i, Starting, x);
        CountSnoc(s.finished, s.workers[i].job, x);
      case WakeSpuriously(i) => HeldUpdate(s.workers, i, Woken, x);
      case QueueSignal(j, i) => if SomeParked(s) { HeldUpdate(s.workers, i, Woken, x); }
      case _ =>
    }
  }

  lemma WakeUpKept(s: State, step: Step)
    requires Enabled(s, step) && MutexRight(s) && NoLostWakeUp(s)
    ensures NoLostWakeUp(Apply(s, step))
  {
    var t := Apply(s, step);
    match step
    case Lock(i) => RecheckingUpdate(s.workers, i, Checking(s.workers[i].Woken?)); StillParked(s, t, i);
    case Park(i) => RecheckingUpdate(s.workers, i, Parked);
    case Take(i) => RecheckingUpdate(s.workers, i, Taken(s.queue[0])); StillParked(s, t, i);
    case Unlock(i) => RecheckingUpdate(s.workers, i, Running(s.workers[i].job)); StillParked(s, t, i);
    case Finish(i) => RecheckingUpdate(s.workers, i, Starting); StillParked(s, t, i);
    case WakeSpuriously(i) => RecheckingUpdate(s.workers, i, Woken); StillParked(s, t, i);
    case QueueLock(j, job) =>
    case QueuePush(j) =>
    case QueueSignal(j, i) => if SomeParked(s) { RecheckingUpdate(s.workers, i, Woken); }
    case QueueUnlock(j) =>
  }

  lemma StillParked(s: State, t: State, i: nat)
    requires |t.workers| == |s.workers| && i < |s.workers| && t.workers == s.workers[i := t.workers[i]]
    requires !t.workers[i].Parked?
    ensures SomeParked(t) ==> SomeParked(s)
  {
    if SomeParked(t) {
      var k :| 0 <= k < |t.workers| && t.workers[k].Parked?;
      assert s.workers[k].Parked?;
    }
  }

  // ----- Every run -----

  ghost predicate IsRun(run: seq<State>, steps: seq<Step>) {
    |run| == |steps| + 1 && Init(run[0]) &&
    forall k :: 0 <= k < |steps| ==> Enabled(run[k], steps[k]) && run[k + 1] == Apply(run[k], steps[k])
  }

  lemma {:induction false} RunInv(run: seq<State>, steps: seq<Step>, k: nat)
    requires IsRun(run, steps) && k < |run|
    ensures Inv(run[k])
    decreases k
  {
    if k == 0 {
      InitInv(run[0]);
    } else {
      RunInv(run, steps, k - 1);
      var s, step := run[k - 1], steps[k - 1];
      hide Inv;
      StepInv(s, step);
    }
  }

  lemma StepInv(s: State, step: Step)
    requires Inv(s) && Enabled(s, step)
    ensures Inv(Apply(s, step))
  {
    MutexKept(s, step);
    FifoKept(s, step);
    ConservedKept(s, step);
    WakeUpKept(s, step);
  }

  // At every point of every run: jobs leave the queue in the order they came;
  // every pushed job is queued, held by a worker, or finished, once each; and
  // the workers cannot all be parked while a job waits for which nothing more
  // will happen.
  lemma PoolSafety(run: seq<State>, steps: seq<Step>, k: nat)
    requires IsRun(run, steps) && k < |run|
    ensures var s := run[k];
      s.dequeued + s.queue == s.pushed &&
      (forall x :: Count(s.pushed, x) == Count(s.queue, x) + Held(s.workers, x) + Count(s.finished, x)) &&
      (s.queue != [] && !SignalDue(s) ==> exists i :: 0 <= i < |s.workers| && !s.workers[i].Parked?)
  {
    RunInv(run, steps, k);
    var s := run[k];
    forall x ensures Count(s.pushed, x) == Count(s.queue, x) + Held(s.workers, x) + Count(s.finished, x) {
      CountConcat(s.dequeued, s.queue, x);
    }
    if forall i :: 0 <= i < |s.workers| ==> s.workers[i].Parked? {
      AllParked(s.workers);
      assert s.workers[0].Parked?;
    }
  }

  lemma {:induction false} AllParked(ws: seq<Worker>)
    requires forall i :: 0 <= i < |ws| ==> ws[i].Parked?
    ensures Rechecking(ws) == 0
  {
    if ws != [] { AllParked(ws[..|ws| - 1]); }
  }

  // A step that some worker or producer takes of itself: no new call, and no
  // spurious wake-up.
  ghost predicate Proceeds(step: Step) {
    !step.QueueLock? && !step.WakeSpuriously?
  }

  // While a job is queued, the pool never waits for help from outside.
  lemma NoDeadlock(run: seq<State>, steps: seq<Step>, k: nat)
    requires IsRun(run, steps) && k < |run| && run[k].queue != []
    ensures exists step :: Proceeds(step) && Enabled(run[k], step)
  {
    RunInv(run, steps, k);
    PoolSafety(run, steps, k);
    var s := run[k];
    match s.mutex
    case ByWorker(i) =>
      assert Enabled(s, if s.workers[i].Checking? then Take(i) else Unlock(i));
    case ByProducer(j) => ProducerProceeds(s, j);
    case Free =>
      var i :| 0 <= i < |s.workers| && !s.workers[i].Parked?;
      assert Enabled(s, if s.workers[i].Running? then Finish(i) else Lock(i));
  }

  lemma ProducerProceeds(s: State, j: nat)
    requires MutexRight(s) && s.mutex == ByProducer(j)
    ensures exists step :: Proceeds(step) && Enabled(s, step)
  {
    match s.producers[j]
    case Locked(job) => assert Enabled(s, QueuePush(j));
    case Signalled => assert Enabled(s, QueueUnlock(j));
    case Idle => assert false;
    case Pushed =>
      if SomeParked(s) {
        var i :| 0 <= i < |s.workers| && s.workers[i].Parked?;
        assert Enabled(s, QueueSignal(j, i));
      } else {
        assert Enabled(s, QueueSignal(j, 0));
      }
  }
}
