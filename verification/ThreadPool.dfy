/** `ThreadPool`: the shared queue, and every interleaving of the threads that use it. */
module ThreadPool {

  type Job = nat

  // --- the critical sections

  datatype Queue = Queue(jobs: seq<Job>, shutdown: bool)

  /** What a worker finds when it holds the lock. */
  datatype Taken = Got(job: Job) | Sleep | Quit

  function Push(q: Queue, max: nat, job: Job): (Queue, bool) {
    if max > 0 && |q.jobs| >= max then (q, false) else (q.(jobs := q.jobs + [job]), true)
  }

  function Take(q: Queue): (Queue, Taken) {
    if q.jobs == [] then (q, if q.shutdown then Quit else Sleep)
    else (q.(jobs := q.jobs[1..]), Got(q.jobs[0]))
  }

  /** The fields that the mutex guards, and the code that runs while holding it. */
  class Shared {
    var jobs: seq<Job>
    var shutdown: bool
    const maxQueuedRequests: nat

    constructor (mqr: nat)
      ensures Contents() == Queue([], false) && maxQueuedRequests == mqr
    {
      jobs, shutdown, maxQueuedRequests := [], false, mqr;
    }

    function Contents(): Queue
      reads this
    {
      Queue(jobs, shutdown)
    }

    /** The locked part of `enqueue`; when it answers true a `notify_one` follows. */
    method Enqueue(fn: Job) returns (accepted: bool)
      modifies this`jobs
      ensures (Contents(), accepted) == Push(old(Contents()), maxQueuedRequests, fn)
    {
      if maxQueuedRequests > 0 && |jobs| >= maxQueuedRequests { return false; }
      jobs := jobs + [fn];
      return true;
    }

    /** The locked part of `shutdown`; a `notify_all` follows. */
    method BeginShutdown()
      modifies this`shutdown
      ensures Contents() == old(Contents()).(shutdown := true)
    {
      shutdown := true;
    }

    /** A worker's critical section: test the wait predicate, then quit or take the job at the front. */
    method WorkerTurn() returns (t: Taken)
      modifies this`jobs
      ensures (Contents(), t) == Take(old(Contents()))
    {
      var ready := jobs != [] || shutdown;
      if !ready { return Sleep; }
      if shutdown && jobs == [] { return Quit; }
      t := Got(jobs[0]);
      jobs := jobs[1..];
    }
  }

  // --- the threads

  /** A worker is about to take the lock, blocked on the condition variable, running a job, or gone. */
  datatype Worker = Checking | Waiting | Running(job: Job) | Exited

  /** The queue, the workers, the notifications still to be sent, and the history: jobs accepted and dequeued in
      order, jobs whose call has returned, and jobs accepted when no worker was left. */
  datatype State = State(q: Queue, workers: seq<Worker>, notifyOne: nat, notifyAll: nat,
                         accepted: seq<Job>, dequeued: seq<Job>, ran: multiset<Job>, stranded: seq<Job>)

  datatype Step =
    | Enqueue(job: Job)          // a client's critical section
    | BeginShutdown              // the shutdown caller's critical section
    | NotifyOne(w: nat)          // wakes worker w, which must be waiting
    | NotifyNobody               // a notify_one that finds no worker waiting
    | NotifyAll
    | Spurious(w: nat)           // a wakeup without notification
    | Check(w: nat)              // a worker's critical section
    | Finish(w: nat)             // the job's call returns

  function Init(n: nat): State {
    State(Queue([], false), seq(n, _ => Checking), 0, 0, [], [], multiset{}, [])
  }

  predicate AllExited(ws: seq<Worker>) {
    forall w | w in ws :: w == Exited
  }

  predicate NoneWaiting(ws: seq<Worker>) {
    forall w | w in ws :: w != Waiting
  }

  function WakeAll(ws: seq<Worker>): (r: seq<Worker>)
    ensures |r| == |ws|
  {
    if ws == [] then [] else [if ws[0] == Waiting then Checking else ws[0]] + WakeAll(ws[1..])
  }

  predicate Enabled(s: State, step: Step) {
    match step
    case Enqueue(_) => true
    case BeginShutdown => true
    case NotifyOne(w) => s.notifyOne > 0 && w < |s.workers| && s.workers[w] == Waiting
    case NotifyNobody => s.notifyOne > 0 && NoneWaiting(s.workers)
    case NotifyAll => s.notifyAll > 0
    case Spurious(w) => w < |s.workers| && s.workers[w] == Waiting
    case Check(w) => w < |s.workers| && s.workers[w] == Checking
    case Finish(w) => w < |s.workers| && s.workers[w].Running?
  }

  function Apply(max: nat, s: State, step: Step): State
    requires Enabled(s, step)
  {
    match step
    case Enqueue(job) =>
      var (q, ok) := Push(s.q, max, job);
      if ok then s.(q := q, notifyOne := s.notifyOne + 1, accepted := s.accepted + [job],
                    stranded := if AllExited(s.workers) then s.stranded + [job] else s.stranded)
      else s
    case BeginShutdown => s.(q := s.q.(shutdown := true), notifyAll := s.notifyAll + 1)
    case NotifyOne(w) => s.(notifyOne := s.notifyOne - 1, workers := s.workers[w := Checking])
    case NotifyNobody => s.(notifyOne := s.notifyOne - 1)
    case NotifyAll => s.(notifyAll := s.notifyAll - 1, workers := WakeAll(s.workers))
    case Spurious(w) => s.(workers := s.workers[w := Checking])
    case Check(w) =>
      var (q, t) := Take(s.q);
      (match t
       case Got(job) => s.(q := q, workers := s.workers[w := Running(job)], dequeued := s.dequeued + [job])
       case Sleep => s.(workers := s.workers[w := Waiting])
       case Quit => s.(workers := s.workers[w := Exited]))
    case Finish(w) => s.(workers := s.workers[w := Checking], ran := s.ran + multiset{s.workers[w].job})
  }

  /** `s` is reached by the steps from a pool of `n` workers. */
  ghost predicate Reaches(max: nat, n: nat, steps: seq<Step>, s: State)
    decreases |steps|
  {
    if steps == [] then s == Init(n)
    else
      var last := steps[|steps| - 1];
      exists before :: Reaches(max, n, steps[..|steps| - 1], before) && Enabled(before, last) && s == Apply(max, before, last)
  }

  lemma ReachesStep(max: nat, n: nat, steps: seq<Step>, s: State, step: Step)
    requires Reaches(max, n, steps, s) && Enabled(s, step)
    ensures Reaches(max, n, steps + [step], Apply(max, s, step))
  {
    var all := steps + [step];
    assert all[..|all| - 1] == steps && all[|all| - 1] == step;
    assert Reaches(max, n, all[..|all| - 1], s) && Enabled(s, all[|all| - 1]);
  }

  // --- what every step keeps

  function Held(w: Worker): multiset<Job> {
    if w.Running? then multiset{w.job} else multiset{}
  }

  /** The jobs workers have taken and not finished. */
  function InHand(ws: seq<Worker>): multiset<Job> {
    if ws == [] then multiset{} else Held(ws[0]) + InHand(ws[1..])
  }

  /** Somebody sleeps and nobody is up. */
  predicate Asleep(ws: seq<Worker>) {
    Waiting in ws && forall w | w in ws :: w in {Waiting, Exited}
  }

  ghost predicate Inv(max: nat, n: nat, s: State) {
    && |s.workers| == n
    && (max > 0 ==> |s.q.jobs| <= max)
    && s.accepted == s.dequeued + s.q.jobs
    && multiset(s.dequeued) == s.ran + InHand(s.workers)
    && (s.q.jobs != [] && Asleep(s.workers) ==> s.notifyOne > 0 || s.notifyAll > 0)
    && (s.q.shutdown && Waiting in s.workers ==> s.notifyAll > 0)
    && (Exited in s.workers ==> s.q.shutdown)
    && (AllExited(s.workers) ==> s.q.jobs == s.stranded)
    && (!AllExited(s.workers) ==> s.stranded == [])
  }

  lemma {:induction false} InHandUpdate(ws: seq<Worker>, i: nat, w: Worker)
    requires i < |ws|
    ensures InHand(ws[i := w]) + Held(ws[i]) == InHand(ws) + Held(w)
    decreases |ws|
  {
    hide Held;
    if i == 0 {
      assert ws[i := w][1..] == ws[1..];
      Shuffle(Held(w), InHand(ws[1..]), Held(ws[0]));
    } else {
      InHandUpdate(ws[1..], i - 1, w);
      assert ws[i := w][1..] == ws[1..][i - 1 := w];
      Shuffle(Held(ws[0]), InHand(ws[1..]), Held(w));
      Shuffle(Held(ws[0]), InHand(ws[1..][i - 1 := w]), Held(ws[i]));
    }
  }

  lemma Shuffle(x: multiset<Job>, y: multiset<Job>, z: multiset<Job>)
    ensures x + y + z == z + y + x == x + (y + z)
    ensures x + y == y + x
    ensures x + multiset{} == x
  {
  }

  lemma AllExitedCons(w: Worker, ws: seq<Worker>)
    ensures AllExited([w] + ws) <==> w == Exited && AllExited(ws)
    ensures Exited in [w] + ws <==> w == Exited || Exited in ws
    ensures Waiting in [w] + ws <==> w == Waiting || Waiting in ws
  {
    if AllExited([w] + ws) {
      assert w in [w] + ws;
      forall v | v in ws ensures v == Exited { assert v in [w] + ws; }
    }
  }

  lemma {:induction false} WakeAllKeeps(ws: seq<Worker>)
    ensures InHand(WakeAll(ws)) == InHand(ws)
    ensures Waiting !in WakeAll(ws)
    ensures Exited in WakeAll(ws) <==> Exited in ws
    ensures AllExited(WakeAll(ws)) <==> AllExited(ws)
  {
    if ws != [] {
      WakeAllKeeps(ws[1..]);
      var up := if ws[0] == Waiting then Checking else ws[0];
      assert WakeAll(ws) == [up] + WakeAll(ws[1..]) && ws == [ws[0]] + ws[1..];
      AllExitedCons(ws[0], ws[1..]);
      AllExitedCons(up, WakeAll(ws[1..]));
    }
  }

  lemma UpdateKeepsOthers(ws: seq<Worker>, i: nat, w: Worker)
    requires i < |ws|
    ensures ws[i := w][i] == w && w in ws[i := w] && ws[i] in ws
    ensures forall v | v in ws[i := w] :: v == w || v in ws
  {
  }

  lemma InitInv(max: nat, n: nat)
    requires n > 0
    ensures Inv(max, n, Init(n))
  {
    InitIdle(Init(n).workers);
    assert Init(n).workers[0] == Checking;
  }

  lemma {:induction false} InitIdle(ws: seq<Worker>)
    requires forall w | w in ws :: w == Checking
    ensures InHand(ws) == multiset{}
  {
    if ws != [] {
      assert ws[0] in ws && forall w | w in ws[1..] :: w in ws;
      InitIdle(ws[1..]);
    }
  }

  lemma EnqueueKeeps(max: nat, n: nat, s: State, job: Job)
    requires Inv(max, n, s)
    ensures Inv(max, n, Apply(max, s, Enqueue(job)))
  {
    assert s.dequeued + (s.q.jobs + [job]) == s.dequeued + s.q.jobs + [job];
  }

  lemma WakeKeeps(max: nat, n: nat, s: State, w: nat)
    requires Inv(max, n, s) && w < |s.workers| && s.workers[w] == Waiting
    ensures Inv(max, n, s.(workers := s.workers[w := Checking]))
    ensures !Asleep(s.workers[w := Checking])
  {
    hide InHand;
    InHandUpdate(s.workers, w, Checking);
    Shuffle(InHand(s.workers), multiset{}, multiset{});
    Shuffle(InHand(s.workers[w := Checking]), multiset{}, multiset{});
    UpdateKeepsOthers(s.workers, w, Checking);
    assert !AllExited(s.workers);
  }

  lemma CheckTakes(max: nat, n: nat, s: State, w: nat)
    requires Inv(max, n, s) && Enabled(s, Check(w)) && s.q.jobs != []
    ensures Inv(max, n, Apply(max, s, Check(w)))
  {
    hide InHand;
    var job, rest := s.q.jobs[0], s.q.jobs[1..];
    var after := s.workers[w := Running(job)];
    InHandUpdate(s.workers, w, Running(job));
    Shuffle(InHand(after), multiset{}, multiset{});
    Shuffle(s.ran, InHand(s.workers), multiset{job});
    UpdateKeepsOthers(s.workers, w, Running(job));
    assert !AllExited(s.workers) && !AllExited(after) && !Asleep(after);
    assert s.q.jobs == [job] + rest && s.dequeued + ([job] + rest) == s.dequeued + [job] + rest;
  }

  lemma CheckIdles(max: nat, n: nat, s: State, w: nat)
    requires Inv(max, n, s) && Enabled(s, Check(w)) && s.q.jobs == []
    ensures Inv(max, n, Apply(max, s, Check(w)))
  {
    hide InHand;
    var next := if s.q.shutdown then Exited else Waiting;
    InHandUpdate(s.workers, w, next);
    Shuffle(InHand(s.workers), multiset{}, multiset{});
    Shuffle(InHand(s.workers[w := next]), multiset{}, multiset{});
    UpdateKeepsOthers(s.workers, w, next);
    assert !AllExited(s.workers);
  }

  lemma FinishKeeps(max: nat, n: nat, s: State, w: nat)
    requires Inv(max, n, s) && Enabled(s, Finish(w))
    ensures Inv(max, n, Apply(max, s, Finish(w)))
  {
    hide InHand;
    InHandUpdate(s.workers, w, Checking);
    var job := multiset{s.workers[w].job};
    Shuffle(InHand(s.workers), multiset{}, multiset{});
    Shuffle(s.ran, job, InHand(s.workers[w := Checking]));
    Shuffle(job, InHand(s.workers[w := Checking]), multiset{});
    UpdateKeepsOthers(s.workers, w, Checking);
    assert !AllExited(s.workers);
  }

  lemma StepKeepsInv(max: nat, n: nat, s: State, step: Step)
    requires Inv(max, n, s) && Enabled(s, step)
    ensures Inv(max, n, Apply(max, s, step))
  {
    match step
    case Enqueue(job) => EnqueueKeeps(max, n, s, job);
    case BeginShutdown =>
    case NotifyOne(w) => WakeKeeps(max, n, s, w);
    case NotifyNobody =>
    case NotifyAll => WakeAllKeeps(s.workers);
    case Spurious(w) => WakeKeeps(max, n, s, w);
    case Check(w) => if s.q.jobs == [] { CheckIdles(max, n, s, w); } else { CheckTakes(max, n, s, w); }
    case Finish(w) => FinishKeeps(max, n, s, w);
  }

  lemma {:induction false} ReachableInv(max: nat, n: nat, steps: seq<Step>, s: State)
    requires n > 0 && Reaches(max, n, steps, s)
    ensures Inv(max, n, s)
    decreases |steps|
  {
    if steps == [] {
      InitInv(max, n);
    } else {
      var init, last := steps[..|steps| - 1], steps[|steps| - 1];
      var before :| Reaches(max, n, init, before) && Enabled(before, last) && s == Apply(max, before, last);
      ReachableInv(max, n, init, before);
      StepKeepsInv(max, n, before, last);
    }
  }

  // --- the results, for every run

  /** The queue never exceeds a positive bound. */
  lemma QueueBounded(max: nat, n: nat, steps: seq<Step>, s: State)
    requires n > 0 && Reaches(max, n, steps, s)
    ensures max > 0 ==> |s.q.jobs| <= max
  {
    ReachableInv(max, n, steps, s);
  }

  /** No wakeup is lost: never are all workers asleep with a job queued and no notification on its way. */
  lemma NoLostWakeup(max: nat, n: nat, steps: seq<Step>, s: State)
    requires n > 0 && Reaches(max, n, steps, s) && s.q.jobs != []
    requires forall w | w in s.workers :: w == Waiting
    ensures s.notifyOne > 0 || s.notifyAll > 0
  {
    ReachableInv(max, n, steps, s);
    assert s.workers[0] in s.workers;
  }

  /** Jobs leave in the order they were accepted, and each that left is in one worker's hands or has run once. */
  lemma FifoOnce(max: nat, n: nat, steps: seq<Step>, s: State)
    requires n > 0 && Reaches(max, n, steps, s)
    ensures s.accepted == s.dequeued + s.q.jobs
    ensures multiset(s.dequeued) == s.ran + InHand(s.workers)
  {
    ReachableInv(max, n, steps, s);
  }

  /** Whether a job is accepted is decided by how many accepted jobs have not left yet, and by nothing else: always without a
      bound, and below it with one. A job that is refused leaves no trace; one that is accepted is the last of the queue and
      sets off a notification. */
  lemma AcceptsExactly(max: nat, n: nat, steps: seq<Step>, s: State, job: Job)
    requires n > 0 && Reaches(max, n, steps, s)
    ensures var t := Apply(max, s, Enqueue(job));
            && (t.accepted == s.accepted + [job] <==> max == 0 || |s.accepted| - |s.dequeued| < max)
            && if max == 0 || |s.accepted| - |s.dequeued| < max
               then
                 && t.accepted == t.dequeued + t.q.jobs && t.q.jobs == s.q.jobs + [job] && t.notifyOne == s.notifyOne + 1
                 && t.dequeued == s.dequeued && t.ran == s.ran && t.workers == s.workers && t.notifyAll == s.notifyAll
                 && t.q.shutdown == s.q.shutdown
               else t == s
  {
    ReachableInv(max, n, steps, s);
    assert |s.accepted + [job]| == |s.accepted| + 1;
  }

  /** The jobs that clients hand in, in order. */
  function HandedIn(steps: seq<Step>): seq<Job> {
    if steps == [] then []
    else HandedIn(steps[..|steps| - 1]) + if steps[|steps| - 1].Enqueue? then [steps[|steps| - 1].job] else []
  }

  /** Without a bound nothing is ever refused. */
  lemma {:induction false} UnboundedAcceptsAll(n: nat, steps: seq<Step>, s: State)
    requires n > 0 && Reaches(0, n, steps, s)
    ensures s.accepted == HandedIn(steps)
    decreases |steps|
  {
    if steps != [] {
      var init, last := steps[..|steps| - 1], steps[|steps| - 1];
      var before :| Reaches(0, n, init, before) && Enabled(before, last) && s == Apply(0, before, last);
      UnboundedAcceptsAll(n, init, before);
      if last.Enqueue? {
        AcceptsExactly(0, n, init, before, last.job);
      } else {
        OthersAcceptNothing(0, before, last);
        assert before.accepted + [] == before.accepted;
      }
    }
  }

  lemma OthersAcceptNothing(max: nat, s: State, step: Step)
    requires Enabled(s, step) && !step.Enqueue?
    ensures Apply(max, s, step).accepted == s.accepted
  {
  }

  /** With a bound nothing is refused as long as fewer jobs are handed in than it allows. */
  lemma {:induction false} FewAreAccepted(max: nat, n: nat, steps: seq<Step>, s: State)
    requires n > 0 && Reaches(max, n, steps, s) && |HandedIn(steps)| <= max
    ensures s.accepted == HandedIn(steps)
    decreases |steps|
  {
    if steps != [] {
      var init, last := steps[..|steps| - 1], steps[|steps| - 1];
      var before :| Reaches(max, n, init, before) && Enabled(before, last) && s == Apply(max, before, last);
      FewAreAccepted(max, n, init, before);
      if last.Enqueue? {
        AcceptsExactly(max, n, init, before, last.job);
      } else {
        OthersAcceptNothing(max, before, last);
        assert before.accepted + [] == before.accepted;
      }
    }
  }

  lemma {:induction false} ExitedHoldNothing(ws: seq<Worker>)
    requires AllExited(ws)
    ensures InHand(ws) == multiset{}
  {
    if ws != [] {
      assert ws[0] in ws && forall w | w in ws[1..] :: w in ws;
      ExitedHoldNothing(ws[1..]);
    }
  }

  /** Once all workers are gone: what was accepted before the last of them left has been dequeued in order and run
      exactly once, and exactly what was accepted after that is left over. */
  lemma AfterShutdown(max: nat, n: nat, steps: seq<Step>, s: State)
    requires n > 0 && Reaches(max, n, steps, s) && AllExited(s.workers)
    ensures s.accepted == s.dequeued + s.stranded && s.q.jobs == s.stranded
    ensures multiset(s.dequeued) == s.ran
    ensures s.ran == multiset(s.accepted) <==> s.stranded == []
  {
    ReachableInv(max, n, steps, s);
    ExitedHoldNothing(s.workers);
    assert multiset(s.accepted) == multiset(s.dequeued) + multiset(s.stranded);
    assert s.stranded == [] <==> |multiset(s.stranded)| == 0;
    if s.ran == multiset(s.accepted) {
      assert |multiset(s.accepted)| == |s.ran| + |multiset(s.stranded)|;
    }
  }

  /** No `Enqueue` comes after the first `BeginShutdown`. */
  ghost predicate QuietAfterShutdown(steps: seq<Step>) {
    forall i, j | 0 <= i < j < |steps| && steps[i] == BeginShutdown :: !steps[j].Enqueue?
  }

  lemma {:induction false} ShutdownWasBegun(max: nat, n: nat, steps: seq<Step>, s: State)
    requires Reaches(max, n, steps, s)
    ensures s.q.shutdown ==> BeginShutdown in steps
    decreases |steps|
  {
    if steps != [] {
      var init, last := steps[..|steps| - 1], steps[|steps| - 1];
      var before :| Reaches(max, n, init, before) && Enabled(before, last) && s == Apply(max, before, last);
      ShutdownWasBegun(max, n, init, before);
      assert steps == init + [last];
    }
  }

  lemma {:induction false} NothingStranded(max: nat, n: nat, steps: seq<Step>, s: State)
    requires n > 0 && Reaches(max, n, steps, s) && QuietAfterShutdown(steps)
    ensures s.stranded == []
    decreases |steps|
  {
    if steps != [] {
      var init, last := steps[..|steps| - 1], steps[|steps| - 1];
      var before :| Reaches(max, n, init, before) && Enabled(before, last) && s == Apply(max, before, last);
      NothingStranded(max, n, init, before);
      if last.Enqueue? {
        forall i | 0 <= i < |init| ensures init[i] != BeginShutdown {
          assert steps[i] == init[i] && steps[|steps| - 1].Enqueue?;
        }
        ShutdownWasBegun(max, n, init, before);
        ReachableInv(max, n, init, before);
        assert before.workers[0] in before.workers && before.workers[0] != Exited;
      }
    }
  }

  /** If nothing is enqueued once shutdown has begun, then when all workers are gone every accepted job has been
      dequeued first-in first-out and has run exactly once. */
  lemma ShutdownDrains(max: nat, n: nat, steps: seq<Step>, s: State)
    requires n > 0 && Reaches(max, n, steps, s) && QuietAfterShutdown(steps) && AllExited(s.workers)
    ensures s.dequeued == s.accepted && s.ran == multiset(s.accepted)
  {
    AfterShutdown(max, n, steps, s);
    NothingStranded(max, n, steps, s);
    assert s.dequeued + [] == s.dequeued;
  }

  /** Shutdown begins, the only worker leaves, a job comes. */
  lemma LateRun(job: Job) returns (s1: State, s2: State, s3: State)
    ensures Enabled(Init(1), BeginShutdown) && s1 == Apply(0, Init(1), BeginShutdown)
    ensures Enabled(s1, Check(0)) && s2 == Apply(0, s1, Check(0))
    ensures Enabled(s2, Enqueue(job)) && s3 == Apply(0, s2, Enqueue(job))
    ensures AllExited(s3.workers) && s3.accepted == [job] && s3.dequeued == []
  {
    s1 := Apply(0, Init(1), BeginShutdown);
    assert s1.workers == [Checking];
    s2 := Apply(0, s1, Check(0));
    s3 := Apply(0, s2, Enqueue(job));
    assert s3.workers == [Exited];
  }

  /** `enqueue` does not look at the shutdown flag: a job accepted after the last worker left never runs. */
  lemma LateJobIsStranded(job: Job)
    ensures exists steps, s :: Reaches(0, 1, steps, s) && AllExited(s.workers) && s.accepted == [job] && s.dequeued == []
  {
    assert Reaches(0, 1, [], Init(1));
    hide Reaches, Apply, Enabled, AllExited;
    var s1, s2, s3 := LateRun(job);
    ReachesStep(0, 1, [], Init(1), BeginShutdown);
    ReachesStep(0, 1, [] + [BeginShutdown], s1, Check(0));
    ReachesStep(0, 1, [] + [BeginShutdown] + [Check(0)], s2, Enqueue(job));
  }

  // --- progress

  /** The pool's own steps: no client, no spurious wakeup. */
  predicate Internal(step: Step) {
    step.NotifyOne? || step.NotifyNobody? || step.NotifyAll? || step.Check? || step.Finish?
  }

  function Weight(w: Worker): nat {
    match w
    case Checking => 1
    case Running(_) => 2
    case _ => 0
  }

  function Weights(ws: seq<Worker>): nat {
    if ws == [] then 0 else Weight(ws[0]) + Weights(ws[1..])
  }

  function Rank(s: State): nat {
    2 * |s.q.jobs| + 2 * s.notifyOne + (|s.workers| + 1) * s.notifyAll + Weights(s.workers)
  }

  lemma {:induction false} WeightsUpdate(ws: seq<Worker>, i: nat, w: Worker)
    requires i < |ws|
    ensures Weights(ws[i := w]) == Weights(ws) - Weight(ws[i]) + Weight(w)
    decreases |ws|
  {
    if i == 0 {
      assert ws[i := w][1..] == ws[1..];
    } else {
      WeightsUpdate(ws[1..], i - 1, w);
      assert ws[i := w][1..] == ws[1..][i - 1 := w];
    }
  }

  lemma {:induction false} WakeAllWeights(ws: seq<Worker>)
    ensures Weights(WakeAll(ws)) <= Weights(ws) + |ws|
  {
    if ws != [] {
      WakeAllWeights(ws[1..]);
      assert WakeAll(ws)[1..] == WakeAll(ws[1..]);
    }
  }

  /** Every step of the pool's own uses something up, so it cannot go on for ever by itself. */
  lemma InternalStepsEnd(max: nat, s: State, step: Step)
    requires Enabled(s, step) && Internal(step)
    ensures Rank(Apply(max, s, step)) < Rank(s)
  {
    var s' := Apply(max, s, step);
    match step {
      case NotifyOne(w) => WeightsUpdate(s.workers, w, Checking);
      case NotifyNobody =>
      case NotifyAll =>
        WakeAllWeights(s.workers);
        assert (|s.workers| + 1) * (s.notifyAll - 1) == (|s.workers| + 1) * s.notifyAll - (|s.workers| + 1);
      case Check(w) => WeightsUpdate(s.workers, w, s'.workers[w]);
      case Finish(w) => WeightsUpdate(s.workers, w, Checking);
    }
  }

  /** And it stops only when the work is done: when none of its own steps can be taken, either shutdown has begun
      and all workers are gone, or the queue is empty, all workers wait and every accepted job has run. */
  lemma SettledMeansDone(max: nat, n: nat, steps: seq<Step>, s: State)
    requires n > 0 && Reaches(max, n, steps, s)
    requires forall step | Enabled(s, step) :: !Internal(step)
    ensures if s.q.shutdown then AllExited(s.workers)
            else s.q.jobs == [] && (forall w | w in s.workers :: w == Waiting) && s.ran == multiset(s.accepted)
  {
    ReachableInv(max, n, steps, s);
    hide Reaches, InHand, Apply;
    Settled(s);
    if Waiting in s.workers {
      assert Asleep(s.workers);
    } else {
      assert s.workers[0] in s.workers;
    }
    if !s.q.shutdown {
      IdleHoldNothing(s.workers);
      assert s.dequeued + [] == s.dequeued;
    }
  }

  /** Nothing of the pool's own can happen: every worker waits or is gone, and no notification finds anybody. */
  lemma Settled(s: State)
    requires forall step | Enabled(s, step) :: !Internal(step)
    ensures forall w | w in s.workers :: w in {Waiting, Exited}
    ensures s.notifyAll == 0 && (Waiting in s.workers ==> s.notifyOne == 0)
  {
    forall w | w in s.workers ensures w in {Waiting, Exited} {
      var i :| 0 <= i < |s.workers| && s.workers[i] == w;
      assert !Enabled(s, Check(i)) && !Enabled(s, Finish(i));
    }
    assert !Enabled(s, NotifyAll);
    if Waiting in s.workers {
      var i :| 0 <= i < |s.workers| && s.workers[i] == Waiting;
      assert !Enabled(s, NotifyOne(i));
    }
  }

  lemma {:induction false} IdleHoldNothing(ws: seq<Worker>)
    requires forall w | w in ws :: w == Waiting
    ensures InHand(ws) == multiset{}
  {
    if ws != [] {
      assert ws[0] in ws && forall w | w in ws[1..] :: w in ws;
      IdleHoldNothing(ws[1..]);
    }
  }
}
