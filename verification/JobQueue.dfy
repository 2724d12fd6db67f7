/** The NPU job queue of crates/rkvm-vision/src/npu.rs: its critical sections as a class, and the
    protocol of pushers, workers, condition variable and shutdown as a transition system over them. */
module JobQueue {
  /** A queued inference; `detect` tells detection jobs from recognition jobs. */
  datatype Job = Job(id: nat, detect: bool)

  predicate Runnable(job: Job, canDetect: bool) { canDetect || !job.detect }

  predicate HasRunnable(jobs: seq<Job>, canDetect: bool) {
    exists i :: 0 <= i < |jobs| && Runnable(jobs[i], canDetect)
  }

  /** The place of the oldest job the worker can run, or the queue's length. */
  function FirstRunnable(jobs: seq<Job>, canDetect: bool): (i: nat)
    ensures i <= |jobs|
    ensures i < |jobs| ==> Runnable(jobs[i], canDetect)
    ensures forall k :: 0 <= k < i ==> !Runnable(jobs[k], canDetect)
  {
    if jobs == [] then 0
    else if Runnable(jobs[0], canDetect) then 0
    else 1 + FirstRunnable(jobs[1..], canDetect)
  }

  function Without(jobs: seq<Job>, i: nat): seq<Job>
    requires i < |jobs|
  {
    jobs[..i] + jobs[i + 1..]
  }

  /** What one pass of the loop in `take` decides while it holds the mutex. */
  datatype Scan = Closed | Took(job: Job) | MustWait

  function ScanOf(jobs: seq<Job>, closed: bool, canDetect: bool): Scan {
    if closed then Closed
    else
      var i := FirstRunnable(jobs, canDetect);
      if i < |jobs| then Took(jobs[i]) else MustWait
  }

  function AfterScan(jobs: seq<Job>, closed: bool, canDetect: bool): seq<Job> {
    var i := FirstRunnable(jobs, canDetect);
    if closed || i == |jobs| then jobs else Without(jobs, i)
  }

  /** The state behind the mutex. */
  class Queue {
    var jobs: seq<Job>
    var closed: bool

    constructor ()
      ensures jobs == [] && !closed
    {
      jobs, closed := [], false;
    }

    method Push(job: Job) returns (ok: bool)
      modifies this`jobs
      ensures ok == !closed
      ensures jobs == if ok then old(jobs) + [job] else old(jobs)
    {
      if closed { return false; }
      jobs := jobs + [job];
      return true;
    }

    /** One pass of the loop in `take`: the oldest job this worker can run leaves the queue. */
    method TakeOrWait(canDetect: bool) returns (r: Scan)
      modifies this`jobs
      ensures r == ScanOf(old(jobs), closed, canDetect)
      ensures jobs == AfterScan(old(jobs), closed, canDetect)
    {
      if closed { return Closed; }
      var i := 0;
      while i < |jobs| && !Runnable(jobs[i], canDetect)
        invariant 0 <= i <= |jobs|
        invariant forall k :: 0 <= k < i ==> !Runnable(jobs[k], canDetect)
        invariant jobs == old(jobs)
      {
        i := i + 1;
      }
      assert i == FirstRunnable(jobs, canDetect);
      if i == |jobs| { return MustWait; }
      r := Took(jobs[i]);
      jobs := jobs[..i] + jobs[i + 1..];
    }

    method Close()
      modifies this`closed
      ensures closed
    {
      closed := true;
    }
  }

  // ---- The protocol ----

  /** `Ready` is about to lock the queue, `Sleeping` waits on the condition variable without having
      been notified, `Woken` was notified (or woke spuriously) and will lock it again. */
  datatype WorkerPc = Ready | Sleeping | Woken | Serving(job: Job) | Stopped
  datatype Worker = Worker(canDetect: bool, pc: WorkerPc)

  /** A push or close between leaving its critical section and finishing `notify_all`. */
  datatype Caller = Notifying | Returned

  /** `pushed` and `taken` are the histories of accepted pushes and of handed-out jobs. */
  datatype State = State(
    jobs: seq<Job>, closed: bool, workers: map<nat, Worker>,
    pushers: map<nat, Caller>, closers: map<nat, Caller>,
    pushed: seq<Job>, taken: seq<(nat, Job)>)

  datatype Action =
    | Spawn(w: nat, canDetect: bool)
    | PushJob(p: nat, detect: bool)      // the job is known by its pusher
    | NotifyPush(p: nat)
    | CloseQueue(c: nat)
    | NotifyClose(c: nat)
    | Pass(w: nat)                       // one pass of `take`
    | WakeUp(w: nat)                     // a spurious wake-up
    | Served(w: nat)

  const INIT := State([], false, map[], map[], map[], [], [])

  predicate Enabled(s: State, a: Action) {
    match a
    case Spawn(w, _) => w !in s.workers
    case PushJob(p, _) => p !in s.pushers
    case NotifyPush(p) => p in s.pushers && s.pushers[p].Notifying?
    case CloseQueue(c) => c !in s.closers
    case NotifyClose(c) => c in s.closers && s.closers[c].Notifying?
    case Pass(w) => w in s.workers && (s.workers[w].pc.Ready? || s.workers[w].pc.Woken?)
    case WakeUp(w) => w in s.workers && s.workers[w].pc.Sleeping?
    case Served(w) => w in s.workers && s.workers[w].pc.Serving?
  }

  function NotifyAll(workers: map<nat, Worker>): map<nat, Worker> {
    map w | w in workers :: if workers[w].pc.Sleeping? then workers[w].(pc := Woken) else workers[w]
  }

  function SetPc(s: State, w: nat, pc: WorkerPc): map<nat, Worker>
    requires w in s.workers
  {
    s.workers[w := s.workers[w].(pc := pc)]
  }

  function PassOf(s: State, w: nat): State
    requires w in s.workers
  {
    var can := s.workers[w].canDetect;
    match ScanOf(s.jobs, s.closed, can)
    case Closed => s.(workers := SetPc(s, w, Stopped))
    case MustWait => s.(workers := SetPc(s, w, Sleeping))
    case Took(job) =>
      s.(workers := SetPc(s, w, Serving(job)), jobs := AfterScan(s.jobs, s.closed, can),
         taken := s.taken + [(w, job)])
  }

  function Next(s: State, a: Action): State
    requires Enabled(s, a)
  {
    match a
    case Spawn(w, canDetect) => s.(workers := s.workers[w := Worker(canDetect, Ready)])
    case PushJob(p, detect) =>
      if s.closed then s.(pushers := s.pushers[p := Returned])
      else s.(pushers := s.pushers[p := Notifying], jobs := s.jobs + [Job(p, detect)],
              pushed := s.pushed + [Job(p, detect)])
    case NotifyPush(p) => s.(pushers := s.pushers[p := Returned], workers := NotifyAll(s.workers))
    case CloseQueue(c) => s.(closers := s.closers[c := Notifying], closed := true)
    case NotifyClose(c) => s.(closers := s.closers[c := Returned], workers := NotifyAll(s.workers))
    case Pass(w) => PassOf(s, w)
    case WakeUp(w) => s.(workers := SetPc(s, w, Woken))
    case Served(w) => s.(workers := SetPc(s, w, Ready))
  }

  ghost predicate IsRun(states: seq<State>, actions: seq<Action>) {
    && |states| == |actions| + 1
    && states[0] == INIT
    && forall i :: 0 <= i < |actions| ==>
         Enabled(states[i], actions[i]) && states[i + 1] == Next(states[i], actions[i])
  }

  // ---- The invariant ----

  function OfKind(jobs: seq<Job>, detect: bool): seq<Job> {
    if jobs == [] then []
    else (if jobs[0].detect == detect then [jobs[0]] else []) + OfKind(jobs[1..], detect)
  }

  function JobsTaken(taken: seq<(nat, Job)>): (r: seq<Job>)
    ensures |r| == |taken| && forall i :: 0 <= i < |r| ==> r[i] == taken[i].1
  {
    seq(|taken|, i requires 0 <= i < |taken| => taken[i].1)
  }

  /** Somebody has left its critical section and is about to call `notify_all`. */
  ghost predicate NotifyPending(s: State) {
    || (exists p :: p in s.pushers && s.pushers[p].Notifying?)
    || (exists c :: c in s.closers && s.closers[c].Notifying?)
  }

  /** The worker would find something to do. */
  ghost predicate Needed(s: State, w: nat)
    requires w in s.workers
  {
    s.closed || HasRunnable(s.jobs, s.workers[w].canDetect)
  }

  /** No wake-up is lost: a worker sleeps on with something to do only while a notify is coming. */
  ghost predicate WakeInv(s: State) {
    forall w :: w in s.workers && s.workers[w].pc.Sleeping? && Needed(s, w) ==> NotifyPending(s)
  }

  /** Per kind, the jobs handed out are the oldest accepted ones, in push order, and the queue holds
      the rest; every hand-out went to a worker able to run it. */
  ghost predicate FifoInv(s: State) {
    && (forall kind :: InOrder(s.pushed, JobsTaken(s.taken), s.jobs, kind))
    && multiset(s.pushed) == multiset(JobsTaken(s.taken)) + multiset(s.jobs)
  }

  ghost predicate InOrder(pushed: seq<Job>, taken: seq<Job>, jobs: seq<Job>, kind: bool) {
    OfKind(pushed, kind) == OfKind(taken, kind) + OfKind(jobs, kind)
  }

  ghost predicate HandoutInv(s: State) {
    && (forall i :: 0 <= i < |s.pushed| ==> s.pushed[i].id in s.pushers)
    && (forall i, j :: 0 <= i < j < |s.pushed| ==> s.pushed[i].id != s.pushed[j].id)
    && (forall i :: 0 <= i < |s.taken| ==>
          s.taken[i].0 in s.workers && Runnable(s.taken[i].1, s.workers[s.taken[i].0].canDetect))
  }

  ghost predicate Inv(s: State) { WakeInv(s) && FifoInv(s) && HandoutInv(s) }

  lemma {:induction false} OfKindConcat(a: seq<Job>, b: seq<Job>, kind: bool)
    ensures OfKind(a + b, kind) == OfKind(a, kind) + OfKind(b, kind)
  {
    if a == [] {
      assert a + b == b;
    } else {
      assert (a + b)[1..] == a[1..] + b;
      OfKindConcat(a[1..], b, kind);
    }
  }

  lemma {:induction false} OfKindNone(a: seq<Job>, kind: bool)
    requires forall i :: 0 <= i < |a| ==> a[i].detect != kind
    ensures OfKind(a, kind) == []
  {
    if a != [] { OfKindNone(a[1..], kind); }
  }

  /** Taking a job out of the middle of the queue takes it out of the jobs of its kind. */
  lemma OfKindSplit(front: seq<Job>, job: Job, back: seq<Job>, kind: bool)
    ensures OfKind(front + [job] + back, kind) == OfKind(front, kind) + OfKind([job], kind) + OfKind(back, kind)
    ensures OfKind(front + back, kind) == OfKind(front, kind) + OfKind(back, kind)
  {
    OfKindConcat(front + [job], back, kind);
    OfKindConcat(front, [job], kind);
    OfKindConcat(front, back, kind);
  }

  /** The job a worker takes is the oldest of its own kind. */
  lemma TakesOldestOfKind(jobs: seq<Job>, can: bool, kind: bool)
    requires FirstRunnable(jobs, can) < |jobs|
    ensures var i := FirstRunnable(jobs, can);
            OfKind(jobs, kind) == OfKind([jobs[i]], kind) + OfKind(Without(jobs, i), kind)
  {
    OldestOfKindAt(jobs, FirstRunnable(jobs, can), kind);
  }

  lemma OldestOfKindAt(jobs: seq<Job>, i: nat, kind: bool)
    requires i < |jobs| && forall k :: 0 <= k < i ==> jobs[k].detect != jobs[i].detect
    ensures OfKind(jobs, kind) == OfKind([jobs[i]], kind) + OfKind(Without(jobs, i), kind)
  {
    var front, job, back := jobs[..i], jobs[i], jobs[i + 1..];
    assert jobs == front + [job] + back;
    OfKindSplit(front, job, back, kind);
    if job.detect == kind {
      OfKindNone(front, kind);
    } else {
      OfKindNone([job], kind);
      assert OfKind(front, kind) + [] == OfKind(front, kind);
    }
  }

  lemma PushInOrder(pushed: seq<Job>, taken: seq<Job>, jobs: seq<Job>, job: Job, kind: bool)
    requires InOrder(pushed, taken, jobs, kind)
    ensures InOrder(pushed + [job], taken, jobs + [job], kind)
  {
    OfKindConcat(pushed, [job], kind);
    OfKindConcat(jobs, [job], kind);
  }

  lemma TakeInOrder(pushed: seq<Job>, taken: seq<Job>, jobs: seq<Job>, can: bool, kind: bool)
    requires InOrder(pushed, taken, jobs, kind) && FirstRunnable(jobs, can) < |jobs|
    ensures var i := FirstRunnable(jobs, can); InOrder(pushed, taken + [jobs[i]], Without(jobs, i), kind)
  {
    TakesOldestOfKind(jobs, can, kind);
    OfKindConcat(taken, [jobs[FirstRunnable(jobs, can)]], kind);
  }

  lemma FifoPush(s: State, p: nat, detect: bool)
    requires FifoInv(s) && Enabled(s, PushJob(p, detect)) && !s.closed
    ensures FifoInv(Next(s, PushJob(p, detect)))
  {
    forall kind ensures InOrder(s.pushed + [Job(p, detect)], JobsTaken(s.taken), s.jobs + [Job(p, detect)], kind) {
      PushInOrder(s.pushed, JobsTaken(s.taken), s.jobs, Job(p, detect), kind);
    }
  }

  lemma FifoTake(s: State, w: nat)
    requires FifoInv(s) && w in s.workers && !s.closed
    requires FirstRunnable(s.jobs, s.workers[w].canDetect) < |s.jobs|
    ensures FifoInv(PassOf(s, w))
  {
    var can := s.workers[w].canDetect;
    var i := FirstRunnable(s.jobs, can);
    var job := s.jobs[i];
    assert JobsTaken(s.taken + [(w, job)]) == JobsTaken(s.taken) + [job];
    forall kind ensures InOrder(s.pushed, JobsTaken(s.taken + [(w, job)]), Without(s.jobs, i), kind) {
      TakeInOrder(s.pushed, JobsTaken(s.taken), s.jobs, can, kind);
    }
    assert s.jobs == s.jobs[..i] + [job] + s.jobs[i + 1..];
  }

  lemma FifoStep(s: State, a: Action)
    requires FifoInv(s) && Enabled(s, a)
    ensures FifoInv(Next(s, a))
  {
    match a
    case PushJob(p, detect) => if !s.closed { FifoPush(s, p, detect); }
    case Pass(w) =>
      if ScanOf(s.jobs, s.closed, s.workers[w].canDetect).Took? { FifoTake(s, w); }
    case _ =>
  }

  lemma HandoutStep(s: State, a: Action)
    requires HandoutInv(s) && Enabled(s, a)
    ensures HandoutInv(Next(s, a))
  {
  }

  /** Taking a job gives no other worker something new to do. */
  lemma ScanKeepsIdle(jobs: seq<Job>, closed: bool, can: bool, other: bool)
    requires HasRunnable(AfterScan(jobs, closed, can), other)
    ensures HasRunnable(jobs, other)
  {
    var rest := AfterScan(jobs, closed, can);
    var k :| 0 <= k < |rest| && Runnable(rest[k], other);
    assert rest[k] in jobs;
  }

  lemma WakePass(s: State, w: nat)
    requires WakeInv(s) && Enabled(s, Pass(w))
    ensures WakeInv(PassOf(s, w))
  {
    var s' := PassOf(s, w);
    assert s'.pushers == s.pushers && s'.closers == s.closers && s'.closed == s.closed;
    forall v | v in s'.workers && s'.workers[v].pc.Sleeping? && Needed(s', v) ensures NotifyPending(s') {
      if v != w && HasRunnable(s'.jobs, s'.workers[v].canDetect) {
        ScanKeepsIdle(s.jobs, s.closed, s.workers[w].canDetect, s'.workers[v].canDetect);
        assert Needed(s, v);
      }
    }
  }

  lemma WakeStep(s: State, a: Action)
    requires WakeInv(s) && Enabled(s, a)
    ensures WakeInv(Next(s, a))
  {
    var s' := Next(s, a);
    match a
    case Pass(w) => WakePass(s, w);
    case PushJob(p, _) =>
      if !s.closed { assert s'.pushers[p].Notifying?; }
      else if NotifyPending(s) { assert NotifyPending(s') by { PendingKept(s, s'); } }
    case CloseQueue(c) => assert s'.closers[c].Notifying?;
    case _ =>
  }

  lemma PendingKept(s: State, s': State)
    requires NotifyPending(s)
    requires forall p :: p in s.pushers ==> p in s'.pushers && s'.pushers[p] == s.pushers[p]
    requires s'.closers == s.closers
    ensures NotifyPending(s')
  {
    if p :| p in s.pushers && s.pushers[p].Notifying? { assert s'.pushers[p].Notifying?; }
  }

  lemma {:induction false} RunInv(states: seq<State>, actions: seq<Action>, i: nat)
    requires IsRun(states, actions) && i < |states|
    ensures Inv(states[i])
  {
    if i > 0 {
      RunInv(states, actions, i - 1);
      WakeStep(states[i - 1], actions[i - 1]);
      FifoStep(states[i - 1], actions[i - 1]);
      HandoutStep(states[i - 1], actions[i - 1]);
    }
  }

  // ---- What every run guarantees ----

  /** Each accepted job is in the queue or went to exactly one worker, one able to run it. */
  lemma EachJobOnce(states: seq<State>, actions: seq<Action>, i: nat)
    requires IsRun(states, actions) && i < |states|
    ensures var s := states[i];
            && multiset(s.pushed) == multiset(JobsTaken(s.taken)) + multiset(s.jobs)
            && (forall j, k :: 0 <= j < k < |s.taken| ==> s.taken[j].1 != s.taken[k].1)
            && (forall j :: 0 <= j < |s.taken| ==> s.taken[j].1 !in s.jobs)
            && (forall j :: 0 <= j < |s.taken| ==>
                  s.taken[j].0 in s.workers && (s.taken[j].1.detect ==> s.workers[s.taken[j].0].canDetect))
  {
    var s := states[i];
    RunInv(states, actions, i);
    NoRepeats(s.pushed);
    var t := JobsTaken(s.taken);
    forall j | 0 <= j < |t| ensures t[j] !in s.jobs {
      assert t[j] in multiset(t);
      assert multiset(s.pushed)[t[j]] <= 1;
    }
    forall j, k | 0 <= j < k < |t| ensures t[j] != t[k] {
      assert t == t[..k] + t[k..] && t[j] in multiset(t[..k]) && t[k] in multiset(t[k..]);
      assert multiset(s.pushed)[t[k]] <= 1;
    }
  }

  lemma {:induction false} NoRepeats(jobs: seq<Job>)
    requires forall i, j :: 0 <= i < j < |jobs| ==> jobs[i].id != jobs[j].id
    ensures forall job :: multiset(jobs)[job] <= 1
  {
    if jobs != [] {
      NoRepeats(jobs[1..]);
      assert jobs == [jobs[0]] + jobs[1..];
      assert jobs[0] !in jobs[1..];
    }
  }

  /** Jobs of each kind are handed out in the order they were pushed. */
  lemma HandedOutInOrder(states: seq<State>, actions: seq<Action>, i: nat, kind: bool)
    requires IsRun(states, actions) && i < |states|
    ensures OfKind(JobsTaken(states[i].taken), kind) <= OfKind(states[i].pushed, kind)
  {
    RunInv(states, actions, i);
    assert InOrder(states[i].pushed, JobsTaken(states[i].taken), states[i].jobs, kind);
  }

  /** Once the queue has closed it stays closed, accepts no job and hands none out, whatever it holds. */
  lemma {:induction false} ClosedStandsStill(states: seq<State>, actions: seq<Action>, i: nat, j: nat)
    requires IsRun(states, actions) && i <= j < |states| && states[i].closed
    ensures states[j].closed && states[j].pushed == states[i].pushed
    ensures states[j].taken == states[i].taken && states[j].jobs == states[i].jobs
  {
    if i < j {
      ClosedStandsStill(states, actions, i, j - 1);
      assert states[j] == Next(states[j - 1], actions[j - 1]);
    }
  }

  /** A worker left alone with work: it sleeps, un-notified, although a queued job is its to run or
      the queue has closed. That happens only while some push or close has yet to notify. */
  lemma NoLostWakeup(states: seq<State>, actions: seq<Action>, i: nat, w: nat)
    requires IsRun(states, actions) && i < |states|
    requires w in states[i].workers && states[i].workers[w].pc.Sleeping?
    requires var (jobs, can) := (states[i].jobs, states[i].workers[w].canDetect);
             states[i].closed || exists k :: 0 <= k < |jobs| && (can || !jobs[k].detect)
    ensures NotifyPending(states[i])
  {
    RunInv(states, actions, i);
    assert forall k :: 0 <= k < |states[i].jobs| && (states[i].workers[w].canDetect || !states[i].jobs[k].detect) ==>
                         Runnable(states[i].jobs[k], states[i].workers[w].canDetect);
    assert Needed(states[i], w);
  }
}
