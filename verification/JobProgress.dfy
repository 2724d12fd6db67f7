/** The job queue never stalls: left alone it does all the work its workers can do, and once closed it
    stops every worker. */
module JobProgress {
  import opened JobQueue
  import opened MapSums

  /** Steps the queue itself still owes: a pass, a finished job or a notification. */
  predicate Owed(a: Action) { a.Pass? || a.Served? || a.NotifyPush? || a.NotifyClose? }

  ghost predicate Drained(s: State) {
    if s.closed then forall w :: w in s.workers ==> s.workers[w].pc.Stopped?
    else forall w, k :: w in s.workers && !s.workers[w].pc.Stopped? && 0 <= k < |s.jobs| ==>
           s.jobs[k].detect && !s.workers[w].canDetect
  }

  /** When nothing is owed any more, a closed queue has stopped every worker, so joining them
      returns, and an open one holds only jobs that none of its workers can run. */
  lemma IdleMeansDrained(states: seq<State>, actions: seq<Action>, i: nat)
    requires IsRun(states, actions) && i < |states|
    requires forall a :: Owed(a) ==> !Enabled(states[i], a)
    ensures Drained(states[i])
  {
    var s := states[i];
    RunInv(states, actions, i);
    forall w | w in s.workers ensures s.workers[w].pc.Sleeping? || s.workers[w].pc.Stopped? {
      assert !Enabled(s, Pass(w)) && !Enabled(s, Served(w));
    }
    forall p | p in s.pushers ensures !s.pushers[p].Notifying? { assert !Enabled(s, NotifyPush(p)); }
    forall c | c in s.closers ensures !s.closers[c].Notifying? { assert !Enabled(s, NotifyClose(c)); }
    forall w | w in s.workers && s.workers[w].pc.Sleeping? ensures !Needed(s, w) {}
  }

  // ---- Work left ----

  /** How many steps a worker owes. */
  function PcWork(pc: WorkerPc): nat {
    match pc case Ready => 1 case Woken => 1 case Serving(_) => 2 case Sleeping => 0 case Stopped => 0
  }

  ghost function WorkersWork(workers: map<nat, Worker>): map<nat, nat> { map w | w in workers :: PcWork(workers[w].pc) }

  ghost function Notifies(callers: map<nat, Caller>): map<nat, nat> {
    map c | c in callers :: if callers[c].Notifying? then 1 else 0
  }

  ghost function Pending(s: State): nat { Total(Notifies(s.pushers)) + Total(Notifies(s.closers)) }

  ghost function Work(s: State): nat {
    Weigh(Pending(s), |s.workers|, |s.jobs|, Total(WorkersWork(s.workers)))
  }

  /** A notification may wake every worker, a queued job takes a pass and a service. */
  function Weigh(pending: nat, workers: nat, jobs: nat, owed: nat): nat { pending * (workers + 1) + 2 * jobs + owed }

  lemma NotifiesDrop(callers: map<nat, Caller>, c: nat)
    requires c in callers && callers[c].Notifying?
    ensures Total(Notifies(callers[c := Returned])) + 1 == Total(Notifies(callers))
  {
    assert Notifies(callers[c := Returned]) == Notifies(callers)[c := 0];
    TotalUpdate(Notifies(callers), c, 0);
  }

  lemma NotifyWakes(workers: map<nat, Worker>)
    ensures |NotifyAll(workers)| == |workers|
    ensures Total(WorkersWork(NotifyAll(workers))) <= Total(WorkersWork(workers)) + |workers|
  {
    var m := WorkersWork(workers);
    assert NotifyAll(workers).Keys == workers.Keys == m.Keys;
    assert |NotifyAll(workers)| == |NotifyAll(workers).Keys| && |workers| == |workers.Keys| && |m| == |m.Keys|;
    TotalRise(m, WorkersWork(NotifyAll(workers)));
  }

  lemma SetPcWork(s: State, w: nat, pc: WorkerPc)
    requires w in s.workers
    ensures |SetPc(s, w, pc)| == |s.workers|
    ensures Total(WorkersWork(SetPc(s, w, pc))) + PcWork(s.workers[w].pc) == Total(WorkersWork(s.workers)) + PcWork(pc)
  {
    assert SetPc(s, w, pc).Keys == s.workers.Keys;
    assert |SetPc(s, w, pc)| == |SetPc(s, w, pc).Keys|;
    assert WorkersWork(SetPc(s, w, pc)) == WorkersWork(s.workers)[w := PcWork(pc)];
    TotalUpdate(WorkersWork(s.workers), w, PcWork(pc));
  }

  lemma NotifyPays(pending: nat, workers: nat, jobs: nat, woken: nat, owed: nat)
    requires woken <= owed + workers
    ensures Weigh(pending, workers, jobs, woken) < Weigh(pending + 1, workers, jobs, owed)
  {
    assert (pending + 1) * (workers + 1) == pending * (workers + 1) + (workers + 1);
  }

  lemma NotifyWork(s: State, s': State)
    requires Pending(s') + 1 == Pending(s) && s'.workers == NotifyAll(s.workers) && s'.jobs == s.jobs
    ensures Work(s') < Work(s)
  {
    NotifyWakes(s.workers);
    NotifyPays(Pending(s'), |s.workers|, |s.jobs|, Total(WorkersWork(s'.workers)), Total(WorkersWork(s.workers)));
  }

  /** A worker moves on, perhaps taking a job. */
  lemma WorkerWork(s: State, s': State, w: nat, pc: WorkerPc)
    requires w in s.workers && s'.workers == SetPc(s, w, pc) && Pending(s') == Pending(s)
    requires 2 * |s'.jobs| + PcWork(pc) < 2 * |s.jobs| + PcWork(s.workers[w].pc)
    ensures Work(s') < Work(s)
  {
    SetPcWork(s, w, pc);
  }

  lemma OwedDrops(s: State, a: Action)
    requires Enabled(s, a) && Owed(a)
    ensures Work(Next(s, a)) < Work(s)
  {
    var s' := Next(s, a);
    match a
    case Pass(w) => WorkerWork(s, s', w, s'.workers[w].pc);
    case Served(w) => WorkerWork(s, s', w, Ready);
    case NotifyPush(p) =>
      NotifiesDrop(s.pushers, p);
      NotifyWork(s, s');
    case NotifyClose(c) =>
      NotifiesDrop(s.closers, c);
      NotifyWork(s, s');
  }

  /** With no new push, spawn, close or spurious wake-up, at most `Work` more steps are taken. Where
      they end, a queue that was closed has stopped every worker, and an open one holds only jobs
      that none of its workers can run. */
  lemma {:induction false} QueueSettles(states: seq<State>, actions: seq<Action>, i: nat)
    requires IsRun(states, actions) && i <= |actions|
    requires forall k :: i <= k < |actions| ==> Owed(actions[k])
    ensures |actions| - i <= Work(states[i]) && (states[i].closed ==> states[|actions|].closed)
    ensures (forall a :: Owed(a) ==> !Enabled(states[|actions|], a)) ==> Drained(states[|actions|])
    decreases |actions| - i
  {
    if i < |actions| {
      QueueSettles(states, actions, i + 1);
      OwedDrops(states[i], actions[i]);
    } else if forall a :: Owed(a) ==> !Enabled(states[i], a) {
      IdleMeansDrained(states, actions, i);
    }
  }
}
