/** What the relock watch guarantees over whole runs. */
module RelockRuns {
  import opened Arith
  import opened Clock
  import opened Options
  import opened Relock

  /** The watch after the first `i` observations, and what it said to observation `i`. */
  ghost function StateAt(obs: seq<Observation>, i: nat): State
    requires i <= |obs|
  {
    if i == 0 then INIT else Decide(StateAt(obs, i - 1), obs[i - 1]).0
  }

  ghost function VerdictAt(obs: seq<Observation>, i: nat): Verdict
    requires i < |obs|
  {
    Decide(StateAt(obs, i), obs[i]).1
  }

  /** The clock does not run backwards. */
  ghost predicate InTime(obs: seq<Observation>) { forall i, j :: 0 <= i <= j < |obs| ==> obs[i].now <= obs[j].now }

  // ---- What is counted ----

  /** The first observation after the latest replug before `i`. */
  ghost function CountFrom(obs: seq<Observation>, i: nat): (lo: nat)
    requires i <= |obs|
    ensures lo <= i
  {
    if i == 0 then 0 else if VerdictAt(obs, i - 1).Replug? then i else CountFrom(obs, i - 1)
  }

  /** Events of the observations `lo..hi` no older than the window at `now`. */
  ghost function WindowEvents(obs: seq<Observation>, lo: nat, hi: nat, now: Instant): nat
    requires hi <= |obs|
  {
    if hi <= lo then 0
    else WindowEvents(obs, lo, hi - 1, now) + if Since(now, obs[hi - 1].now) <= 10 * SEC then obs[hi - 1].events else 0
  }

  /** Those observations themselves. */
  ghost function Fresh(obs: seq<Observation>, lo: nat, hi: nat, now: Instant): seq<Observation>
    requires hi <= |obs|
  {
    if hi <= lo then []
    else
      var o := obs[hi - 1];
      Fresh(obs, lo, hi - 1, now) + if o.events > 0 && Since(now, o.now) <= WINDOW then [o] else []
  }

  lemma {:induction false} FreshTotal(obs: seq<Observation>, lo: nat, hi: nat, now: Instant)
    requires hi <= |obs|
    ensures Total(Fresh(obs, lo, hi, now)) == WindowEvents(obs, lo, hi, now)
  {
    if hi > lo {
      FreshTotal(obs, lo, hi - 1, now);
      var f := Fresh(obs, lo, hi - 1, now);
      assert (f + [obs[hi - 1]])[..|f|] == f && f + [] == f;
    }
  }

  /** Pruning keeps a newest observation that is fresh, and drops everything behind a stale one. */
  lemma {:induction false} PrunedAppend(a: seq<Observation>, o: Observation, now: Instant)
    requires forall k :: 0 <= k < |a| ==> a[k].now <= o.now
    ensures Pruned(a + [o], now) == if Since(now, o.now) <= WINDOW then Pruned(a, now) + [o] else []
  {
    if a == [] {
      assert a + [o] == [o] && [o][1..] == [];
    } else {
      assert (a + [o])[0] == a[0] && (a + [o])[1..] == a[1..] + [o];
      if Since(now, a[0].now) > WINDOW { PrunedAppend(a[1..], o, now); }
    }
  }

  lemma {:induction false} FreshOlder(obs: seq<Observation>, lo: nat, hi: nat, now: Instant, t: Instant)
    requires hi <= |obs| && InTime(obs) && (hi < |obs| ==> obs[hi].now >= t) && (hi > 0 ==> obs[hi - 1].now <= t)
    ensures forall k :: 0 <= k < |Fresh(obs, lo, hi, now)| ==> Fresh(obs, lo, hi, now)[k].now <= t
  {
    if hi > lo {
      FreshOlder(obs, lo, hi - 1, now, obs[hi - 1].now);
    }
  }

  lemma {:induction false} FreshStale(obs: seq<Observation>, lo: nat, hi: nat, now: Instant)
    requires hi <= |obs| && InTime(obs) && hi > 0 && Since(now, obs[hi - 1].now) > WINDOW
    ensures Fresh(obs, lo, hi, now) == []
  {
    if hi > lo && hi > 1 { FreshStale(obs, lo, hi - 1, now); }
  }

  predicate Counts(o: Observation, now: Instant) { o.events > 0 && Since(now, o.now) <= WINDOW }

  /** `f` with the observation, if it counts. */
  function WithCounted(f: seq<Observation>, o: Observation, now: Instant): seq<Observation> {
    if Counts(o, now) then f + [o] else f
  }

  lemma {:induction false} FreshNext(obs: seq<Observation>, lo: nat, hi: nat, now: Instant)
    requires lo < hi <= |obs|
    ensures Fresh(obs, lo, hi, now) == WithCounted(Fresh(obs, lo, hi - 1, now), obs[hi - 1], now)
  {
    var f := Fresh(obs, lo, hi - 1, now);
    assert f + [] == f;
  }

  /** One more observation, pruned later. */
  lemma {:induction false} PrunedNext(f: seq<Observation>, f': seq<Observation>, o: Observation,
                                      t: Instant, now: Instant)
    requires t <= now && Pruned(f, now) == f' && (Since(now, o.now) > WINDOW ==> f' == [])
    requires Counts(o, t) ==> forall k :: 0 <= k < |f| ==> f[k].now <= o.now
    ensures Pruned(WithCounted(f, o, t), now) == WithCounted(f', o, now)
  {
    if Counts(o, t) { PrunedAppend(f, o, now); }
  }

  /** Dropping from the front leaves exactly the observations still in the window. */
  lemma {:induction false} PrunedFresh(obs: seq<Observation>, lo: nat, hi: nat, t: Instant, now: Instant)
    requires hi <= |obs| && InTime(obs) && t <= now
    ensures Pruned(Fresh(obs, lo, hi, t), now) == Fresh(obs, lo, hi, now)
  {
    if hi > lo {
      var o := obs[hi - 1];
      PrunedFresh(obs, lo, hi - 1, t, now);
      FreshNext(obs, lo, hi, t);
      FreshNext(obs, lo, hi, now);
      if hi > 1 { FreshOlder(obs, lo, hi - 1, t, o.now); }
      if Since(now, o.now) > WINDOW { FreshStale(obs, lo, hi, now); }
      PrunedNext(Fresh(obs, lo, hi - 1, t), Fresh(obs, lo, hi - 1, now), o, t, now);
    }
  }

  /** The deque holds the counted observations. */
  lemma {:induction false} RecentIsFresh(obs: seq<Observation>, i: nat)
    requires InTime(obs) && i <= |obs|
    ensures StateAt(obs, i).recent == if i == 0 then [] else Fresh(obs, CountFrom(obs, i), i, obs[i - 1].now)
    decreases i, 0
  {
    if i > 0 {
      KeptIsFresh(obs, i - 1);
    }
  }

  lemma {:induction false} KeptIsFresh(obs: seq<Observation>, i: nat)
    requires InTime(obs) && i < |obs|
    ensures Kept(StateAt(obs, i), obs[i]) == Fresh(obs, CountFrom(obs, i), i + 1, obs[i].now)
    decreases i, 1
  {
    RecentIsFresh(obs, i);
    var lo, o, r := CountFrom(obs, i), obs[i], StateAt(obs, i).recent;
    assert Pruned(r, o.now) == Fresh(obs, lo, i, o.now) by {
      if i > 0 { PrunedFresh(obs, lo, i, obs[i - 1].now, o.now); }
    }
    if o.events > 0 {
      assert forall k :: 0 <= k < |r| ==> r[k].now <= o.now by {
        if i > 0 { FreshOlder(obs, lo, i, obs[i - 1].now, o.now); }
      }
      PrunedAppend(r, o, o.now);
    }
  }

  /** The total behind every verdict is exactly the events of the last 10 s since the previous replug;
      fewer than six are quiet, six or more are not. */
  lemma {:induction false} TotalIsWindow(obs: seq<Observation>, i: nat)
    requires InTime(obs) && i < |obs|
    ensures var n := WindowEvents(obs, CountFrom(obs, i), i + 1, obs[i].now);
            match VerdictAt(obs, i)
            case Quiet => n < THRESHOLD
            case Storm(events) => events == n >= THRESHOLD
            case Replug(events, _) => events == n >= THRESHOLD
  {
    KeptIsFresh(obs, i);
    FreshTotal(obs, CountFrom(obs, i), i + 1, obs[i].now);
  }

  // ---- Replugs are paid for ----

  ghost function Observed(obs: seq<Observation>, i: nat): nat
    requires i <= |obs|
  {
    if i == 0 then 0 else Observed(obs, i - 1) + obs[i - 1].events
  }

  ghost function ReplugCount(obs: seq<Observation>, i: nat): nat
    requires i <= |obs|
  {
    if i == 0 then 0 else ReplugCount(obs, i - 1) + if VerdictAt(obs, i - 1).Replug? then 1 else 0
  }

  lemma {:induction false} TotalConcat(a: seq<Observation>, b: seq<Observation>)
    ensures Total(a + b) == Total(a) + Total(b)
  {
    if b == [] {
      assert a + b == a;
    } else {
      assert (a + b)[..|a + b| - 1] == a + b[..|b| - 1];
      TotalConcat(a, b[..|b| - 1]);
    }
  }

  lemma {:induction false} PrunedTotal(a: seq<Observation>, now: Instant)
    ensures Total(Pruned(a, now)) <= Total(a)
  {
    if a != [] && Since(now, a[0].now) > WINDOW {
      PrunedTotal(a[1..], now);
      TotalConcat([a[0]], a[1..]);
      assert [a[0]] + a[1..] == a;
    }
  }

  lemma {:induction false} TotalAppend(a: seq<Observation>, o: Observation)
    ensures Total(a + [o]) == Total(a) + o.events
  {
    assert (a + [o])[..|a|] == a;
  }

  lemma {:induction false} KeptTotal(s: State, o: Observation)
    ensures Total(Kept(s, o)) <= Total(s.recent) + o.events
  {
    if o.events > 0 {
      TotalAppend(s.recent, o);
      PrunedTotal(s.recent + [o], o.now);
    } else {
      PrunedTotal(s.recent, o.now);
    }
  }

  /** A decision uses up six events for a replug, and never invents any. */
  lemma {:induction false} DecisionPays(s: State, o: Observation)
    ensures var (s', v) := Decide(s, o);
            Total(s'.recent) + (if v.Replug? then 6 else 0) <= Total(s.recent) + o.events
  {
    KeptTotal(s, o);
  }

  /** Six events for every replug, each counted once. */
  lemma {:induction false} SixPerReplug(obs: seq<Observation>, i: nat)
    requires i <= |obs|
    ensures 6 * ReplugCount(obs, i) + Total(StateAt(obs, i).recent) <= Observed(obs, i)
  {
    if i > 0 {
      SixPerReplug(obs, i - 1);
      DecisionPays(StateAt(obs, i - 1), obs[i - 1]);
    }
  }

  // ---- Replugs keep their distance ----

  /** When a replug happened and which attempt of its episode it was. */
  datatype Record = Record(now: Instant, attempt: nat)

  /** Consecutive replugs: the next attempt after the backoff, or a new episode after settling. */
  ghost predicate Linked(a: Record, b: Record) {
    && a.attempt >= 1
    && (|| (b.attempt == a.attempt + 1 && b.now >= a.now + Backoff(a.attempt - 1))
        || (b.attempt == 1 && b.now >= a.now + SETTLE))
  }

  ghost function Replugs(obs: seq<Observation>, n: nat): seq<Record>
    requires n <= |obs|
  {
    if n == 0 then []
    else WithReplug(Replugs(obs, n - 1), obs[n - 1], VerdictAt(obs, n - 1))
  }

  /** The watch remembers the latest replug, until it settles. */
  ghost predicate Remembers(s: State, last: Option<Record>, now: Instant) {
    if last.None? then s.lastReplug.None? && s.attempts == 0
    else
      && last.value.attempt >= 1 && last.value.now <= now
      && (|| (s.lastReplug == Some(last.value.now) && s.attempts == last.value.attempt)
          || (s.lastReplug.None? && s.attempts == 0 && now >= last.value.now + SETTLE))
  }

  lemma {:induction false} RemembersStep(s: State, last: Option<Record>, t: Instant, o: Observation)
    requires Remembers(s, last, t) && t <= o.now
    ensures var (s', v) := Decide(s, o);
            if v.Replug? then
              && Remembers(s', Some(Record(o.now, v.attempt)), o.now)
              && (if last.Some? then Linked(last.value, Record(o.now, v.attempt)) else v.attempt == 1)
            else Remembers(s', last, o.now)
  {
  }

  ghost function LastOf(l: seq<Record>): Option<Record> { if l == [] then None else Some(l[|l| - 1]) }

  /** The first replug opens an episode, and each later one is linked to the one before. */
  ghost predicate Chain(l: seq<Record>) {
    (l != [] ==> l[0].attempt == 1) && forall k :: 0 < k < |l| ==> Linked(l[k - 1], l[k])
  }

  /** The replugs so far, and the one the next observation may bring. */
  ghost function WithReplug(l: seq<Record>, o: Observation, v: Verdict): seq<Record> {
    if v.Replug? then l + [Record(o.now, v.attempt)] else l
  }

  lemma {:induction false} ChainStep(s: State, l: seq<Record>, t: Instant, o: Observation)
    requires Remembers(s, LastOf(l), t) && t <= o.now && Chain(l)
    ensures var (s', v) := Decide(s, o);
            Remembers(s', LastOf(WithReplug(l, o, v)), o.now) && Chain(WithReplug(l, o, v))
  {
    RemembersStep(s, LastOf(l), t, o);
    var v := Decide(s, o).1;
    if v.Replug? { ChainGrows(l, Record(o.now, v.attempt)); }
  }

  lemma {:induction false} ReplugsLinked(obs: seq<Observation>, n: nat)
    requires InTime(obs) && n <= |obs|
    ensures Remembers(StateAt(obs, n), LastOf(Replugs(obs, n)), if n == 0 then 0 else obs[n - 1].now)
    ensures Chain(Replugs(obs, n))
  {
    if n > 0 {
      ReplugsLinked(obs, n - 1);
      ChainStep(StateAt(obs, n - 1), Replugs(obs, n - 1), if n == 1 then 0 else obs[n - 2].now, obs[n - 1]);
    }
  }

  lemma {:induction false} ChainGrows(l: seq<Record>, r: Record)
    requires Chain(l) && (if l == [] then r.attempt == 1 else Linked(l[|l| - 1], r))
    ensures Chain(l + [r])
  {
  }

  /** Within an episode, gap `k` is at least `min(30 * 2^(k - 1), 600)` seconds; a gap that starts a
      new episode is at least the settling time. */
  lemma {:induction false} GapsGrow(obs: seq<Observation>, i: nat)
    requires InTime(obs) && i + 1 < |Replugs(obs, |obs|)|
    ensures var l := Replugs(obs, |obs|); var k := l[i].attempt;
            && k >= 1
            && (l[i + 1].attempt == k + 1 ==>
                  var d := 30 * Pow2(k - 1);
                  l[i + 1].now >= l[i].now + (if d <= 600 then d else 600) * SEC)
            && (l[i + 1].attempt != k + 1 ==> l[i + 1].attempt == 1 && l[i + 1].now >= l[i].now + SETTLE)
  {
    var l := Replugs(obs, |obs|);
    ReplugsLinked(obs, |obs|);
    assert Linked(l[(i + 1) - 1], l[i + 1]);
    BackoffFormula(l[i].attempt - 1);
  }

  lemma {:induction false} BackoffFormula(n: nat)
    ensures var d := 30 * Pow2(n); Backoff(n) == (if d <= 600 then d else 600) * SEC
  {
    assert Pow2(0) == 1 && Pow2(1) == 2 && Pow2(2) == 4;
    assert Pow2(3) == 8 && Pow2(4) == 16 && Pow2(5) == 32;
    if n >= 5 { Pow2Grows(5, n); }
  }

  lemma {:induction false} FiveSpan(r: seq<Record>)
    requires |r| == 5 && forall k :: 0 < k < 5 ==> Linked(r[k - 1], r[k])
    ensures r[4].now >= r[0].now + 420 * SEC
  {
    assert Linked(r[0], r[1]) && Linked(r[1], r[2]) && Linked(r[2], r[3]) && Linked(r[3], r[4]);
  }

  /** Any five replugs in a row span at least 420 s, across episodes too. */
  lemma {:induction false} FiveReplugsSpan(obs: seq<Observation>, i: nat)
    requires InTime(obs) && i + 4 < |Replugs(obs, |obs|)|
    ensures var l := Replugs(obs, |obs|); l[i + 4].now >= l[i].now + 420 * SEC
  {
    var l := Replugs(obs, |obs|);
    ReplugsLinked(obs, |obs|);
    var r := l[i..i + 5];
    forall k | 0 < k < 5 ensures Linked(r[k - 1], r[k]) { assert Linked(l[(i + k) - 1], l[i + k]); }
    FiveSpan(r);
  }

  // ---- Which observations replug ----

  /** The states of a history, and what was said to its observations. */
  ghost function States(obs: seq<Observation>): (states: seq<State>)
    ensures |states| == |obs| + 1 && forall i :: 0 <= i <= |obs| ==> states[i] == StateAt(obs, i)
  {
    seq(|obs| + 1, (i: nat) requires i <= |obs| => StateAt(obs, i))
  }

  ghost function Verdicts(obs: seq<Observation>): (said: seq<Verdict>)
    ensures |said| == |obs| && forall i :: 0 <= i < |obs| ==> said[i] == VerdictAt(obs, i)
  {
    seq(|obs|, (i: nat) requires i < |obs| => VerdictAt(obs, i))
  }

  /** Just behind the latest replug before `i`, or 0 if there was none. */
  ghost predicate Latest(said: seq<Verdict>, lo: nat, i: nat) {
    && lo <= i <= |said| && (lo > 0 ==> said[lo - 1].Replug?)
    && forall k :: lo <= k < i ==> !said[k].Replug?
  }

  lemma {:induction false} LatestNext(said: seq<Verdict>, lo: nat, i: nat)
    requires Latest(said, lo, i) && i < |said|
    ensures Latest(said, if said[i].Replug? then i + 1 else lo, i + 1)
  {
  }

  lemma {:induction false} CountFromNext(obs: seq<Observation>, i: nat, v: Verdict)
    requires i < |obs| && v == VerdictAt(obs, i)
    ensures CountFrom(obs, i + 1) == if v.Replug? then i + 1 else CountFrom(obs, i)
  {
  }

  ghost function Froms(obs: seq<Observation>): (from: seq<nat>)
    ensures |from| == |obs| + 1 && forall i :: 0 <= i <= |obs| ==> from[i] == CountFrom(obs, i)
  {
    seq(|obs| + 1, (i: nat) requires i <= |obs| => CountFrom(obs, i))
  }

  lemma {:induction false} FromLatest(from: seq<nat>, said: seq<Verdict>, i: nat)
    requires i <= |said| && |from| == |said| + 1 && from[0] == 0
    requires forall k :: 0 <= k < |said| ==> from[k + 1] == if said[k].Replug? then k + 1 else from[k]
    ensures Latest(said, from[i], i)
  {
    if i > 0 {
      FromLatest(from, said, i - 1);
      LatestNext(said, from[i - 1], i - 1);
      assert from[(i - 1) + 1] == if said[i - 1].Replug? then (i - 1) + 1 else from[i - 1];
    }
  }

  lemma {:induction false} CountFromLatest(obs: seq<Observation>, said: seq<Verdict>, i: nat) returns (lo: nat)
    requires i <= |obs| && said == Verdicts(obs)
    ensures lo == CountFrom(obs, i) && Latest(said, lo, i)
  {
    var from := Froms(obs);
    forall k | 0 <= k < |obs| ensures from[k + 1] == if said[k].Replug? then k + 1 else from[k] {
      CountFromNext(obs, k, said[k]);
    }
    FromLatest(from, said, i);
    lo := from[i];
  }

  /** The episode of the replug before `lo` was over at `i`: a quiet observation came 300 s or more
      after it. */
  ghost predicate Settled(obs: seq<Observation>, said: seq<Verdict>, lo: nat, i: nat)
    requires 0 < lo <= i <= |obs| == |said|
  {
    exists q :: lo <= q < i && EndsAt(said[q], obs[q].now, obs[lo - 1].now)
  }

  predicate EndsAt(v: Verdict, now: Instant, t: Instant) { v.Quiet? && now >= t + 300 * SEC }

  /** Attempts made in the episode not yet over at `i`. */
  ghost function Attempts(obs: seq<Observation>, said: seq<Verdict>, lo: nat, i: nat): nat
    requires |obs| == |said| && Latest(said, lo, i)
  {
    if lo == 0 || Settled(obs, said, lo, i) then 0 else said[lo - 1].attempt
  }

  /** What a decision does to the two fields. */
  ghost predicate Moves(s: State, o: Observation, s': State, v: Verdict) {
    && (v.Replug? ==> v.attempt == s'.attempts == s.attempts + 1 && s'.lastReplug == Some(o.now))
    && (!v.Replug? ==>
          if v.Quiet? && s.lastReplug.Some? && Since(o.now, s.lastReplug.value) >= SETTLE
          then s'.attempts == 0 && s'.lastReplug.None?
          else s'.attempts == s.attempts && s'.lastReplug == s.lastReplug)
    && (v.Replug? <==> !v.Quiet? && Due(s, o.now))
  }

  lemma {:induction false} DecisionMoves(s: State, o: Observation)
    ensures Moves(s, o, Decide(s, o).0, Decide(s, o).1)
  {
  }

  /** The fields of the watch hold those attempts and the time of the latest. */
  ghost predicate Holds(s: State, obs: seq<Observation>, said: seq<Verdict>, lo: nat, i: nat)
    requires |obs| == |said| && Latest(said, lo, i)
  {
    && s.attempts == Attempts(obs, said, lo, i)
    && if lo == 0 || Settled(obs, said, lo, i) then s.lastReplug.None?
       else s.attempts > 0 && s.lastReplug == Some(obs[lo - 1].now)
  }

  lemma {:induction false} HoldsReplug(s: State, s': State, obs: seq<Observation>, said: seq<Verdict>, i: nat)
    requires |obs| == |said| && i < |obs| && said[i].Replug? && Moves(s, obs[i], s', said[i])
    ensures Holds(s', obs, said, i + 1, i + 1)
  {
  }

  lemma {:induction false} HoldsOther(s: State, s': State, obs: seq<Observation>, said: seq<Verdict>, lo: nat, i: nat)
    requires InTime(obs) && |obs| == |said| && i < |obs| && !said[i].Replug? && Moves(s, obs[i], s', said[i])
    requires Latest(said, lo, i) && Holds(s, obs, said, lo, i)
    ensures Latest(said, lo, i + 1) && Holds(s', obs, said, lo, i + 1)
  {
    if lo > 0 {
      var t := obs[lo - 1].now;
      assert t <= obs[i].now;
      if EndsAt(said[i], obs[i].now, t) {
        assert Settled(obs, said, lo, i + 1);
      } else {
        assert Settled(obs, said, lo, i + 1) <==> Settled(obs, said, lo, i);
      }
    }
  }

  lemma {:induction false} FieldsHold(obs: seq<Observation>, said: seq<Verdict>, states: seq<State>, i: nat)
    returns (lo: nat)
    requires InTime(obs) && |states| == |obs| + 1 && |said| == |obs| && states[0] == INIT && i <= |obs|
    requires forall k :: 0 <= k < |obs| ==> Moves(states[k], obs[k], states[k + 1], said[k])
    ensures Latest(said, lo, i) && Holds(states[i], obs, said, lo, i)
  {
    lo := 0;
    if i > 0 {
      lo := FieldsHold(obs, said, states, i - 1);
      assert Moves(states[i - 1], obs[i - 1], states[(i - 1) + 1], said[i - 1]);
      if said[i - 1].Replug? {
        HoldsReplug(states[i - 1], states[i], obs, said, i - 1);
        lo := i;
      } else {
        HoldsOther(states[i - 1], states[i], obs, said, lo, i - 1);
      }
    }
  }

  lemma {:induction false} LatestUnique(said: seq<Verdict>, lo: nat, lo': nat, i: nat)
    requires Latest(said, lo, i) && Latest(said, lo', i)
    ensures lo == lo'
  {
  }

  lemma {:induction false} AllMove(obs: seq<Observation>, states: seq<State>, said: seq<Verdict>)
    requires states == States(obs) && said == Verdicts(obs)
    ensures forall k :: 0 <= k < |obs| ==> Moves(states[k], obs[k], states[k + 1], said[k])
  {
    forall k | 0 <= k < |obs| ensures Moves(states[k], obs[k], states[k + 1], said[k]) {
      DecisionMoves(states[k], obs[k]);
    }
  }

  /** The backoff after attempt `k` is over at `now`, the attempt having come at `t`. */
  ghost predicate BackedOff(k: nat, t: Instant, now: Instant) {
    k > 0 ==> var d := 30 * Pow2(k - 1); now >= t + (if d <= 600 then d else 600) * SEC
  }

  lemma {:induction false} DueIff(s: State, t: Instant, now: Instant)
    requires if s.attempts == 0 then s.lastReplug.None? else s.lastReplug == Some(t) && t <= now
    ensures Due(s, now) <==> BackedOff(s.attempts, t, now)
  {
    if s.attempts > 0 { BackoffFormula(s.attempts - 1); }
  }

  /** Which observations replug, in every history: those that make the window's total six or more
      with no attempt of an unsettled episode before them, or with the latest such attempt, the
      `k`th, at least `min(30 * 2^(k - 1), 600)` seconds back. */
  lemma {:induction false} ReplugsIff(obs: seq<Observation>, said: seq<Verdict>, i: nat)
    requires InTime(obs) && said == Verdicts(obs) && i < |obs|
    ensures var lo := CountFrom(obs, i);
            && Latest(said, lo, i)
            && var k := Attempts(obs, said, lo, i);
               && (k > 0 ==> lo > 0)
               && (said[i].Replug? <==>
                     && WindowEvents(obs, lo, i + 1, obs[i].now) >= 6
                     && BackedOff(k, if lo == 0 then 0 else obs[lo - 1].now, obs[i].now))
               && (said[i].Replug? ==> said[i].attempt == k + 1)
  {
    var states := States(obs);
    AllMove(obs, states, said);
    var lo := CountFromLatest(obs, said, i);
    var lo' := FieldsHold(obs, said, states, i);
    LatestUnique(said, lo, lo', i);
    TotalIsWindow(obs, i);
    assert Moves(states[i], obs[i], states[i + 1], said[i]);
    if lo > 0 { assert obs[lo - 1].now <= obs[i].now; }
    DueIff(states[i], if lo == 0 then 0 else obs[lo - 1].now, obs[i].now);
  }

  // ---- Five in 420 s ----

  lemma {:induction false} InTimeMore(obs: seq<Observation>, o: Observation)
    requires InTime(obs) && (obs != [] ==> obs[|obs| - 1].now <= o.now)
    ensures InTime(obs + [o])
  {
  }

  lemma {:induction false} LastOne(all: seq<Observation>, n: nat)
    requires |all| == n + 1
    ensures var d := Decide(StateAt(all, n), all[n]);
            StateAt(all, n + 1) == d.0 && Replugs(all, n + 1) == WithReplug(Replugs(all, n), all[n], d.1)
  {
  }

  /** One more observation. */
  lemma {:induction false} Observing(obs: seq<Observation>, o: Observation)
    requires InTime(obs) && (obs != [] ==> obs[|obs| - 1].now <= o.now)
    ensures var obs', d := obs + [o], Decide(StateAt(obs, |obs|), o);
            && InTime(obs') && StateAt(obs', |obs'|) == d.0
            && Replugs(obs', |obs'|) == WithReplug(Replugs(obs, |obs|), o, d.1)
  {
    InTimeMore(obs, o);
    PrefixSame(obs, o, |obs|);
    LastOne(obs + [o], |obs|);
  }

  lemma {:induction false} PrefixSame(obs: seq<Observation>, o: Observation, n: nat)
    requires n <= |obs|
    ensures StateAt(obs + [o], n) == StateAt(obs, n) && Replugs(obs + [o], n) == Replugs(obs, n)
  {
    if n > 0 { PrefixSame(obs, o, n - 1); }
  }

  /** Six events at once while nothing is counted make a replug that is due. */
  lemma {:induction false} SixDue(s: State, now: Instant)
    requires s.recent == [] && Due(s, now)
    ensures Decide(s, Observation(now, 6)) == (State([], Some(now), s.attempts + 1), Replug(6, s.attempts + 1))
  {
    var o := Observation(now, 6);
    assert Kept(s, o) == [o];
    assert [o][..0] == [];
    assert Total([o]) == Total([o][..0]) + o.events;
  }

  /** What a run has come to. */
  ghost predicate Reaches(obs: seq<Observation>, l: seq<Record>, s: State, now: Instant) {
    && InTime(obs) && (obs != [] ==> obs[|obs| - 1].now == now)
    && StateAt(obs, |obs|) == s && Replugs(obs, |obs|) == l
  }

  lemma {:induction false} SixReplug(obs: seq<Observation>, l: seq<Record>, s: State, t: Instant, now: Instant)
    returns (obs': seq<Observation>)
    requires Reaches(obs, l, s, t) && t <= now && s.recent == [] && Due(s, now)
    ensures Reaches(obs', l + [Record(now, s.attempts + 1)], State([], Some(now), s.attempts + 1), now)
  {
    obs' := obs + [Observation(now, 6)];
    Observing(obs, Observation(now, 6));
    SixDue(s, now);
  }

  /** A quiet look after the settling time ends the episode. */
  lemma {:induction false} Settles(obs: seq<Observation>, l: seq<Record>, s: State, t: Instant, now: Instant)
    returns (obs': seq<Observation>)
    requires Reaches(obs, l, s, t) && t <= now && s.recent == [] && s.lastReplug == Some(t) && t + SETTLE <= now
    ensures Reaches(obs', l, INIT, now)
  {
    obs' := obs + [Observation(now, 0)];
    Observing(obs, Observation(now, 0));
  }

  lemma {:induction false} ThreeReplugs() returns (obs: seq<Observation>, l: seq<Record>)
    ensures |l| == 3 && l[0].now == 0 && Reaches(obs, l, State([], Some(90 * SEC), 3), 90 * SEC)
  {
    obs := SixReplug([], [], INIT, 0, 0);
    l := [Record(0, 1)];
    obs := SixReplug(obs, l, State([], Some(0), 1), 0, 30 * SEC);
    l := l + [Record(30 * SEC, 2)];
    obs := SixReplug(obs, l, State([], Some(30 * SEC), 2), 30 * SEC, 90 * SEC);
    l := l + [Record(90 * SEC, 3)];
  }

  /** 420 s is not an underestimate: three replugs of an episode, a quiet spell, and two of the next. */
  lemma {:induction false} FiveReplugsHappen() returns (obs: seq<Observation>)
    ensures InTime(obs)
    ensures var l := Replugs(obs, |obs|); |l| == 5 && l[4].now == l[0].now + 420 * SEC
  {
    var l;
    obs, l := ThreeReplugs();
    obs := Settles(obs, l, State([], Some(90 * SEC), 3), 90 * SEC, 390 * SEC);
    obs := SixReplug(obs, l, INIT, 390 * SEC, 390 * SEC);
    l := l + [Record(390 * SEC, 1)];
    obs := SixReplug(obs, l, State([], Some(390 * SEC), 1), 390 * SEC, 420 * SEC);
  }
}
