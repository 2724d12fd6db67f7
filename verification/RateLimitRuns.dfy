/** What the login rate limiter guarantees over whole runs. */
module RateLimitRuns {
  import opened Arith
  import opened Clock
  import opened Options
  import opened RateLimit

  datatype Event = Check(ip: Ip, now: Instant) | Failure(ip: Ip, now: Instant) | Success(ip: Ip, now: Instant)

  function Step(s: State, e: Event): State {
    match e
    case Check(_, now) => Cleanup(s, now)
    case Failure(ip, now) => AfterFailure(s, ip, now)
    case Success(ip, _) => AfterSuccess(s, ip)
  }

  /** The limiter's states along events in time order. */
  ghost predicate IsRun(states: seq<State>, events: seq<Event>) {
    && |states| == |events| + 1 && states[0] == INIT
    && (forall i :: 0 <= i < |events| ==> states[i + 1] == Step(states[i], events[i]))
    && (forall i, j :: 0 <= i <= j < |events| ==> events[i].now <= events[j].now)
  }

  ghost predicate FailsAt(events: seq<Event>, ip: Ip, k: nat) {
    k < |events| && events[k].Failure? && events[k].ip == ip
  }

  /** Each failure of the address follows its own successful check: one that came after the
      address's previous failure. */
  ghost predicate Checked(states: seq<State>, events: seq<Event>, ip: Ip)
    requires |states| == |events| + 1
  {
    forall k: nat :: FailsAt(events, ip, k) ==> exists j: nat :: ChecksOut(states, events, ip, j, k)
  }

  ghost predicate ChecksOut(states: seq<State>, events: seq<Event>, ip: Ip, j: nat, k: nat)
    requires |states| == |events| + 1
  {
    && j < k < |events| && events[j].Check? && events[j].ip == ip
    && VerdictOf(states[j + 1], ip, events[j].now).Allowed?
    && forall l :: j <= l < k ==> !FailsAt(events, ip, l)
  }

  /** No login of the address succeeds between two events. */
  ghost predicate NoSuccess(events: seq<Event>, ip: Ip, i: nat, j: nat) {
    forall l :: i < l < j && l < |events| ==> !(events[l].Success? && events[l].ip == ip)
  }

  // ---- Between two failures ----

  /** The entry is still as it was, or was cleaned up once it no longer mattered. */
  ghost predicate Lasting(s: State, ip: Ip, e: Entry, now: Instant) {
    if ip in s.entries then s.entries[ip] == e else Expired(e, now) && !Locked(e, now)
  }

  lemma LastingLater(s: State, ip: Ip, e: Entry, t: Instant, now: Instant)
    requires Lasting(s, ip, e, t) && t <= now
    ensures Lasting(s, ip, e, now) && Lasting(Cleanup(s, now), ip, e, now)
  {
  }

  /** From a failure until the next one, the address's entry lasts. */
  lemma {:induction false} EntryLasts(states: seq<State>, events: seq<Event>, ip: Ip, i: nat, j: nat)
    requires IsRun(states, events) && FailsAt(events, ip, i) && i < j <= |events|
    requires NoSuccess(events, ip, i, j) && forall l :: i < l < j ==> !FailsAt(events, ip, l)
    ensures ip in states[i + 1].entries && Lasting(states[j], ip, states[i + 1].entries[ip], events[j - 1].now)
  {
    if j > i + 1 {
      EntryLasts(states, events, ip, i, j - 1);
      var e := events[j - 1];
      assert !FailsAt(events, ip, j - 1);
      LastingLater(states[j - 1], ip, states[i + 1].entries[ip], events[j - 2].now, e.now);
    }
  }

  /** What a failure leaves behind. */
  datatype Record = Record(now: Instant, attempts: nat, windowStart: Instant)

  ghost function RecordAt(states: seq<State>, events: seq<Event>, ip: Ip, k: nat): Record
    requires k < |events| && |states| == |events| + 1
  {
    if ip !in states[k + 1].entries then Record(events[k].now, 0, 0)
    else
      var e := states[k + 1].entries[ip];
      Record(events[k].now, e.attempts, e.windowStart)
  }

  /** Two failures in a row: the second counts on in the same window or opens a new one after the
      old one lapsed, and after a fifth attempt it comes a whole window later. */
  ghost predicate Linked(a: Record, b: Record) {
    && a.now <= b.now
    && (|| (b.attempts == a.attempts + 1 && b.windowStart == a.windowStart)
        || (b.attempts == 1 && b.windowStart == b.now && b.now > a.windowStart + BASE_WINDOW))
    && (a.attempts >= MAX_ATTEMPTS ==> b.now >= a.now + BASE_WINDOW)
  }

  /** Stored entries have at least one attempt, and no lock before the fifth. */
  ghost predicate Sane(s: State) {
    forall ip :: ip in s.entries ==>
      s.entries[ip].attempts >= 1 && (s.entries[ip].attempts < MAX_ATTEMPTS ==> s.entries[ip].lockedUntil.None?)
  }

  lemma {:induction false} AlwaysSane(states: seq<State>, events: seq<Event>, i: nat)
    requires IsRun(states, events) && i < |states|
    ensures Sane(states[i])
  {
    if i > 0 {
      AlwaysSane(states, events, i - 1);
      assert states[i] == Step(states[i - 1], events[i - 1]);
    }
  }

  lemma FailureRecord(states: seq<State>, events: seq<Event>, ip: Ip, k: nat)
    requires IsRun(states, events) && FailsAt(events, ip, k)
    ensures ip in states[k + 1].entries
    ensures var r := RecordAt(states, events, ip, k);
            var e := states[k + 1].entries[ip];
            && r.attempts >= 1 && (r.attempts == 1 ==> r.windowStart == r.now)
            && (r.attempts >= MAX_ATTEMPTS ==> e.lockedUntil.Some? && e.lockedUntil.value >= r.now + BASE_WINDOW)
  {
    AlwaysSane(states, events, k);
    assert states[k + 1] == Step(states[k], events[k]);
  }

  /** The new record, from the entry the previous failure left. */
  lemma FailureLinks(s: State, ip: Ip, e: Entry, t: Instant, now: Instant)
    requires Lasting(s, ip, e, t) && t <= now
    ensures var n := AfterFailure(s, ip, now).entries[ip];
            || (n.attempts == e.attempts + 1 && n.windowStart == e.windowStart)
            || (n.attempts == 1 && n.windowStart == now && now > e.windowStart + BASE_WINDOW)
  {
    LastingLater(s, ip, e, t, now);
  }

  lemma ConsecutiveLinked(states: seq<State>, events: seq<Event>, ip: Ip, i: nat, j: nat)
    requires IsRun(states, events) && Checked(states, events, ip)
    requires FailsAt(events, ip, i) && FailsAt(events, ip, j) && i < j && NoSuccess(events, ip, i, j)
    requires forall l :: i < l < j ==> !FailsAt(events, ip, l)
    ensures ip in states[i + 1].entries && ip in states[j + 1].entries
    ensures Linked(RecordAt(states, events, ip, i), RecordAt(states, events, ip, j))
  {
    FailureRecord(states, events, ip, i);
    FailureRecord(states, events, ip, j);
    var e := states[i + 1].entries[ip];
    EntryLasts(states, events, ip, i, j);
    FailureLinks(states[j], ip, e, events[j - 1].now, events[j].now);
    assert states[j + 1] == Step(states[j], events[j]);
    var c: nat :| ChecksOut(states, events, ip, c, j);
    assert c > i by { assert FailsAt(events, ip, i); }
    EntryLasts(states, events, ip, i, c + 1);
    assert !Locked(e, events[c].now);
  }

  // ---- Which lapses escalate ----

  /** A clean-up at `t` keeps the entry. */
  ghost predicate Alive(e: Entry, t: Instant) { Locked(e, t) || !Expired(e, t) }

  lemma AliveBefore(e: Entry, t: Instant, later: Instant)
    requires Alive(e, later) && t <= later
    ensures Alive(e, t)
  {
  }

  /** The stored entry, if any, is `e`, and it is there exactly if the latest clean-up kept it. */
  ghost predicate KeptByCleanup(s: State, ip: Ip, e: Entry, now: Instant) {
    && s.lastCleanup.Some? && s.lastCleanup.value <= now
    && (ip in s.entries <==> Alive(e, s.lastCleanup.value))
    && (ip in s.entries ==> s.entries[ip] == e)
  }

  lemma KeptByNext(s: State, ip: Ip, e: Entry, t: Instant, now: Instant)
    requires KeptByCleanup(s, ip, e, t) && t <= now
    ensures KeptByCleanup(Cleanup(s, now), ip, e, now)
  {
    if Due(s, now) && Alive(e, now) { AliveBefore(e, s.lastCleanup.value, now); }
  }

  /** A failure leaves an entry that any clean-up up to then would have kept. */
  lemma KeptAtFailure(s: State, ip: Ip, now: Instant)
    requires s.lastCleanup.Some? ==> s.lastCleanup.value <= now
    ensures var s' := AfterFailure(s, ip, now); KeptByCleanup(s', ip, s'.entries[ip], now)
  {
    var s' := AfterFailure(s, ip, now);
    assert !Expired(s'.entries[ip], now);
    AliveBefore(s'.entries[ip], s'.lastCleanup.value, now);
  }

  lemma {:induction false} CleanupInPast(states: seq<State>, events: seq<Event>, i: nat, now: Instant)
    requires IsRun(states, events) && i < |states| && (i > 0 ==> events[i - 1].now <= now)
    ensures states[i].lastCleanup.Some? ==> states[i].lastCleanup.value <= now
  {
    if i > 0 {
      CleanupInPast(states, events, i - 1, events[i - 1].now);
      assert states[i] == Step(states[i - 1], events[i - 1]);
    }
  }

  lemma {:induction false} KeptSince(states: seq<State>, events: seq<Event>, ip: Ip, i: nat, j: nat)
    requires IsRun(states, events) && FailsAt(events, ip, i) && i < j <= |events|
    requires NoSuccess(events, ip, i, j) && forall l :: i < l < j ==> !FailsAt(events, ip, l)
    ensures ip in states[i + 1].entries
    ensures KeptByCleanup(states[j], ip, states[i + 1].entries[ip], events[j - 1].now)
  {
    if j == i + 1 {
      CleanupInPast(states, events, i, events[i].now);
      KeptAtFailure(states[i], ip, events[i].now);
    } else {
      KeptSince(states, events, ip, i, j - 1);
      var e := events[j - 1];
      assert !FailsAt(events, ip, j - 1) && states[j] == Step(states[j - 1], e);
      KeptByNext(states[j - 1], ip, states[i + 1].entries[ip], events[j - 2].now, e.now);
    }
  }

  /** Two failures in a row, the second after the window lapsed and a longer one was earned: it gets
      the longer window exactly if the address is still locked, or the latest clean-up is under five
      minutes old and found the entry locked or in its window. Otherwise it starts afresh. */
  lemma LapseEscalatesIff(states: seq<State>, events: seq<Event>, ip: Ip, i: nat, j: nat)
    requires IsRun(states, events) && FailsAt(events, ip, i) && FailsAt(events, ip, j) && i < j
    requires NoSuccess(events, ip, i, j) && forall l :: i < l < j ==> !FailsAt(events, ip, l)
    requires ip in states[i + 1].entries && Expired(states[i + 1].entries[ip], events[j].now)
    requires states[i + 1].entries[ip].backoffLevel > 0 || states[i + 1].entries[ip].attempts >= MAX_ATTEMPTS
    ensures ip in states[j + 1].entries && states[j].lastCleanup.Some?
    ensures var (e, now, cleaned) := (states[i + 1].entries[ip], events[j].now, states[j].lastCleanup.value);
            states[j + 1].entries[ip].backoffLevel ==
            if Locked(e, now) || (now < cleaned + 300 * SEC && Alive(e, cleaned))
            then (if e.backoffLevel < 3 then e.backoffLevel + 1 else 3) else 0
  {
    var s, e, now := states[j], states[i + 1].entries[ip], events[j].now;
    KeptSince(states, events, ip, i, j);
    assert states[j + 1] == Step(s, events[j]);
    if ip in s.entries {
      EscalatesIff(s, ip, now);
    } else if Locked(e, now) {
      AliveBefore(e, s.lastCleanup.value, now);
    }
  }

  // ---- Who is refused ----

  /** The window of a backoff level: 15 minutes, doubled for each level up to the third. */
  ghost function Window(level: nat): nat { Pow2(if level <= 3 then level else 3) * 900 * SEC }

  lemma WindowFormula(level: nat)
    ensures WindowDuration(level) == Window(level)
  {
    assert Pow2(0) == 1 && Pow2(1) == 2 && Pow2(2) == 4 && Pow2(3) == 8;
  }

  /** From the fifth failure of its window on, each locks for a whole window from then. */
  lemma LocksFromFifth(states: seq<State>, events: seq<Event>, ip: Ip, i: nat)
    requires IsRun(states, events) && FailsAt(events, ip, i)
    ensures ip in states[i + 1].entries
    ensures var e := states[i + 1].entries[ip];
            e.lockedUntil == if e.attempts >= 5 then Some(events[i].now + Window(e.backoffLevel)) else None
  {
    AlwaysSane(states, events, i);
    assert states[i + 1] == Step(states[i], events[i]);
    WindowFormula(states[i + 1].entries[ip].backoffLevel);
  }

  /** Who is refused, in every history: an address whose latest failure, with no success since, was
      the fifth or a later one of its window and lies less than the window back; nobody else. */
  lemma RefusedIff(states: seq<State>, events: seq<Event>, ip: Ip, i: nat, j: nat, now: Instant)
    requires IsRun(states, events) && FailsAt(events, ip, i) && i < j <= |events| && now >= events[j - 1].now
    requires NoSuccess(events, ip, i, j) && forall l :: i < l < j ==> !FailsAt(events, ip, l)
    ensures ip in states[i + 1].entries
    ensures var e := states[i + 1].entries[ip];
            VerdictOf(states[j], ip, now).RetryAfter? <==>
            e.attempts >= 5 && now < events[i].now + Window(e.backoffLevel)
  {
    LocksFromFifth(states, events, ip, i);
    EntryLasts(states, events, ip, i, j);
  }

  /** An address with no failure since the start, or since its latest success before `i`, has no entry:
      it is let in, and should it fail now that is the first failure of a window of 15 minutes. */
  lemma {:induction false} CleanSlate(states: seq<State>, events: seq<Event>, ip: Ip, i: nat, j: nat, now: Instant)
    requires IsRun(states, events) && i <= j <= |events|
    requires i == 0 || (events[i - 1].Success? && events[i - 1].ip == ip)
    requires forall l :: i <= l < j ==> !FailsAt(events, ip, l)
    ensures ip !in states[j].entries && VerdictOf(states[j], ip, now).Allowed?
    ensures AfterFailure(states[j], ip, now).entries[ip] == Entry(1, now, 0, None)
  {
    if j > i {
      CleanSlate(states, events, ip, i, j - 1, now);
      assert states[j] == Step(states[j - 1], events[j - 1]) && !FailsAt(events, ip, j - 1);
    } else if i > 0 {
      assert states[i] == Step(states[i - 1], events[i - 1]);
    }
  }

  lemma KeptFailure(s: State, ip: Ip, e: Entry, t: Instant, now: Instant)
    requires Lasting(s, ip, e, t) && t <= now && !Expired(e, now)
    ensures AfterFailure(s, ip, now).entries[ip] == Failed(e, now)
  {
    LastingLater(s, ip, e, t, now);
  }

  lemma LapsedFailure(s: State, ip: Ip, e: Entry, t: Instant, now: Instant)
    requires Lasting(s, ip, e, t) && t <= now && Expired(e, now)
    ensures var n := AfterFailure(s, ip, now).entries[ip];
            && n.attempts == 1 && n.windowStart == now && n.lockedUntil.None?
            && (e.backoffLevel == 0 && e.attempts < MAX_ATTEMPTS ==> n.backoffLevel == 0)
  {
    LastingLater(s, ip, e, t, now);
  }

  /** What a failure counts as, in every history, the one before it having left `e`: one more in the
      same window until the window has lapsed, and from then on the first of a new one, at level 0 if
      no longer window was earned. */
  lemma CountsOnIff(states: seq<State>, events: seq<Event>, ip: Ip, i: nat, j: nat)
    requires IsRun(states, events) && FailsAt(events, ip, i) && FailsAt(events, ip, j) && i < j
    requires NoSuccess(events, ip, i, j) && forall l :: i < l < j ==> !FailsAt(events, ip, l)
    ensures ip in states[i + 1].entries && ip in states[j + 1].entries
    ensures var (e, n, now) := (states[i + 1].entries[ip], states[j + 1].entries[ip], events[j].now);
            if now <= e.windowStart + Window(e.backoffLevel)
            then n.attempts == e.attempts + 1 && n.windowStart == e.windowStart && n.backoffLevel == e.backoffLevel
            else
              && n.attempts == 1 && n.windowStart == now
              && (e.backoffLevel == 0 && e.attempts < 5 ==> n.backoffLevel == 0)
  {
    EntryLasts(states, events, ip, i, j);
    var (s, e, now) := (states[j], states[i + 1].entries[ip], events[j].now);
    assert states[j + 1] == Step(s, events[j]);
    WindowFormula(e.backoffLevel);
    if Expired(e, now) {
      LapsedFailure(s, ip, e, events[j - 1].now, now);
    } else {
      KeptFailure(s, ip, e, events[j - 1].now, now);
    }
  }

  // ---- Nine failures ----

  /** A chain of failures with no window opened after the first. */
  lemma {:induction false} SameWindow(r: seq<Record>, i: nat, j: nat)
    requires i <= j < |r|
    requires forall k :: 0 < k < |r| ==> Linked(r[k - 1], r[k])
    requires forall k :: i < k <= j ==> r[k].attempts != 1
    ensures r[j].attempts == r[i].attempts + (j - i) && r[j].windowStart == r[i].windowStart
  {
    if i < j {
      SameWindow(r, i, j - 1);
      assert Linked(r[j - 1], r[j]);
    }
  }

  lemma {:induction false} InOrder(r: seq<Record>, i: nat, j: nat)
    requires i <= j < |r|
    requires forall k :: 0 < k < |r| ==> Linked(r[k - 1], r[k])
    ensures r[i].now <= r[j].now
  {
    if i < j { InOrder(r, i, j - 1); assert Linked(r[j - 1], r[j]); }
  }

  /** A record with one attempt opened its window. */
  ghost predicate Opens(r: Record) { r.attempts >= 1 && (r.attempts == 1 ==> r.windowStart == r.now) }

  /** A fifth attempt, or a window opened after another, spreads the chain over a whole window. */
  lemma SpreadOut(r: seq<Record>, i: nat, j: nat)
    requires i < j < |r|
    requires forall k :: 0 < k < |r| ==> Linked(r[k - 1], r[k])
    requires forall k :: 0 <= k < |r| ==> Opens(r[k])
    requires r[i].attempts >= MAX_ATTEMPTS ||
             (r[i].attempts == 1 && r[j].attempts == 1 && forall k :: i < k < j ==> r[k].attempts != 1)
    ensures r[|r| - 1].now >= r[0].now + BASE_WINDOW
  {
    InOrder(r, 0, i);
    if r[i].attempts >= MAX_ATTEMPTS {
      assert Linked(r[(i + 1) - 1], r[i + 1]);
      InOrder(r, i + 1, |r| - 1);
    } else {
      SameWindow(r, i, j - 1);
      assert Linked(r[j - 1], r[j]) && Opens(r[i]);
      InOrder(r, j, |r| - 1);
    }
  }

  /** The first window opened after place `i`, if any by place `j`. */
  lemma {:induction false} FirstOpening(r: seq<Record>, i: nat, j: nat) returns (k: nat)
    requires i <= j < |r|
    ensures i < k <= j + 1 && (k <= j ==> r[k].attempts == 1) && forall l :: i < l < k ==> r[l].attempts != 1
  {
    k := i + 1;
    while k <= j && r[k].attempts != 1
      invariant i < k <= j + 1 && forall l :: i < l < k ==> r[l].attempts != 1
    {
      k := k + 1;
    }
  }

  /** Nine linked failures span at least the base window. */
  lemma NineSpread(r: seq<Record>)
    requires |r| == 9
    requires forall k :: 0 < k < |r| ==> Linked(r[k - 1], r[k])
    requires forall k :: 0 <= k < |r| ==> Opens(r[k])
    ensures r[8].now >= r[0].now + BASE_WINDOW
  {
    var a := FirstOpening(r, 0, 7);
    SameWindow(r, 0, a - 1);
    if a == 8 {
      SpreadOut(r, 7, 8);
    } else if r[0].attempts == 1 {
      SpreadOut(r, 0, a);
    } else if a >= 4 {
      SpreadOut(r, a - 1, a);
    } else {
      var b := FirstOpening(r, a, 7);
      if b <= 7 {
        SpreadOut(r, a, b);
      } else {
        SameWindow(r, a, 7);
        SpreadOut(r, 7, 8);
      }
    }
  }

  // ---- Counting ----

  /** The places of the address's failures among the first `n` events. */
  ghost function Failures(events: seq<Event>, ip: Ip, n: nat): (l: seq<nat>)
    requires n <= |events|
    ensures forall i :: 0 <= i < |l| ==> l[i] < n && FailsAt(events, ip, l[i])
    ensures forall i, j :: 0 <= i < j < |l| ==> l[i] < l[j]
    ensures forall k: nat :: k < n && FailsAt(events, ip, k) ==> k in l
  {
    if n == 0 then []
    else Failures(events, ip, n - 1) + if FailsAt(events, ip, n - 1) then [n - 1] else []
  }

  /** Failures of the address in order, none left out. */
  ghost predicate InARow(events: seq<Event>, ip: Ip, l: seq<nat>) {
    && (forall k :: 0 <= k < |l| ==> FailsAt(events, ip, l[k]))
    && (forall k, m :: 0 <= k < m < |l| ==> l[k] < l[m])
    && (forall k, m: nat :: 0 < k < |l| && l[k - 1] < m < l[k] ==> !FailsAt(events, ip, m))
  }

  /** A stretch of the complete list leaves nothing out. */
  lemma StretchInARow(events: seq<Event>, ip: Ip, l: seq<nat>, i: nat, part: seq<nat>)
    requires AllFailures(events, ip, l) && i + |part| <= |l| && part == l[i..i + |part|]
    ensures InARow(events, ip, part) && forall k :: 0 <= k < |part| ==> part[k] == l[i + k]
  {
    StretchOrdered(events, ip, l, i, part);
    forall k, m: nat | 0 < k < |part| && part[k - 1] < m < part[k] ensures !FailsAt(events, ip, m) {
      NoneBetween(events, ip, l, i + k, m);
    }
  }

  lemma StretchOrdered(events: seq<Event>, ip: Ip, l: seq<nat>, i: nat, part: seq<nat>)
    requires AllFailures(events, ip, l) && i + |part| <= |l| && part == l[i..i + |part|]
    ensures forall k :: 0 <= k < |part| ==> part[k] == l[i + k] && FailsAt(events, ip, part[k])
    ensures forall k, m :: 0 <= k < m < |part| ==> part[k] < part[m]
  {
    forall k | 0 <= k < |part| ensures part[k] == l[i + k] && FailsAt(events, ip, part[k]) {}
    forall k, m | 0 <= k < m < |part| ensures part[k] < part[m] { assert l[i + k] < l[i + m]; }
  }

  lemma NoneBetween(events: seq<Event>, ip: Ip, l: seq<nat>, k: nat, m: nat)
    requires AllFailures(events, ip, l) && 0 < k < |l| && l[k - 1] < m < l[k]
    ensures !FailsAt(events, ip, m)
  {
    if FailsAt(events, ip, m) {
      var p :| 0 <= p < |l| && l[p] == m;
      BetweenNone(l, p, k);
    }
  }

  /** An element of an increasing list does not fall between two neighbours. */
  lemma BetweenNone(l: seq<nat>, p: nat, k: nat)
    requires p < |l| && 0 < k < |l| && forall a, b :: 0 <= a < b < |l| ==> l[a] < l[b]
    ensures l[p] <= l[k - 1] || l[k] <= l[p]
  {
  }

  /** The records a run of failures leaves. */
  ghost function Records(states: seq<State>, events: seq<Event>, ip: Ip, l: seq<nat>): (r: seq<Record>)
    requires |states| == |events| + 1 && forall k :: 0 <= k < |l| ==> l[k] < |events|
    ensures |r| == |l| && forall k :: 0 <= k < |l| ==> r[k] == RecordAt(states, events, ip, l[k])
  {
    seq(|l|, (k: nat) requires k < |l| => RecordAt(states, events, ip, l[k]))
  }

  lemma NineInARow(states: seq<State>, events: seq<Event>, ip: Ip, l: seq<nat>)
    requires IsRun(states, events) && Checked(states, events, ip)
    requires |l| == 9 && InARow(events, ip, l) && NoSuccess(events, ip, l[0], l[8])
    ensures FailsAt(events, ip, l[0]) && FailsAt(events, ip, l[8])
    ensures events[l[8]].now >= events[l[0]].now + BASE_WINDOW
  {
    assert forall k :: 0 <= k < 9 ==> FailsAt(events, ip, l[k]) && l[k] < |events|;
    var r := Records(states, events, ip, l);
    forall k | 0 <= k < 9 ensures Opens(r[k]) { FailureRecord(states, events, ip, l[k]); }
    forall k | 0 < k < 9 ensures Linked(r[k - 1], r[k]) {
      assert NoSuccess(events, ip, l[k - 1], l[k]) by {
        assert l[0] <= l[k - 1] && l[k] <= l[8];
      }
      ConsecutiveLinked(states, events, ip, l[k - 1], l[k]);
    }
    NineSpread(r);
  }

  /** `l` lists the address's failures, all of them in order. */
  ghost predicate AllFailures(events: seq<Event>, ip: Ip, l: seq<nat>) {
    && (forall k :: 0 <= k < |l| ==> FailsAt(events, ip, l[k]))
    && (forall k, m :: 0 <= k < m < |l| ==> l[k] < l[m])
    && (forall m: nat :: FailsAt(events, ip, m) ==> m in l)
  }

  /** However the events of other addresses, the checks and the clean-ups fall, the ninth of any nine
      failures in a row comes at least 15 minutes after the first: any half-open 15-minute span holds
      at most eight. */
  lemma AtMostEight(states: seq<State>, events: seq<Event>, ip: Ip, i: nat)
    requires IsRun(states, events) && Checked(states, events, ip)
    requires var l := Failures(events, ip, |events|); i + 8 < |l| && NoSuccess(events, ip, l[i], l[i + 8])
    ensures var l := Failures(events, ip, |events|); events[l[i + 8]].now >= events[l[i]].now + BASE_WINDOW
  {
    var l := Failures(events, ip, |events|);
    var part := l[i..i + 9];
    StretchInARow(events, ip, l, i, part);
    NineInARow(states, events, ip, part);
  }

  // ---- Eight do happen ----

  /** One address alone, each of its failures right after a check that let it in. */
  ghost predicate Hammering(states: seq<State>, events: seq<Event>) {
    && IsRun(states, events)
    && (forall k :: 0 <= k < |events| ==> events[k].ip == 0 && !events[k].Success?)
    && (forall k :: 0 <= k < |events| && events[k].Failure? ==> JustChecked(states, events, k))
  }

  ghost predicate JustChecked(states: seq<State>, events: seq<Event>, k: nat)
    requires k < |events| < |states|
  {
    0 < k && events[k - 1].Check? && VerdictOf(states[k], 0, events[k - 1].now).Allowed?
  }

  lemma HammeringChecked(states: seq<State>, events: seq<Event>)
    requires Hammering(states, events)
    ensures Checked(states, events, 0)
  {
    forall k: nat | FailsAt(events, 0, k) ensures exists j: nat :: ChecksOut(states, events, 0, j, k) {
      assert JustChecked(states, events, k);
      assert ChecksOut(states, events, 0, k - 1, k);
    }
  }

  lemma Extend(states: seq<State>, events: seq<Event>, e: Event) returns (states': seq<State>, events': seq<Event>)
    requires Hammering(states, events) && (events != [] ==> events[|events| - 1].now <= e.now)
    requires e.ip == 0 && !e.Success?
    requires e.Failure? ==> events != [] && events[|events| - 1].Check?
    requires e.Failure? ==> VerdictOf(states[|events|], 0, events[|events| - 1].now).Allowed?
    ensures Hammering(states', events') && events' == events + [e] && states'[..|states|] == states
    ensures states'[|events'|] == Step(states[|events|], e)
  {
    states', events' := states + [Step(states[|events|], e)], events + [e];
    forall k | 0 <= k < |events'| && events'[k].Failure? ensures JustChecked(states', events', k) {
      if k < |events| { assert JustChecked(states, events, k); }
    }
  }

  lemma TryOnce(states: seq<State>, events: seq<Event>, now: Instant) returns (states': seq<State>, events': seq<Event>)
    requires Hammering(states, events) && (events != [] ==> events[|events| - 1].now <= now)
    requires VerdictOf(Cleanup(states[|events|], now), 0, now).Allowed?
    ensures Hammering(states', events') && events' == events + [Check(0, now), Failure(0, now)]
    ensures states'[..|states|] == states
    ensures states'[|events'|] == AfterFailure(Cleanup(states[|events|], now), 0, now)
  {
    states', events' := Extend(states, events, Check(0, now));
    ghost var checked := states';
    states', events' := Extend(states', events', Failure(0, now));
    assert states'[..|states|] == checked[..|states|];
  }

  /** The limiter with just that address in it. */
  ghost function Only(attempts: nat, windowStart: Instant, lock: Option<Instant>, cleanup: Instant): State {
    State(map[0 := Entry(attempts, windowStart, 0, lock)], Some(cleanup))
  }

  /** Four failures, the last three when the window is about to lapse. */
  lemma FourEarly() returns (states: seq<State>, events: seq<Event>)
    ensures Hammering(states, events) && |events| == 8 && states[8] == Only(4, 0, None, BASE_WINDOW)
    ensures events[3] == events[5] == events[7] == Failure(0, BASE_WINDOW)
  {
    states, events := [INIT], [];
    states, events := TryOnce(states, events, 0);
    assert states[2] == Only(1, 0, None, 0);
    states, events := TryOnce(states, events, BASE_WINDOW);
    assert states[4] == Only(2, 0, None, BASE_WINDOW);
    states, events := TryOnce(states, events, BASE_WINDOW);
    assert states[6] == Only(3, 0, None, BASE_WINDOW);
    states, events := TryOnce(states, events, BASE_WINDOW);
    assert states[8] == Only(4, 0, None, BASE_WINDOW);
  }

  /** Every failure but the first falls into the same nanosecond. */
  ghost predicate Crowded(events: seq<Event>, n: nat) {
    && |events| == 2 * n + 2
    && forall k :: 1 <= k <= n ==>
         FailsAt(events, 0, 2 * k + 1) && BASE_WINDOW <= events[2 * k + 1].now <= BASE_WINDOW + 1
  }

  lemma CrowdedMore(events: seq<Event>, n: nat, now: Instant)
    requires Crowded(events, n) && BASE_WINDOW <= now <= BASE_WINDOW + 1
    ensures Crowded(events + [Check(0, now), Failure(0, now)], n + 1)
  {
    var events' := events + [Check(0, now), Failure(0, now)];
    forall k | 1 <= k <= n ensures FailsAt(events', 0, 2 * k + 1) && events'[2 * k + 1] == events[2 * k + 1] {
      assert FailsAt(events, 0, 2 * k + 1);
    }
  }

  /** One more failure in the window, with no clean-up due. */
  lemma CountsOn(n: nat, start: Instant, cleaned: Instant, now: Instant)
    requires n + 1 < MAX_ATTEMPTS && Since(now, start) <= BASE_WINDOW && Since(now, cleaned) < CLEANUP_INTERVAL
    ensures var s := Only(n, start, None, cleaned);
            Cleanup(s, now) == s && AfterFailure(s, 0, now) == Only(n + 1, start, None, cleaned)
  {
  }

  /** A fifth failure once the window has lapsed opens another. */
  lemma FifthLate() returns (states: seq<State>, events: seq<Event>)
    ensures Hammering(states, events) && Crowded(events, 4)
    ensures states[10] == Only(1, BASE_WINDOW + 1, None, BASE_WINDOW) && events[9].now == BASE_WINDOW + 1
  {
    states, events := FourEarly();
    assert Crowded(events, 3);
    CrowdedMore(events, 3, BASE_WINDOW + 1);
    states, events := TryOnce(states, events, BASE_WINDOW + 1);
  }

  lemma {:induction false} ThenMore(n: nat) returns (states: seq<State>, events: seq<Event>)
    requires 1 <= n < MAX_ATTEMPTS
    ensures Hammering(states, events) && Crowded(events, 3 + n)
    ensures states[|events|] == Only(n, BASE_WINDOW + 1, None, BASE_WINDOW)
    ensures events[|events| - 1].now == BASE_WINDOW + 1
  {
    if n == 1 {
      states, events := FifthLate();
    } else {
      states, events := ThenMore(n - 1);
      CrowdedMore(events, 2 + n, BASE_WINDOW + 1);
      CountsOn(n - 1, BASE_WINDOW + 1, BASE_WINDOW, BASE_WINDOW + 1);
      states, events := TryOnce(states, events, BASE_WINDOW + 1);
    }
  }

  /** Eight is not an overestimate: eight failures one nanosecond apart are possible. */
  lemma EightHappen() returns (states: seq<State>, events: seq<Event>)
    ensures IsRun(states, events) && Checked(states, events, 0) && Crowded(events, 8)
  {
    states, events := ThenMore(4);
    CrowdedMore(events, 7, BASE_WINDOW + 1);
    states, events := TryOnce(states, events, BASE_WINDOW + 1);
    HammeringChecked(states, events);
  }

  // ---- Both fates of an earned backoff ----

  lemma {:induction false} FailAtOnce(n: nat) returns (states: seq<State>, events: seq<Event>)
    requires 1 <= n < MAX_ATTEMPTS
    ensures Hammering(states, events) && |events| == 2 * n && states[2 * n] == Only(n, 0, None, 0)
    ensures events[2 * n - 1].now == 0
  {
    if n == 1 {
      states, events := [INIT], [];
    } else {
      states, events := FailAtOnce(n - 1);
      CountsOn(n - 1, 0, 0, 0);
    }
    states, events := TryOnce(states, events, 0);
  }

  /** Five failures at once lock the address for the base window. */
  lemma LockedOut() returns (states: seq<State>, events: seq<Event>)
    ensures Hammering(states, events) && |events| == 10 && states[10] == Only(5, 0, Some(BASE_WINDOW), 0)
    ensures events[9] == Failure(0, 0)
  {
    states, events := FailAtOnce(4);
    states, events := TryOnce(states, events, 0);
    assert states[10] == Only(5, 0, Some(BASE_WINDOW), 0);
  }

  /** Asking once in the last five minutes of the lock, and being refused, costs the address a doubled
      window when it fails again right after the lock. */
  lemma AskingEscalates(asked: Instant) returns (states: seq<State>, events: seq<Event>)
    requires BASE_WINDOW + 1 - CLEANUP_INTERVAL < asked < BASE_WINDOW
    ensures IsRun(states, events) && Checked(states, events, 0) && |events| == 13
    ensures events[10] == Check(0, asked) && VerdictOf(states[11], 0, asked).RetryAfter?
    ensures events[12] == Failure(0, BASE_WINDOW + 1)
    ensures 0 in states[13].entries && states[13].entries[0].backoffLevel == 1
  {
    states, events := LockedOut();
    states, events := Extend(states, events, Check(0, asked));
    assert states[11] == Only(5, 0, Some(BASE_WINDOW), asked);
    ghost var refused := states;
    states, events := TryOnce(states, events, BASE_WINDOW + 1);
    assert states[11] == states[..12][11] == refused[11];
    HammeringChecked(states, events);
  }

  /** Staying away until then costs it nothing: the first check cleans the record up. */
  lemma StayingAwayForgets(back: Instant) returns (states: seq<State>, events: seq<Event>)
    requires BASE_WINDOW < back
    ensures IsRun(states, events) && Checked(states, events, 0) && |events| == 12
    ensures events[9] == Failure(0, 0) && 0 in states[10].entries && states[10].entries[0].attempts == MAX_ATTEMPTS
    ensures events[11] == Failure(0, back) && 0 in states[12].entries && states[12].entries[0].backoffLevel == 0
  {
    states, events := LockedOut();
    ghost var locked := states;
    states, events := TryOnce(states, events, back);
    assert states[10] == states[..11][10] == locked[10];
    HammeringChecked(states, events);
  }

  // ---- Waiting helps ----

  /** An address told to retry is admitted once it has waited that long, whatever else happens, as
      long as it does not fail again. */
  lemma {:induction false} WaitingAdmits(states: seq<State>, events: seq<Event>, ip: Ip, i: nat, j: nat, now: Instant)
    requires IsRun(states, events) && i < |events| && i < j <= |events|
    requires events[i] == Check(ip, events[i].now) && VerdictOf(states[i + 1], ip, events[i].now).RetryAfter?
    requires forall k :: i < k < j ==> !FailsAt(events, ip, k)
    requires now >= events[j - 1].now && now >= events[i].now + VerdictOf(states[i + 1], ip, events[i].now).secs * SEC
    ensures VerdictOf(states[j], ip, now).Allowed? && VerdictOf(Cleanup(states[j], now), ip, now).Allowed?
  {
    RetryTight(states[i + 1], ip, events[i].now, now);
    StillSame(states, events, ip, i, j);
    CleanupKeepsVerdicts(states[j], now, ip, now);
  }

  lemma {:induction false} StillSame(states: seq<State>, events: seq<Event>, ip: Ip, i: nat, j: nat)
    requires IsRun(states, events) && i < j <= |events|
    requires forall k :: i < k < j ==> !FailsAt(events, ip, k)
    ensures ip in states[j].entries ==>
              ip in states[i + 1].entries && states[j].entries[ip] == states[i + 1].entries[ip]
  {
    if j > i + 1 {
      StillSame(states, events, ip, i, j - 1);
      assert states[j] == Step(states[j - 1], events[j - 1]) && !FailsAt(events, ip, j - 1);
    }
  }
}
