/** The login rate limiter of app/src/web/ratelimit.rs, with the clock passed in. */
module RateLimit {
  import opened Clock
  import opened Options

  type Ip = nat

  const MAX_ATTEMPTS: nat := 5
  const BASE_WINDOW: nat := 900 * SEC
  const MAX_BACKOFF_LEVEL: nat := 3
  const CLEANUP_INTERVAL: nat := 300 * SEC

  datatype Entry = Entry(attempts: nat, windowStart: Instant, backoffLevel: nat, lockedUntil: Option<Instant>)
  datatype State = State(entries: map<Ip, Entry>, lastCleanup: Option<Instant>)
  datatype Verdict = Allowed | RetryAfter(secs: nat)

  const INIT := State(map[], None)

  /** `BASE_WINDOW * (1 << level.min(MAX_BACKOFF_LEVEL))` */
  function WindowDuration(level: nat): (d: nat)
    ensures d >= BASE_WINDOW
  {
    if level == 0 then BASE_WINDOW else if level == 1 then 2 * BASE_WINDOW
    else if level == 2 then 4 * BASE_WINDOW else 8 * BASE_WINDOW
  }

  predicate Locked(e: Entry, now: Instant) { e.lockedUntil.Some? && now < e.lockedUntil.value }
  predicate Expired(e: Entry, now: Instant) { Since(now, e.windowStart) > WindowDuration(e.backoffLevel) }

  function Cleanup(s: State, now: Instant): State {
    if s.lastCleanup.Some? && Since(now, s.lastCleanup.value) < CLEANUP_INTERVAL then s
    else
      var kept :=
        map ip | ip in s.entries && (Locked(s.entries[ip], now) || !Expired(s.entries[ip], now)) :: s.entries[ip];
      State(kept, Some(now))
  }

  function VerdictOf(s: State, ip: Ip, now: Instant): Verdict {
    if ip in s.entries && Locked(s.entries[ip], now)
    then RetryAfter((s.entries[ip].lockedUntil.value - now) / SEC + 1)
    else Allowed
  }

  /** The entry after one more failure at `now`. */
  function Failed(e: Entry, now: Instant): Entry {
    if Expired(e, now) then
      Entry(1, now,
            if e.backoffLevel > 0 || e.attempts >= MAX_ATTEMPTS then MinLevel(e.backoffLevel + 1) else e.backoffLevel,
            None)
    else
      var attempts := e.attempts + 1;
      Entry(attempts, e.windowStart, e.backoffLevel,
            if attempts >= MAX_ATTEMPTS then Some(now + WindowDuration(e.backoffLevel)) else e.lockedUntil)
  }

  function MinLevel(level: nat): nat { if level <= MAX_BACKOFF_LEVEL then level else MAX_BACKOFF_LEVEL }

  function AfterFailure(s: State, ip: Ip, now: Instant): State {
    var c := Cleanup(s, now);
    var e := if ip in c.entries then c.entries[ip] else Entry(0, now, 0, None);
    c.(entries := c.entries[ip := Failed(e, now)])
  }

  function AfterSuccess(s: State, ip: Ip): State { s.(entries := s.entries - {ip}) }

  /** The limiter itself. */
  class RateLimiter {
    var entries: map<Ip, Entry>
    var lastCleanup: Option<Instant>

    ghost function Abstract(): State
      reads this
    {
      State(entries, lastCleanup)
    }

    constructor ()
      ensures Abstract() == INIT
    {
      entries, lastCleanup := map[], None;
    }

    method MaybeCleanup(now: Instant)
      modifies this
      ensures Abstract() == Cleanup(old(Abstract()), now)
    {
      var due := lastCleanup.None? || Since(now, lastCleanup.value) >= CLEANUP_INTERVAL;
      if !due { return; }
      lastCleanup := Some(now);
      entries := map ip | ip in entries && (Locked(entries[ip], now) || !Expired(entries[ip], now)) :: entries[ip];
    }

    method IsAllowed(ip: Ip, now: Instant) returns (v: Verdict)
      modifies this
      ensures Abstract() == Cleanup(old(Abstract()), now)
      ensures v == VerdictOf(Abstract(), ip, now)
    {
      MaybeCleanup(now);
      if ip !in entries { return Allowed; }
      var entry := entries[ip];
      if entry.lockedUntil.Some? && now < entry.lockedUntil.value {
        return RetryAfter((entry.lockedUntil.value - now) / SEC + 1);
      }
      return Allowed;
    }

    method RecordFailure(ip: Ip, now: Instant)
      modifies this
      ensures Abstract() == AfterFailure(old(Abstract()), ip, now)
    {
      MaybeCleanup(now);
      if ip !in entries {
        entries := entries[ip := Entry(0, now, 0, None)];
      }
      var entry := entries[ip];
      var win := WindowDuration(entry.backoffLevel);
      if Since(now, entry.windowStart) > win {
        if entry.backoffLevel > 0 || entry.attempts >= MAX_ATTEMPTS {
          entry := entry.(backoffLevel := MinLevel(entry.backoffLevel + 1));
        }
        entry := entry.(attempts := 1, windowStart := now, lockedUntil := None);
        entries := entries[ip := entry];
        return;
      }
      entry := entry.(attempts := entry.attempts + 1);
      if entry.attempts >= MAX_ATTEMPTS {
        entry := entry.(lockedUntil := Some(now + WindowDuration(entry.backoffLevel)));
      }
      entries := entries[ip := entry];
    }

    method RecordSuccess(ip: Ip)
      modifies this`entries
      ensures Abstract() == AfterSuccess(old(Abstract()), ip)
    {
      entries := entries - {ip};
    }
  }

  // ---- Cleaning up is invisible ----

  /** A clean-up changes no verdict, at its own time or later. */
  lemma CleanupKeepsVerdicts(s: State, t: Instant, ip: Ip, now: Instant)
    requires t <= now
    ensures VerdictOf(Cleanup(s, t), ip, now) == VerdictOf(s, ip, now)
  {
  }

  /** A clean-up is due. */
  predicate Due(s: State, now: Instant) {
    s.lastCleanup.None? || Since(now, s.lastCleanup.value) >= CLEANUP_INTERVAL
  }

  /** It does change what the next failure costs. An address that earned a longer window and let its
      window lapse gets it exactly if its entry escapes the clean-up: none is due, or it is still
      locked. Otherwise it starts afresh. */
  lemma EscalatesIff(s: State, ip: Ip, now: Instant)
    requires ip in s.entries && Expired(s.entries[ip], now)
    requires s.entries[ip].backoffLevel > 0 || s.entries[ip].attempts >= MAX_ATTEMPTS
    ensures AfterFailure(s, ip, now).entries[ip].backoffLevel ==
            if Due(s, now) && !Locked(s.entries[ip], now) then 0
            else if s.entries[ip].backoffLevel < 3 then s.entries[ip].backoffLevel + 1 else 3
  {
  }

  // ---- Waiting out a lock ----

  /** The announced wait is enough, and not a second too long. */
  lemma RetryTight(s: State, ip: Ip, now: Instant, later: Instant)
    requires VerdictOf(s, ip, now).RetryAfter? && now <= later
    ensures var n := VerdictOf(s, ip, now).secs;
            && (later >= now + n * SEC ==> VerdictOf(s, ip, later).Allowed?)
            && (later < now + (n - 1) * SEC ==> VerdictOf(s, ip, later).RetryAfter?)
  {
    var d := s.entries[ip].lockedUntil.value - now;
    assert d == SEC * (d / SEC) + d % SEC;
  }
}
