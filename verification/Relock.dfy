/** The relock watch of app/src/hardware/v4l2.rs: a sliding window over source-change events that
    decides when to replug the input, backing off while the loop persists. */
module Relock {
  import opened Clock
  import opened Options

  const WINDOW: nat := 10 * SEC
  const THRESHOLD: nat := 6
  const SETTLE: nat := 300 * SEC

  datatype Verdict = Quiet | Storm(events: nat) | Replug(events: nat, attempt: nat)

  /** One `observe` call. */
  datatype Observation = Observation(now: Instant, events: nat)

  /** 30 s doubled per attempt, at most 600 s: `30 * (1 << attempts.min(5))` capped. */
  function Backoff(attempts: nat): (d: nat) {
    match attempts
    case 0 => 30 * SEC
    case 1 => 60 * SEC
    case 2 => 120 * SEC
    case 3 => 240 * SEC
    case 4 => 480 * SEC
    case _ => 600 * SEC
  }

  function Total(recent: seq<Observation>): nat {
    if recent == [] then 0 else Total(recent[..|recent| - 1]) + recent[|recent| - 1].events
  }

  /** The watch between two calls. */
  datatype State = State(recent: seq<Observation>, lastReplug: Option<Instant>, attempts: nat)

  const INIT := State([], None, 0)

  /** Observations older than the window, dropped from the front. */
  function Pruned(recent: seq<Observation>, now: Instant): seq<Observation> {
    if recent != [] && Since(now, recent[0].now) > WINDOW then Pruned(recent[1..], now) else recent
  }

  function Kept(s: State, o: Observation): seq<Observation> {
    Pruned(if o.events > 0 then s.recent + [o] else s.recent, o.now)
  }

  predicate Due(s: State, now: Instant) {
    s.attempts == 0 || s.lastReplug.None? || Since(now, s.lastReplug.value) >= Backoff(s.attempts - 1)
  }

  function Decide(s: State, o: Observation): (State, Verdict) {
    var recent := Kept(s, o);
    var total := Total(recent);
    if total < THRESHOLD then
      (if s.lastReplug.Some? && Since(o.now, s.lastReplug.value) >= SETTLE then State(recent, None, 0)
       else s.(recent := recent), Quiet)
    else if !Due(s, o.now) then (s.(recent := recent), Storm(total))
    else (State([], Some(o.now), s.attempts + 1), Replug(total, s.attempts + 1))
  }

  class RelockWatch {
    var recent: seq<Observation>
    var lastReplug: Option<Instant>
    var attempts: nat

    ghost function Abstract(): State
      reads this
    {
      State(recent, lastReplug, attempts)
    }

    constructor ()
      ensures Abstract() == INIT
    {
      recent, lastReplug, attempts := [], None, 0;
    }

    /** `observe` */
    method Observe(now: Instant, events: nat) returns (v: Verdict)
      modifies this
      ensures (Abstract(), v) == Decide(old(Abstract()), Observation(now, events))
    {
      if events > 0 {
        recent := recent + [Observation(now, events)];
      }
      ghost var all := recent;
      while recent != [] && Since(now, recent[0].now) > WINDOW
        invariant Pruned(recent, now) == Pruned(all, now)
        invariant lastReplug == old(lastReplug) && attempts == old(attempts)
        decreases |recent|
      {
        recent := recent[1..];
      }
      var total, i := 0, 0;
      while i < |recent|
        invariant 0 <= i <= |recent| && total == Total(recent[..i])
        invariant recent == Pruned(all, now) && lastReplug == old(lastReplug) && attempts == old(attempts)
      {
        assert recent[..i + 1][..i] == recent[..i];
        total := total + recent[i].events;
        i := i + 1;
      }
      assert recent[..i] == recent;
      if total < THRESHOLD {
        if lastReplug.Some? && Since(now, lastReplug.value) >= SETTLE {
          attempts := 0;
          lastReplug := None;
        }
        return Quiet;
      }
      var due := attempts == 0 || lastReplug.None? || Since(now, lastReplug.value) >= Backoff(attempts - 1);
      if !due { return Storm(total); }
      attempts := attempts + 1;
      lastReplug := Some(now);
      recent := [];
      return Replug(total, attempts);
    }
  }
}
