/** How a macro ends: left alone it types every step, and a cancellation during a pause lets go of its
    keys. */
module MacroOutcomes {
  import opened HidTypes
  import opened MacroLane
  import opened MacroInvariant
  import opened MacroSafety
  import opened MacroProgress
  import opened MacroKeys

  // ---- Why a macro ends ----

  /** Action `i` of the run is the macro finding USB HID missing, or one of its steps not taken. */
  ghost predicate HidFails(states: seq<State>, actions: seq<Action>, m: MacroId, i: nat)
    requires IsRun(states, actions) && i < |actions|
  {
    actions[i] == Advance(m, true) && var pc := states[i].macros[m].pc; pc.Enter? || pc.Emit?
  }

  ghost predicate Untouched(s: State, m: MacroId)
    requires m in s.macros
  {
    forall d :: d in s.calls ==> !Touches(s, d, m)
  }

  lemma FailedStep(t: Macro, v: View, alt: bool)
    requires StepMacro(t, v, alt).outcome.Failed?
    ensures t.outcome.Failed? || (alt && (t.pc.Enter? || t.pc.Emit?))
  {
  }

  lemma {:induction false} FailedForCause(states: seq<State>, actions: seq<Action>, j: nat, m: MacroId)
    requires IsRun(states, actions) && j <= |actions| && m in states[j].macros && states[j].macros[m].outcome.Failed?
    ensures exists i :: 0 <= i < j && HidFails(states, actions, m, i)
  {
    assert j > 0;
    var s, a := states[j - 1], actions[j - 1];
    if a.Advance? && a.m == m {
      FailedStep(s.macros[m], Look(s, m), a.alt);
      if !s.macros[m].outcome.Failed? { assert HidFails(states, actions, m, j - 1); }
    }
    if m in s.macros && s.macros[m].outcome.Failed? { FailedForCause(states, actions, j - 1, m); }
  }

  /** In every run, a macro that is done has replied, having reported every step, or it was touched by
      a call, or USB HID was missing or refused one of its steps. */
  lemma DoneForCause(states: seq<State>, actions: seq<Action>, j: nat, m: MacroId)
    requires IsRun(states, actions) && j <= |actions| && m in states[j].macros && states[j].macros[m].pc.Done?
    ensures || (states[j].macros[m].replied && ReportsOf(states[j].log, m) ==
                  Entries(m, states[j].macros[m].steps, |states[j].macros[m].steps|))
            || !Untouched(states[j], m)
            || exists i :: 0 <= i < j && HidFails(states, actions, m, i)
  {
    var s := states[j];
    RunInv(states, actions, j);
    assert ProgressOk(s.macros[m]);
    match s.macros[m].outcome
    case Completed => OwnReports(s, m);
    case Cancelled => CancelHasCulprit(s, m);
    case Failed => FailedForCause(states, actions, j, m);
    case Pending => assert false;
  }

  /** Left alone with HID working, a macro completes, wherever it came from: where a run with no new
      requests or calls can go no further, every macro that no cancel or close touched has replied and
      reported every step. */
  lemma LeftAloneCompletes(states: seq<State>, actions: seq<Action>, i: nat, m: MacroId)
    requires IsRun(states, actions) && HidWorks(states, actions) && i <= |actions|
    requires forall k :: i <= k < |actions| ==> Internal(actions[k])
    requires forall a :: Internal(a) ==> !Enabled(states[|actions|], a)
    requires m in states[|actions|].macros && Untouched(states[|actions|], m)
    ensures var t := states[|actions|].macros[m];
            t.replied && ReportsOf(states[|actions|].log, m) == Entries(m, t.steps, |t.steps|)
  {
    RunsSettle(states, actions, i);
    DoneForCause(states, actions, |actions|, m);
    assert forall k :: 0 <= k < |actions| ==> !HidFails(states, actions, m, k);
  }

  // ---- Cancelled during a pause ----

  /** The macro was cancelled in the pause after step `k`, and sends its all-up or has sent it. */
  ghost predicate Releasing(t: Macro, k: nat) {
    && t.sent == k + 1 <= |t.steps|
    && if t.raised then t.pc.Farewell? || t.pc.Clear? || t.pc.Reply? || t.pc.Leave? || t.pc.Done? else t.pc.KeysUp?
  }

  lemma ReleasingStep(t: Macro, v: View, alt: bool, k: nat)
    requires Releasing(t, k) && !t.pc.Done? && !(alt && t.pc.KeysUp?)
    ensures Releasing(StepMacro(t, v, alt), k) && StepMacro(t, v, alt).steps == t.steps
  {
  }

  lemma ReleasingNext(s: State, a: Action, m: MacroId, k: nat)
    requires Enabled(s, a) && m in s.macros && Releasing(s.macros[m], k)
    requires a.Advance? && a.alt ==> s.macros[a.m].pc.Pause?
    ensures var s' := Next(s, a);
            m in s'.macros && Releasing(s'.macros[m], k) && s'.macros[m].steps == s.macros[m].steps
  {
    if a.Advance? && a.m == m { ReleasingStep(s.macros[m], Look(s, m), a.alt, k); }
  }

  ghost predicate StillReleasing(s: State, m: MacroId, k: nat, steps: seq<MacroStep>) {
    m in s.macros && Releasing(s.macros[m], k) && s.macros[m].steps == steps
  }

  lemma ReleasingOn(states: seq<State>, actions: seq<Action>, i: nat, m: MacroId, k: nat, steps: seq<MacroStep>)
    requires IsRun(states, actions) && HidWorks(states, actions) && i < |actions|
    requires StillReleasing(states[i], m, k, steps)
    ensures StillReleasing(states[i + 1], m, k, steps)
  {
    ReleasingNext(states[i], actions[i], m, k);
  }

  lemma {:induction false} ReleasingRun(states: seq<State>, actions: seq<Action>, i: nat, j: nat,
                                        m: MacroId, k: nat, steps: seq<MacroStep>)
    requires IsRun(states, actions) && HidWorks(states, actions) && i <= j < |states|
    requires StillReleasing(states[i], m, k, steps)
    ensures StillReleasing(states[j], m, k, steps)
  {
    if i < j {
      ReleasingRun(states, actions, i, j - 1, m, k, steps);
      ReleasingOn(states, actions, j - 1, m, k, steps);
    }
  }

  lemma PauseBroken(t: Macro, v: View)
    requires ProgressOk(t) && t.pc.Pause?
    ensures Releasing(StepMacro(t, v, true), t.pc.done) && StepMacro(t, v, true).steps == t.steps
  {
  }

  lemma BreakReleases(s: State, m: MacroId)
    requires Inv(s) && Enabled(s, Advance(m, true)) && s.macros[m].pc.Pause?
    ensures var s' := Next(s, Advance(m, true)); m in s'.macros && Releasing(s'.macros[m], s.macros[m].pc.done)
  {
    assert ProgressOk(s.macros[m]);
    PauseBroken(s.macros[m], Look(s, m));
  }

  /** What the select does: a cancellation that wins over the pause after any step, the last included,
      is followed by an all-up, HID working. When the macro is done its reports are the steps so far
      and that all-up. */
  lemma PauseCancelReleases(states: seq<State>, actions: seq<Action>, i: nat, j: nat, m: MacroId, k: nat)
    requires IsRun(states, actions) && HidWorks(states, actions) && i < j <= |actions|
    requires actions[i] == Advance(m, true) && states[i].macros[m].pc == Pause(k)
    requires m in states[j].macros && states[j].macros[m].pc.Done?
    ensures var steps := states[j].macros[m].steps;
            k < |steps| && ReportsOf(states[j].log, m) == Entries(m, steps, k + 1) + [Entry(m, ALL_UP)]
  {
    RunInv(states, actions, i);
    BreakReleases(states[i], m);
    ReleasingRun(states, actions, i + 1, j, m, k, states[i + 1].macros[m].steps);
    RunInv(states, actions, j);
    OwnReports(states[j], m);
  }

  // ---- It happens ----

  /** A lone cancelled macro that has sent its all-up. */
  ghost function Released(steps: seq<MacroStep>, pc: Pc, sent: nat, running: bool): State
    requires sent <= |steps|
  {
    Cancelling(steps, pc, sent, Cancelled, running, true, Signalled)
      .(macros := map[0 := Task(steps, pc, sent, Cancelled).(raised := true)],
        log := Entries(0, steps, sent) + [Entry(0, ALL_UP)])
  }

  /** The cancel signals during the pause after step `k`. */
  lemma ReachBreak(steps: seq<MacroStep>, k: nat) returns (states: seq<State>, actions: seq<Action>)
    requires k < |steps|
    ensures IsRun(states, actions) && HidWorks(states, actions)
    ensures states[|actions|] == Cancelling(steps, KeysUp, k + 1, Cancelled, true, true, Signalled)
  {
    states, actions := ReachPause(steps, k);
    states, actions := Extend(states, actions, StartCancel(0));
    assert states[|actions|] == Cancelling(steps, Pause(k), k + 1, Pending, true, false, Bumped);
    states, actions := Extend(states, actions, Continue(0));
    assert states[|actions|] == Cancelling(steps, Pause(k), k + 1, Pending, true, true, Signalled);
    states, actions := Extend(states, actions, Advance(0, true));
    assert states[|actions|] == Cancelling(steps, KeysUp, k + 1, Cancelled, true, true, Signalled);
  }

  lemma ReachReleased(steps: seq<MacroStep>, k: nat) returns (states: seq<State>, actions: seq<Action>)
    requires k < |steps|
    ensures IsRun(states, actions) && HidWorks(states, actions)
    ensures states[|actions|] == Released(steps, Leave, k + 1, false)
  {
    states, actions := ReachBreak(steps, k);
    states, actions := Extend(states, actions, Advance(0, false));
    assert states[|actions|] == Released(steps, Farewell, k + 1, true);
    states, actions := Extend(states, actions, Advance(0, false));
    assert states[|actions|] == Released(steps, Clear, k + 1, true);
    states, actions := Extend(states, actions, Advance(0, false));
    assert states[|actions|] == Released(steps, Reply, k + 1, false);
    states, actions := Extend(states, actions, Advance(0, false));
    assert states[|actions|] == Released(steps, Leave, k + 1, false);
  }

  /** A cancellation can win over the pause after any step: there is an interleaving, HID working, where
      the cancel has returned and the log is the steps through `k` and an all-up. */
  lemma CancelMayRelease(steps: seq<MacroStep>, k: nat) returns (states: seq<State>, actions: seq<Action>)
    requires k < |steps|
    ensures EndsCancelled(states, actions, 0, steps)
    ensures var s := states[|actions|];
            && 0 in s.calls && s.calls[0].kind.CancelAll? && s.calls[0].pc.Returned?
            && s.log == Entries(0, steps, k + 1) + [Entry(0, ALL_UP)]
  {
    states, actions := ReachReleased(steps, k);
    states, actions := Extend(states, actions, Advance(0, false));
    assert states[|actions|] == Released(steps, Done, k + 1, false).(served := 1);
    states, actions := Extend(states, actions, Continue(0));
    assert states[|actions|].calls[0] == Call(CancelAll, 1, Joined, 1);
    states, actions := Extend(states, actions, Continue(0));
  }
}
