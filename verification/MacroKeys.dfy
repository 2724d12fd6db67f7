/** When a cancelled macro leaves the keyboard clean, and when it does not. */
module MacroKeys {
  import opened Options
  import opened HidTypes
  import opened MacroLane
  import opened MacroInvariant
  import opened MacroSafety

  /** The USB gadget is there and takes every report. */
  ghost predicate HidWorks(states: seq<State>, actions: seq<Action>)
    requires IsRun(states, actions)
  {
    forall i :: 0 <= i < |actions| && actions[i].Advance? && actions[i].alt ==> states[i].macros[actions[i].m].pc.Pause?
  }

  /** The last report of the macro holds no key, or it sent none. */
  ghost predicate EndsKeysUp(log: seq<Entry>, m: MacroId) {
    var r := ReportsOf(log, m);
    r == [] || r[|r| - 1].report == ALL_UP
  }

  predicate IsUp(step: MacroStep) { KeyReport(step.modifier, step.keys) == ALL_UP }

  /** Every cancelled macro with these steps has let go of its keys when it is done. */
  ghost predicate AlwaysReleases(steps: seq<MacroStep>) {
    forall states: seq<State>, actions: seq<Action>, m: MacroId ::
      EndsCancelled(states, actions, m, steps) ==> EndsKeysUp(states[|actions|].log, m)
  }

  ghost predicate EndsCancelled(states: seq<State>, actions: seq<Action>, m: MacroId, steps: seq<MacroStep>) {
    && IsRun(states, actions) && HidWorks(states, actions)
    && var s := states[|actions|];
    && m in s.macros && s.macros[m].pc.Done? && s.macros[m].outcome.Cancelled? && s.macros[m].steps == steps
  }

  // ---- Where a cancellation can strike ----

  /** With HID working, a cancelled macro that sent no all-up stopped before its last step. */
  ghost predicate StopsShort(t: Macro) {
    t.outcome.Cancelled? && !t.pc.KeysUp? ==> t.raised || t.sent == 0 || t.sent < |t.steps|
  }

  lemma StopsShortStep(t: Macro, v: View, alt: bool)
    requires ProgressOk(t) && StopsShort(t) && (alt ==> t.pc.Pause?)
    ensures StopsShort(StepMacro(t, v, alt))
  {
  }

  lemma StopsShortNext(s: State, a: Action, m: MacroId)
    requires Inv(s) && Enabled(s, a) && m in s.macros && StopsShort(s.macros[m])
    requires a.Advance? && a.alt ==> s.macros[a.m].pc.Pause?
    ensures m in Next(s, a).macros && StopsShort(Next(s, a).macros[m])
  {
    assert ProgressOk(s.macros[m]);
    if a.Advance? && a.m == m { StopsShortStep(s.macros[m], Look(s, m), a.alt); }
  }

  lemma {:induction false} StopsShortRun(states: seq<State>, actions: seq<Action>, i: nat, m: MacroId)
    requires IsRun(states, actions) && HidWorks(states, actions) && i < |states| && m in states[i].macros
    ensures StopsShort(states[i].macros[m])
  {
    if i > 0 && m in states[i - 1].macros {
      StopsShortRun(states, actions, i - 1, m);
      RunInv(states, actions, i - 1);
      StopsShortNext(states[i - 1], actions[i - 1], m);
    }
  }

  lemma UpStepsRelease(states: seq<State>, actions: seq<Action>, m: MacroId, steps: seq<MacroStep>)
    requires EndsCancelled(states, actions, m, steps)
    requires forall k :: 0 <= k < |steps| - 1 ==> IsUp(steps[k])
    ensures EndsKeysUp(states[|actions|].log, m)
  {
    var s := states[|actions|];
    RunInv(states, actions, |actions|);
    StopsShortRun(states, actions, |actions|, m);
    OwnReports(s, m);
    assert ProgressOk(s.macros[m]);
  }

  // ---- An interleaving that leaves step `k` down ----

  /** One more step on a run. */
  lemma Extend(states: seq<State>, actions: seq<Action>, a: Action) returns (states': seq<State>, actions': seq<Action>)
    requires IsRun(states, actions) && HidWorks(states, actions)
    requires Enabled(states[|actions|], a) && (a.Advance? && a.alt ==> states[|actions|].macros[a.m].pc.Pause?)
    ensures IsRun(states', actions') && HidWorks(states', actions') && |actions'| == |actions| + 1
    ensures states'[|actions'|] == Next(states[|actions|], a)
  {
    states', actions' := states + [Next(states[|actions|], a)], actions + [a];
  }

  ghost function Task(steps: seq<MacroStep>, pc: Pc, sent: nat, outcome: Outcome): Macro {
    Macro(steps, false, 0, 0, pc, 0, sent, false, outcome, false, {})
  }

  /** A lone macro, wherever it stands. */
  ghost function Alone(steps: seq<MacroStep>, pc: Pc, sent: nat, outcome: Outcome, running: bool): State
    requires sent <= |steps|
  {
    INIT.(macros := map[0 := Task(steps, pc, sent, outcome)], running := if running then Some((0, false)) else None,
          joined := [Typist(0)], log := Entries(0, steps, sent))
  }

  /** The same with a cancel under way. */
  ghost function Cancelling(steps: seq<MacroStep>, pc: Pc, sent: nat, outcome: Outcome,
                            running: bool, struck: bool, call: CallPc): State
    requires sent <= |steps|
  {
    Alone(steps, pc, sent, outcome, running)
      .(cancelEpoch := 1, cancels := [0], struck := if struck then map[0 := 0] else map[],
        calls := map[0 := Call(CancelAll, 1, call, 0)])
  }

  lemma ReachSpawned(steps: seq<MacroStep>) returns (states: seq<State>, actions: seq<Action>)
    ensures IsRun(states, actions) && HidWorks(states, actions)
    ensures states[|actions|] == INIT.(macros := map[0 := Task(steps, Spawned, 0, Pending)])
  {
    states, actions := [INIT], [];
    assert ReturnedCalls(INIT) == {};
    states, actions := Extend(states, actions, Request(0, steps, false));
    assert states[|actions|] == INIT.(macros := map[0 := Task(steps, Loading, 0, Pending)]);
    states, actions := Extend(states, actions, Advance(0, false));
  }

  lemma ReachPublish(steps: seq<MacroStep>) returns (states: seq<State>, actions: seq<Action>)
    ensures IsRun(states, actions) && HidWorks(states, actions)
    ensures states[|actions|] == Alone(steps, Publish, 0, Pending, false)
  {
    states, actions := ReachSpawned(steps);
    states, actions := Extend(states, actions, Advance(0, false));
    assert states[|actions|] == Alone(steps, CheckAll(false), 0, Pending, false);
    states, actions := Extend(states, actions, Advance(0, false));
  }

  lemma ReachTyping(steps: seq<MacroStep>) returns (states: seq<State>, actions: seq<Action>)
    ensures IsRun(states, actions) && HidWorks(states, actions)
    ensures states[|actions|] == Alone(steps, Poll(0), 0, Pending, true)
  {
    states, actions := ReachPublish(steps);
    states, actions := Extend(states, actions, Advance(0, false));
    assert states[|actions|] == Alone(steps, CheckAll(true), 0, Pending, true);
    states, actions := Extend(states, actions, Advance(0, false));
    assert states[|actions|] == Alone(steps, Announce, 0, Pending, true);
    states, actions := Extend(states, actions, Advance(0, false));
    assert states[|actions|] == Alone(steps, Enter, 0, Pending, true);
    states, actions := Extend(states, actions, Advance(0, false));
    assert states[|actions|] == Alone(steps, Poll(0), 0, Pending, true);
  }

  lemma ReachPoll(steps: seq<MacroStep>, k: nat) returns (states: seq<State>, actions: seq<Action>)
    requires k < |steps|
    ensures IsRun(states, actions) && HidWorks(states, actions)
    ensures states[|actions|] == Alone(steps, Poll(k), k, Pending, true)
    decreases k, 0
  {
    if k == 0 {
      states, actions := ReachTyping(steps);
    } else {
      states, actions := ReachPause(steps, k - 1);
      states, actions := Extend(states, actions, Advance(0, false));
      assert states[|actions|] == Alone(steps, Poll(k), k, Pending, true);
    }
  }

  lemma ReachPause(steps: seq<MacroStep>, k: nat) returns (states: seq<State>, actions: seq<Action>)
    requires k < |steps|
    ensures IsRun(states, actions) && HidWorks(states, actions)
    ensures states[|actions|] == Alone(steps, Pause(k), k + 1, Pending, true)
    decreases k, 1
  {
    states, actions := ReachPoll(steps, k);
    states, actions := Extend(states, actions, Advance(0, false));
    assert states[|actions|] == Alone(steps, Emit(k), k, Pending, true);
    states, actions := Extend(states, actions, Advance(0, false));
    assert states[|actions|] == Alone(steps, Pause(k), k + 1, Pending, true);
  }

  /** The cancel signals after the pause is over and before the next check. */
  lemma ReachCancel(steps: seq<MacroStep>, k: nat) returns (states: seq<State>, actions: seq<Action>)
    requires 0 < k < |steps|
    ensures IsRun(states, actions) && HidWorks(states, actions)
    ensures states[|actions|] == Cancelling(steps, Poll(k), k, Pending, true, true, Signalled)
  {
    states, actions := ReachPause(steps, k - 1);
    states, actions := Extend(states, actions, StartCancel(0));
    assert states[|actions|] == Cancelling(steps, Pause(k - 1), k, Pending, true, false, Bumped);
    states, actions := Extend(states, actions, Advance(0, false));
    assert states[|actions|] == Cancelling(steps, Poll(k), k, Pending, true, false, Bumped);
    states, actions := Extend(states, actions, Continue(0));
    assert states[|actions|] == Cancelling(steps, Poll(k), k, Pending, true, true, Signalled);
  }

  lemma ReachLeave(steps: seq<MacroStep>, k: nat) returns (states: seq<State>, actions: seq<Action>)
    requires 0 < k < |steps|
    ensures IsRun(states, actions) && HidWorks(states, actions)
    ensures states[|actions|] == Cancelling(steps, Leave, k, Cancelled, false, true, Signalled)
  {
    states, actions := ReachCancel(steps, k);
    states, actions := Extend(states, actions, Advance(0, false));
    assert states[|actions|] == Cancelling(steps, Farewell, k, Cancelled, true, true, Signalled);
    states, actions := Extend(states, actions, Advance(0, false));
    assert states[|actions|] == Cancelling(steps, Clear, k, Cancelled, true, true, Signalled);
    states, actions := Extend(states, actions, Advance(0, false));
    assert states[|actions|] == Cancelling(steps, Reply, k, Cancelled, false, true, Signalled);
    states, actions := Extend(states, actions, Advance(0, false));
    assert states[|actions|] == Cancelling(steps, Leave, k, Cancelled, false, true, Signalled);
  }

  /** The comment in `cancel_macro` says it returns once the running macro has released its keys. It
      need not: whatever the macro, the cancellation may be seen by the check before step `k` rather
      than during a pause. Then the cancel has returned and the last report is step `k - 1`'s. */
  lemma CancelMayLeaveKeyDown(steps: seq<MacroStep>, k: nat) returns (states: seq<State>, actions: seq<Action>)
    requires 0 < k < |steps|
    ensures EndsCancelled(states, actions, 0, steps)
    ensures var s := states[|actions|];
            && 0 in s.calls && s.calls[0].kind.CancelAll? && s.calls[0].pc.Returned?
            && s.log == Entries(0, steps, k)
  {
    states, actions := ReachLeave(steps, k);
    states, actions := Extend(states, actions, Advance(0, false));
    assert states[|actions|] == Cancelling(steps, Done, k, Cancelled, false, true, Signalled).(served := 1);
    states, actions := Extend(states, actions, Continue(0));
    assert states[|actions|].calls[0] == Call(CancelAll, 1, Joined, 1);
    states, actions := Extend(states, actions, Continue(0));
  }

  /** So a cancelled macro is sure to release its keys, HID working, exactly when every step but the
      last is itself an all-up. */
  lemma ReleasesIff(steps: seq<MacroStep>)
    ensures AlwaysReleases(steps) <==> forall k :: 0 <= k < |steps| - 1 ==> IsUp(steps[k])
  {
    if forall k :: 0 <= k < |steps| - 1 ==> IsUp(steps[k]) {
      forall states: seq<State>, actions: seq<Action>, m: MacroId | EndsCancelled(states, actions, m, steps)
        ensures EndsKeysUp(states[|actions|].log, m)
      {
        UpStepsRelease(states, actions, m, steps);
      }
    } else {
      var k :| 0 <= k < |steps| - 1 && !IsUp(steps[k]);
      var states, actions := CancelMayLeaveKeyDown(steps, k + 1);
      var log := states[|actions|].log;
      assert log == Entries(0, steps, k) + [StepEntry(0, steps[k])];
      ReportsConcat(Entries(0, steps, k), [StepEntry(0, steps[k])], 0);
      ReportsUniform([StepEntry(0, steps[k])], 0, 0);
      assert !EndsKeysUp(log, 0);
    }
  }
}
