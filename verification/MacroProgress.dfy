/** The macro lane never gets stuck: left alone, every macro finishes and every call returns. */
module MacroProgress {
  import opened MacroLane
  import opened MacroInvariant
  import opened MapSums

  // ---- Work left ----

  /** How many steps a task can still take. */
  ghost function MacroWork(t: Macro): nat
    requires ProgressOk(t)
  {
    var n := 3 * |t.steps|;
    match t.pc
    case Loading => n + 15
    case Spawned => n + 14
    case CheckAll(second) => if second then n + 10 else n + 13
    case CheckChannel(second) => if second then n + 9 else n + 12
    case Publish => n + 11
    case Unpublish => 2
    case Announce => n + 8
    case Enter => n + 7
    case Poll(k) => n - 3 * k + 6
    case Emit(k) => n - 3 * k + 5
    case Pause(k) => n - 3 * k + 4
    case KeysUp => 5
    case Farewell => 4
    case Clear => 3
    case Reply => 2
    case Leave => 1
    case Done => 0
  }

  ghost function CallWork(call: Call): nat {
    match call.pc case Bumped => 3 case Signalled => 2 case Joined => 1 case Returned => 0
  }

  ghost function MacrosWork(s: State): map<nat, nat>
    requires ProgressInv(s)
  {
    map m | m in s.macros :: MacroWork(s.macros[m])
  }

  ghost function CallsWork(s: State): map<nat, nat> { map c | c in s.calls :: CallWork(s.calls[c]) }

  ghost function Work(s: State): nat
    requires ProgressInv(s)
  {
    Total(MacrosWork(s)) + Total(CallsWork(s))
  }

  /** Nothing in this action comes from outside. */
  predicate Internal(a: Action) { a.Advance? || a.Continue? }

  lemma MacroWorkDrops(t: Macro, v: View, alt: bool)
    requires ProgressOk(t) && !t.pc.Done?
    ensures ProgressOk(StepMacro(t, v, alt)) && MacroWork(StepMacro(t, v, alt)) < MacroWork(t)
  {
    StepProgress(t, v, alt);
  }

  lemma AdvanceWork(s: State, m: MacroId, alt: bool, t': Macro)
    requires ProgressInv(s) && m in s.macros && ProgressOk(t')
    requires ProgressOk(s.macros[m]) && MacroWork(t') < MacroWork(s.macros[m])
    ensures var s' := Effect(s, m, alt, t'); ProgressInv(s') && Work(s') < Work(s)
  {
    var s' := Effect(s, m, alt, t');
    assert MacrosWork(s') == MacrosWork(s)[m := MacroWork(t')];
    TotalUpdate(MacrosWork(s), m, MacroWork(t'));
    assert CallsWork(s') == CallsWork(s);
  }

  lemma ContinueWork(s: State, c: CallId)
    requires ProgressInv(s) && Enabled(s, Continue(c))
    ensures var s' := ContinueCall(s, c); ProgressInv(s') && Work(s') < Work(s)
  {
    var s' := ContinueCall(s, c);
    assert CallsWork(s') == CallsWork(s)[c := CallWork(s'.calls[c])];
    TotalUpdate(CallsWork(s), c, CallWork(s'.calls[c]));
    assert MacrosWork(s') == MacrosWork(s);
  }

  lemma WorkDrops(s: State, a: Action)
    requires ProgressInv(s) && Enabled(s, a) && Internal(a)
    ensures ProgressInv(Next(s, a)) && Work(Next(s, a)) < Work(s)
  {
    match a
    case Advance(m, alt) =>
      MacroWorkDrops(s.macros[m], Look(s, m), alt);
      AdvanceWork(s, m, alt, StepMacro(s.macros[m], Look(s, m), alt));
    case Continue(c) => ContinueWork(s, c);
  }

  // ---- No deadlock ----

  ghost predicate Settled(s: State) {
    && (forall m :: m in s.macros ==> s.macros[m].pc.Done?)
    && (forall c :: c in s.calls ==> s.calls[c].pc.Returned?)
  }

  /** The lane holder can move once the dispatcher lock is free. */
  lemma HolderMoves(s: State) returns (a: Action)
    requires Inv(s) && s.lock.None? && s.served < |s.joined|
    ensures Internal(a) && Enabled(s, a)
  {
    assert PartyOk(s, s.served);
    match s.joined[s.served]
    case Typist(m) =>
      assert TypistOk(s, m);
      a := Advance(m, false);
    case Canceller(c) =>
      assert CallOk(s, c);
      a := Continue(c);
  }

  /** While anything is unfinished, some task or call can take a step. */
  lemma NeverStuck(s: State)
    requires Inv(s) && !Settled(s)
    ensures exists a :: Internal(a) && Enabled(s, a)
  {
    if s.lock.Some? {
      assert CallOk(s, s.lock.value);
      assert Enabled(s, Continue(s.lock.value));
    } else if s.served < |s.joined| {
      var a := HolderMoves(s);
    } else if m :| m in s.macros && !s.macros[m].pc.Done? {
      assert TypistOk(s, m);
      assert Enabled(s, Advance(m, false));
    } else {
      var c :| c in s.calls && !s.calls[c].pc.Returned?;
      assert CallOk(s, c);
      assert Enabled(s, Continue(c));
    }
  }

  /** From any reachable state, a run with no new requests or calls takes at most `Work` more steps,
      and where it can go no further every macro is done and every cancel has returned. */
  lemma {:induction false} RunsSettle(states: seq<State>, actions: seq<Action>, i: nat)
    requires IsRun(states, actions) && i <= |actions|
    requires forall k :: i <= k < |actions| ==> Internal(actions[k])
    ensures Inv(states[i]) && |actions| - i <= Work(states[i])
    ensures (forall a :: Internal(a) ==> !Enabled(states[|actions|], a)) ==> Settled(states[|actions|])
    decreases |actions| - i
  {
    RunInv(states, actions, i);
    if i < |actions| {
      RunsSettle(states, actions, i + 1);
      WorkDrops(states[i], actions[i]);
    } else if !Settled(states[i]) {
      NeverStuck(states[i]);
    }
  }
}
