/** What the macro lane promises, over every interleaving. */
module MacroSafety {
  import opened HidTypes
  import opened MacroLane
  import opened MacroInvariant

  /** The reports one macro put in the log, in order. */
  ghost function ReportsOf(log: seq<Entry>, m: MacroId): seq<Entry> {
    if log == [] then []
    else
      var last := log[|log| - 1];
      ReportsOf(log[..|log| - 1], m) + if last.owner == m then [last] else []
  }

  lemma {:induction false} ReportsConcat(a: seq<Entry>, b: seq<Entry>, m: MacroId)
    ensures ReportsOf(a + b, m) == ReportsOf(a, m) + ReportsOf(b, m)
  {
    if b == [] {
      assert a + b == a;
    } else {
      assert (a + b)[..|a + b| - 1] == a + b[..|b| - 1];
      ReportsConcat(a, b[..|b| - 1], m);
    }
  }

  lemma {:induction false} ReportsUniform(log: seq<Entry>, owner: MacroId, m: MacroId)
    requires forall i :: 0 <= i < |log| ==> log[i].owner == owner
    ensures ReportsOf(log, m) == if owner == m then log else []
  {
    if log != [] { ReportsUniform(log[..|log| - 1], owner, m); }
  }

  lemma ReportsOfBlock(s: State, p: Party, m: MacroId)
    requires m in s.macros && s.macros[m].sent <= |s.macros[m].steps|
    ensures ReportsOf(Block(s, p), m) == if p == Typist(m) then Typed(m, s.macros[m]) else []
  {
    if p.Typist? { ReportsUniform(Block(s, p), p.m, m); }
  }

  /** A list that grows once, by `x` at place `pos`. */
  lemma {:induction false} GrowsOnce<T>(parts: seq<seq<T>>, pos: nat, x: seq<T>, n: nat)
    requires n < |parts| && parts[0] == []
    requires forall k :: 0 <= k < n ==> parts[k + 1] == parts[k] + if k == pos then x else []
    ensures parts[n] == if pos < n then x else []
  {
    if n > 0 {
      GrowsOnce(parts, pos, x, n - 1);
      assert parts[(n - 1) + 1] == parts[n - 1] + if n - 1 == pos then x else [];
    }
  }

  /** Party `n` adds what macro `m` typed if it is that macro, and nothing of `m` otherwise. */
  lemma ReportsStep(s: State, n: nat, m: MacroId, typed: seq<Entry>)
    requires n < |s.joined| && m in s.macros && s.macros[m].sent <= |s.macros[m].steps|
    requires typed == Typed(m, s.macros[m])
    ensures ReportsOf(Blocks(s, n + 1), m) ==
            ReportsOf(Blocks(s, n), m) + if s.joined[n] == Typist(m) then typed else []
  {
    ReportsConcat(Blocks(s, n), Block(s, s.joined[n]), m);
    ReportsOfBlock(s, s.joined[n], m);
  }

  ghost function Parts(s: State, m: MacroId): (parts: seq<seq<Entry>>)
    ensures |parts| == |s.joined| + 1 && forall k :: 0 <= k <= |s.joined| ==> parts[k] == ReportsOf(Blocks(s, k), m)
  {
    seq(|s.joined| + 1, (k: nat) requires k <= |s.joined| => ReportsOf(Blocks(s, k), m))
  }

  /** If a macro is in the lane's order at most once, and has typed only if it is, the log's blocks
      hold just what it typed. */
  lemma ReportsInBlocks(s: State, m: MacroId, pos: nat, typed: seq<Entry>)
    requires m in s.macros && s.macros[m].sent <= |s.macros[m].steps| && typed == Typed(m, s.macros[m])
    requires forall k :: 0 <= k < |s.joined| && s.joined[k] == Typist(m) ==> k == pos
    requires typed != [] ==> pos < |s.joined| && s.joined[pos] == Typist(m)
    ensures ReportsOf(Blocks(s, |s.joined|), m) == typed
  {
    var parts := Parts(s, m);
    forall k | 0 <= k < |s.joined| ensures parts[k + 1] == parts[k] + if k == pos then typed else [] {
      ReportsStep(s, k, m, typed);
    }
    GrowsOnce(parts, pos, typed, |s.joined|);
  }

  lemma {:induction false} TailBlocks(s: State, n: nat)
    requires s.served < n <= |s.joined|
    requires forall i :: s.served < i < n ==> Block(s, s.joined[i]) == []
    ensures Blocks(s, n) == Blocks(s, s.served) + Block(s, s.joined[s.served])
  {
    if n - 1 > s.served { TailBlocks(s, n - 1); }
  }

  /** The first `k` steps of the macro, each as one report, then at most one all-up. */
  ghost predicate PrefixThenUp(b: seq<Entry>, m: MacroId, steps: seq<MacroStep>, k: nat) {
    && k <= |steps| && k <= |b| <= k + 1
    && (forall i :: 0 <= i < k ==> b[i] == StepEntry(m, steps[i]))
    && (|b| == k + 1 ==> b[k] == Entry(m, ALL_UP))
  }

  ghost predicate BlockShape(s: State, p: Party)
    requires p.Typist?
  {
    p.m in s.macros && exists k :: PrefixThenUp(Block(s, p), p.m, s.macros[p.m].steps, k)
  }

  /** The log is the parties' blocks, one after another in the order they reached the lane; no two
      places of that order name the same macro, and each block is a prefix of the macro's steps
      followed by at most one all-up report. */
  lemma LogIsBlocks(s: State)
    requires Inv(s)
    ensures s.log == Blocks(s, |s.joined|)
    ensures forall i, j :: 0 <= i < j < |s.joined| ==> s.joined[i] != s.joined[j]
    ensures forall i :: 0 <= i < |s.joined| && s.joined[i].Typist? ==> BlockShape(s, s.joined[i])
  {
    forall i | s.served < i < |s.joined| ensures Block(s, s.joined[i]) == [] { WaitingBlock(s, i); }
    if s.served < |s.joined| { TailBlocks(s, |s.joined|); }
    forall i, j | 0 <= i < j < |s.joined| ensures s.joined[i] != s.joined[j] {
      assert PartyOk(s, i) && PartyOk(s, j);
    }
    forall i | 0 <= i < |s.joined| && s.joined[i].Typist? ensures BlockShape(s, s.joined[i]) {
      var m := s.joined[i].m;
      assert PartyOk(s, i) && ProgressOk(s.macros[m]);
      assert PrefixThenUp(Block(s, s.joined[i]), m, s.macros[m].steps, s.macros[m].sent);
    }
  }

  /** The reports tagged with a macro are exactly what it has typed. */
  lemma OwnReports(s: State, m: MacroId)
    requires Inv(s) && m in s.macros
    ensures ReportsOf(s.log, m) == Typed(m, s.macros[m])
  {
    LogIsBlocks(s);
    assert TypistOk(s, m) && ProgressOk(s.macros[m]);
    forall i | 0 <= i < |s.joined| && s.joined[i] == Typist(m) ensures i == s.macros[m].pos { assert PartyOk(s, i); }
    ReportsInBlocks(s, m, s.macros[m].pos, Typed(m, s.macros[m]));
  }

  // ---- Cancelling ----

  ghost predicate Same(t: Macro, t': Macro) { t'.steps == t.steps && t'.sent == t.sent && t'.raised == t.raised }

  lemma SilentLocal(t: Macro, v: View, alt: bool)
    requires !Typing(t.pc)
    ensures Same(t, StepMacro(t, v, alt))
  {
  }

  /** Once a canceller has returned, a macro it made stale takes no step that reports. */
  lemma SilentStep(s: State, a: Action, c: CallId, m: MacroId)
    requires Inv(s) && Enabled(s, a) && c in s.calls && m in s.macros
    requires s.calls[c].kind.CancelAll? && s.calls[c].pc.Returned? && s.macros[m].epochAll < s.calls[c].epoch
    ensures var s' := Next(s, a);
            && c in s'.calls && s'.calls[c] == s.calls[c]
            && m in s'.macros && s'.macros[m].epochAll == s.macros[m].epochAll
            && Same(s.macros[m], s'.macros[m])
  {
    assert Awaited(s, s.calls[c]);
    if a.Advance? && a.m == m {
      assert !Typing(s.macros[m].pc);
      SilentLocal(s.macros[m], Look(s, m), a.alt);
      StepEpochs(s.macros[m], Look(s, m), a.alt);
    }
  }

  lemma {:induction false} SilentRun(states: seq<State>, actions: seq<Action>, i: nat, j: nat, c: CallId, m: MacroId)
    requires IsRun(states, actions) && i <= j < |states|
    requires c in states[i].calls && m in states[i].macros
    requires states[i].calls[c].kind.CancelAll? && states[i].calls[c].pc.Returned?
    requires states[i].macros[m].epochAll < states[i].calls[c].epoch
    ensures c in states[j].calls && states[j].calls[c] == states[i].calls[c]
    ensures m in states[j].macros && states[j].macros[m].epochAll == states[i].macros[m].epochAll
    ensures Same(states[i].macros[m], states[j].macros[m])
  {
    if i < j {
      SilentRun(states, actions, i, j - 1, c, m);
      RunInv(states, actions, j - 1);
      SilentStep(states[j - 1], actions[j - 1], c, m);
    }
  }

  /** When `cancel_macro` has returned, every macro that reached the lane before it is finished and
      no macro that captured its epochs before the bump ever reports again. */
  lemma CancelSilences(states: seq<State>, actions: seq<Action>, i: nat, c: CallId, m: MacroId)
    requires IsRun(states, actions) && i < |states|
    requires c in states[i].calls && states[i].calls[c].kind.CancelAll? && states[i].calls[c].pc.Returned?
    requires m in states[i].macros
    ensures states[i].macros[m].epochAll < states[i].calls[c].epoch ==>
              forall j :: i <= j < |states| ==> ReportsOf(states[j].log, m) == ReportsOf(states[i].log, m)
    ensures InLane(states[i].macros[m].pc) ==> states[i].calls[c].pos < states[i].macros[m].pos
  {
    var s := states[i];
    RunInv(states, actions, i);
    assert TypistOk(s, m) && CallOk(s, c);
    if s.macros[m].epochAll < s.calls[c].epoch {
      forall j | i <= j < |states| ensures ReportsOf(states[j].log, m) == ReportsOf(s.log, m) {
        SilentRun(states, actions, i, j, c, m);
        RunInv(states, actions, j);
        OwnReports(s, m);
        OwnReports(states[j], m);
      }
    }
  }

  // ---- Signals: the second check at work ----

  /** Reports of its own steps a macro may still be committed to. */
  ghost function Committed(t: Macro): nat { t.sent + if t.pc.Emit? then 1 else 0 }

  lemma CommittedLocal(t: Macro, v: View, alt: bool)
    requires ProgressOk(t) && (Armed(t.pc) ==> v.struck)
    ensures Committed(StepMacro(t, v, alt)) <= Committed(t)
  {
  }

  lemma CommittedStep(s: State, a: Action, c: CallId, m: MacroId)
    requires Inv(s) && Enabled(s, a) && c in s.calls && m in s.macros
    requires !s.calls[c].pc.Bumped? && Stales(s.calls[c], s.macros[m])
    ensures var s' := Next(s, a);
            && c in s'.calls && !s'.calls[c].pc.Bumped? && m in s'.macros
            && Stales(s'.calls[c], s'.macros[m]) && Committed(s'.macros[m]) <= Committed(s.macros[m])
  {
    assert ProgressOk(s.macros[m]) && TokenOk(s, s.calls[c], m);
    if a.Advance? && a.m == m {
      StepEpochs(s.macros[m], Look(s, m), a.alt);
      StepPublishes(s.macros[m], Look(s, m), a.alt);
      CommittedLocal(s.macros[m], Look(s, m), a.alt);
    }
  }

  lemma {:induction false} CommittedRun(states: seq<State>, actions: seq<Action>, i: nat, j: nat, c: CallId, m: MacroId)
    requires IsRun(states, actions) && i <= j < |states|
    requires c in states[i].calls && m in states[i].macros
    requires !states[i].calls[c].pc.Bumped? && Stales(states[i].calls[c], states[i].macros[m])
    ensures c in states[j].calls && !states[j].calls[c].pc.Bumped?
    ensures m in states[j].macros && Stales(states[j].calls[c], states[j].macros[m])
    ensures Committed(states[j].macros[m]) <= Committed(states[i].macros[m])
  {
    if i < j {
      CommittedRun(states, actions, i, j - 1, c, m);
      RunInv(states, actions, j - 1);
      CommittedStep(states[j - 1], actions[j - 1], c, m);
    }
  }

  /** Once a cancel or close has signalled, a macro that captured its epochs before the bump sends
      at most the one report it was already committed to, and at most one all-up after it. */
  lemma SignalBounds(states: seq<State>, actions: seq<Action>, i: nat, j: nat, c: CallId, m: MacroId)
    requires IsRun(states, actions) && i <= j < |states|
    requires c in states[i].calls && m in states[i].macros
    requires !states[i].calls[c].pc.Bumped? && Stales(states[i].calls[c], states[i].macros[m])
    ensures m in states[j].macros
    ensures states[j].macros[m].sent <= states[i].macros[m].sent + (if states[i].macros[m].pc.Emit? then 1 else 0)
    ensures |ReportsOf(states[j].log, m)| <= states[j].macros[m].sent + 1
  {
    CommittedRun(states, actions, i, j, c, m);
    RunInv(states, actions, j);
    OwnReports(states[j], m);
  }

  // ---- Nobody is cancelled without cause ----

  lemma PastStep(s: State, a: Action, c: CallId, m: MacroId)
    requires Enabled(s, a) && c in s.calls && s.calls[c].pc.Returned?
    requires m in s.macros ==> c in s.macros[m].past
    ensures var s' := Next(s, a);
            && c in s'.calls && s'.calls[c].pc.Returned?
            && (m in s'.macros ==> c in s'.macros[m].past)
  {
    if a.Advance? { StepEpochs(s.macros[a.m], Look(s, a.m), a.alt); }
  }

  lemma {:induction false} PastGrows(states: seq<State>, actions: seq<Action>, i: nat, j: nat, c: CallId, m: MacroId)
    requires IsRun(states, actions) && i <= j < |states|
    requires c in states[i].calls && states[i].calls[c].pc.Returned? && m !in states[i].macros
    ensures c in states[j].calls && states[j].calls[c].pc.Returned?
    ensures m in states[j].macros ==> c in states[j].macros[m].past
  {
    if i < j {
      PastGrows(states, actions, i, j - 1, c, m);
      PastStep(states[j - 1], actions[j - 1], c, m);
    }
  }

  /** The call has cancelled the macro's token, or bumped an epoch the macro watches after the macro
      captured it. */
  ghost predicate Touches(s: State, d: CallId, m: MacroId)
    requires d in s.calls && m in s.macros
  {
    (m in s.struck && s.struck[m] == d) || Stales(s.calls[d], s.macros[m])
  }

  /** Nothing else cancels: a cancelled macro was touched by a call. */
  lemma CancelHasCulprit(s: State, m: MacroId)
    requires Inv(s) && m in s.macros && s.macros[m].outcome.Cancelled?
    ensures exists d :: d in s.calls && Touches(s, d, m)
  {
    assert CancelledOk(s, m);
    var t := s.macros[m];
    var d :=
      if m in s.struck then s.struck[m]
      else if t.epochAll < s.cancelEpoch then s.cancels[t.epochAll] else s.closes[t.epochChannel];
    if m in s.struck { assert StruckOk(s, m); }
    assert Touches(s, d, m);
  }

  /** A call that had returned before the macro was requested never touches it. */
  lemma ReturnedCallSpares(states: seq<State>, actions: seq<Action>, i: nat, j: nat, c: CallId, m: MacroId)
    requires IsRun(states, actions) && i <= j < |states|
    requires c in states[i].calls && states[i].calls[c].pc.Returned?
    requires m !in states[i].macros && m in states[j].macros
    ensures c in states[j].calls && !Touches(states[j], c, m)
  {
    var s := states[j];
    RunInv(states, actions, j);
    PastGrows(states, actions, i, j, c, m);
    assert PastOk(s, s.macros[m], c);
    if m in s.struck { assert StruckOk(s, m); }
  }

  /** Closing the channel never touches a macro that came from elsewhere. */
  lemma CloseSparesOthers(s: State, c: CallId, m: MacroId)
    requires Inv(s) && c in s.calls && m in s.macros
    requires s.calls[c].kind.CloseChannel? && !s.macros[m].fromChannel
    ensures !Touches(s, c, m)
  {
    if m in s.struck { assert StruckOk(s, m); }
  }

  /** In every run: a macro cancelled by `j` was touched by a call that had not returned when the
      macro was requested after `i`, an explicit cancel unless the channel started the macro. */
  lemma CancelledForCause(states: seq<State>, actions: seq<Action>, i: nat, j: nat, m: MacroId)
    requires IsRun(states, actions) && i <= j < |states|
    requires m !in states[i].macros && m in states[j].macros && states[j].macros[m].outcome.Cancelled?
    ensures exists d :: d in states[j].calls && Touches(states[j], d, m)
              && !(d in states[i].calls && states[i].calls[d].pc.Returned?)
              && (states[j].calls[d].kind.CancelAll? || states[j].macros[m].fromChannel)
  {
    var s := states[j];
    RunInv(states, actions, j);
    CancelHasCulprit(s, m);
    var d :| d in s.calls && Touches(s, d, m);
    if d in states[i].calls && states[i].calls[d].pc.Returned? {
      ReturnedCallSpares(states, actions, i, j, d, m);
      assert false;
    }
    if s.calls[d].kind.CloseChannel? && !s.macros[m].fromChannel {
      CloseSparesOthers(s, d, m);
      assert false;
    }
  }

  // ---- What the parties see ----

  /** `running_macro` is empty or names the macro that holds the lane. */
  lemma RunningHoldsLane(s: State)
    requires Inv(s) && s.running.Some?
    ensures s.served < |s.joined| && s.joined[s.served] == Typist(s.running.value.0)
  {
    assert TypistOk(s, s.running.value.0);
  }

  ghost predicate AllReported(log: seq<Entry>, m: MacroId, steps: seq<MacroStep>, k: nat) {
    && k + |steps| <= |log|
    && forall i :: 0 <= i < |steps| ==> log[k + i] == StepEntry(m, steps[i])
  }

  lemma {:induction false} BlockPlace(s: State, n: nat, p: nat) returns (k: nat)
    requires p < n <= |s.joined|
    ensures k + |Block(s, s.joined[p])| <= |Blocks(s, n)|
    ensures Blocks(s, n)[k..k + |Block(s, s.joined[p])|] == Block(s, s.joined[p])
  {
    if p == n - 1 {
      k := |Blocks(s, n - 1)|;
    } else {
      k := BlockPlace(s, n - 1, p);
    }
  }

  /** Where a macro's block lies in the log. */
  lemma OwnBlock(s: State, m: MacroId) returns (k: nat)
    requires Inv(s) && m in s.macros && (InLane(s.macros[m].pc) || s.macros[m].pc.Done?)
    ensures s.macros[m].sent <= |s.macros[m].steps|
    ensures k + |Typed(m, s.macros[m])| <= |s.log|
    ensures s.log[k..k + |Typed(m, s.macros[m])|] == Typed(m, s.macros[m])
  {
    OwnPlace(s, m);
    LogIsBlocks(s);
    k := PlacedBlock(s, m, s.macros[m].pos);
  }

  lemma PlacedBlock(s: State, m: MacroId, p: nat) returns (k: nat)
    requires p < |s.joined| && s.joined[p] == Typist(m) && s.log == Blocks(s, |s.joined|)
    requires m in s.macros && s.macros[m].sent <= |s.macros[m].steps|
    ensures k + |Typed(m, s.macros[m])| <= |s.log|
    ensures s.log[k..k + |Typed(m, s.macros[m])|] == Typed(m, s.macros[m])
  {
    k := BlockPlace(s, |s.joined|, p);
  }

  lemma OwnPlace(s: State, m: MacroId)
    requires Inv(s) && m in s.macros && (InLane(s.macros[m].pc) || s.macros[m].pc.Done?)
    ensures s.macros[m].sent <= |s.macros[m].steps|
    ensures s.macros[m].pos < |s.joined| && s.joined[s.macros[m].pos] == Typist(m)
  {
    assert TypistOk(s, m) && ProgressOk(s.macros[m]);
  }

  lemma BlockReports(log: seq<Entry>, m: MacroId, t: Macro, k: nat)
    requires t.sent == |t.steps| && k + |Typed(m, t)| <= |log| && log[k..k + |Typed(m, t)|] == Typed(m, t)
    ensures AllReported(log, m, t.steps, k)
  {
    forall i | 0 <= i < |t.steps| ensures log[k + i] == StepEntry(m, t.steps[i]) {
      assert log[k..k + |Typed(m, t)|][i] == Typed(m, t)[i];
    }
  }

  /** `play_macro` returns Ok only if every step was reported, back to back with no other macro's
      report and no all-up between them, and nothing else was reported for it. */
  lemma OkMeansAllReported(s: State, m: MacroId)
    requires Inv(s) && m in s.macros && s.macros[m].replied
    ensures exists k :: AllReported(s.log, m, s.macros[m].steps, k)
    ensures |ReportsOf(s.log, m)| == |s.macros[m].steps|
  {
    assert ProgressOk(s.macros[m]);
    OwnReports(s, m);
    var k := OwnBlock(s, m);
    BlockReports(s.log, m, s.macros[m], k);
  }

  /** In every state of every run: one macro at a time, in the order they reached the lane. */
  lemma LaneSerialises(states: seq<State>, actions: seq<Action>, i: nat)
    requires IsRun(states, actions) && i < |states|
    ensures var s := states[i];
            && s.log == Blocks(s, |s.joined|)
            && (forall k, l :: 0 <= k < l < |s.joined| ==> s.joined[k] != s.joined[l])
            && (forall k :: 0 <= k < |s.joined| && s.joined[k].Typist? ==> BlockShape(s, s.joined[k]))
            && (s.running.Some? ==> s.served < |s.joined| && s.joined[s.served] == Typist(s.running.value.0))
            && (forall m :: m in s.macros && s.macros[m].replied ==>
                  exists k :: AllReported(s.log, m, s.macros[m].steps, k))
  {
    var s := states[i];
    RunInv(states, actions, i);
    LogIsBlocks(s);
    if s.running.Some? { RunningHoldsLane(s); }
    forall m | m in s.macros && s.macros[m].replied
      ensures exists k :: AllReported(s.log, m, s.macros[m].steps, k)
    {
      OkMeansAllReported(s, m);
    }
  }

  // ---- What the host receives ----

  /** The macro reports among the frames, in order. */
  ghost function MacroPart(wire: seq<Frame>): seq<Entry> {
    if wire == [] then []
    else
      var last := wire[|wire| - 1];
      MacroPart(wire[..|wire| - 1]) + if last.Tagged? then [last.entry] else []
  }

  lemma {:induction false} PartConcat(a: seq<Frame>, b: seq<Frame>)
    ensures MacroPart(a + b) == MacroPart(a) + MacroPart(b)
  {
    if b == [] {
      assert a + b == a;
    } else {
      assert (a + b)[..|a + b| - 1] == a + b[..|b| - 1];
      PartConcat(a, b[..|b| - 1]);
    }
  }

  lemma {:induction false} PartOfTagged(entries: seq<Entry>)
    ensures MacroPart(Tag(entries)) == entries
  {
    if entries != [] {
      var n := |entries| - 1;
      PartOfTagged(entries[..n]);
      assert Tag(entries)[..n] == Tag(entries[..n]);
    }
  }

  /** However live reports fall between them, the macro reports the host receives are the log, so
      all that is said of the log is said of them. */
  lemma {:induction false} WireHoldsLog(states: seq<State>, actions: seq<Action>, i: nat)
    requires IsRun(states, actions) && i <= |actions|
    ensures MacroPart(Wire(states, actions, i)) == states[i].log
  {
    if i > 0 {
      WireHoldsLog(states, actions, i - 1);
      FramesGrowLog(Wire(states, actions, i - 1), states[i - 1], actions[i - 1]);
    }
  }

  lemma FramesGrowLog(wire: seq<Frame>, s: State, a: Action)
    requires Enabled(s, a) && MacroPart(wire) == s.log
    ensures MacroPart(wire + Sends(s, a)) == Next(s, a).log
  {
    PartConcat(wire, Sends(s, a));
    SendsGrowLog(s, a);
  }

  lemma SendsGrowLog(s: State, a: Action)
    requires Enabled(s, a)
    ensures Next(s, a).log == s.log + MacroPart(Sends(s, a))
  {
    match a
    case Advance(m, alt) => PartOfTagged(Emission(m, s.macros[m], alt));
    case TypeLive(report) =>
      assert [Loose(report)][..0] == [];
    case _ =>
  }
}
