/** The inductive invariant of the macro lane, kept by every atomic action. */
module MacroInvariant {
  import opened Options
  import opened MacroLane

  /** The lane: positions and program counters agree, and only the holder is past the first load. */
  ghost predicate LaneInv(s: State) {
    && s.served <= |s.joined|
    && (s.lock.Some? ==> s.lock.value in s.calls)
    && (forall m :: m in s.macros ==> TypistOk(s, m))
    && (forall c :: c in s.calls ==> CallOk(s, c))
    && (forall i :: 0 <= i < |s.joined| ==> PartyOk(s, i))
  }

  ghost predicate TypistOk(s: State, m: MacroId)
    requires m in s.macros
  {
    var t := s.macros[m];
    && (InLane(t.pc) || t.pc.Done? ==> t.pos < |s.joined| && s.joined[t.pos] == Typist(m))
    && (t.pc.Done? ==> t.pos < s.served)
    && (InLane(t.pc) ==> s.served <= t.pos)
    && (Body(t.pc) ==> t.pos == s.served)
  }

  ghost predicate CallOk(s: State, c: CallId)
    requires c in s.calls
  {
    var call := s.calls[c];
    && (call.kind.CloseChannel? ==> call.pc.Bumped? || call.pc.Returned?)
    && (call.kind.CloseChannel? && call.pc.Bumped? <==> s.lock == Some(c))
    && (call.kind.CancelAll? && (call.pc.Joined? || call.pc.Returned?) ==>
          call.pos < |s.joined| && s.joined[call.pos] == Canceller(c))
    && (call.pc.Joined? ==> s.served <= call.pos)
    && (call.kind.CancelAll? && call.pc.Returned? ==> call.pos < s.served)
  }

  ghost predicate PartyOk(s: State, i: nat)
    requires i < |s.joined|
  {
    match s.joined[i]
    case Typist(m) =>
      && m in s.macros && s.macros[m].pos == i
      && (InLane(s.macros[m].pc) || s.macros[m].pc.Done?)
    case Canceller(c) =>
      && c in s.calls && s.calls[c].pos == i && s.calls[c].kind.CancelAll?
      && (s.calls[c].pc.Joined? || s.calls[c].pc.Returned?)
  }

  /** `running_macro` is exactly the published lane holder. */
  ghost predicate RunningInv(s: State) {
    && (s.running.Some? ==>
          var (m, fc) := s.running.value;
          m in s.macros && Published(s.macros[m].pc) && fc == s.macros[m].fromChannel)
    && (forall m :: m in s.macros && Published(s.macros[m].pc) ==>
          s.running == Some((m, s.macros[m].fromChannel)))
  }

  /** Captured epochs never run ahead, and each bump belongs to one recorded call. */
  ghost predicate EpochInv(s: State) {
    && |s.cancels| == s.cancelEpoch && |s.closes| == s.channelEpoch
    && (forall m :: m in s.macros ==>
          s.macros[m].epochAll <= s.cancelEpoch && s.macros[m].epochChannel <= s.channelEpoch)
    && (forall c :: c in s.calls ==>
          1 <= s.calls[c].epoch <= if s.calls[c].kind.CancelAll? then s.cancelEpoch else s.channelEpoch)
    && (forall e :: 0 <= e < |s.cancels| ==>
          s.cancels[e] in s.calls && s.calls[s.cancels[e]].kind.CancelAll? && s.calls[s.cancels[e]].epoch == e + 1)
    && (forall e :: 0 <= e < |s.closes| ==>
          s.closes[e] in s.calls && s.calls[s.closes[e]].kind.CloseChannel? && s.calls[s.closes[e]].epoch == e + 1)
  }

  /** The call makes the macro stale: it bumped an epoch the macro watches after the capture. */
  ghost predicate Stales(call: Call, t: Macro) {
    if call.kind.CancelAll? then t.epochAll < call.epoch
    else t.fromChannel && !t.pc.Loading? && t.epochChannel < call.epoch
  }

  /** The point of checking again after publishing: once a call has signalled, no stale macro is
      typing with a token that is still live. */
  ghost predicate TokenInv(s: State) {
    forall m, c :: m in s.macros && c in s.calls && !s.calls[c].pc.Bumped? ==>
      TokenOk(s, s.calls[c], m)
  }

  ghost predicate TokenOk(s: State, call: Call, m: MacroId)
    requires m in s.macros
  {
    var t := s.macros[m];
    Stales(call, t) && (Armed(t.pc) || (t.pc == CheckChannel(true) && call.kind.CancelAll?)) ==> m in s.struck
  }

  ghost predicate Awaited(s: State, call: Call) {
    call.kind.CancelAll? && (call.pc.Returned? || (call.pc.Joined? && call.pos == s.served))
  }

  /** A canceller that holds the lane or has returned leaves no stale macro past the first check. */
  ghost predicate QuietInv(s: State) {
    forall m, c :: m in s.macros && c in s.calls && Awaited(s, s.calls[c]) && Typing(s.macros[m].pc) ==>
      s.calls[c].epoch <= s.macros[m].epochAll
  }

  /** A struck token has a struck-by call that was still under way when the macro was requested,
      and that may touch the macro at all. */
  ghost predicate BlameInv(s: State) {
    && (forall m :: m in s.struck ==> StruckOk(s, m))
    && (forall m, c :: m in s.macros && c in s.macros[m].past ==> PastOk(s, s.macros[m], c))
    && (forall m :: m in s.macros ==> CancelledOk(s, m))
  }

  ghost predicate StruckOk(s: State, m: MacroId)
    requires m in s.struck
  {
    && m in s.macros && s.struck[m] in s.calls && s.struck[m] !in s.macros[m].past
    && (s.calls[s.struck[m]].kind.CloseChannel? ==> s.macros[m].fromChannel)
  }

  ghost predicate PastOk(s: State, t: Macro, c: CallId) {
    c in s.calls && s.calls[c].pc.Returned? && !Stales(s.calls[c], t)
  }

  /** A cancelled macro was struck, or found an epoch it watches bumped. */
  ghost predicate CancelledOk(s: State, m: MacroId)
    requires m in s.macros
  {
    var t := s.macros[m];
    t.outcome.Cancelled? ==>
      || m in s.struck || t.epochAll < s.cancelEpoch
      || (t.fromChannel && t.epochChannel < s.channelEpoch && !t.pc.Loading?)
  }

  /** How much a task has typed, as its program counter says. */
  ghost predicate ProgressOk(t: Macro) {
    && t.sent <= |t.steps|
    && (t.raised ==> t.outcome.Cancelled?)
    && (t.outcome.Completed? ==> t.sent == |t.steps| && !t.raised)
    && (t.replied ==> t.outcome.Completed? && (t.pc.Leave? || t.pc.Done?))
    && ((t.pc.Leave? || t.pc.Done?) && t.outcome.Completed? ==> t.replied)
    && (t.pc.Unpublish? ==> t.outcome.Cancelled?)
    && (t.pc.CheckChannel? ==> t.fromChannel)
    && (t.pc.Poll? ==> t.sent == t.pc.next && !t.raised && t.outcome.Pending?)
    && (t.pc.Emit? ==> t.sent == t.pc.next < |t.steps| && !t.raised && t.outcome.Pending?)
    && (t.pc.Pause? ==> t.sent == t.pc.done + 1 && !t.raised && t.outcome.Pending?)
    && (t.pc.KeysUp? ==> !t.raised && t.outcome.Cancelled?)
    && (t.pc.Farewell? || t.pc.Clear? || t.pc.Reply? || t.pc.Leave? || t.pc.Done? ==>
          !t.outcome.Pending?)
    && (t.pc.Loading? || t.pc.Spawned? || t.pc.CheckAll? || t.pc.CheckChannel? || t.pc.Publish? ||
        t.pc.Announce? || t.pc.Enter? ==>
          t.sent == 0 && !t.raised && t.outcome.Pending?)
  }

  ghost predicate ProgressInv(s: State) { forall m :: m in s.macros ==> ProgressOk(s.macros[m]) }

  /** The log entries of one lane party. */
  ghost function Block(s: State, p: Party): seq<Entry> {
    if p.Typist? && p.m in s.macros && s.macros[p.m].sent <= |s.macros[p.m].steps|
    then Typed(p.m, s.macros[p.m]) else []
  }

  /** The blocks of the first `n` parties, one after another. */
  ghost function Blocks(s: State, n: nat): seq<Entry>
    requires n <= |s.joined|
  {
    if n == 0 then [] else Blocks(s, n - 1) + Block(s, s.joined[n - 1])
  }

  ghost predicate LogInv(s: State)
    requires s.served <= |s.joined|
  {
    s.log == Blocks(s, s.served) + (if s.served < |s.joined| then Block(s, s.joined[s.served]) else [])
  }

  ghost predicate Inv(s: State) {
    && LaneInv(s) && RunningInv(s) && EpochInv(s) && TokenInv(s) && QuietInv(s) && BlameInv(s)
    && ProgressInv(s) && LogInv(s)
  }

  // ---- What one step of a task may do ----

  ghost predicate LaneEdge(t: Macro, t': Macro, arrivals: nat) {
    && (t.pc.Loading? ==> t'.pc.Spawned?)
    && (t.pc.Spawned? ==> t'.pc == CheckAll(false) && t'.pos == arrivals)
    && (!t.pc.Spawned? ==> t'.pos == t.pos)
    && (t.pc.Leave? ==> t'.pc.Done?)
    && (InLane(t.pc) && !t.pc.Leave? ==> Body(t'.pc))
  }

  ghost predicate RunningEdge(t: Macro, t': Macro) {
    && t'.fromChannel == t.fromChannel
    && (Published(t'.pc) <==> t.pc.Publish? || (Published(t.pc) && !t.pc.Unpublish? && !t.pc.Clear?))
  }

  ghost predicate EpochEdge(t: Macro, t': Macro, v: View) {
    && t'.epochAll == t.epochAll && t'.past == t.past && t'.steps == t.steps && !t'.pc.Loading?
    && t'.epochChannel == (if t.pc.Loading? then v.channelEpoch else t.epochChannel)
  }

  /** Typing starts only through both second loads, and only when they find no bump. */
  ghost predicate TokenEdge(t: Macro, t': Macro, v: View) {
    && (Armed(t'.pc) ==>
          || Armed(t.pc)
          || (t.pc == CheckAll(true) && t.epochAll == v.cancelEpoch && !t.fromChannel)
          || (t.pc == CheckChannel(true) && t.epochChannel == v.channelEpoch))
    && (t'.pc == CheckChannel(true) ==> t.pc == CheckAll(true) && t.epochAll == v.cancelEpoch)
    && (Typing(t'.pc) ==> Typing(t.pc) || t.epochAll == v.cancelEpoch)
  }

  ghost predicate BlameEdge(t: Macro, t': Macro, v: View, alt: bool) {
    t'.outcome.Cancelled? ==>
      || t.outcome.Cancelled? || v.struck || (alt && t.pc.Pause?) || t.epochAll != v.cancelEpoch
      || (t.fromChannel && t.epochChannel != v.channelEpoch && !t.pc.Loading?)
  }

  lemma StepEdges(t: Macro, v: View, alt: bool)
    requires !t.pc.Done?
    ensures LaneEdge(t, StepMacro(t, v, alt), v.arrivals)
  {
  }

  lemma StepPublishes(t: Macro, v: View, alt: bool)
    requires !t.pc.Done?
    ensures RunningEdge(t, StepMacro(t, v, alt))
  {
  }

  lemma StepEpochs(t: Macro, v: View, alt: bool)
    requires !t.pc.Done?
    ensures EpochEdge(t, StepMacro(t, v, alt), v)
  {
  }

  lemma StepTokens(t: Macro, v: View, alt: bool)
    requires !t.pc.Done? && (t.pc.CheckChannel? ==> t.fromChannel)
    ensures var t' := StepMacro(t, v, alt); TokenEdge(t, t', v) && BlameEdge(t, t', v, alt)
  {
  }

  lemma StepProgress(t: Macro, v: View, alt: bool)
    requires ProgressOk(t)
    ensures ProgressOk(StepMacro(t, v, alt))
  {
  }

  /** A step extends what the macro has typed by exactly the report it sends. */
  lemma StepTyped(m: MacroId, t: Macro, v: View, alt: bool)
    requires ProgressOk(t)
    ensures var t' := StepMacro(t, v, alt);
            t'.sent <= |t'.steps| && Typed(m, t') == Typed(m, t) + Emission(m, t, alt)
    ensures Emission(m, t, alt) != [] ==> Body(t.pc)
  {
    if t.pc.Emit? && !alt {
      StepAdds(m, t, t.(pc := Pause(t.pc.next), sent := t.pc.next + 1));
    } else if !t.pc.KeysUp? || alt {
      SilentTypes(t, v, alt);
      assert Typed(m, t) + [] == Typed(m, t);
    }
  }

  lemma StepAdds(m: MacroId, t: Macro, t': Macro)
    requires t.sent < |t.steps| && t' == t.(pc := t'.pc, sent := t.sent + 1) && !t.raised
    ensures Typed(m, t') == Typed(m, t) + [StepEntry(m, t.steps[t.sent])]
  {
  }

  /** The steps that report nothing change nothing typed. */
  lemma SilentTypes(t: Macro, v: View, alt: bool)
    requires ProgressOk(t) && (t.pc.Emit? || t.pc.KeysUp? ==> alt)
    ensures var t' := StepMacro(t, v, alt); t'.steps == t.steps && t'.sent == t.sent && t'.raised == t.raised
  {
  }

  // ---- Every action keeps the invariant ----

  lemma LaneAdvance(s: State, m: MacroId, alt: bool, t': Macro)
    requires LaneInv(s) && Enabled(s, Advance(m, alt)) && LaneEdge(s.macros[m], t', |s.joined|)
    ensures LaneInv(Effect(s, m, alt, t'))
  {
    var s' := Effect(s, m, alt, t');
    assert TypistOk(s, m);
    forall n | n in s'.macros ensures TypistOk(s', n) {
      assert TypistOk(s, n);
    }
    forall c | c in s'.calls ensures CallOk(s', c) {
      assert CallOk(s, c);
    }
    forall i | 0 <= i < |s'.joined| ensures PartyOk(s', i) {
      if i < |s.joined| { assert PartyOk(s, i); }
    }
  }

  lemma LaneContinue(s: State, c: CallId)
    requires LaneInv(s) && Enabled(s, Continue(c))
    ensures LaneInv(ContinueCall(s, c))
  {
    var s' := ContinueCall(s, c);
    assert CallOk(s, c);
    forall n | n in s'.macros ensures TypistOk(s', n) {
      assert TypistOk(s, n);
    }
    forall d | d in s'.calls ensures CallOk(s', d) {
      assert CallOk(s, d);
    }
    forall i | 0 <= i < |s'.joined| ensures PartyOk(s', i) {
      if i < |s.joined| { assert PartyOk(s, i); }
    }
  }

  lemma LaneStart(s: State, a: Action)
    requires LaneInv(s) && Enabled(s, a) && !a.Advance? && !a.Continue?
    ensures LaneInv(Next(s, a))
  {
    var s' := Next(s, a);
    forall n | n in s'.macros ensures TypistOk(s', n) {
      if n in s.macros { assert TypistOk(s, n); }
    }
    forall d | d in s'.calls ensures CallOk(s', d) {
      if d in s.calls { assert CallOk(s, d); }
    }
    forall i | 0 <= i < |s'.joined| ensures PartyOk(s', i) {
      assert PartyOk(s, i);
    }
  }

  /** At most one task is past the first epoch load. */
  lemma OneBody(s: State, m: MacroId, n: MacroId)
    requires LaneInv(s) && m in s.macros && n in s.macros
    requires Body(s.macros[m].pc) && Body(s.macros[n].pc)
    ensures m == n
  {
    assert TypistOk(s, m) && TypistOk(s, n);
  }

  lemma RunningAdvance(s: State, m: MacroId, alt: bool, t': Macro)
    requires LaneInv(s) && RunningInv(s) && Enabled(s, Advance(m, alt))
    requires RunningEdge(s.macros[m], t')
    ensures RunningInv(Effect(s, m, alt, t'))
  {
    forall n | n in s.macros && Body(s.macros[n].pc) && Body(s.macros[m].pc) ensures n == m { OneBody(s, n, m); }
  }

  lemma EpochAdvance(s: State, m: MacroId, alt: bool, t': Macro)
    requires EpochInv(s) && Enabled(s, Advance(m, alt)) && EpochEdge(s.macros[m], t', Look(s, m))
    ensures EpochInv(Effect(s, m, alt, t'))
  {
  }

  lemma TokenAdvance(s: State, m: MacroId, alt: bool, t': Macro)
    requires EpochInv(s) && TokenInv(s) && Enabled(s, Advance(m, alt))
    requires RunningEdge(s.macros[m], t') && EpochEdge(s.macros[m], t', Look(s, m))
    requires TokenEdge(s.macros[m], t', Look(s, m))
    ensures TokenInv(Effect(s, m, alt, t'))
  {
    var s' := Effect(s, m, alt, t');
    forall n, c | n in s'.macros && c in s'.calls && !s'.calls[c].pc.Bumped?
      ensures TokenOk(s', s'.calls[c], n)
    {
      assert TokenOk(s, s.calls[c], n);
    }
  }

  lemma QuietAdvance(s: State, m: MacroId, alt: bool, t': Macro)
    requires LaneInv(s) && EpochInv(s) && QuietInv(s) && Enabled(s, Advance(m, alt))
    requires LaneEdge(s.macros[m], t', |s.joined|) && EpochEdge(s.macros[m], t', Look(s, m))
    requires TokenEdge(s.macros[m], t', Look(s, m))
    ensures QuietInv(Effect(s, m, alt, t'))
  {
    var s' := Effect(s, m, alt, t');
    forall n, c | n in s'.macros && c in s'.calls && Awaited(s', s'.calls[c]) && Typing(s'.macros[n].pc)
      ensures s'.calls[c].epoch <= s'.macros[n].epochAll
    {
      assert TypistOk(s, m) && TypistOk(s, n) && CallOk(s, c);
    }
  }

  lemma BlameAdvance(s: State, m: MacroId, alt: bool, t': Macro)
    requires EpochInv(s) && BlameInv(s) && ProgressInv(s) && Enabled(s, Advance(m, alt))
    requires RunningEdge(s.macros[m], t') && EpochEdge(s.macros[m], t', Look(s, m))
    requires BlameEdge(s.macros[m], t', Look(s, m), alt)
    ensures BlameInv(Effect(s, m, alt, t'))
  {
    var s' := Effect(s, m, alt, t');
    forall n | n in s'.struck ensures StruckOk(s', n) { assert StruckOk(s, n); }
    forall n, c | n in s'.macros && c in s'.macros[n].past ensures PastOk(s', s'.macros[n], c) {
      assert PastOk(s, s.macros[n], c);
    }
    forall n | n in s'.macros ensures CancelledOk(s', n) {
      assert CancelledOk(s, n) && ProgressOk(s.macros[m]);
    }
  }

  /** Blocks depend only on the parties they cover. */
  lemma {:induction false} BlocksFrame(s: State, t: State, n: nat)
    requires n <= |s.joined| && n <= |t.joined|
    requires forall i :: 0 <= i < n ==> Block(s, s.joined[i]) == Block(t, t.joined[i])
    ensures Blocks(s, n) == Blocks(t, n)
  {
    if n > 0 { BlocksFrame(s, t, n - 1); }
  }

  /** A party still waiting for the lane has typed nothing. */
  lemma WaitingBlock(s: State, i: nat)
    requires LaneInv(s) && ProgressInv(s) && s.served < i < |s.joined|
    ensures Block(s, s.joined[i]) == []
  {
    assert PartyOk(s, i);
    if s.joined[i].Typist? { assert TypistOk(s, s.joined[i].m) && ProgressOk(s.macros[s.joined[i].m]); }
  }

  /** The holder types (or takes a silent step): its block grows by what it sent. */
  lemma LogHeld(s: State, m: MacroId, alt: bool, t': Macro)
    requires LaneInv(s) && LogInv(s) && Enabled(s, Advance(m, alt))
    requires InLane(s.macros[m].pc) && !s.macros[m].pc.Leave? && ProgressOk(t') && ProgressOk(s.macros[m])
    requires Typed(m, t') == Typed(m, s.macros[m]) + Emission(m, s.macros[m], alt)
    ensures LogInv(Effect(s, m, alt, t'))
  {
    var s' := Effect(s, m, alt, t');
    assert TypistOk(s, m);
    forall i | 0 <= i < s.served ensures Block(s, s.joined[i]) == Block(s', s'.joined[i]) {
      assert PartyOk(s, i);
    }
    BlocksFrame(s, s', s.served);
    assert s.joined[s.served] == Typist(m);
  }

  /** The holder leaves: its block is complete and the next holder's is still empty. */
  lemma LogLeave(s: State, m: MacroId, alt: bool, t': Macro)
    requires LaneInv(s) && ProgressInv(s) && LogInv(s) && Enabled(s, Advance(m, alt))
    requires s.macros[m].pc.Leave? && ProgressOk(t') && Typed(m, t') == Typed(m, s.macros[m])
    ensures var s' := Effect(s, m, alt, t'); s'.served <= |s'.joined| && LogInv(s')
  {
    var s' := Effect(s, m, alt, t');
    assert TypistOk(s, m) && ProgressOk(s.macros[m]);
    forall i | 0 <= i < s'.served ensures Block(s, s.joined[i]) == Block(s', s'.joined[i]) {
      assert PartyOk(s, i);
    }
    BlocksFrame(s, s', s'.served);
    assert Blocks(s, s'.served) == s.log;
    assert Emission(m, s.macros[m], alt) == [] && s'.log == s.log + [] == s.log;
    if s'.served < |s'.joined| { WaitingBlock(s, s'.served); assert PartyOk(s, s'.served); }
  }

  /** A task outside the lane joins it, or loads an epoch. */
  lemma LogOutside(s: State, m: MacroId, alt: bool, t': Macro)
    requires LaneInv(s) && LogInv(s) && Enabled(s, Advance(m, alt))
    requires !InLane(s.macros[m].pc) && t'.sent == 0 && !t'.raised
    ensures LogInv(Effect(s, m, alt, t'))
  {
    var s' := Effect(s, m, alt, t');
    forall i | 0 <= i < |s.joined| ensures Block(s, s.joined[i]) == Block(s', s'.joined[i]) {
      assert PartyOk(s, i);
    }
    BlocksFrame(s, s', s.served);
  }

  lemma LogAdvance(s: State, m: MacroId, alt: bool, t': Macro)
    requires LaneInv(s) && ProgressInv(s) && LogInv(s) && Enabled(s, Advance(m, alt))
    requires LaneEdge(s.macros[m], t', |s.joined|) && ProgressOk(t') && ProgressOk(s.macros[m])
    requires Typed(m, t') == Typed(m, s.macros[m]) + Emission(m, s.macros[m], alt)
    ensures LaneInv(Effect(s, m, alt, t')) && LogInv(Effect(s, m, alt, t'))
  {
    LaneAdvance(s, m, alt, t');
    if s.macros[m].pc.Leave? {
      LogLeave(s, m, alt, t');
    } else if InLane(s.macros[m].pc) {
      LogHeld(s, m, alt, t');
    } else {
      LogOutside(s, m, alt, t');
    }
  }

  lemma LogContinue(s: State, c: CallId)
    requires LaneInv(s) && ProgressInv(s) && LogInv(s) && Enabled(s, Continue(c))
    ensures LaneInv(ContinueCall(s, c)) && LogInv(ContinueCall(s, c))
  {
    LaneContinue(s, c);
    var s' := ContinueCall(s, c);
    assert CallOk(s, c);
    BlocksFrame(s, s', s.served);
    if s.calls[c].pc.Joined? && s'.served < |s.joined| { WaitingBlock(s, s'.served); }
  }

  lemma TokenContinue(s: State, c: CallId)
    requires RunningInv(s) && EpochInv(s) && TokenInv(s) && Enabled(s, Continue(c))
    ensures TokenInv(ContinueCall(s, c))
  {
    var s' := ContinueCall(s, c);
    forall n, d | n in s'.macros && d in s'.calls && !s'.calls[d].pc.Bumped?
      ensures TokenOk(s', s'.calls[d], n)
    {
      if d != c || !s.calls[c].pc.Bumped? { assert TokenOk(s, s.calls[d], n); }
    }
  }

  lemma QuietContinue(s: State, c: CallId)
    requires LaneInv(s) && QuietInv(s) && Enabled(s, Continue(c))
    ensures QuietInv(ContinueCall(s, c))
  {
    var s' := ContinueCall(s, c);
    LaneContinue(s, c);
    forall n, d | n in s'.macros && d in s'.calls && Awaited(s', s'.calls[d]) && Typing(s'.macros[n].pc)
      ensures s'.calls[d].epoch <= s'.macros[n].epochAll
    {
      assert TypistOk(s', n) && CallOk(s', d) && TypistOk(s, n) && CallOk(s, d) && CallOk(s, c);
    }
  }

  lemma BlameContinue(s: State, c: CallId)
    requires LaneInv(s) && RunningInv(s) && BlameInv(s) && Enabled(s, Continue(c))
    ensures BlameInv(ContinueCall(s, c))
  {
    var s' := ContinueCall(s, c);
    assert CallOk(s, c);
    forall n, d | n in s'.macros && d in s'.macros[n].past ensures PastOk(s', s'.macros[n], d) {
      assert PastOk(s, s.macros[n], d);
    }
    forall n | n in s'.struck ensures StruckOk(s', n) {
      if n in s.struck { assert StruckOk(s, n); } else { assert c in s.macros[n].past ==> PastOk(s, s.macros[n], c); }
    }
    forall n | n in s'.macros ensures CancelledOk(s', n) { assert CancelledOk(s, n); }
  }

  lemma RestContinue(s: State, c: CallId)
    requires RunningInv(s) && EpochInv(s) && ProgressInv(s) && Enabled(s, Continue(c))
    ensures var s' := ContinueCall(s, c); RunningInv(s') && EpochInv(s') && ProgressInv(s')
  {
  }

  lemma BlameStart(s: State, a: Action)
    requires EpochInv(s) && BlameInv(s) && Enabled(s, a) && !a.Advance? && !a.Continue?
    ensures BlameInv(Next(s, a))
  {
    var s' := Next(s, a);
    forall n, d | n in s'.macros && d in s'.macros[n].past ensures PastOk(s', s'.macros[n], d) {
      if n in s.macros { assert PastOk(s, s.macros[n], d); }
    }
    forall n | n in s'.struck ensures StruckOk(s', n) { assert StruckOk(s, n); }
    forall n | n in s'.macros ensures CancelledOk(s', n) { if n in s.macros { assert CancelledOk(s, n); } }
  }

  lemma LogStart(s: State, a: Action)
    requires LaneInv(s) && LogInv(s) && Enabled(s, a) && !a.Advance? && !a.Continue?
    ensures var s' := Next(s, a); s'.served <= |s'.joined| && LogInv(s')
  {
    var s' := Next(s, a);
    forall i | 0 <= i < |s.joined| ensures Block(s, s.joined[i]) == Block(s', s'.joined[i]) {
      assert PartyOk(s, i);
    }
    BlocksFrame(s, s', s.served);
  }

  lemma TokenStart(s: State, a: Action)
    requires EpochInv(s) && TokenInv(s) && Enabled(s, a) && !a.Advance? && !a.Continue?
    ensures TokenInv(Next(s, a))
  {
    var s' := Next(s, a);
    forall n, d | n in s'.macros && d in s'.calls && !s'.calls[d].pc.Bumped?
      ensures TokenOk(s', s'.calls[d], n)
    {
      if n in s.macros { assert TokenOk(s, s.calls[d], n); }
    }
  }

  lemma EpochStart(s: State, a: Action)
    requires EpochInv(s) && Enabled(s, a) && !a.Advance? && !a.Continue?
    ensures EpochInv(Next(s, a))
  {
  }

  lemma RestStart(s: State, a: Action)
    requires RunningInv(s) && QuietInv(s) && ProgressInv(s)
    requires Enabled(s, a) && !a.Advance? && !a.Continue?
    ensures var s' := Next(s, a); RunningInv(s') && QuietInv(s') && ProgressInv(s')
  {
  }

  lemma StartKeeps(s: State, a: Action)
    requires Inv(s) && Enabled(s, a) && !a.Advance? && !a.Continue?
    ensures Inv(Next(s, a))
  {
    LaneStart(s, a);
    TokenStart(s, a);
    EpochStart(s, a);
    BlameStart(s, a);
    RestStart(s, a);
    LogStart(s, a);
  }

  lemma InvStep(s: State, a: Action)
    requires Inv(s) && Enabled(s, a)
    ensures Inv(Next(s, a))
  {
    match a
    case Advance(m, alt) =>
      var t, v := s.macros[m], Look(s, m);
      assert ProgressOk(t);
      StepEdges(t, v, alt);
      StepPublishes(t, v, alt);
      StepEpochs(t, v, alt);
      StepTokens(t, v, alt);
      StepProgress(t, v, alt);
      StepTyped(m, t, v, alt);
      AdvanceKeeps(s, m, alt, StepMacro(t, v, alt));
    case Continue(c) =>
      TokenContinue(s, c);
      QuietContinue(s, c);
      BlameContinue(s, c);
      RestContinue(s, c);
      LogContinue(s, c);
    case _ => StartKeeps(s, a);
  }

  lemma AdvanceKeeps(s: State, m: MacroId, alt: bool, t': Macro)
    requires Inv(s) && Enabled(s, Advance(m, alt))
    requires LaneEdge(s.macros[m], t', |s.joined|) && RunningEdge(s.macros[m], t')
    requires EpochEdge(s.macros[m], t', Look(s, m)) && TokenEdge(s.macros[m], t', Look(s, m))
    requires BlameEdge(s.macros[m], t', Look(s, m), alt) && ProgressOk(t') && ProgressOk(s.macros[m])
    requires Typed(m, t') == Typed(m, s.macros[m]) + Emission(m, s.macros[m], alt)
    requires Emission(m, s.macros[m], alt) != [] ==> Body(s.macros[m].pc)
    ensures Inv(Effect(s, m, alt, t'))
  {
    RunningAdvance(s, m, alt, t');
    EpochAdvance(s, m, alt, t');
    TokenAdvance(s, m, alt, t');
    QuietAdvance(s, m, alt, t');
    BlameAdvance(s, m, alt, t');
    LogAdvance(s, m, alt, t');
  }

  lemma {:induction false} RunInv(states: seq<State>, actions: seq<Action>, i: nat)
    requires IsRun(states, actions) && i < |states|
    ensures Inv(states[i])
  {
    if i > 0 {
      RunInv(states, actions, i - 1);
      InvStep(states[i - 1], actions[i - 1]);
    }
  }
}
