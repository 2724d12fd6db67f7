/** The keyboard-macro lane of app/src/hidrpc/dispatcher.rs as a transition system.

    Every load, store, critical section, report and await of `start_macro`, `run_macro`,
    `cancel_macro` and `clear_reliable_channel` is one atomic action, so a run is an arbitrary
    interleaving of any number of macro tasks, cancellers and channel closers. Live key reports, which
    `dispatch` and the HID API send without the lane, may fall anywhere between. */
module MacroLane {
  import opened Options
  import opened HidTypes

  type MacroId = nat
  type CallId = nat

  /** One report sent by a macro, tagged with it. */
  datatype Entry = Entry(owner: MacroId, report: KeyReport)

  /** Where a macro task stands; the numbers are lines of dispatcher.rs. */
  datatype Pc =
    | Loading                        // 149: cancel epoch loaded, channel epoch not yet
    | Spawned                        // 157: about to call MACRO_LANE.lock()
    | CheckAll(second: bool)         // 158 and 164: load of the cancel epoch
    | CheckChannel(second: bool)     // 158 and 164: load of the channel epoch
    | Publish                        // 162
    | Unpublish                      // 165
    | Announce                       // 170
    | Enter                          // 197
    | Poll(next: nat)                // 199-200
    | Emit(next: nat)                // 203
    | Pause(done: nat)               // 208
    | KeysUp                         // 211
    | Farewell                       // 173
    | Clear                          // 174
    | Reply                          // 175
    | Leave                          // end of the task: the lane guard drops
    | Done

  datatype Outcome = Pending | Completed | Cancelled | Failed

  /** A macro task. `pos` is its place in the lane's arrival order, `past` the cancel and close
      calls that had already returned when it was requested. */
  datatype Macro = Macro(
    steps: seq<MacroStep>, fromChannel: bool, epochAll: nat, epochChannel: nat, pc: Pc,
    pos: nat, sent: nat, raised: bool, outcome: Outcome, replied: bool, past: set<CallId>)

  datatype Kind = CancelAll | CloseChannel
  datatype CallPc = Bumped | Signalled | Joined | Returned

  /** A `cancel_macro` or `clear_reliable_channel` call; `epoch` is its counter after the bump. */
  datatype Call = Call(kind: Kind, epoch: nat, pc: CallPc, pos: nat)

  /** Who waits for the lane: a macro task, or a canceller waiting behind them. */
  datatype Party = Typist(m: MacroId) | Canceller(c: CallId)

  /** `joined` is every party in the order it reached the FIFO lane and `served` how many of them
      have left it, so `joined[served]` holds the lane and the rest wait. `log` is what macros have
      sent; live reports touch none of this and appear in `Wire` alone. `struck` maps each macro
      whose token is cancelled to the call that cancelled it. `cancels` and `closes` list the calls
      that made each bump of the two epochs. */
  datatype State = State(
    cancelEpoch: nat, channelEpoch: nat, lock: Option<CallId>,
    running: Option<(MacroId, bool)>, struck: map<MacroId, CallId>,
    joined: seq<Party>, served: nat, log: seq<Entry>,
    macros: map<MacroId, Macro>, calls: map<CallId, Call>,
    cancels: seq<CallId>, closes: seq<CallId>)

  datatype Action =
    | Request(m: MacroId, steps: seq<MacroStep>, fromChannel: bool)
    | Advance(m: MacroId, alt: bool)     // `alt` picks the other branch where the world decides
    | StartCancel(c: CallId)
    | StartClose(c: CallId)
    | Continue(c: CallId)
    | TypeLive(report: KeyReport)        // a keyboard or keypress report from outside the lane

  const INIT := State(0, 0, None, None, map[], [], 0, [], map[], map[], [], [])

  /** The task holds or waits for the lane. */
  predicate InLane(pc: Pc) { !pc.Loading? && !pc.Spawned? && !pc.Done? }

  /** The task has been through the first epoch load and so must hold the lane. */
  predicate Body(pc: Pc) { InLane(pc) && pc != CheckAll(false) }

  /** The task passed the first epoch load and may still type. */
  predicate Typing(pc: Pc) { Body(pc) && !pc.Leave? }

  /** `running_macro` names the task. */
  predicate Published(pc: Pc) {
    Armed(pc) || pc == CheckAll(true) || pc == CheckChannel(true) || pc.Unpublish? || pc.Clear?
  }

  /** The task is past both checks and has not yet cleared `running_macro`. */
  predicate Armed(pc: Pc) {
    pc.Announce? || pc.Enter? || pc.Poll? || pc.Emit? || pc.Pause? || pc.KeysUp? || pc.Farewell?
  }

  /** The step takes the DISPATCHER mutex. */
  predicate TakesLock(pc: Pc) {
    pc.Publish? || pc.Unpublish? || pc.Announce? || pc.Farewell? || pc.Clear?
  }

  /** Steps whose outcome the world chooses: USB HID missing or failing, or the cancellation
      winning the select. */
  predicate MayTurn(s: State, m: MacroId, pc: Pc) {
    pc.Enter? || pc.Emit? || pc.KeysUp? || (pc.Pause? && m in s.struck)
  }

  predicate Enabled(s: State, a: Action) {
    match a
    case Request(m, _, _) => m !in s.macros
    case Advance(m, alt) =>
      && m in s.macros
      && var pc := s.macros[m].pc;
      && !pc.Done?
      && (InLane(pc) ==> s.macros[m].pos == s.served)
      && (TakesLock(pc) ==> s.lock.None?)
      && (alt ==> MayTurn(s, m, pc))
    case TypeLive(_) => true
    case StartCancel(c) => c !in s.calls
    case StartClose(c) => c !in s.calls && s.lock.None?
    case Continue(c) =>
      && c in s.calls
      && match s.calls[c].pc
         case Bumped => s.calls[c].kind.CancelAll? ==> s.lock.None?
         case Signalled => true
         case Joined => s.calls[c].pos == s.served
         case Returned => false
  }

  function ReturnedCalls(s: State): set<CallId> {
    set c | c in s.calls && s.calls[c].pc.Returned?
  }

  /** What one step of a macro task reads from the shared state. */
  datatype View = View(cancelEpoch: nat, channelEpoch: nat, struck: bool, arrivals: nat)

  function Look(s: State, m: MacroId): View {
    View(s.cancelEpoch, s.channelEpoch, m in s.struck, |s.joined|)
  }

  /** The `cancelled` closure came back false: publish the token, or start typing. */
  function Passed(t: Macro): Macro
    requires t.pc.CheckAll? || t.pc.CheckChannel?
  {
    t.(pc := if t.pc.second then Announce else Publish)
  }

  /** The `cancelled` closure came back true. */
  function Dropped(t: Macro): Macro
    requires t.pc.CheckAll? || t.pc.CheckChannel?
  {
    t.(pc := if t.pc.second then Unpublish else Leave, outcome := Cancelled)
  }

  function Finish(t: Macro, outcome: Outcome): Macro { t.(pc := Farewell, outcome := outcome) }

  /** The task after its next step. */
  function StepMacro(t: Macro, v: View, alt: bool): Macro {
    match t.pc
    case Loading => t.(epochChannel := v.channelEpoch, pc := Spawned)
    case Spawned => t.(pc := CheckAll(false), pos := v.arrivals)
    case CheckAll(second) =>
      if v.cancelEpoch != t.epochAll then Dropped(t)
      else if t.fromChannel then t.(pc := CheckChannel(second))
      else Passed(t)
    case CheckChannel(_) => if v.channelEpoch != t.epochChannel then Dropped(t) else Passed(t)
    case Publish => t.(pc := CheckAll(true))
    case Unpublish => t.(pc := Leave)
    case Announce => t.(pc := Enter)
    case Enter => if alt then Finish(t, Failed) else t.(pc := Poll(0))
    case Poll(k) =>
      if k >= |t.steps| then Finish(t, Completed)
      else if v.struck then Finish(t, Cancelled)
      else t.(pc := Emit(k))
    case Emit(k) => if alt then Finish(t, Failed) else t.(pc := Pause(k), sent := k + 1)
    case Pause(k) => if alt then t.(pc := KeysUp, outcome := Cancelled) else t.(pc := Poll(k + 1))
    case KeysUp => if alt then t.(pc := Farewell) else t.(pc := Farewell, raised := true)
    case Farewell => t.(pc := Clear)
    case Clear => t.(pc := Reply)
    case Reply => t.(pc := Leave, replied := t.outcome.Completed?)
    case Leave => t.(pc := Done)
    case Done => t
  }

  /** The report the step sends, if it sends one. */
  function Emission(m: MacroId, t: Macro, alt: bool): seq<Entry> {
    if alt then []
    else if t.pc.Emit? && t.pc.next < |t.steps| then [StepEntry(m, t.steps[t.pc.next])]
    else if t.pc.KeysUp? then [Entry(m, ALL_UP)]
    else []
  }

  function StepEntry(m: MacroId, step: MacroStep): Entry { Entry(m, KeyReport(step.modifier, step.keys)) }

  /** The shared state once task `m` has moved on to `t'`. */
  function Effect(s: State, m: MacroId, alt: bool, t': Macro): State
    requires m in s.macros
  {
    var t := s.macros[m];
    s.(macros := s.macros[m := t'],
       running := if t.pc.Publish? then Some((m, t.fromChannel))
                  else if t.pc.Unpublish? || t.pc.Clear? then None else s.running,
       joined := if t.pc.Spawned? then s.joined + [Typist(m)] else s.joined,
       served := if t.pc.Leave? then s.served + 1 else s.served,
       log := s.log + Emission(m, t, alt))
  }

  /** A call after its next step. */
  function StepCall(call: Call, arrivals: nat): Call {
    match call.pc
    case Bumped => call.(pc := if call.kind.CancelAll? then Signalled else Returned)
    case Signalled => call.(pc := Joined, pos := arrivals)
    case _ => call.(pc := Returned)
  }

  /** The call finds a running macro it is meant to stop; the first call to cancel a token is the
      one remembered. */
  predicate Strikes(s: State, call: Call) {
    && call.pc.Bumped? && s.running.Some?
    && (call.kind.CancelAll? || s.running.value.1)
    && s.running.value.0 !in s.struck
  }

  function ContinueCall(s: State, c: CallId): State
    requires Enabled(s, Continue(c))
  {
    var call := s.calls[c];
    s.(calls := s.calls[c := StepCall(call, |s.joined|)],
       struck := if Strikes(s, call) then s.struck[s.running.value.0 := c] else s.struck,
       lock := if call.kind.CloseChannel? then None else s.lock,
       joined := if call.pc.Signalled? then s.joined + [Canceller(c)] else s.joined,
       served := if call.pc.Joined? then s.served + 1 else s.served)
  }

  function Next(s: State, a: Action): State
    requires Enabled(s, a)
  {
    match a
    case Request(m, steps, fromChannel) =>
      s.(macros := s.macros[m := Macro(steps, fromChannel, s.cancelEpoch, 0, Loading, 0, 0, false,
                                       Pending, false, ReturnedCalls(s))])
    case Advance(m, alt) => Effect(s, m, alt, StepMacro(s.macros[m], Look(s, m), alt))
    case StartCancel(c) =>
      s.(cancelEpoch := s.cancelEpoch + 1, cancels := s.cancels + [c],
         calls := s.calls[c := Call(CancelAll, s.cancelEpoch + 1, Bumped, 0)])
    case StartClose(c) =>
      s.(channelEpoch := s.channelEpoch + 1, closes := s.closes + [c], lock := Some(c),
         calls := s.calls[c := Call(CloseChannel, s.channelEpoch + 1, Bumped, 0)])
    case Continue(c) => ContinueCall(s, c)
    case TypeLive(_) => s
  }

  // ---- Runs ----

  /** An interleaving: `states[i + 1]` follows `states[i]` by `actions[i]`. */
  ghost predicate IsRun(states: seq<State>, actions: seq<Action>) {
    && |states| == |actions| + 1
    && states[0] == INIT
    && forall i :: 0 <= i < |actions| ==>
         Enabled(states[i], actions[i]) && states[i + 1] == Next(states[i], actions[i])
  }

  /** What the host receives: live reports and macro reports, in the order they were sent. */
  datatype Frame = Loose(live: KeyReport) | Tagged(entry: Entry) {
    function Report(): KeyReport { match this case Loose(r) => r case Tagged(e) => e.report }
  }

  function Tag(entries: seq<Entry>): (frames: seq<Frame>)
    ensures |frames| == |entries| && forall i :: 0 <= i < |entries| ==> frames[i] == Tagged(entries[i])
  {
    seq(|entries|, (i: nat) requires i < |entries| => Tagged(entries[i]))
  }

  /** What one action sends to the host. */
  function Sends(s: State, a: Action): seq<Frame>
    requires Enabled(s, a)
  {
    match a
    case Advance(m, alt) => Tag(Emission(m, s.macros[m], alt))
    case TypeLive(report) => [Loose(report)]
    case _ => []
  }

  /** What the first `i` actions of a run sent. */
  ghost function Wire(states: seq<State>, actions: seq<Action>, i: nat): seq<Frame>
    requires IsRun(states, actions) && i <= |actions|
  {
    if i == 0 then [] else Wire(states, actions, i - 1) + Sends(states[i - 1], actions[i - 1])
  }

  /** The first `n` steps, as they stand in the log. */
  function Entries(m: MacroId, steps: seq<MacroStep>, n: nat): (e: seq<Entry>)
    requires n <= |steps|
    ensures |e| == n && forall i :: 0 <= i < n ==> e[i] == StepEntry(m, steps[i])
  {
    seq(n, (i: nat) requires i < n => StepEntry(m, steps[i]))
  }

  /** What a macro has put in the log so far: a prefix of its steps, then at most one all-up. */
  function Typed(m: MacroId, t: Macro): (r: seq<Entry>)
    requires t.sent <= |t.steps|
  {
    Entries(m, t.steps, t.sent)
    + (if t.raised then [Entry(m, ALL_UP)] else [])
  }
}
