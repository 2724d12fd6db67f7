/** The dispatcher and the typing compiler together: what a host sees of a macro that typed a text. */
module TypedRuns {
  import opened HidTypes
  import opened MacroLane
  import opened MacroInvariant
  import opened MacroSafety
  import Typing

  ghost function Reports(wire: seq<Frame>): (r: seq<KeyReport>)
    ensures |r| == |wire| && forall i :: 0 <= i < |wire| ==> r[i] == wire[i].Report()
  {
    seq(|wire|, (i: nat) requires i < |wire| => wire[i].Report())
  }

  /** The keys held after the reports, starting from none. */
  ghost function HeldAfter(r: seq<KeyReport>): Keys { if r == [] then NO_KEYS else r[|r| - 1].keys }

  lemma HeldConcat(a: seq<KeyReport>, b: seq<KeyReport>)
    requires HeldAfter(a) == NO_KEYS && HeldAfter(b) == NO_KEYS
    ensures HeldAfter(a + b) == NO_KEYS
  {
    if b == [] { assert a + b == a; }
  }

  /** The host's text splits around reports that start and end with no key held. */
  lemma TypedAround(a: seq<KeyReport>, b: seq<KeyReport>, c: seq<KeyReport>)
    requires HeldAfter(a) == NO_KEYS && HeldAfter(b) == NO_KEYS
    ensures Typing.HostTypes(NO_KEYS, a + b + c) ==
            Typing.HostTypes(NO_KEYS, a) + Typing.HostTypes(NO_KEYS, b) + Typing.HostTypes(NO_KEYS, c)
  {
    Typing.HostConcat(NO_KEYS, a, b);
    Typing.HostConcat(NO_KEYS, a + b, c);
    HeldConcat(a, b);
  }

  /** Where the macro report of place `k` stands among all frames. */
  lemma {:induction false} Locate(wire: seq<Frame>, k: nat) returns (p: nat)
    requires k < |MacroPart(wire)|
    ensures p < |wire| && wire[p] == Tagged(MacroPart(wire)[k]) && MacroPart(wire[..p]) == MacroPart(wire)[..k]
  {
    var n := |wire| - 1;
    if k < |MacroPart(wire[..n])| {
      p := Locate(wire[..n], k);
      assert wire[..n][..p] == wire[..p];
    } else {
      p := n;
    }
  }

  ghost predicate NoLive(wire: seq<Frame>) { forall i :: 0 <= i < |wire| ==> wire[i].Tagged? }

  lemma {:induction false} NoLiveIsTagged(wire: seq<Frame>)
    requires NoLive(wire)
    ensures wire == Tag(MacroPart(wire))
  {
    if wire != [] { NoLiveIsTagged(wire[..|wire| - 1]); }
  }

  /** The frames `a..b` are the smallest stretch with all the macro's step reports, and no other macro
      reports among them. */
  ghost predicate Spans(wire: seq<Frame>, m: MacroId, steps: seq<MacroStep>, a: nat, b: nat) {
    && a <= b <= |wire| && MacroPart(wire[a..b]) == Entries(m, steps, |steps|)
    && (if steps == [] then a == b
        else
          && a < b && wire[a] == Tagged(StepEntry(m, steps[0]))
          && wire[b - 1] == Tagged(StepEntry(m, steps[|steps| - 1])))
  }

  lemma FindSpan(wire: seq<Frame>, m: MacroId, steps: seq<MacroStep>, k: nat) returns (a: nat, b: nat)
    requires AllReported(MacroPart(wire), m, steps, k)
    ensures Spans(wire, m, steps, a, b)
  {
    a, b := 0, 0;
    if steps != [] {
      var j := k + |steps| - 1;
      a := Locate(wire, k);
      var last := Locate(wire, j);
      b := last + 1;
      SpanOrder(wire, a, last, k, j);
      SpanPart(wire, a, last, MacroPart(wire), k, j);
      assert MacroPart(wire)[k..j + 1] == Entries(m, steps, |steps|);
    }
  }

  /** The macro part up to and including a macro report. */
  lemma UptoPart(wire: seq<Frame>, q: nat, all: seq<Entry>, j: nat)
    requires q < |wire| && j < |all| && MacroPart(wire[..q]) == all[..j] && wire[q] == Tagged(all[j])
    ensures MacroPart(wire[..q + 1]) == all[..j + 1]
  {
    var upto := wire[..q + 1];
    assert upto[..q] == wire[..q] && upto[q] == wire[q];
    assert all[..j] + [all[j]] == all[..j + 1];
  }

  /** Between two macro reports stand just the macro reports between them. */
  lemma SpanPart(wire: seq<Frame>, p: nat, q: nat, all: seq<Entry>, i: nat, j: nat)
    requires p <= q < |wire| && i <= j < |all| && MacroPart(wire[..p]) == all[..i]
    requires MacroPart(wire[..q]) == all[..j] && wire[q] == Tagged(all[j])
    ensures MacroPart(wire[p..q + 1]) == all[i..j + 1]
  {
    UptoPart(wire, q, all, j);
    assert wire[..q + 1] == wire[..p] + wire[p..q + 1];
    PartConcat(wire[..p], wire[p..q + 1]);
    Drop(all[..i], MacroPart(wire[p..q + 1]), all[..j + 1]);
    assert all[..j + 1][i..] == all[i..j + 1];
  }

  lemma Drop(front: seq<Entry>, x: seq<Entry>, all: seq<Entry>)
    requires front + x == all
    ensures x == all[|front|..]
  {
  }

  /** A later macro report stands further on. */
  lemma SpanOrder(wire: seq<Frame>, p: nat, q: nat, i: nat, j: nat)
    requires p < |wire| && q < |wire| && i <= j < |MacroPart(wire)|
    requires MacroPart(wire[..p]) == MacroPart(wire)[..i] && MacroPart(wire[..q]) == MacroPart(wire)[..j]
    requires wire[q] == Tagged(MacroPart(wire)[j])
    ensures p <= q
  {
    if q < p {
      assert wire[..p][..q] == wire[..q] && wire[..p][q] == wire[q];
      TaggedCounts(wire[..p], q);
    }
  }

  /** A macro report adds to the macro part of the frames before it. */
  lemma TaggedCounts(wire: seq<Frame>, q: nat)
    requires q < |wire| && wire[q].Tagged?
    ensures |MacroPart(wire)| > |MacroPart(wire[..q])|
  {
    assert wire == wire[..q] + wire[q..] && wire[q..] == [wire[q]] + wire[q + 1..];
    PartConcat(wire[..q], wire[q..]);
    PartConcat([wire[q]], wire[q + 1..]);
    assert [wire[q]][..0] == [];
  }

  /** The host typed exactly the text between what came before frame `a` and what came from `b` on. */
  ghost predicate TypedBetween(wire: seq<Frame>, text: string, a: nat, b: nat)
    requires a <= b <= |wire|
  {
    Typing.HostTypes(NO_KEYS, Reports(wire)) ==
    Typing.HostTypes(NO_KEYS, Reports(wire[..a])) + Typing.WithoutReturns(text) +
    Typing.HostTypes(NO_KEYS, Reports(wire[b..]))
  }

  /** In every run: when `play_macro` has returned Ok for the steps of a text, the host has received
      those steps in order with no other macro's report between them; and if no live report fell
      between them and no key was held before them, the host typed exactly the text there, less
      carriage returns, whatever else was typed before and after. */
  lemma PlayedTextIsTyped(states: seq<State>, actions: seq<Action>, i: nat, m: MacroId, text: string, delay: Millis)
    returns (a: nat, b: nat)
    requires IsRun(states, actions) && i <= |actions| && m in states[i].macros && states[i].macros[m].replied
    requires Typing.AllSupported(text) && states[i].macros[m].steps == Typing.TextSteps(text, delay)
    ensures var wire := Wire(states, actions, i);
            && Spans(wire, m, states[i].macros[m].steps, a, b)
            && (NoLive(wire[a..b]) && HeldAfter(Reports(wire[..a])) == NO_KEYS ==> TypedBetween(wire, text, a, b))
  {
    var wire := Wire(states, actions, i);
    RunInv(states, actions, i);
    WireHoldsLog(states, actions, i);
    OkMeansAllReported(states[i], m);
    var k :| AllReported(states[i].log, m, states[i].macros[m].steps, k);
    a, b := FindSpan(wire, m, states[i].macros[m].steps, k);
    if NoLive(wire[a..b]) && HeldAfter(Reports(wire[..a])) == NO_KEYS { SpanTypes(wire, m, text, delay, a, b); }
  }

  lemma SpanTypes(wire: seq<Frame>, m: MacroId, text: string, delay: Millis, a: nat, b: nat)
    requires Typing.AllSupported(text) && Spans(wire, m, Typing.TextSteps(text, delay), a, b)
    requires NoLive(wire[a..b]) && HeldAfter(Reports(wire[..a])) == NO_KEYS
    ensures TypedBetween(wire, text, a, b)
  {
    var steps := Typing.TextSteps(text, delay);
    SpanReports(wire, m, steps, a, b);
    Typing.TextIsTyped(text, delay);
    TypedAround(Reports(wire[..a]), Typing.ReportsOf(steps), Reports(wire[b..]));
  }

  lemma SpanReports(wire: seq<Frame>, m: MacroId, steps: seq<MacroStep>, a: nat, b: nat)
    requires Spans(wire, m, steps, a, b) && NoLive(wire[a..b])
    ensures Reports(wire) == Reports(wire[..a]) + Typing.ReportsOf(steps) + Reports(wire[b..])
  {
    NoLiveIsTagged(wire[a..b]);
    assert Reports(wire[a..b]) == Typing.ReportsOf(steps);
    assert Reports(wire) == Reports(wire[..a]) + Reports(wire[a..b]) + Reports(wire[b..]);
  }

  /** The conditions matter: with a character's key held, by a live report or, as
      `CancelMayLeaveKeyDown` shows, by a cancelled macro, the next stroke of it goes missing. */
  lemma HeldKeySwallows(c: char, delay: Millis)
    requires Typing.CharToKeystroke(c).Some? && c != '\r'
    ensures var held := Typing.OneKey(Typing.CharToKeystroke(c).value.1);
            Typing.HostTypes(held, Typing.ReportsOf(Typing.CharSteps(c, delay))) == ""
  {
    var (modifier, usage) := Typing.CharToKeystroke(c).value;
    var press := KeyReport(modifier, Typing.OneKey(usage));
    var r := Typing.ReportsOf(Typing.CharSteps(c, delay));
    assert r == [press, ALL_UP] && r[1..] == [ALL_UP];
    HeldStroke(press, usage);
    Typing.ReleaseTypes(press.keys);
  }

  lemma HeldStroke(press: KeyReport, usage: byte)
    requires press.keys == Typing.OneKey(usage)
    ensures Typing.TypedOn(press.keys, press, HID_KEY_BUFFER_SIZE) == ""
  {
    Typing.EmptySlots(press.keys, press, 1, HID_KEY_BUFFER_SIZE);
    assert press.keys[0] in press.keys;
    assert Typing.TypedOn(press.keys, press, 1) == "" + "";
  }
}
