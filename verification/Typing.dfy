/** The typing compiler of crates/rkvm-proto/src/keymap.rs, and the host keyboard it types on. */
module Typing {
  import opened Options
  import opened HidTypes
  import opened HidRpc

  const MOD_LEFT_SHIFT: byte := 0x02

  /** The modifier and usage that type a character on a US layout. */
  function CharToKeystroke(c: char): Option<(byte, byte)> {
    if 'a' <= c <= 'z' then Some((0, 0x04 + (c - 'a') as byte))
    else if 'A' <= c <= 'Z' then Some((MOD_LEFT_SHIFT, 0x04 + (c - 'A') as byte))
    else if '1' <= c <= '9' then Some((0, 0x1e + (c - '1') as byte))
    else
      match c
      case '0' => Some((0, 0x27))
      case '!' => Some((MOD_LEFT_SHIFT, 0x1e))
      case '@' => Some((MOD_LEFT_SHIFT, 0x1f))
      case '#' => Some((MOD_LEFT_SHIFT, 0x20))
      case '$' => Some((MOD_LEFT_SHIFT, 0x21))
      case '%' => Some((MOD_LEFT_SHIFT, 0x22))
      case '^' => Some((MOD_LEFT_SHIFT, 0x23))
      case '&' => Some((MOD_LEFT_SHIFT, 0x24))
      case '*' => Some((MOD_LEFT_SHIFT, 0x25))
      case '(' => Some((MOD_LEFT_SHIFT, 0x26))
      case ')' => Some((MOD_LEFT_SHIFT, 0x27))
      case '\n' => Some((0, 0x28))
      case '\t' => Some((0, 0x2b))
      case ' ' => Some((0, 0x2c))
      case '-' => Some((0, 0x2d))
      case '_' => Some((MOD_LEFT_SHIFT, 0x2d))
      case '=' => Some((0, 0x2e))
      case '+' => Some((MOD_LEFT_SHIFT, 0x2e))
      case '[' => Some((0, 0x2f))
      case '{' => Some((MOD_LEFT_SHIFT, 0x2f))
      case ']' => Some((0, 0x30))
      case '}' => Some((MOD_LEFT_SHIFT, 0x30))
      case '\\' => Some((0, 0x31))
      case '|' => Some((MOD_LEFT_SHIFT, 0x31))
      case ';' => Some((0, 0x33))
      case ':' => Some((MOD_LEFT_SHIFT, 0x33))
      case '\'' => Some((0, 0x34))
      case '"' => Some((MOD_LEFT_SHIFT, 0x34))
      case '`' => Some((0, 0x35))
      case '~' => Some((MOD_LEFT_SHIFT, 0x35))
      case ',' => Some((0, 0x36))
      case '<' => Some((MOD_LEFT_SHIFT, 0x36))
      case '.' => Some((0, 0x37))
      case '>' => Some((MOD_LEFT_SHIFT, 0x37))
      case '/' => Some((0, 0x38))
      case '?' => Some((MOD_LEFT_SHIFT, 0x38))
      case _ => None
  }

  function PressAndRelease(modifier: byte, keys: Keys, holdMs: Millis, gapMs: Millis): seq<MacroStep> {
    [MacroStep(modifier, keys, holdMs), MacroStep(0, NO_KEYS, gapMs)]
  }

  function OneKey(usage: byte): Keys { NO_KEYS[0 := usage] }

  /** The steps of one character; carriage returns are skipped. */
  function CharSteps(c: char, delay: Millis): seq<MacroStep>
    requires Supported(c)
  {
    if c == '\r' then []
    else var (modifier, usage) := CharToKeystroke(c).value; PressAndRelease(modifier, OneKey(usage), delay, delay)
  }

  predicate Supported(c: char) { c == '\r' || CharToKeystroke(c).Some? }

  ghost predicate AllSupported(text: string) { forall i :: 0 <= i < |text| ==> Supported(text[i]) }

  ghost function TextSteps(text: string, delay: Millis): seq<MacroStep>
    requires AllSupported(text)
  {
    if text == [] then [] else TextSteps(text[..|text| - 1], delay) + CharSteps(text[|text| - 1], delay)
  }

  /** Either the steps, or the first unsupported character and where it stands. */
  datatype Compiled = Steps(steps: seq<MacroStep>) | Unsupported(c: char, index: nat)

  lemma NextChar(text: string, i: nat, delay: Millis)
    requires i < |text| && AllSupported(text[..i]) && Supported(text[i])
    ensures AllSupported(text[..i + 1])
    ensures TextSteps(text[..i + 1], delay) == TextSteps(text[..i], delay) + CharSteps(text[i], delay)
  {
    assert text[..i + 1][..i] == text[..i];
  }

  /** `text_to_macro_steps` */
  method TextToMacroSteps(text: string, delay: Millis) returns (r: Compiled)
    ensures r.Steps? <==> AllSupported(text)
    ensures r.Steps? ==> r.steps == TextSteps(text, delay)
    ensures r.Unsupported? ==>
              r.index < |text| && r.c == text[r.index] && !Supported(r.c) && AllSupported(text[..r.index])
  {
    var steps: seq<MacroStep> := [];
    for i := 0 to |text|
      invariant AllSupported(text[..i]) && steps == TextSteps(text[..i], delay)
    {
      var c := text[i];
      if Supported(c) { NextChar(text, i, delay); }
      if c == '\r' { continue; }
      var stroke := CharToKeystroke(c);
      if stroke.None? {
        assert !Supported(text[i]);
        return Unsupported(c, i);
      }
      var (modifier, usage) := stroke.value;
      steps := steps + PressAndRelease(modifier, OneKey(usage), delay, delay);
    }
    assert text[..|text|] == text;
    return Steps(steps);
  }

  // ---- The host ----

  predicate ShiftHeld(modifier: byte) { (modifier / 0x02) % 2 == 1 || (modifier / 0x20) % 2 == 1 }

  /** Keyboard/Keypad Page, section 10 of HID Usage Tables 1.12: what a usage types on a US layout,
      without and with shift. Escape, backspace and keys beyond the main block type nothing here. */
  function HostChar(modifier: byte, usage: byte): string {
    var shift := ShiftHeld(modifier);
    if 0x04 <= usage <= 0x1d then [(if shift then 'A' else 'a') + (usage - 0x04) as char]
    else if 0x1e <= usage <= 0x26 && !shift then ['1' + (usage - 0x1e) as char]
    else
      match usage
      case 0x1e => "!"
      case 0x1f => "@"
      case 0x20 => "#"
      case 0x21 => "$"
      case 0x22 => "%"
      case 0x23 => "^"
      case 0x24 => "&"
      case 0x25 => "*"
      case 0x26 => "("
      case 0x27 => if shift then ")" else "0"
      case 0x28 => "\n"
      case 0x2b => "\t"
      case 0x2c => " "
      case 0x2d => if shift then "_" else "-"
      case 0x2e => if shift then "+" else "="
      case 0x2f => if shift then "{" else "["
      case 0x30 => if shift then "}" else "]"
      case 0x31 => if shift then "|" else "\\"
      case 0x33 => if shift then ":" else ";"
      case 0x34 => if shift then "\"" else "\'"
      case 0x35 => if shift then "~" else "`"
      case 0x36 => if shift then "<" else ","
      case 0x37 => if shift then ">" else "."
      case 0x38 => if shift then "?" else "/"
      case _ => ""
  }

  /** What the host types on a report, `held` being the keys of the one before: a character for each
      key newly pressed, slot by slot. */
  function TypedOn(held: seq<byte>, r: KeyReport, slot: nat): string
    requires slot <= |r.keys|
  {
    if slot == 0 then ""
    else
      var u := r.keys[slot - 1];
      TypedOn(held, r, slot - 1) + if u != 0 && u !in held then HostChar(r.modifier, u) else ""
  }

  function HostTypes(held: seq<byte>, reports: seq<KeyReport>): string
    decreases |reports|
  {
    if reports == [] then ""
    else TypedOn(held, reports[0], HID_KEY_BUFFER_SIZE) + HostTypes(reports[0].keys, reports[1..])
  }

  function ReportsOf(steps: seq<MacroStep>): (r: seq<KeyReport>)
    ensures |r| == |steps|
    ensures forall i :: 0 <= i < |steps| ==> r[i] == KeyReport(steps[i].modifier, steps[i].keys)
  {
    seq(|steps|, (i: nat) requires i < |steps| => KeyReport(steps[i].modifier, steps[i].keys))
  }

  function WithoutReturns(text: string): string {
    if text == [] then []
    else WithoutReturns(text[..|text| - 1]) + if text[|text| - 1] == '\r' then [] else [text[|text| - 1]]
  }

  /** Each supported character's keystroke types that character. */
  lemma KeystrokeTypes(c: char)
    requires CharToKeystroke(c).Some?
    ensures var (modifier, usage) := CharToKeystroke(c).value; usage != 0 && HostChar(modifier, usage) == [c]
  {
    ShiftBits();
  }

  /** The supported characters are printable ASCII, newline, tab and the skipped return. */
  lemma SupportedIff(c: char)
    ensures Supported(c) <==> ' ' <= c <= '~' || c == '\n' || c == '\t' || c == '\r'
  {
  }

  /** The steps of a text: for each character but returns, in order, a report with its keystroke and
      its key alone in the first slot, then an all-up, each held for the given delay. */
  lemma {:induction false} StepsAlternate(text: string, delay: Millis, k: nat)
    requires AllSupported(text) && k < |WithoutReturns(text)|
    ensures var (steps, c) := (TextSteps(text, delay), WithoutReturns(text)[k]);
            && |steps| == 2 * |WithoutReturns(text)| && CharToKeystroke(c).Some?
            && var (modifier, usage) := CharToKeystroke(c).value;
               && steps[2 * k] == MacroStep(modifier, [usage, 0, 0, 0, 0, 0], delay)
               && steps[2 * k + 1] == MacroStep(0, [0, 0, 0, 0, 0, 0], delay)
  {
    var front, c := text[..|text| - 1], text[|text| - 1];
    StepsCount(front, delay);
    if k < |WithoutReturns(front)| { StepsAlternate(front, delay, k); }
  }

  lemma {:induction false} StepsCount(text: string, delay: Millis)
    requires AllSupported(text)
    ensures |TextSteps(text, delay)| == 2 * |WithoutReturns(text)|
  {
    if text != [] { StepsCount(text[..|text| - 1], delay); }
  }

  lemma ShiftBits()
    ensures ShiftHeld(MOD_LEFT_SHIFT) && !ShiftHeld(0)
  {
  }

  /** Empty slots type nothing. */
  lemma {:induction false} EmptySlots(held: seq<byte>, r: KeyReport, from: nat, slot: nat)
    requires from <= slot <= |r.keys| && forall k :: from <= k < slot ==> r.keys[k] == 0
    ensures TypedOn(held, r, slot) == TypedOn(held, r, from)
  {
    if from < slot {
      EmptySlots(held, r, from, slot - 1);
      assert TypedOn(held, r, slot - 1) + "" == TypedOn(held, r, slot - 1);
    }
  }

  lemma PressTypes(held: seq<byte>, r: KeyReport, usage: byte)
    requires r.keys == OneKey(usage) && usage != 0 && usage !in held
    ensures TypedOn(held, r, HID_KEY_BUFFER_SIZE) == HostChar(r.modifier, usage)
  {
    EmptySlots(held, r, 1, HID_KEY_BUFFER_SIZE);
    assert TypedOn(held, r, 1) == "" + HostChar(r.modifier, usage);
  }

  lemma ReleaseTypes(held: seq<byte>)
    ensures HostTypes(held, [ALL_UP]) == ""
  {
    EmptySlots(held, ALL_UP, 0, HID_KEY_BUFFER_SIZE);
    assert [ALL_UP][1..] == [];
  }

  lemma {:induction false} HostConcat(held: seq<byte>, a: seq<KeyReport>, b: seq<KeyReport>)
    ensures HostTypes(held, a + b) ==
            HostTypes(held, a) + HostTypes(if a == [] then held else a[|a| - 1].keys, b)
    decreases |a|
  {
    if a == [] {
      assert a + b == b;
    } else {
      assert (a + b)[0] == a[0] && (a + b)[1..] == a[1..] + b;
      HostConcat(a[0].keys, a[1..], b);
    }
  }

  lemma CharTypes(c: char, delay: Millis)
    requires Supported(c)
    ensures var r := ReportsOf(CharSteps(c, delay));
            HostTypes(NO_KEYS, r) == (if c == '\r' then "" else [c]) && (r != [] ==> r[|r| - 1] == ALL_UP)
  {
    if c != '\r' {
      KeystrokeTypes(c);
      var (modifier, usage) := CharToKeystroke(c).value;
      var r := ReportsOf(CharSteps(c, delay));
      var press := KeyReport(modifier, OneKey(usage));
      assert r == [press, ALL_UP] && r[1..] == [ALL_UP];
      assert usage !in NO_KEYS;
      PressTypes(NO_KEYS, press, usage);
      ReleaseTypes(press.keys);
      assert HostTypes(NO_KEYS, r) == [c] + "";
    }
  }

  lemma ReportsConcat(x: seq<MacroStep>, y: seq<MacroStep>)
    ensures ReportsOf(x + y) == ReportsOf(x) + ReportsOf(y)
  {
  }

  /** The host typed the text on the reports, starting and ending with no key held. */
  ghost predicate Types(r: seq<KeyReport>, text: string) {
    HostTypes(NO_KEYS, r) == text && (r != [] ==> r[|r| - 1] == ALL_UP)
  }

  lemma TypesConcat(a: seq<KeyReport>, s: string, b: seq<KeyReport>, t: string)
    requires Types(a, s) && Types(b, t)
    ensures Types(a + b, s + t)
  {
    HostConcat(NO_KEYS, a, b);
  }

  /** Replaying the steps of a supported text on a host with no key held types the text, less its
      carriage returns, and leaves no key held. */
  lemma {:induction false} TextIsTyped(text: string, delay: Millis)
    requires AllSupported(text)
    ensures var r := ReportsOf(TextSteps(text, delay));
            HostTypes(NO_KEYS, r) == WithoutReturns(text) && (r != [] ==> r[|r| - 1] == ALL_UP)
  {
    if text != [] {
      var front, c := text[..|text| - 1], text[|text| - 1];
      TextIsTyped(front, delay);
      CharTypes(c, delay);
      ReportsConcat(TextSteps(front, delay), CharSteps(c, delay));
      TypesConcat(ReportsOf(TextSteps(front, delay)), WithoutReturns(front),
                  ReportsOf(CharSteps(c, delay)), if c == '\r' then "" else [c]);
    }
  }

  /** The whole way: text to steps, to a payload, over the wire, back to steps, to the host. */
  lemma TypedOverTheWire(text: string, delay: Millis, isPaste: bool)
    requires AllSupported(text) && |TextSteps(text, delay)| < 0x1_0000_0000
    ensures var m := Message(KeyboardMacroReport, Payload(isPaste, TextSteps(text, delay)));
            && Unmarshal(Marshal(m)) == Ok(m) && ParseMacro(m).Ok?
            && HostTypes(NO_KEYS, ReportsOf(ParseMacro(m).value.steps)) == WithoutReturns(text)
  {
    MacroRoundTrip(isPaste, TextSteps(text, delay));
    TextIsTyped(text, delay);
  }
}
