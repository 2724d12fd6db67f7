/** The HID RPC wire format of crates/rkvm-proto/src/hidrpc.rs: framing, and the keyboard-macro
    payload the dispatcher plays. */
module HidRpc {
  import opened HidTypes
  import opened Arith

  type Bytes = seq<byte>

  datatype Result<+T> = Ok(value: T) | Err

  datatype MessageType =
    | Handshake | KeyboardReport | PointerReport | WheelReport | KeypressReport | MouseReport
    | KeyboardMacroReport | CancelKeyboardMacroReport | KeypressKeepAliveReport
    | KeyboardLedState | KeydownState | KeyboardMacroState

  datatype Message = Message(ty: MessageType, data: Bytes)

  function ToByte(ty: MessageType): byte {
    match ty
    case Handshake => 0x01
    case KeyboardReport => 0x02
    case PointerReport => 0x03
    case WheelReport => 0x04
    case KeypressReport => 0x05
    case MouseReport => 0x06
    case KeyboardMacroReport => 0x07
    case CancelKeyboardMacroReport => 0x08
    case KeypressKeepAliveReport => 0x09
    case KeyboardLedState => 0x32
    case KeydownState => 0x33
    case KeyboardMacroState => 0x34
  }

  function FromByte(b: byte): Result<MessageType> {
    match b
    case 0x01 => Ok(Handshake)
    case 0x02 => Ok(KeyboardReport)
    case 0x03 => Ok(PointerReport)
    case 0x04 => Ok(WheelReport)
    case 0x05 => Ok(KeypressReport)
    case 0x06 => Ok(MouseReport)
    case 0x07 => Ok(KeyboardMacroReport)
    case 0x08 => Ok(CancelKeyboardMacroReport)
    case 0x09 => Ok(KeypressKeepAliveReport)
    case 0x32 => Ok(KeyboardLedState)
    case 0x33 => Ok(KeydownState)
    case 0x34 => Ok(KeyboardMacroState)
    case _ => Err
  }

  function Marshal(m: Message): Bytes { [ToByte(m.ty)] + m.data }

  function Unmarshal(buf: Bytes): Result<Message> {
    if buf == [] then Err
    else
      match FromByte(buf[0])
      case Ok(ty) => Ok(Message(ty, buf[1..]))
      case Err => Err
  }

  /** Every message survives the wire, and every buffer that parses is the encoding of its message. */
  lemma FramingRoundTrip(m: Message, buf: Bytes)
    ensures Unmarshal(Marshal(m)) == Ok(m)
    ensures Unmarshal(buf).Ok? ==> Marshal(Unmarshal(buf).value) == buf
  {
    assert Marshal(m)[1..] == m.data;
    if Unmarshal(buf).Ok? { assert [buf[0]] + buf[1..] == buf; }
  }

  // ---- Numbers ----

  function Be16(n: nat): (b: Bytes)
    requires n < 0x1_0000
    ensures |b| == 2
  {
    [(n / 0x100) as byte, (n % 0x100) as byte]
  }

  function FromBe16(b: Bytes): (n: nat)
    requires |b| == 2
    ensures n < 0x1_0000
  {
    b[0] as nat * 0x100 + b[1] as nat
  }

  function Be32(n: nat): (b: Bytes)
    requires n < 0x1_0000_0000
    ensures |b| == 4
  {
    Be16(n / 0x1_0000) + Be16(n % 0x1_0000)
  }

  function FromBe32(b: Bytes): (n: nat)
    requires |b| == 4
    ensures n < 0x1_0000_0000
  {
    FromBe16(b[..2]) * 0x1_0000 + FromBe16(b[2..])
  }

  lemma Be16RoundTrip(n: nat, b: Bytes)
    requires n < 0x1_0000 && |b| == 2
    ensures FromBe16(Be16(n)) == n && Be16(FromBe16(b)) == b
  {
  }

  lemma Be32RoundTrip(n: nat, b: Bytes)
    requires n < 0x1_0000_0000 && |b| == 4
    ensures FromBe32(Be32(n)) == n && Be32(FromBe32(b)) == b
  {
    Be16RoundTrip(n / 0x1_0000, b[..2]);
    Be16RoundTrip(n % 0x1_0000, b[2..]);
    assert Be32(n)[..2] == Be16(n / 0x1_0000) && Be32(n)[2..] == Be16(n % 0x1_0000);
    DivModIff(FromBe32(b), 0x1_0000, FromBe16(b[..2]), FromBe16(b[2..]));
    assert b == b[..2] + b[2..];
  }

  // ---- Macro payloads ----

  const STEP_SIZE := 9

  datatype MacroReport = MacroReport(isPaste: bool, stepCount: nat, steps: seq<MacroStep>)

  function StepBytes(s: MacroStep): (b: Bytes)
    ensures |b| == STEP_SIZE
  {
    [s.modifier] + s.keys + Be16(s.delay)
  }

  function StepsBytes(steps: seq<MacroStep>): (b: Bytes)
    ensures |b| == STEP_SIZE * |steps|
  {
    if steps == [] then [] else StepBytes(steps[0]) + StepsBytes(steps[1..])
  }

  /** The payload layout: the paste flag, a big-endian count, and nine bytes a step. */
  function Payload(isPaste: bool, steps: seq<MacroStep>): Bytes
    requires |steps| < 0x1_0000_0000
  {
    [if isPaste then 1 else 0] + Be32(|steps|) + StepsBytes(steps)
  }

  function StepAt(b: Bytes): MacroStep
    requires |b| == STEP_SIZE
  {
    MacroStep(b[0], b[1..7], FromBe16(b[7..]))
  }

  function StepsFrom(b: Bytes, n: nat): (steps: seq<MacroStep>)
    requires |b| == STEP_SIZE * n
    ensures |steps| == n
  {
    if n == 0 then [] else [StepAt(b[..STEP_SIZE])] + StepsFrom(b[STEP_SIZE..], n - 1)
  }

  /** What `keyboard_macro_report` accepts, and what it reads. */
  function ParseMacro(m: Message): Result<MacroReport> {
    if !m.ty.KeyboardMacroReport? || |m.data| < 5 then Err
    else
      var count := FromBe32(m.data[1..5]);
      if |m.data| != 5 + count * STEP_SIZE then Err
      else Ok(MacroReport(m.data[0] == 1, count, StepsFrom(m.data[5..], count)))
  }

  /** Big-endian: the most significant byte comes first. */
  lemma BigEndian(b: Bytes, c: Bytes)
    requires |b| == 2 && |c| == 4
    ensures FromBe16(b) == 0x100 * b[0] as nat + b[1] as nat
    ensures FromBe32(c) == 0x100_0000 * c[0] as nat + 0x1_0000 * c[1] as nat + 0x100 * c[2] as nat + c[3] as nat
  {
  }

  lemma {:induction false} StepsFromAt(b: Bytes, n: nat, k: nat)
    requires |b| == STEP_SIZE * n && k < n
    ensures StepsFrom(b, n)[k] == StepAt(b[STEP_SIZE * k..STEP_SIZE * k + STEP_SIZE])
  {
    if k > 0 {
      var rest := b[STEP_SIZE..];
      StepsFromAt(rest, n - 1, k - 1);
      assert rest[STEP_SIZE * (k - 1)..STEP_SIZE * (k - 1) + STEP_SIZE] == b[STEP_SIZE * k..STEP_SIZE * k + STEP_SIZE];
    }
  }

  /** What an accepted payload says, byte by byte, behind a frame's type byte 7: a count of four bytes
      from byte 1, the most significant first, and from byte `5 + 9k` step `k`: modifier, six keys, and
      a delay of two bytes, the most significant first. */
  lemma BytesSay(m: Message, k: nat, at: nat)
    requires ParseMacro(m).Ok? && k < ParseMacro(m).value.stepCount && at == 5 + 9 * k
    ensures var (d, r) := (m.data, ParseMacro(m).value);
            && at + 9 <= |d| && |r.steps| == r.stepCount && Marshal(m)[0] == 7
            && r.stepCount == 0x100_0000 * d[1] as nat + 0x1_0000 * d[2] as nat + 0x100 * d[3] as nat + d[4] as nat
            && r.steps[k].modifier == d[at]
            && (forall i :: 0 <= i < 6 ==> r.steps[k].keys[i] == d[at + 1 + i])
            && r.steps[k].delay == 0x100 * d[at + 7] as nat + d[at + 8] as nat
  {
    var d, count := m.data, FromBe32(m.data[1..5]);
    StepsFromAt(d[5..], count, k);
    SliceOfSlice(d, k, at);
    StepSays(d[at..at + 9]);
    BigEndian(d[..2], d[1..5]);
  }

  lemma SliceOfSlice(d: Bytes, k: nat, at: nat)
    requires at == 5 + 9 * k && at + 9 <= |d|
    ensures d[5..][STEP_SIZE * k..STEP_SIZE * k + STEP_SIZE] == d[at..at + 9]
  {
  }

  lemma StepSays(b: Bytes)
    requires |b| == STEP_SIZE
    ensures var s := StepAt(b);
            && s.modifier == b[0] && (forall i :: 0 <= i < 6 ==> s.keys[i] == b[1 + i])
            && s.delay == 0x100 * b[7] as nat + b[8] as nat
  {
    BigEndian(b[7..], b[..4]);
  }

  lemma StepRoundTrip(s: MacroStep, b: Bytes)
    requires |b| == STEP_SIZE
    ensures StepAt(StepBytes(s)) == s && StepBytes(StepAt(b)) == b
  {
    Be16RoundTrip(s.delay, b[7..]);
    assert StepBytes(s)[1..7] == s.keys && StepBytes(s)[7..] == Be16(s.delay);
    assert b == [b[0]] + b[1..7] + b[7..];
  }

  lemma {:induction false} StepsRoundTrip(steps: seq<MacroStep>)
    ensures StepsFrom(StepsBytes(steps), |steps|) == steps
  {
    if steps != [] {
      var b := StepsBytes(steps);
      StepRoundTrip(steps[0], StepBytes(steps[0]));
      StepsRoundTrip(steps[1..]);
      assert b[..STEP_SIZE] == StepBytes(steps[0]) && b[STEP_SIZE..] == StepsBytes(steps[1..]);
    }
  }

  lemma {:induction false} BytesRoundTrip(b: Bytes, n: nat)
    requires |b| == STEP_SIZE * n
    ensures StepsBytes(StepsFrom(b, n)) == b
  {
    if n > 0 {
      StepRoundTrip(MacroStep(0, NO_KEYS, 0), b[..STEP_SIZE]);
      BytesRoundTrip(b[STEP_SIZE..], n - 1);
      assert StepsFrom(b, n)[1..] == StepsFrom(b[STEP_SIZE..], n - 1);
      assert b == b[..STEP_SIZE] + b[STEP_SIZE..];
    }
  }

  /** Steps survive being laid out, framed, unframed and parsed. */
  lemma MacroRoundTrip(isPaste: bool, steps: seq<MacroStep>)
    requires |steps| < 0x1_0000_0000
    ensures var m := Message(KeyboardMacroReport, Payload(isPaste, steps));
            && Unmarshal(Marshal(m)) == Ok(m)
            && ParseMacro(m) == Ok(MacroReport(isPaste, |steps|, steps))
  {
    var data := Payload(isPaste, steps);
    FramingRoundTrip(Message(KeyboardMacroReport, data), []);
    assert data[1..5] == Be32(|steps|) && data[5..] == StepsBytes(steps);
    Be32RoundTrip(|steps|, Be32(|steps|));
    StepsRoundTrip(steps);
  }

  /** A payload is accepted exactly when its length is the one its count announces, and it is then the
      layout of what was read, up to a paste flag other than 0 and 1. */
  lemma AcceptedIsLayout(m: Message)
    ensures ParseMacro(m).Ok? <==>
              m.ty.KeyboardMacroReport? && |m.data| >= 5 && |m.data| == 5 + 9 * FromBe32(m.data[1..5])
    ensures ParseMacro(m).Ok? ==>
              var r := ParseMacro(m).value;
              && |r.steps| == r.stepCount < 0x1_0000_0000 && r.isPaste == (m.data[0] == 1)
              && Payload(r.isPaste, r.steps)[1..] == m.data[1..]
              && (Payload(r.isPaste, r.steps) == m.data <==> m.data[0] == 0 || m.data[0] == 1)
  {
    if ParseMacro(m).Ok? {
      var count := FromBe32(m.data[1..5]);
      Be32RoundTrip(0, m.data[1..5]);
      BytesRoundTrip(m.data[5..], count);
      assert m.data == [m.data[0]] + m.data[1..5] + m.data[5..];
    }
  }

  /** The record at `offset` is the first of those from there on. */
  lemma RecordAt(data: Bytes, offset: nat, n: nat)
    requires n > 0 && |data| == offset + STEP_SIZE * n
    ensures var step := MacroStep(data[offset], data[offset + 1..offset + 7], FromBe16(data[offset + 7..offset + 9]));
            StepsFrom(data[offset..], n) == [step] + StepsFrom(data[offset + STEP_SIZE..], n - 1)
  {
    var rest := data[offset..];
    assert rest[..STEP_SIZE][1..7] == data[offset + 1..offset + 7];
    assert rest[..STEP_SIZE][7..] == data[offset + 7..offset + 9];
    assert rest[STEP_SIZE..] == data[offset + STEP_SIZE..];
  }

  /** `keyboard_macro_report`, with its moving offset. */
  method KeyboardMacroReportOf(m: Message) returns (r: Result<MacroReport>)
    ensures r == ParseMacro(m)
  {
    if !m.ty.KeyboardMacroReport? || |m.data| < 5 { return Err; }
    var isPaste := m.data[0] == 1;
    var count := FromBe32(m.data[1..5]);
    if |m.data| != 5 + count * STEP_SIZE { return Err; }
    var steps: seq<MacroStep> := [];
    var offset := 5;
    for i := 0 to count
      invariant offset == 5 + STEP_SIZE * i
      invariant steps + StepsFrom(m.data[offset..], count - i) == StepsFrom(m.data[5..], count)
    {
      var delayOff := offset + 1 + HID_KEY_BUFFER_SIZE;
      var step := MacroStep(m.data[offset], m.data[offset + 1..offset + 1 + HID_KEY_BUFFER_SIZE],
                            FromBe16(m.data[delayOff..delayOff + 2]));
      RecordAt(m.data, offset, count - i);
      steps := steps + [step];
      offset := offset + STEP_SIZE;
    }
    assert steps + [] == steps;
    return Ok(MacroReport(isPaste, count, steps));
  }
}
