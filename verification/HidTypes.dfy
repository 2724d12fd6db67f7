/** The values shared by the HID wire format, the typing compiler and the macro
    dispatcher (crates/rkvm-proto/src/hidrpc.rs). */
module HidTypes {
  /** A `u8`. */
  newtype byte = b: int | 0 <= b < 0x100

  const HID_KEY_BUFFER_SIZE := 6

  /** The key slots of one boot-keyboard report, `[u8; HID_KEY_BUFFER_SIZE]`. */
  type Keys = k: seq<byte> | |k| == HID_KEY_BUFFER_SIZE witness [0, 0, 0, 0, 0, 0]

  /** A `u16` number of milliseconds. */
  type Millis = d: nat | d < 0x1_0000

  datatype MacroStep = MacroStep(modifier: byte, keys: Keys, delay: Millis)

  /** What one `keyboard_report` call tells the host is held down. */
  datatype KeyReport = KeyReport(modifier: byte, keys: Keys)

  const NO_KEYS: Keys := [0, 0, 0, 0, 0, 0]
  const ALL_UP := KeyReport(0, NO_KEYS)
}
