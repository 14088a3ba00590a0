/**
 * The record types of the HID decoders (main/badge_hid_host.h) and the boot
 * protocol report structures of Appendix B of the USB Device Class
 * Definition for HID 1.11 that the decoders overlay on a byte buffer.
 *
 * The C code reaches the button bits through bit-field unions whose bit
 * order is left to the compiler; here each button is read from the byte
 * with an explicit mask, and the gamepad's flags are a record of booleans.
 */
module HidTypes {
  import opened Bits

  /** mouse_report_t: the `buttons` byte is the union's `val`. */
  datatype MouseReport = MouseReport(buttons: byte, x: int16, y: int16, scroll: int8, tilt: int8)
  {
    /** Bit 0 of `buttons.val`. */
    predicate Button1() { And(buttons, 0x01) != 0 }
    /** Bit 1 of `buttons.val`. */
    predicate Button2() { And(buttons, 0x02) != 0 }
    /** Bit 2 of `buttons.val`. */
    predicate Button3() { And(buttons, 0x04) != 0 }
    /** The five reserved high bits of `buttons.val`. */
    function Reserved(): nat { Shr(buttons, 3) }
  }

  /** The three button flags and the reserved field fill the byte exactly. */
  lemma MouseButtonsLayout(r: MouseReport)
    ensures r.Reserved() < 0x20
    ensures r.buttons == BitValue(r.Button1()) + 2 * BitValue(r.Button2())
                         + 4 * BitValue(r.Button3()) + 8 * r.Reserved()
  {
    Pow2Values();
    AndSingleBit(r.buttons, 0);
    AndSingleBit(r.buttons, 1);
    AndSingleBit(r.buttons, 2);
  }

  /** The gamepad's 13-bit reserved bit-field. */
  type u13 = x: int | 0 <= x < 0x2000

  /**
   * The 19 one-bit flags of gamepad_report_t's `buttons` union; with the
   * 13-bit reserved field they make up its 32-bit `val`.
   */
  datatype GamepadButtons = GamepadButtons(
    a: bool, b: bool, x: bool, y: bool,
    select: bool, start: bool,
    l1: bool, r1: bool, l2: bool, r2: bool, l3: bool, r3: bool,
    home: bool,
    l4: bool, r4: bool,
    up: bool, down: bool, left: bool, right: bool,
    reserved: u13)

  /** gamepad_report_t; the six analog fields are uint8_t. */
  datatype GamepadReport = GamepadReport(
    reportId: byte,
    buttons: GamepadButtons,
    lx: byte, ly: byte,
    rx: byte, ry: byte,
    lt: byte, rt: byte)

  const NoButtons := GamepadButtons(false, false, false, false, false, false,
                                    false, false, false, false, false, false,
                                    false, false, false, false, false, false, false, 0)

  /** `gamepad_report_t rpt = {0};` */
  const ZeroGamepadReport := GamepadReport(0, NoButtons, 0, 0, 0, 0, 0, 0)

  /** enum key_state */
  datatype KeyState = Pressed | Released

  /** The numeric value of each key_state enumerator. */
  function KeyStateValue(s: KeyState): (v: byte)
    ensures v <= 1
    ensures v == 0 <==> s == Pressed
  {
    match s
    case Pressed => 0x00
    case Released => 0x01
  }

  /** key_event_t */
  datatype KeyEvent = KeyEvent(state: KeyState, modifier: byte, keyCode: byte)

  /** hid_mouse_input_report_boot_t (Appendix B.2 of HID 1.11): buttons, int8 X, int8 Y. */
  datatype BootMouseReport = BootMouseReport(buttons: byte, x: int8, y: int8)

  const BOOT_MOUSE_REPORT_SIZE := 3

  /** Reading a buffer through a `hid_mouse_input_report_boot_t*`. */
  function BootMouseView(data: seq<byte>): (r: BootMouseReport)
    requires |data| >= BOOT_MOUSE_REPORT_SIZE
    ensures r.x == Signed8(data[1]) && r.y == Signed8(data[2])
  {
    BootMouseReport(data[0], CastInt8(data[1]), CastInt8(data[2]))
  }

  /**
   * hid_keyboard_input_report_boot_t (Appendix B.1 of HID 1.11): the
   * modifier byte, a reserved byte and six key slots.
   */
  const BOOT_KEYBOARD_REPORT_SIZE := 8
  const HID_KEYBOARD_KEY_MAX := 6

  function BootKeyboardModifier(data: seq<byte>): byte
    requires |data| >= BOOT_KEYBOARD_REPORT_SIZE
  {
    data[0]
  }

  function BootKeyboardKeys(data: seq<byte>): (keys: seq<byte>)
    requires |data| >= BOOT_KEYBOARD_REPORT_SIZE
    ensures |keys| == HID_KEYBOARD_KEY_MAX
    ensures forall i :: 0 <= i < HID_KEYBOARD_KEY_MAX ==> keys[i] == data[2 + i]
  {
    data[2..8]
  }
}
