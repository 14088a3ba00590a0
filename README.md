# konsool-HID report decoding, modelled in Dafny

konsool-HID is firmware for a badge that acts as a USB HID host. It reads
input reports from keyboards, mice and gamepads. This project models the
part of it that turns raw report bytes into meaning:

- `badge_hid_host.dfy` (module `BadgeHidHost`) models `main/badge_hid_host.c`:
  - `sign_extend_12bit`;
  - `parse_mouse_event`, whose four byte layouts are chosen by the report length alone;
  - `parse_gamepad_report`: hat switch, fifteen buttons and six analog bytes.
- `keyboard.dfy` (module `Keyboard`) models the keyboard half of `main/main.c`:
  - the `keycode2ascii` table, the shift test and the character lookup;
  - the text a key event echoes;
  - `key_found`;
  - the press/release detection of `hid_host_keyboard_report_callback` and its static `prev_keys` buffer.
- `mouse_position.dfy` (module `MousePosition`) models the two static position counters of `hid_host_mouse_report_callback`.
- `hid_types.dfy` (module `HidTypes`) holds:
  - the record types of `main/badge_hid_host.h`;
  - the boot-protocol report layouts (Appendix B of the USB Device Class Definition for HID 1.11) that the callbacks overlay on the buffer.
- `bits.dfy` (module `Bits`) models C's integer operations on unbounded integers:
  - `&`, `|`, `<<` and `>>`;
  - the two's-complement casts to `int8_t` and `int16_t`.

  Lemmas turn each of these into plain arithmetic.

How C behaviour is modelled:

- **Bytes.** A report is a `seq<byte>` plus the `length` the transport passes.
- **Reads past the report.** Some layouts read bytes at or past `length`:
  - a report of length 3 or less is read as the 3-byte boot report, and length 3 also reads `data[4]`;
  - length 6 reads the scroll byte `data[6]`.

  These reads are kept as written. Each parser's precondition says how many bytes of buffer it touches (`MouseBytesRead`).
- **Casts.** Each C cast is written out as a modulo wrap.
- **Bit fields.** Bit-field flags are read with the masks and shifts of the source.
- **The length check.** Both callbacks compare the `int` length with a `size_t` size. A negative length therefore is not a short report (`IsShortKeyboardReport`, `IsShortMouseReport`).
- **Event order.** The keyboard callback emits, for each of the six slots in turn, the release of the slot's old key and then the press of its new key. Releases and presses are therefore interleaved slot by slot, not all releases first; `InterleavedExample` shows this.
- **Codes 0 to 3.** `prev_keys` keeps all six bytes of the last full report, including the codes 0 to 3. Those codes are filtered out when events are produced, not when they are stored.

## Model

| member | source | states |
|---|---|---|
| Bits.CastInt8 | main/badge_hid_host.c:49-52 | `(int8_t)` keeps the value modulo 256 and reads a byte as two's complement |
| Bits.CastInt16 | main/badge_hid_host.c:63-64 | `(int16_t)` keeps the value modulo 65536 and reads a 16-bit pattern as two's complement |
| Bits.IntBits | main/badge_hid_host.c:55-56 | the 32-bit pattern of a promoted `int` is below 2^32 and equal to it modulo 2^32 |
| HidTypes.MouseButtonsLayout | main/badge_hid_host.h:46-55 | button1..3 are bits 0..2 of `buttons.val` and the 5-bit reserved field is the rest; together they rebuild the byte |
| HidTypes.KeyStateValue | main/badge_hid_host.h:65-69 | KEY_STATE_PRESSED is 0, KEY_STATE_RELEASED is 1 |
| HidTypes.BootMouseView | main/main.c:328-339 | the boot mouse view of a buffer has X and Y equal to bytes 1 and 2 read as signed |
| HidTypes.BootKeyboardKeys | main/main.c:289-318 | the six key slots of a boot keyboard report are bytes 2..7 |
| BadgeHidHost.OrTopNibble | main/badge_hid_host.c:21 | `value OR 0xF000` sets bits 12..15 and keeps the low 12 bits |
| BadgeHidHost.SignExtend12Value | main/badge_hid_host.c:18-25 | sign_extend_12bit returns the two's-complement value of the low 12 bits, within [-2048, 2047] |
| BadgeHidHost.HighResXValue | main/badge_hid_host.c:55 | packed X is the 12-bit value data[3] + 256 * (data[4] & 0x0F), sign-extended |
| BadgeHidHost.HighResYValue | main/badge_hid_host.c:56 | packed Y is the 12-bit value 16 * data[5] + (data[4] >> 4), sign-extended |
| BadgeHidHost.LittleEndian16Value | main/badge_hid_host.c:63-64 | `(int16_t)((hi << 8) OR lo)` is the signed little-endian 16-bit value |
| BadgeHidHost.MouseBytesRead | main/badge_hid_host.c:39-67 | the parser reads past `length` exactly when length <= 3 or length == 6 |
| BadgeHidHost.ParseMouseEvent | main/badge_hid_host.c:36-70 | for each length class: which bytes give buttons, X, Y, scroll and tilt, as signed values; tilt is set only for lengths 5, 8 and >= 9 |
| BadgeHidHost.LittleEndian16RoundTrip | main/badge_hid_host.c:61-67 | decoding the little-endian encoding of any int16 gives it back |
| BadgeHidHost.LittleEndian16Bijective | main/badge_hid_host.c:61-67 | every byte pair is the encoding of what it decodes to |
| BadgeHidHost.MouseWideLayoutRoundTrip | main/badge_hid_host.c:61-67 | a long report carrying encoded X and Y decodes to that X and Y |
| BadgeHidHost.MouseHighResLayoutRoundTrip | main/badge_hid_host.c:53-60 | a 6- to 8-byte report carrying a packed 12-bit X and Y decodes to that X and Y |
| BadgeHidHost.BootMouseExample | main/badge_hid_host.c:39-46 | [0x01, 0x05, 0xFB, 0x00] of length 4 is button 1, X = 5, Y = -5 |
| BadgeHidHost.HighResMouseExample | main/badge_hid_host.c:53-60 | a 7-byte report with data[3] = 0xFF, data[4] = 0x0F gives X = -1, scroll 10 |
| BadgeHidHost.ParseGamepadReport | main/badge_hid_host.c:83-132 | a zero report below 10 bytes; otherwise the id, reserved bits 0, analog bytes copied, each direction set iff the hat points at it or a neighbour, never two opposite directions, no direction for hat > 7 |
| BadgeHidHost.GamepadButtonBits | main/badge_hid_host.c:102-122 | each of the fifteen buttons is set iff its own bit of byte 2 (R4 L4 L3 R3 Home Start Select R1, bits 0..7) or byte 3 (L1 R2 L2 Y X B A, bits 0..6) is set |
| BadgeHidHost.ShortGamepadExample | main/badge_hid_host.c:86 | a 9-byte report decodes to all zeros whatever its bytes |
| BadgeHidHost.FlagIsBit | main/badge_hid_host.c:102-122 | `(b >> k) & 1` is set iff bit k of b is set |
| BadgeHidHost.GamepadRoundTrip | main/badge_hid_host.c:83-132 | encoding a report with a possible direction pattern and clear reserved bits, then parsing it, gives the report back |
| BadgeHidHost.ButtonBytesRecovered | main/badge_hid_host.c:94-122 | the fifteen buttons re-encode to byte 2 and to the low 7 bits of byte 3 |
| Keyboard.IsModifierShift | main/main.c:200-205 | shift is held iff modifier bit 1 (left shift) or bit 5 (right shift) is set |
| Keyboard.GetChar | main/main.c:217-228 | the lookup fails iff the code is below HID_KEY_A or above HID_KEY_SLASH |
| Keyboard.TableCoversLookup | main/main.c:109-168 | the table has one row for each code 0 .. HID_KEY_SLASH |
| Keyboard.LetterKeys | main/main.c:114-139 | codes 4 .. 29 give 'a' .. 'z', or 'A' .. 'Z' with shift |
| Keyboard.DigitKeys | main/main.c:140-149 | codes 0x1E .. 0x27 give '1' .. '9', '0' without shift |
| Keyboard.EnterKey | main/main.c:150 | Enter gives a carriage return with or without shift |
| Keyboard.SilentKeys | main/main.c:151-153 | Esc and Tab give the zero character; Backspace gives '\b', or zero with shift |
| Keyboard.EchoText | main/main.c:235-264 | something is echoed iff a press has a looked-up character other than zero; the first character echoed is that character, and a second one, a line feed, follows exactly when it is the carriage return |
| Keyboard.EchoEnter | main/main.c:235-244 | pressing Enter echoes a carriage return then a line feed, with or without shift |
| Keyboard.EchoNothing | main/main.c:235-264 | pressed Esc and Tab echo nothing, and no release echoes anything |
| Keyboard.EchoLetter | main/main.c:235-264 | pressing a letter echoes exactly that letter, upper case with shift |
| Keyboard.KeyFound | main/main.c:273-280 | the search returns true iff the key occurs among the first `length` entries |
| Keyboard.TransitionsMember | main/main.c:298-316 | an event is among those of slots 0..n-1 iff some slot below n produces it |
| Keyboard.ReleaseEvents | main/main.c:300-306 | a release of k is reported iff k > 3, k was held and is no longer reported, and its modifier is 0 |
| Keyboard.PressEvents | main/main.c:308-315 | a press of k is reported iff k > 3, k is reported and was not held, with the report's modifier |
| Keyboard.SlotEventsShape | main/main.c:298-316 | one slot gives at most two events: a release of its old key with modifier 0, then a press of its new key with the report's modifier |
| Keyboard.AtMostTwelveEvents | main/main.c:298-316 | one report gives at most twelve events |
| Keyboard.RepeatedReportIsSilent | main/main.c:298-316 | the same key slots twice in a row give no event |
| Keyboard.HeldKeyIsSilent | main/main.c:298-316 | a key present in both reports gives no event |
| Keyboard.FromNoKeysOnlyPresses | main/main.c:295-316 | after the all-zero state every event is a press of a reported key with the report's modifier |
| Keyboard.InterleavedExample | main/main.c:298-316 | old keys 4, 5 and new keys 6, 7 give release 4, press 6, release 5, press 7 |
| Keyboard.PressExample | main/main.c:308-315 | A pressed with left shift from no keys gives one press carrying modifier 0x02 |
| Keyboard.JoinExample | main/main.c:308-315 | B joining a held A reports only B |
| Keyboard.ReleaseExample | main/main.c:300-306 | letting go of A while B stays held reports only the release of A |
| Keyboard.RolloverExample | main/main.c:298-316 | a report with the rollover code in every slot releases a held A and presses nothing |
| Keyboard.KeyboardTracker.constructor | main/main.c:295 | prev_keys starts as six zero bytes |
| Keyboard.KeyboardTracker.Decode | main/main.c:288-319 | a short report gives no event and keeps prev_keys; a full one gives exactly KeyTransitions against the old prev_keys, slot by slot, and stores the report's six slots |
| Keyboard.TwoReports | main/main.c:295-318 | the second of two reports is compared with the key slots of the first |
| MousePosition.TotalDisplacement | main/main.c:334-339 | after n full reports each coordinate lies in [-128 n, 127 n] |
| MousePosition.CursorPosition.constructor | main/main.c:334-335 | the position starts at (0, 0) |
| MousePosition.CursorPosition.Update | main/main.c:330-339 | a short report changes nothing; a full one adds its signed X and Y and keeps the position equal to the sum over all full reports seen |
| MousePosition.PositionBounds | main/main.c:334-339 | the position stays within 128 steps per report in the negative direction and 127 in the positive one |
| MousePosition.BootViewMatchesParser | main/badge_hid_host.c:39-43 | the callback's boot displacement and buttons are those parse_mouse_event gives for a 4-byte report |

## Left out

- USB host plumbing is not modelled: device enumeration, the event queue and tasks, and `hid_host_interface_callback`, which passes each boot keyboard or mouse report to its callback and any other report to `hid_host_generic_report_callback`. These are I/O and concurrency.
- Drawing to the display and serial output are not modelled: `hid_print_new_device_report_header`, the `printf`/`snprintf` of the mouse callback, the hex dump of non-boot reports in `hid_host_generic_report_callback`, `putchar` and `fflush`. `EchoText` gives the characters that `key_event_callback` would print, as a value.
- `KeyboardTracker.Decode` returns the events in order instead of calling `key_event_callback` on each one.
- `CursorPosition.Update` does not model 32-bit overflow of the static `int` counters. The position is an unbounded integer.
- The bit order of the C bit-field unions is left to the compiler, so gamepad buttons are a record of booleans. Their packed 32-bit `val` is not modelled. `GamepadRoundTrip` therefore requires the reserved field to be 0, which is what the parser produces.
- The reads at or past `length` are kept as preconditions on buffer size. The model does not decide what those bytes hold.
- The doc comment of `parse_gamepad_report` promises a `bool` result. The code returns the report itself, and the model follows the code.
- These ESP-IDF headers are not part of this model:
  - `usb/hid_usage_keyboard.h` and `usb/hid_usage_mouse.h`, which define the boot report structs and the key and modifier constants. Their layouts and values are taken from HID 1.11 Appendix B and the HID Usage Tables.
  - `usb/hid_host.h`.
