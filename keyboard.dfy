/**
 * The keyboard half of the report handling in main/main.c: the scancode to
 * ASCII table, the shift test, the character lookup, the linear key search
 * and the press/release detection that compares each boot keyboard report
 * with the keys of the one before it.
 *
 * The detection is given twice: `KeyTransitions` is the reference
 * definition of the events one report produces, and the method
 * `KeyboardTracker.Decode` is the loop of the callback, proved to produce
 * exactly those events and to remember the report's key slots.
 */
module Keyboard {
  import opened Bits
  import opened HidTypes

  datatype Option<T> = None | Some(value: T)

  // Usage IDs of the keyboard page (HID Usage Tables, section 10) and the
  // modifier bits of the boot keyboard report.
  const HID_KEY_ERROR_UNDEFINED: byte := 0x03
  const HID_KEY_A: byte := 0x04
  const HID_KEY_ENTER: byte := 0x28
  const HID_KEY_ESC: byte := 0x29
  const HID_KEY_DEL: byte := 0x2A
  const HID_KEY_TAB: byte := 0x2B
  const HID_KEY_SLASH: byte := 0x38
  const HID_LEFT_SHIFT: byte := 0x02
  const HID_RIGHT_SHIFT: byte := 0x20

  /** KEYBOARD_ENTER_MAIN_CHAR */
  const ENTER_CHAR: char := '\r'

  /**
   * keycode2ascii: for each key code up to HID_KEY_SLASH, the character
   * without and with shift. A zero character means "nothing to print".
   * The rows are written in the table's order, in five groups.
   */
  const KEYCODE_TO_ASCII: seq<(char, char)> :=
    NON_KEY_ROWS + LETTER_ROWS + DIGIT_ROWS + CONTROL_ROWS + PUNCTUATION_ROWS

  /** No press, rollover, POST fail, undefined error. */
  const NON_KEY_ROWS: seq<(char, char)> := [('\0', '\0'), ('\0', '\0'), ('\0', '\0'), ('\0', '\0')]

  /** HID_KEY_A .. HID_KEY_Z */
  const LETTER_ROWS: seq<(char, char)> := [
    ('a', 'A'), ('b', 'B'), ('c', 'C'), ('d', 'D'), ('e', 'E'), ('f', 'F'),
    ('g', 'G'), ('h', 'H'), ('i', 'I'), ('j', 'J'), ('k', 'K'), ('l', 'L'),
    ('m', 'M'), ('n', 'N'), ('o', 'O'), ('p', 'P'), ('q', 'Q'), ('r', 'R'),
    ('s', 'S'), ('t', 'T'), ('u', 'U'), ('v', 'V'), ('w', 'W'), ('x', 'X'),
    ('y', 'Y'), ('z', 'Z')]

  /** HID_KEY_1 .. HID_KEY_9, HID_KEY_0 */
  const DIGIT_ROWS: seq<(char, char)> := [
    ('1', '!'), ('2', '@'), ('3', '#'), ('4', '$'), ('5', '%'),
    ('6', '^'), ('7', '&'), ('8', '*'), ('9', '('), ('0', ')')]

  /** Enter, Esc, Backspace (HID_KEY_DEL), Tab, Space. */
  const CONTROL_ROWS: seq<(char, char)> := [
    (ENTER_CHAR, ENTER_CHAR), ('\0', '\0'), ('\U{8}', '\0'), ('\0', '\0'), (' ', ' ')]

  /**
   * Minus .. slash; the non-US # code (0x32) repeats the backslash row of
   * the code before it.
   */
  const PUNCTUATION_ROWS: seq<(char, char)> := [
    ('-', '_'), ('=', '+'), ('[', '{'), (']', '}'),
    ('\\', '|'), ('\\', '|'),
    (';', ':'), ('\'', '"'), ('`', '~'), (',', '<'), ('.', '>'), ('/', '?')]

  /** hid_keyboard_is_modifier_shift: left or right shift is held. */
  function IsModifierShift(modifier: byte): (shift: bool)
    ensures shift <==> BitSet(modifier, 1) || BitSet(modifier, 5)
  {
    Pow2Values();
    AndSingleBit(modifier, 1);
    AndSingleBit(modifier, 5);
    And(modifier, HID_LEFT_SHIFT) == HID_LEFT_SHIFT || And(modifier, HID_RIGHT_SHIFT) == HID_RIGHT_SHIFT
  }

  /**
   * hid_keyboard_get_char: `None` where the C function returns false and
   * leaves `*key_char` alone; otherwise the table entry for the shift state.
   */
  function GetChar(modifier: byte, keyCode: byte): (c: Option<char>)
    ensures c.None? <==> keyCode < HID_KEY_A || keyCode > HID_KEY_SLASH
  {
    var column := if IsModifierShift(modifier) then 1 else 0;
    if HID_KEY_A <= keyCode <= HID_KEY_SLASH then
      Some(if column == 1 then KEYCODE_TO_ASCII[keyCode].1 else KEYCODE_TO_ASCII[keyCode].0)
    else
      None
  }

  /** The table has one row for every code the lookup accepts. */
  lemma TableCoversLookup()
    ensures |KEYCODE_TO_ASCII| == HID_KEY_SLASH as int + 1
  {
  }

  /** Codes 0x04 .. 0x1D are the letters, lower case unless shift is held. */
  lemma LetterKeys(modifier: byte, k: nat)
    requires k < 26
    ensures GetChar(modifier, HID_KEY_A + k).Some?
    ensures GetChar(modifier, HID_KEY_A + k).value as int ==
      (if IsModifierShift(modifier) then 'A' else 'a') as int + k
  {
  }

  /** Codes 0x1E .. 0x26 are the digits 1 to 9 and 0x27 is 0 when shift is not held. */
  lemma DigitKeys(modifier: byte, k: nat)
    requires k < 10 && !IsModifierShift(modifier)
    ensures GetChar(modifier, 0x1E + k).Some?
    ensures GetChar(modifier, 0x1E + k).value as int == if k == 9 then '0' as int else '1' as int + k
  {
  }

  /** Enter gives a carriage return with or without shift. */
  lemma EnterKey(modifier: byte)
    ensures GetChar(modifier, HID_KEY_ENTER) == Some(ENTER_CHAR)
  {
  }

  /** Esc and Tab, and Backspace with shift, are accepted but give the zero character. */
  lemma SilentKeys(modifier: byte)
    ensures GetChar(modifier, HID_KEY_ESC) == Some('\0')
    ensures GetChar(modifier, HID_KEY_TAB) == Some('\0')
    ensures GetChar(modifier, HID_KEY_DEL) == Some(if IsModifierShift(modifier) then '\0' else '\U{8}')
  {
  }

  /**
   * What key_event_callback prints for one event: the character of a
   * pressed key unless it is zero (hid_keyboard_print_char), with a line
   * feed after a carriage return; nothing for a release or an unknown code.
   */
  function EchoText(e: KeyEvent): (text: seq<char>)
    ensures |text| <= 2
    ensures text != [] <==>
      e.state == Pressed && GetChar(e.modifier, e.keyCode).Some? && GetChar(e.modifier, e.keyCode).value != '\0'
    ensures text != [] ==> text[0] == GetChar(e.modifier, e.keyCode).value
    ensures |text| == 2 <==> text != [] && text[0] == ENTER_CHAR
    ensures |text| == 2 ==> text[1] == '\n'
  {
    if e.state != Pressed then []
    else match GetChar(e.modifier, e.keyCode)
      case None => []
      case Some(c) =>
        if c == '\0' then []
        else if c == ENTER_CHAR then [c, '\n']
        else [c]
  }

  /** Pressing a letter echoes exactly that letter. */
  lemma EchoLetter(modifier: byte, k: nat)
    requires k < 26
    ensures |EchoText(KeyEvent(Pressed, modifier, HID_KEY_A + k))| == 1
    ensures EchoText(KeyEvent(Pressed, modifier, HID_KEY_A + k))[0] as int ==
      (if IsModifierShift(modifier) then 'A' else 'a') as int + k
  {
    LetterKeys(modifier, k);
  }

  /** Pressing Enter echoes a carriage return and a line feed, with or without shift. */
  lemma EchoEnter(modifier: byte)
    ensures EchoText(KeyEvent(Pressed, modifier, HID_KEY_ENTER)) == [ENTER_CHAR, '\n']
  {
  }

  /** Esc and Tab echo nothing when pressed, and no release echoes anything. */
  lemma EchoNothing(modifier: byte, k: byte)
    ensures EchoText(KeyEvent(Pressed, modifier, HID_KEY_ESC)) == []
    ensures EchoText(KeyEvent(Pressed, modifier, HID_KEY_TAB)) == []
    ensures EchoText(KeyEvent(Released, modifier, k)) == []
  {
  }

  /**
   * key_found: whether `key` occurs among the first `length` entries of
   * `src`.
   */
  method KeyFound(src: seq<byte>, key: byte, length: nat) returns (found: bool)
    requires length <= |src|
    ensures found <==> key in src[..length]
  {
    var i := 0;
    while i < length
      invariant 0 <= i <= length
      invariant key !in src[..i]
    {
      if src[i] == key {
        assert src[..length][i] == key;
        return true;
      }
      assert src[..i + 1] == src[..i] + [src[i]];
      i := i + 1;
    }
    return false;
  }

  // ------------------------------------------------------------ reference

  /**
   * The events of key slot `i`: a release of the old key in that slot if it
   * is a real key no longer reported, then a press of the new key in that
   * slot if it is a real key not reported before. Codes 0 to 3 (no key,
   * rollover, POST fail, undefined error) are never keys.
   */
  function SlotEvents(prev: seq<byte>, keys: seq<byte>, modifier: byte, i: nat): seq<KeyEvent>
    requires |prev| == |keys| == HID_KEYBOARD_KEY_MAX && i < HID_KEYBOARD_KEY_MAX
  {
    (if prev[i] > HID_KEY_ERROR_UNDEFINED && prev[i] !in keys
     then [KeyEvent(Released, 0, prev[i])] else [])
    + (if keys[i] > HID_KEY_ERROR_UNDEFINED && keys[i] !in prev
       then [KeyEvent(Pressed, modifier, keys[i])] else [])
  }

  /** The events of slots 0 .. n-1, in slot order. */
  function Transitions(prev: seq<byte>, keys: seq<byte>, modifier: byte, n: nat): seq<KeyEvent>
    requires |prev| == |keys| == HID_KEYBOARD_KEY_MAX && n <= HID_KEYBOARD_KEY_MAX
  {
    if n == 0 then [] else Transitions(prev, keys, modifier, n - 1) + SlotEvents(prev, keys, modifier, n - 1)
  }

  /** All the events one report produces, given the key slots of the report before. */
  function KeyTransitions(prev: seq<byte>, keys: seq<byte>, modifier: byte): seq<KeyEvent>
    requires |prev| == |keys| == HID_KEYBOARD_KEY_MAX
  {
    Transitions(prev, keys, modifier, HID_KEYBOARD_KEY_MAX)
  }

  lemma {:induction false} TransitionsMember(prev: seq<byte>, keys: seq<byte>, modifier: byte, n: nat, e: KeyEvent)
    requires |prev| == |keys| == HID_KEYBOARD_KEY_MAX && n <= HID_KEYBOARD_KEY_MAX
    ensures e in Transitions(prev, keys, modifier, n) <==>
            exists i :: 0 <= i < n && e in SlotEvents(prev, keys, modifier, i)
  {
    if n > 0 {
      TransitionsMember(prev, keys, modifier, n - 1, e);
    }
  }

  /**
   * A release is reported exactly for each real key that was held and is no
   * longer reported, always with modifier 0.
   */
  lemma ReleaseEvents(prev: seq<byte>, keys: seq<byte>, modifier: byte, m: byte, k: byte)
    requires |prev| == |keys| == HID_KEYBOARD_KEY_MAX
    ensures KeyEvent(Released, m, k) in KeyTransitions(prev, keys, modifier) <==>
            m == 0 && k > HID_KEY_ERROR_UNDEFINED && k in prev && k !in keys
  {
    var e := KeyEvent(Released, m, k);
    TransitionsMember(prev, keys, modifier, HID_KEYBOARD_KEY_MAX, e);
    if m == 0 && k > HID_KEY_ERROR_UNDEFINED && k in prev && k !in keys {
      var i :| 0 <= i < |prev| && prev[i] == k;
      assert e in SlotEvents(prev, keys, modifier, i);
    }
  }

  /**
   * A press is reported exactly for each real key that is reported now and
   * was not held before, with the report's modifier byte.
   */
  lemma PressEvents(prev: seq<byte>, keys: seq<byte>, modifier: byte, m: byte, k: byte)
    requires |prev| == |keys| == HID_KEYBOARD_KEY_MAX
    ensures KeyEvent(Pressed, m, k) in KeyTransitions(prev, keys, modifier) <==>
            m == modifier && k > HID_KEY_ERROR_UNDEFINED && k in keys && k !in prev
  {
    var e := KeyEvent(Pressed, m, k);
    TransitionsMember(prev, keys, modifier, HID_KEYBOARD_KEY_MAX, e);
    if m == modifier && k > HID_KEY_ERROR_UNDEFINED && k in keys && k !in prev {
      var i :| 0 <= i < |keys| && keys[i] == k;
      assert e in SlotEvents(prev, keys, modifier, i);
    }
  }

  lemma {:induction false} TransitionsLength(prev: seq<byte>, keys: seq<byte>, modifier: byte, n: nat)
    requires |prev| == |keys| == HID_KEYBOARD_KEY_MAX && n <= HID_KEYBOARD_KEY_MAX
    ensures |Transitions(prev, keys, modifier, n)| <= 2 * n
  {
    if n > 0 {
      TransitionsLength(prev, keys, modifier, n - 1);
    }
  }

  /**
   * One slot yields at most two events: the release of its old key, then
   * the press of its new key.
   */
  lemma SlotEventsShape(prev: seq<byte>, keys: seq<byte>, modifier: byte, i: nat)
    requires |prev| == |keys| == HID_KEYBOARD_KEY_MAX && i < HID_KEYBOARD_KEY_MAX
    ensures var s := SlotEvents(prev, keys, modifier, i);
      |s| <= 2 &&
      (forall j :: 0 <= j < |s| && s[j].state == Released ==> s[j] == KeyEvent(Released, 0, prev[i])) &&
      (forall j :: 0 <= j < |s| && s[j].state == Pressed ==> s[j] == KeyEvent(Pressed, modifier, keys[i])) &&
      (|s| == 2 ==> s[0].state == Released && s[1].state == Pressed)
  {
  }

  /** One report yields at most twelve events. */
  lemma AtMostTwelveEvents(prev: seq<byte>, keys: seq<byte>, modifier: byte)
    requires |prev| == |keys| == HID_KEYBOARD_KEY_MAX
    ensures |KeyTransitions(prev, keys, modifier)| <= 2 * HID_KEYBOARD_KEY_MAX
  {
    TransitionsLength(prev, keys, modifier, HID_KEYBOARD_KEY_MAX);
  }

  /** Receiving the same key slots again produces no event, whatever the modifier. */
  lemma {:induction false} RepeatedReportIsSilent(keys: seq<byte>, modifier: byte, n: nat)
    requires |keys| == HID_KEYBOARD_KEY_MAX && n <= HID_KEYBOARD_KEY_MAX
    ensures Transitions(keys, keys, modifier, n) == []
  {
    if n > 0 {
      RepeatedReportIsSilent(keys, modifier, n - 1);
      assert keys[n - 1] in keys;
    }
  }

  /** A key held in both reports, in any slot, produces no event. */
  lemma HeldKeyIsSilent(prev: seq<byte>, keys: seq<byte>, modifier: byte, e: KeyEvent)
    requires |prev| == |keys| == HID_KEYBOARD_KEY_MAX
    requires e.keyCode in prev && e.keyCode in keys
    ensures e !in KeyTransitions(prev, keys, modifier)
  {
    match e.state
    case Released => ReleaseEvents(prev, keys, modifier, e.modifier, e.keyCode);
    case Pressed => PressEvents(prev, keys, modifier, e.modifier, e.keyCode);
  }

  const NoKeys: seq<byte> := [0, 0, 0, 0, 0, 0]

  /** After an empty report, every event of the next one is a press. */
  lemma FromNoKeysOnlyPresses(keys: seq<byte>, modifier: byte, e: KeyEvent)
    requires |keys| == HID_KEYBOARD_KEY_MAX
    requires e in KeyTransitions(NoKeys, keys, modifier)
    ensures e.state == Pressed && e.modifier == modifier && e.keyCode in keys
  {
    match e.state
    case Released => ReleaseEvents(NoKeys, keys, modifier, e.modifier, e.keyCode);
    case Pressed => PressEvents(NoKeys, keys, modifier, e.modifier, e.keyCode);
  }

  /**
   * The events of one report are ordered slot by slot: the release of slot
   * 0, the press of slot 0, the release of slot 1 and so on.
   */
  lemma InterleavedExample()
    ensures KeyTransitions([4, 5, 0, 0, 0, 0], [6, 7, 0, 0, 0, 0], 0) ==
      [KeyEvent(Released, 0, 4), KeyEvent(Pressed, 0, 6),
       KeyEvent(Released, 0, 5), KeyEvent(Pressed, 0, 7)]
  {
    var prev: seq<byte>, keys: seq<byte> := [4, 5, 0, 0, 0, 0], [6, 7, 0, 0, 0, 0];
    assert 4 !in keys && 5 !in keys && 6 !in prev && 7 !in prev;
  }

  /** Pressing A with left shift from an empty report. */
  lemma PressExample()
    ensures KeyTransitions(NoKeys, [4, 0, 0, 0, 0, 0], 0x02) == [KeyEvent(Pressed, 0x02, 4)]
  {
    var a: seq<byte> := [4, 0, 0, 0, 0, 0];
    assert 4 !in NoKeys && 0 in a;
  }

  /** B joining a held A reports only B. */
  lemma JoinExample()
    ensures KeyTransitions([4, 0, 0, 0, 0, 0], [4, 5, 0, 0, 0, 0], 0) == [KeyEvent(Pressed, 0, 5)]
  {
    var a: seq<byte>, ab: seq<byte> := [4, 0, 0, 0, 0, 0], [4, 5, 0, 0, 0, 0];
    assert 4 in ab && 4 in a && 5 !in a && 0 in a && 0 in ab;
  }

  /** Letting go of A while B stays held reports only the release of A. */
  lemma ReleaseExample()
    ensures KeyTransitions([4, 5, 0, 0, 0, 0], [0, 5, 0, 0, 0, 0], 0) == [KeyEvent(Released, 0, 4)]
  {
    var ab: seq<byte>, b: seq<byte> := [4, 5, 0, 0, 0, 0], [0, 5, 0, 0, 0, 0];
    assert 4 !in b && 5 in b && 5 in ab && 0 in ab;
  }

  /**
   * The rollover error code (0x01) in every slot is not a key, so a held A
   * is reported released when such a report arrives.
   */
  lemma RolloverExample()
    ensures KeyTransitions([4, 0, 0, 0, 0, 0], [1, 1, 1, 1, 1, 1], 0) == [KeyEvent(Released, 0, 4)]
  {
  }

  // ---------------------------------------------------------- the callback

  /**
   * `length < sizeof(hid_keyboard_input_report_boot_t)` compares an `int`
   * with a `size_t`: a negative length converts to a huge unsigned value
   * and is not short.
   */
  predicate IsShortKeyboardReport(length: int) {
    0 <= length < BOOT_KEYBOARD_REPORT_SIZE
  }

  /**
   * hid_host_keyboard_report_callback together with its function-static
   * `prev_keys` buffer: the key slots of the last full report.
   */
  class KeyboardTracker {
    const prevKeys: array<byte>

    ghost predicate Valid()
    {
      prevKeys.Length == HID_KEYBOARD_KEY_MAX
    }

    /** `static uint8_t prev_keys[HID_KEYBOARD_KEY_MAX] = {0};` */
    constructor ()
      ensures Valid() && fresh(prevKeys)
      ensures prevKeys[..] == NoKeys
    {
      prevKeys := new byte[HID_KEYBOARD_KEY_MAX](_ => 0);
    }

    /**
     * One report: too short a report is ignored; otherwise the events are
     * those of `KeyTransitions` against the remembered slots, in the order
     * the callback emits them, and the report's six slots are remembered.
     */
    method Decode(data: seq<byte>, length: int) returns (events: seq<KeyEvent>)
      requires Valid()
      requires IsShortKeyboardReport(length) || |data| >= BOOT_KEYBOARD_REPORT_SIZE
      modifies prevKeys
      ensures Valid()
      ensures IsShortKeyboardReport(length) ==> events == [] && prevKeys[..] == old(prevKeys[..])
      ensures !IsShortKeyboardReport(length) ==>
        events == KeyTransitions(old(prevKeys[..]), BootKeyboardKeys(data), BootKeyboardModifier(data)) &&
        prevKeys[..] == BootKeyboardKeys(data)
    {
      events := [];
      if IsShortKeyboardReport(length) {
        return;
      }
      var keys := BootKeyboardKeys(data);
      var modifier := BootKeyboardModifier(data);
      var prev := prevKeys[..];
      for i := 0 to HID_KEYBOARD_KEY_MAX
        invariant prevKeys[..] == prev
        invariant events == Transitions(prev, keys, modifier, i)
      {
        var released := [];
        if prevKeys[i] > HID_KEY_ERROR_UNDEFINED {
          var found := KeyFound(keys, prevKeys[i], HID_KEYBOARD_KEY_MAX);
          if !found {
            released := [KeyEvent(Released, 0, prevKeys[i])];
          }
        }
        var pressed := [];
        if keys[i] > HID_KEY_ERROR_UNDEFINED {
          var found := KeyFound(prevKeys[..], keys[i], HID_KEYBOARD_KEY_MAX);
          if !found {
            pressed := [KeyEvent(Pressed, modifier, keys[i])];
          }
        }
        assert keys[..HID_KEYBOARD_KEY_MAX] == keys && prev[..HID_KEYBOARD_KEY_MAX] == prev;
        events := events + released + pressed;
      }
      forall i | 0 <= i < HID_KEYBOARD_KEY_MAX {
        prevKeys[i] := keys[i];
      }
    }
  }

  /** Two reports in a row: the second compares against the first. */
  method TwoReports(data1: seq<byte>, data2: seq<byte>) returns (first: seq<KeyEvent>, second: seq<KeyEvent>)
    requires |data1| >= BOOT_KEYBOARD_REPORT_SIZE && |data2| >= BOOT_KEYBOARD_REPORT_SIZE
    ensures first == KeyTransitions(NoKeys, BootKeyboardKeys(data1), data1[0])
    ensures second == KeyTransitions(BootKeyboardKeys(data1), BootKeyboardKeys(data2), data2[0])
  {
    var tracker := new KeyboardTracker();
    first := tracker.Decode(data1, BOOT_KEYBOARD_REPORT_SIZE);
    second := tracker.Decode(data2, BOOT_KEYBOARD_REPORT_SIZE);
  }
}
