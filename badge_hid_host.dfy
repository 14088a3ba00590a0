/**
 * The mouse and gamepad report decoders of main/badge_hid_host.c.
 *
 * Both are total functions of a byte buffer and the `length` the transport
 * reports. The buffer is a sequence separate from `length`: some layouts
 * read bytes at or past `length`, and the preconditions say how far each
 * layout reads instead of hiding it.
 */
module BadgeHidHost {
  import opened Bits
  import opened HidTypes

  // ------------------------------------------------------- sign_extend_12bit

  /**
   * sign_extend_12bit: fills the top four bits with ones when bit 11 is set
   * and masks to 12 bits otherwise.
   */
  function SignExtend12(value: u16): int16 {
    OrTopNibble(value);
    if And(value, 0x800) != 0 then CastInt16(Or(value, 0xF000))
    else CastInt16(And(value, 0x0FFF))
  }

  /** `value | 0xF000` sets the top nibble and keeps the low 12 bits. */
  lemma OrTopNibble(value: u16)
    ensures Or(value, 0xF000) == 0xF000 + value % 0x1000
  {
    Pow2Values();
    var h := HighBits(value, 12);
    DivModPow2(value, 12);
    DivModPow2(0xF000, 12);
    OrCommutes(value, 0xF000);
    OrSplit(0xF000, value, 12);
    OrCommutes(15, h);
    OrAllOnes(h, 4);
  }

  /**
   * The result of sign_extend_12bit is the two's-complement reading of the
   * low 12 bits of its input, so it lies in [-2048, 2047] and bits 12..15
   * of the input play no part.
   */
  lemma SignExtend12Value(value: u16)
    ensures SignExtend12(value) == Signed12(value % 0x1000)
    ensures -0x800 <= SignExtend12(value) < 0x800
  {
    Pow2Values();
    AndSingleBit(value, 11);
    if And(value, 0x800) != 0 {
      assert (value / 0x800) % 2 == 1;
      assert value % 0x1000 >= 0x800;
      OrTopNibble(value);
    } else {
      assert value % 0x1000 < 0x800;
      AndLowMask(value, 12);
    }
  }

  // ------------------------------------------------------ parse_mouse_event

  /** The high-resolution X: `sign_extend_12bit((data[4] & 0x0F) << 8) | data[3]`. */
  function HighResX(d3: byte, d4: byte): int16 {
    Pow2Values();
    var s := SignExtend12(Shl(And(d4, 0x0F), 8));
    CastInt16(Or(IntBits(s), d3))
  }

  /**
   * The sign extension in HighResX sees only the high nibble; the OR then
   * fills the low byte, which the sign extension left zero, so the whole is
   * the 12-bit value `data[3] | (data[4] & 0x0F) << 8` sign-extended.
   */
  lemma HighResXValue(d3: byte, d4: byte)
    ensures HighResX(d3, d4) == Signed12(d3 as int + 0x100 * (d4 as int % 0x10))
  {
    Pow2Values();
    AndLowMask(d4, 4);
    var h := d4 % 0x10;
    var high := Shl(And(d4, 0x0F), 8);
    assert high == 0x100 * h && high < 0x1000;
    SignExtend12Value(high);
    var s := SignExtend12(high);
    DivModUnique(high, 0x1000, 0, high);
    var q := if h < 8 then h else h - 0x10;
    assert s == q * 0x100 by {
      assert s == Signed12(high);
      if h < 8 { assert high < 0x800; } else { assert high >= 0x800; }
    }
    CastInt16OrLowBits(s, q, d3, 8, 0x100_0000);
  }

  /** The high-resolution Y: `sign_extend_12bit(data[5] << 4) | (data[4] >> 4)`. */
  function HighResY(d4: byte, d5: byte): int16 {
    Pow2Values();
    var s := SignExtend12(Shl(d5, 4));
    CastInt16(Or(IntBits(s), Shr(d4, 4)))
  }

  /**
   * HighResY is the 12-bit value with data[5] above the high nibble of
   * data[4], sign-extended.
   */
  lemma HighResYValue(d4: byte, d5: byte)
    ensures HighResY(d4, d5) == Signed12(0x10 * d5 as int + d4 as int / 0x10)
  {
    Pow2Values();
    var high := Shl(d5, 4);
    assert high == 0x10 * d5 && high < 0x1000;
    SignExtend12Value(high);
    var s := SignExtend12(high);
    DivModUnique(high, 0x1000, 0, high);
    var q := if d5 < 0x80 then d5 as int else d5 - 0x100;
    assert s == q * 0x10 by {
      assert s == Signed12(high);
      if d5 < 0x80 { assert high < 0x800; } else { assert high >= 0x800; }
    }
    assert Shr(d4, 4) == d4 / 0x10;
    CastInt16OrLowBits(s, q, Shr(d4, 4), 4, 0x1000_0000);
  }

  /** `(int16_t)((hi << 8) | lo)` */
  function LittleEndian16(lo: byte, hi: byte): int16 {
    CastInt16(Or(Shl(hi, 8), lo))
  }

  /** LittleEndian16 is the two's-complement reading of the little-endian pair. */
  lemma LittleEndian16Value(lo: byte, hi: byte)
    ensures LittleEndian16(lo, hi) == Signed16(lo as int + 0x100 * hi as int)
  {
    Pow2Values();
    OrDisjoint(Shl(hi, 8), lo, 8);
  }

  /**
   * How many bytes of the buffer parse_mouse_event reads for a given
   * `length`. For a length of at most 3, and for 6, this is more than
   * `length`: the boot layout always reads three bytes, the 3-byte case
   * also reads data[4], and the 6-byte case reads the scroll byte data[6].
   */
  function MouseBytesRead(length: int): (n: nat)
    ensures n > length <==> length <= 3 || length == 6
  {
    if length <= 4 then (if length == 3 then 5 else BOOT_MOUSE_REPORT_SIZE)
    else if length == 5 then 5
    else if length < 9 then (if length == 8 then 8 else 7)
    else 9
  }

  /**
   * parse_mouse_event: the layout is chosen by `length` alone.
   *   length <= 4: boot report (buttons, int8 X, int8 Y); a 3-byte report
   *                also takes its scroll from data[4];
   *   length == 5: buttons, X, Y, scroll and tilt, one signed byte each;
   *   6..8:        buttons in data[1], packed 12-bit X and Y in data[3..6],
   *                scroll in data[6], tilt in data[7] when length is 8;
   *   length >= 9: buttons in data[1], little-endian 16-bit X and Y in
   *                data[3..5] and data[5..7], scroll and tilt in data[7], data[8].
   */
  function ParseMouseEvent(data: seq<byte>, length: int): (r: MouseReport)
    requires |data| >= MouseBytesRead(length)
    ensures length <= 4 ==>
      r.buttons == data[0] && r.x == Signed8(data[1]) && r.y == Signed8(data[2]) &&
      r.scroll == (if length == 3 then Signed8(data[4]) else 0) && r.tilt == 0
    ensures length == 5 ==>
      r.buttons == data[0] && r.x == Signed8(data[1]) && r.y == Signed8(data[2]) &&
      r.scroll == Signed8(data[3]) && r.tilt == Signed8(data[4])
    ensures 6 <= length <= 8 ==>
      r.buttons == data[1] &&
      r.x == Signed12(data[3] as int + 0x100 * (data[4] as int % 0x10)) &&
      r.y == Signed12(0x10 * data[5] as int + data[4] / 0x10) &&
      r.scroll == Signed8(data[6]) &&
      r.tilt == (if length == 8 then Signed8(data[7]) else 0)
    ensures 9 <= length ==>
      r.buttons == data[1] &&
      r.x == Signed16(data[3] as int + 0x100 * data[4] as int) && r.y == Signed16(data[5] as int + 0x100 * data[6] as int) &&
      r.scroll == Signed8(data[7]) && r.tilt == Signed8(data[8])
    ensures r.buttons == if length <= 5 then data[0] else data[1]
    ensures r.tilt != 0 ==> length == 5 || length == 8 || length >= 9
  {
    if length <= 4 then
      var boot := BootMouseView(data);
      var scroll := if length == 3 then CastInt8(data[4]) else 0;
      MouseReport(boot.buttons, boot.x, boot.y, scroll, 0)
    else if length == 5 then
      MouseReport(data[0], CastInt8(data[1]), CastInt8(data[2]), CastInt8(data[3]), CastInt8(data[4]))
    else if length < 9 then
      HighResXValue(data[3], data[4]);
      HighResYValue(data[4], data[5]);
      MouseReport(data[1], HighResX(data[3], data[4]), HighResY(data[4], data[5]),
                  CastInt8(data[6]), if length == 8 then CastInt8(data[7]) else 0)
    else
      LittleEndian16Value(data[3], data[4]);
      LittleEndian16Value(data[5], data[6]);
      MouseReport(data[1], LittleEndian16(data[3], data[4]), LittleEndian16(data[5], data[6]),
                  CastInt8(data[7]), CastInt8(data[8]))
  }

  /** The two little-endian bytes of an int16_t. */
  function EncodeLittleEndian16(v: int16): (bytes: seq<byte>)
    ensures |bytes| == 2
  {
    var w := v % 0x1_0000;
    [w % 0x100, w / 0x100]
  }

  /** Encoding an int16_t and decoding it with LittleEndian16 gives it back. */
  lemma LittleEndian16RoundTrip(v: int16)
    ensures var e := EncodeLittleEndian16(v); LittleEndian16(e[0], e[1]) == v
  {
    var w := v % 0x1_0000;
    if v >= 0 {
      DivModUnique(v, 0x1_0000, 0, v);
    } else {
      DivModUnique(v, 0x1_0000, -1, v + 0x1_0000);
    }
    var e := EncodeLittleEndian16(v);
    assert e[0] as int + 0x100 * e[1] as int == w;
    LittleEndian16Value(e[0], e[1]);
  }

  /** ... and every pair of bytes is the encoding of what it decodes to. */
  lemma LittleEndian16Bijective(lo: byte, hi: byte)
    ensures EncodeLittleEndian16(LittleEndian16(lo, hi)) == [lo, hi]
  {
    var u := lo as int + 0x100 * hi as int;
    LittleEndian16Value(lo, hi);
    var v := LittleEndian16(lo, hi);
    if u < 0x8000 {
      DivModUnique(v, 0x1_0000, 0, u);
    } else {
      DivModUnique(v, 0x1_0000, -1, u);
    }
    DivModUnique(u, 0x100, hi, lo);
  }

  /** A long report carrying encoded X and Y in bytes 3..7 decodes to that X and Y. */
  lemma MouseWideLayoutRoundTrip(data: seq<byte>, length: int, x: int16, y: int16)
    requires length >= 9 && |data| >= 9
    requires data[3..5] == EncodeLittleEndian16(x) && data[5..7] == EncodeLittleEndian16(y)
    ensures ParseMouseEvent(data, length).x == x && ParseMouseEvent(data, length).y == y
  {
    LittleEndian16RoundTrip(x);
    LittleEndian16RoundTrip(y);
    assert data[3] == data[3..5][0] && data[4] == data[3..5][1];
    assert data[5] == data[5..7][0] && data[6] == data[5..7][1];
  }

  /**
   * The three bytes data[3..6] of the packed layout for a 12-bit X and Y:
   * the low byte of X, then the high nibble of X under the low nibble of Y,
   * then the high byte of Y.
   */
  function EncodeHighRes(x: int, y: int): (bytes: seq<byte>)
    requires -0x800 <= x < 0x800 && -0x800 <= y < 0x800
    ensures |bytes| == 3
  {
    var ux, uy := x % 0x1000, y % 0x1000;
    [ux % 0x100, ux / 0x100 + 0x10 * (uy % 0x10), uy / 0x10]
  }

  lemma Signed12Wrap(v: int)
    requires -0x800 <= v < 0x800
    ensures Signed12(v % 0x1000) == v
  {
  }

  /** A 6- to 8-byte report carrying a packed X and Y decodes to that X and Y. */
  lemma MouseHighResLayoutRoundTrip(data: seq<byte>, length: int, x: int, y: int)
    requires 6 <= length <= 8 && |data| >= MouseBytesRead(length)
    requires -0x800 <= x < 0x800 && -0x800 <= y < 0x800
    requires data[3..6] == EncodeHighRes(x, y)
    ensures ParseMouseEvent(data, length).x == x && ParseMouseEvent(data, length).y == y
  {
    var ux, uy := x % 0x1000, y % 0x1000;
    var d3, d4, d5 := data[3], data[4], data[5];
    assert d3 == data[3..6][0] && d4 == data[3..6][1] && d5 == data[3..6][2];
    DivModUnique(ux, 0x100, ux / 0x100, ux % 0x100);
    DivModUnique(uy, 0x10, uy / 0x10, uy % 0x10);
    DivModUnique(d4, 0x10, uy % 0x10, ux / 0x100);
    assert d3 as int + 0x100 * (d4 as int % 0x10) == ux;
    assert 0x10 * d5 as int + d4 as int / 0x10 == uy;
    Signed12Wrap(x);
    Signed12Wrap(y);
  }

  /** A 4-byte boot report [0x01, 0x05, 0xFB, 0x00]: button 1, X = 5, Y = -5. */
  lemma BootMouseExample()
    ensures var r := ParseMouseEvent([0x01, 0x05, 0xFB, 0x00], 4);
      r.Button1() && !r.Button2() && !r.Button3() && r.x == 5 && r.y == -5 && r.scroll == 0 && r.tilt == 0
  {
    Pow2Values();
  }

  /** A 7-byte report with data[3] = 0xFF, data[4] = 0x0F: X = -1, scroll = 10. */
  lemma HighResMouseExample()
    ensures var r := ParseMouseEvent([0x00, 0x00, 0x00, 0xFF, 0x0F, 0x00, 0x0A], 7);
      r.x == -1 && r.y == 0 && r.scroll == 10 && r.tilt == 0
  {
    Pow2Values();
  }

  // --------------------------------------------------- parse_gamepad_report

  /** A one-bit field assigned `(b >> k) & 1`. */
  predicate Flag(b: byte, k: nat) {
    And(Shr(b, k), 1) == 1
  }

  /**
   * Reference meaning of the hat switch: the eight values 0..7 are compass
   * points 45 degrees apart, starting at north and turning clockwise;
   * a direction (0 north, 2 east, 4 south, 6 west) is reported when the
   * hat points at it or at one of its two neighbours. Values above 7 point
   * nowhere.
   */
  predicate HatTowards(hat: byte, direction: nat)
    requires direction < 8
  {
    hat < 8 && (hat + 8 - direction + 1) % 8 <= 2
  }

  /**
   * parse_gamepad_report: an all-zero report when `length < 10`; otherwise
   * the report id, the hat switch as four direction flags, fifteen buttons
   * at fixed bits of two bytes, and six analog bytes copied unchanged.
   */
  function ParseGamepadReport(data: seq<byte>, length: int): (r: GamepadReport)
    requires length < 10 || |data| >= 10
    ensures length < 10 ==> r == ZeroGamepadReport
    ensures length >= 10 ==>
      r.reportId == data[0] && r.buttons.reserved == 0 &&
      [r.lx, r.ly, r.rx, r.ry, r.lt, r.rt] == data[4..10]
    ensures length >= 10 ==>
      (r.buttons.up <==> HatTowards(data[1], 0)) && (r.buttons.right <==> HatTowards(data[1], 2)) &&
      (r.buttons.down <==> HatTowards(data[1], 4)) && (r.buttons.left <==> HatTowards(data[1], 6))
    ensures !(r.buttons.up && r.buttons.down) && !(r.buttons.left && r.buttons.right)
    ensures length >= 10 && data[1] > 7 ==>
      !r.buttons.up && !r.buttons.down && !r.buttons.left && !r.buttons.right
  {
    if length < 10 then ZeroGamepadReport
    else
      GamepadReport(data[0], GamepadButtonsOf(data[1], data[2], data[3]),
                    data[4], data[5], data[6], data[7], data[8], data[9])
  }

  /** The button fields parse_gamepad_report fills from the hat byte and the two button bytes. */
  function GamepadButtonsOf(hat: byte, b1: byte, b2: byte): (buttons: GamepadButtons)
    ensures buttons.reserved == 0
  {
    GamepadButtons(
      a := Flag(b2, 6), b := Flag(b2, 5), x := Flag(b2, 4), y := Flag(b2, 3),
      select := Flag(b1, 6), start := Flag(b1, 5),
      l1 := Flag(b2, 0), r1 := Flag(b1, 7),
      l2 := Flag(b2, 2), r2 := Flag(b2, 1),
      l3 := Flag(b1, 2), r3 := Flag(b1, 3),
      home := Flag(b1, 4),
      l4 := Flag(b1, 1), r4 := Flag(b1, 0),
      up := hat == 0x00 || hat == 0x01 || hat == 0x07,
      down := hat == 0x03 || hat == 0x04 || hat == 0x05,
      left := hat == 0x05 || hat == 0x06 || hat == 0x07,
      right := hat == 0x01 || hat == 0x02 || hat == 0x03,
      reserved := 0)
  }

  /**
   * The bit each button is read from: b1 = data[2] holds R4, L4, L3, R3,
   * Home, Start, Select and R1 in bits 0 to 7; b2 = data[3] holds L1, R2,
   * L2, Y, X, B and A in bits 0 to 6.
   */
  lemma GamepadButtonBits(data: seq<byte>, length: int)
    requires length >= 10 && |data| >= 10
    ensures var b, b1, b2 := ParseGamepadReport(data, length).buttons, data[2], data[3];
      (b.r4 <==> BitSet(b1, 0)) && (b.l4 <==> BitSet(b1, 1)) &&
      (b.l3 <==> BitSet(b1, 2)) && (b.r3 <==> BitSet(b1, 3)) &&
      (b.home <==> BitSet(b1, 4)) && (b.start <==> BitSet(b1, 5)) &&
      (b.select <==> BitSet(b1, 6)) && (b.r1 <==> BitSet(b1, 7)) &&
      (b.l1 <==> BitSet(b2, 0)) && (b.r2 <==> BitSet(b2, 1)) &&
      (b.l2 <==> BitSet(b2, 2)) && (b.y <==> BitSet(b2, 3)) &&
      (b.x <==> BitSet(b2, 4)) && (b.b <==> BitSet(b2, 5)) &&
      (b.a <==> BitSet(b2, 6))
  {
  }

  /** A report of length 9 decodes to all zeros whatever its bytes. */
  lemma ShortGamepadExample(data: seq<byte>)
    ensures ParseGamepadReport(data, 9) == ZeroGamepadReport
  {
  }

  // The inverse of the gamepad decoder: the bytes a controller sends for a report.

  /** The hat value for a direction pattern; 8 when no direction is pressed. */
  function HatValue(b: GamepadButtons): (hat: byte)
    requires !(b.up && b.down) && !(b.left && b.right)
  {
    if b.up then (if b.right then 1 else if b.left then 7 else 0)
    else if b.down then (if b.right then 3 else if b.left then 5 else 4)
    else if b.right then 2
    else if b.left then 6
    else 8
  }

  /** The button byte b1, lowest bit first: R4 L4 L3 R3 Home Start Select R1. */
  function ButtonBits1(b: GamepadButtons): (bits: seq<bool>)
    ensures |bits| == 8
  {
    [b.r4, b.l4, b.l3, b.r3, b.home, b.start, b.select, b.r1]
  }

  /** The button byte b2, lowest bit first: L1 R2 L2 Y X B A; bit 7 unused. */
  function ButtonBits2(b: GamepadButtons): (bits: seq<bool>)
    ensures |bits| == 7
  {
    [b.l1, b.r2, b.l2, b.y, b.x, b.b, b.a]
  }

  function PackByte(bits: seq<bool>): byte
    requires |bits| <= 8
  {
    PackBitsBound(bits);
    Pow2Values();
    assert Pow2(|bits|) <= Pow2(8) by {
      if |bits| < 8 { Pow2Monotone(|bits|, 8); }
    }
    PackBits(bits)
  }

  lemma {:induction false} Pow2Monotone(j: nat, k: nat)
    requires j <= k
    ensures Pow2(j) <= Pow2(k)
  {
    if j < k {
      Pow2Monotone(j, k - 1);
    }
  }

  function EncodeGamepadReport(r: GamepadReport): (data: seq<byte>)
    requires !(r.buttons.up && r.buttons.down) && !(r.buttons.left && r.buttons.right)
    ensures |data| == 10
  {
    [r.reportId, HatValue(r.buttons), PackByte(ButtonBits1(r.buttons)), PackByte(ButtonBits2(r.buttons)),
     r.lx, r.ly, r.rx, r.ry, r.lt, r.rt]
  }

  lemma FlagIsBit(b: byte, k: nat)
    ensures Flag(b, k) <==> BitSet(b, k)
  {
  }

  /**
   * Every report whose direction flags a hat switch can produce and whose
   * reserved bits are clear survives encoding and decoding unchanged.
   */
  lemma GamepadRoundTrip(r: GamepadReport)
    requires !(r.buttons.up && r.buttons.down) && !(r.buttons.left && r.buttons.right)
    requires r.buttons.reserved == 0
    ensures ParseGamepadReport(EncodeGamepadReport(r), 10) == r
  {
    var bits1, bits2 := ButtonBits1(r.buttons), ButtonBits2(r.buttons);
    FlagsOfPackByte(bits1);
    FlagsOfPackByte(bits2);
  }

  /** Each bit of a packed byte reads back, through `(b >> k) & 1`, as the flag it came from. */
  lemma FlagsOfPackByte(bits: seq<bool>)
    requires |bits| <= 8
    ensures forall k :: 0 <= k < |bits| ==> (Flag(PackByte(bits), k) <==> bits[k])
  {
    forall k | 0 <= k < |bits|
      ensures Flag(PackByte(bits), k) <==> bits[k]
    {
      FlagIsBit(PackByte(bits), k);
      PackBitsBit(bits, k);
    }
  }

  /**
   * Decoding and re-encoding the button bytes gives them back, except bit 7
   * of b2, which no button reads.
   */
  lemma ButtonBytesRecovered(data: seq<byte>, length: int)
    requires length >= 10 && |data| >= 10
    ensures PackByte(ButtonBits1(ParseGamepadReport(data, length).buttons)) == data[2]
    ensures PackByte(ButtonBits2(ParseGamepadReport(data, length).buttons)) == data[3] % 0x80
  {
    var buttons := GamepadButtonsOf(data[1], data[2], data[3]);
    assert ParseGamepadReport(data, length).buttons == buttons;
    ButtonBits1AreFlags(data[1], data[2], data[3]);
    ButtonBits2AreFlags(data[1], data[2], data[3]);
    FlagsPackToLowBits(ButtonBits1(buttons), data[2]);
    FlagsPackToLowBits(ButtonBits2(buttons), data[3]);
    LowBitsOfByte(data[2], 8);
    LowBitsOfByte(data[3], 7);
  }

  /** Button byte b1 is unpacked bit by bit, lowest bit first, in the order of ButtonBits1. */
  lemma ButtonBits1AreFlags(hat: byte, b1: byte, b2: byte)
    ensures forall k :: 0 <= k < 8 ==> ButtonBits1(GamepadButtonsOf(hat, b1, b2))[k] == Flag(b1, k)
  {
  }

  /** Button byte b2 is unpacked bit by bit, lowest bit first, in the order of ButtonBits2. */
  lemma ButtonBits2AreFlags(hat: byte, b1: byte, b2: byte)
    ensures forall k :: 0 <= k < 7 ==> ButtonBits2(GamepadButtonsOf(hat, b1, b2))[k] == Flag(b2, k)
  {
  }

  lemma LowBitsOfByte(b: byte, n: nat)
    requires n == 7 || n == 8
    ensures LowBits(b, n) == if n == 8 then b as int else b % 0x80
  {
    Pow2Values();
    DivModPow2(b, n);
  }

  /** Flags read from bits 0, 1, ... of a byte pack back into its low bits. */
  lemma FlagsPackToLowBits(bits: seq<bool>, b: byte)
    requires forall k :: 0 <= k < |bits| ==> bits[k] == Flag(b, k)
    ensures PackBits(bits) == LowBits(b, |bits|)
  {
    forall k | 0 <= k < |bits|
      ensures bits[k] == BitsOf(b, |bits|)[k]
    {
      FlagIsBit(b, k);
      BitsOfBit(b, |bits|, k);
    }
    assert bits == BitsOf(b, |bits|);
    PackBitsOf(b, |bits|);
  }
}
