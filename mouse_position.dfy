/**
 * The cursor position kept by hid_host_mouse_report_callback in
 * main/main.c: two function-static counters to which every boot mouse
 * report adds its signed X and Y displacement.
 */
module MousePosition {
  import opened Bits
  import opened HidTypes
  import BadgeHidHost

  /**
   * `length < sizeof(hid_mouse_input_report_boot_t)` compares an `int` with
   * a `size_t`: a negative length is not short.
   */
  predicate IsShortMouseReport(length: int) {
    0 <= length < BOOT_MOUSE_REPORT_SIZE
  }

  /** The sum of the X and Y displacements of a sequence of boot reports. */
  function TotalDisplacement(reports: seq<seq<byte>>): (total: (int, int))
    requires AllFull(reports)
    ensures -0x80 * |reports| <= total.0 <= 0x7F * |reports|
    ensures -0x80 * |reports| <= total.1 <= 0x7F * |reports|
  {
    if reports == [] then (0, 0)
    else
      var last := BootMouseView(reports[|reports| - 1]);
      var before := TotalDisplacement(reports[..|reports| - 1]);
      (before.0 + last.x, before.1 + last.y)
  }

  predicate AllFull(reports: seq<seq<byte>>) {
    forall i :: 0 <= i < |reports| ==> |reports[i]| >= BOOT_MOUSE_REPORT_SIZE
  }

  /**
   * `static int x_pos = 0; static int y_pos = 0;`, with the full reports
   * received so far kept as ghost history.
   */
  class CursorPosition {
    var xPos: int
    var yPos: int
    ghost var history: seq<seq<byte>>

    /** The position is the sum of the displacements of every full report seen. */
    ghost predicate Valid()
      reads this
    {
      AllFull(history) && (xPos, yPos) == TotalDisplacement(history)
    }

    constructor ()
      ensures Valid() && history == []
      ensures xPos == 0 && yPos == 0
    {
      xPos, yPos := 0, 0;
      history := [];
    }

    /**
     * One report: a short report changes nothing; a full one moves the
     * cursor by its signed 8-bit displacements.
     */
    method Update(data: seq<byte>, length: int)
      requires Valid()
      requires IsShortMouseReport(length) || |data| >= BOOT_MOUSE_REPORT_SIZE
      modifies this
      ensures Valid()
      ensures IsShortMouseReport(length) ==>
        xPos == old(xPos) && yPos == old(yPos) && history == old(history)
      ensures !IsShortMouseReport(length) ==>
        xPos == old(xPos) + Signed8(data[1]) && yPos == old(yPos) + Signed8(data[2]) &&
        history == old(history) + [data]
    {
      if IsShortMouseReport(length) {
        return;
      }
      var report := BootMouseView(data);
      xPos := xPos + report.x;
      yPos := yPos + report.y;
      history := history + [data];
      assert history[..|history| - 1] == old(history);
    }
  }

  /**
   * The position after a run of full reports from the origin stays within
   * 128 steps per report to the left or up and 127 to the right or down.
   */
  lemma PositionBounds(p: CursorPosition)
    requires p.Valid()
    ensures -0x80 * |p.history| <= p.xPos <= 0x7F * |p.history|
    ensures -0x80 * |p.history| <= p.yPos <= 0x7F * |p.history|
  {
  }

  /**
   * The boot displacement the callback adds is the X and Y that
   * parse_mouse_event reports for a 4-byte boot report.
   */
  lemma BootViewMatchesParser(data: seq<byte>)
    requires |data| >= BOOT_MOUSE_REPORT_SIZE
    ensures BadgeHidHost.ParseMouseEvent(data, 4).x == BootMouseView(data).x
    ensures BadgeHidHost.ParseMouseEvent(data, 4).y == BootMouseView(data).y
    ensures BadgeHidHost.ParseMouseEvent(data, 4).buttons == BootMouseView(data).buttons
  {
  }
}
