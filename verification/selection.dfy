/** The region-selection overlay of `ScreenCapture` (presuffix.py:20-31,
    59-146): the pointer press and release recorded in `start_x`,
    `start_y`, `end_x`, `end_y`, the crop box made from them, and the
    overlay being shown and closed. Pixels, the canvas and the drawn
    rectangle are not modelled. */
module Selection {
  import opened Common
  import opened MonitorLocator

  /** The crop box spanned by a press at (sx, sy) and a release at
      (ex, ey): `(min(sx, ex), min(sy, ey), max(sx, ex), max(sy, ey))`. */
  function SelectionBox(sx: int, sy: int, ex: int, ey: int): (b: Box)
    ensures b.x1 <= b.x2 && b.y1 <= b.y2
    ensures (b.x1 == sx && b.x2 == ex) || (b.x1 == ex && b.x2 == sx)
    ensures (b.y1 == sy && b.y2 == ey) || (b.y1 == ey && b.y2 == sy)
  {
    Box(Min(sx, ex), Min(sy, ey), Max(sx, ex), Max(sy, ey))
  }

  /** The threshold test `abs(x2 - x1) > 10 and abs(y2 - y1) > 10`: on a
      normalised box, both sides longer than 10. */
  function LargeEnough(b: Box): (r: bool)
    ensures b.x1 <= b.x2 && b.y1 <= b.y2 ==> (r <==> b.x2 - b.x1 > 10 && b.y2 - b.y1 > 10)
  {
    Abs(b.x2 - b.x1) > 10 && Abs(b.y2 - b.y1) > 10
  }

  /** What a release leads to: a crop handed to recognition, the overlay
      closed with nothing done, or the `TypeError` that `min(None, ...)`
      raises when no press was recorded. */
  datatype ReleaseOutcome = Crop(box: Box) | Closed | NoPress

  /** The decision `on_release` takes, given the recorded press. */
  function ReleaseDecision(startX: Option<int>, startY: Option<int>, ex: int, ey: int): (o: ReleaseOutcome)
    ensures o == NoPress <==> startX.None? || startY.None?
    ensures o.Crop? <==> startX.Some? && startY.Some? &&
                         Abs(ex - startX.value) > 10 && Abs(ey - startY.value) > 10
    ensures o.Crop? ==> o.box.x1 <= o.box.x2 && o.box.y1 <= o.box.y2 &&
                        o.box.x2 - o.box.x1 > 10 && o.box.y2 - o.box.y1 > 10
    ensures o.Crop? ==> o.box == SelectionBox(startX.value, startY.value, ex, ey)
  {
    if startX.None? || startY.None? then NoPress
    else
      var b := SelectionBox(startX.value, startY.value, ex, ey);
      if LargeEnough(b) then Crop(b) else Closed
  }

  /** Dragging from either corner to the other selects the same box. */
  lemma SelectionSymmetric(sx: int, sy: int, ex: int, ey: int)
    ensures SelectionBox(sx, sy, ex, ey) == SelectionBox(ex, ey, sx, sy)
    ensures SelectionBox(sx, sy, ex, ey) == SelectionBox(sx, ey, ex, sy)
  {
  }

  /** The selected box holds both the press and the release points. */
  lemma SelectionSpans(sx: int, sy: int, ex: int, ey: int)
    ensures var b := SelectionBox(sx, sy, ex, ey);
      b.x1 <= sx <= b.x2 && b.x1 <= ex <= b.x2 && b.y1 <= sy <= b.y2 && b.y1 <= ey <= b.y2
  {
  }

  class ScreenCapture {
    var startX: Option<int>
    var startY: Option<int>
    var endX: Option<int>
    var endY: Option<int>
    /** `monitor_bbox`: the monitor the overlay covers. */
    var monitorBbox: Option<Box>
    /** Whether the overlay window is shown (`deiconify`) or withdrawn. */
    var overlayShown: bool

    /** `__init__`: nothing recorded, the root window withdrawn. */
    constructor ()
      ensures startX.None? && startY.None? && endX.None? && endY.None?
      ensures monitorBbox.None? && !overlayShown
    {
      startX, startY, endX, endY := None, None, None, None;
      monitorBbox := None;
      overlayShown := false;
    }

    /** `capture_region`: locate the monitor under the pointer and show
      the overlay over it. */
    method CaptureRegion(mouseX: int, mouseY: int, monitors: seq<Box>, vw: int, vh: int)
      modifies this
      ensures monitorBbox == Some(Locate(mouseX, mouseY, monitors, vw, vh)) && overlayShown
      ensures startX == old(startX) && startY == old(startY) && endX == old(endX) && endY == old(endY)
    {
      monitorBbox := Some(Locate(mouseX, mouseY, monitors, vw, vh));
      overlayShown := true;
    }

    /** `on_click`: record the press. */
    method OnClick(x: int, y: int)
      modifies this
      ensures startX == Some(x) && startY == Some(y)
      ensures endX == old(endX) && endY == old(endY)
      ensures monitorBbox == old(monitorBbox) && overlayShown == old(overlayShown)
    {
      startX := Some(x);
      startY := Some(y);
    }

    /** `close_capture`: withdraw the overlay. */
    method CloseCapture()
      modifies this
      ensures !overlayShown
      ensures startX == old(startX) && startY == old(startY) && endX == old(endX) && endY == old(endY)
      ensures monitorBbox == old(monitorBbox)
    {
      overlayShown := false;
    }

    /** `on_release`: record the release, normalise the corners, and crop
      when both sides exceed 10; the overlay is closed either way. With
      no press recorded the `min` raises before anything is closed. */
    method OnRelease(x: int, y: int) returns (outcome: ReleaseOutcome)
      modifies this
      ensures outcome == ReleaseDecision(old(startX), old(startY), x, y)
      ensures endX == Some(x) && endY == Some(y)
      ensures startX == old(startX) && startY == old(startY) && monitorBbox == old(monitorBbox)
      ensures overlayShown == (old(overlayShown) && outcome == NoPress)
    {
      endX := Some(x);
      endY := Some(y);
      if startX.None? || startY.None? {
        return NoPress;
      }
      var x1 := Min(startX.value, x);
      var y1 := Min(startY.value, y);
      var x2 := Max(startX.value, x);
      var y2 := Max(startY.value, y);
      if Abs(x2 - x1) > 10 && Abs(y2 - y1) > 10 {
        CloseCapture();
        outcome := Crop(Box(x1, y1, x2, y2));
      } else {
        CloseCapture();
        outcome := Closed;
      }
    }

    /** `cancel_capture` (Escape): close the overlay, record nothing. */
    method CancelCapture()
      modifies this
      ensures !overlayShown
      ensures startX == old(startX) && startY == old(startY) && endX == old(endX) && endY == old(endY)
      ensures monitorBbox == old(monitorBbox)
    {
      CloseCapture();
    }
  }

  /** A press and a release in one place never crop. */
  lemma ClickWithoutDragCloses(sx: int, sy: int)
    ensures ReleaseDecision(Some(sx), Some(sy), sx, sy) == Closed
  {
  }
}
