/**
 * Rectangle arithmetic of the restore step: a window's visible frame is pulled
 * into a monitor work area, and the offset between its nominal frame (the one
 * the window manager moves) and its visible frame is carried over.
 */
module Geometry {

  function Min(a: int, b: int): int { if a < b then a else b }

  function Max(a: int, b: int): int { if a < b then b else a }

  /** System.Drawing.Rectangle: an origin and an extent; Right and Bottom are derived. */
  datatype Rect = Rect(left: int, top: int, width: int, height: int)
  {
    function Right(): int { left + width }
    function Bottom(): int { top + height }
  }

  /** The Win32 RECT structure: four edges. */
  datatype WinRect = WinRect(left: int, top: int, right: int, bottom: int)

  /** RECT.ToRectangle, i.e. Rectangle.FromLTRB: the same four edges as origin and extent. */
  function ToRectangle(w: WinRect): (r: Rect)
    ensures r.left == w.left && r.top == w.top
    ensures r.Right() == w.right && r.Bottom() == w.bottom
  {
    Rect(w.left, w.top, w.right - w.left, w.bottom - w.top)
  }

  /** `rect` lies within `area` (all four edges). */
  predicate Inside(rect: Rect, area: Rect)
  {
    area.left <= rect.left && rect.Right() <= area.Right() &&
    area.top <= rect.top && rect.Bottom() <= area.Bottom()
  }

  /** What a snapshot records per window. */
  datatype WinInfo = WinInfo(position: Rect, visible: Rect)

  /**
   * The first rectangle built in GetRectInsideNearestMonitor: `rect` shrunk to
   * at most the size of `area` and moved so that it starts inside `area`
   * and, when it fits, ends inside it too.
   */
  function ClampIntoWorkArea(area: Rect, rect: Rect): (r: Rect)
    // the size is the smaller of the two sizes
    ensures r.width <= area.width && r.width <= rect.width
    ensures r.width == area.width || r.width == rect.width
    ensures r.height <= area.height && r.height <= rect.height
    ensures r.height == area.height || r.height == rect.height
    // the origin never lies left of or above the work area
    ensures r.left >= area.left && r.top >= area.top
    // a rectangle that fits ends inside the work area
    ensures rect.width <= area.width ==> r.Right() <= area.Right()
    ensures rect.height <= area.height ==> r.Bottom() <= area.Bottom()
    // an oversize rectangle is pinned to the work area's left or top edge
    ensures rect.width > area.width ==> r.left == area.left
    ensures rect.height > area.height ==> r.top == area.top
    // a rectangle is moved only as far as needed
    ensures r.left == rect.left || r.left == area.left || r.Right() == area.Right()
    ensures r.top == rect.top || r.top == area.top || r.Bottom() == area.Bottom()
    // a rectangle already inside is left alone
    ensures Inside(rect, area) ==> r == rect
  {
    Rect(Max(area.left, Min(area.Right() - rect.width, rect.left)),
         Max(area.top, Min(area.Bottom() - rect.height, rect.top)),
         Min(area.width, rect.width),
         Min(area.height, rect.height))
  }

  /**
   * The nominal rectangle a restore moves a window to, given the work area of
   * the monitor nearest to its visible frame: the clamped visible frame,
   * shifted and resized by the difference between the recorded nominal and
   * visible frames.
   */
  function GetRectInsideNearestMonitor(workArea: Rect, win: WinInfo): (r: Rect)
    ensures var c := ClampIntoWorkArea(workArea, win.visible);
      && r.left - c.left == win.position.left - win.visible.left
      && r.top - c.top == win.position.top - win.visible.top
      && r.width - c.width == win.position.width - win.visible.width
      && r.height - c.height == win.position.height - win.visible.height
    ensures win.position == win.visible ==> r == ClampIntoWorkArea(workArea, win.visible)
  {
    var nominal := win.position;
    var rect := win.visible;
    var y := ClampIntoWorkArea(workArea, rect);
    if rect != nominal then
      Rect(y.left - rect.left + nominal.left,
           y.top - rect.top + nominal.top,
           y.width - rect.width + nominal.width,
           y.height - rect.height + nominal.height)
    else
      y
  }

  /** Clamping twice is clamping once. */
  lemma ClampIdempotent(area: Rect, rect: Rect)
    ensures ClampIntoWorkArea(area, ClampIntoWorkArea(area, rect)) == ClampIntoWorkArea(area, rect)
  {
    var c := ClampIntoWorkArea(area, rect);
    assert c.width <= area.width && c.height <= area.height;
    assert Inside(c, area);
  }

  /** A clamped rectangle that fits the work area lies inside it. */
  lemma ClampFitsInside(area: Rect, rect: Rect)
    requires rect.width <= area.width && rect.height <= area.height
    ensures Inside(ClampIntoWorkArea(area, rect), area)
  {
  }

  /**
   * After the move, the window's visible frame (the target shifted back by the
   * recorded chrome offset) is the clamped visible frame: it lies on the
   * monitor whenever it fits there.
   */
  lemma VisibleFrameLandsOnMonitor(workArea: Rect, win: WinInfo)
    requires win.visible.width <= workArea.width && win.visible.height <= workArea.height
    ensures var r := GetRectInsideNearestMonitor(workArea, win);
      Inside(Rect(r.left - win.position.left + win.visible.left,
                  r.top - win.position.top + win.visible.top,
                  r.width - win.position.width + win.visible.width,
                  r.height - win.position.height + win.visible.height), workArea)
  {
  }

  /** A window whose frames agree and that is already on its monitor is not moved. */
  lemma OnScreenWindowStays(workArea: Rect, win: WinInfo)
    requires win.position == win.visible && Inside(win.visible, workArea)
    ensures GetRectInsideNearestMonitor(workArea, win) == win.position
  {
  }

  /** A 300x200 window hanging off the bottom-right of a 1920x1080 work area. */
  lemma PartlyOffScreenExample()
    ensures GetRectInsideNearestMonitor(Rect(0, 0, 1920, 1080),
                                        WinInfo(Rect(1800, 1000, 300, 200), Rect(1800, 1000, 300, 200)))
            == Rect(1620, 880, 300, 200)
  {
  }
}
