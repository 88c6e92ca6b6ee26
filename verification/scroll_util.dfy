/**
 * `horizontalDelta` and `verticalDelta` (src/scroll/util.ts): how far the
 * page has to move along one axis to bring a rect into the window. Both
 * are measured against the window (`innerWidth`, `innerHeight`), never
 * against a container.
 */
module ScrollUtil {
  import opened Dom

  /**
   * The delta along one axis for a rect spanning [lo, hi] in a window of
   * the given extent: negative exactly when the rect starts before the
   * window (that overflow takes priority), positive exactly when it starts
   * inside but ends past the window, and zero exactly when it lies within
   * the window. Shifting the rect by the delta puts its start at 0 or its
   * end at the window's extent.
   */
  function AxisDelta(lo: real, hi: real, extent: real): (d: real)
    ensures d < 0.0 <==> lo < 0.0
    ensures d > 0.0 <==> lo >= 0.0 && hi > extent
    ensures d == 0.0 <==> lo >= 0.0 && hi <= extent
    ensures d < 0.0 ==> lo - d == 0.0
    ensures d > 0.0 ==> hi - d == extent
  {
    if lo < 0.0 then lo
    else if hi > extent then hi - extent
    else 0.0
  }

  /** `horizontalDelta(rect)`. */
  function HorizontalDelta(rect: Rect, innerWidth: real): real
  {
    AxisDelta(rect.left, rect.right, innerWidth)
  }

  /** `verticalDelta(rect)`. */
  function VerticalDelta(rect: Rect, innerHeight: real): real
  {
    AxisDelta(rect.top, rect.bottom, innerHeight)
  }
}
