/** The click-to-percentage formula of `handleImageClick`, in exact arithmetic,
    and its inverse, the `left: x%` / `top: y%` placement of a marker. */
module Coordinates {
  import opened Types

  /** `getBoundingClientRect()` of the image. */
  datatype Rect = Rect(left: real, top: real, width: real, height: real)

  /** A rendered image that can receive a click has a positive size. */
  predicate HasArea(r: Rect) {
    r.width > 0.0 && r.height > 0.0
  }

  /** `((pos - start) / extent) * 100`, for one axis. */
  function ToPercent(pos: real, start: real, extent: real): (pct: real)
    requires extent > 0.0
    ensures FromPercent(pct, start, extent) == pos
  {
    var q := (pos - start) / extent;
    assert q * extent == pos - start;
    q * 100.0
  }

  /** Where a marker at `pct` percent is drawn, for one axis; on an image of
      positive size it lies within the image exactly when `pct` is in [0, 100]. */
  function FromPercent(pct: real, start: real, extent: real): (pos: real)
    ensures extent > 0.0 ==> (start <= pos <= start + extent <==> 0.0 <= pct <= 100.0)
  {
    var f := pct / 100.0;
    assert extent > 0.0 ==> (f * extent >= 0.0 <==> f >= 0.0);
    assert extent > 0.0 ==> (f * extent <= extent <==> f <= 1.0) by {
      if extent > 0.0 {
        assert extent - f * extent == (1.0 - f) * extent;
      }
    }
    start + f * extent
  }

  /** The point a click at (`clientX`, `clientY`) yields; nothing is clamped, and
      a marker drawn at that point sits under the click. */
  function ToRelative(clientX: real, clientY: real, r: Rect): (p: Point)
    requires HasArea(r)
    ensures FromPercent(p.x, r.left, r.width) == clientX
    ensures FromPercent(p.y, r.top, r.height) == clientY
  {
    Point(ToPercent(clientX, r.left, r.width), ToPercent(clientY, r.top, r.height))
  }

  predicate InRect(clientX: real, clientY: real, r: Rect) {
    r.left <= clientX <= r.left + r.width && r.top <= clientY <= r.top + r.height
  }

  predicate InPercentRange(p: Point) {
    0.0 <= p.x <= 100.0 && 0.0 <= p.y <= 100.0
  }

  /** The left/top edge maps to 0 and the right/bottom edge to 100. */
  lemma EdgesMapToBounds(start: real, extent: real)
    requires extent > 0.0
    ensures ToPercent(start, start, extent) == 0.0
    ensures ToPercent(start + extent, start, extent) == 100.0
  {
  }

  /** One axis lands in [0, 100] exactly when the pos is within the extent;
      a pos outside gives a value outside, since nothing is clamped. */
  lemma InRangeIffInside(pos: real, start: real, extent: real)
    requires extent > 0.0
    ensures 0.0 <= ToPercent(pos, start, extent) <= 100.0 <==> start <= pos <= start + extent
    ensures pos < start ==> ToPercent(pos, start, extent) < 0.0
    ensures pos > start + extent ==> ToPercent(pos, start, extent) > 100.0
  {
    var q := (pos - start) / extent;
    assert q * extent == pos - start;
    assert ToPercent(pos, start, extent) == q * 100.0;
  }

  /** A click inside the image gives a point in [0, 100] x [0, 100], and only such a click does. */
  lemma ClickInRange(clientX: real, clientY: real, r: Rect)
    requires HasArea(r)
    ensures InPercentRange(ToRelative(clientX, clientY, r)) <==> InRect(clientX, clientY, r)
  {
    InRangeIffInside(clientX, r.left, r.width);
    InRangeIffInside(clientY, r.top, r.height);
  }

  /** Clicking where a marker at `pct` is drawn recovers `pct`. */
  lemma PercentRoundTrip(pct: real, start: real, extent: real)
    requires extent > 0.0
    ensures ToPercent(FromPercent(pct, start, extent), start, extent) == pct
  {
    assert FromPercent(pct, start, extent) - start == pct / 100.0 * extent;
  }

  /** The percentage does not depend on the display size: scaling the image and
      the click position by the same factor gives the same value. */
  lemma ScaleInvariant(pos: real, start: real, extent: real, k: real)
    requires extent > 0.0 && k > 0.0
    ensures ToPercent(k * pos, k * start, k * extent) == ToPercent(pos, start, extent)
  {
    assert k * pos - k * start == k * (pos - start);
    assert k * (pos - start) / (k * extent) == (pos - start) / extent;
  }

  /** A click at (50, 25) on a 200 x 100 image gives the point (25, 25). */
  lemma ExampleClick()
    ensures ToRelative(50.0, 25.0, Rect(0.0, 0.0, 200.0, 100.0)) == Point(25.0, 25.0)
  {
  }
}
