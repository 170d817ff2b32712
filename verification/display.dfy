/** Placement arithmetic for the hover tooltip and for the highlight marks. */
module Display {
  import opened Utils

  /**
   * Left edge of the tooltip for a pointer `width` pixels into the track: pinned
   * to the left edge, pinned to the right edge, or centred on the pointer.
   */
  function TipLeft(width: real, tipWidth: real, controlWidth: real): (left: real)
    // the tooltip never overflows the control ...
    ensures 0.0 <= width <= controlWidth && 0.0 <= tipWidth <= controlWidth ==>
              0.0 <= left && left + tipWidth <= controlWidth
    // ... and always lies over the pointer
    ensures 0.0 <= width <= controlWidth && 0.0 <= tipWidth <= controlWidth ==>
              left <= width <= left + tipWidth
    // where there is room on both sides it is centred on the pointer
    ensures tipWidth / 2.0 < width <= controlWidth - tipWidth / 2.0 ==> left + tipWidth / 2.0 == width
  {
    if width <= tipWidth / 2.0 then 0.0
    else if width > controlWidth - tipWidth / 2.0 then controlWidth - tipWidth
    else width - tipWidth / 2.0
  }

  /** CSS `left` percentage of a highlight mark at `time`. */
  function HighlightLeft(time: real, duration: real): (left: real)
    requires duration > 0.0
    ensures 0.0 <= left <= 100.0
    ensures time <= 0.0 ==> left == 0.0
    ensures duration <= time ==> left == 100.0
    ensures 0.0 <= time <= duration ==> left * duration == time * 100.0
  {
    var t := Clamp(time, 0.0, duration);
    assert t / duration * duration == t;
    FractionBounds(t, duration);
    t / duration * 100.0
  }

  /** Marks keep the order of their times along the track. */
  lemma HighlightLeftMonotone(t1: real, t2: real, duration: real)
    requires duration > 0.0 && t1 <= t2
    ensures HighlightLeft(t1, duration) <= HighlightLeft(t2, duration)
  {
    var c1, c2 := Clamp(t1, 0.0, duration), Clamp(t2, 0.0, duration);
    assert c1 <= c2;
    assert c2 / duration - c1 / duration == (c2 - c1) / duration;
  }
}
