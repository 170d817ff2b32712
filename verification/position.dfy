/** Mapping a pointer position over the progress track to a playback position. */
module Position {
  import opened Utils

  /** The track element's left edge and width, read afresh at every event. */
  datatype Track = Track(left: real, width: real)

  /**
   * What `getPosFromEvent` yields: the pixel offset into the track, the fraction
   * of the track it covers, and the playback second it stands for. The formatted
   * `time` string is left to the caller, which owns the formatting function.
   */
  datatype Pos = Pos(second: real, width: real, percentage: real)

  /** `getPosFromEvent` for a pointer at page x-coordinate `x`. */
  function PosFromEvent(track: Track, x: real, duration: real): (p: Pos)
    requires track.width > 0.0
    ensures 0.0 <= p.width <= track.width
    ensures 0.0 <= x - track.left <= track.width ==> p.width == x - track.left
    ensures x - track.left < 0.0 ==> p.width == 0.0
    ensures track.width < x - track.left ==> p.width == track.width
    ensures 0.0 <= p.percentage <= 1.0
    ensures p.percentage == p.width / track.width
    ensures p.second == p.percentage * duration
    ensures 0.0 <= duration ==> 0.0 <= p.second <= duration
  {
    var width := Clamp(x - track.left, 0.0, track.width);
    FractionBounds(width, track.width);
    var second := (width / track.width) * duration;
    var percentage := Clamp(width / track.width, 0.0, 1.0);
    ScaleBounds(width / track.width, duration);
    Pos(second, width, percentage)
  }

  lemma ScaleBounds(f: real, d: real)
    requires 0.0 <= f <= 1.0
    ensures 0.0 <= d ==> 0.0 <= f * d <= d
  {
  }

  /** Moving the pointer to the right never maps to an earlier second. */
  lemma PosFromEventMonotone(track: Track, x1: real, x2: real, duration: real)
    requires track.width > 0.0 && 0.0 <= duration && x1 <= x2
    ensures PosFromEvent(track, x1, duration).width <= PosFromEvent(track, x2, duration).width
    ensures PosFromEvent(track, x1, duration).percentage <= PosFromEvent(track, x2, duration).percentage
    ensures PosFromEvent(track, x1, duration).second <= PosFromEvent(track, x2, duration).second
  {
    var p1, p2 := PosFromEvent(track, x1, duration), PosFromEvent(track, x2, duration);
    assert p1.width <= p2.width;
    DivMonotone(p1.width, p2.width, track.width);
    assert p1.percentage * duration <= p2.percentage * duration;
  }

  lemma DivMonotone(a: real, b: real, c: real)
    requires c > 0.0 && a <= b
    ensures a / c <= b / c
  {
  }
}
