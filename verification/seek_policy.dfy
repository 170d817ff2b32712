/** Whether the configured drag mode lets the player seek to a given time. */
module SeekPolicy {
  import opened Utils

  /** The `allowDrag` option; `Other` is any value that is none of the named strings. */
  datatype AllowDrag = Unset | All | Forward | Back | NoDrag | Other

  /** The `progress` option object: its drag mode and whether `onDragRefuse` is set. */
  datatype ProgressOption = ProgressOption(allowDrag: AllowDrag, onDragRefuse: bool)

  /**
   * The permission table: no option, no mode or `all` allow every target;
   * `forward` allows targets not before the current time, `back` targets not
   * after it; `none` and unknown modes allow nothing.
   */
  predicate Permitted(progress: Option<ProgressOption>, currentTime: real, seekTime: real) {
    match progress
    case None => true
    case Some(o) =>
      match o.allowDrag
      case Unset => true
      case All => true
      case Forward => currentTime <= seekTime
      case Back => seekTime <= currentTime
      case NoDrag => false
      case Other => false
  }

  /** A JavaScript return value read as a condition: only `true` passes. */
  predicate Truthy(r: Option<bool>) { r == Some(true) }

  /**
   * `isAllowChangeCurrentTime`. The answer is `Some(b)` for a returned boolean and
   * `None` when control falls off the end of the function (an unknown mode).
   */
  function IsAllowChangeCurrentTime(progress: Option<ProgressOption>, currentTime: real, seekTime: real): (r: Option<bool>)
    ensures Truthy(r) <==> Permitted(progress, currentTime, seekTime)
    ensures r.None? <==> progress.Some? && progress.value.allowDrag == Other
  {
    if progress.Some? then
      var allowDrag := progress.value.allowDrag;
      if allowDrag == Unset then Some(true)
      else if allowDrag == All then Some(true)
      else if allowDrag == Forward then
        (if seekTime - currentTime < 0.0 then Some(false) else Some(true))
      else if allowDrag == Back then
        (if seekTime - currentTime > 0.0 then Some(false) else Some(true))
      else if allowDrag == NoDrag then Some(false)
      else None
    else
      Some(true)
  }

  /** Whether a refusal reaches a user callback: only when the option and the callback both exist. */
  predicate RefuseCallback(progress: Option<ProgressOption>) {
    progress.Some? && progress.value.onDragRefuse
  }
}
