/**
 * The progress control as a state machine over values: what every handler of the
 * mounted control does to the drag flag, the bars, the tooltip, the highlight
 * marks, and to what the control writes to the player (seeks, emitted bar
 * updates, refusal callbacks).
 */
module ProgressModel {
  import opened Utils
  import opened Position
  import opened Display
  import opened SeekPolicy

  /** What the control reads from the player at commit time. */
  datatype Media = Media(currentTime: real, duration: real, isRotate: bool, height: real)

  /** The player and the track as they stand when a commit happens. */
  datatype Env = Env(media: Media, track: Track) {
    /** The track has a width to divide by, and so has the player when it is rotated. */
    predicate WellFormed() {
      track.width > 0.0 && (media.isRotate ==> media.height > 0.0)
    }
  }

  /** Pointer coordinates: page x, and the y of the first touch (read only when rotated). */
  datatype Pointer = Pointer(x: real, y: real)

  /** The `type` argument of `setBar`. */
  datatype BarName = Loaded | Played | Unknown

  /** CSS percentages of the loaded bar, the played bar and the indicator. */
  datatype Bars = Bars(loaded: real, played: real, indicator: real)

  /** The tooltip's content, CSS left (pixels) and visibility. */
  datatype Tip = Tip(text: string, left: real, visible: bool)

  /** One configured highlight, and the mark rendered for it. */
  datatype HighlightItem = HighlightItem(time: real, text: string)
  datatype Span = Span(text: string, time: real, left: real)

  /** A `setBar` event the control emits on the player's bus. */
  datatype Emitted = SetBarEmitted(name: BarName, percentage: real)

  /** The player options the control reads. */
  datatype Config = Config(progress: Option<ProgressOption>, highlight: seq<HighlightItem>)

  /**
   * Everything a handler can change: the drag flag, the DOM the control owns, and
   * logs of the values written to `art.seek`, of emitted events and of calls to
   * `onDragRefuse`.
   */
  datatype State = State(
    dragging: bool,
    bars: Bars,
    tip: Tip,
    spans: seq<Span>,
    seeks: seq<real>,
    emitted: seq<Emitted>,
    refusals: nat)

  /** `setBar(type, percentage)`. */
  function WithBar(b: Bars, name: BarName, percentage: real): (r: Bars)
    ensures name == Loaded ==>
      r.loaded == percentage * 100.0 && r.played == b.played && r.indicator == b.indicator
    ensures name == Played ==>
      r.loaded == b.loaded && r.played == percentage * 100.0 && r.indicator == percentage * 100.0
    ensures name == Unknown ==> r == b
  {
    match name
    case Loaded => b.(loaded := percentage * 100.0)
    case Played => b.(played := percentage * 100.0, indicator := percentage * 100.0)
    case Unknown => b
  }

  /** Setting a bar twice to the same percentage is setting it once. */
  lemma WithBarIdempotent(b: Bars, name: BarName, percentage: real)
    ensures WithBar(WithBar(b, name, percentage), name, percentage) == WithBar(b, name, percentage)
  {
  }

  /**
   * The state right after mounting: not dragging, the indicator placed at 0% (its
   * `left` is minus half its size), and the loaded bar set from the player.
   */
  function Mounted(rendered: Bars, tip: Tip, loaded: real): (s: State)
    ensures !s.dragging && s.seeks == [] && s.emitted == [] && s.refusals == 0 && s.spans == []
    ensures s.bars.loaded == loaded * 100.0 && s.bars.played == rendered.played && s.bars.indicator == 0.0
  {
    State(false, WithBar(rendered.(indicator := 0.0), Loaded, loaded), tip, [], [], [], 0)
  }

  /** The seek target of `setCurrentTime`: the pointer mapping, or the rotated formula. */
  datatype Target = Target(second: real, percentage: real)

  function SeekTarget(env: Env, p: Pointer): (t: Target)
    requires env.WellFormed()
    ensures t.second == t.percentage * env.media.duration
    ensures !env.media.isRotate ==>
      0.0 <= t.percentage <= 1.0 &&
      t.percentage == Clamp(p.x - env.track.left, 0.0, env.track.width) / env.track.width &&
      (0.0 <= env.media.duration ==> 0.0 <= t.second <= env.media.duration)
    ensures env.media.isRotate ==> t.percentage == p.y / env.media.height
  {
    var pos := PosFromEvent(env.track, p.x, env.media.duration);
    if env.media.isRotate then
      var percentage := p.y / env.media.height;
      Target(percentage * env.media.duration, percentage)
    else
      Target(pos.second, pos.percentage)
  }

  /** The rotated formula is not clamped: a touch below the player maps past the end. */
  lemma RotatedTargetUnclamped(env: Env, p: Pointer)
    requires env.WellFormed() && env.media.isRotate
    requires env.media.duration > 0.0 && p.y > env.media.height
    ensures SeekTarget(env, p).percentage > 1.0
    ensures SeekTarget(env, p).second > env.media.duration
  {
  }

  /**
   * `setCurrentTime`: when the policy allows the target, emit the played-bar
   * update (which the control's own listener applies) and write `art.seek`;
   * otherwise leave the player alone and call `onDragRefuse` if it is configured.
   */
  function Commit(cfg: Config, s: State, env: Env, p: Pointer): (r: State)
    requires env.WellFormed()
    ensures r.dragging == s.dragging && r.tip == s.tip && r.spans == s.spans
    ensures var t := SeekTarget(env, p);
      if Permitted(cfg.progress, env.media.currentTime, t.second) then
        r.seeks == s.seeks + [t.second] &&
        r.emitted == s.emitted + [SetBarEmitted(Played, t.percentage)] &&
        r.bars.played == t.percentage * 100.0 && r.bars.indicator == t.percentage * 100.0 &&
        r.bars.loaded == s.bars.loaded &&
        r.refusals == s.refusals
      else
        r.seeks == s.seeks && r.emitted == s.emitted && r.bars == s.bars &&
        r.refusals == s.refusals + (if RefuseCallback(cfg.progress) then 1 else 0)
  {
    var t := SeekTarget(env, p);
    if Truthy(IsAllowChangeCurrentTime(cfg.progress, env.media.currentTime, t.second)) then
      s.(emitted := s.emitted + [SetBarEmitted(Played, t.percentage)],
         bars := WithBar(s.bars, Played, t.percentage),
         seeks := s.seeks + [t.second])
    else if RefuseCallback(cfg.progress) then
      s.(refusals := s.refusals + 1)
    else
      s
  }

  /**
   * `setCurrentTime` called from one of this control's mouse listeners, which are
   * registered only off mobile (line 193). A mouse event has no `touches`, so in
   * rotated mode line 54 throws before anything is emitted, sought or refused:
   * the call leaves the state as it found it.
   */
  function MouseCommit(cfg: Config, s: State, env: Env, p: Pointer): (r: State)
    requires env.track.width > 0.0
    ensures env.media.isRotate ==> r == s
    ensures !env.media.isRotate ==> env.WellFormed() && r == Commit(cfg, s, env, p)
  {
    if env.media.isRotate then s else Commit(cfg, s, env, p)
  }

  /** A committed seek always obeys the configured drag mode. */
  lemma CommitObeysMode(cfg: Config, s: State, env: Env, p: Pointer)
    requires env.WellFormed() && cfg.progress.Some?
    ensures var r := Commit(cfg, s, env, p);
      |r.seeks| == |s.seeks| + 1 ==>
        match cfg.progress.value.allowDrag
        case Forward => env.media.currentTime <= r.seeks[|s.seeks|]
        case Back => r.seeks[|s.seeks|] <= env.media.currentTime
        case NoDrag => false
        case Other => false
        case _ => true
  {
  }

  /** What the hover tooltip needs: the pointer, the widths, and the hovered mark's label. */
  datatype Hover = Hover(
    track: Track,
    x: real,
    duration: real,
    controlWidth: real,
    tipWidth: real,
    highlight: Option<string>,
    secondToTime: real -> string)

  /** The control's own `mousemove`: show the tooltip over a mark, or the time under the pointer. */
  function Hovered(s: State, h: Hover): (r: State)
    requires h.track.width > 0.0
    ensures r == s.(tip := r.tip) && r.tip.visible
    ensures h.highlight.Some? ==> r.tip.text == h.highlight.value
    ensures h.highlight.None? ==> r.tip.text == h.secondToTime(PosFromEvent(h.track, h.x, h.duration).second)
    ensures h.track.width <= h.controlWidth && 0.0 <= h.tipWidth <= h.controlWidth ==>
      0.0 <= r.tip.left && r.tip.left + h.tipWidth <= h.controlWidth
  {
    var pos := PosFromEvent(h.track, h.x, h.duration);
    var text := match h.highlight case Some(t) => t case None => h.secondToTime(pos.second);
    s.(tip := Tip(text, TipLeft(pos.width, h.tipWidth, h.controlWidth), true))
  }

  /** The marks rendered for `items`, in order. */
  function Spans(items: seq<HighlightItem>, duration: real): (r: seq<Span>)
    requires duration > 0.0
    ensures |r| == |items|
    ensures forall i :: 0 <= i < |items| ==>
      r[i].text == items[i].text && r[i].time == items[i].time &&
      r[i].left == HighlightLeft(items[i].time, duration) && 0.0 <= r[i].left <= 100.0
    decreases |items|
  {
    if items == [] then []
    else
      var last := items[|items| - 1];
      Spans(items[..|items| - 1], duration) + [Span(last.text, last.time, HighlightLeft(last.time, duration))]
  }

  /** Highlights configured in time order are rendered left to right. */
  lemma SpansOrdered(items: seq<HighlightItem>, duration: real)
    requires duration > 0.0
    requires forall i, j :: 0 <= i < j < |items| ==> items[i].time <= items[j].time
    ensures var r := Spans(items, duration);
      forall i, j :: 0 <= i < j < |r| ==> r[i].left <= r[j].left
  {
    var r := Spans(items, duration);
    forall i, j | 0 <= i < j < |r|
      ensures r[i].left <= r[j].left
    {
      HighlightLeftMonotone(items[i].time, items[j].time, duration);
    }
  }

  /**
   * The inputs the control reacts to. `onIndicator` says that the event's target is
   * the indicator element itself; a press or click on a child of the indicator,
   * such as its icon, has `onIndicator == false`.
   */
  datatype Event =
    | ControlMouseDown(onIndicator: bool)
    | DocumentMouseMove(track: Track, x: real, duration: real)
    | DocumentMouseUp(env: Env, p: Pointer)
    | ControlClick(onIndicator: bool, env: Env, p: Pointer)
    | ControlMouseMove(hover: Hover)
    | ControlMouseLeave
    | SetBarRequest(name: BarName, percentage: real)
    | VideoProgress(loaded: real)
    | VideoTimeUpdate(played: real)
    | VideoEnded
    | VideoLoadedMetadata(duration: real)
  {
    /** The divisions the handler performs are defined. */
    predicate WellFormed() {
      match this
      case DocumentMouseMove(track, _, _) => track.width > 0.0
      case DocumentMouseUp(env, _) => env.track.width > 0.0
      case ControlClick(_, env, _) => env.track.width > 0.0
      case ControlMouseMove(h) => h.track.width > 0.0
      case VideoLoadedMetadata(duration) => duration > 0.0
      case _ => true
    }

    /** Pointer input that only the document-level drag listeners handle. */
    predicate IsDocumentPointer() {
      DocumentMouseMove? || DocumentMouseUp?
    }
  }

  /** One handler run. */
  function Step(cfg: Config, s: State, e: Event): (r: State)
    requires e.WellFormed()
    // the player's position is only ever appended to, once, by a commit
    ensures s.seeks <= r.seeks && |r.seeks| <= |s.seeks| + 1
    ensures r.seeks != s.seeks ==> e.DocumentMouseUp? || e.ControlClick?
    // only mousedown arms a drag and only a document mouseup ends one
    ensures r.dragging && !s.dragging ==> e.ControlMouseDown?
    ensures !r.dragging && s.dragging ==> e.DocumentMouseUp?
    // the marks are only added, once metadata is known
    ensures r.spans != s.spans ==> e.VideoLoadedMetadata?
    // the document-level listeners do nothing while no drag is in progress
    ensures !s.dragging && e.IsDocumentPointer() ==> r == s
  {
    match e
    case ControlMouseDown(_) => s.(dragging := true)
    case DocumentMouseMove(track, x, duration) =>
      if s.dragging then
        s.(bars := WithBar(s.bars, Played, PosFromEvent(track, x, duration).percentage))
      else s
    case DocumentMouseUp(env, p) =>
      if s.dragging then MouseCommit(cfg, s.(dragging := false), env, p) else s
    case ControlClick(onIndicator, env, p) =>
      if !onIndicator then MouseCommit(cfg, s, env, p) else s
    case ControlMouseMove(h) => Hovered(s, h)
    case ControlMouseLeave => s.(tip := s.tip.(visible := false))
    case SetBarRequest(name, percentage) => s.(bars := WithBar(s.bars, name, percentage))
    case VideoProgress(loaded) => s.(bars := WithBar(s.bars, Loaded, loaded))
    case VideoTimeUpdate(played) => s.(bars := WithBar(s.bars, Played, played))
    case VideoEnded => s.(bars := WithBar(s.bars, Played, 1.0))
    case VideoLoadedMetadata(duration) => s.(spans := s.spans + Spans(cfg.highlight, duration))
  }

  predicate AllWellFormed(es: seq<Event>) {
    forall i :: 0 <= i < |es| ==> es[i].WellFormed()
  }

  /** The handlers run in the order the events arrive. */
  function Run(cfg: Config, s: State, es: seq<Event>): State
    requires AllWellFormed(es)
    decreases |es|
  {
    if es == [] then s else Run(cfg, Step(cfg, s, es[0]), es[1..])
  }

  lemma {:induction false} RunAppend(cfg: Config, s: State, a: seq<Event>, b: seq<Event>)
    requires AllWellFormed(a) && AllWellFormed(b)
    ensures AllWellFormed(a + b)
    ensures Run(cfg, s, a + b) == Run(cfg, Run(cfg, s, a), b)
    decreases |a|
  {
    if a == [] {
      assert a + b == b;
    } else {
      assert (a + b)[1..] == a[1..] + b;
      RunAppend(cfg, Step(cfg, s, a[0]), a[1..], b);
    }
  }

  /** Over any run, earlier seeks are never rewritten: the log only grows. */
  lemma {:induction false} RunSeeksAppendOnly(cfg: Config, s: State, es: seq<Event>)
    requires AllWellFormed(es)
    ensures s.seeks <= Run(cfg, s, es).seeks
    decreases |es|
  {
    if es != [] {
      RunSeeksAppendOnly(cfg, Step(cfg, s, es[0]), es[1..]);
    }
  }

  /** With no drag in progress, document-level moves and releases change nothing. */
  lemma {:induction false} IdleIgnoresPointer(cfg: Config, s: State, es: seq<Event>)
    requires AllWellFormed(es) && !s.dragging
    requires forall i :: 0 <= i < |es| ==> es[i].IsDocumentPointer()
    ensures Run(cfg, s, es) == s
    decreases |es|
  {
    if es != [] {
      IdleIgnoresPointer(cfg, Step(cfg, s, es[0]), es[1..]);
    }
  }

  predicate AllMoves(es: seq<Event>) {
    forall i :: 0 <= i < |es| ==> es[i].DocumentMouseMove? && es[i].track.width > 0.0
  }

  /**
   * Moves while dragging are a preview only: they never seek, emit, refuse, or
   * touch the drag flag, the loaded bar, the tooltip or the marks; the played
   * bar ends at the last pointer position.
   */
  lemma {:induction false} PreviewNeverSeeks(cfg: Config, s: State, es: seq<Event>)
    requires AllMoves(es)
    ensures AllWellFormed(es)
    ensures var r := Run(cfg, s, es);
      r.dragging == s.dragging && r.seeks == s.seeks && r.emitted == s.emitted &&
      r.refusals == s.refusals && r.tip == s.tip && r.spans == s.spans &&
      r.bars.loaded == s.bars.loaded
    ensures s.dragging && es != [] ==>
      var last := es[|es| - 1];
      Run(cfg, s, es).bars.played == PosFromEvent(last.track, last.x, last.duration).percentage * 100.0
    decreases |es|
  {
    assert AllWellFormed(es) by {
      forall i | 0 <= i < |es| ensures es[i].WellFormed() { }
    }
    if es != [] {
      assert AllMoves(es[1..]) by {
        forall i | 0 <= i < |es[1..]| ensures es[1..][i].DocumentMouseMove? && es[1..][i].track.width > 0.0 {
          assert es[1..][i] == es[i + 1];
        }
      }
      PreviewNeverSeeks(cfg, Step(cfg, s, es[0]), es[1..]);
      if |es| > 1 {
        assert es[1..][|es[1..]| - 1] == es[|es| - 1];
      }
    }
  }

  /**
   * A whole drag: mousedown (on the indicator or not), any number of moves, and a
   * release ends idle after exactly one commit attempt, made at the release point;
   * in rotated mode that attempt throws and nothing is sought.
   */
  lemma DragLifecycle(cfg: Config, s: State, onIndicator: bool, moves: seq<Event>, env: Env, p: Pointer)
    requires AllMoves(moves) && env.track.width > 0.0
    ensures AllWellFormed([ControlMouseDown(onIndicator)] + moves + [DocumentMouseUp(env, p)])
    ensures var r := Run(cfg, s, [ControlMouseDown(onIndicator)] + moves + [DocumentMouseUp(env, p)]);
      !r.dragging &&
      r == MouseCommit(cfg, Run(cfg, s.(dragging := true), moves).(dragging := false), env, p) &&
      r.seeks == (if !env.media.isRotate && Permitted(cfg.progress, env.media.currentTime, SeekTarget(env, p).second)
                  then s.seeks + [SeekTarget(env, p).second] else s.seeks)
  {
    var down, up := [ControlMouseDown(onIndicator)], [DocumentMouseUp(env, p)];
    PreviewNeverSeeks(cfg, s.(dragging := true), moves);
    assert AllWellFormed(down) && AllWellFormed(up);
    RunAppend(cfg, s, down, moves);
    RunAppend(cfg, s, down + moves, up);
    var m := Run(cfg, s.(dragging := true), moves);
    assert Run(cfg, s, down) == s.(dragging := true);
    assert Run(cfg, m, up) == MouseCommit(cfg, m.(dragging := false), env, p);
  }

  /** After a release, later document-level moves and releases are ignored. */
  lemma ReleaseIsFinal(cfg: Config, s: State, env: Env, p: Pointer, later: seq<Event>)
    requires env.track.width > 0.0 && AllWellFormed(later)
    requires forall i :: 0 <= i < |later| ==> later[i].IsDocumentPointer()
    ensures var r := Step(cfg, s, DocumentMouseUp(env, p)); Run(cfg, r, later) == r
  {
    IdleIgnoresPointer(cfg, Step(cfg, s, DocumentMouseUp(env, p)), later);
  }

  /**
   * A click on the indicator never commits, but a mousedown on it still arms a
   * drag whose release commits (as far as a mouse commit goes in rotated mode).
   */
  lemma IndicatorAsymmetry(cfg: Config, s: State, env: Env, p: Pointer)
    requires env.track.width > 0.0
    ensures Step(cfg, s, ControlClick(true, env, p)) == s
    ensures Step(cfg, s, ControlMouseDown(true)).dragging
    ensures Step(cfg, Step(cfg, s, ControlMouseDown(true)), DocumentMouseUp(env, p))
         == MouseCommit(cfg, s.(dragging := false), env, p)
  {
  }

  /**
   * Outside rotated mode, a press and release on the track away from the indicator
   * also fires the control's click: the same target is committed twice when allowed.
   */
  lemma PressReleaseClickCommitsTwice(cfg: Config, s: State, env: Env, p: Pointer)
    requires env.track.width > 0.0 && !env.media.isRotate
    requires Permitted(cfg.progress, env.media.currentTime, SeekTarget(env, p).second)
    ensures var pressed := Step(cfg, s, ControlMouseDown(false));
      var released := Step(cfg, pressed, DocumentMouseUp(env, p));
      var clicked := Step(cfg, released, ControlClick(false, env, p));
      clicked.seeks == s.seeks + [SeekTarget(env, p).second, SeekTarget(env, p).second]
  {
    var t := SeekTarget(env, p);
    var released := Commit(cfg, s, env, p);
    assert released.seeks == s.seeks + [t.second];
    assert Commit(cfg, released, env, p).seeks == released.seeks + [t.second];
  }

  /**
   * The same gesture with a refused target calls `onDragRefuse` twice, when it is
   * configured, and writes nothing to `art.seek`.
   */
  lemma PressReleaseClickRefusesTwice(cfg: Config, s: State, env: Env, p: Pointer)
    requires env.track.width > 0.0 && !env.media.isRotate && RefuseCallback(cfg.progress)
    requires !Permitted(cfg.progress, env.media.currentTime, SeekTarget(env, p).second)
    ensures var pressed := Step(cfg, s, ControlMouseDown(false));
      var released := Step(cfg, pressed, DocumentMouseUp(env, p));
      var clicked := Step(cfg, released, ControlClick(false, env, p));
      clicked.refusals == s.refusals + 2 && clicked.seeks == s.seeks
  {
  }

  /**
   * In rotated mode the same gesture only clears the drag flag: both mouse
   * listeners throw at line 54 before writing anything.
   */
  lemma RotatedMouseGestureWritesNothing(cfg: Config, s: State, env: Env, p: Pointer)
    requires env.track.width > 0.0 && env.media.isRotate
    ensures var pressed := Step(cfg, s, ControlMouseDown(false));
      var released := Step(cfg, pressed, DocumentMouseUp(env, p));
      var clicked := Step(cfg, released, ControlClick(false, env, p));
      clicked == s.(dragging := false)
  {
  }

  /** Media events: a repeated time update or end leaves the bars as the first one did. */
  lemma MediaEventsIdempotent(cfg: Config, s: State, played: real)
    ensures var r := Step(cfg, s, VideoTimeUpdate(played));
      Step(cfg, r, VideoTimeUpdate(played)) == r && r.bars.played == played * 100.0
    ensures var r := Step(cfg, s, VideoEnded);
      Step(cfg, r, VideoEnded) == r && r.bars.played == 100.0 && r.bars.indicator == 100.0
  {
  }

  /**
   * 100 seconds over a 200-pixel track: a click 50 pixels in targets second 25,
   * which `back` mode at second 40 allows, since it moves backwards.
   */
  lemma EndToEndExample(s: State, onDragRefuse: bool)
    ensures var cfg := Config(Some(ProgressOption(Back, onDragRefuse)), []);
      var env := Env(Media(40.0, 100.0, false, 0.0), Track(10.0, 200.0));
      var r := Step(cfg, s, ControlClick(false, env, Pointer(60.0, 0.0)));
      SeekTarget(env, Pointer(60.0, 0.0)) == Target(25.0, 0.25) &&
      r.seeks == s.seeks + [25.0] && r.refusals == s.refusals
  {
  }
}
