/**
 * The mounted progress control: the closure's `isDroging` flag and the DOM it
 * updates become fields, its handlers become methods, and every handler is proved
 * to leave the control in the state the value model of `ProgressModel` gives.
 */
module ProgressControl {
  import opened Utils
  import opened Position
  import opened Display
  import opened SeekPolicy
  import opened ProgressModel

  class Control {
    const cfg: Config
    var isDragging: bool
    var bars: Bars
    var tip: Tip
    var spans: seq<Span>
    /** Every value written to `art.seek`, oldest first. */
    var seeks: seq<real>
    /** Every `setBar` event emitted on the player's bus, oldest first. */
    var emitted: seq<Emitted>
    /** How many times `onDragRefuse` was called. */
    var refusals: nat

    function Snapshot(): State
      reads this
    {
      State(isDragging, bars, tip, spans, seeks, emitted, refusals)
    }

    /** `mounted`: the drag flag starts cleared and the loaded bar shows the player's `loaded`. */
    constructor (cfg: Config, rendered: Bars, tip: Tip, loaded: real)
      ensures this.cfg == cfg
      ensures Snapshot() == Mounted(rendered, tip, loaded)
    {
      this.cfg := cfg;
      isDragging := false;
      bars := rendered.(indicator := 0.0);
      this.tip := tip;
      spans, seeks, emitted, refusals := [], [], [], 0;
      new;
      SetBar(Loaded, loaded);
    }

    /** `setBar`, also the control's listener for `setBar` events on the bus. */
    method SetBar(name: BarName, percentage: real)
      modifies this
      ensures bars == WithBar(old(bars), name, percentage)
      ensures Snapshot() == Step(cfg, old(Snapshot()), Event.SetBarRequest(name, percentage))
    {
      if name == Loaded {
        bars := bars.(loaded := percentage * 100.0);
      }
      if name == Played {
        bars := bars.(played := percentage * 100.0, indicator := percentage * 100.0);
      }
    }

    /** `art.emit('setBar', ...)`: logged, and delivered synchronously to this control's listener. */
    method EmitSetBar(name: BarName, percentage: real)
      modifies this
      ensures emitted == old(emitted) + [SetBarEmitted(name, percentage)]
      ensures Snapshot() == old(Snapshot()).(emitted := emitted, bars := WithBar(old(bars), name, percentage))
    {
      emitted := emitted + [SetBarEmitted(name, percentage)];
      SetBar(name, percentage);
    }

    /** `setCurrentTime`. */
    method SetCurrentTime(env: Env, p: Pointer)
      requires env.WellFormed()
      modifies this
      ensures Snapshot() == Commit(cfg, old(Snapshot()), env, p)
    {
      var pos := PosFromEvent(env.track, p.x, env.media.duration);
      var second, percentage := pos.second, pos.percentage;
      if env.media.isRotate {
        percentage := p.y / env.media.height;
        second := percentage * env.media.duration;
      }
      ghost var before := Snapshot();
      assert Target(second, percentage) == SeekTarget(env, p);
      if Truthy(IsAllowChangeCurrentTime(cfg.progress, env.media.currentTime, second)) {
        EmitSetBar(Played, percentage);
        seeks := seeks + [second];
        assert Snapshot() == before.(emitted := before.emitted + [SetBarEmitted(Played, percentage)],
                                     bars := WithBar(before.bars, Played, percentage),
                                     seeks := before.seeks + [second]);
      } else if cfg.progress.Some? && cfg.progress.value.onDragRefuse {
        refusals := refusals + 1;
      }
    }

    /** The control's `mousedown`: arms a drag wherever on the control it lands. */
    method MouseDown(onIndicator: bool)
      modifies this
      ensures isDragging
      ensures Snapshot() == Step(cfg, old(Snapshot()), Event.ControlMouseDown(onIndicator))
    {
      isDragging := true;
    }

    /** The document's `mousemove`: a live preview of the played bar, only while dragging. */
    method DocumentMouseMove(track: Track, x: real, duration: real)
      requires track.width > 0.0
      modifies this
      ensures seeks == old(seeks) && isDragging == old(isDragging)
      ensures Snapshot() == Step(cfg, old(Snapshot()), Event.DocumentMouseMove(track, x, duration))
    {
      if isDragging {
        var pos := PosFromEvent(track, x, duration);
        SetBar(Played, pos.percentage);
      }
    }

    /**
     * The document's `mouseup`: ends a drag with one commit at the release point;
     * in rotated mode the commit throws, so only the flag is cleared.
     */
    method DocumentMouseUp(env: Env, p: Pointer)
      requires env.track.width > 0.0
      modifies this
      ensures !isDragging
      ensures Snapshot() == Step(cfg, old(Snapshot()), Event.DocumentMouseUp(env, p))
    {
      if isDragging {
        isDragging := false;
        // in rotated mode `setCurrentTime` reads the mouse event's missing `touches` and throws first
        if !env.media.isRotate {
          SetCurrentTime(env, p);
        }
      }
    }

    /**
     * The control's `click`: commits unless its target is the indicator element
     * itself; in rotated mode the commit throws and nothing changes.
     */
    method Click(onIndicator: bool, env: Env, p: Pointer)
      requires env.track.width > 0.0
      modifies this
      ensures isDragging == old(isDragging)
      ensures Snapshot() == Step(cfg, old(Snapshot()), Event.ControlClick(onIndicator, env, p))
    {
      // in rotated mode `setCurrentTime` reads the mouse event's missing `touches` and throws first
      if !onIndicator && !env.media.isRotate {
        SetCurrentTime(env, p);
      }
    }

    /** Writes the tooltip's text and places it: the placement both `showHighlight` and `showTime` use. */
    method ShowTip(text: string, width: real, tipWidth: real, controlWidth: real)
      modifies this
      ensures tip == Tip(text, TipLeft(width, tipWidth, controlWidth), old(tip).visible)
      ensures Snapshot() == old(Snapshot()).(tip := tip)
    {
      tip := tip.(text := text);
      if width <= tipWidth / 2.0 {
        tip := tip.(left := 0.0);
      } else if width > controlWidth - tipWidth / 2.0 {
        tip := tip.(left := controlWidth - tipWidth);
      } else {
        tip := tip.(left := width - tipWidth / 2.0);
      }
    }

    /** The control's `mousemove`: shows the tooltip, with a mark's label or the time under the pointer. */
    method MouseMove(h: Hover)
      requires h.track.width > 0.0
      modifies this
      ensures tip.visible
      ensures Snapshot() == Step(cfg, old(Snapshot()), Event.ControlMouseMove(h))
    {
      tip := tip.(visible := true);
      var pos := PosFromEvent(h.track, h.x, h.duration);
      if h.highlight.Some? {
        ShowTip(h.highlight.value, pos.width, h.tipWidth, h.controlWidth);
      } else {
        ShowTip(h.secondToTime(pos.second), pos.width, h.tipWidth, h.controlWidth);
      }
    }

    /** The control's `mouseleave`: hides the tooltip. */
    method MouseLeave()
      modifies this
      ensures !tip.visible
      ensures Snapshot() == Step(cfg, old(Snapshot()), Event.ControlMouseLeave)
    {
      tip := tip.(visible := false);
    }

    /** `video:progress`. */
    method VideoProgress(loaded: real)
      modifies this
      ensures Snapshot() == Step(cfg, old(Snapshot()), Event.VideoProgress(loaded))
    {
      SetBar(Loaded, loaded);
    }

    /** `video:timeupdate`. */
    method VideoTimeUpdate(played: real)
      modifies this
      ensures Snapshot() == Step(cfg, old(Snapshot()), Event.VideoTimeUpdate(played))
    {
      SetBar(Played, played);
    }

    /** `video:ended`: the played bar is forced full. */
    method VideoEnded()
      modifies this
      ensures bars.played == 100.0
      ensures Snapshot() == Step(cfg, old(Snapshot()), Event.VideoEnded)
    {
      SetBar(Played, 1.0);
    }

    /** `video:loadedmetadata`: one mark appended per configured highlight, in order. */
    method VideoLoadedMetadata(duration: real)
      requires duration > 0.0
      modifies this
      ensures |spans| == |old(spans)| + |cfg.highlight|
      ensures Snapshot() == Step(cfg, old(Snapshot()), Event.VideoLoadedMetadata(duration))
    {
      var items := cfg.highlight;
      for index := 0 to |items|
        invariant spans == old(spans) + Spans(items[..index], duration)
        invariant Snapshot() == old(Snapshot()).(spans := spans)
      {
        var item := items[index];
        var left := HighlightLeft(item.time, duration);
        assert items[..index + 1][..index] == items[..index];
        spans := spans + [Span(item.text, item.time, left)];
      }
      assert items[..|items|] == items;
    }
  }
}
