# ArtPlayer progress control, modelled in Dafny

This project models the seek/progress-bar control of the ArtPlayer media player
(`packages/artplayer/src/control/progress.js`). The control does four things:

- It maps a pointer position over the track to a playback second (`getPosFromEvent`).
- It decides whether the configured `allowDrag` mode permits seeking to that second (`isAllowChangeCurrentTime`).
- It commits the seek or reports a refusal (`setCurrentTime`).
- Its `mounted` closure runs a small drag state machine around one `isDroging` flag, and keeps the loaded bar, the played bar, the indicator, the hover tooltip and the highlight marks up to date.

Files and modules:

- `utils.dfy` (`Utils`): `Option`, and `clamp` from the player's utility module, with its usual min/max meaning.
- `position.dfy` (`Position`): `getPosFromEvent` as a pure function of the pointer x-coordinate, the track geometry and the duration.
- `display.dfy` (`Display`): the tooltip placement rule and the highlight offset formula.
- `seek_policy.dfy` (`SeekPolicy`): `isAllowChangeCurrentTime`, checked against the permission table `Permitted`.
- `progress_model.dfy` (`ProgressModel`): the whole control as values.
  - `State` holds the drag flag, bars, tooltip and marks.
  - It also holds three logs: the values written to `art.seek`, the emitted `setBar` events, and the calls to `onDragRefuse`.
  - `Step` runs one handler and `Run` runs a sequence of events.
  - The lemmas state what a drag does over whole event sequences.
- `progress_control.dfy` (`ProgressControl`): class `Control` holds the closure's state as fields and its handlers as methods.
  - Each handler is proved to leave `Snapshot()` equal to what `Step` (or, for `SetCurrentTime`, `Commit`) gives for the old state. The helpers `EmitSetBar` and `ShowTip` state their own effect instead.
  - So the lemmas about `Step` and `Run` hold of the class.

Two points about the arithmetic and the policy:

- **No zero guard.** The code divides by the track width, the duration and the player height without a guard (progress.js lines 8, 10, 54, 167). So the model requires a positive track width, a positive highlight duration, and a positive player height in rotated mode.
- **`back` mode.** The code refuses only targets *after* the current time (line 35). `EndToEndExample` shows that a seek from second 40 back to second 25 is committed.

Three consequences of the code are also proved:

- **Rotated mode.** A rotated commit reads `event.touches[0].clientY` and uses it over the height unclamped (lines 53-56), so it can target past the end (`RotatedTargetUnclamped`). This formula serves touch callers of the exported `setCurrentTime`. The control's own `click` and `mouseup` listeners are registered only off mobile (line 193) and pass mouse events, which have no `touches`, so in rotated mode line 54 throws before anything is emitted, sought or refused (`MouseCommit`). A rotated mouse release therefore only clears the drag flag, which line 226 has already done, and a rotated click changes nothing (`RotatedMouseGestureWritesNothing`). The live preview during a drag always uses the horizontal mapping (line 219).
- **Press and release on the track.** Outside rotated mode, the document `mouseup` commits, and the control's own `click` commits again unless its target is the indicator element. In a browser, a press and release on the track fires both, so an allowed target is written to `art.seek` twice (`PressReleaseClickCommitsTwice`). For a refused target with `onDragRefuse` configured, the callback is called twice and nothing is written to `art.seek` (`PressReleaseClickRefusesTwice`).
- **Clicks on the indicator's icon.** The click handler compares the event target with the indicator element itself (line 195). When an icon is appended inside the indicator (line 106), a click on the icon has the icon as its target. So it counts as a click off the indicator and commits (`onIndicator == false` in the model).

## Model

| member | source | states |
|---|---|---|
| `Position.PosFromEvent` | packages/artplayer/src/control/progress.js:3-12 | The pixel offset is the pointer offset clamped into `[0, width]` (each of the three cases stated). The percentage lies in `[0, 1]` and equals offset / width. The second is percentage × duration and lies in `[0, duration]` when the duration is non-negative. |
| `Position.PosFromEventMonotone` | packages/artplayer/src/control/progress.js:7-10 | Moving the pointer right never decreases the offset, the percentage or the second. |
| `Display.TipLeft` | packages/artplayer/src/control/progress.js:131-137 | When the offset and the tooltip width fit the control, the tooltip stays inside the control and lies over the pointer. When there is room on both sides it is centred on the pointer. |
| `Display.HighlightLeft` | packages/artplayer/src/control/progress.js:167 | A mark's left offset lies in `[0, 100]`. It is 0 for times ≤ 0 and 100 for times ≥ duration, and in between it is time / duration × 100. |
| `Display.HighlightLeftMonotone` | packages/artplayer/src/control/progress.js:165-172 | Later times never get a smaller offset. |
| `SeekPolicy.IsAllowChangeCurrentTime` | packages/artplayer/src/control/progress.js:21-48 | The answer is `true` exactly when the permission table allows the target. No option, unset mode or `all` allow everything. `forward` allows targets not before the current time and `back` targets not after it. `none` allows nothing. It is `undefined` exactly for an unknown mode, which the caller treats as a refusal. |
| `ProgressModel.WithBar` | packages/artplayer/src/control/progress.js:153-162 | `loaded` sets only the loaded width. `played` sets only the played width and the indicator. Any other name changes nothing. |
| `ProgressModel.WithBarIdempotent` | packages/artplayer/src/control/progress.js:153-162 | Setting a bar twice to the same percentage is the same as setting it once. |
| `ProgressModel.Mounted` | packages/artplayer/src/control/progress.js:84-175 | After mounting there is no drag and nothing has been sought, emitted, refused or marked. The indicator sits at 0% (its `left` is minus half its size, line 121). The loaded bar shows the player's `loaded`. |
| `ProgressModel.SeekTarget` | packages/artplayer/src/control/progress.js:51-56 | In both modes the second is percentage × duration. Horizontally the percentage is the clamped offset over the width, in `[0, 1]`, and the second lies in `[0, duration]`. Rotated, the percentage is `y / height`. |
| `ProgressModel.RotatedTargetUnclamped` | packages/artplayer/src/control/progress.js:53-56 | A rotated touch below the player's height yields a percentage above 1 and a second past the duration. |
| `ProgressModel.Commit` | packages/artplayer/src/control/progress.js:49-66 | If the table permits the target: exactly one seek to the target second, one emitted played update with its percentage, and the played bar and the indicator moved to it. If not: no seek, no emit and no bar change, and one refusal iff the option and its callback exist. Drag flag, tooltip and marks are unchanged. |
| `ProgressModel.MouseCommit` | packages/artplayer/src/control/progress.js:49-56 | `setCurrentTime` called with a mouse event: in rotated mode the state is left exactly as it was (the read of `touches` at line 54 throws first); otherwise it is `Commit`. |
| `ProgressModel.CommitObeysMode` | packages/artplayer/src/control/progress.js:57-65 | A seek written by a commit is never before the current time in `forward` mode and never after it in `back` mode. `none` and unknown modes never write one. |
| `ProgressModel.Hovered` | packages/artplayer/src/control/progress.js:200-207 | Only the tooltip changes. It becomes visible and shows the hovered mark's label, or else the formatted time under the pointer. It stays inside the control. |
| `ProgressModel.Spans` | packages/artplayer/src/control/progress.js:165-172 | One mark per configured highlight, in order, each with its item's text (as plain text) and time and an offset in `[0, 100]`. |
| `ProgressModel.SpansOrdered` | packages/artplayer/src/control/progress.js:165-172 | Highlights configured in time order are rendered left to right. |
| `ProgressModel.Step` | packages/artplayer/src/control/progress.js:177-229 | No handler rewrites an earlier seek, and none adds more than one. Only `mouseup` and `click` seek. Only `mousedown` arms a drag and only the document `mouseup` ends one. Only `loadedmetadata` adds marks. While idle, the document listeners change nothing. |
| `ProgressModel.RunSeeksAppendOnly` | packages/artplayer/src/control/progress.js:59 | Over any sequence of events, the seeks already written stay a prefix of the log. |
| `ProgressModel.IdleIgnoresPointer` | packages/artplayer/src/control/progress.js:217-229 | With no drag in progress, any sequence of document moves and releases leaves the state unchanged. |
| `ProgressModel.PreviewNeverSeeks` | packages/artplayer/src/control/progress.js:217-222 | Any sequence of document moves leaves everything unchanged except the played bar and the indicator: no seek, emit or refusal, no change to the drag flag, loaded bar, tooltip or marks. While dragging, the played bar ends at the last pointer's percentage. |
| `ProgressModel.DragLifecycle` | packages/artplayer/src/control/progress.js:213-229 | Mousedown, any moves, then mouseup ends idle. The result is exactly one `MouseCommit` at the release point, applied to the previewed state. The seek log gains the target iff the mode is not rotated and the table permits it. |
| `ProgressModel.ReleaseIsFinal` | packages/artplayer/src/control/progress.js:224-229 | After a release, later document moves and releases are ignored. |
| `ProgressModel.IndicatorAsymmetry` | packages/artplayer/src/control/progress.js:194-215 | A click whose target is the indicator element itself changes nothing, while a mousedown there still arms a drag whose release commits. A click on a child of the indicator, such as its icon, is a click off the indicator. |
| `ProgressModel.PressReleaseClickCommitsTwice` | packages/artplayer/src/control/progress.js:194-229 | Outside rotated mode, a press, release and click away from the indicator writes a permitted target to `art.seek` twice. |
| `ProgressModel.PressReleaseClickRefusesTwice` | packages/artplayer/src/control/progress.js:60-64 | Outside rotated mode, the same press, release and click with a refused target and `onDragRefuse` configured calls the callback twice and writes no seek. |
| `ProgressModel.RotatedMouseGestureWritesNothing` | packages/artplayer/src/control/progress.js:53-54 | In rotated mode, the same press, release and click leave the state as it was apart from a cleared drag flag: no seek, emit, refusal or bar change. |
| `ProgressModel.MediaEventsIdempotent` | packages/artplayer/src/control/progress.js:185-191 | `timeupdate` sets the played bar to the player's `played`. `ended` sets the played bar and the indicator to 100%. Repeating either event changes nothing. |
| `ProgressModel.EndToEndExample` | packages/artplayer/src/control/progress.js:34-39 | Duration 100 s and a 200 px track: a click 50 px in targets second 25 at 25%. In `back` mode at second 40 that seek is committed and nothing is refused. |
| `ProgressControl.Control.constructor` | packages/artplayer/src/control/progress.js:84-175 | The control starts in the `Mounted` state for the configuration it is given. |
| `ProgressControl.Control.SetBar` | packages/artplayer/src/control/progress.js:153-162 | The bars become `WithBar` of the old bars, and nothing else changes. |
| `ProgressControl.Control.EmitSetBar` | packages/artplayer/src/control/progress.js:58 | Appends one event to the emitted log and applies it to the control's own bars. |
| `ProgressControl.Control.SetCurrentTime` | packages/artplayer/src/control/progress.js:49-66 | The new state is `Commit` of the old state. |
| `ProgressControl.Control.MouseDown` | packages/artplayer/src/control/progress.js:213-215 | Arms the drag whatever the target. The new state is `Step` of the old state. |
| `ProgressControl.Control.DocumentMouseMove` | packages/artplayer/src/control/progress.js:217-222 | Never seeks and never changes the drag flag. The new state is `Step` of the old state. |
| `ProgressControl.Control.DocumentMouseUp` | packages/artplayer/src/control/progress.js:224-229 | Always ends idle. The new state is `Step` of the old state: if a drag was in progress, one `MouseCommit` (nothing in rotated mode). |
| `ProgressControl.Control.Click` | packages/artplayer/src/control/progress.js:194-198 | Commits unless its target is the indicator element itself or the mode is rotated. Never changes the drag flag. The new state is `Step` of the old state. |
| `ProgressControl.Control.ShowTip` | packages/artplayer/src/control/progress.js:126-151 | The tooltip gets the text and the `TipLeft` placement, and nothing else changes. |
| `ProgressControl.Control.MouseMove` | packages/artplayer/src/control/progress.js:200-207 | The tooltip is visible afterwards. The new state is `Step` of the old state. |
| `ProgressControl.Control.MouseLeave` | packages/artplayer/src/control/progress.js:209-211 | The tooltip is hidden afterwards. The new state is `Step` of the old state. |
| `ProgressControl.Control.VideoProgress` | packages/artplayer/src/control/progress.js:181-183 | The new state is `Step` of the old state: the loaded bar follows the player. |
| `ProgressControl.Control.VideoTimeUpdate` | packages/artplayer/src/control/progress.js:185-187 | The new state is `Step` of the old state: the played bar follows the player. |
| `ProgressControl.Control.VideoEnded` | packages/artplayer/src/control/progress.js:189-191 | The played bar is at 100%. The new state is `Step` of the old state. |
| `ProgressControl.Control.VideoLoadedMetadata` | packages/artplayer/src/control/progress.js:164-173 | The loop appends one mark per configured highlight, in order. The new state is `Step` of the old state. |

## Left out

- DOM creation and styling (progress.js lines 85-124): the element queries, the theme colours, the indicator icon and its size, and the CSS strings. The bars are kept as CSS percentages. The indicator keeps only the percentage part of its `calc(...)`, not the constant shift of half its size; so the initial `left` of minus half its size (line 121) is 0% in the model.
- The look of the control before `mounted` (bar widths, tooltip) comes from the stylesheet, which is not part of this model. The constructor takes it as a parameter.
- `secondToTime` comes from the utility module, which is not part of this model. It is a function parameter of the hover event, with no format assumed.
- `includeFromEvent` and the hovered mark's `data-text` are given as the hover event's `highlight` field. `$tip.clientWidth` after the text changes, and `$control.clientWidth`, are given as numbers.
- `isMobile`: the touch/mouse choice of line 6 is just "an x-coordinate is given". The mouse listeners are modelled as the off-mobile listeners they are (line 193); touch input reaches the model only through `Commit`, the exported `setCurrentTime`, whose rotated formula reads `touches[0].clientY` as the pointer's `y`.
- Control.Click, Control.DocumentMouseUp: in rotated mode the `TypeError` thrown at line 54 is modelled by its effect on the state (nothing after the read runs); its propagation to the page is not modelled.
- Spans: labels are modelled as plain text. The HTML parsing of lines 129, 142 and 170 is not modelled: the label is spliced unescaped into a `data-text` attribute, and the tooltip text is written through `innerHTML`. A label holding `"`, `&` or markup can therefore display differently from the model's text, or add attributes or elements.
- The player's event bus (`art.on`, `proxy`, `art.emit`). Handlers are methods called in sequence. An emitted `setBar` is logged and delivered synchronously to this control's own listener only.
- What the `art.seek` setter does to the media element. The model logs the values written. `onDragRefuse` calls are counted; their argument is the player object.
- Floating point: numbers are `real`, so there is no rounding, NaN or infinity. Division by a zero width, duration or height is excluded by preconditions rather than modelled as NaN.
- `packages/artplayer/src/plugins/localPreview.js`: a file-picker wrapper around the browser's file input and object URLs, with i18n tables. Its only decision is a MIME whitelist membership test.
