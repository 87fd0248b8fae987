# Video-to-GIF converter: a Dafny model of its playback and conversion core

The program is a desktop tool that converts a video file into an animated
GIF. It comes in two variants that share most of their logic:
`video_to_gif_converter.py`, the original, and
`video_to_gif_converter_enhanced.py`, the enhanced one.

The tool lets the user preview the video, scrub it with a slider and mark a
start and end trim. The conversion runs the external encoder on the trimmed
window in a worker thread. It follows the encoder's progress on stderr and
reports the outcome in a bounded log pane and a progress bar.

This project models that core and proves properties of it.

The original program's preview is a frame-indexed player, `VideoPreviewPlayer`. It is
modelled twice:

- as a pure state machine (`Playback`): a capture slot, frame rate, frame
  count, current frame, playing flag, the `update_job` slot and the
  canvas's queue of pending `after` jobs;
- as the class `Preview.VideoPreviewPlayer`, whose methods update the same fields
  in place and are proved to move the state exactly as the pure functions do.

The window's play, pause and slider handlers are pure functions over a
`Controls.Gui` value. The class `Converter.ConverterWindow` updates its fields
and its player in place and is proved to follow those functions.

The conversion worker `convert_video` is modelled by `Pipeline`:

- the trim window;
- the output path;
- the encoder argument list;
- the loop over the encoder's stderr, which posts log lines and coalesced
  progress values;
- the success decision.

`Markers` reads the `Duration:` and `time=` clocks, exactly, in hundredths
of a second. `LogView` is the bounded log pane. `Session` replays the
worker's events through the window's callbacks.

The two programs share the trim, progress and log logic. Where they differ,
a `Controls.Variant` parameter (`Original` or `Enhanced`) selects the
behaviour:

- `format_time`'s `None` guard;
- `set_start_point` and `set_end_point`;
- the slider's seek target, in frames or in seconds.

The enhanced window drives an outside player widget. `Converter.EnhancedWindow`
therefore records the calls it makes on that widget.

The modules follow the program's structure:

| module | file | what it holds |
|---|---|---|
| `Base` | base.dfy | `Option`/`Result`, Python's `int()` on a float, `str.strip`, text lines, decimal digits |
| `Playback` | playback.dfy | the player as a state machine, its invariant, the frame-fitting geometry |
| `Preview` | preview.dfy | class `VideoPreviewPlayer` |
| `Controls` | controls.dfy | play/pause and slider handlers, `format_time`, set start/end point |
| `LogView` | logview.dfy | the log pane (`log`, `log_line`) and class `LogBuffer` |
| `Markers` | markers.dfy | `re.search` for the two clock markers, `get_video_duration` |
| `Pipeline` | pipeline.dfy | `convert_video`: trim window, output path, arguments, stderr loop, verdict |
| `Session` | session.dfy | the window's callbacks replayed over a conversion's events |
| `Converter` | converter.dfy | classes `ConversionPane`, `ConverterWindow` and `EnhancedWindow` |

**A behaviour that differs from what a reader of the program would expect; the model follows the code:**

- **Unknown duration with no trims.** When the video's duration is unknown
  and both trims are zero, the worker logs a warning that progress may be
  inaccurate (video_to_gif_converter.py:1055). This reads as if the conversion
  will go ahead. But the window check that follows sets `end_to = 0 <=
  start_seek = 0` and refuses the job (`Pipeline.UnknownDurationNeverEncodes`).
  With an unknown duration only a negative end trim gets the encoder started
  (`Pipeline.UnknownDurationRefused`).

## Model

| member | source | states |
|---|---|---|
| Base.StripEmptyIffBlank | video_to_gif_converter.py:926-929 | `line.strip()` is empty exactly when every character of the line is whitespace: the test `log_line` uses to drop a line |
| Playback.Initial | video_to_gif_converter.py:42-67 | the player starts with no capture, not playing, nothing scheduled, and satisfies the player invariant |
| Playback.LiveHandlesAtMostOne | video_to_gif_converter.py:75-80 | under the invariant at most one capture is live: the one in the slot |
| Playback.Seek | video_to_gif_converter.py:119-138 | `seek` keeps the player invariant (frame in range while playing, one live capture, pending jobs below the next id) |
| Playback.SeekToTime | video_to_gif_converter.py:140-147 | `seek_to_time` keeps the player invariant |
| Playback.TickDelay | video_to_gif_converter.py:176 | the delay `int(1000 / fps)` between two ticks is never negative for a positive rate |
| Playback.Load | video_to_gif_converter.py:69-98 | `load` keeps the player invariant whether or not the new capture opens |
| Playback.Replace | video_to_gif_converter.py:75-83 | releasing the slot's capture and creating a new one keeps the invariant |
| Playback.Opening | video_to_gif_converter.py:85-95 | reading an opened capture's rate and frame count keeps the invariant |
| Playback.Tick | video_to_gif_converter.py:159-180 | a tick keeps the player well formed, and keeps the invariant |
| Playback.Fire | video_to_gif_converter.py:177 | the event loop running a pending job keeps the invariant |
| Playback.FireDequeues | video_to_gif_converter.py:159-180 | a job the event loop runs leaves the queue for good, and its tick moves the frame and the playing flag as a tick of the same state does |
| Playback.Play | video_to_gif_converter.py:100-106 | `play` keeps the invariant |
| Playback.Pause | video_to_gif_converter.py:108-113 | `pause` keeps the invariant |
| Playback.Release | video_to_gif_converter.py:224-229 | `release` keeps the invariant |
| Playback.Chain | video_to_gif_converter.py:159-180 | a run of firings of the slot's job keeps the invariant |
| Playback.LoadOpens | video_to_gif_converter.py:75-98 | a load that opens releases the old capture first, leaves exactly the new capture live, takes 30 fps for a non-positive reported rate, makes `duration * fps` the frame count, and rests paused at frame 0 with the timers untouched |
| Playback.LoadFails | video_to_gif_converter.py:75-83 | a load that fails to open still releases the old capture and keeps the unopened one live; the position, rate, frame count and playing flag are unchanged; seek, tick and play then do nothing |
| Playback.SeekClamps | video_to_gif_converter.py:119-133 | without an open capture `seek` is a no-op; otherwise the frame becomes `max(0, min(n, total - 1))` (0 with no frames); the playing flag and the pending tick are kept; `current_duration() * fps` equals the new frame |
| Playback.SeekToTimeFrame | video_to_gif_converter.py:140-157 | `seek_to_time(t)` lands on the frame `int(t * fps)`; the position read back is at most `t` |
| Playback.TickIdle | video_to_gif_converter.py:159-162 | a tick does nothing unless playing with an open capture |
| Playback.TickAdvances | video_to_gif_converter.py:164-177 | a successful read advances exactly one frame; at the end playback stops and nothing is scheduled; otherwise exactly one new job is queued after `int(1000 / fps)` ms and the slot names it |
| Playback.TickReadFails | video_to_gif_converter.py:178-180 | a failed read stops playback at the same frame and leaves the stale job id in the slot |
| Playback.PauseSpec | video_to_gif_converter.py:108-113 | `pause` clears the flag and the slot, cancels the slot's job, schedules nothing and keeps the frame |
| Playback.PausePlayResumes | video_to_gif_converter.py:100-113 | `pause` then `play` shows the frame after the paused one |
| Playback.PlayAdvances | video_to_gif_converter.py:100-106 | `play` on an open capture with a successful read shows the next frame |
| Playback.ReleaseIdempotent | video_to_gif_converter.py:224-229 | `release` leaves no live capture, nothing playing and an empty slot, and keeps the frame; a second `release` changes nothing |
| Playback.ReplayOrphansPendingTick | video_to_gif_converter.py:100-106 | `play` while a tick is pending queues a second job and forgets the first: the queue grows by one, and a later `pause` can no longer cancel the old job |
| Playback.ChainBounded | video_to_gif_converter.py:166-173 | successive firings never move the frame backwards nor past the frame count |
| Playback.ChainDrains | video_to_gif_converter.py:166-177 | with every read succeeding, started playback reaches the frame count after `total - current` firings and stops by itself |
| Playback.FitAndCentre | video_to_gif_converter.py:194-216 | the scaled frame fits the display, fills it in at least one direction, keeps the aspect ratio up to truncation, and is centred up to one pixel |
| Playback.FitSides | video_to_gif_converter.py:195-197 | scaling by `min(dw / w, dh / h)` fits both sides and fills one |
| Playback.AspectKept | video_to_gif_converter.py:199-200 | truncating both sides scaled by one factor keeps `w * fh` within one frame side of `h * fw` |
| Playback.FitBounds | video_to_gif_converter.py:199-200 | the truncated sizes lie between 0 and the display sizes and one of them equals its display size |
| Preview.VideoPreviewPlayer.constructor | video_to_gif_converter.py:42-67 | a new player holds the initial state and the requested display size |
| Preview.VideoPreviewPlayer.Load | video_to_gif_converter.py:69-98 | `load` updates the fields as `Playback.Load` and raises exactly when the capture did not open |
| Preview.VideoPreviewPlayer.Reopen | video_to_gif_converter.py:75-80 | the release-and-create step updates the fields as `Playback.Replace` |
| Preview.VideoPreviewPlayer.Play | video_to_gif_converter.py:100-106 | `play` updates the fields as `Playback.Play` |
| Preview.VideoPreviewPlayer.Pause | video_to_gif_converter.py:108-113 | `pause` updates the fields as `Playback.Pause` |
| Preview.VideoPreviewPlayer.Stop | video_to_gif_converter.py:115-117 | `stop` is `pause` |
| Preview.VideoPreviewPlayer.Seek | video_to_gif_converter.py:119-138 | `seek` updates the fields as `Playback.Seek` |
| Preview.VideoPreviewPlayer.SeekToTime | video_to_gif_converter.py:140-147 | `seek_to_time` updates the fields as `Playback.SeekToTime` |
| Preview.VideoPreviewPlayer.CurrentDuration | video_to_gif_converter.py:149-157 | the position in seconds is non-negative and times the rate gives the current frame |
| Preview.VideoPreviewPlayer.UpdateFrame | video_to_gif_converter.py:159-180 | `_update_frame` updates the fields as `Playback.Tick` and restores the invariant |
| Preview.VideoPreviewPlayer.Fire | video_to_gif_converter.py:177 | running a pending job updates the fields as `Playback.Fire` |
| Preview.VideoPreviewPlayer.Release | video_to_gif_converter.py:224-229 | `release` updates the fields as `Playback.Release` |
| Controls.ToggleFlag | video_to_gif_converter_enhanced.py:460-472 | with no player nothing changes; otherwise the flag flips and the call is `pause` when playing and `play` when paused |
| Controls.ToggleTwice | video_to_gif_converter.py:713-737 | toggling twice restores the flag, and the two calls are one `play` and one `pause` |
| Controls.SliderTargetInRange | video_to_gif_converter.py:791 | a slider value in [0, 1] targets a frame in [0, frame count] in the original and a second in [0, duration] in the enhanced program |
| Controls.TogglePlayPause | video_to_gif_converter.py:713-737 | `toggle_play_pause` keeps the window's invariant (player invariant; playing only with a player) |
| Controls.SliderPress | video_to_gif_converter.py:753-765 | `on_slider_press` keeps the window's invariant |
| Controls.SliderDrag | video_to_gif_converter.py:767-792 | `on_slider_drag` keeps the window's invariant |
| Controls.SliderDragSeeks | video_to_gif_converter.py:767-792 | with a player, a known duration and the throttle letting it through, the drag seeks the player to `int(value * total_frames)` (clamped on an open capture) and changes nothing else; any other drag changes nothing |
| Controls.SliderRelease | video_to_gif_converter.py:794-826 | `on_slider_release` keeps the window's invariant |
| Controls.Settle | video_to_gif_converter.py:802-826 | the seek-and-resume part of the release keeps the window's invariant |
| Controls.ReleaseEndsDrag | video_to_gif_converter.py:825-826 | `is_seeking` is false after a release on every path |
| Controls.PressReleaseResumes | video_to_gif_converter.py:753-826 | press then release is a suspend/resume pair: during the drag the flag is saved, the window is not playing and the player is paused with no tick pending; afterwards the drag is over, the playing flag is as before the press and `pause_position` is the slider's time |
| Controls.PressSuspends | video_to_gif_converter.py:753-765 | the press, a repeated one included, saves the playing flag, starts the drag and pauses the player (no pending tick) when it was playing |
| Controls.ReleaseResumes | video_to_gif_converter.py:794-826 | the release restores the saved flag, records the slider's time and leaves the player at the frame `int(value * total_frames)`, clamped; after a resume with a successful read it is one frame further |
| Controls.SettleResumes | video_to_gif_converter.py:802-821 | seeking to a frame then resuming exactly when playback was on puts the player at the clamped frame, or one past it when resumed |
| Controls.ToggleRoundTrip | video_to_gif_converter.py:713-737 | pausing with the toggle keeps the frame and records its time in `pause_position`; toggling again resumes from the next frame |
| Controls.FormatTimeOf | video_to_gif_converter.py:864-870 | the original shows "00:00" for `None` and the enhanced program has no such guard (video_to_gif_converter_enhanced.py:495-499); numbers are formatted alike |
| Controls.TimeFields | video_to_gif_converter_enhanced.py:495-499 | for every input the seconds field lies in [0, 59] and minutes * 60 + seconds is the floor of the time |
| Controls.FormatTimeReadsBack | video_to_gif_converter_enhanced.py:495-499 | for a non-negative time the display is zero-padded `MM:SS`, five characters below 100 minutes, and reads back as the whole number of seconds |
| Controls.StartPointOriginal | video_to_gif_converter.py:872-888 | a start point is written exactly when there is a player and the position is not negative; it is the whole part of the position |
| Controls.EndPointOriginal | video_to_gif_converter.py:890-911 | an end trim is written exactly when there is a player, the duration is non-zero and the position lies in [0, duration]; it is the whole part of `duration - position` and never negative |
| Controls.EndPointVariants | video_to_gif_converter_enhanced.py:514-526 | inside the video both programs write the same end trim; a position a second or more past the end makes the enhanced program write a negative trim where the original writes nothing |
| LogView.InsertKeepsBound | video_to_gif_converter.py:913-924 | an insert keeps the counter in [0, 500] and at most the number of text lines; it counts one more, or 99 fewer when it passes 500; the pane keeps a suffix of the old lines followed by the new text's lines, dropping at most 100 |
| LogView.SingleLineCounts | video_to_gif_converter.py:913-921 | while every message is a single line the counter equals the number of lines |
| LogView.LogLineBlank | video_to_gif_converter.py:926-938 | `log_line` ignores a whitespace-only line and inserts any other |
| LogView.LogBuffer.constructor | video_to_gif_converter.py:661-662 | the pane starts empty with the counter at 0 |
| LogView.LogBuffer.Log | video_to_gif_converter.py:913-924 | `log` updates the pane as `AfterLog` and keeps the bound |
| LogView.LogBuffer.LogLine | video_to_gif_converter.py:926-938 | `log_line` updates the pane as `AfterLogLine` and keeps the bound |
| LogView.LogBuffer.AppendText | video_to_gif_converter_enhanced.py:528-552 | the insert, count and trim shared by `log` and `log_line` |
| LogView.LogBuffer.Clear | video_to_gif_converter.py:1021-1022 | starting a conversion empties the pane and resets the counter |
| Markers.SkipSpaces | video_to_gif_converter.py:964 | `\s*` consumes exactly the run of whitespace |
| Markers.SearchFindsFirst | video_to_gif_converter.py:964-965 | `re.search` finds a marker exactly when some position matches, and returns the value at the leftmost matching position |
| Markers.ClockRoundTrip | video_to_gif_converter.py:968-972 | reading a printed `HH:MM:SS.ff` clock gives back the exact time in hundredths, wherever it stands |
| Markers.DurationLineParses | video_to_gif_converter_enhanced.py:577-586 | a probe whose output starts with `Duration: HH:MM:SS.ff` yields that duration |
| Markers.TimeLineParses | video_to_gif_converter.py:1116-1121 | a progress line `time=HH:MM:SS.ff ...` yields that time |
| Markers.NoMarkerInShortLine | video_to_gif_converter.py:1116-1117 | a line shorter than the marker has no `time=` match |
| Markers.ProbeOutcome | video_to_gif_converter_enhanced.py:577-598 | the probe returns a value exactly when the encoder ran and printed the marker; the value is non-negative, is the first marker's value and becomes the duration; otherwise the duration is unchanged |
| Pipeline.TrimValue | video_to_gif_converter.py:1032-1041 | a trim field reads as its number, and as 0 when empty or unparsable |
| Pipeline.TrimWindowSound | video_to_gif_converter.py:1044-1073 | an accepted window starts at 0 or later and no earlier than the start trim, has positive length and ends `skip_end` before the known end (or `-skip_end` after 0); it is accepted exactly when the trims leave room or, with the length unknown, no start trim is set and the end trim is negative; a positive trim with an unknown length is refused as such |
| Pipeline.UnknownDurationRefused | video_to_gif_converter_enhanced.py:658-689 | with an unknown length the job goes ahead exactly when the start trim is not positive and the end trim is negative; with no trims it is refused as the range `(0, 0, 0, 0)` |
| Pipeline.TrimWindowExamples | video_to_gif_converter.py:1060-1073 | trimming 10 s and 20 s from 100 s encodes 10 to 80 (70 s); 60 s and 50 s are refused with effective length -10; a negative start trim starts at 0; in the 70 s window an encoder clock of `00:00:35.00` reads as 50 % |
| Pipeline.LastIndexOf | video_to_gif_converter.py:1005-1006 | the last separator: found at the index returned and nowhere after it |
| Pipeline.StemSuffix | video_to_gif_converter.py:1005-1006 | a name is its stem followed by its suffix; the suffix is empty or a dot and at least one non-dot character |
| Pipeline.PathSplits | video_to_gif_converter.py:1005-1006 | a path is its directory (empty or ending in `/`) followed by a name without `/` |
| Pipeline.JoinSplits | video_to_gif_converter.py:1005-1006 | joining a directory and a name splits back into the same two parts |
| Pipeline.StemOfGif | video_to_gif_converter.py:1006 | the stem of `s.gif` is `s` and its suffix `.gif` |
| Pipeline.OutputPathParts | video_to_gif_converter_enhanced.py:619-620 | the output lies in the input's directory and is named the input's stem plus `.gif` |
| Pipeline.OutputPathIdempotent | video_to_gif_converter.py:1005-1006 | for an input with a name, the output's suffix is `.gif`, it keeps the input's stem, and deriving the output of an output changes nothing |
| Pipeline.OutputOverwritesGif | video_to_gif_converter.py:1005-1006 | the output path equals the input path exactly when the input already ends in `.gif`: converting a GIF overwrites it |
| Pipeline.GifIsOwnOutput | video_to_gif_converter.py:1005-1006 | an input named `*.gif` is its own output path |
| Pipeline.EncoderArgsReadBack | video_to_gif_converter.py:1080-1088 | the argument list encodes the program, `-ss` start, `-to` end, input, filter graph, `-y` and output so that reading it back gives exactly that job, and no other list reads as it |
| Pipeline.ProgressAt | video_to_gif_converter.py:1117-1123 | the progress for a `time=` value lies in [0, 100] |
| Pipeline.ReadLines | video_to_gif_converter.py:1110-1116 | each stderr line is read as its stripped text and `time=` value, one per line |
| Pipeline.ConsumeLine | video_to_gif_converter.py:1110-1127 | one pass of the loop body posts the line's events and leaves `last_progress` as the stream function says |
| Pipeline.PostLine | video_to_gif_converter.py:1113-1127 | the line is posted unless empty, then the progress value when it moved by more than 0.5 |
| Pipeline.ConsumeStderr | video_to_gif_converter.py:1107-1127 | the loop over stderr, starting at `last_progress = -1`, posts exactly the stream's events |
| Pipeline.LogsInOrder | video_to_gif_converter.py:1110-1114 | every non-empty stripped line is posted to the log, in input order, and nothing else is |
| Pipeline.EmittedFacts | video_to_gif_converter.py:1116-1127 | a value is sent only when it moved by more than 0.5 from the last one; it lies in [0, 100] and becomes the last value |
| Pipeline.ProgressSpaced | video_to_gif_converter.py:1107-1127 | every progress value sent lies in [0, 100] and differs by more than 0.5 from the value sent before it |
| Pipeline.FirstMarkerSent | video_to_gif_converter_enhanced.py:721-741 | starting below -0.5 with a positive length, progress is sent exactly when some line has a `time=` value, and the first value sent is the first such line's |
| Pipeline.FirstMarker | video_to_gif_converter.py:1116-1117 | the first line holding a `time=` value, or none holds one |
| Pipeline.ReadProgressLine | video_to_gif_converter.py:1110-1116 | an encoder progress line reads as itself with its time |
| Pipeline.CoalescingExample | video_to_gif_converter.py:1123-1127 | over 100 s, lines at 49.70, 50.10 and 51.00 s send 49.7 and 51.0: the middle value is within 0.5 and is held back |
| Pipeline.Outcome | video_to_gif_converter.py:1129-1134 | success exactly when the exit code is 0 and the output file exists; any other exit fails with its code |
| Pipeline.Verdict | video_to_gif_converter.py:1129-1137 | the worker's last event is a verdict; it is a completion exactly when the encoder exited with 0 and the output exists |
| Pipeline.ConvertVideo | video_to_gif_converter.py:1029-1137 | the worker, step by step, produces the command and events of `Convert` |
| Pipeline.CheckTrim | video_to_gif_converter.py:1032-1073 | the trim checks produce the warning and the window (or refusal) of `Warning` and `TrimWindow` |
| Pipeline.StartEncoder | video_to_gif_converter.py:1075-1134 | an accepted window is logged, the encoder is started with that window's arguments and followed to its verdict |
| Pipeline.RunEncoder | video_to_gif_converter.py:1090-1137 | the stderr events, then the exception's message or the exit verdict |
| Pipeline.EventsNotTerminal | video_to_gif_converter.py:1107-1127 | the stderr loop posts only log lines and progress values, never a verdict |
| Pipeline.AssembleEndsOnce | video_to_gif_converter.py:1044-1137 | every job ends with exactly one verdict, as its last event: the refusal for a refused window, the encoder's verdict otherwise |
| Pipeline.ConvertEndsOnce | video_to_gif_converter_enhanced.py:643-751 | every run ends in exactly one of `conversion_complete` and `conversion_failed`; it completes exactly when the window was accepted, the encoder exited with 0 and the output exists; any other exit fails with its code |
| Pipeline.AssembleStreams | video_to_gif_converter.py:1060-1127 | the encoder is started exactly for an accepted window, with that window's arguments; the job's log lines and progress values are the stderr loop's; a refused job sends neither |
| Pipeline.ConvertStreams | video_to_gif_converter.py:1029-1137 | the encoder is started exactly for an accepted window, with its arguments; then the log gets the non-empty stripped lines in order, and each progress value is in [0, 100] and more than 0.5 from the previous one; a refused job sends neither |
| Pipeline.NotesOnly | video_to_gif_converter.py:1075-1077 | worker notes and verdicts carry no log line and no progress value |
| Pipeline.WarnsWhenUnknown | video_to_gif_converter.py:1054-1056 | with an unknown length and no trim, the one note before the window check is the warning |
| Pipeline.UnknownDurationNeverEncodes | video_to_gif_converter.py:1044-1073 | with an unknown length and empty trim fields the worker warns and then refuses the range `(0, 0, 0, 0)`: the encoder is never started |
| Session.Started | video_to_gif_converter.py:1014-1022 | after `start_conversion` the window is converting, the bar is at 0 and the log is empty |
| Session.ReplaySplit | video_to_gif_converter.py:1139-1181 | the callbacks for two runs of events are the callbacks for the first, then for the second |
| Session.ApplyKeepsBound | video_to_gif_converter.py:1139-1181 | every callback keeps the log within its bound |
| Session.ReplayKeepsBound | video_to_gif_converter.py:1139-1181 | any number of callbacks keep the log within its bound |
| Session.ReplayWhileRunning | video_to_gif_converter.py:1145-1171 | only `conversion_complete` and `conversion_failed` end the conversion |
| Session.ReplayKeepsBar | video_to_gif_converter.py:1139-1147 | progress values in [0, 100] keep the bar in [0, 1] |
| Session.SessionEnds | video_to_gif_converter.py:1139-1181 | a stream that ends in its only verdict leaves the window converting until that verdict and not converting after it; the log stays bounded, the bar stays in [0, 1] and is full after a success |
| Session.ConversionSession | video_to_gif_converter.py:991-1181 | a whole conversion, from `start_conversion` on: converting until the last callback, which ends it; log bounded; bar in [0, 1] and full after a success |
| Session.JobEndsOnce | video_to_gif_converter.py:1044-1137 | every job's events end in exactly one verdict and carry progress values in [0, 100] |
| Converter.Entry | video_to_gif_converter.py:881-883 | a trim field a handler wrote reads back as the whole seconds written; otherwise it keeps its contents |
| Converter.ConversionPane.constructor | video_to_gif_converter.py:236-275 | the pane starts idle with an empty log |
| Converter.ConversionPane.Start | video_to_gif_converter.py:1014-1022 | the pane after `start_conversion`: converting, bar at 0, log emptied |
| Converter.ConversionPane.UpdateConversionProgress | video_to_gif_converter.py:1139-1143 | the bar is set to `progress / 100` and nothing else changes |
| Converter.ConversionPane.ConversionComplete | video_to_gif_converter.py:1145-1149 | the bar is full, the message is logged and the conversion has ended |
| Converter.ConversionPane.ConversionFailed | video_to_gif_converter.py:1168-1171 | the message is logged and the conversion has ended; the bar is unchanged |
| Converter.ConversionPane.Deliver | video_to_gif_converter.py:1139-1181 | one callback updates the pane as `Session.Apply` |
| Converter.ConversionPane.DeliverAll | video_to_gif_converter.py:1107-1137 | running the worker's callbacks in order updates the pane as `Session.Replay` |
| Converter.ConverterWindow.constructor | video_to_gif_converter.py:236-275 | nothing selected, no output path, nothing playing, duration 0, both trim fields holding "0" (video_to_gif_converter.py:562, 585), an idle pane; a fresh 860 by 216 preview player exists when the preview is available (video_to_gif_converter.py:430-437) |
| Converter.ConverterWindow.TogglePlayPause | video_to_gif_converter.py:713-737 | the flags and the player move as `Controls.TogglePlayPause`; trim fields and files are untouched |
| Converter.ConverterWindow.OnSliderPress | video_to_gif_converter.py:753-765 | the flags and the player move as `Controls.SliderPress`; files, trim fields and the encoder flag are untouched |
| Converter.ConverterWindow.OnSliderDrag | video_to_gif_converter.py:767-792 | the player moves as `Controls.SliderDrag` |
| Converter.ConverterWindow.OnSliderRelease | video_to_gif_converter.py:794-826 | the flags and the player move as `Controls.SliderRelease`; files, trim fields and the encoder flag are untouched |
| Converter.ConverterWindow.SetStartPoint | video_to_gif_converter.py:872-888 | the start field holds what `Controls.SetStartPoint` writes for the player's position; nothing else changes |
| Converter.ConverterWindow.SetEndPoint | video_to_gif_converter.py:890-911 | the end field holds what `Controls.SetEndPoint` writes for the player's position; nothing else changes |
| Converter.ConverterWindow.SelectFile | video_to_gif_converter.py:664-690 | a cancelled dialog changes nothing; a chosen file becomes the input, is loaded into the preview player when there is one, and the probe then sets the duration from what the load left; the playback and drag flags, the output path, the trim fields and the encoder flag are untouched |
| Converter.ConverterWindow.OnVideoEnd | video_to_gif_converter.py:854-862 | the window's playing flag is cleared and nothing else of the window or its player changes |
| Converter.ConverterWindow.LoadVideoPreview | video_to_gif_converter.py:692-711 | the player loads as `Playback.Load`; a positive length it reports becomes the window's duration, otherwise the duration is kept; the flags, files, trim fields and encoder flag are untouched |
| Converter.ConverterWindow.GetVideoDuration | video_to_gif_converter.py:940-989 | the duration and the returned value are those of `Markers.GetVideoDuration`; the player, flags, files, trim fields and encoder flag are untouched |
| Converter.ConverterWindow.StartConversion | video_to_gif_converter.py:991-1027 | refused exactly without an encoder or an input file; otherwise playback is paused through the toggle, the output path is derived from the input, the window is converting, the bar reset and the log emptied; the input, trim fields and encoder flag are untouched |
| Converter.ConverterWindow.Conversion | video_to_gif_converter.py:1029-1181 | the worker runs on the window's input, output, duration and trim fields, and the pane ends as its callbacks replayed in order |
| Converter.EnhancedWindow.constructor | video_to_gif_converter_enhanced.py:30-66 | nothing playing, duration 0, both trim fields holding "0" (video_to_gif_converter_enhanced.py:318, 341), no call made; the player widget exists when the preview is available |
| Converter.EnhancedWindow.TogglePlayPause | video_to_gif_converter_enhanced.py:460-472 | the flag flips and the matching `play` or `pause` call is made, when there is a player; the trim fields and duration are untouched |
| Converter.EnhancedWindow.SeekVideo | video_to_gif_converter_enhanced.py:474-478 | with a player and a positive duration, one seek to the second `int(value * duration)`; otherwise no call; flags, duration and trim fields are untouched |
| Converter.EnhancedWindow.SetStartPoint | video_to_gif_converter_enhanced.py:501-512 | the start field holds the whole seconds of any position, when there is a player; nothing else changes |
| Converter.EnhancedWindow.SetEndPoint | video_to_gif_converter_enhanced.py:514-526 | the end field holds `int(duration - position)`, negative or not, unless there is no player or the duration is 0; nothing else changes |

## Left out

- The widgets, layout, `messagebox`, `filedialog`, `os.startfile` and canvas drawing calls are presentation only. The GUI's button enabling and labels are not modelled.
- Decoding with OpenCV and PIL is not modelled. Whether a capture opens and whether a read succeeds are boolean parameters (`didOpen`, `readOk`). The reported rate and frame count are parameters too.
- The enhanced program's player widget (`TkinterVideo`) lives in a library that is not part of this model. `Converter.EnhancedWindow` records the calls made on it. The enhanced `load_video_preview` only loads the widget and logs, so it is not modelled.
- Launching the encoder (`subprocess`), `detect_ffmpeg` and `os.path.exists` are outside this model. The launch outcome, the stderr lines, the exit code and whether the output exists are inputs (`Pipeline.Launch`). The probe's output is a parameter of `get_video_duration`.
- The worker thread and the `root.after` marshalling are not modelled. The worker is a function from its inputs to the event sequence it posts. The window runs those callbacks in order, after `start_conversion` (`Session`, `Converter.ConversionPane.DeliverAll`).
- The 50 ms drag throttle reads the wall clock. It is the boolean parameter `throttled` of `Controls.SliderDrag`.
- The 100 ms readback timers (`start_video_progress_update`, `start_progress_update`) are not modelled. They move the slider and the time label. The original's timer also decides when to call `on_video_end`, which clears `is_playing` (`Converter.ConverterWindow.OnVideoEnd`). The model does not call it by itself. So after the preview plays to its end on its own (`Playback.ChainDrains`), the window's `isPlaying` stays set until `OnVideoEnd` runs. The slider and label updates of `on_video_end` are not modelled.
- Number rendering is not modelled: `str(float)` in the encoder arguments is the `Number` argument, and `:.2f` and `:.1f` are not modelled. The texts the window logs for worker notes and verdicts come from a `say` parameter.
- `select_file`'s file label, button state and log message are not modelled.
- The handlers' own log messages are not modelled. These are the messages of toggle, slider release, set points, `select_file`, `load_video_preview` and `get_video_duration`.
- Converter.ConverterWindow.TogglePlayPause: the exception-recovery branch is not modelled, because it needs a library exception (video_to_gif_converter.py:739-751).
- Controls.SliderDrag and Converter.ConverterWindow.OnSliderDrag: leave out the time label update.
- Python's `float()` on a trim field is not modelled as a parser. A field is `Parsed(x)`, `Empty` or `Unparsable`, and the last reads as 0. `validate_number` is left out.
- `\d` in the two marker patterns is taken as the ASCII digits `0-9` (`Base.IsDigit`). Python's `\d` on text also matches other Unicode decimal digits, and `int()` and `float()` read them. The encoder prints ASCII digits. `Markers.SearchFindsFirst` is about this ASCII matcher.
- Floating point is modelled as exact reals. Rounding, NaN and infinities are left out. The clocks read from the encoder are exact hundredths.
- `total_duration` is a real and is never `None`, so the `is None` half of the unknown-duration test (video_to_gif_converter.py:1044) is covered by `<= 0`.
- Paths use `/` as their only separator. Windows drive letters and `\` are not modelled. `Path`'s normalisation is not modelled either: it drops `.` components, repeated separators and a trailing separator. For `a/` the program derives `a.gif`, while `Pipeline.OutputPath` gives `a/.gif`. The output-path lemmas hold for paths already in normal form.
- Controls.PressReleaseResumes: states the flags and the player's pause during the drag. The frame reached after the release is stated by `Controls.ReleaseResumes`, not by the composite lemma.
- Playback.Seek, Playback.Load, Playback.Tick and Playback.Play: state only that they keep the invariant. What they compute is stated by the lemmas beside them (`SeekClamps`, `LoadOpens`, `LoadFails`, `TickIdle`, `TickAdvances`, `TickReadFails`, `PlayAdvances`).
