/** The converter windows as objects. `ConverterWindow` is the original
    program's `ModernGifConverter`: it owns a frame-indexed preview player,
    the playback flags, the trim fields, the log pane and the conversion
    state, and each handler is proved to move that state exactly as the
    matching function of `Controls`, `Markers`, `Pipeline` or `Session`
    does. `EnhancedWindow` is the enhanced program's window, whose player
    is an outside widget: the model records the calls made on it. */
module Converter {
  import opened Base
  import Playback
  import opened Preview
  import Controls
  import opened LogView
  import Markers
  import Pipeline
  import Session

  /** A trim field after the handler that may write into it: the whole
      seconds `str(int(...))` it wrote, read back by `float()`, or the old
      contents when it wrote nothing. */
  function Entry(before: Pipeline.TrimField, written: Option<int>): (f: Pipeline.TrimField)
    ensures written.Some? ==> Pipeline.TrimValue(f) == written.value as real
    ensures written.None? ==> f == before
  {
    match written
    case Some(n) => Pipeline.Parsed(n as real)
    case None => before
  }

  /** The conversion part of the window: the progress bar (in [0, 1]),
      the `is_converting` flag and the log pane, which the worker's
      callbacks update. */
  class ConversionPane {
    var progress: real
    var isConverting: bool
    const log: LogBuffer

    ghost function Shown(): Session.Ui
      reads this, log
    {
      Session.Ui(log.State(), progress, isConverting)
    }

    ghost predicate Valid()
      reads this, log
    {
      log.Valid()
    }

    constructor ()
      ensures Valid() && fresh(log) && !isConverting && log.State() == LogState([], 0)
    {
      progress, isConverting := 0.0, false;
      log := new LogBuffer();
    }

    /** The part of `start_conversion` that resets the pane: converting, bar
        at 0, log emptied and its counter reset. */
    method Start()
      modifies this, log
      ensures Valid() && Shown() == Session.Started()
    {
      isConverting := true;
      progress := 0.0;
      log.Clear();
    }

    /** `update_conversion_progress(p)`. */
    method UpdateConversionProgress(p: real)
      modifies this
      ensures Shown() == old(Shown()).(progress := p / 100.0)
    {
      progress := p / 100.0;
    }

    /** `conversion_complete`, which logs `message`. */
    method ConversionComplete(message: string)
      requires Valid()
      modifies this, log
      ensures Valid()
      ensures Shown() == old(Shown()).(progress := 1.0, log := AfterLog(old(log.State()), message),
                                       isConverting := false)
    {
      UpdateConversionProgress(100.0);
      log.Log(message);
      isConverting := false;
    }

    /** `conversion_failed`, which logs `message`. */
    method ConversionFailed(message: string)
      requires Valid()
      modifies this, log
      ensures Valid()
      ensures Shown() == old(Shown()).(log := AfterLog(old(log.State()), message), isConverting := false)
    {
      log.Log(message);
      isConverting := false;
    }

    /** The callback for one event of the worker. */
    method Deliver(e: Pipeline.Event, say: Pipeline.Event -> string)
      requires Valid()
      modifies this, log
      ensures Valid()
      ensures Shown() == Session.Apply(old(Shown()), e, say)
    {
      match e {
        case Logged(_) => log.Log(say(e));
        case LogLine(text) => log.LogLine(text);
        case Progress(p) => UpdateConversionProgress(p);
        case Completed => ConversionComplete(say(e));
        case Failed(_) => ConversionFailed(say(e));
      }
    }

    /** The event loop running the worker's callbacks, in order. */
    method DeliverAll(events: seq<Pipeline.Event>, say: Pipeline.Event -> string)
      requires Valid()
      modifies this, log
      ensures Valid()
      ensures Shown() == Session.Replay(old(Shown()), events, say)
    {
      ghost var start := Shown();
      var i := 0;
      while i < |events|
        invariant 0 <= i <= |events| && Valid()
        invariant Shown() == Session.Replay(start, events[..i], say)
      {
        Session.ReplaySplit(start, events[..i], [events[i]], say);
        assert events[..i + 1] == events[..i] + [events[i]];
        Deliver(events[i], say);
        i := i + 1;
      }
      assert events[..i] == events;
    }
  }

  class ConverterWindow {
    var player: VideoPreviewPlayer?
    var isPlaying: bool
    var isSeeking: bool
    var wasPlayingBeforeSeek: bool
    var pausePosition: real
    var totalDuration: real
    var skipStart: Pipeline.TrimField
    var skipEnd: Pipeline.TrimField
    var inputFile: string      // "" while no file is selected
    var outputFile: string
    var ffmpegFound: bool
    const pane: ConversionPane

    /** The playback flags and the player's state. */
    ghost function Gui(): Controls.Gui
      reads this, player
    {
      Controls.Gui(isPlaying, isSeeking, wasPlayingBeforeSeek, pausePosition, totalDuration,
                   if player == null then None else Some(player.State()))
    }

    ghost predicate Valid()
      reads this, player, pane, pane.log
    {
      Controls.GuiInv(Gui()) && pane.Valid()
    }

    /** `__init__`: nothing selected, nothing playing, duration 0, both
        trim fields holding "0"; the 860 by 216 preview player exists when
        the preview is available. */
    constructor (previewAvailable: bool, encoderFound: bool)
      ensures Valid() && fresh(pane) && fresh(pane.log)
      ensures (player != null) == previewAvailable
      ensures player != null ==> fresh(player) && player.State() == Playback.Initial()
                                 && player.displayWidth == 860 && player.displayHeight == 216
      ensures !isPlaying && !isSeeking && !wasPlayingBeforeSeek && pausePosition == 0.0
      ensures totalDuration == 0.0 && inputFile == [] && outputFile == [] && ffmpegFound == encoderFound
      ensures skipStart == Pipeline.Parsed(0.0) && skipEnd == Pipeline.Parsed(0.0)
      ensures !pane.isConverting && pane.log.State() == LogState([], 0)
    {
      if previewAvailable {
        player := new VideoPreviewPlayer(860, 216);
      } else {
        player := null;
      }
      isPlaying, isSeeking, wasPlayingBeforeSeek := false, false, false;
      pausePosition, totalDuration := 0.0, 0.0;
      skipStart, skipEnd := Pipeline.Parsed(0.0), Pipeline.Parsed(0.0);
      inputFile, outputFile := [], [];
      ffmpegFound := encoderFound;
      pane := new ConversionPane();
    }

    /** `toggle_play_pause`. */
    method TogglePlayPause(readOk: bool)
      requires Valid()
      modifies this, player
      ensures Valid() && player == old(player)
      ensures Gui() == Controls.TogglePlayPause(old(Gui()), readOk)
      ensures skipStart == old(skipStart) && skipEnd == old(skipEnd)
      ensures inputFile == old(inputFile) && outputFile == old(outputFile) && ffmpegFound == old(ffmpegFound)
    {
      if player == null {
        return;
      }
      if isPlaying {
        pausePosition := player.CurrentDuration();
        player.Pause();
        isPlaying := false;
      } else {
        player.Play(readOk);
        isPlaying := true;
      }
    }

    /** `on_slider_press`. */
    method OnSliderPress()
      requires Valid()
      modifies this, player
      ensures Valid() && player == old(player)
      ensures Gui() == Controls.SliderPress(old(Gui()))
      ensures FieldsAre(old(inputFile), old(outputFile), old(skipStart), old(skipEnd), old(ffmpegFound))
    {
      isSeeking := true;
      wasPlayingBeforeSeek := isPlaying;
      if isPlaying {
        pausePosition := player.CurrentDuration();
        player.Pause();
        isPlaying := false;
      }
    }

    /** `on_slider_drag` at slider value `value`; `throttled` is the 50 ms
        throttle's verdict. */
    method OnSliderDrag(value: real, throttled: bool)
      requires Valid()
      modifies player
      ensures Valid()
      ensures Gui() == Controls.SliderDrag(old(Gui()), value, throttled)
    {
      ghost var g := Gui();
      if totalDuration > 0.0 && player != null {
        if throttled {
          return;
        }
        var frame := Trunc(value * player.totalFrames as real);
        ghost var target := Controls.SliderTarget(Controls.Original, true, value, totalDuration, player.totalFrames);
        assert target.Some? && target.value == frame;
        player.Seek(frame);
        assert Gui() == g.(player := Some(Playback.Seek(g.player.value, frame)));
      }
    }

    /** `on_slider_release` at slider value `value`. */
    method OnSliderRelease(value: real, readOk: bool)
      requires Valid()
      modifies this, player
      ensures Valid() && player == old(player)
      ensures Gui() == Controls.SliderRelease(old(Gui()), value, readOk)
      ensures FieldsAre(old(inputFile), old(outputFile), old(skipStart), old(skipEnd), old(ffmpegFound))
    {
      if player != null && totalDuration > 0.0 {
        var seekTime := value * totalDuration;
        var frame := Trunc(value * player.totalFrames as real);
        ghost var target := Controls.SliderTarget(Controls.Original, true, value, totalDuration, player.totalFrames);
        assert target.Some? && target.value == frame;
        player.Seek(frame);
        pausePosition := seekTime;
        if wasPlayingBeforeSeek {
          player.Play(readOk);
          isPlaying := true;
        } else {
          isPlaying := false;
        }
      }
      isSeeking := false;
    }

    /** `on_video_end`, which the readback timer calls once the position
        is within half a second of the end: the window stops believing it
        plays; the player itself is left alone. */
    method OnVideoEnd()
      requires Valid()
      modifies this
      ensures Valid() && player == old(player) && Gui() == old(Gui()).(isPlaying := false)
      ensures FieldsAre(old(inputFile), old(outputFile), old(skipStart), old(skipEnd), old(ffmpegFound))
    {
      isPlaying := false;
    }

    /** `set_start_point`: the whole seconds of the player's position go
        into the skip-start field when the position is not negative. */
    method SetStartPoint()
      requires Valid()
      modifies this
      ensures Valid() && player == old(player) && Gui() == old(Gui())
      ensures FieldsAre(old(inputFile), old(outputFile), skipStart, old(skipEnd), old(ffmpegFound))
      ensures skipStart == Entry(old(skipStart), Controls.SetStartPoint(Controls.Original, player != null,
                                   if player == null then 0.0 else player.CurrentDuration()))
    {
      if player == null {
        return;
      }
      var current := player.CurrentDuration();
      if current >= 0.0 {
        skipStart := Pipeline.Parsed(Trunc(current) as real);
      }
    }

    /** `set_end_point`: the whole seconds between the player's position and
        the end go into the skip-end field when the position is inside the
        video. */
    method SetEndPoint()
      requires Valid()
      modifies this
      ensures Valid() && player == old(player) && Gui() == old(Gui())
      ensures FieldsAre(old(inputFile), old(outputFile), old(skipStart), skipEnd, old(ffmpegFound))
      ensures skipEnd == Entry(old(skipEnd), Controls.SetEndPoint(Controls.Original, player != null, totalDuration,
                                 if player == null then 0.0 else player.CurrentDuration()))
    {
      if player == null || totalDuration == 0.0 {
        return;
      }
      var current := player.CurrentDuration();
      if current >= 0.0 {
        var rest := totalDuration - current;
        if rest >= 0.0 {
          skipEnd := Pipeline.Parsed(Trunc(rest) as real);
        }
      }
    }

    /** `load_video_preview` after a file was chosen: load it into the
        player and, when the player reports a positive length, take it as
        the video's duration. */
    method LoadVideoPreview(didOpen: bool, reportedFps: real, reportedFrames: int)
      requires Valid() && player != null
      modifies this, player
      ensures Valid() && player == old(player)
      ensures player.State() == Playback.Load(old(player.State()), didOpen, reportedFps, reportedFrames)
      ensures totalDuration == if didOpen && player.duration > 0.0 then player.duration else old(totalDuration)
      ensures FlagsAre(old(isPlaying), old(isSeeking), old(wasPlayingBeforeSeek), old(pausePosition))
      ensures FieldsAre(old(inputFile), old(outputFile), old(skipStart), old(skipEnd), old(ffmpegFound))
    {
      var raised := player.Load(didOpen, reportedFps, reportedFrames);
      if raised {
        return;
      }
      if player.duration > 0.0 {
        totalDuration := player.duration;
      }
    }

    /** `get_video_duration`, given what the encoder printed (None when it
        could not be run). */
    method GetVideoDuration(output: Option<string>) returns (duration: Option<real>)
      requires Valid()
      modifies this
      ensures Valid() && player == old(player)
      ensures FlagsAre(old(isPlaying), old(isSeeking), old(wasPlayingBeforeSeek), old(pausePosition))
      ensures FieldsAre(old(inputFile), old(outputFile), old(skipStart), old(skipEnd), old(ffmpegFound))
      ensures Markers.Probed(totalDuration, duration)
        == Markers.GetVideoDuration(ffmpegFound, output, old(totalDuration))
    {
      if !ffmpegFound || output.None? {
        return None;
      }
      match Markers.DurationIn(output.value) {
        case Some(t) =>
          totalDuration := Markers.Seconds(t);
          duration := Some(totalDuration);
        case None =>
          duration := None;
      }
    }

    /** The file fields, trim fields and encoder flag are as given. */
    ghost predicate FieldsAre(inputFile0: string, outputFile0: string, skipStart0: Pipeline.TrimField,
                              skipEnd0: Pipeline.TrimField, ffmpegFound0: bool)
      reads this
    {
      inputFile == inputFile0 && outputFile == outputFile0 && skipStart == skipStart0
      && skipEnd == skipEnd0 && ffmpegFound == ffmpegFound0
    }

    /** The playback and drag flags are as given. */
    ghost predicate FlagsAre(isPlaying0: bool, isSeeking0: bool, wasPlayingBeforeSeek0: bool, pausePosition0: real)
      reads this
    {
      isPlaying == isPlaying0 && isSeeking == isSeeking0 && wasPlayingBeforeSeek == wasPlayingBeforeSeek0
      && pausePosition == pausePosition0
    }

    /** `select_file` once the dialog returned `filename` (empty when it was
        cancelled): record the file, load it into the preview player when
        there is one, then probe its duration with the encoder. */
    method SelectFile(filename: string, didOpen: bool, reportedFps: real, reportedFrames: int,
                      probeOutput: Option<string>)
      requires Valid()
      modifies this, player
      ensures Valid() && player == old(player)
      ensures FlagsAre(old(isPlaying), old(isSeeking), old(wasPlayingBeforeSeek), old(pausePosition))
      ensures FieldsAre(if filename == [] then old(inputFile) else filename, old(outputFile), old(skipStart),
                        old(skipEnd), old(ffmpegFound))
      ensures filename == [] ==> inputFile == old(inputFile) && totalDuration == old(totalDuration)
                                 && (player != null ==> player.State() == old(player.State()))
      ensures filename != [] && player != null ==>
        player.State() == Playback.Load(old(player.State()), didOpen, reportedFps, reportedFrames)
      ensures filename != [] ==>
        var loaded := if player != null && didOpen && player.duration > 0.0 then player.duration
                      else old(totalDuration);
        totalDuration == Markers.GetVideoDuration(ffmpegFound, probeOutput, loaded).totalDuration
    {
      if filename == [] {
        return;
      }
      inputFile := filename;
      if player != null {
        LoadVideoPreview(didOpen, reportedFps, reportedFrames);
      }
      var _ := GetVideoDuration(probeOutput);
    }

    /** `start_conversion`: refused without an encoder or an input file;
        otherwise pause the preview, derive the output path, mark the
        window as converting, reset the bar and empty the log. */
    method StartConversion() returns (started: bool)
      requires Valid()
      modifies this, player, pane, pane.log
      ensures Valid() && player == old(player)
      ensures started <==> old(ffmpegFound) && old(inputFile) != []
      ensures !started ==> Gui() == old(Gui()) && pane.Shown() == old(pane.Shown()) && outputFile == old(outputFile)
      ensures started ==> pane.Shown() == Session.Started() && !isPlaying
                          && outputFile == Pipeline.OutputPath(inputFile)
                          && Gui() == (if old(isPlaying) then Controls.TogglePlayPause(old(Gui()), true) else old(Gui()))
      ensures inputFile == old(inputFile) && skipStart == old(skipStart) && skipEnd == old(skipEnd)
      ensures ffmpegFound == old(ffmpegFound)
    {
      if !ffmpegFound || inputFile == [] {
        return false;
      }
      if isPlaying {
        TogglePlayPause(true);
      }
      outputFile := Pipeline.OutputPath(inputFile);
      pane.Start();
      started := true;
    }

    /** `convert_video` on the window's fields, then the event loop running
        the callbacks it produced, in order. */
    method Conversion(program: string, launch: Pipeline.Launch, say: Pipeline.Event -> string)
      returns (job: Pipeline.Job)
      requires Valid()
      modifies pane, pane.log
      ensures Valid()
      ensures job == Pipeline.Convert(program, inputFile, outputFile, totalDuration, skipStart, skipEnd, launch)
      ensures pane.Shown() == Session.Replay(old(pane.Shown()), job.events, say)
    {
      job := Pipeline.ConvertVideo(program, inputFile, outputFile, totalDuration, skipStart, skipEnd, launch);
      pane.DeliverAll(job.events, say);
    }
  }

  /** A call the enhanced window makes on its player widget. */
  datatype Call = Command(command: Controls.Command) | SeekSecond(second: int)

  class EnhancedWindow {
    var hasPlayer: bool
    var isPlaying: bool
    var totalDuration: real
    var calls: seq<Call>
    var skipStart: Pipeline.TrimField
    var skipEnd: Pipeline.TrimField

    /** `__init__`: nothing playing, duration 0, both trim fields holding
        "0", no call made yet; the player widget exists when the preview is
        available. */
    constructor (previewAvailable: bool)
      ensures hasPlayer == previewAvailable && !isPlaying && totalDuration == 0.0 && calls == []
      ensures skipStart == Pipeline.Parsed(0.0) && skipEnd == Pipeline.Parsed(0.0)
    {
      hasPlayer, isPlaying, totalDuration, calls := previewAvailable, false, 0.0, [];
      skipStart, skipEnd := Pipeline.Parsed(0.0), Pipeline.Parsed(0.0);
    }

    /** `toggle_play_pause`: flip the flag and make the matching call. */
    method TogglePlayPause()
      modifies this
      ensures var t := Controls.ToggleFlag(hasPlayer, old(isPlaying));
        isPlaying == t.isPlaying
        && calls == if t.command.Some? then old(calls) + [Command(t.command.value)] else old(calls)
      ensures hasPlayer == old(hasPlayer) && totalDuration == old(totalDuration)
      ensures skipStart == old(skipStart) && skipEnd == old(skipEnd)
    {
      if !hasPlayer {
        return;
      }
      if isPlaying {
        calls := calls + [Command(Controls.PauseCommand)];
        isPlaying := false;
      } else {
        calls := calls + [Command(Controls.PlayCommand)];
        isPlaying := true;
      }
    }

    /** `seek_video(value)`: seek to the second `int(value * duration)`. */
    method SeekVideo(value: real)
      modifies this
      ensures var t := Controls.SliderTarget(Controls.Enhanced, hasPlayer, value, totalDuration, 0);
        calls == if t.Some? then old(calls) + [SeekSecond(t.value)] else old(calls)
      ensures isPlaying == old(isPlaying) && hasPlayer == old(hasPlayer) && totalDuration == old(totalDuration)
      ensures skipStart == old(skipStart) && skipEnd == old(skipEnd)
    {
      if hasPlayer && totalDuration > 0.0 {
        var seekTime := value * totalDuration;
        ghost var target := Controls.SliderTarget(Controls.Enhanced, hasPlayer, value, totalDuration, 0);
        assert target.Some? && target.value == Trunc(seekTime);
        calls := calls + [SeekSecond(Trunc(seekTime))];
      }
    }

    /** `set_start_point` with the player at `current` seconds. */
    method SetStartPoint(current: real)
      modifies this
      ensures skipStart == Entry(old(skipStart), Controls.SetStartPoint(Controls.Enhanced, old(hasPlayer), current))
      ensures skipEnd == old(skipEnd) && calls == old(calls) && isPlaying == old(isPlaying)
      ensures hasPlayer == old(hasPlayer) && totalDuration == old(totalDuration)
    {
      if !hasPlayer {
        return;
      }
      skipStart := Pipeline.Parsed(Trunc(current) as real);
    }

    /** `set_end_point` with the player at `current` seconds. */
    method SetEndPoint(current: real)
      modifies this
      ensures skipEnd == Entry(old(skipEnd), Controls.SetEndPoint(Controls.Enhanced, old(hasPlayer),
                                                                   old(totalDuration), current))
      ensures skipStart == old(skipStart) && calls == old(calls) && isPlaying == old(isPlaying)
      ensures hasPlayer == old(hasPlayer) && totalDuration == old(totalDuration)
    {
      if !hasPlayer || totalDuration == 0.0 {
        return;
      }
      var rest := totalDuration - current;
      skipEnd := Pipeline.Parsed(Trunc(rest) as real);
    }
  }
}
