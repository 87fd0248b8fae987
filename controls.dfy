/** The preview controls of the converter window (`ModernGifConverter`) as
    functions over values: play/pause toggling, the slider's
    press/drag/release handlers, the "set start/end point" buttons and the
    `MM:SS` time display. Both programs share this logic; where they differ,
    a `Variant` parameter selects the behaviour. */
module Controls {
  import opened Base
  import opened Playback

  /** The OpenCV-based program or the enhanced (TkinterVideo-based) one. */
  datatype Variant = Original | Enhanced

  /** The call `toggle_play_pause` makes on the preview player. */
  datatype Command = PlayCommand | PauseCommand

  datatype Toggled = Toggled(isPlaying: bool, command: Option<Command>)

  /** The flag flip shared by both programs' `toggle_play_pause`: no player,
      nothing; playing, pause; paused, play. */
  function ToggleFlag(hasPlayer: bool, isPlaying: bool): (t: Toggled)
    ensures !hasPlayer ==> t == Toggled(isPlaying, None)
    ensures hasPlayer ==> t.isPlaying == !isPlaying
    ensures hasPlayer ==> t.command == Some(if isPlaying then PauseCommand else PlayCommand)
  {
    if !hasPlayer then Toggled(isPlaying, None)
    else if isPlaying then Toggled(false, Some(PauseCommand))
    else Toggled(true, Some(PlayCommand))
  }

  /** Toggling twice restores the flag, and the two calls undo each other. */
  lemma ToggleTwice(hasPlayer: bool, isPlaying: bool)
    ensures var t1 := ToggleFlag(hasPlayer, isPlaying);
      var t2 := ToggleFlag(hasPlayer, t1.isPlaying);
      t2.isPlaying == isPlaying
      && (hasPlayer ==> t1.command != t2.command && t1.command.Some? && t2.command.Some?)
  {
  }

  /** What a slider position turns into: the original program seeks to the
      frame `int(value * total_frames)`, the enhanced one to the second
      `int(value * total_duration)`. Nothing happens without a player or a
      known duration. */
  function SliderTarget(v: Variant, hasPlayer: bool, value: real, totalDuration: real, totalFrames: int): Option<int>
  {
    if hasPlayer && totalDuration > 0.0 then
      Some(Trunc(value * (if v == Original then totalFrames as real else totalDuration)))
    else None
  }

  lemma MulUnitBounds(value: real, total: real)
    requires 0.0 <= value <= 1.0 && total >= 0.0
    ensures 0.0 <= value * total <= total
  {
  }

  /** A slider value in [0, 1] lands inside the video: frame 0 to the frame
      count in the original, second 0 to the duration in the enhanced one. */
  lemma SliderTargetInRange(v: Variant, value: real, totalDuration: real, totalFrames: int)
    requires 0.0 <= value <= 1.0 && totalDuration > 0.0 && totalFrames >= 0
    ensures var t := SliderTarget(v, true, value, totalDuration, totalFrames);
      t.Some? && 0 <= t.value
      && (v == Original ==> t.value <= totalFrames)
      && (v == Enhanced ==> t.value as real <= totalDuration)
  {
    var scale := if v == Original then totalFrames as real else totalDuration;
    var x := value * scale;
    MulUnitBounds(value, scale);
    TruncWithin(x, scale);
  }

  lemma TruncWithin(x: real, bound: real)
    requires 0.0 <= x <= bound
    ensures 0 <= Trunc(x) && Trunc(x) as real <= bound
  {
  }

  // ---------------------------------------------------------------------
  // The window's playback flags and the player behind them

  datatype Gui = Gui(
    isPlaying: bool,
    isSeeking: bool,
    wasPlayingBeforeSeek: bool,
    pausePosition: real,
    totalDuration: real,
    player: Option<Player>)

  /** The player is well behaved, and the window only believes it is playing
      when it has a player. */
  ghost predicate GuiInv(g: Gui)
  {
    (g.player.Some? ==> Inv(g.player.value)) && (g.isPlaying ==> g.player.Some?)
  }

  /** `toggle_play_pause` of the original program: pausing records the
      position in `pause_position` first. */
  function TogglePlayPause(g: Gui, readOk: bool): (r: Gui)
    requires GuiInv(g)
    ensures GuiInv(r)
  {
    var t := ToggleFlag(g.player.Some?, g.isPlaying);
    match t.command
    case None => g
    case Some(PauseCommand) =>
      g.(pausePosition := CurrentDuration(g.player.value),
         player := Some(Pause(g.player.value)), isPlaying := t.isPlaying)
    case Some(PlayCommand) =>
      g.(player := Some(Play(g.player.value, readOk)), isPlaying := t.isPlaying)
  }

  /** `on_slider_press`: start dragging, remember whether playback was on,
      and if so record the position and pause. */
  function SliderPress(g: Gui): (r: Gui)
    requires GuiInv(g)
    ensures GuiInv(r)
  {
    var pressed := g.(isSeeking := true, wasPlayingBeforeSeek := g.isPlaying);
    if g.isPlaying then
      pressed.(pausePosition := CurrentDuration(g.player.value),
               player := Some(Pause(g.player.value)), isPlaying := false)
    else pressed
  }

  /** `on_slider_drag` without its time label: seek to the slider's frame
      unless the 50 ms throttle (`throttled`) holds the update back. */
  function SliderDrag(g: Gui, value: real, throttled: bool): (r: Gui)
    requires GuiInv(g)
    ensures GuiInv(r)
  {
    var target := SliderTarget(Original, g.player.Some?, value, g.totalDuration,
                               if g.player.Some? then g.player.value.totalFrames else 0);
    if target.Some? && !throttled then g.(player := Some(Seek(g.player.value, target.value)))
    else g
  }

  /** A drag with a player and a known duration that the throttle lets
      through seeks the player to the frame `int(value * total_frames)`,
      clamped when the capture is open, and changes nothing else; any
      other drag changes nothing. */
  lemma SliderDragSeeks(g: Gui, value: real, throttled: bool)
    requires GuiInv(g)
    ensures g.player.Some? && g.totalDuration > 0.0 && !throttled ==>
      var n := Trunc(value * g.player.value.totalFrames as real);
      var r := SliderDrag(g, value, throttled);
      && r == g.(player := Some(Seek(g.player.value, n)))
      && (g.player.value.cap == Opened ==>
            r.player.value.currentFrame == Clamp(n, g.player.value.totalFrames))
    ensures !(g.player.Some? && g.totalDuration > 0.0) || throttled ==> SliderDrag(g, value, throttled) == g
  {
  }

  /** `on_slider_release`: seek to the slider's frame, record the slider's
      time, resume playing exactly when playback was on before the drag,
      and end the drag on every path. */
  function SliderRelease(g: Gui, value: real, readOk: bool): (r: Gui)
    requires GuiInv(g)
    ensures GuiInv(r)
  {
    var target := SliderTarget(Original, g.player.Some?, value, g.totalDuration,
                               if g.player.Some? then g.player.value.totalFrames else 0);
    Settle(g, target, value * g.totalDuration, readOk)
  }

  /** The rest of `on_slider_release` once the target frame (if any) and
      the position in seconds are computed. */
  function Settle(g: Gui, target: Option<int>, seekTime: real, readOk: bool): (r: Gui)
    requires GuiInv(g) && (target.Some? ==> g.player.Some?)
    ensures GuiInv(r)
  {
    if target.Some? then
      var sought := Seek(g.player.value, target.value);
      var placed := g.(pausePosition := seekTime, isSeeking := false);
      if g.wasPlayingBeforeSeek then placed.(player := Some(Play(sought, readOk)), isPlaying := true)
      else placed.(player := Some(sought), isPlaying := false)
    else g.(isSeeking := false)
  }

  /** A drag always ends with `is_seeking` false. */
  lemma ReleaseEndsDrag(g: Gui, value: real, readOk: bool)
    requires GuiInv(g)
    ensures !SliderRelease(g, value, readOk).isSeeking
  {
  }

  /** Press and release are a suspend/resume pair: the window's playing flag
      comes back as it was before the press and the drag is over; while the
      drag lasts the player is paused with no tick of its own pending.
      Where the player then stands is `ReleaseResumes`. */
  lemma PressReleaseResumes(g: Gui, value: real, readOk: bool)
    requires GuiInv(g) && g.player.Some? && g.totalDuration > 0.0
    requires g.player.value.cap == Opened && g.player.value.totalFrames >= 1
    ensures var pressed := SliderPress(g);
      && pressed.isSeeking && pressed.wasPlayingBeforeSeek == g.isPlaying
      && !pressed.isPlaying
      && (g.isPlaying ==> !pressed.player.value.isPlaying && pressed.player.value.updateJob == None)
    ensures var r := SliderRelease(SliderPress(g), value, readOk);
      && !r.isSeeking
      && r.isPlaying == g.isPlaying
      && r.pausePosition == value * g.totalDuration
  {
    PressSuspends(g);
    ReleaseResumes(SliderPress(g), value, readOk);
  }

  /** The press half: dragging, playing flag saved, player paused. */
  lemma PressSuspends(g: Gui)
    requires GuiInv(g) && g.player.Some? && g.player.value.cap == Opened
    ensures var pressed := SliderPress(g);
      && pressed.isSeeking && pressed.wasPlayingBeforeSeek == g.isPlaying
      && !pressed.isPlaying && pressed.totalDuration == g.totalDuration
      && pressed.player.Some? && pressed.player.value.cap == Opened
      && pressed.player.value.totalFrames == g.player.value.totalFrames
      && (g.isPlaying ==> !pressed.player.value.isPlaying && pressed.player.value.updateJob == None)
  {
  }

  /** The release half: the saved flag comes back and the player stands at
      the slider's frame, one past it once playback resumed. */
  lemma ReleaseResumes(h: Gui, value: real, readOk: bool)
    requires GuiInv(h) && h.player.Some? && h.totalDuration > 0.0
    requires h.player.value.cap == Opened && h.player.value.totalFrames >= 1
    ensures var r := SliderRelease(h, value, readOk);
      var frame := Clamp(Trunc(value * h.player.value.totalFrames as real), h.player.value.totalFrames);
      && !r.isSeeking
      && r.isPlaying == h.wasPlayingBeforeSeek
      && r.pausePosition == value * h.totalDuration
      && (!h.wasPlayingBeforeSeek ==> r.player.value.currentFrame == frame)
      && (h.wasPlayingBeforeSeek && readOk ==> r.player.value.currentFrame == frame + 1)
  {
    var n := Trunc(value * h.player.value.totalFrames as real);
    var target := SliderTarget(Original, true, value, h.totalDuration, h.player.value.totalFrames);
    assert target.Some? && target.value == n;
    SettleResumes(h, n, value * h.totalDuration, readOk);
  }

  lemma SettleResumes(h: Gui, n: int, seekTime: real, readOk: bool)
    requires GuiInv(h) && h.player.Some? && h.player.value.cap == Opened
    ensures var r := Settle(h, Some(n), seekTime, readOk);
      var frame := Clamp(n, h.player.value.totalFrames);
      && !r.isSeeking
      && r.isPlaying == h.wasPlayingBeforeSeek
      && r.pausePosition == seekTime
      && (!h.wasPlayingBeforeSeek ==> r.player.value.currentFrame == frame)
      && (h.wasPlayingBeforeSeek && readOk ==> r.player.value.currentFrame == frame + 1)
  {
    if h.wasPlayingBeforeSeek && readOk {
      PlayAdvances(Seek(h.player.value, n));
    }
  }

  /** Pausing with the toggle keeps the frame and records its time; toggling
      again resumes from the next frame. */
  lemma ToggleRoundTrip(g: Gui)
    requires GuiInv(g) && g.player.Some? && g.player.value.cap == Opened && g.isPlaying
    ensures var paused := TogglePlayPause(g, true);
      && !paused.isPlaying && !paused.player.value.isPlaying
      && paused.player.value.currentFrame == g.player.value.currentFrame
      && paused.pausePosition == CurrentDuration(g.player.value)
      && var resumed := TogglePlayPause(paused, true);
         resumed.isPlaying && resumed.player.value.currentFrame == g.player.value.currentFrame + 1
  {
  }

  // ---------------------------------------------------------------------
  // `format_time`

  /** Python's `'%02d' % n`: at least two characters, zero-padded, with a
      minus sign in front of negative numbers. */
  function Pad2(n: int): string
  {
    if n < 0 then "-" + Decimal(-n)
    else if n < 10 then "0" + Decimal(n)
    else Decimal(n)
  }

  /** `int(seconds // 60)`. */
  function Minutes(seconds: real): int
  {
    (seconds / 60.0).Floor
  }

  /** `int(seconds % 60)`, with Python's non-negative float remainder. */
  function Seconds(seconds: real): int
  {
    Trunc(seconds - 60.0 * Minutes(seconds) as real)
  }

  /** `format_time(seconds)` for a number. */
  function FormatTime(seconds: real): string
  {
    Pad2(Minutes(seconds)) + ":" + Pad2(Seconds(seconds))
  }

  /** `format_time` of each program: the original turns `None` into
      "00:00", the enhanced one has no such guard and fails (None). */
  function FormatTimeOf(v: Variant, seconds: Option<real>): (r: Option<string>)
    ensures seconds.Some? ==> r == Some(FormatTime(seconds.value))
    ensures seconds.None? ==> (r.Some? <==> v == Original)
  {
    match seconds
    case Some(x) => Some(FormatTime(x))
    case None => if v == Original then Some("00:00") else None
  }

  /** The fields of the display: seconds in [0, 59] and minutes * 60 +
      seconds is the whole number of seconds, for every input. */
  lemma {:induction false} TimeFields(x: real)
    ensures 0 <= Seconds(x) < 60
    ensures Minutes(x) * 60 + Seconds(x) == x.Floor
    ensures x >= 0.0 ==> Minutes(x) == x.Floor / 60 && Seconds(x) == x.Floor % 60
  {
    var m := Minutes(x);
    assert m as real <= x / 60.0 < m as real + 1.0;
    assert 60.0 * m as real <= x < 60.0 * m as real + 60.0;
    var rest := x - 60.0 * m as real;
    assert (x - 60.0 * m as real).Floor == x.Floor - 60 * m;
  }

  /** The position of the first ':' in a text. */
  function IndexOfColon(s: string): (k: nat)
    ensures k <= |s| && (k < |s| ==> s[k] == ':')
    ensures forall i :: 0 <= i < k ==> s[i] != ':'
  {
    if s == [] || s[0] == ':' then 0 else 1 + IndexOfColon(s[1..])
  }

  predicate AllDigits(s: string) { forall i :: 0 <= i < |s| ==> IsDigit(s[i]) }

  /** Reads a `MM:SS` display back into whole seconds. */
  function ReadTime(s: string): Option<int>
  {
    var k := IndexOfColon(s);
    if k < |s| && AllDigits(s[..k]) && AllDigits(s[k + 1..])
    then Some(DigitsValue(s[..k]) * 60 + DigitsValue(s[k + 1..]))
    else None
  }

  lemma {:induction false} Pad2Digits(n: nat)
    ensures AllDigits(Pad2(n)) && DigitsValue(Pad2(n)) == n
    ensures n < 100 ==> |Pad2(n)| == 2
  {
    DecimalRoundTrip(n);
    if n < 10 {
      LeadingZero(Decimal(n));
    } else if n < 100 {
      assert Decimal(n) == Decimal(n / 10) + [DigitChar(n % 10)];
    }
  }

  lemma ColonSplit(a: string, b: string)
    requires AllDigits(a) && AllDigits(b)
    ensures var s := a + ":" + b;
      IndexOfColon(s) == |a| && s[..|a|] == a && s[|a| + 1..] == b
  {
    var s := a + ":" + b;
    assert s[|a|] == ':';
    forall i | 0 <= i < |a| ensures s[i] != ':' {
      assert s[i] == a[i];
    }
    assert s[..|a|] == a;
    assert s[|a| + 1..] == b;
  }

  /** For a non-negative time the display is zero-padded `MM:SS` (five
      characters below 100 minutes) and reads back as the whole number of
      seconds. */
  lemma FormatTimeReadsBack(x: real)
    requires x >= 0.0
    ensures ReadTime(FormatTime(x)) == Some(x.Floor)
    ensures x < 6000.0 ==> |FormatTime(x)| == 5
  {
    TimeFields(x);
    var m, s := Minutes(x), Seconds(x);
    assert 0 <= m by {
      assert x / 60.0 >= 0.0;
    }
    Pad2Digits(m);
    Pad2Digits(s);
    ColonSplit(Pad2(m), Pad2(s));
    if x < 6000.0 {
      assert x.Floor < 6000;
    }
  }

  // ---------------------------------------------------------------------
  // "Set start point" / "set end point"

  /** `set_start_point`: the whole seconds written into the skip-start
      field, or None when the field is left alone. The original writes only
      a non-negative position; the enhanced one writes any. */
  function SetStartPoint(v: Variant, hasPlayer: bool, current: real): Option<int>
  {
    if !hasPlayer then None
    else if v == Original && current < 0.0 then None
    else Some(Trunc(current))
  }

  /** `set_end_point`: the whole seconds `int(total - current)` written into
      the skip-end field. Both give up without a player or with a zero
      duration; only the original also rejects a negative position or a
      position past the end. */
  function SetEndPoint(v: Variant, hasPlayer: bool, totalDuration: real, current: real): Option<int>
  {
    if !hasPlayer || totalDuration == 0.0 then None
    else if v == Original && (current < 0.0 || totalDuration - current < 0.0) then None
    else Some(Trunc(totalDuration - current))
  }

  /** In the original, a written start point is the whole part of the
      position, and one is written exactly when there is a player and the
      position is not negative. */
  lemma StartPointOriginal(hasPlayer: bool, current: real)
    ensures var r := SetStartPoint(Original, hasPlayer, current);
      (r.Some? <==> hasPlayer && current >= 0.0)
      && (r.Some? ==> 0 <= r.value && r.value as real <= current < r.value as real + 1.0)
  {
  }

  /** In the original, a written end trim is the whole part of `total -
      current`, never negative, and one is written exactly when the
      position lies in `[0, total]` and the duration is non-zero. */
  lemma EndPointOriginal(hasPlayer: bool, totalDuration: real, current: real)
    ensures var r := SetEndPoint(Original, hasPlayer, totalDuration, current);
      (r.Some? <==> hasPlayer && totalDuration != 0.0 && 0.0 <= current <= totalDuration)
      && (r.Some? ==> 0 <= r.value
                      && r.value as real <= totalDuration - current < r.value as real + 1.0)
  {
  }

  /** The two programs agree whenever the position lies inside the video;
      outside it the enhanced one writes a negative trim. */
  lemma EndPointVariants(totalDuration: real, current: real)
    ensures 0.0 <= current <= totalDuration ==>
      SetEndPoint(Original, true, totalDuration, current) == SetEndPoint(Enhanced, true, totalDuration, current)
    ensures totalDuration > 0.0 && current >= totalDuration + 1.0 ==>
      SetEndPoint(Enhanced, true, totalDuration, current).value < 0
      && SetEndPoint(Original, true, totalDuration, current).None?
  {
  }
}
