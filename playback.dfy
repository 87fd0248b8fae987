/** The frame-indexed preview player (`VideoPreviewPlayer`) as a state machine
    over values. The decoder is an oracle: `didOpen` says whether a capture
    could be opened and `readOk` whether the next frame read succeeded. The
    canvas's timer queue is part of the state: `timers` maps every pending
    tick callback to its delay in milliseconds, `updateJob` is the player's
    own slot for the last job it scheduled. */
module Playback {
  import opened Base

  /** The `cap` slot: no capture, a capture that failed to open, an open one. */
  datatype Cap = NoCap | Unopened | Opened

  type JobId = nat

  datatype Player = Player(
    cap: Cap,
    fps: real,
    totalFrames: int,
    duration: real,
    currentFrame: int,
    isPlaying: bool,
    updateJob: Option<JobId>,
    timers: map<JobId, int>,
    nextJob: JobId,
    handles: nat,      // captures created so far; the one in `cap` is number `handles`
    released: set<nat> // captures whose `release()` has been called
  )

  /** Frame rate used before any load and when the source reports none. */
  const DefaultFps: real := 30.0

  /** The captures created and not yet released. */
  ghost function LiveHandles(s: Player): set<nat>
  {
    set k | 1 <= k <= s.handles && k !in s.released
  }

  /** Every capture but the one in the slot has been released. */
  ghost predicate OneLiveHandle(s: Player)
  {
    && (forall k :: 1 <= k < s.handles ==> k in s.released)
    && (forall k :: k in s.released ==> 1 <= k <= s.handles)
    && (s.cap == NoCap ==> s.handles == 0 || s.handles in s.released)
    && (s.cap != NoCap ==> s.handles >= 1 && s.handles !in s.released)
  }

  /** A positive frame rate, a non-negative frame index, job ids below the
      next fresh id, at most one live capture. */
  ghost predicate WellFormed(s: Player)
  {
    && s.fps > 0.0
    && s.currentFrame >= 0
    && (forall j :: j in s.timers ==> j < s.nextJob)
    && OneLiveHandle(s)
  }

  /** The player's invariant: well formed, and while playing the frame index
      stays below the frame count. */
  ghost predicate Inv(s: Player)
  {
    WellFormed(s) && (s.isPlaying ==> s.currentFrame < s.totalFrames)
  }

  lemma LiveHandlesAtMostOne(s: Player)
    requires OneLiveHandle(s)
    ensures LiveHandles(s) == if s.cap == NoCap then {} else {s.handles}
  {
  }

  /** The state `__init__` leaves behind. */
  function Initial(): (s: Player)
    ensures Inv(s) && s.cap == NoCap && !s.isPlaying && s.timers == map[]
  {
    Player(NoCap, DefaultFps, 0, 0.0, 0, false, None, map[], 0, 0, {})
  }

  /** `max(0, min(n, total - 1))`. */
  function Clamp(n: int, total: int): int
  {
    var upper := if n <= total - 1 then n else total - 1;
    if upper >= 0 then upper else 0
  }

  /** `seek(n)`: without an open capture nothing happens; otherwise the
      frame index becomes `n` clamped into the frame range. */
  function Seek(s: Player, n: int): (r: Player)
    requires Inv(s)
    ensures Inv(r)
  {
    if s.cap != Opened then s else s.(currentFrame := Clamp(n, s.totalFrames))
  }

  /** `seek_to_time(seconds)`: seek to `int(seconds * fps)`. */
  function SeekToTime(s: Player, seconds: real): (r: Player)
    requires Inv(s)
    ensures Inv(r)
  {
    Seek(s, Trunc(seconds * s.fps))
  }

  /** `current_duration()`. */
  function CurrentDuration(s: Player): real
  {
    if s.fps > 0.0 then s.currentFrame as real / s.fps else 0.0
  }

  /** The delay `int(1000 / fps)` between two ticks. */
  function TickDelay(fps: real): (ms: int)
    requires fps > 0.0
    ensures ms >= 0
  {
    Trunc(1000.0 / fps)
  }

  /** `load(path)`: release the capture in the slot, create a new one; when
      it did not open, stop there (the source raises); otherwise read the
      rate (30 when reported as <= 0) and frame count, reset the position
      and the playing flag, and show frame 0. A pending tick is not
      cancelled. */
  function Load(s: Player, didOpen: bool, reportedFps: real, reportedFrames: int): (r: Player)
    requires Inv(s)
    ensures Inv(r)
  {
    if !didOpen then Replace(s, Unopened)
    else Seek(Opening(s, reportedFps, reportedFrames), 0)
  }

  /** The slot after `load` released the old capture and created `cap`. */
  function Replace(s: Player, cap: Cap): (r: Player)
    requires Inv(s) && cap != NoCap
    ensures Inv(r)
  {
    s.(released := if s.cap != NoCap then s.released + {s.handles} else s.released,
       handles := s.handles + 1, cap := cap)
  }

  /** An opened capture's rate and frame count read, before the seek. */
  function Opening(s: Player, reportedFps: real, reportedFrames: int): (r: Player)
    requires Inv(s)
    ensures Inv(r)
  {
    var fps := if reportedFps <= 0.0 then DefaultFps else reportedFps;
    Replace(s, Opened).(fps := fps, totalFrames := reportedFrames, duration := reportedFrames as real / fps,
                        currentFrame := 0, isPlaying := false)
  }

  /** `_update_frame()`, the body of one tick. */
  function Tick(s: Player, readOk: bool): (r: Player)
    requires WellFormed(s)
    ensures WellFormed(r) && (Inv(s) || s.cap == Opened ==> Inv(r))
  {
    if !s.isPlaying || s.cap != Opened then s
    else if readOk then
      var c := s.currentFrame + 1;
      if c >= s.totalFrames then s.(currentFrame := c, isPlaying := false)
      else s.(currentFrame := c, updateJob := Some(s.nextJob),
              timers := s.timers[s.nextJob := TickDelay(s.fps)], nextJob := s.nextJob + 1)
    else s.(isPlaying := false)
  }

  /** The event loop runs the pending job `j`: it leaves the queue, then ticks. */
  function Fire(s: Player, j: JobId, readOk: bool): (r: Player)
    requires Inv(s) && j in s.timers
    ensures Inv(r)
  {
    Tick(s.(timers := s.timers - {j}), readOk)
  }

  /** `play()`: with an open capture, set the flag and tick at once; it does
      not look at a job that is already pending. */
  function Play(s: Player, readOk: bool): (r: Player)
    requires Inv(s)
    ensures Inv(r)
  {
    if s.cap != Opened then s else Tick(s.(isPlaying := true), readOk)
  }

  /** `pause()` (and its alias `stop()`): clear the flag, cancel the job in the
      slot and empty the slot. */
  function Pause(s: Player): (r: Player)
    requires Inv(s)
    ensures Inv(r)
  {
    s.(isPlaying := false, updateJob := None,
       timers := if s.updateJob.Some? then s.timers - {s.updateJob.value} else s.timers)
  }

  /** `release()`: pause, then release the capture and empty the slot. */
  function Release(s: Player): (r: Player)
    requires Inv(s)
    ensures Inv(r)
  {
    var p := Pause(s);
    if p.cap != NoCap then p.(cap := NoCap, released := p.released + {p.handles}) else p
  }

  /** Successive firings of the job in the slot while playback goes on,
      one decoder answer per firing. */
  function Chain(s: Player, answers: seq<bool>): (r: Player)
    requires Inv(s)
    ensures Inv(r)
    decreases |answers|
  {
    if answers != [] && s.isPlaying && s.updateJob.Some? && s.updateJob.value in s.timers
    then Chain(Fire(s, s.updateJob.value, answers[0]), answers[1..])
    else s
  }

  // ---------------------------------------------------------------------
  // Properties

  /** A successful load opens exactly one capture after releasing the old
      one, takes 30 fps for a non-positive reported rate, sets the duration
      to frames / fps and rests at frame 0, paused. */
  lemma LoadOpens(s: Player, reportedFps: real, reportedFrames: int)
    requires Inv(s)
    ensures var r := Load(s, true, reportedFps, reportedFrames);
      && r.cap == Opened
      && r.fps == (if reportedFps <= 0.0 then DefaultFps else reportedFps)
      && r.totalFrames == reportedFrames
      && r.duration * r.fps == reportedFrames as real
      && r.currentFrame == 0 && !r.isPlaying
      && (s.cap != NoCap ==> s.handles in r.released)
      && LiveHandles(r) == {r.handles} && r.handles !in LiveHandles(s)
      && r.timers == s.timers && r.updateJob == s.updateJob
  {
    var r := Load(s, true, reportedFps, reportedFrames);
    LiveHandlesAtMostOne(r);
  }

  /** A load whose capture does not open still releases the old capture and
      keeps the unopened one, and leaves position, rate and playing flag
      alone; seeking and ticking then do nothing. */
  lemma LoadFails(s: Player, reportedFps: real, reportedFrames: int, n: int, readOk: bool)
    requires Inv(s)
    ensures var r := Load(s, false, reportedFps, reportedFrames);
      && r.cap == Unopened
      && (s.cap != NoCap ==> s.handles in r.released)
      && LiveHandles(r) == {r.handles}
      && r.currentFrame == s.currentFrame && r.isPlaying == s.isPlaying
      && r.fps == s.fps && r.totalFrames == s.totalFrames
      && Seek(r, n) == r && Tick(r, readOk) == r && Play(r, readOk) == r
  {
    LiveHandlesAtMostOne(Load(s, false, reportedFps, reportedFrames));
  }

  /** `seek` clamps into `[0, total_frames - 1]` (0 when there are no
      frames), keeps the playing flag and any pending tick, and afterwards
      `current_duration()` is the new frame over the rate. */
  lemma SeekClamps(s: Player, n: int)
    requires Inv(s)
    ensures s.cap != Opened ==> Seek(s, n) == s
    ensures s.cap == Opened ==> var r := Seek(s, n);
      && r.currentFrame == (if n < 0 || s.totalFrames <= 0 then 0
                            else if n >= s.totalFrames then s.totalFrames - 1 else n)
      && (s.totalFrames >= 1 ==> 0 <= r.currentFrame < s.totalFrames)
      && r.isPlaying == s.isPlaying
      && r.timers == s.timers && r.updateJob == s.updateJob
      && CurrentDuration(r) * r.fps == r.currentFrame as real
  {
  }

  /** `seek_to_time` lands on the frame `int(seconds * fps)`, clamped. */
  lemma SeekToTimeFrame(s: Player, seconds: real)
    requires Inv(s) && s.cap == Opened && s.totalFrames >= 1
    requires 0.0 <= seconds && seconds * s.fps < s.totalFrames as real
    ensures var r := SeekToTime(s, seconds);
      r.currentFrame as real <= seconds * s.fps < r.currentFrame as real + 1.0
      && CurrentDuration(r) <= seconds
  {
    var r := SeekToTime(s, seconds);
    var c := r.currentFrame as real;
    assert c <= seconds * s.fps;
    assert c / s.fps <= (seconds * s.fps) / s.fps;
    assert (seconds * s.fps) / s.fps == seconds;
  }

  /** A tick does nothing unless playing with an open capture. */
  lemma TickIdle(s: Player, readOk: bool)
    requires Inv(s) && (!s.isPlaying || s.cap != Opened)
    ensures Tick(s, readOk) == s
  {
  }

  /** A successful read advances exactly one frame; at the end playback stops
      and nothing is scheduled, otherwise exactly one new job is pending,
      after `int(1000 / fps)` ms, and the slot names it. */
  lemma TickAdvances(s: Player)
    requires Inv(s) && s.isPlaying && s.cap == Opened
    ensures var r := Tick(s, true);
      && r.currentFrame == s.currentFrame + 1
      && (r.currentFrame >= s.totalFrames ==>
            !r.isPlaying && r.timers == s.timers && r.updateJob == s.updateJob)
      && (r.currentFrame < s.totalFrames ==>
            && r.isPlaying
            && s.nextJob !in s.timers
            && r.timers.Keys == s.timers.Keys + {s.nextJob}
            && r.timers[s.nextJob] == TickDelay(s.fps)
            && r.updateJob == Some(s.nextJob))
  {
  }

  /** A failed read stops playback where it is; the slot keeps its stale job. */
  lemma TickReadFails(s: Player)
    requires Inv(s) && s.isPlaying && s.cap == Opened
    ensures var r := Tick(s, false);
      !r.isPlaying && r.currentFrame == s.currentFrame
      && r.updateJob == s.updateJob && r.timers == s.timers
  {
  }

  /** Running a pending job takes it off the queue for good, and the tick
      it runs moves the frame and the playing flag as a tick from the same
      state would. */
  lemma FireDequeues(s: Player, j: JobId, readOk: bool)
    requires Inv(s) && j in s.timers
    ensures var r := Fire(s, j, readOk);
      && j !in r.timers
      && r.currentFrame == Tick(s, readOk).currentFrame
      && r.isPlaying == Tick(s, readOk).isPlaying
      && r.cap == s.cap && r.totalFrames == s.totalFrames
  {
  }

  /** `pause` clears the flag and the slot and cancels the slot's job,
      leaving the frame where it is; it never schedules anything. */
  lemma PauseSpec(s: Player)
    requires Inv(s)
    ensures var r := Pause(s);
      && !r.isPlaying && r.updateJob == None && r.currentFrame == s.currentFrame
      && r.timers.Keys <= s.timers.Keys
      && (s.updateJob.Some? ==> s.updateJob.value !in r.timers)
      && r.cap == s.cap
  {
  }

  /** `pause` then `play` resumes from the paused frame: the next frame shown
      is the one after it, with no skip and no rewind. */
  lemma PausePlayResumes(s: Player)
    requires Inv(s) && s.cap == Opened
    ensures Play(Pause(s), true).currentFrame == s.currentFrame + 1
  {
    PlayAdvances(Pause(s));
  }

  /** `play` with a successful read shows the next frame. */
  lemma PlayAdvances(s: Player)
    requires Inv(s) && s.cap == Opened
    ensures Play(s, true).currentFrame == s.currentFrame + 1
  {
    var t := s.(isPlaying := true);
    assert Tick(t, true).currentFrame == t.currentFrame + 1;
  }

  /** `release` leaves no live capture, nothing playing and an empty slot; a
      second `release` changes nothing. */
  lemma ReleaseIdempotent(s: Player)
    requires Inv(s)
    ensures var r := Release(s);
      && r.cap == NoCap && !r.isPlaying && r.updateJob == None
      && LiveHandles(r) == {}
      && r.currentFrame == s.currentFrame
      && Release(r) == r
  {
    LiveHandlesAtMostOne(Release(s));
  }

  /** `play` while a tick is already pending schedules a second one and
      forgets the first: the old job stays queued and a later `pause` can no
      longer cancel it. */
  lemma ReplayOrphansPendingTick(s: Player, j: JobId)
    requires Inv(s) && s.cap == Opened && s.isPlaying
    requires s.updateJob == Some(j) && j in s.timers
    requires s.currentFrame + 1 < s.totalFrames
    ensures var r := Play(s, true);
      && r.isPlaying && j in r.timers && r.updateJob != Some(j)
      && |r.timers.Keys| == |s.timers.Keys| + 1
      && j in Pause(r).timers
  {
    var r := Play(s, true);
    assert s.nextJob !in s.timers;
    assert r.timers.Keys == s.timers.Keys + {s.nextJob};
  }

  /** Firing successive jobs never carries the frame past the frame count
      and never moves it backwards. */
  lemma {:induction false} ChainBounded(s: Player, answers: seq<bool>)
    requires Inv(s) && s.currentFrame <= s.totalFrames
    ensures var r := Chain(s, answers);
      s.currentFrame <= r.currentFrame <= s.totalFrames
      && r.totalFrames == s.totalFrames
    decreases |answers|
  {
    if answers != [] && s.isPlaying && s.updateJob.Some? && s.updateJob.value in s.timers {
      ChainBounded(Fire(s, s.updateJob.value, answers[0]), answers[1..]);
    }
  }

  /** With every read succeeding, playback that was started runs to the last
      frame and stops there by itself: after `total - current` firings
      nothing plays and the position is the frame count. */
  lemma {:induction false} ChainDrains(s: Player, answers: seq<bool>)
    requires Inv(s) && s.isPlaying && s.cap == Opened
    requires s.updateJob.Some? && s.updateJob.value in s.timers
    requires forall i :: 0 <= i < |answers| ==> answers[i]
    requires |answers| >= s.totalFrames - s.currentFrame
    ensures var r := Chain(s, answers);
      !r.isPlaying && r.currentFrame == s.totalFrames
    decreases |answers|
  {
    var f := Fire(s, s.updateJob.value, answers[0]);
    assert answers[0];
    if f.isPlaying {
      ChainDrains(f, answers[1..]);
    }
  }

  // ---------------------------------------------------------------------
  // Geometry of `_display_frame`

  /** Size and top-left corner of a frame drawn on the canvas. */
  datatype Placement = Placement(width: int, height: int, x: int, y: int)

  /** Scale the frame by `min(dw / w, dh / h)`, truncate the scaled size to
      whole pixels and centre it with floor division. The result fits the
      display, fills it along one side, is centred to within a pixel and
      keeps the frame's aspect ratio to within the truncation. */
  function FitAndCentre(displayWidth: int, displayHeight: int, frameWidth: int, frameHeight: int): (p: Placement)
    requires displayWidth >= 0 && displayHeight >= 0 && frameWidth > 0 && frameHeight > 0
    ensures 0 <= p.width <= displayWidth && 0 <= p.height <= displayHeight
    ensures p.width == displayWidth || p.height == displayHeight
    ensures 0 <= p.x && 2 * p.x <= displayWidth - p.width <= 2 * p.x + 1
    ensures 0 <= p.y && 2 * p.y <= displayHeight - p.height <= 2 * p.y + 1
    ensures -frameHeight < p.width * frameHeight - p.height * frameWidth < frameWidth
  {
    var scale := MinReal(displayWidth as real / frameWidth as real,
                         displayHeight as real / frameHeight as real);
    var w := Trunc(frameWidth as real * scale);
    var h := Trunc(frameHeight as real * scale);
    FitBounds(displayWidth, displayHeight, frameWidth, frameHeight, scale);
    Placement(w, h, (displayWidth - w) / 2, (displayHeight - h) / 2)
  }

  lemma DivMul(a: real, b: real)
    requires b > 0.0
    ensures (a / b) * b == a && b * (a / b) == a
  {
  }

  lemma MulMono(k: real, x: real, y: real)
    requires k >= 0.0 && x <= y
    ensures k * x <= k * y
  {
  }

  lemma MulBelow(a: real, k: real)
    requires 0.0 <= a < 1.0 && k > 0.0
    ensures 0.0 <= a * k < k
  {
  }

  lemma FitSides(dw: int, dh: int, fw: int, fh: int, scale: real)
    requires dw >= 0 && dh >= 0 && fw > 0 && fh > 0
    requires scale == MinReal(dw as real / fw as real, dh as real / fh as real)
    ensures 0.0 <= fw as real * scale <= dw as real
    ensures 0.0 <= fh as real * scale <= dh as real
    ensures fw as real * scale == dw as real || fh as real * scale == dh as real
  {
    var sw := dw as real / fw as real;
    var sh := dh as real / fh as real;
    DivMul(dw as real, fw as real);
    DivMul(dh as real, fh as real);
    MulMono(fw as real, 0.0, scale);
    MulMono(fh as real, 0.0, scale);
    MulMono(fw as real, scale, sw);
    MulMono(fh as real, scale, sh);
  }

  /** Truncating both sides of a rectangle scaled by one factor keeps the
      cross products within one side of each other. */
  lemma AspectKept(fw: real, fh: real, scale: real, w: real, h: real)
    requires fw > 0.0 && fh > 0.0
    requires w <= fw * scale < w + 1.0 && h <= fh * scale < h + 1.0
    ensures -fh < w * fh - h * fw < fw
  {
    var a := fw * scale - w;
    var b := fh * scale - h;
    MulBelow(a, fh);
    MulBelow(b, fw);
    var k := fw * scale * fh;
    assert fh * scale * fw == k;
    assert w * fh == k - a * fh;
    assert h * fw == k - b * fw;
    assert w * fh - h * fw == b * fw - a * fh;
  }

  lemma IntMulReal(x: int, y: int)
    ensures (x * y) as real == x as real * y as real
  {
  }

  lemma FitBounds(dw: int, dh: int, fw: int, fh: int, scale: real)
    requires dw >= 0 && dh >= 0 && fw > 0 && fh > 0
    requires scale == MinReal(dw as real / fw as real, dh as real / fh as real)
    ensures var w := Trunc(fw as real * scale);
      var h := Trunc(fh as real * scale);
      && 0 <= w <= dw && 0 <= h <= dh && (w == dw || h == dh)
      && -fh < w * fh - h * fw < fw
  {
    FitSides(dw, dh, fw, fh, scale);
    var w := Trunc(fw as real * scale);
    var h := Trunc(fh as real * scale);
    AspectKept(fw as real, fh as real, scale, w as real, h as real);
    IntMulReal(w, fh);
    IntMulReal(h, fw);
  }
}
