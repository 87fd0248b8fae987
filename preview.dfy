/** `VideoPreviewPlayer` as an object whose methods update its fields in
    place. Every method is proved to move the object's state exactly as the
    matching function of `Playback` does; the properties of the player are
    proved there, about those functions. */
module Preview {
  import opened Base
  import opened Playback

  class VideoPreviewPlayer {
    /** The canvas size `_display_frame` fits each frame into, as
        `Playback.FitAndCentre` computes. */
    const displayWidth: nat
    const displayHeight: nat

    var cap: Cap
    var fps: real
    var totalFrames: int
    var duration: real
    var currentFrame: int
    var isPlaying: bool
    var updateJob: Option<JobId>
    /** The canvas's pending `after` jobs that will call `_update_frame`,
        with their delays in milliseconds; `nextJob` is the next id. */
    var timers: map<JobId, int>
    var nextJob: JobId
    ghost var handles: nat
    ghost var released: set<nat>

    ghost function State(): Player
      reads this
    {
      Player(cap, fps, totalFrames, duration, currentFrame, isPlaying,
             updateJob, timers, nextJob, handles, released)
    }

    ghost predicate Valid()
      reads this
    {
      Inv(State())
    }

    /** `__init__(canvas, width=800, height=400)`. */
    constructor (width: nat, height: nat)
      ensures Valid() && State() == Initial()
      ensures displayWidth == width && displayHeight == height
    {
      displayWidth, displayHeight := width, height;
      cap := NoCap;
      fps := DefaultFps;
      totalFrames, duration := 0, 0.0;
      isPlaying, currentFrame := false, 0;
      updateJob, timers, nextJob := None, map[], 0;
      handles, released := 0, {};
    }

    /** `load(path)`; `raised` is true when the capture did not open and the
        source raises. */
    method Load(didOpen: bool, reportedFps: real, reportedFrames: int) returns (raised: bool)
      requires Valid()
      modifies this
      ensures Valid()
      ensures State() == Playback.Load(old(State()), didOpen, reportedFps, reportedFrames)
      ensures raised == !didOpen
    {
      ghost var s := State();
      Reopen(if didOpen then Opened else Unopened);
      if !didOpen {
        return true;
      }
      fps := reportedFps;
      if fps <= 0.0 {
        fps := DefaultFps;
      }
      totalFrames := reportedFrames;
      duration := totalFrames as real / fps;
      currentFrame := 0;
      isPlaying := false;
      assert State() == Opening(s, reportedFps, reportedFrames);
      Seek(0);
      raised := false;
    }

    /** The start of `load`: release the capture in the slot and put a new
        one there, opened or not. */
    method Reopen(c: Cap)
      requires Valid() && c != NoCap
      modifies this
      ensures Valid() && State() == Replace(old(State()), c)
    {
      if cap != NoCap {
        released := released + {handles};
      }
      handles := handles + 1;
      cap := c;
    }

    /** `play()`. */
    method Play(readOk: bool)
      requires Valid()
      modifies this
      ensures Valid()
      ensures State() == Playback.Play(old(State()), readOk)
    {
      if cap != Opened {
        return;
      }
      isPlaying := true;
      UpdateFrame(readOk);
    }

    /** `pause()`. */
    method Pause()
      requires Valid()
      modifies this
      ensures Valid()
      ensures State() == Playback.Pause(old(State()))
    {
      isPlaying := false;
      if updateJob.Some? {
        timers := timers - {updateJob.value};
        updateJob := None;
      }
    }

    /** `stop()`, an alias of `pause()`. */
    method Stop()
      requires Valid()
      modifies this
      ensures Valid()
      ensures State() == Playback.Pause(old(State()))
    {
      Pause();
    }

    /** `seek(frame_number)`. */
    method Seek(frameNumber: int)
      requires Valid()
      modifies this
      ensures Valid()
      ensures State() == Playback.Seek(old(State()), frameNumber)
    {
      if cap != Opened {
        return;
      }
      var n := frameNumber;
      if n > totalFrames - 1 {
        n := totalFrames - 1;
      }
      if n < 0 {
        n := 0;
      }
      currentFrame := n;
    }

    /** `seek_to_time(seconds)`. */
    method SeekToTime(seconds: real)
      requires Valid()
      modifies this
      ensures Valid()
      ensures State() == Playback.SeekToTime(old(State()), seconds)
    {
      Seek(Trunc(seconds * fps));
    }

    /** `current_duration()`: the position in seconds, never negative, and
        exactly the frame index over the rate. */
    function CurrentDuration(): (d: real)
      reads this
      ensures Valid() ==> d >= 0.0 && d * fps == currentFrame as real
    {
      if fps > 0.0 then currentFrame as real / fps else 0.0
    }

    /** `_update_frame()`, called by `play()` or by a fired job. */
    method UpdateFrame(readOk: bool)
      requires WellFormed(State())
      requires Inv(State()) || cap == Opened
      modifies this
      ensures Valid()
      ensures State() == Playback.Tick(old(State()), readOk)
    {
      if !isPlaying || cap != Opened {
        return;
      }
      if readOk {
        currentFrame := currentFrame + 1;
        if currentFrame >= totalFrames {
          isPlaying := false;
          return;
        }
        var delay := Trunc(1000.0 / fps);
        timers := timers[nextJob := delay];
        updateJob := Some(nextJob);
        nextJob := nextJob + 1;
      } else {
        isPlaying := false;
      }
    }

    /** The event loop runs pending job `j`. */
    method Fire(j: JobId, readOk: bool)
      requires Valid() && j in timers
      modifies this
      ensures Valid()
      ensures State() == Playback.Fire(old(State()), j, readOk)
    {
      timers := timers - {j};
      UpdateFrame(readOk);
    }

    /** `release()`. */
    method Release()
      requires Valid()
      modifies this
      ensures Valid()
      ensures State() == Playback.Release(old(State()))
    {
      Pause();
      if cap != NoCap {
        released := released + {handles};
        cap := NoCap;
      }
    }
  }
}
