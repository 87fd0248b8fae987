/** What the converter window shows while a conversion runs: the log pane,
    the conversion progress bar and the `is_converting` flag. The worker's
    events reach the window in the order they were produced (its own
    `log` calls directly, the rest through the event loop), and each one
    runs the matching callback. The texts the window logs for a worker note
    or a verdict are not part of this model: `say` supplies them. */
module Session {
  import opened Base
  import opened LogView
  import opened Pipeline

  datatype Ui = Ui(log: LogState, progress: real, isConverting: bool)

  /** The window just after `start_conversion`: empty log, bar at 0,
      converting. */
  function Started(): (u: Ui)
    ensures Bounded(u.log) && u.isConverting && u.progress == 0.0
  {
    Ui(LogState([], 0), 0.0, true)
  }

  /** One callback: a worker note goes through `log`, an encoder line through
      `log_line`, a progress value sets the bar to `progress / 100`,
      `conversion_complete` sets it to 1 (`update_conversion_progress(100)`),
      logs and ends the conversion, and `conversion_failed` logs and ends it. */
  function Apply(u: Ui, e: Event, say: Event -> string): Ui
  {
    match e
    case Logged(_) => u.(log := AfterLog(u.log, say(e)))
    case LogLine(text) => u.(log := AfterLogLine(u.log, text))
    case Progress(p) => u.(progress := p / 100.0)
    case Completed => u.(progress := 1.0, log := AfterLog(u.log, say(e)), isConverting := false)
    case Failed(_) => u.(log := AfterLog(u.log, say(e)), isConverting := false)
  }

  /** The callbacks for `events`, in order. */
  function Replay(u: Ui, events: seq<Event>, say: Event -> string): Ui
    decreases |events|
  {
    if events == [] then u else Replay(Apply(u, events[0], say), events[1..], say)
  }

  lemma {:induction false} ReplaySplit(u: Ui, a: seq<Event>, b: seq<Event>, say: Event -> string)
    ensures Replay(u, a + b, say) == Replay(Replay(u, a, say), b, say)
    decreases |a|
  {
    if a != [] {
      assert (a + b)[0] == a[0];
      assert (a + b)[1..] == a[1..] + b;
      ReplaySplit(Apply(u, a[0], say), a[1..], b, say);
    } else {
      assert a + b == b;
    }
  }

  /** Every callback keeps the log within its bound. */
  lemma ApplyKeepsBound(u: Ui, e: Event, say: Event -> string)
    requires Bounded(u.log)
    ensures Bounded(Apply(u, e, say).log)
  {
    match e {
      case LogLine(text) =>
        if Strip(text) != [] {
          InsertKeepsBound(u.log, text);
        }
      case Progress(_) =>
      case _ =>
        InsertKeepsBound(u.log, say(e));
    }
  }

  lemma {:induction false} ReplayKeepsBound(u: Ui, events: seq<Event>, say: Event -> string)
    requires Bounded(u.log)
    ensures Bounded(Replay(u, events, say).log)
    decreases |events|
  {
    if events != [] {
      ApplyKeepsBound(u, events[0], say);
      ReplayKeepsBound(Apply(u, events[0], say), events[1..], say);
    }
  }

  /** Only a verdict ends the conversion. */
  lemma {:induction false} ReplayWhileRunning(u: Ui, events: seq<Event>, say: Event -> string)
    requires forall k :: 0 <= k < |events| ==> !Terminal(events[k])
    ensures Replay(u, events, say).isConverting == u.isConverting
    decreases |events|
  {
    if events != [] {
      ReplayWhileRunning(Apply(u, events[0], say), events[1..], say);
    }
  }

  /** Progress values in [0, 100] keep the bar in [0, 1]. */
  lemma {:induction false} ReplayKeepsBar(u: Ui, events: seq<Event>, say: Event -> string)
    requires 0.0 <= u.progress <= 1.0
    requires forall k :: 0 <= k < |Percents(events)| ==> 0.0 <= Percents(events)[k] <= 100.0
    ensures 0.0 <= Replay(u, events, say).progress <= 1.0
    decreases |events|
  {
    if events != [] {
      var rest := events[1..];
      if events[0].Progress? {
        assert Percents(events) == [events[0].percent] + Percents(rest);
        assert Percents(events)[0] == events[0].percent;
        assert forall k :: 0 <= k < |Percents(rest)| ==> Percents(rest)[k] == Percents(events)[k + 1];
      } else {
        assert Percents(events) == Percents(rest);
      }
      ReplayKeepsBar(Apply(u, events[0], say), rest, say);
    }
  }

  /** An event stream that ends in its only verdict and whose progress
      values lie in [0, 100]. */
  predicate EndsOnce(events: seq<Event>)
  {
    && |events| >= 1 && Terminal(events[|events| - 1])
    && (forall k :: 0 <= k < |events| - 1 ==> !Terminal(events[k]))
    && (forall k :: 0 <= k < |Percents(events)| ==> 0.0 <= Percents(events)[k] <= 100.0)
  }

  /** Any such stream, replayed from `start_conversion`: the window stays
      converting until the verdict, which ends it; the log stays bounded
      and the bar in [0, 1], full after a success. */
  lemma SessionEnds(events: seq<Event>, say: Event -> string)
    requires EndsOnce(events)
    ensures var u := Replay(Started(), events, say);
      && Replay(Started(), events[..|events| - 1], say).isConverting
      && !u.isConverting
      && Bounded(u.log)
      && 0.0 <= u.progress <= 1.0
      && (events[|events| - 1] == Completed ==> u.progress == 1.0)
  {
    var n := |events|;
    var prefix := events[..n - 1];
    assert events == prefix + [events[n - 1]];
    ReplaySplit(Started(), prefix, [events[n - 1]], say);
    ReplayWhileRunning(Started(), prefix, say);
    ReplayKeepsBound(Started(), events, say);
    ReplayKeepsBar(Started(), events, say);
  }

  /** A whole conversion as the window sees it, from `start_conversion` on:
      the window stays in the converting state until the last callback,
      which ends it; the log never exceeds its bound; the bar stays in
      [0, 1] and is full after a success. */
  lemma ConversionSession(program: string, input: string, output: string, totalDuration: real,
                          startField: TrimField, endField: TrimField, launch: Launch, say: Event -> string)
    ensures var evs := Convert(program, input, output, totalDuration, startField, endField, launch).events;
      var u := Replay(Started(), evs, say);
      && |evs| >= 1
      && Replay(Started(), evs[..|evs| - 1], say).isConverting
      && !u.isConverting
      && Bounded(u.log)
      && 0.0 <= u.progress <= 1.0
      && (evs[|evs| - 1] == Completed ==> u.progress == 1.0)
  {
    var skipStart, skipEnd := TrimValue(startField), TrimValue(endField);
    WarningIsNote(totalDuration, skipStart, skipEnd);
    JobEndsOnce(program, input, output, Warning(totalDuration, skipStart, skipEnd),
                TrimWindow(totalDuration, skipStart, skipEnd), launch);
    SessionEnds(Convert(program, input, output, totalDuration, startField, endField, launch).events, say);
  }

  /** Every job's events end once, with progress values in [0, 100]. */
  lemma JobEndsOnce(program: string, input: string, output: string, warning: seq<Event>,
                         window: Result<Window, TrimError>, launch: Launch)
    requires forall k :: 0 <= k < |warning| ==> warning[k].Logged?
    ensures EndsOnce(Assemble(program, input, output, warning, window, launch).events)
  {
    AssembleEndsOnce(program, input, output, warning, window, launch);
    AssembleStreams(program, input, output, warning, window, launch);
    if window.Success? {
      ProgressSpaced(ReadLines(launch.stderr), window.value.Effective(), -1.0);
    }
  }
}
