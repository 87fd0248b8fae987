/** The conversion worker `convert_video` and the output-path rule of
    `start_conversion`, identical in both programs. The encoder itself is not
    run: how it was launched, the lines it wrote to stderr, its exit code and
    whether the output file exists are inputs. */
module Pipeline {
  import opened Base
  import opened Markers

  // ---------------------------------------------------------------------
  // Trim fields and the trim window

  /** What a trim entry held: nothing, a number `float` accepts, or text it
      rejects. */
  datatype TrimField = Empty | Parsed(value: real) | Unparsable

  /** `float(entry.get() or 0)`, with 0 when `float` raises. */
  function TrimValue(f: TrimField): (r: real)
    ensures f.Parsed? ==> r == f.value
    ensures !f.Parsed? ==> r == 0.0
  {
    match f
    case Parsed(x) => x
    case _ => 0.0
  }

  /** The part of the video to encode: from `startSeek` to `endTo` seconds. */
  datatype Window = Window(startSeek: real, endTo: real)
  {
    function Effective(): real { endTo - startSeek }
  }

  /** Why a conversion is refused before the encoder runs. */
  datatype TrimError =
    | DurationUnknown
    | InvalidRange(totalDuration: real, skipStart: real, skipEnd: real, effective: real)

  /** Whether the video's length is known (`total_duration > 0`). */
  predicate Known(totalDuration: real) { totalDuration > 0.0 }

  /** The window check: a positive trim with an unknown length is refused;
      otherwise the window runs from `max(0, skipStart)` to
      `total - skipEnd` (an unknown length counting as 0) and is refused
      unless it is non-empty. */
  function TrimWindow(totalDuration: real, skipStart: real, skipEnd: real): Result<Window, TrimError>
  {
    if !Known(totalDuration) && (skipStart > 0.0 || skipEnd > 0.0) then Failure(DurationUnknown)
    else
      var total := if Known(totalDuration) then totalDuration else 0.0;
      var w := Window(MaxReal(0.0, skipStart), total - skipEnd);
      if w.endTo <= w.startSeek then Failure(InvalidRange(total, skipStart, skipEnd, w.Effective()))
      else Success(w)
  }

  /** An accepted window starts at or after 0 and no earlier than the
      requested trim, has positive length, and ends `skipEnd` before the
      known end, or (the length unknown) `-skipEnd` after 0. A window is
      accepted exactly when the known length leaves room for both trims, or
      the length is unknown, no start trim is asked for and the end trim is
      negative; a positive trim with an unknown length is the one case
      refused as `DurationUnknown`. */
  lemma TrimWindowSound(totalDuration: real, skipStart: real, skipEnd: real)
    ensures var r := TrimWindow(totalDuration, skipStart, skipEnd);
      && (r.Success? ==> r.value.startSeek >= 0.0 && r.value.Effective() > 0.0
                         && r.value.startSeek >= skipStart
                         && r.value.endTo == (if Known(totalDuration) then totalDuration else 0.0) - skipEnd)
      && (r.Success? <==> (Known(totalDuration) && MaxReal(0.0, skipStart) < totalDuration - skipEnd)
                          || (!Known(totalDuration) && skipStart <= 0.0 && skipEnd < 0.0))
      && (r == Failure(DurationUnknown) <==> !Known(totalDuration) && (skipStart > 0.0 || skipEnd > 0.0))
  {
  }

  /** With an unknown length the job goes ahead only with a negative end
      trim; with no trim at all the end is 0, which is not after the start
      0, so the job is refused although a warning says it will go on. */
  lemma UnknownDurationRefused(totalDuration: real, skipStart: real, skipEnd: real)
    requires !Known(totalDuration)
    ensures TrimWindow(totalDuration, skipStart, skipEnd).Success? <==> skipStart <= 0.0 && skipEnd < 0.0
    ensures skipStart <= 0.0 && skipEnd == 0.0 ==>
      TrimWindow(totalDuration, skipStart, skipEnd) == Failure(InvalidRange(0.0, skipStart, 0.0, 0.0))
  {
  }

  /** Cutting 10 s from the start and 20 s from the end of 100 s leaves
      10..80 (70 s), in which an encoder clock of `00:00:35.00` is half
      way; cutting 60 s and 50 s leaves nothing. */
  lemma TrimWindowExamples()
    ensures TrimWindow(100.0, 10.0, 20.0) == Success(Window(10.0, 80.0))
    ensures TrimWindow(100.0, 10.0, 20.0).value.Effective() == 70.0
    ensures TrimWindow(100.0, 60.0, 50.0) == Failure(InvalidRange(100.0, 60.0, 50.0, -10.0))
    ensures TrimWindow(100.0, -5.0, 0.0) == Success(Window(0.0, 100.0))
    ensures ProgressAt(3500, TrimWindow(100.0, 10.0, 20.0).value.Effective()) == 50.0
  {
  }

  // ---------------------------------------------------------------------
  // Output path: `str(Path(input).parent / f"{Path(input).stem}.gif")`

  /** The index of the last `c` in `s`, or -1. */
  function LastIndexOf(s: string, c: char): (i: int)
    ensures -1 <= i < |s|
    ensures i >= 0 ==> s[i] == c
    ensures forall k :: i < k < |s| ==> s[k] != c
  {
    if s == [] then -1
    else if s[|s| - 1] == c then |s| - 1
    else LastIndexOf(s[..|s| - 1], c)
  }

  /** The directory part, up to and including the last `/` ("" for a bare
      name, whose parent `.` joins to nothing). */
  function Directory(path: string): string
  {
    path[..LastIndexOf(path, '/') + 1]
  }

  /** The last component (`Path.name`). */
  function Name(path: string): string
  {
    path[LastIndexOf(path, '/') + 1..]
  }

  /** `Path.stem`: the name without its final suffix, where a suffix is a
      last `.` that is neither the first nor the last character. */
  function Stem(name: string): string
  {
    var i := LastIndexOf(name, '.');
    if 0 < i < |name| - 1 then name[..i] else name
  }

  /** `Path.suffix`, the other half of the name. */
  function Suffix(name: string): string
  {
    var i := LastIndexOf(name, '.');
    if 0 < i < |name| - 1 then name[i..] else ""
  }

  /** The output file: the input's directory, its stem, then `.gif`. */
  function OutputPath(input: string): string
  {
    Directory(input) + Stem(Name(input)) + ".gif"
  }

  /** A name splits into stem and suffix; the suffix is empty or a dot
      followed by at least one non-dot character. */
  lemma StemSuffix(name: string)
    ensures Stem(name) + Suffix(name) == name
    ensures Suffix(name) == [] || (|Suffix(name)| >= 2 && Suffix(name)[0] == '.'
                                   && '.' !in Suffix(name)[1..])
    ensures Suffix(name) != [] ==> Stem(name) != []
  {
    var i := LastIndexOf(name, '.');
    if 0 < i < |name| - 1 {
      assert name[..i] + name[i..] == name;
      assert forall k :: 0 <= k < |name[i..][1..]| ==> name[i..][1..][k] == name[i + 1 + k];
    }
  }

  lemma SplitAt(s: string, j: int)
    requires 0 <= j <= |s|
    ensures s[..j] + s[j..] == s
  {
  }

  /** No character of `s` after `i` is `c`. */
  lemma NoneAfter(s: string, c: char, i: int)
    requires -1 <= i < |s|
    requires forall k :: i < k < |s| ==> s[k] != c
    ensures c !in s[i + 1..]
  {
    var n := s[i + 1..];
    forall k | 0 <= k < |n| ensures n[k] != c {
      assert n[k] == s[i + 1 + k];
    }
  }

  lemma PathSplits(path: string)
    ensures Directory(path) + Name(path) == path
    ensures '/' !in Name(path)
    ensures Directory(path) == [] || Directory(path)[|Directory(path)| - 1] == '/'
  {
    var i := LastIndexOf(path, '/');
    SplitAt(path, i + 1);
    NoneAfter(path, '/', i);
  }

  /** Joining a directory (empty or ending in `/`) and a name without `/`
      splits back into the same two parts. */
  lemma JoinSplits(dir: string, name: string)
    requires dir == [] || dir[|dir| - 1] == '/'
    requires '/' !in name
    ensures Directory(dir + name) == dir && Name(dir + name) == name
  {
    var p := dir + name;
    var i := LastIndexOf(p, '/');
    forall k | |dir| <= k < |p| ensures p[k] != '/' {
      assert p[k] == name[k - |dir|];
    }
    assert dir != [] ==> p[|dir| - 1] == '/';
    assert i == |dir| - 1;
    assert p[..|dir|] == dir;
    assert p[|dir|..] == name;
  }

  /** `Stem(s + ".gif") == s` for a non-empty stem. */
  lemma StemOfGif(stem: string)
    requires stem != []
    ensures Stem(stem + ".gif") == stem && Suffix(stem + ".gif") == ".gif"
  {
    var name := stem + ".gif";
    var i := LastIndexOf(name, '.');
    assert name[|stem|] == '.';
    assert name[|stem| + 1..] == "gif";
    assert i == |stem|;
    assert name[..i] == stem;
  }

  /** The stem of a name holds no `/` when the name holds none. */
  lemma StemNoSlash(name: string)
    requires '/' !in name
    ensures '/' !in Stem(name)
  {
    StemSuffix(name);
    var stem := Stem(name);
    forall k | 0 <= k < |stem| ensures stem[k] != '/' {
      assert stem[k] == name[k];
    }
  }

  /** The output lies in the input's directory and its name is the input's
      stem plus `.gif`. */
  lemma OutputPathParts(input: string)
    ensures Directory(OutputPath(input)) == Directory(input)
    ensures Name(OutputPath(input)) == Stem(Name(input)) + ".gif"
  {
    PathSplits(input);
    StemNoSlash(Name(input));
    var gif := Stem(Name(input)) + ".gif";
    assert '/' !in gif;
    assert OutputPath(input) == Directory(input) + gif;
    JoinSplits(Directory(input), gif);
  }

  /** When the input has a name, the output's suffix is `.gif`, it keeps
      the input's stem, and deriving the output of an output changes
      nothing. */
  lemma OutputPathIdempotent(input: string)
    requires Name(input) != []
    ensures Suffix(Name(OutputPath(input))) == ".gif"
    ensures Stem(Name(OutputPath(input))) == Stem(Name(input))
    ensures OutputPath(OutputPath(input)) == OutputPath(input)
  {
    OutputPathParts(input);
    var stem := Stem(Name(input));
    StemSuffix(Name(input));
    StemOfGif(stem);
    var out := OutputPath(input);
    assert OutputPath(out) == Directory(out) + Stem(Name(out)) + ".gif";
  }

  /** The output path is the input path exactly when the input's suffix is
      already `.gif`: converting a GIF overwrites it. */
  lemma OutputOverwritesGif(input: string)
    requires Name(input) != []
    ensures OutputPath(input) == input <==> Suffix(Name(input)) == ".gif"
  {
    if Suffix(Name(input)) == ".gif" {
      GifIsOwnOutput(input);
    }
    OutputPathIdempotent(input);
  }

  lemma GifIsOwnOutput(input: string)
    requires Suffix(Name(input)) == ".gif"
    ensures OutputPath(input) == input
  {
    PathSplits(input);
    StemSuffix(Name(input));
    Regroup(Directory(input), Stem(Name(input)), Suffix(Name(input)), input);
  }

  lemma Regroup(a: string, b: string, c: string, whole: string)
    requires a + (b + c) == whole
    ensures a + b + c == whole
  {
    assert a + b + c == a + (b + c);
  }

  // ---------------------------------------------------------------------
  // Encoder arguments

  /** One command-line argument; `Number` stands for `str(x)` of a number. */
  datatype Arg = Text(text: string) | Number(value: real)

  /** The fixed filter graph: 8 frames per second, 240 pixels wide, a
      16-colour palette and Bayer dithering. */
  const FilterGraph: string :=
    "fps=8,scale=240:-1:flags=lanczos,split[s0][s1];[s0]palettegen=max_colors=16[p];[s1][p]paletteuse=dither=bayer:bayer_scale=3"

  /** What a command line asks the encoder to do. */
  datatype EncoderJob = EncoderJob(program: string, window: Window, input: string, output: string)

  /** The argument list handed to the encoder. */
  function EncoderArgs(j: EncoderJob): seq<Arg>
  {
    [Text(j.program), Text("-ss"), Number(j.window.startSeek), Text("-to"), Number(j.window.endTo),
     Text("-i"), Text(j.input), Text("-vf"), Text(FilterGraph), Text("-y"), Text(j.output)]
  }

  /** How the encoder reads such a list: a program, a seek position, an
      end position, an input, the filter, overwrite, an output. */
  function ReadArgs(args: seq<Arg>): Option<EncoderJob>
  {
    if |args| == 11 && args[0].Text? && args[1] == Text("-ss") && args[2].Number?
       && args[3] == Text("-to") && args[4].Number? && args[5] == Text("-i") && args[6].Text?
       && args[7] == Text("-vf") && args[8] == Text(FilterGraph) && args[9] == Text("-y")
       && args[10].Text?
    then Some(EncoderJob(args[0].text, Window(args[2].value, args[4].value), args[6].text, args[10].text))
    else None
  }

  /** The list says exactly what job it encodes: reading it back gives the
      job, and only that job's list reads as it. */
  lemma EncoderArgsReadBack(j: EncoderJob, args: seq<Arg>)
    ensures ReadArgs(EncoderArgs(j)) == Some(j)
    ensures ReadArgs(args) == Some(j) ==> args == EncoderArgs(j)
  {
  }

  // ---------------------------------------------------------------------
  // The stderr loop

  /** What the worker reports. */
  datatype Note = UnknownDurationWarning | TrimSettings(window: Window) | Starting

  datatype Reason = TrimRefused(error: TrimError) | ExitCode(code: int) | Crashed(message: string)

  datatype Event =
    | Logged(note: Note)       // `self.log(...)` from the worker
    | LogLine(text: string)    // `log_line(line)` posted to the event loop
    | Progress(percent: real)  // `update_conversion_progress(progress)`
    | Completed                // `conversion_complete()`
    | Failed(reason: Reason)   // `conversion_failed(message)`

  /** The percentage a `time=` value stands for: its share of the effective
      length, capped at 100. */
  function ProgressAt(t: nat, effective: real): (p: real)
    requires effective > 0.0
    ensures 0.0 <= p <= 100.0
  {
    PercentNonNegative(Seconds(t), effective);
    MinReal(Seconds(t) / effective * 100.0, 100.0)
  }

  lemma PercentNonNegative(x: real, d: real)
    requires x >= 0.0 && d > 0.0
    ensures x / d * 100.0 >= 0.0
  {
    assert x / d >= 0.0;
  }

  /** A stderr line as the loop sees it: stripped, with its `time=` value. */
  datatype Line = Line(text: string, time: Option<nat>)

  function ReadLine(raw: string): Line
  {
    var text := Strip(raw);
    Line(text, TimeIn(text))
  }

  function ReadLines(raw: seq<string>): (ls: seq<Line>)
    ensures |ls| == |raw| && forall k :: 0 <= k < |raw| ==> ls[k] == ReadLine(raw[k])
  {
    seq(|raw|, k requires 0 <= k < |raw| => ReadLine(raw[k]))
  }

  /** The progress value sent for a line, if any: the line has a `time=`
      value, the effective length is positive and the value moved by more
      than 0.5 since the last one sent. */
  function Emitted(l: Line, effective: real, last: real): Option<real>
  {
    if l.time.Some? && effective > 0.0 && AbsReal(ProgressAt(l.time.value, effective) - last) > 0.5
    then Some(ProgressAt(l.time.value, effective))
    else None
  }

  /** The events of one line: its text unless empty, then its progress value
      if one is sent. */
  function LineEvents(l: Line, effective: real, last: real): seq<Event>
  {
    (if l.text != [] then [LogLine(l.text)] else [])
      + (match Emitted(l, effective, last) case Some(p) => [Progress(p)] case None => [])
  }

  /** The last progress value sent after one line. */
  function NextLast(l: Line, effective: real, last: real): real
  {
    match Emitted(l, effective, last) case Some(p) => p case None => last
  }

  /** The events of the remaining lines, given the last progress value sent. */
  function Events(ls: seq<Line>, effective: real, last: real): seq<Event>
  {
    if ls == [] then []
    else LineEvents(ls[0], effective, last) + Events(ls[1..], effective, NextLast(ls[0], effective, last))
  }

  /** The events of the encoder's stderr. */
  function StderrEvents(raw: seq<string>, effective: real): seq<Event>
  {
    Events(ReadLines(raw), effective, -1.0)
  }

  lemma EventsStep(ls: seq<Line>, i: int, effective: real, last: real,
                   events: seq<Event>, posted: seq<Event>, next: real)
    requires 0 <= i < |ls|
    requires posted == LineEvents(ls[i], effective, last)
    requires next == NextLast(ls[i], effective, last)
    ensures events + posted + Events(ls[i + 1..], effective, next)
         == events + Events(ls[i..], effective, last)
  {
    assert ls[i..][1..] == ls[i + 1..];
  }

  /** One pass of the loop body over a raw stderr line: the events it
      posts (the stripped line, then a progress value) and the last
      progress value afterwards. */
  method ConsumeLine(raw: string, effective: real, lastProgress: real) returns (posted: seq<Event>, last: real)
    ensures posted == LineEvents(ReadLine(raw), effective, lastProgress)
    ensures last == NextLast(ReadLine(raw), effective, lastProgress)
  {
    var line := Strip(raw);
    var m := TimeIn(line);
    posted, last := PostLine(Line(line, m), effective, lastProgress);
  }

  /** The loop body once the line is stripped and searched: post the line
      unless it is empty, then the progress value if it moved enough. */
  method PostLine(l: Line, effective: real, lastProgress: real) returns (posted: seq<Event>, last: real)
    ensures posted == LineEvents(l, effective, lastProgress)
    ensures last == NextLast(l, effective, lastProgress)
  {
    posted, last := [], lastProgress;
    if l.text != [] {
      posted := posted + [LogLine(l.text)];
    }
    if l.time.Some? && effective > 0.0 {
      var progress := ProgressAt(l.time.value, effective);
      if AbsReal(progress - last) > 0.5 {
        last := progress;
        posted := posted + [Progress(progress)];
      }
    }
  }

  /** The loop over the encoder's stderr, starting with `last_progress = -1`. */
  method ConsumeStderr(lines: seq<string>, effective: real) returns (events: seq<Event>)
    ensures events == StderrEvents(lines, effective)
  {
    ghost var ls := ReadLines(lines);
    events := [];
    var lastProgress := -1.0;
    var i := 0;
    assert ls[0..] == ls;
    while i < |lines|
      invariant 0 <= i <= |lines|
      invariant events + Events(ls[i..], effective, lastProgress) == Events(ls, effective, -1.0)
    {
      var posted, next := ConsumeLine(lines[i], effective, lastProgress);
      EventsStep(ls, i, effective, lastProgress, events, posted, next);
      lastProgress := next;
      events := events + posted;
      i := i + 1;
    }
    assert ls[|lines|..] == [];
  }

  // ---------------------------------------------------------------------
  // What the stderr loop promises

  /** The texts of the log events, in order. */
  function Logs(events: seq<Event>): seq<string>
  {
    if events == [] then []
    else (if events[0].LogLine? then [events[0].text] else []) + Logs(events[1..])
  }

  /** The progress values sent, in order. */
  function Percents(events: seq<Event>): seq<real>
  {
    if events == [] then []
    else (if events[0].Progress? then [events[0].percent] else []) + Percents(events[1..])
  }

  /** The lines' texts that are not empty, in order. */
  function NonBlank(ls: seq<Line>): seq<string>
  {
    if ls == [] then []
    else (if ls[0].text != [] then [ls[0].text] else []) + NonBlank(ls[1..])
  }

  /** Every value differs by more than 0.5 from the one sent before it (the
      first from `last`). */
  predicate Spaced(ps: seq<real>, last: real)
  {
    ps == [] || (AbsReal(ps[0] - last) > 0.5 && Spaced(ps[1..], ps[0]))
  }

  lemma LogsAppend(a: seq<Event>, b: seq<Event>)
    ensures Logs(a + b) == Logs(a) + Logs(b)
    ensures Percents(a + b) == Percents(a) + Percents(b)
  {
    LogsConcat(a, b);
    PercentsConcat(a, b);
  }

  lemma {:induction false} LogsConcat(a: seq<Event>, b: seq<Event>)
    ensures Logs(a + b) == Logs(a) + Logs(b)
  {
    if a == [] {
      assert a + b == b;
    } else {
      assert (a + b)[0] == a[0];
      assert (a + b)[1..] == a[1..] + b;
      LogsConcat(a[1..], b);
    }
  }

  lemma {:induction false} PercentsConcat(a: seq<Event>, b: seq<Event>)
    ensures Percents(a + b) == Percents(a) + Percents(b)
  {
    if a == [] {
      assert a + b == b;
    } else {
      assert (a + b)[0] == a[0];
      assert (a + b)[1..] == a[1..] + b;
      PercentsConcat(a[1..], b);
    }
  }

  /** What one line contributes to each stream. */
  lemma LineContributes(l: Line, effective: real, last: real)
    ensures Logs(LineEvents(l, effective, last)) == (if l.text != [] then [l.text] else [])
    ensures Percents(LineEvents(l, effective, last))
      == (match Emitted(l, effective, last) case Some(p) => [p] case None => [])
  {
    var a: seq<Event> := if l.text != [] then [LogLine(l.text)] else [];
    var b: seq<Event> := match Emitted(l, effective, last) case Some(p) => [Progress(p)] case None => [];
    LogsAppend(a, b);
  }

  lemma EventsSplit(ls: seq<Line>, effective: real, last: real)
    requires ls != []
    ensures var rest := Events(ls[1..], effective, NextLast(ls[0], effective, last));
      && Logs(Events(ls, effective, last)) == Logs(LineEvents(ls[0], effective, last)) + Logs(rest)
      && Percents(Events(ls, effective, last)) == Percents(LineEvents(ls[0], effective, last)) + Percents(rest)
  {
    LogsAppend(LineEvents(ls[0], effective, last), Events(ls[1..], effective, NextLast(ls[0], effective, last)));
  }

  /** Every non-empty stripped line is logged, in input order, and nothing
      else is. */
  lemma {:induction false} LogsInOrder(ls: seq<Line>, effective: real, last: real)
    ensures Logs(Events(ls, effective, last)) == NonBlank(ls)
  {
    if ls != [] {
      EventsSplit(ls, effective, last);
      LineContributes(ls[0], effective, last);
      LogsInOrder(ls[1..], effective, NextLast(ls[0], effective, last));
    }
  }

  /** A value is sent only when it moved by more than 0.5; it is in
      [0, 100] and becomes the last value sent. */
  lemma EmittedFacts(l: Line, effective: real, last: real)
    ensures var e := Emitted(l, effective, last);
      && (e.Some? ==> AbsReal(e.value - last) > 0.5 && 0.0 <= e.value <= 100.0
                      && NextLast(l, effective, last) == e.value)
      && (e.None? ==> NextLast(l, effective, last) == last)
  {
  }

  /** Every progress value lies in [0, 100] and differs by more than 0.5
      from the value sent before it. */
  lemma {:induction false} ProgressSpaced(ls: seq<Line>, effective: real, last: real)
    ensures var ps := Percents(Events(ls, effective, last));
      && Spaced(ps, last)
      && forall k :: 0 <= k < |ps| ==> 0.0 <= ps[k] <= 100.0
  {
    if ls != [] {
      var next := NextLast(ls[0], effective, last);
      var head := match Emitted(ls[0], effective, last) case Some(p) => [p] case None => [];
      EventsSplit(ls, effective, last);
      LineContributes(ls[0], effective, last);
      EmittedFacts(ls[0], effective, last);
      ProgressSpaced(ls[1..], effective, next);
      PrependSpaced(head, Percents(Events(ls[1..], effective, next)), last, next);
    }
  }

  /** A line's progress value, if any, in front of the values after it. */
  lemma PrependSpaced(head: seq<real>, rest: seq<real>, last: real, next: real)
    requires head == [] ==> next == last
    requires head != [] ==> head == [next] && AbsReal(next - last) > 0.5 && 0.0 <= next <= 100.0
    requires Spaced(rest, next) && forall k :: 0 <= k < |rest| ==> 0.0 <= rest[k] <= 100.0
    ensures Spaced(head + rest, last) && forall k :: 0 <= k < |head + rest| ==> 0.0 <= (head + rest)[k] <= 100.0
  {
    if head == [] {
      assert head + rest == rest;
    } else {
      assert (head + rest)[1..] == rest;
    }
  }

  /** The index of the first line with a `time=` value, if any. */
  function FirstMarker(ls: seq<Line>): (r: Option<nat>)
    ensures r.Some? ==> (r.value < |ls| && ls[r.value].time.Some?
                         && forall j :: 0 <= j < r.value ==> ls[j].time.None?)
    ensures r.None? ==> forall j :: 0 <= j < |ls| ==> ls[j].time.None?
  {
    if ls == [] then None
    else if ls[0].time.Some? then Some(0)
    else match FirstMarker(ls[1..])
      case Some(k) => Some(k + 1)
      case None => None
  }

  /** Starting below -0.5 (the loop starts at -1), with a positive effective
      length, progress is sent exactly when some line has a `time=` value,
      and the first value sent is the first such line's. */
  lemma {:induction false} FirstMarkerSent(ls: seq<Line>, effective: real, last: real)
    requires effective > 0.0 && last < -0.5
    ensures var ps := Percents(Events(ls, effective, last));
      && (ps != [] <==> FirstMarker(ls).Some?)
      && (ps != [] ==> ps[0] == ProgressAt(ls[FirstMarker(ls).value].time.value, effective))
  {
    if ls != [] {
      EventsSplit(ls, effective, last);
      LineContributes(ls[0], effective, last);
      if ls[0].time.None? {
        FirstMarkerSent(ls[1..], effective, last);
        match FirstMarker(ls[1..])
        case Some(k) =>
          assert ls[1..][k] == ls[k + 1];
        case None =>
      }
    }
  }

  /** A progress line `time=HH:MM:SS.ff` as the encoder writes it. */
  function ProgressLine(t: nat): string
    requires t < 100 * 360000
  {
    "time=" + FormatClock(t)
  }

  lemma ReadProgressLine(t: nat)
    requires t < 100 * 360000
    ensures ReadLine(ProgressLine(t)) == Line(ProgressLine(t), Some(t))
  {
    var s := ProgressLine(t);
    assert s[|s| - 1] == FormatClock(t)[10];
    StripKeeps(s);
    TimeLineParses(t, "");
    assert s + "" == s;
  }

  /** Over an effective length of 100 s, lines with the times 49.70, 50.10
      and 51.00 (`ProgressLine` reads as such a line) send 49.7 and 51.0:
      50.1 is within 0.5 of 49.7. */
  lemma CoalescingExample(a: string, b: string, c: string)
    ensures Percents(Events([Line(a, Some(4970)), Line(b, Some(5010)), Line(c, Some(5100))], 100.0, -1.0))
      == [49.7, 51.0]
  {
    var ls := [Line(a, Some(4970)), Line(b, Some(5010)), Line(c, Some(5100))];
    assert Emitted(ls[0], 100.0, -1.0) == Some(49.7) by {
      assert ProgressAt(4970, 100.0) == 49.7;
    }
    assert Emitted(ls[1], 100.0, 49.7) == None by {
      assert ProgressAt(5010, 100.0) == 50.1;
    }
    assert Emitted(ls[2], 100.0, 49.7) == Some(51.0) by {
      assert ProgressAt(5100, 100.0) == 51.0;
    }
    assert Percents(Events(ls[2..], 100.0, 49.7)) == [51.0] by {
      EventsSplit(ls[2..], 100.0, 49.7);
      LineContributes(ls[2], 100.0, 49.7);
      assert ls[2..][1..] == [];
    }
    assert Percents(Events(ls[1..], 100.0, 49.7)) == [51.0] by {
      EventsSplit(ls[1..], 100.0, 49.7);
      LineContributes(ls[1], 100.0, 49.7);
      assert ls[1..][1..] == ls[2..];
    }
    EventsSplit(ls, 100.0, -1.0);
    LineContributes(ls[0], 100.0, -1.0);
  }

  // ---------------------------------------------------------------------
  // The whole worker

  /** How running the encoder went: it raised after the given lines were
      read (none when it could not be started), or it exited. */
  datatype Launch =
    | Raised(stderr: seq<string>, message: string)
    | Exited(stderr: seq<string>, returnCode: int, outputExists: bool)

  /** The argument list the encoder was started with, if it was, and the
      events the worker produced, in order. */
  datatype Job = Job(command: Option<seq<Arg>>, events: seq<Event>)

  predicate Terminal(e: Event) { e.Completed? || e.Failed? }

  /** The success decision after the encoder exits. */
  function Outcome(returnCode: int, outputExists: bool): (e: Event)
    ensures e == Completed <==> returnCode == 0 && outputExists
    ensures e != Completed ==> e == Failed(ExitCode(returnCode))
  {
    if returnCode == 0 && outputExists then Completed else Failed(ExitCode(returnCode))
  }

  /** The warning logged when the length is unknown and no trim is asked for. */
  function Warning(totalDuration: real, skipStart: real, skipEnd: real): seq<Event>
  {
    if !Known(totalDuration) && skipStart <= 0.0 && skipEnd <= 0.0 then [Logged(UnknownDurationWarning)] else []
  }

  /** The events of a started encoder: its stderr, then the verdict. */
  function Run(launch: Launch, effective: real): seq<Event>
  {
    StderrEvents(launch.stderr, effective) + [Verdict(launch)]
  }

  /** How the worker ends once the encoder was started: the exception's
      message, or the success decision. */
  function Verdict(launch: Launch): (e: Event)
    ensures Terminal(e) && !e.LogLine? && !e.Progress?
    ensures e == Completed <==> launch.Exited? && launch.returnCode == 0 && launch.outputExists
  {
    match launch
    case Raised(_, message) => Failed(Crashed(message))
    case Exited(_, code, present) => Outcome(code, present)
  }

  /** `convert_video` for the given encoder program, input and output paths,
      known total length, trim fields and encoder run. */
  function Convert(program: string, input: string, output: string, totalDuration: real,
                   startField: TrimField, endField: TrimField, launch: Launch): Job
  {
    var skipStart, skipEnd := TrimValue(startField), TrimValue(endField);
    Assemble(program, input, output, Warning(totalDuration, skipStart, skipEnd),
             TrimWindow(totalDuration, skipStart, skipEnd), launch)
  }

  /** The worker once the warning and the window are decided: a refused
      window ends the job, an accepted one starts the encoder. */
  function Assemble(program: string, input: string, output: string, warning: seq<Event>,
                    window: Result<Window, TrimError>, launch: Launch): Job
  {
    match window
    case Failure(e) => Job(None, warning + [Failed(TrimRefused(e))])
    case Success(w) =>
      Job(Some(EncoderArgs(EncoderJob(program, w, input, output))),
          warning + [Logged(TrimSettings(w)), Logged(Starting)] + Run(launch, w.Effective()))
  }

  /** `Assemble` for a refused window. */
  lemma AssembleRefused(program: string, input: string, output: string, warning: seq<Event>,
                        e: TrimError, launch: Launch)
    ensures Assemble(program, input, output, warning, Failure(e), launch) == Job(None, warning + [Failed(TrimRefused(e))])
  {
  }

  /** `Convert` once the window is known. */
  lemma ConvertIs(program: string, input: string, output: string, totalDuration: real,
                  startField: TrimField, endField: TrimField, launch: Launch, window: Result<Window, TrimError>)
    requires TrimWindow(totalDuration, TrimValue(startField), TrimValue(endField)) == window
    ensures Convert(program, input, output, totalDuration, startField, endField, launch)
      == Assemble(program, input, output, Warning(totalDuration, TrimValue(startField), TrimValue(endField)),
                  window, launch)
  {
  }

  /** The warning is a note, never a log line, progress value or verdict. */
  lemma WarningIsNote(totalDuration: real, skipStart: real, skipEnd: real)
    ensures forall k :: 0 <= k < |Warning(totalDuration, skipStart, skipEnd)| ==>
      Warning(totalDuration, skipStart, skipEnd)[k].Logged?
  {
  }

  /** `TrimWindow` once the unknown-length check has passed, with the
      length in use. */
  lemma TrimWindowAt(totalDuration: real, skipStart: real, skipEnd: real, total: real)
    requires Known(totalDuration) || (skipStart <= 0.0 && skipEnd <= 0.0)
    requires total == if Known(totalDuration) then totalDuration else 0.0
    ensures var w := Window(MaxReal(0.0, skipStart), total - skipEnd);
      TrimWindow(totalDuration, skipStart, skipEnd)
        == if w.endTo <= w.startSeek then Failure(InvalidRange(total, skipStart, skipEnd, w.endTo - w.startSeek))
           else Success(w)
  {
  }

  /** The worker, step by step. */
  method ConvertVideo(program: string, input: string, output: string, totalDuration: real,
                      startField: TrimField, endField: TrimField, launch: Launch) returns (job: Job)
    ensures job == Convert(program, input, output, totalDuration, startField, endField, launch)
  {
    var warning, window := CheckTrim(totalDuration, TrimValue(startField), TrimValue(endField));
    match window {
      case Failure(e) =>
        job := Job(None, warning + [Failed(TrimRefused(e))]);
        AssembleRefused(program, input, output, warning, e, launch);
      case Success(w) =>
        job := StartEncoder(program, input, output, warning, w, launch);
    }
    ConvertIs(program, input, output, totalDuration, startField, endField, launch, window);
  }

  /** The trim checks at the head of the worker: the warning it logs and the
      window it settles on, or why it refuses. */
  method CheckTrim(totalDuration: real, skipStart: real, skipEnd: real)
    returns (warning: seq<Event>, window: Result<Window, TrimError>)
    ensures warning == Warning(totalDuration, skipStart, skipEnd)
    ensures window == TrimWindow(totalDuration, skipStart, skipEnd)
  {
    warning := [];
    var total: real;
    if !Known(totalDuration) {
      if skipStart > 0.0 || skipEnd > 0.0 {
        return [], Failure(DurationUnknown);
      }
      warning := warning + [Logged(UnknownDurationWarning)];
      total := 0.0;
    } else {
      total := totalDuration;
    }
    var startSeek := MaxReal(0.0, skipStart);
    var endTo := total - skipEnd;
    TrimWindowAt(totalDuration, skipStart, skipEnd, total);
    if endTo <= startSeek {
      return warning, Failure(InvalidRange(total, skipStart, skipEnd, endTo - startSeek));
    }
    window := Success(Window(startSeek, endTo));
  }

  /** The worker once the window is accepted: log the window, start the
      encoder with its arguments and follow it to the end. */
  method StartEncoder(program: string, input: string, output: string, warning: seq<Event>,
                      w: Window, launch: Launch) returns (job: Job)
    ensures job == Assemble(program, input, output, warning, Success(w), launch)
  {
    var args := EncoderArgs(EncoderJob(program, w, input, output));
    var posted := RunEncoder(launch, w.Effective());
    job := Job(Some(args), warning + [Logged(TrimSettings(w)), Logged(Starting)] + posted);
  }

  /** Starting the encoder, reading its stderr and deciding: the part of the
      worker after the window is accepted. */
  method RunEncoder(launch: Launch, effective: real) returns (posted: seq<Event>)
    ensures posted == Run(launch, effective)
  {
    posted := ConsumeStderr(launch.stderr, effective);
    match launch {
      case Raised(_, message) =>
        posted := posted + [Failed(Crashed(message))];
      case Exited(_, code, present) =>
        if code == 0 && present {
          posted := posted + [Completed];
        } else {
          posted := posted + [Failed(ExitCode(code))];
        }
    }
  }

  /** The stderr loop posts only log lines and progress values. */
  lemma {:induction false} EventsNotTerminal(ls: seq<Line>, effective: real, last: real)
    ensures forall k :: 0 <= k < |Events(ls, effective, last)| ==> !Terminal(Events(ls, effective, last)[k])
  {
    if ls != [] {
      EventsNotTerminal(ls[1..], effective, NextLast(ls[0], effective, last));
    }
  }

  lemma EndsWith(prefix: seq<Event>, x: Event)
    ensures var evs := prefix + [x];
      |evs| >= 1 && evs[|evs| - 1] == x && forall k :: 0 <= k < |evs| - 1 ==> evs[k] == prefix[k]
  {
  }

  /** `Assemble` ends with exactly one verdict, given a warning of notes. */
  lemma AssembleEndsOnce(program: string, input: string, output: string, warning: seq<Event>,
                         window: Result<Window, TrimError>, launch: Launch)
    requires forall k :: 0 <= k < |warning| ==> warning[k].Logged?
    ensures var evs := Assemble(program, input, output, warning, window, launch).events;
      && |evs| >= 1 && Terminal(evs[|evs| - 1])
      && (forall k :: 0 <= k < |evs| - 1 ==> !Terminal(evs[k]))
      && (window.Failure? ==> evs[|evs| - 1] == Failed(TrimRefused(window.error)))
      && (window.Success? ==> evs[|evs| - 1] == Verdict(launch))
  {
    if window.Failure? {
      EndsWith(warning, Failed(TrimRefused(window.error)));
    } else {
      var eff := window.value.Effective();
      var head := warning + [Logged(TrimSettings(window.value)), Logged(Starting)];
      var stream := StderrEvents(launch.stderr, eff);
      EventsNotTerminal(ReadLines(launch.stderr), eff, -1.0);
      AssembleAccepted(program, input, output, warning, window.value, launch);
      forall k | 0 <= k < |head| ensures head[k].Logged? {
        if k < |warning| {
          assert head[k] == warning[k];
        }
      }
      EndsAfter(head, stream, Verdict(launch));
    }
  }

  /** `Assemble` for an accepted window. */
  lemma AssembleAccepted(program: string, input: string, output: string, warning: seq<Event>,
                         w: Window, launch: Launch)
    ensures Assemble(program, input, output, warning, Success(w), launch)
      == Job(Some(EncoderArgs(EncoderJob(program, w, input, output))),
             warning + [Logged(TrimSettings(w)), Logged(Starting)]
               + StderrEvents(launch.stderr, w.Effective()) + [Verdict(launch)])
  {
    var head := warning + [Logged(TrimSettings(w)), Logged(Starting)];
    var stream := StderrEvents(launch.stderr, w.Effective());
    assert head + (stream + [Verdict(launch)]) == head + stream + [Verdict(launch)];
  }

  /** Non-terminal events followed by one verdict end with it, once. */
  lemma EndsAfter(head: seq<Event>, stream: seq<Event>, v: Event)
    requires forall k :: 0 <= k < |head| ==> head[k].Logged?
    requires forall k :: 0 <= k < |stream| ==> !Terminal(stream[k])
    ensures var evs := head + stream + [v];
      |evs| >= 1 && evs[|evs| - 1] == v && forall k :: 0 <= k < |evs| - 1 ==> !Terminal(evs[k])
  {
    var prefix := head + stream;
    EndsWith(prefix, v);
    forall k | 0 <= k < |prefix| ensures !Terminal(prefix[k]) {
      if k >= |head| {
        assert prefix[k] == stream[k - |head|];
      } else {
        assert prefix[k] == head[k];
      }
    }
  }

  /** Every run ends in exactly one of `conversion_complete` and
      `conversion_failed`, as its last event; it completes exactly when the
      window was accepted, the encoder exited with code 0 and the output
      file exists; an encoder that exited otherwise fails with its code. */
  lemma ConvertEndsOnce(program: string, input: string, output: string, totalDuration: real,
                        startField: TrimField, endField: TrimField, launch: Launch)
    ensures var job := Convert(program, input, output, totalDuration, startField, endField, launch);
      var evs := job.events;
      var w := TrimWindow(totalDuration, TrimValue(startField), TrimValue(endField));
      && |evs| >= 1 && Terminal(evs[|evs| - 1])
      && (forall k :: 0 <= k < |evs| - 1 ==> !Terminal(evs[k]))
      && (evs[|evs| - 1] == Completed <==>
            w.Success? && launch.Exited? && launch.returnCode == 0 && launch.outputExists)
      && (w.Success? && launch.Exited? && !(launch.returnCode == 0 && launch.outputExists) ==>
            evs[|evs| - 1] == Failed(ExitCode(launch.returnCode)))
  {
    var skipStart, skipEnd := TrimValue(startField), TrimValue(endField);
    WarningIsNote(totalDuration, skipStart, skipEnd);
    AssembleEndsOnce(program, input, output, Warning(totalDuration, skipStart, skipEnd),
                     TrimWindow(totalDuration, skipStart, skipEnd), launch);
  }

  /** `Assemble` starts the encoder only for an accepted window, with that
      window's arguments, and its log lines and progress values are the
      stderr loop's. */
  lemma AssembleStreams(program: string, input: string, output: string, warning: seq<Event>,
                        window: Result<Window, TrimError>, launch: Launch)
    requires forall k :: 0 <= k < |warning| ==> warning[k].Logged?
    ensures var job := Assemble(program, input, output, warning, window, launch);
      && (job.command.Some? <==> window.Success?)
      && (window.Success? ==> ReadArgs(job.command.value) == Some(EncoderJob(program, window.value, input, output)))
      && (window.Success? ==>
            Logs(job.events) == Logs(StderrEvents(launch.stderr, window.value.Effective()))
            && Percents(job.events) == Percents(StderrEvents(launch.stderr, window.value.Effective())))
      && (window.Failure? ==> Logs(job.events) == [] && Percents(job.events) == [])
  {
    if window.Failure? {
      NotesOnly(warning + [Failed(TrimRefused(window.error))]);
    } else {
      var job := Assemble(program, input, output, warning, window, launch);
      EncoderArgsReadBack(EncoderJob(program, window.value, input, output), job.command.value);
      var stream := StderrEvents(launch.stderr, window.value.Effective());
      var head := warning + [Logged(TrimSettings(window.value)), Logged(Starting)];
      var tail := [Verdict(launch)];
      AssembleAccepted(program, input, output, warning, window.value, launch);
      LogsAppend(head + stream, tail);
      LogsAppend(head, stream);
      NotesOnly(head);
      NotesOnly(tail);
    }
  }

  /** The encoder is started only for an accepted window, with the
      arguments for that window; once started, the log receives the
      stripped non-empty stderr lines in order, and every progress value is
      in [0, 100] and more than 0.5 from the one before; a refused job
      sends neither. */
  lemma ConvertStreams(program: string, input: string, output: string, totalDuration: real,
                       startField: TrimField, endField: TrimField, launch: Launch)
    ensures var job := Convert(program, input, output, totalDuration, startField, endField, launch);
      var w := TrimWindow(totalDuration, TrimValue(startField), TrimValue(endField));
      && (job.command.Some? <==> w.Success?)
      && (w.Success? ==> ReadArgs(job.command.value) == Some(EncoderJob(program, w.value, input, output)))
      && (w.Success? ==>
            Logs(job.events) == NonBlank(ReadLines(launch.stderr))
            && Spaced(Percents(job.events), -1.0)
            && forall k :: 0 <= k < |Percents(job.events)| ==> 0.0 <= Percents(job.events)[k] <= 100.0)
      && (w.Failure? ==> Logs(job.events) == [] && Percents(job.events) == [])
  {
    var skipStart, skipEnd := TrimValue(startField), TrimValue(endField);
    var r := TrimWindow(totalDuration, skipStart, skipEnd);
    WarningIsNote(totalDuration, skipStart, skipEnd);
    AssembleStreams(program, input, output, Warning(totalDuration, skipStart, skipEnd), r, launch);
    if r.Success? {
      var eff := r.value.Effective();
      LogsInOrder(ReadLines(launch.stderr), eff, -1.0);
      ProgressSpaced(ReadLines(launch.stderr), eff, -1.0);
    }
  }

  /** Worker notes and verdicts are neither log lines nor progress values. */
  lemma {:induction false} NotesOnly(evs: seq<Event>)
    requires forall k :: 0 <= k < |evs| ==> !evs[k].LogLine? && !evs[k].Progress?
    ensures Logs(evs) == [] && Percents(evs) == []
  {
    if evs != [] {
      NotesOnly(evs[1..]);
    }
  }

  lemma WarnsWhenUnknown(totalDuration: real)
    requires !Known(totalDuration)
    ensures Warning(totalDuration, 0.0, 0.0) == [Logged(UnknownDurationWarning)]
  {
  }

  lemma ConcatOne(w: seq<Event>, a: Event, x: Event)
    requires w == [a]
    ensures w + [x] == [a, x]
  {
  }

  /** With an unknown length and empty trim fields, the worker warns that
      progress may be inaccurate and then refuses the job anyway: the
      encoder is never started. */
  lemma UnknownDurationNeverEncodes(program: string, input: string, output: string, totalDuration: real,
                                    launch: Launch)
    requires !Known(totalDuration)
    ensures Convert(program, input, output, totalDuration, Empty, Empty, launch)
      == Job(None, [Logged(UnknownDurationWarning), Failed(TrimRefused(InvalidRange(0.0, 0.0, 0.0, 0.0)))])
  {
    assert TrimValue(Empty) == 0.0;
    UnknownDurationRefused(totalDuration, 0.0, 0.0);
    WarnsWhenUnknown(totalDuration);
    ConcatOne(Warning(totalDuration, 0.0, 0.0), Logged(UnknownDurationWarning),
              Failed(TrimRefused(InvalidRange(0.0, 0.0, 0.0, 0.0))));
  }
}
