/** The log pane: a text widget that `log(message)` and `log_line(line)`
    append to, with a counter `log_line_count` that keeps it from growing
    without bound. `lines` are the widget's text lines (each insert of
    `text + "\n"` adds the lines of `text`); `count` counts inserts. */
module LogView {
  import opened Base

  /** `max_log_lines`. */
  const MaxLogLines: int := 500

  /** How many text lines one trim deletes (`delete("1.0", "101.0")`). */
  const TrimLines: int := 100

  datatype LogState = LogState(lines: seq<string>, count: int)

  /** The counter never exceeds the limit and never counts more inserts than
      there are lines (every insert adds at least one line, every trim
      removes as many lines as it uncounts). */
  ghost predicate Bounded(s: LogState)
  {
    0 <= s.count <= MaxLogLines && s.count <= |s.lines|
  }

  /** Insert `text + "\n"` at the end and count it; past the limit, delete
      the first 100 text lines and uncount 100. */
  function Insert(s: LogState, text: string): LogState
  {
    var lines := s.lines + Split(text);
    var count := s.count + 1;
    if count > MaxLogLines then
      LogState(if |lines| >= TrimLines then lines[TrimLines..] else [], count - TrimLines)
    else LogState(lines, count)
  }

  /** The log after `log(message)`. */
  function AfterLog(s: LogState, message: string): LogState
  {
    Insert(s, message)
  }

  /** The log after `log_line(line)`: blank lines are dropped. */
  function AfterLogLine(s: LogState, line: string): LogState
  {
    if Strip(line) == [] then s else Insert(s, line)
  }

  /** An insert keeps the bound, counts one more insert or uncounts 99, and
      leaves a suffix of the old lines followed by the new text's lines. */
  lemma InsertKeepsBound(s: LogState, text: string)
    requires Bounded(s)
    ensures var r := Insert(s, text);
      && Bounded(r)
      && (r.count == s.count + 1 || (s.count == MaxLogLines && r.count == s.count + 1 - TrimLines))
      && (exists k :: 0 <= k <= TrimLines && k <= |s.lines + Split(text)| && r.lines == (s.lines + Split(text))[k..])
  {
    var all := s.lines + Split(text);
    if s.count + 1 > MaxLogLines {
      assert |all| >= TrimLines;
      assert Insert(s, text).lines == all[TrimLines..];
    } else {
      assert Insert(s, text).lines == all[0..];
    }
  }

  /** When every message is a single line, the counter counts lines exactly. */
  lemma SingleLineCounts(s: LogState, text: string)
    requires Bounded(s) && s.count == |s.lines| && '\n' !in text
    ensures |Insert(s, text).lines| == Insert(s, text).count
  {
    SplitSingleLine(text);
  }

  /** `log_line` ignores a whitespace-only line and otherwise inserts it. */
  lemma LogLineBlank(s: LogState, line: string)
    ensures (forall i :: 0 <= i < |line| ==> IsSpace(line[i])) ==> AfterLogLine(s, line) == s
    ensures (exists i :: 0 <= i < |line| && !IsSpace(line[i])) ==> AfterLogLine(s, line) == Insert(s, line)
  {
    StripEmptyIffBlank(line);
  }

  /** The log pane as an object. */
  class LogBuffer {
    var lines: seq<string>
    var count: int

    ghost function State(): LogState
      reads this
    {
      LogState(lines, count)
    }

    ghost predicate Valid()
      reads this
    {
      Bounded(State())
    }

    constructor ()
      ensures Valid() && lines == [] && count == 0
    {
      lines, count := [], 0;
    }

    /** `log(message)`. */
    method Log(message: string)
      requires Valid()
      modifies this
      ensures Valid()
      ensures State() == AfterLog(old(State()), message)
    {
      InsertKeepsBound(State(), message);
      AppendText(message);
    }

    /** `log_line(line)`. */
    method LogLine(line: string)
      requires Valid()
      modifies this
      ensures Valid()
      ensures State() == AfterLogLine(old(State()), line)
    {
      if Strip(line) == [] {
        return;
      }
      InsertKeepsBound(State(), line);
      AppendText(line);
    }

    /** The insert-count-trim sequence both methods share. */
    method AppendText(text: string)
      modifies this
      ensures State() == Insert(old(State()), text)
    {
      lines := lines + Split(text);
      count := count + 1;
      if count > MaxLogLines {
        lines := if |lines| >= TrimLines then lines[TrimLines..] else [];
        count := count - TrimLines;
      }
    }

    /** `delete("1.0", "end")` and `log_line_count = 0` when a conversion starts. */
    method Clear()
      modifies this
      ensures Valid() && lines == [] && count == 0
    {
      lines, count := [], 0;
    }
  }
}
