/** The two patterns read from the encoder's diagnostic text:
    `Duration:\s*(\d{2}):(\d{2}):(\d{2}\.\d{2})` when probing a file and
    `time=(\d{2}):(\d{2}):(\d{2}\.\d{2})` while converting. A match is the
    first position where the pattern fits, as `re.search` finds it; its value
    is kept exactly, in hundredths of a second. */
module Markers {
  import opened Base

  function TwoDigits(a: char, b: char): nat
    requires IsDigit(a) && IsDigit(b)
  {
    10 * DigitValue(a) + DigitValue(b)
  }

  /** `HH:MM:SS.ff` starting at `i`, as hundredths of a second:
      `h * 3600 + m * 60 + s` with `s` read as a two-decimal number. */
  function ClockAt(s: string, i: nat): Option<nat>
  {
    if i + 11 <= |s|
       && IsDigit(s[i]) && IsDigit(s[i + 1]) && s[i + 2] == ':'
       && IsDigit(s[i + 3]) && IsDigit(s[i + 4]) && s[i + 5] == ':'
       && IsDigit(s[i + 6]) && IsDigit(s[i + 7]) && s[i + 8] == '.'
       && IsDigit(s[i + 9]) && IsDigit(s[i + 10])
    then Some(TwoDigits(s[i], s[i + 1]) * 360000 + TwoDigits(s[i + 3], s[i + 4]) * 6000
              + TwoDigits(s[i + 6], s[i + 7]) * 100 + TwoDigits(s[i + 9], s[i + 10]))
    else None
  }

  /** The first position at or after `j` that is not whitespace (`\s*`). */
  function SkipSpaces(s: string, j: nat): (k: nat)
    requires j <= |s|
    ensures j <= k <= |s| && (k < |s| ==> !IsSpace(s[k]))
    ensures forall m :: j <= m < k ==> IsSpace(s[m])
    decreases |s| - j
  {
    if j < |s| && IsSpace(s[j]) then SkipSpaces(s, j + 1) else j
  }

  /** The pattern `key`, then optional whitespace when `spaces`, then a clock,
      matched at position `i`. */
  function MarkerAt(s: string, key: string, spaces: bool, i: nat): Option<nat>
    requires i <= |s|
  {
    if i + |key| <= |s| && s[i..i + |key|] == key then
      ClockAt(s, if spaces then SkipSpaces(s, i + |key|) else i + |key|)
    else None
  }

  /** `re.search`: the value of the leftmost match at or after `i`. */
  function Search(s: string, key: string, spaces: bool, i: nat): Option<nat>
    requires i <= |s|
    decreases |s| - i
  {
    if MarkerAt(s, key, spaces, i).Some? then MarkerAt(s, key, spaces, i)
    else if i == |s| then None
    else Search(s, key, spaces, i + 1)
  }

  /** The search finds something exactly when some position matches, and
      what it finds is the value at the leftmost matching position. */
  lemma SearchFindsFirst(s: string, key: string, spaces: bool, i: nat)
    requires i <= |s|
    ensures Search(s, key, spaces, i).Some? <==>
      exists k :: i <= k <= |s| && MarkerAt(s, key, spaces, k).Some?
    ensures Search(s, key, spaces, i).Some? ==>
      exists k :: i <= k <= |s| && MarkerAt(s, key, spaces, k) == Search(s, key, spaces, i)
        && forall m :: i <= m < k ==> MarkerAt(s, key, spaces, m).None?
  {
    var ms := Matches(s, key, spaces);
    SearchIsFirst(s, key, spaces, i);
    FirstSomeFinds(ms, i);
  }

  /** The match at each position, `|s| + 1` of them. */
  function Matches(s: string, key: string, spaces: bool): (ms: seq<Option<nat>>)
    ensures |ms| == |s| + 1 && forall k :: 0 <= k <= |s| ==> ms[k] == MarkerAt(s, key, spaces, k)
  {
    seq(|s| + 1, k requires 0 <= k <= |s| => MarkerAt(s, key, spaces, k))
  }

  /** The first present value at or after `i`. */
  function FirstSome(ms: seq<Option<nat>>, i: nat): Option<nat>
    requires i <= |ms|
    decreases |ms| - i
  {
    if i == |ms| then None else if ms[i].Some? then ms[i] else FirstSome(ms, i + 1)
  }

  lemma {:induction false} SearchIsFirst(s: string, key: string, spaces: bool, i: nat)
    requires i <= |s|
    ensures Search(s, key, spaces, i) == FirstSome(Matches(s, key, spaces), i)
    decreases |s| - i
  {
    var ms := Matches(s, key, spaces);
    assert ms[i] == MarkerAt(s, key, spaces, i);
    if i < |s| {
      SearchIsFirst(s, key, spaces, i + 1);
    }
  }

  lemma {:induction false} FirstSomeFinds(ms: seq<Option<nat>>, i: nat)
    requires i <= |ms|
    ensures FirstSome(ms, i).Some? <==> exists k :: i <= k < |ms| && ms[k].Some?
    ensures FirstSome(ms, i).Some? ==>
      exists k :: i <= k < |ms| && ms[k] == FirstSome(ms, i) && forall m :: i <= m < k ==> ms[m].None?
    decreases |ms| - i
  {
    if i < |ms| && ms[i].None? {
      FirstSomeFinds(ms, i + 1);
      if FirstSome(ms, i).Some? {
        var k :| i + 1 <= k < |ms| && ms[k] == FirstSome(ms, i) && forall m :: i + 1 <= m < k ==> ms[m].None?;
        assert forall m :: i <= m < k ==> ms[m].None?;
      }
    }
  }

  /** The `Duration:` marker of a probe's output. */
  function DurationIn(text: string): Option<nat>
  {
    Search(text, "Duration:", true, 0)
  }

  /** The `time=` marker of one progress line. */
  function TimeIn(line: string): Option<nat>
  {
    Search(line, "time=", false, 0)
  }

  /** Two decimal digits of `n`. */
  function Pair(n: nat): (r: string)
    requires n < 100
    ensures |r| == 2 && IsDigit(r[0]) && IsDigit(r[1]) && TwoDigits(r[0], r[1]) == n
  {
    [DigitChar(n / 10), DigitChar(n % 10)]
  }

  /** A clock as the encoder prints it: two-digit hours, minutes below 60,
      seconds below 60, two decimals. */
  function FormatClock(t: nat): (r: string)
    requires t < 100 * 360000
    ensures |r| == 11
  {
    Pair(t / 360000) + ":" + Pair((t / 6000) % 60) + ":" + Pair((t / 100) % 60) + "." + Pair(t % 100)
  }

  /** The four fields of a clock add back up to the time. */
  lemma ClockFields(t: nat)
    ensures (t / 360000) * 360000 + ((t / 6000) % 60) * 6000 + ((t / 100) % 60) * 100 + t % 100 == t
  {
    var u := t / 100;
    assert t == u * 100 + t % 100;
    var v := u / 60;
    assert u == v * 60 + u % 60;
    assert t / 6000 == v;
    assert v == (v / 60) * 60 + v % 60;
    assert t / 360000 == v / 60;
  }

  /** Reading a printed clock gives back the exact time, wherever it stands. */
  lemma ClockRoundTrip(prefix: string, t: nat, suffix: string)
    requires t < 100 * 360000
    ensures ClockAt(prefix + FormatClock(t) + suffix, |prefix|) == Some(t)
  {
    var s := prefix + FormatClock(t) + suffix;
    var c := FormatClock(t);
    var i := |prefix|;
    assert s[i..i + 11] == c;
    var h, m, sec, f := Pair(t / 360000), Pair((t / 6000) % 60), Pair((t / 100) % 60), Pair(t % 100);
    assert c == h + ":" + m + ":" + sec + "." + f;
    assert s[i] == h[0] && s[i + 1] == h[1] && s[i + 2] == ':';
    assert s[i + 3] == m[0] && s[i + 4] == m[1] && s[i + 5] == ':';
    assert s[i + 6] == sec[0] && s[i + 7] == sec[1] && s[i + 8] == '.';
    assert s[i + 9] == f[0] && s[i + 10] == f[1];
    ClockFields(t);
  }

  /** A probe whose output begins with `Duration: HH:MM:SS.ff` yields that
      duration. */
  lemma DurationLineParses(t: nat, rest: string)
    requires t < 100 * 360000
    ensures DurationIn("Duration: " + FormatClock(t) + rest) == Some(t)
  {
    var s := "Duration: " + FormatClock(t) + rest;
    assert s[0..9] == "Duration:";
    assert IsSpace(s[9]);
    assert !IsSpace(s[10]) by {
      assert s[10] == FormatClock(t)[0];
    }
    assert SkipSpaces(s, 10) == 10;
    assert SkipSpaces(s, 9) == 10;
    ClockRoundTrip("Duration: ", t, rest);
  }

  /** A progress line `time=HH:MM:SS.ff ...` yields that time. */
  lemma TimeLineParses(t: nat, rest: string)
    requires t < 100 * 360000
    ensures TimeIn("time=" + FormatClock(t) + rest) == Some(t)
  {
    var s := "time=" + FormatClock(t) + rest;
    assert s[0..5] == "time=";
    ClockRoundTrip("time=", t, rest);
  }

  /** A line that cannot hold the marker has none. */
  lemma NoMarkerInShortLine(line: string)
    requires |line| < 16
    ensures TimeIn(line) == None
  {
    NoMarkerFrom(line, 0);
  }

  lemma {:induction false} NoMarkerFrom(line: string, i: nat)
    requires i <= |line| < 16
    ensures Search(line, "time=", false, i) == None
    decreases |line| - i
  {
    if i < |line| {
      NoMarkerFrom(line, i + 1);
    }
  }

  /** Seconds from hundredths. */
  function Seconds(hundredths: nat): real
  {
    hundredths as real / 100.0
  }

  /** What `get_video_duration` leaves behind: the window's total duration
      and the returned value. */
  datatype Probed = Probed(totalDuration: real, returned: Option<real>)

  /** `get_video_duration(path)`: without an encoder, or when running it
      fails (`output` is None), or when its output has no `Duration:`
      marker, it returns None and leaves the duration alone; otherwise the
      first marker's value becomes the duration and is returned. */
  function GetVideoDuration(encoderFound: bool, output: Option<string>, totalDuration: real): Probed
  {
    if !encoderFound || output.None? then Probed(totalDuration, None)
    else match DurationIn(output.value)
      case Some(t) => Probed(Seconds(t), Some(Seconds(t)))
      case None => Probed(totalDuration, None)
  }

  /** The probe returns a value exactly when the encoder ran and printed the
      marker; that value is non-negative and becomes the duration, and
      otherwise the duration is unchanged. */
  lemma ProbeOutcome(encoderFound: bool, output: Option<string>, totalDuration: real)
    ensures var p := GetVideoDuration(encoderFound, output, totalDuration);
      && (p.returned.Some? <==> encoderFound && output.Some? && DurationIn(output.value).Some?)
      && (p.returned.Some? ==> p.returned.value >= 0.0 && p.totalDuration == p.returned.value
                               && p.returned.value == Seconds(DurationIn(output.value).value))
      && (p.returned.None? ==> p.totalDuration == totalDuration)
  {
  }
}
