/**
 * The sidebar countdown. The exam lasts 180 minutes; the time left is shown
 * as minutes and seconds, each formatted with `02d`. Elapsed time enters as
 * whole seconds.
 */
module Timer {
  import opened Base
  import opened Text

  /** The fixed exam duration: 180 minutes, in seconds. */
  const ExamSeconds: int := 180 * 60

  /** A countdown reading: minutes and seconds left. */
  datatype Clock = Clock(mins: int, secs: int)

  /**
   * The reading after `elapsed` seconds. Python's `//` and `%` round toward
   * negative infinity; for the positive divisor 60 that is exactly what
   * Dafny's Euclidean `/` and `%` do, so the model writes them directly.
   * Nothing clamps the reading: once the time is up the minutes go negative.
   */
  function Countdown(elapsed: int): (c: Clock)
    ensures c.mins * 60 + c.secs == ExamSeconds - elapsed
    ensures 0 <= c.secs < 60
    ensures 0 <= elapsed <= ExamSeconds ==> 0 <= c.mins <= 180
    ensures elapsed > ExamSeconds ==> c.mins < 0
  {
    var left := ExamSeconds - elapsed;
    Clock(left / 60, left % 60)
  }

  /**
   * For a given elapsed time, the only minutes/seconds pair with seconds in
   * 0..59 that adds up to the time left is the countdown's reading.
   */
  lemma CountdownUnique(elapsed: int, c: Clock)
    requires c.mins * 60 + c.secs == ExamSeconds - elapsed && 0 <= c.secs < 60
    ensures c == Countdown(elapsed)
  {
    var d := Countdown(elapsed);
    assert (c.mins - d.mins) * 60 == d.secs - c.secs;
  }

  /** The "Time Left" text: `f"{mins:02d}:{secs:02d}"`. */
  function TimeLeft(elapsed: int): string {
    var c := Countdown(elapsed);
    Format02(c.mins) + ":" + Format02(c.secs)
  }

  /** The position of the first `sep` in `t`, if any. */
  function FirstIndex(t: string, sep: char): (r: Option<nat>)
    ensures r.None? <==> sep !in t
    ensures r.Some? ==> r.value < |t| && t[r.value] == sep && sep !in t[..r.value]
  {
    if t == [] then None
    else if t[0] == sep then Some(0)
    else
      match FirstIndex(t[1..], sep)
      case None => None
      case Some(i) =>
        assert t[..i + 1] == [t[0]] + t[1..][..i];
        Some(i + 1)
  }

  /** Reads a non-negative "MM:SS" reading back; `None` for anything else. */
  function ParseClock(t: string): (r: Option<Clock>)
    ensures r.Some? ==> r.value.mins >= 0 && r.value.secs >= 0
  {
    match FirstIndex(t, ':')
    case None => None
    case Some(i) =>
      var a, b := t[..i], t[i + 1..];
      if AllDigits(a) && AllDigits(b) then Some(Clock(ParseDigits(a), ParseDigits(b))) else None
  }

  lemma SplitAtFirst(a: string, sep: char, b: string)
    requires sep !in a
    ensures FirstIndex(a + [sep] + b, sep) == Some(|a|)
  {
    var t := a + [sep] + b;
    assert t[|a|] == sep;
    assert t[..|a|] == a;
  }

  /**
   * While time remains, the displayed text determines the reading: parsing
   * it back yields exactly the minutes and seconds the countdown computed.
   */
  lemma TimeLeftRoundTrip(elapsed: int)
    requires 0 <= elapsed <= ExamSeconds
    ensures ParseClock(TimeLeft(elapsed)) == Some(Countdown(elapsed))
  {
    var c := Countdown(elapsed);
    var a, b := Format02(c.mins), Format02(c.secs);
    var t := a + ":" + b;
    assert ':' !in a;
    SplitAtFirst(a, ':', b);
    assert t[..|a|] == a;
    assert t[|a| + 1..] == b;
  }

  /** The two end points: "180:00" at the start and "00:00" when time is up. */
  lemma TimeLeftEnds()
    ensures TimeLeft(0) == "180:00"
    ensures TimeLeft(ExamSeconds) == "00:00"
  {
    assert Digits(180) == Digits(18) + ['0'];
    assert Digits(18) == Digits(1) + ['8'];
  }
}
