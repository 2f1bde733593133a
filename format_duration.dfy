/** `formatDuration(durationInSeconds)` (src/formatting/formatDuration.ts):
    whole hours, minutes and seconds of a non-negative duration, written
    `HH:MM:SS` when there is at least one hour and `MM:SS` otherwise. */
module Duration {
  import opened Wrappers
  import opened JsTypes
  import opened JsText

  const DurationError: string := "Duration must be a finite, non-negative number"

  /** The three fields of a formatted duration. */
  datatype Clock = Clock(hours: nat, minutes: nat, seconds: nat)

  /** `Math.floor(d / 60)` is the whole part of `d` divided by 60. */
  lemma FloorDiv60(d: real)
    requires d >= 0.0
    ensures (d / 60.0).Floor == d.Floor / 60
  {
    var n := d.Floor;
    var q := n / 60;
    assert 60 * q <= n < 60 * q + 60;
    assert (60 * q) as real <= d < (60 * q + 60) as real;
    assert q as real <= d / 60.0 < q as real + 1.0;
  }

  /** `Math.floor(d / (60 * 60))` is the whole part of `d` divided by 3600. */
  lemma FloorDiv3600(d: real)
    requires d >= 0.0
    ensures (d / 3600.0).Floor == d.Floor / 3600
  {
    var n := d.Floor;
    var q := n / 3600;
    assert 3600 * q <= n < 3600 * q + 3600;
    assert (3600 * q) as real <= d < (3600 * q + 3600) as real;
    assert q as real <= d / 3600.0 < q as real + 1.0;
  }

  /** The whole hours, minutes below an hour and seconds below a minute of a
      duration; together they make up its whole seconds. */
  function ClockOf(d: real): (c: Clock)
    requires d >= 0.0
    ensures c.minutes < 60 && c.seconds < 60
    ensures 3600 * c.hours + 60 * c.minutes + c.seconds == d.Floor
  {
    FloorDiv60(d);
    FloorDiv3600(d);
    var n := d.Floor;
    var m := n / 60;
    assert n == 60 * m + n % 60;
    assert m == 60 * (m / 60) + m % 60;
    assert n / 3600 == m / 60;
    Clock((d / 3600.0).Floor, (d / 60.0).Floor % 60, d.Floor % 60)
  }

  /** `n.toString().padStart(2, '0')` */
  function Pad2(n: nat): string {
    PadStart(NatToString(n), 2, '0')
  }

  /** The padded fields joined by colons, hours only when there are any. */
  function ClockFields(c: Clock): seq<string> {
    if c.hours > 0 then [Pad2(c.hours), Pad2(c.minutes), Pad2(c.seconds)]
    else [Pad2(c.minutes), Pad2(c.seconds)]
  }

  /** `formatDuration(durationInSeconds)` */
  function FormatDuration(d: Num): (r: Result<string>)
    ensures r.Err? <==> !d.IsFinite() || d.r < 0.0
    ensures r.Err? ==> r.message == DurationError
  {
    if !d.IsFinite() || d.r < 0.0 then Err(DurationError)
    else Ok(Join(ClockFields(ClockOf(d.r)), ":"))
  }

  /** A field of exactly two digits. */
  predicate IsTwoDigits(s: string) {
    |s| == 2 && AllDigits(s)
  }

  /** The whole seconds the fields of a formatted duration stand for:
      `MM:SS`, or `H:MM:SS` with at least two digits of hours and at least
      one hour; minutes and seconds are two digits below 60. */
  function ReadFields(f: seq<string>): Option<nat> {
    if |f| == 2 && IsTwoDigits(f[0]) && IsTwoDigits(f[1]) &&
      DecimalValue(f[0]) < 60 && DecimalValue(f[1]) < 60
    then Some(60 * DecimalValue(f[0]) + DecimalValue(f[1]))
    else if |f| == 3 && |f[0]| >= 2 && AllDigits(f[0]) && DecimalValue(f[0]) > 0 &&
      IsTwoDigits(f[1]) && IsTwoDigits(f[2]) &&
      DecimalValue(f[1]) < 60 && DecimalValue(f[2]) < 60
    then Some(3600 * DecimalValue(f[0]) + 60 * DecimalValue(f[1]) + DecimalValue(f[2]))
    else None
  }

  /** Reads a formatted duration back to whole seconds. */
  function ReadDuration(s: string): Option<nat> {
    ReadFields(SplitOn(s, ':'))
  }

  lemma ShortNumeral(n: nat)
    requires n < 100
    ensures |NatToString(n)| <= 2
  {
    if n >= 10 {
      assert NatToString(n) == NatToString(n / 10) + [DigitChar(n % 10)];
    }
  }

  /** The padded numeral is at least two digits long, exactly two below
      100, never truncated, and reads back as `n`. */
  lemma Pad2Value(n: nat)
    ensures AllDigits(Pad2(n)) && DecimalValue(Pad2(n)) == n
    ensures |Pad2(n)| >= 2
    ensures n < 100 ==> |Pad2(n)| == 2
  {
    var s := NatToString(n);
    NatToStringValue(n);
    if |s| < 2 {
      LeadingZerosValue(2 - |s|, s);
    }
    if n < 100 {
      ShortNumeral(n);
    }
  }

  lemma Pad2Digits(n: nat, s: string)
    requires s == Pad2(n)
    ensures AllDigits(s)
  {
    Pad2Value(n);
  }

  lemma DigitsHaveNoColon(s: string)
    requires AllDigits(s)
    ensures ':' !in s
  {
    assert forall j :: 0 <= j < |s| ==> IsDigit(s[j]);
  }

  /** Two fields of digits split back apart at the colon that joins them. */
  lemma SplitTwo(a: string, b: string)
    requires AllDigits(a) && AllDigits(b)
    ensures SplitOn(Join([a, b], ":"), ':') == [a, b]
  {
    DigitsHaveNoColon(a);
    DigitsHaveNoColon(b);
    assert [a, b][1..] == [b];
    assert Join([a, b], ":") == a + [':'] + b;
    SplitOnCons(a, ':', b);
    SplitOnNone(b, ':');
  }

  lemma SplitThree(a: string, b: string, c: string)
    requires AllDigits(a) && AllDigits(b) && AllDigits(c)
    ensures SplitOn(Join([a, b, c], ":"), ':') == [a, b, c]
  {
    DigitsHaveNoColon(a);
    assert [a, b, c][1..] == [b, c];
    assert Join([a, b, c], ":") == a + [':'] + Join([b, c], ":");
    SplitOnCons(a, ':', Join([b, c], ":"));
    SplitTwo(b, c);
  }

  lemma SplitClock(c: Clock)
    ensures SplitOn(Join(ClockFields(c), ":"), ':') == ClockFields(c)
  {
    var m := Pad2(c.minutes);
    var sec := Pad2(c.seconds);
    Pad2Digits(c.minutes, m);
    Pad2Digits(c.seconds, sec);
    if c.hours > 0 {
      var h := Pad2(c.hours);
      Pad2Digits(c.hours, h);
      assert ClockFields(c) == [h, m, sec];
      SplitThree(h, m, sec);
    } else {
      assert ClockFields(c) == [m, sec];
      SplitTwo(m, sec);
    }
  }

  lemma ReadTwo(m: string, sec: string, c: Clock, n: nat)
    requires IsTwoDigits(m) && IsTwoDigits(sec)
    requires c.hours == 0 && DecimalValue(m) == c.minutes < 60 && DecimalValue(sec) == c.seconds < 60
    requires 3600 * c.hours + 60 * c.minutes + c.seconds == n
    ensures ReadFields([m, sec]) == Some(n)
  {
  }

  lemma ReadThree(h: string, m: string, sec: string, c: Clock, n: nat)
    requires |h| >= 2 && AllDigits(h) && DecimalValue(h) == c.hours > 0
    requires IsTwoDigits(m) && IsTwoDigits(sec)
    requires DecimalValue(m) == c.minutes < 60 && DecimalValue(sec) == c.seconds < 60
    requires 3600 * c.hours + 60 * c.minutes + c.seconds == n
    ensures ReadFields([h, m, sec]) == Some(n)
  {
  }

  lemma ReadClock(c: Clock, n: nat)
    requires c.minutes < 60 && c.seconds < 60
    requires 3600 * c.hours + 60 * c.minutes + c.seconds == n
    ensures ReadDuration(Join(ClockFields(c), ":")) == Some(n)
  {
    var fields := ClockFields(c);
    SplitClock(c);
    assert ReadDuration(Join(fields, ":")) == ReadFields(fields);
    var m := Pad2(c.minutes);
    var sec := Pad2(c.seconds);
    Pad2Value(c.minutes);
    Pad2Value(c.seconds);
    if c.hours > 0 {
      var h := Pad2(c.hours);
      Pad2Value(c.hours);
      ReadThree(h, m, sec, c, n);
      assert fields == [h, m, sec];
    } else {
      ReadTwo(m, sec, c, n);
      assert fields == [m, sec];
    }
  }

  /** Reading a formatted duration gives back its whole seconds: hours are
      never truncated, minutes and seconds are exactly two digits, and
      fractions of a second are dropped, never rounded up. */
  lemma ReadFormatDuration(d: real)
    requires d >= 0.0
    ensures FormatDuration(Finite(d)).Ok?
    ensures ReadDuration(FormatDuration(Finite(d)).value) == Some(d.Floor as nat)
  {
    var c := ClockOf(d);
    assert FormatDuration(Finite(d)) == Ok(Join(ClockFields(c), ":"));
    ReadClock(c, d.Floor);
  }

  /** At least an hour gives three fields, less than an hour two. */
  lemma FormatDurationFields(d: real)
    requires d >= 0.0
    ensures FormatDuration(Finite(d)).Ok?
    ensures |SplitOn(FormatDuration(Finite(d)).value, ':')| == if d >= 3600.0 then 3 else 2
  {
    SplitClock(ClockOf(d));
    FloorDiv3600(d);
    assert ClockOf(d).hours > 0 <==> d >= 3600.0 by {
      assert ClockOf(d).hours == (d / 3600.0).Floor;
    }
  }
}
