/**
 * Conversion between clock text (`MM:SS`, `H:MM:SS`) and seconds: `parseTimeInSeconds`
 * and `formatTimeFromSeconds` of the transcription service.
 */
module TimeCodec {
  import opened Text

  /** A JavaScript number as `parseTimeInSeconds` can produce it: whole seconds, or NaN. */
  datatype TimeValue = Seconds(n: nat) | NaN

  /**
   * `parseTimeInSeconds`: two fields are minutes and seconds, three add hours, any other
   * count gives 0. `Number` of a field of digits is its decimal value (0 for an empty
   * field); any other field makes the sum NaN.
   */
  function ParseTime(ts: string): TimeValue
  {
    var parts := Split(ts, ':');
    if |parts| == 2 then
      if AllDigits(parts[0]) && AllDigits(parts[1])
      then Seconds(DecimalValue(parts[0]) * 60 + DecimalValue(parts[1]))
      else NaN
    else if |parts| == 3 then
      if AllDigits(parts[0]) && AllDigits(parts[1]) && AllDigits(parts[2])
      then Seconds(DecimalValue(parts[0]) * 3600 + DecimalValue(parts[1]) * 60 + DecimalValue(parts[2]))
      else NaN
    else
      Seconds(0)
  }

  /** Two fields of digits read as minutes and seconds. */
  lemma ParseTimeTwoFields(a: string, b: string)
    requires AllDigits(a) && AllDigits(b)
    ensures ParseTime(a + ":" + b) == Seconds(DecimalValue(a) * 60 + DecimalValue(b))
  {
    SplitTwo(a, b);
  }

  /** Three fields of digits read as hours, minutes and seconds. */
  lemma ParseTimeThreeFields(a: string, b: string, c: string)
    requires AllDigits(a) && AllDigits(b) && AllDigits(c)
    ensures ParseTime(a + ":" + b + ":" + c) ==
            Seconds(DecimalValue(a) * 3600 + DecimalValue(b) * 60 + DecimalValue(c))
  {
    SplitThree(a, b, c);
  }

  lemma SplitTwo(a: string, b: string)
    requires AllDigits(a) && AllDigits(b)
    ensures Split(a + ":" + b, ':') == [a, b]
  {
    assert [a, b][1..] == [b];
    assert Join([a, b], ':') == a + ":" + b;
    SplitFields([a, b]);
  }

  lemma SplitThree(a: string, b: string, c: string)
    requires AllDigits(a) && AllDigits(b) && AllDigits(c)
    ensures Split(a + ":" + b + ":" + c, ':') == [a, b, c]
  {
    assert [a, b, c][1..] == [b, c];
    assert [b, c][1..] == [c];
    assert Join([b, c], ':') == b + ":" + c;
    assert Join([a, b, c], ':') == a + ":" + b + ":" + c;
    SplitFields([a, b, c]);
  }

  lemma SplitFields(fields: seq<string>)
    requires |fields| >= 1
    requires forall k :: 0 <= k < |fields| ==> AllDigits(fields[k])
    ensures Split(Join(fields, ':'), ':') == fields
  {
    forall k | 0 <= k < |fields| ensures ':' !in fields[k] {
      NoColonInDigits(fields[k]);
    }
    SplitJoin(fields, ':');
  }

  /** Text with neither one nor two colons parses to 0, whatever else it holds. */
  lemma ParseTimeOtherFieldCount(ts: string)
    requires Count(ts, ':') != 1 && Count(ts, ':') != 2
    ensures ParseTime(ts) == Seconds(0)
  {
    SplitLength(ts, ':');
  }

  lemma NoColonInDigits(s: string)
    requires AllDigits(s)
    ensures ':' !in s
  {
  }

  // ---------------------------------------------------------------------------
  // formatting

  /** `t % d` for `t >= 0`, as JavaScript computes the remainder of numbers. */
  function JsRemainder(t: real, d: real): real
    requires t >= 0.0 && d > 0.0
  {
    t - d * (t / d).Floor as real
  }

  /** Hours, minutes and seconds as `formatTimeFromSeconds` derives them. */
  datatype Clock = Clock(hours: nat, minutes: nat, seconds: nat)

  /** A whole number of seconds as hours, minutes below 60 and seconds below 60. */
  function SplitSeconds(n: nat): Clock
  {
    Clock(n / 3600, (n % 3600) / 60, n % 60)
  }

  /** `SplitSeconds` is the one split with minutes and seconds below 60. */
  lemma SplitSecondsUnique(n: nat, h: nat, m: nat, s: nat)
    requires m < 60 && s < 60 && n == h * 3600 + m * 60 + s
    ensures SplitSeconds(n) == Clock(h, m, s)
  {
    var r := m * 60 + s;
    DivMod3600(n, h, r);
    DivMod60(r, m, s);
    DivMod60(n, h * 60 + m, s);
  }

  /** The hours, minutes and seconds `formatTimeFromSeconds` shows for a time `t`: those of its whole seconds. */
  function ClockOf(t: real): Clock
    requires t >= 0.0
  {
    SplitSeconds(t.Floor)
  }

  /**
   * The three `Math.floor` expressions of `formatTimeFromSeconds`, on real division and
   * the JavaScript remainder, compute exactly the fields of `ClockOf`.
   */
  lemma ClockOfMatchesSource(t: real)
    requires t >= 0.0
    ensures ClockOf(t) ==
      Clock((t / 3600.0).Floor, (JsRemainder(t, 3600.0) / 60.0).Floor, JsRemainder(t, 60.0).Floor)
  {
    var n := t.Floor;
    var f := t - n as real;
    assert 0.0 <= f < 1.0;
    var q, r := n / 3600, n % 3600;
    assert t / 3600.0 == q as real + (r as real + f) / 3600.0;
    assert (t / 3600.0).Floor == q;
    assert JsRemainder(t, 3600.0) == r as real + f;
    var a, b := r / 60, r % 60;
    assert (r as real + f) / 60.0 == a as real + (b as real + f) / 60.0;
    assert ((r as real + f) / 60.0).Floor == a;
    var q2, r2 := n / 60, n % 60;
    assert t / 60.0 == q2 as real + (r2 as real + f) / 60.0;
    assert (t / 60.0).Floor == q2;
    assert JsRemainder(t, 60.0) == r2 as real + f;
  }

  /** `x.toString().padStart(2, '0')` for `x < 100`: exactly two digits with value `x`. */
  function TwoDigits(x: nat): (r: string)
    requires x < 100
    ensures |r| == 2 && AllDigits(r) && DecimalValue(r) == x
  {
    PaddedDigits(x);
    PadStart(NatToString(x), 2, '0')
  }

  lemma PaddedDigits(x: nat)
    requires x < 100
    ensures |PadStart(NatToString(x), 2, '0')| == 2
    ensures AllDigits(PadStart(NatToString(x), 2, '0'))
    ensures DecimalValue(PadStart(NatToString(x), 2, '0')) == x
  {
    if x < 10 {
      assert NatToString(x) == [DigitChar(x)];
      assert PadStart(NatToString(x), 2, '0') == ['0', DigitChar(x)];
      assert ['0', DigitChar(x)][..1] == ['0'];
    } else {
      assert NatToString(x / 10) == [DigitChar(x / 10)];
      assert NatToString(x) == NatToString(x / 10) + [DigitChar(x % 10)];
    }
  }

  /** The text `formatTimeFromSeconds` assembles from the fields: hours only when there are any. */
  function FormatClock(c: Clock): string
    requires c.minutes < 60 && c.seconds < 60
  {
    var mm := TwoDigits(c.minutes);
    var ss := TwoDigits(c.seconds);
    if c.hours > 0 then NatToString(c.hours) + ":" + mm + ":" + ss else mm + ":" + ss
  }

  /** `formatTimeFromSeconds` for a non-negative time. */
  function FormatTime(t: real): string
    requires t >= 0.0
  {
    FormatClock(ClockOf(t))
  }

  /** A minutes or seconds field: two digits with a value below 60. */
  predicate IsMinSec(f: string) { |f| == 2 && AllDigits(f) && DecimalValue(f) < 60 }

  /** An hours field: digits without a leading zero. */
  predicate IsHours(f: string) { |f| >= 1 && AllDigits(f) && f[0] != '0' }

  predicate IsShortClock(x: string)
  {
    |x| == 5 && x[2] == ':' && IsMinSec(x[..2]) && IsMinSec(x[3..])
  }

  predicate IsLongClock(x: string)
  {
    |x| >= 7 && x[|x| - 6] == ':' && x[|x| - 3] == ':' &&
    IsHours(x[..|x| - 6]) && IsMinSec(x[|x| - 5..|x| - 3]) && IsMinSec(x[|x| - 2..])
  }

  /** Clock text as `formatTimeFromSeconds` writes it: `MM:SS`, or `H:MM:SS` with unpadded hours of at least 1. */
  predicate IsCanonicalClock(x: string) { IsShortClock(x) || IsLongClock(x) }

  lemma ShortText(x: string, mm: string, ss: string)
    requires |mm| == 2 && |ss| == 2 && x == mm + ":" + ss
    ensures |x| == 5 && x[2] == ':' && x[..2] == mm && x[3..] == ss
  {
  }

  lemma LongText(x: string, hs: string, mm: string, ss: string)
    requires |mm| == 2 && |ss| == 2 && x == hs + ":" + mm + ":" + ss
    ensures |x| == |hs| + 6 && x[|x| - 6] == ':' && x[|x| - 3] == ':'
    ensures x[..|x| - 6] == hs && x[|x| - 5..|x| - 3] == mm && x[|x| - 2..] == ss
  {
    assert x == hs + ([':'] + mm + [':'] + ss);
  }

  /** Below one hour the clock text is `MM:SS` holding the minutes and seconds. */
  lemma FormatClockShort(c: Clock)
    requires c.hours == 0 && c.minutes < 60 && c.seconds < 60
    ensures IsShortClock(FormatClock(c))
    ensures DecimalValue(FormatClock(c)[..2]) == c.minutes
    ensures DecimalValue(FormatClock(c)[3..]) == c.seconds
  {
    ShortText(FormatClock(c), TwoDigits(c.minutes), TwoDigits(c.seconds));
  }

  /** From one hour on the clock text is `H:MM:SS` holding the hours, minutes and seconds. */
  lemma FormatClockLong(c: Clock)
    requires c.hours > 0 && c.minutes < 60 && c.seconds < 60
    ensures IsLongClock(FormatClock(c))
    ensures DecimalValue(FormatClock(c)[..|FormatClock(c)| - 6]) == c.hours
    ensures DecimalValue(FormatClock(c)[|FormatClock(c)| - 5..|FormatClock(c)| - 3]) == c.minutes
    ensures DecimalValue(FormatClock(c)[|FormatClock(c)| - 2..]) == c.seconds
  {
    LongText(FormatClock(c), NatToString(c.hours), TwoDigits(c.minutes), TwoDigits(c.seconds));
  }

  /**
   * The shape of `formatTimeFromSeconds(t)`: `MM:SS` below one hour and `H:MM:SS` from
   * one hour on, minutes and seconds two digits below 60, hours without padding; the
   * fields hold the hours, minutes and seconds of the whole seconds of `t`.
   */
  lemma FormatTimeShape(t: real)
    requires t >= 0.0
    ensures IsCanonicalClock(FormatTime(t))
    ensures t.Floor < 3600 <==> IsShortClock(FormatTime(t))
    ensures t.Floor < 3600 ==>
      DecimalValue(FormatTime(t)[..2]) == t.Floor / 60 && DecimalValue(FormatTime(t)[3..]) == t.Floor % 60
    ensures t.Floor >= 3600 ==>
      DecimalValue(FormatTime(t)[..|FormatTime(t)| - 6]) == t.Floor / 3600 &&
      DecimalValue(FormatTime(t)[|FormatTime(t)| - 5..|FormatTime(t)| - 3]) == (t.Floor % 3600) / 60 &&
      DecimalValue(FormatTime(t)[|FormatTime(t)| - 2..]) == t.Floor % 60
  {
    var n := t.Floor;
    var c := ClockOf(t);
    var x := FormatTime(t);
    assert x == FormatClock(c);
    if n < 3600 {
      assert c.hours == 0 && c.minutes == n / 60 by {
        DivMod3600(n, 0, n);
      }
      FormatClockShort(c);
    } else {
      assert c.hours > 0 by {
        DivMod3600(n, n / 3600, n % 3600);
      }
      FormatClockLong(c);
      assert !IsShortClock(x);
    }
  }

  /** Division by 3600 is determined by a quotient and a remainder below 3600. */
  lemma DivMod3600(n: nat, q: nat, r: nat)
    requires n == 3600 * q + r && r < 3600
    ensures n / 3600 == q && n % 3600 == r
  {
  }

  /** The clock text of any fields in range parses back to their total of seconds. */
  lemma ParseFormatClock(c: Clock)
    requires c.minutes < 60 && c.seconds < 60
    ensures ParseTime(FormatClock(c)) == Seconds(c.hours * 3600 + c.minutes * 60 + c.seconds)
  {
    var mm, ss := TwoDigits(c.minutes), TwoDigits(c.seconds);
    if c.hours > 0 {
      ParseTimeThreeFields(NatToString(c.hours), mm, ss);
    } else {
      ParseTimeTwoFields(mm, ss);
    }
  }

  /** The fields of `SplitSeconds(n)` add back up to `n`. */
  lemma SplitSecondsTotal(n: nat)
    ensures SplitSeconds(n).hours * 3600 + SplitSeconds(n).minutes * 60 + SplitSeconds(n).seconds == n
  {
    var h, r := n / 3600, n % 3600;
    var m, s := r / 60, r % 60;
    DivMod60(r, m, s);
    DivMod60(n, h * 60 + m, s);
  }

  /** Division by 60 is determined by a quotient and a remainder below 60. */
  lemma DivMod60(n: nat, q: nat, r: nat)
    requires n == 60 * q + r && r < 60
    ensures n / 60 == q && n % 60 == r
  {
  }

  /** Formatting and parsing back recovers the whole seconds: `parseTimeInSeconds(formatTimeFromSeconds(t)) == floor(t)`. */
  lemma ParseFormat(t: real)
    requires t >= 0.0
    ensures ParseTime(FormatTime(t)) == Seconds(t.Floor)
  {
    var c := ClockOf(t);
    SplitSecondsTotal(t.Floor);
    assert c.hours * 3600 + c.minutes * 60 + c.seconds == t.Floor;
    ParseFormatClock(c);
  }

  /** Only the whole seconds of a time show in its clock text. */
  lemma FormatTimeFloor(t: real)
    requires t >= 0.0
    ensures FormatTime(t) == FormatTime(t.Floor as real)
  {
    assert (t.Floor as real).Floor == t.Floor;
    assert ClockOf(t) == ClockOf(t.Floor as real);
  }

  /** Formatting the parse of formatted text gives the same text again. */
  lemma FormatParseFormat(t: real)
    requires t >= 0.0
    ensures ParseTime(FormatTime(t)).Seconds?
    ensures FormatTime(ParseTime(FormatTime(t)).n as real) == FormatTime(t)
  {
    ParseFormat(t);
    FormatTimeFloor(t);
  }

  /** Canonical clock text survives parsing and formatting unchanged. */
  lemma FormatParseCanonical(x: string)
    requires IsCanonicalClock(x)
    ensures ParseTime(x).Seconds?
    ensures FormatTime(ParseTime(x).n as real) == x
  {
    if IsShortClock(x) {
      FormatParseShort(x);
    } else {
      FormatParseLong(x);
    }
  }

  lemma FormatParseShort(x: string)
    requires IsShortClock(x)
    ensures ParseTime(x).Seconds? && FormatTime(ParseTime(x).n as real) == x
  {
    ShortText(x[..2] + ":" + x[3..], x[..2], x[3..]);
    assert x == x[..2] + ":" + x[3..];
    ParseTimeTwoFields(x[..2], x[3..]);
    var c := Clock(0, DecimalValue(x[..2]), DecimalValue(x[3..]));
    FormatFields(ParseTime(x).n, c);
    ShortFieldsText(c, x[..2], x[3..]);
  }

  lemma FormatParseLong(x: string)
    requires IsLongClock(x)
    ensures ParseTime(x).Seconds? && FormatTime(ParseTime(x).n as real) == x
  {
    LongSplit(x);
    ParseTimeThreeFields(x[..|x| - 6], x[|x| - 5..|x| - 3], x[|x| - 2..]);
    PositiveLeadingDigit(x[..|x| - 6]);
    var c := Clock(DecimalValue(x[..|x| - 6]), DecimalValue(x[|x| - 5..|x| - 3]), DecimalValue(x[|x| - 2..]));
    FormatFields(ParseTime(x).n, c);
    LongFieldsText(c, x[..|x| - 6], x[|x| - 5..|x| - 3], x[|x| - 2..]);
  }

  lemma LongSplit(x: string)
    requires |x| >= 7 && x[|x| - 6] == ':' && x[|x| - 3] == ':'
    ensures x == x[..|x| - 6] + ":" + x[|x| - 5..|x| - 3] + ":" + x[|x| - 2..]
  {
    assert x == x[..|x| - 6] + [x[|x| - 6]] + x[|x| - 5..|x| - 3] + [x[|x| - 3]] + x[|x| - 2..];
  }

  /** Minutes and seconds fields read back format as the same `MM:SS` text. */
  lemma ShortFieldsText(c: Clock, mm: string, ss: string)
    requires IsMinSec(mm) && IsMinSec(ss) && c == Clock(0, DecimalValue(mm), DecimalValue(ss))
    ensures FormatClock(c) == mm + ":" + ss
  {
    TwoDigitsOfValue(mm);
    TwoDigitsOfValue(ss);
  }

  /** Hours, minutes and seconds fields read back format as the same `H:MM:SS` text. */
  lemma LongFieldsText(c: Clock, hs: string, mm: string, ss: string)
    requires IsHours(hs) && IsMinSec(mm) && IsMinSec(ss)
    requires c == Clock(DecimalValue(hs), DecimalValue(mm), DecimalValue(ss))
    ensures FormatClock(c) == hs + ":" + mm + ":" + ss
  {
    PositiveLeadingDigit(hs);
    NatToStringOfValue(hs);
    TwoDigitsOfValue(mm);
    TwoDigitsOfValue(ss);
  }

  /** A whole number of seconds formats as the clock fields it splits into. */
  lemma FormatFields(n: nat, c: Clock)
    requires c.minutes < 60 && c.seconds < 60 && n == c.hours * 3600 + c.minutes * 60 + c.seconds
    ensures FormatTime(n as real) == FormatClock(c)
  {
    assert (n as real).Floor == n;
    SplitSecondsUnique(n, c.hours, c.minutes, c.seconds);
  }

  lemma TwoDigitsOfValue(x: string)
    requires |x| == 2 && AllDigits(x)
    ensures DecimalValue(x) < 100 && TwoDigits(DecimalValue(x)) == x
  {
    TwoDigitValue(x);
    TwoDigitValue(TwoDigits(DecimalValue(x)));
    DigitPairsEqual(TwoDigits(DecimalValue(x)), x);
  }

  /** Two digit pairs of equal value are the same text. */
  lemma DigitPairsEqual(a: string, b: string)
    requires |a| == 2 && AllDigits(a) && |b| == 2 && AllDigits(b)
    requires 10 * ((a[0] as int) - ('0' as int)) + ((a[1] as int) - ('0' as int)) ==
             10 * ((b[0] as int) - ('0' as int)) + ((b[1] as int) - ('0' as int))
    ensures a == b
  {
    assert a[0] == b[0] && a[1] == b[1];
  }

  lemma TwoDigitValue(x: string)
    requires |x| == 2 && AllDigits(x)
    ensures DecimalValue(x) == 10 * ((x[0] as int) - ('0' as int)) + ((x[1] as int) - ('0' as int))
  {
    var p := x[..1];
    assert x[..|x| - 1] == p;
    assert p[..|p| - 1] == [];
    assert DecimalValue(p) == (x[0] as int) - ('0' as int);
  }

  lemma {:induction false} PositiveLeadingDigit(s: string)
    requires |s| >= 1 && AllDigits(s) && s[0] != '0'
    ensures DecimalValue(s) > 0
  {
    if |s| > 1 {
      PositiveLeadingDigit(s[..|s| - 1]);
    }
  }

  /** Digits without a leading zero are exactly the decimal text of their value. */
  lemma {:induction false} NatToStringOfValue(s: string)
    requires |s| >= 1 && AllDigits(s) && s[0] != '0'
    ensures NatToString(DecimalValue(s)) == s
  {
    if |s| > 1 {
      var p := s[..|s| - 1];
      PositiveLeadingDigit(p);
      NatToStringOfValue(p);
      var n := DecimalValue(s);
      assert n / 10 == DecimalValue(p);
      assert s == p + [s[|s| - 1]];
    }
  }
}
