/** `parse_timestamp` and the inverse direction used by `to_dict`
    (`datetime.isoformat()` with `+00:00` written as `Z`).

    `datetime.strptime` is modelled for the formats `parse_timestamp` builds:
    each directive becomes a `Directive`, and `Match` reads the text the way the
    regular expression `strptime` compiles does.  Every directive that converts
    a number (`%Y %m %d %H %M %S %f`) is followed by a non-digit literal or by
    the end of the text, so a match must take the whole run of digits at that
    point, and it succeeds exactly when that run is a string the directive's
    pattern accepts (`Accepts`). */
module Timestamp {
  import opened Wrappers
  import opened Text

  /** An aware `datetime` in UTC: `tzinfo` is always `timezone.utc`. */
  datatype DateTime = DateTime(year: int, month: int, day: int,
                               hour: int, minute: int, second: int, microsecond: int)

  predicate IsLeapYear(y: int) {
    y % 4 == 0 && (y % 100 != 0 || y % 400 == 0)
  }

  function DaysInMonth(y: int, m: int): int
    requires 1 <= m <= 12
  {
    if m == 2 then (if IsLeapYear(y) then 29 else 28)
    else if m == 4 || m == 6 || m == 9 || m == 11 then 30
    else 31
  }

  /** The ranges the `datetime` constructor enforces (`MINYEAR` is 1,
      `MAXYEAR` 9999). */
  predicate Valid(t: DateTime) {
    && 1 <= t.year <= 9999
    && 1 <= t.month <= 12
    && 1 <= t.day <= DaysInMonth(t.year, t.month)
    && 0 <= t.hour < 24
    && 0 <= t.minute < 60
    && 0 <= t.second < 60
    && 0 <= t.microsecond < 1000000
  }

  // ---------------------------------------------------------------------------
  // strptime

  /** The conversion directives of the formats `parse_timestamp` builds. */
  datatype Field = Year | Month | Day | Hour | Minute | Second | Fraction

  datatype Directive = Lit(c: char) | Conv(field: Field)

  /** What one directive converted.  `_strptime` reads every group with
      `int()`, after right-padding the `%f` group with zeros to six digits;
      here the conversion happens as soon as the group has matched. */
  datatype Capture = Capture(field: Field, value: nat)

  function MinWidth(f: Field): nat {
    if f == Year then 4 else 1
  }

  function MaxWidth(f: Field): nat {
    if f == Year then 4 else if f == Fraction then 6 else 2
  }

  function Lowest(f: Field): nat {
    if f == Month || f == Day then 1 else 0
  }

  function Highest(f: Field): nat {
    match f
    case Year => 9999
    case Month => 12
    case Day => 31
    case Hour => 23
    case Minute => 59
    case Second => 61
    case Fraction => 999999
  }

  /** The strings a directive's pattern accepts: `%Y` four digits, `%m` 1 to 12,
      `%d` 1 to 31, `%H` 0 to 23, `%M` 0 to 59 and `%S` 0 to 61 in one or two
      digits, `%f` one to six digits. */
  predicate Accepts(f: Field, text: string) {
    && AllDigits(text)
    && MinWidth(f) <= |text| <= MaxWidth(f)
    && Lowest(f) <= DigitsValue(text) <= Highest(f)
  }

  /** Length of the run of digits that starts the text. */
  function DigitRun(s: string): (n: nat)
    ensures n <= |s| && AllDigits(s[..n])
    ensures n < |s| ==> !IsDigit(s[n])
  {
    if s == [] || !IsDigit(s[0]) then 0
    else
      var n := 1 + DigitRun(s[1..]);
      assert s[..n] == [s[0]] + s[1..][..n - 1];
      n
  }

  /** The number a matched group stands for: `%f` is right-padded with zeros
      to six digits before it is read. */
  function FieldValue(f: Field, text: string): nat
    requires AllDigits(text)
  {
    if f == Fraction && |text| < 6 then
      var padded := text + seq(6 - |text|, _ => '0');
      assert forall i :: |text| <= i < |padded| ==> padded[i] == '0';
      DigitsValue(padded)
    else DigitsValue(text)
  }

  /** Matching a text against a format; the captured text of each directive,
      in order, or `None` when the text does not match the whole format. */
  function Match(s: string, fmt: seq<Directive>): Option<seq<Capture>>
    decreases |fmt|
  {
    if fmt == [] then (if s == [] then Some([]) else None)
    else match fmt[0]
      case Lit(c) => if s != [] && s[0] == c then Match(s[1..], fmt[1..]) else None
      case Conv(f) =>
        var n := DigitRun(s);
        if !Accepts(f, s[..n]) then None
        else match Match(s[n..], fmt[1..])
          case None => None
          case Some(rest) => Some([Capture(f, FieldValue(f, s[..n]))] + rest)
  }

  function Combine(a: Option<seq<Capture>>, b: Option<seq<Capture>>): (r: Option<seq<Capture>>)
    ensures r.Some? <==> a.Some? && b.Some?
  {
    if a.Some? && b.Some? then Some(a.value + b.value) else None
  }

  /** The number captured for a directive, if the format has it. */
  function Lookup(caps: seq<Capture>, f: Field): Option<nat> {
    if caps == [] then None
    else if caps[0].field == f then Some(caps[0].value)
    else Lookup(caps[1..], f)
  }

  function NumberOr(caps: seq<Capture>, f: Field, default: int): int {
    match Lookup(caps, f)
    case Some(v) => v
    case None => default
  }

  /** The fields `_strptime` hands to `datetime`, with its defaults for the
      directives the format lacks (year 1900, month 1, day 1, zero otherwise). */
  function FromCaptures(caps: seq<Capture>): DateTime {
    DateTime(NumberOr(caps, Year, 1900), NumberOr(caps, Month, 1), NumberOr(caps, Day, 1),
             NumberOr(caps, Hour, 0), NumberOr(caps, Minute, 0), NumberOr(caps, Second, 0),
             NumberOr(caps, Fraction, 0))
  }

  datatype TimestampError =
    | NotOneSeparator   // `date, time = timestamp.split('T')` did not unpack
    | InvalidFormat     // 'Invalid timestamp format': wrong number of `:` or `.` parts
    | DoesNotMatch      // `strptime`: the text does not match the format
    | OutOfRange        // `datetime`: a field is outside its calendar range

  function Checked(t: DateTime): (r: Result<DateTime, TimestampError>)
    ensures r.Ok? <==> Valid(t)
    ensures r.Ok? ==> r.value == t
    ensures r.Err? ==> r.error == OutOfRange
  {
    if Valid(t) then Ok(t) else Err(OutOfRange)
  }

  /** `datetime.strptime(text, fmt)` for the formats above. */
  function Strptime(text: string, fmt: seq<Directive>): (r: Result<DateTime, TimestampError>)
    ensures r.Ok? ==> Valid(r.value)
  {
    match Match(text, fmt)
    case None => Err(DoesNotMatch)
    case Some(caps) => Checked(FromCaptures(caps))
  }

  // ---------------------------------------------------------------------------
  // parse_timestamp

  const DateFormat: seq<Directive> := [Conv(Year), Lit('-'), Conv(Month), Lit('-'), Conv(Day)]

  function Single(f: Field, text: string): (r: Option<seq<Capture>>)
    ensures r.Some? <==> Accepts(f, text)
  {
    if Accepts(f, text) then Some([Capture(f, FieldValue(f, text))]) else None
  }

  /** What `strptime` captures from the time components, piece by piece: hours
      and minutes, then seconds and the fraction cut to six characters. */
  function TimeCaptures(components: seq<string>): (r: Option<seq<Capture>>)
    requires |components| == 2 || |components| == 3
  {
    var minutes :=
      if |components| == 2 then Single(Minute, components[1])
      else if '.' !in components[2] then Combine(Single(Minute, components[1]), Single(Second, components[2]))
      else
        var parts := Split(components[2], '.');
        Combine(Single(Minute, components[1]),
                Combine(Single(Second, parts[0]), Single(Fraction, Take(parts[1], 6))));
    Combine(Single(Hour, components[0]), minutes)
  }

  /** `parse_timestamp`, stated component by component: trailing `Z`s are
      dropped, the rest must split into date and time at exactly one `T`, the
      time into two or three `:` parts, and seconds with a `.` into exactly two
      parts; then the date must match `%Y-%m-%d`, every time part its directive,
      and the result must be a calendar date and time. */
  function Parse(timestamp: string): (r: Result<DateTime, TimestampError>)
    ensures r.Ok? ==> Valid(r.value)
  {
    var parts := Split(RStrip(timestamp, 'Z'), 'T');
    if |parts| != 2 then Err(NotOneSeparator)
    else
      var components := Split(parts[1], ':');
      if |components| != 2 && |components| != 3 then Err(InvalidFormat)
      else if |components| == 3 && '.' in components[2] && |Split(components[2], '.')| != 2 then Err(InvalidFormat)
      else match Combine(Match(parts[0], DateFormat), TimeCaptures(components))
        case None => Err(DoesNotMatch)
        case Some(caps) => Checked(FromCaptures(caps))
  }

  lemma {:induction false} DigitRunAppend(s1: string, c: char, s2: string)
    requires !IsDigit(c)
    ensures DigitRun(s1 + [c] + s2) == DigitRun(s1)
    decreases |s1|
  {
    var s := s1 + [c] + s2;
    if s1 != [] {
      assert s[0] == s1[0] && s[1..] == s1[1..] + [c] + s2;
      if IsDigit(s1[0]) {
        DigitRunAppend(s1[1..], c, s2);
      }
    }
  }

  /** Matching a concatenation at a separator `c` that occurs nowhere in the
      first piece and is no digit: the match splits into the two pieces'. */
  lemma {:induction false} MatchAppend(s1: string, f1: seq<Directive>, c: char, s2: string, f2: seq<Directive>)
    requires !IsDigit(c) && c !in s1 && Lit(c) !in f1
    ensures Match(s1 + [c] + s2, f1 + [Lit(c)] + f2) == Combine(Match(s1, f1), Match(s2, f2))
    decreases |f1|
  {
    var s := s1 + [c] + s2;
    var f := f1 + [Lit(c)] + f2;
    if f1 == [] {
      assert f == [Lit(c)] + f2;
      if s1 == [] {
        assert s[1..] == s2;
        if Match(s2, f2).Some? {
          assert [] + Match(s2, f2).value == Match(s2, f2).value;
        }
      } else {
        assert s[0] == s1[0];
      }
    } else {
      assert f[0] == f1[0] && f[1..] == f1[1..] + [Lit(c)] + f2;
      assert f1[0] in f1;
      match f1[0]
      case Lit(d) =>
        if s1 != [] {
          assert s[0] == s1[0] && s[1..] == s1[1..] + [c] + s2;
          if s1[0] == d {
            MatchAppend(s1[1..], f1[1..], c, s2, f2);
          }
        }
      case Conv(k) =>
        var n := DigitRun(s1);
        DigitRunAppend(s1, c, s2);
        assert s[..n] == s1[..n];
        assert s[n..] == s1[n..] + [c] + s2;
        MatchAppend(s1[n..], f1[1..], c, s2, f2);
        var a, b := Match(s1[n..], f1[1..]), Match(s2, f2);
        if a.Some? && b.Some? {
          var c := Capture(k, FieldValue(k, s1[..n]));
          assert [c] + (a.value + b.value) == [c] + a.value + b.value;
        }
    }
  }

  lemma MatchSingle(f: Field, s: string)
    ensures Match(s, [Conv(f)]) == Single(f, s)
  {
    var n := DigitRun(s);
    if n == |s| {
      assert s[..n] == s && s[n..] == [];
      assert [Capture(f, FieldValue(f, s))] + [] == [Capture(f, FieldValue(f, s))];
    }
  }

  const HourMinuteFormat: seq<Directive> := DateFormat + [Lit('T'), Conv(Hour), Lit(':'), Conv(Minute)]

  const MinutesTimeFormat: seq<Directive> := [Conv(Hour), Lit(':'), Conv(Minute)]

  const MinutesSecondsFormat: seq<Directive> := [Conv(Minute), Lit(':'), Conv(Second)]

  const SecondsTimeFormat: seq<Directive> := [Conv(Hour), Lit(':')] + MinutesSecondsFormat

  const SecondsFractionFormat: seq<Directive> := [Conv(Second), Lit('.'), Conv(Fraction)]

  const MinutesFractionFormat: seq<Directive> := [Conv(Minute), Lit(':')] + SecondsFractionFormat

  const FractionTimeFormat: seq<Directive> := [Conv(Hour), Lit(':')] + MinutesFractionFormat

  /** The three formats `parse_timestamp` builds, as date format, `T` and a
      time format. */
  lemma FormatShapes()
    ensures HourMinuteFormat == DateFormat + [Lit('T')] + MinutesTimeFormat
    ensures HourMinuteFormat + [Lit(':'), Conv(Second)] == DateFormat + [Lit('T')] + SecondsTimeFormat
    ensures HourMinuteFormat + [Lit(':'), Conv(Second), Lit('.'), Conv(Fraction)]
         == DateFormat + [Lit('T')] + FractionTimeFormat
    ensures Lit('T') !in DateFormat
  {
  }

  lemma Regroup(date: string, hours: string, minutes: string, tail: string)
    ensures date + "T" + hours + ":" + minutes + tail == date + ['T'] + (hours + [':'] + (minutes + tail))
  {
  }

  lemma RegroupMinutes(date: string, hours: string, minutes: string)
    ensures date + "T" + hours + ":" + minutes == date + ['T'] + (hours + [':'] + minutes)
  {
  }

  lemma RegroupSeconds(date: string, hours: string, minutes: string, seconds: string)
    ensures date + "T" + hours + ":" + minutes + (":" + seconds)
         == date + ['T'] + (hours + [':'] + (minutes + [':'] + seconds))
  {
    Regroup(date, hours, minutes, [':'] + seconds);
  }

  lemma RegroupFraction(date: string, hours: string, minutes: string, seconds: string, micro: string)
    ensures date + "T" + hours + ":" + minutes + (":" + seconds + "." + micro)
         == date + ['T'] + (hours + [':'] + (minutes + [':'] + (seconds + ['.'] + micro)))
  {
    assert ":" + seconds + "." + micro == [':'] + (seconds + ['.'] + micro);
    Regroup(date, hours, minutes, [':'] + (seconds + ['.'] + micro));
  }

  lemma MinutesCaptures(hours: string, minutes: string)
    ensures TimeCaptures([hours, minutes]) == Combine(Single(Hour, hours), Single(Minute, minutes))
  {
    var c := [hours, minutes];
    assert c[0] == hours && c[1] == minutes;
  }

  lemma SecondsCaptures(hours: string, minutes: string, seconds: string)
    requires '.' !in seconds
    ensures TimeCaptures([hours, minutes, seconds])
         == Combine(Single(Hour, hours), Combine(Single(Minute, minutes), Single(Second, seconds)))
  {
    var c := [hours, minutes, seconds];
    assert c[0] == hours && c[1] == minutes && c[2] == seconds;
  }

  lemma FractionCaptures(hours: string, minutes: string, secondsComponent: string)
    requires '.' in secondsComponent && |Split(secondsComponent, '.')| == 2
    ensures var parts := Split(secondsComponent, '.');
      TimeCaptures([hours, minutes, secondsComponent])
      == Combine(Single(Hour, hours), Combine(Single(Minute, minutes),
           Combine(Single(Second, parts[0]), Single(Fraction, Take(parts[1], 6)))))
  {
    var c := [hours, minutes, secondsComponent];
    assert c[0] == hours && c[1] == minutes && c[2] == secondsComponent;
  }

  /** A directive followed by a literal separator that its text lacks. */
  lemma ConvThen(f: Field, text: string, c: char, rest: string, frest: seq<Directive>)
    requires !IsDigit(c) && c !in text
    ensures Match(text + [c] + rest, [Conv(f), Lit(c)] + frest) == Combine(Single(f, text), Match(rest, frest))
  {
    MatchSingle(f, text);
    MatchAppend(text, [Conv(f)], c, rest, frest);
    assert [Conv(f)] + [Lit(c)] + frest == [Conv(f), Lit(c)] + frest;
  }

  /** `%H:%M` reads `{hours}:{minutes}` as its two directives read the parts. */
  lemma RescanTimeMinutes(hours: string, minutes: string)
    requires ':' !in hours
    ensures Match(hours + [':'] + minutes, MinutesTimeFormat)
         == Combine(Single(Hour, hours), Single(Minute, minutes))
  {
    MatchSingle(Minute, minutes);
    ConvThen(Hour, hours, ':', minutes, [Conv(Minute)]);
  }

  /** `%S.%f` reads `{seconds}.{micro}`. */
  lemma RescanSecondsFraction(seconds: string, micro: string)
    requires '.' !in seconds
    ensures Match(seconds + ['.'] + micro, SecondsFractionFormat)
         == Combine(Single(Second, seconds), Single(Fraction, micro))
  {
    MatchSingle(Fraction, micro);
    ConvThen(Second, seconds, '.', micro, [Conv(Fraction)]);
  }

  /** `%M:%S` reads `{minutes}:{seconds}`. */
  lemma RescanMinutesSeconds(minutes: string, seconds: string)
    requires ':' !in minutes
    ensures Match(minutes + [':'] + seconds, MinutesSecondsFormat)
         == Combine(Single(Minute, minutes), Single(Second, seconds))
  {
    MatchSingle(Second, seconds);
    ConvThen(Minute, minutes, ':', seconds, [Conv(Second)]);
  }

  /** `%H:%M:%S` reads `{hours}:{minutes}:{seconds}` piece by piece. */
  lemma RescanTimeSeconds(hours: string, minutes: string, seconds: string)
    requires ':' !in hours && ':' !in minutes
    ensures Match(hours + [':'] + (minutes + [':'] + seconds), SecondsTimeFormat)
         == Combine(Single(Hour, hours), Combine(Single(Minute, minutes), Single(Second, seconds)))
  {
    RescanMinutesSeconds(minutes, seconds);
    ConvThen(Hour, hours, ':', minutes + [':'] + seconds, MinutesSecondsFormat);
  }

  /** `%M:%S.%f` reads `{minutes}:{seconds}.{micro}`. */
  lemma RescanMinutesFraction(minutes: string, seconds: string, micro: string)
    requires ':' !in minutes && '.' !in seconds
    ensures Match(minutes + [':'] + (seconds + ['.'] + micro), MinutesFractionFormat)
         == Combine(Single(Minute, minutes), Combine(Single(Second, seconds), Single(Fraction, micro)))
  {
    RescanSecondsFraction(seconds, micro);
    ConvThen(Minute, minutes, ':', seconds + ['.'] + micro, SecondsFractionFormat);
  }

  /** `%H:%M:%S.%f` reads `{hours}:{minutes}:{seconds}.{micro}` piece by piece. */
  lemma RescanTimeFraction(hours: string, minutes: string, seconds: string, micro: string)
    requires ':' !in hours && ':' !in minutes && '.' !in seconds
    ensures Match(hours + [':'] + (minutes + [':'] + (seconds + ['.'] + micro)), FractionTimeFormat)
         == Combine(Single(Hour, hours), Combine(Single(Minute, minutes),
              Combine(Single(Second, seconds), Single(Fraction, micro))))
  {
    RescanMinutesFraction(minutes, seconds, micro);
    ConvThen(Hour, hours, ':', minutes + [':'] + (seconds + ['.'] + micro), MinutesFractionFormat);
  }

  /** Re-reading `{date}T{hours}:{minutes}` captures what the date and the two
      time components capture on their own. */
  lemma RescanHourMinute(date: string, hours: string, minutes: string)
    requires 'T' !in date && ':' !in hours
    ensures Match(date + "T" + hours + ":" + minutes, HourMinuteFormat)
         == Combine(Match(date, DateFormat), TimeCaptures([hours, minutes]))
  {
    FormatShapes();
    MinutesCaptures(hours, minutes);
    RescanTimeMinutes(hours, minutes);
    MatchAppend(date, DateFormat, 'T', hours + [':'] + minutes, MinutesTimeFormat);
    RegroupMinutes(date, hours, minutes);
  }

  /** The same with `:{seconds}` appended. */
  lemma RescanSeconds(date: string, hours: string, minutes: string, seconds: string)
    requires 'T' !in date && ':' !in hours && ':' !in minutes && '.' !in seconds
    ensures Match(date + "T" + hours + ":" + minutes + (":" + seconds), HourMinuteFormat + [Lit(':'), Conv(Second)])
         == Combine(Match(date, DateFormat), TimeCaptures([hours, minutes, seconds]))
  {
    FormatShapes();
    SecondsCaptures(hours, minutes, seconds);
    RescanTimeSeconds(hours, minutes, seconds);
    MatchAppend(date, DateFormat, 'T', hours + [':'] + (minutes + [':'] + seconds), SecondsTimeFormat);
    RegroupSeconds(date, hours, minutes, seconds);
  }

  /** The same with `:{seconds}.{microseconds}` appended, where the seconds
      component splits into exactly two parts at `.`. */
  lemma RescanFraction(date: string, hours: string, minutes: string, secondsComponent: string)
    requires 'T' !in date && ':' !in hours && ':' !in minutes
    requires '.' in secondsComponent && |Split(secondsComponent, '.')| == 2
    ensures var parts := Split(secondsComponent, '.');
      Match(date + "T" + hours + ":" + minutes + (":" + parts[0] + "." + Take(parts[1], 6)),
            HourMinuteFormat + [Lit(':'), Conv(Second), Lit('.'), Conv(Fraction)])
      == Combine(Match(date, DateFormat), TimeCaptures([hours, minutes, secondsComponent]))
  {
    var parts := Split(secondsComponent, '.');
    var seconds, micro := parts[0], Take(parts[1], 6);
    assert seconds in parts;
    FormatShapes();
    FractionCaptures(hours, minutes, secondsComponent);
    RescanTimeFraction(hours, minutes, seconds, micro);
    MatchAppend(date, DateFormat, 'T', hours + [':'] + (minutes + [':'] + (seconds + ['.'] + micro)), FractionTimeFormat);
    RegroupFraction(date, hours, minutes, seconds, micro);
  }

  /** `parse_timestamp` as written: the format and the text handed to
      `strptime` are built up piece by piece, then matched in one go. */
  method ParseTimestamp(timestamp: string) returns (r: Result<DateTime, TimestampError>)
    ensures r == Parse(timestamp)
  {
    var stripped := RStrip(timestamp, 'Z');
    var parts := Split(stripped, 'T');
    if |parts| != 2 {
      return Err(NotOneSeparator);
    }
    var date, time := parts[0], parts[1];
    var components := Split(time, ':');
    if |components| != 2 && |components| != 3 {
      return Err(InvalidFormat);
    }
    var hours, minutes := components[0], components[1];
    assert parts[0] in parts && hours in components && minutes in components;
    var fmt := DateFormat + [Lit('T'), Conv(Hour), Lit(':'), Conv(Minute)];
    var text := date + "T" + hours + ":" + minutes;
    if |components| == 3 {
      var seconds := components[2];
      if '.' in seconds {
        var secondsParts := Split(seconds, '.');
        if |secondsParts| != 2 {
          return Err(InvalidFormat);
        }
        RescanFraction(date, hours, minutes, seconds);
        seconds := secondsParts[0];
        var microseconds := Take(secondsParts[1], 6);
        fmt := fmt + [Lit(':'), Conv(Second), Lit('.'), Conv(Fraction)];
        text := text + (":" + seconds + "." + microseconds);
      } else {
        RescanSeconds(date, hours, minutes, seconds);
        fmt := fmt + [Lit(':'), Conv(Second)];
        text := text + (":" + seconds);
      }
      assert components == [hours, minutes, components[2]];
    } else {
      RescanHourMinute(date, hours, minutes);
      assert components == [hours, minutes];
    }
    r := Strptime(text, fmt);
  }

  // ---------------------------------------------------------------------------
  // isoformat, and reading it back

  /** `YYYY-MM-DD`, as `datetime.isoformat()` writes the date. */
  function DateText(t: DateTime): (s: string)
    requires Valid(t)
    ensures |s| == 10
  {
    PadDigits(t.year, 4) + "-" + PadDigits(t.month, 2) + "-" + PadDigits(t.day, 2)
  }

  /** `HH:MM:SS` of the clock. */
  function ClockText(t: DateTime): (s: string)
    requires Valid(t)
    ensures |s| == 8
  {
    PadDigits(t.hour, 2) + ":" + PadDigits(t.minute, 2) + ":" + PadDigits(t.second, 2)
  }

  /** `timestamp.isoformat().replace('+00:00', 'Z')` for a UTC `datetime`:
      seconds always, the six-digit fraction only when it is not zero, then `Z`
      for the offset (the only `+00:00` in the text). */
  function Format(t: DateTime): (s: string)
    requires Valid(t)
    ensures |s| == if t.microsecond == 0 then 20 else 27
    ensures s[10] == 'T' && s[|s| - 1] == 'Z'
  {
    DateText(t) + "T" + ClockText(t)
      + (if t.microsecond != 0 then "." + PadDigits(t.microsecond, 6) else "")
      + "Z"
  }

  lemma Pow10Values()
    ensures Pow10(2) == 100 && Pow10(4) == 10000 && Pow10(6) == 1000000
  {
    assert Pow10(2) == 100;
    assert Pow10(4) == 100 * Pow10(2);
    assert Pow10(6) == 100 * Pow10(4);
  }

  /** Characters `i .. i + w` of `s` are decimal digits that read as `n`. */
  predicate DigitField(s: string, i: nat, w: nat, n: nat) {
    i + w <= |s| && AllDigits(s[i..i + w]) && DigitsValue(s[i..i + w]) == n
  }

  lemma PaddedDigitField(s: string, i: nat, w: nat, n: nat)
    requires i + w <= |s| && s[i..i + w] == PadDigits(n, w) && n < Pow10(w)
    ensures DigitField(s, i, w, n)
  {
    PadDigitsValue(n, w);
  }

  lemma DigitFieldShift(p: string, a: string, q: string, i: nat, w: nat, n: nat)
    requires DigitField(a, i, w, n)
    ensures DigitField(p + a + q, |p| + i, w, n)
  {
    assert (p + a + q)[|p| + i..|p| + i + w] == a[i..i + w];
  }

  /** `DateText` is `YYYY-MM-DD`, each group reading as its field. */
  lemma DateLayout(t: DateTime)
    requires Valid(t)
    ensures var d := DateText(t);
      && d[4] == '-' && d[7] == '-'
      && DigitField(d, 0, 4, t.year) && DigitField(d, 5, 2, t.month) && DigitField(d, 8, 2, t.day)
  {
    var d := DateText(t);
    var y, m, dd := PadDigits(t.year, 4), PadDigits(t.month, 2), PadDigits(t.day, 2);
    assert d[0..4] == y;
    assert d[5..7] == m;
    assert d[8..10] == dd;
    Pow10Values();
    PaddedDigitField(d, 0, 4, t.year);
    PaddedDigitField(d, 5, 2, t.month);
    PaddedDigitField(d, 8, 2, t.day);
  }

  /** `ClockText` is `HH:MM:SS`, each group reading as its field. */
  lemma ClockLayout(t: DateTime)
    requires Valid(t)
    ensures var c := ClockText(t);
      && c[2] == ':' && c[5] == ':'
      && DigitField(c, 0, 2, t.hour) && DigitField(c, 3, 2, t.minute) && DigitField(c, 6, 2, t.second)
  {
    var c := ClockText(t);
    var hh, mi, ss := PadDigits(t.hour, 2), PadDigits(t.minute, 2), PadDigits(t.second, 2);
    assert c[0..2] == hh;
    assert c[3..5] == mi;
    assert c[6..8] == ss;
    Pow10Values();
    PaddedDigitField(c, 0, 2, t.hour);
    PaddedDigitField(c, 3, 2, t.minute);
    PaddedDigitField(c, 6, 2, t.second);
  }

  /** `Format` writes the date groups first. */
  lemma FormatDateFields(t: DateTime)
    requires Valid(t)
    ensures var s := Format(t);
      && s[4] == '-' && s[7] == '-'
      && DigitField(s, 0, 4, t.year) && DigitField(s, 5, 2, t.month) && DigitField(s, 8, 2, t.day)
  {
    var s, date := Format(t), DateText(t);
    var rest := s[10..];
    assert s == [] + date + rest;
    DateLayout(t);
    DigitFieldShift([], date, rest, 0, 4, t.year);
    DigitFieldShift([], date, rest, 5, 2, t.month);
    DigitFieldShift([], date, rest, 8, 2, t.day);
  }

  /** `Format` writes the clock groups after the `T`. */
  lemma FormatClockFields(t: DateTime)
    requires Valid(t)
    ensures var s := Format(t);
      && s[13] == ':' && s[16] == ':'
      && DigitField(s, 11, 2, t.hour) && DigitField(s, 14, 2, t.minute) && DigitField(s, 17, 2, t.second)
  {
    var s, clock := Format(t), ClockText(t);
    var front, rest := s[..11], s[19..];
    assert s == front + clock + rest;
    ClockLayout(t);
    DigitFieldShift(front, clock, rest, 0, 2, t.hour);
    DigitFieldShift(front, clock, rest, 3, 2, t.minute);
    DigitFieldShift(front, clock, rest, 6, 2, t.second);
  }

  /** A fraction that is not zero is written as `.` and six digits. */
  lemma FormatFractionField(t: DateTime)
    requires Valid(t) && t.microsecond != 0
    ensures var s := Format(t);
      s[19] == '.' && DigitField(s, 20, 6, t.microsecond)
  {
    var s, us := Format(t), PadDigits(t.microsecond, 6);
    var front := s[..20];
    assert s == front + us + "Z";
    Pow10Values();
    PaddedDigitField(us, 0, 6, t.microsecond);
    DigitFieldShift(front, us, "Z", 0, 6, t.microsecond);
  }

  /** The text `Format` writes is an RFC 3339 `date-time` with the `Z`
      offset: four-digit year, `-`, two-digit month, `-`, two-digit day, `T`,
      two-digit hour, `:`, minute, `:`, second, and, when the microsecond is
      not zero, `.` and six fraction digits; each digit group reads back as
      its field. */
  lemma FormatLayout(t: DateTime)
    requires Valid(t)
    ensures var s := Format(t);
      && s[4] == '-' && s[7] == '-' && s[10] == 'T' && s[13] == ':' && s[16] == ':'
      && DigitField(s, 0, 4, t.year) && DigitField(s, 5, 2, t.month) && DigitField(s, 8, 2, t.day)
      && DigitField(s, 11, 2, t.hour) && DigitField(s, 14, 2, t.minute) && DigitField(s, 17, 2, t.second)
      && (t.microsecond != 0 ==> s[19] == '.' && DigitField(s, 20, 6, t.microsecond))
  {
    FormatDateFields(t);
    FormatClockFields(t);
    if t.microsecond != 0 {
      FormatFractionField(t);
    }
  }

  /** A number in a directive's range, zero-padded to a width the directive
      accepts, is accepted and reads back as the number. */
  lemma PaddedField(f: Field, n: nat, width: nat)
    requires MinWidth(f) <= width <= MaxWidth(f) && Lowest(f) <= n <= Highest(f) && n < Pow10(width)
    requires f == Fraction ==> width == 6
    ensures Accepts(f, PadDigits(n, width)) && FieldValue(f, PadDigits(n, width)) == n
  {
    PadDigitsValue(n, width);
  }

  lemma DateFormatShape()
    ensures DateFormat == [Conv(Year)] + [Lit('-')] + ([Conv(Month)] + [Lit('-')] + [Conv(Day)])
  {
  }

  /** `%Y-%m-%d` reads `{y}-{mo}-{d}` as its three directives read the parts. */
  lemma MatchDateText(y: string, mo: string, d: string)
    requires '-' !in y && '-' !in mo
    ensures Match(y + "-" + mo + "-" + d, DateFormat)
         == Combine(Single(Year, y), Combine(Single(Month, mo), Single(Day, d)))
  {
    MatchSingle(Year, y);
    MatchSingle(Month, mo);
    MatchSingle(Day, d);
    var md := mo + ['-'] + d;
    MatchAppend(mo, [Conv(Month)], '-', d, [Conv(Day)]);
    MatchAppend(y, [Conv(Year)], '-', md, [Conv(Month)] + [Lit('-')] + [Conv(Day)]);
    assert y + "-" + mo + "-" + d == y + ['-'] + md;
    DateFormatShape();
  }

  lemma {:induction false} LookupAt(caps: seq<Capture>, f: Field, i: nat)
    requires i < |caps| && caps[i].field == f
    requires forall j :: 0 <= j < i ==> caps[j].field != f
    ensures Lookup(caps, f) == Some(caps[i].value)
  {
    if i > 0 {
      LookupAt(caps[1..], f, i - 1);
    }
  }

  lemma {:induction false} LookupAbsent(caps: seq<Capture>, f: Field)
    requires forall j :: 0 <= j < |caps| ==> caps[j].field != f
    ensures Lookup(caps, f) == None
    decreases |caps|
  {
    if caps != [] {
      LookupAbsent(caps[1..], f);
    }
  }

  /** The captures of a formatted `datetime`: the date and clock, then as
      many of seconds and fraction as `count` (2 to 4) says. */
  function FormattedCaps(t: DateTime, count: nat): seq<Capture>
    requires Valid(t)
  {
    [Capture(Year, t.year), Capture(Month, t.month), Capture(Day, t.day), Capture(Hour, t.hour), Capture(Minute, t.minute)]
      + (if count >= 3 then [Capture(Second, t.second)] else [])
      + (if count >= 4 then [Capture(Fraction, t.microsecond)] else [])
  }

  lemma FormattedCapsShape(t: DateTime)
    requires Valid(t)
    ensures FormattedCaps(t, 2)
         == [Capture(Year, t.year)] + [Capture(Month, t.month)] + [Capture(Day, t.day)] + [Capture(Hour, t.hour)]
            + [Capture(Minute, t.minute)]
    ensures FormattedCaps(t, 3)
         == [Capture(Year, t.year)] + [Capture(Month, t.month)] + [Capture(Day, t.day)] + [Capture(Hour, t.hour)]
            + [Capture(Minute, t.minute)] + [Capture(Second, t.second)]
    ensures FormattedCaps(t, 4)
         == [Capture(Year, t.year)] + [Capture(Month, t.month)] + [Capture(Day, t.day)] + [Capture(Hour, t.hour)]
            + [Capture(Minute, t.minute)] + [Capture(Second, t.second)] + [Capture(Fraction, t.microsecond)]
  {
  }

  /** Reading the captures of a formatted `datetime` back gives the
      `datetime`, the missing seconds and fraction defaulting to zero. */
  lemma ReadBack(t: DateTime, count: nat)
    requires Valid(t) && 2 <= count <= 4
    requires count < 3 ==> t.second == 0
    requires count < 4 ==> t.microsecond == 0
    ensures FromCaptures(FormattedCaps(t, count)) == t
  {
    var caps := FormattedCaps(t, count);
    LookupAt(caps, Year, 0);
    LookupAt(caps, Month, 1);
    LookupAt(caps, Day, 2);
    LookupAt(caps, Hour, 3);
    LookupAt(caps, Minute, 4);
    if count >= 3 { LookupAt(caps, Second, 5); } else { LookupAbsent(caps, Second); }
    if count >= 4 { LookupAt(caps, Fraction, 6); } else { LookupAbsent(caps, Fraction); }
  }

  /** A timestamp whose date and time hold no `T`, the time not ending in
      `Z`, splits into the two at the `T` once its `Z` is stripped. */
  lemma SplitTimestamp(date: string, time: string)
    requires 'T' !in date && 'T' !in time && time != [] && time[|time| - 1] != 'Z'
    ensures Split(RStrip(date + "T" + time + "Z", 'Z'), 'T') == [date, time]
  {
    var body := date + ['T'] + time;
    assert date + "T" + time + "Z" == body + ['Z'];
    assert body[|body| - 1] == time[|time| - 1];
    RStripOne(body, 'Z');
    SplitTwo(date, time, 'T');
  }

  /** `Parse` once the splitting has been worked out. */
  lemma ParseWhenSplit(timestamp: string, date: string, components: seq<string>, caps: seq<Capture>)
    requires |Split(RStrip(timestamp, 'Z'), 'T')| == 2
    requires Split(RStrip(timestamp, 'Z'), 'T')[0] == date
    requires Split(Split(RStrip(timestamp, 'Z'), 'T')[1], ':') == components
    requires |components| == 2 || |components| == 3
    requires |components| == 3 && '.' in components[2] ==> |Split(components[2], '.')| == 2
    requires Combine(Match(date, DateFormat), TimeCaptures(components)) == Some(caps)
    ensures Parse(timestamp) == Checked(FromCaptures(caps))
  {
  }

  lemma CapsJoin(a: seq<Capture>, b: seq<Capture>, c: seq<Capture>, d: seq<Capture>, e: seq<Capture>,
                 f: seq<Capture>, g: seq<Capture>)
    ensures a + (b + c) + (d + (e + (f + g))) == a + b + c + d + e + f + g
    ensures a + (b + c) + (d + (e + f)) == a + b + c + d + e + f
    ensures a + (b + c) + (d + e) == a + b + c + d + e
  {
  }

  /** The date part of a formatted `datetime` matches `%Y-%m-%d`. */
  lemma MatchDate(t: DateTime)
    requires Valid(t)
    ensures Match(DateText(t), DateFormat)
         == Some([Capture(Year, t.year)] + ([Capture(Month, t.month)] + [Capture(Day, t.day)]))
  {
    Pow10Values();
    PaddedField(Year, t.year, 4);
    PaddedField(Month, t.month, 2);
    PaddedField(Day, t.day, 2);
    DigitsExclude(PadDigits(t.year, 4), '-');
    DigitsExclude(PadDigits(t.month, 2), '-');
    MatchDateText(PadDigits(t.year, 4), PadDigits(t.month, 2), PadDigits(t.day, 2));
  }

  /** The date text holds no `T`, and the clock fields are digit strings. */
  lemma DateDigits(t: DateTime)
    requires Valid(t)
    ensures 'T' !in DateText(t)
    ensures AllDigits(PadDigits(t.hour, 2)) && AllDigits(PadDigits(t.minute, 2))
    ensures AllDigits(PadDigits(t.second, 2)) && AllDigits(PadDigits(t.microsecond, 6)) && |PadDigits(t.microsecond, 6)| == 6
  {
    DigitsExclude(PadDigits(t.year, 4), 'T');
    DigitsExclude(PadDigits(t.month, 2), 'T');
    DigitsExclude(PadDigits(t.day, 2), 'T');
  }

  /** The text `{DateText}T{ClockText}.{six digits}{more digits}Z`. */
  function FractionText(t: DateTime, extra: string): string
    requires Valid(t)
  {
    DateText(t) + "T" + ClockText(t) + "." + PadDigits(t.microsecond, 6) + extra + "Z"
  }

  lemma FractionTextShape(date: string, hh: string, mi: string, ss: string, us: string, extra: string)
    ensures date + "T" + (hh + ":" + mi + ":" + ss) + "." + us + extra + "Z"
         == date + "T" + (hh + [':'] + (mi + [':'] + (ss + ['.'] + (us + extra)))) + "Z"
  {
  }

  /** Text after the sixth fraction character that `parse_timestamp` drops
      without looking at it: it holds none of the separators the timestamp is
      split at and does not end in the stripped `Z`. */
  predicate IgnoredTail(extra: string) {
    && 'T' !in extra && ':' !in extra && '.' !in extra
    && (extra == [] || extra[|extra| - 1] != 'Z')
  }

  /** How `parse_timestamp` cuts `{date}T{hh}:{mi}:{ss}.{us}{extra}Z` apart,
      for digit strings and a six-digit `us`. */
  lemma FractionSplits(date: string, hh: string, mi: string, ss: string, us: string, extra: string)
    requires 'T' !in date && AllDigits(hh) && AllDigits(mi) && AllDigits(ss)
    requires AllDigits(us) && |us| == 6 && IgnoredTail(extra)
    ensures var sec := ss + ['.'] + (us + extra);
      var time := hh + [':'] + (mi + [':'] + sec);
      var parts := Split(RStrip(date + "T" + time + "Z", 'Z'), 'T');
      && parts == [date, time]
      && Split(time, ':') == [hh, mi, sec]
      && '.' in sec && Split(sec, '.') == [ss, us + extra]
      && Take(us + extra, 6) == us
  {
    var fe := us + extra;
    var sec := ss + ['.'] + fe;
    var time := hh + [':'] + (mi + [':'] + sec);
    DigitsExclude(us, 'T');
    DigitsExclude(us, ':');
    DigitsExclude(us, '.');
    assert 'T' !in fe && ':' !in fe && '.' !in fe;
    assert fe[|fe| - 1] != 'Z' by {
      if extra == [] {
        assert fe[|fe| - 1] == us[5];
      } else {
        assert fe[|fe| - 1] == extra[|extra| - 1];
      }
    }
    DigitsExclude(hh, 'T');
    DigitsExclude(mi, 'T');
    DigitsExclude(ss, 'T');
    DigitsExclude(hh, ':');
    DigitsExclude(mi, ':');
    DigitsExclude(ss, ':');
    DigitsExclude(ss, '.');
    assert 'T' !in time;
    assert time[|time| - 1] == fe[|fe| - 1];
    SplitTimestamp(date, time);
    SplitThree(hh, mi, sec, ':');
    SplitTwo(ss, fe, '.');
    assert fe[..6] == us;
  }

  /** The captures of the date and of the clock components with a fraction,
      for the fields of a valid `datetime`. */
  lemma FractionCombine(t: DateTime, sec: string, fe: string)
    requires Valid(t)
    requires '.' in sec && Split(sec, '.') == [PadDigits(t.second, 2), fe] && Take(fe, 6) == PadDigits(t.microsecond, 6)
    ensures Combine(Match(DateText(t), DateFormat), TimeCaptures([PadDigits(t.hour, 2), PadDigits(t.minute, 2), sec]))
         == Some(FormattedCaps(t, 4))
  {
    var hh, mi, ss, us := PadDigits(t.hour, 2), PadDigits(t.minute, 2), PadDigits(t.second, 2), PadDigits(t.microsecond, 6);
    Pow10Values();
    PaddedField(Hour, t.hour, 2);
    PaddedField(Minute, t.minute, 2);
    PaddedField(Second, t.second, 2);
    PaddedField(Fraction, t.microsecond, 6);
    var h, m, sc, f := [Capture(Hour, t.hour)], [Capture(Minute, t.minute)], [Capture(Second, t.second)], [Capture(Fraction, t.microsecond)];
    assert Single(Hour, hh) == Some(h);
    assert Single(Minute, mi) == Some(m);
    assert Single(Second, ss) == Some(sc);
    assert Single(Fraction, us) == Some(f);
    FractionCaptures(hh, mi, sec);
    assert TimeCaptures([hh, mi, sec]) == Some(h + (m + (sc + f)));
    MatchDate(t);
    var y, mo, d := [Capture(Year, t.year)], [Capture(Month, t.month)], [Capture(Day, t.day)];
    CapsJoin(y, mo, d, h, m, sc, f);
    FormattedCapsShape(t);
  }

  /** A fraction longer than six characters is cut to six (not rounded): any
      text after the six written digits that holds no separator is dropped
      unread, and the rest of the timestamp reads back field by field. */
  lemma ParseFraction(t: DateTime, extra: string)
    requires Valid(t) && IgnoredTail(extra)
    ensures Parse(FractionText(t, extra)) == Ok(t)
  {
    var hh, mi, ss, us := PadDigits(t.hour, 2), PadDigits(t.minute, 2), PadDigits(t.second, 2), PadDigits(t.microsecond, 6);
    var date := DateText(t);
    var sec := ss + ['.'] + (us + extra);
    FractionTextShape(date, hh, mi, ss, us, extra);
    DateDigits(t);
    FractionSplits(date, hh, mi, ss, us, extra);
    FractionCombine(t, sec, us + extra);
    ParseWhenSplit(FractionText(t, extra), date, [hh, mi, sec], FormattedCaps(t, 4));
    ReadBack(t, 4);
  }

  lemma SecondsTextShape(date: string, hh: string, mi: string, ss: string)
    ensures date + "T" + (hh + ":" + mi + ":" + ss) + "Z"
         == date + "T" + (hh + [':'] + (mi + [':'] + ss)) + "Z"
  {
  }

  /** How `parse_timestamp` cuts `{date}T{hh}:{mi}:{ss}Z` apart. */
  lemma SecondsSplits(date: string, hh: string, mi: string, ss: string)
    requires 'T' !in date && AllDigits(hh) && AllDigits(mi) && AllDigits(ss) && ss != []
    ensures var time := hh + [':'] + (mi + [':'] + ss);
      && Split(RStrip(date + "T" + time + "Z", 'Z'), 'T') == [date, time]
      && Split(time, ':') == [hh, mi, ss]
      && '.' !in ss
  {
    var time := hh + [':'] + (mi + [':'] + ss);
    DigitsExclude(hh, 'T');
    DigitsExclude(mi, 'T');
    DigitsExclude(ss, 'T');
    DigitsExclude(hh, ':');
    DigitsExclude(mi, ':');
    DigitsExclude(ss, ':');
    DigitsExclude(ss, '.');
    assert 'T' !in time;
    assert time[|time| - 1] == ss[|ss| - 1];
    SplitTimestamp(date, time);
    SplitThree(hh, mi, ss, ':');
  }

  /** How `parse_timestamp` cuts `{date}T{hh}:{mi}Z` apart. */
  lemma MinutesSplits(date: string, hh: string, mi: string)
    requires 'T' !in date && AllDigits(hh) && AllDigits(mi) && mi != []
    ensures var time := hh + [':'] + mi;
      && Split(RStrip(date + "T" + time + "Z", 'Z'), 'T') == [date, time]
      && Split(time, ':') == [hh, mi]
  {
    var time := hh + [':'] + mi;
    DigitsExclude(hh, 'T');
    DigitsExclude(mi, 'T');
    DigitsExclude(hh, ':');
    DigitsExclude(mi, ':');
    assert 'T' !in time;
    assert time[|time| - 1] == mi[|mi| - 1];
    SplitTimestamp(date, time);
    SplitTwo(hh, mi, ':');
  }

  lemma SecondsCombine(t: DateTime)
    requires Valid(t)
    ensures Combine(Match(DateText(t), DateFormat),
                    TimeCaptures([PadDigits(t.hour, 2), PadDigits(t.minute, 2), PadDigits(t.second, 2)]))
         == Some(FormattedCaps(t, 3))
  {
    var hh, mi, ss := PadDigits(t.hour, 2), PadDigits(t.minute, 2), PadDigits(t.second, 2);
    Pow10Values();
    PaddedField(Hour, t.hour, 2);
    PaddedField(Minute, t.minute, 2);
    PaddedField(Second, t.second, 2);
    var h, m, sc := [Capture(Hour, t.hour)], [Capture(Minute, t.minute)], [Capture(Second, t.second)];
    assert Single(Hour, hh) == Some(h);
    assert Single(Minute, mi) == Some(m);
    assert Single(Second, ss) == Some(sc);
    DigitsExclude(ss, '.');
    SecondsCaptures(hh, mi, ss);
    assert TimeCaptures([hh, mi, ss]) == Some(h + (m + sc));
    MatchDate(t);
    var y, mo, d := [Capture(Year, t.year)], [Capture(Month, t.month)], [Capture(Day, t.day)];
    CapsJoin(y, mo, d, h, m, sc, []);
    FormattedCapsShape(t);
  }

  lemma MinutesCombine(t: DateTime)
    requires Valid(t)
    ensures Combine(Match(DateText(t), DateFormat), TimeCaptures([PadDigits(t.hour, 2), PadDigits(t.minute, 2)]))
         == Some(FormattedCaps(t, 2))
  {
    var hh, mi := PadDigits(t.hour, 2), PadDigits(t.minute, 2);
    Pow10Values();
    PaddedField(Hour, t.hour, 2);
    PaddedField(Minute, t.minute, 2);
    var h, m := [Capture(Hour, t.hour)], [Capture(Minute, t.minute)];
    assert Single(Hour, hh) == Some(h);
    assert Single(Minute, mi) == Some(m);
    MinutesCaptures(hh, mi);
    assert TimeCaptures([hh, mi]) == Some(h + m);
    MatchDate(t);
    var y, mo, d := [Capture(Year, t.year)], [Capture(Month, t.month)], [Capture(Day, t.day)];
    CapsJoin(y, mo, d, h, m, [], []);
    FormattedCapsShape(t);
  }

  /** A timestamp with whole seconds and no fraction reads back with a zero
      fraction. */
  lemma ParseSeconds(t: DateTime)
    requires Valid(t) && t.microsecond == 0
    ensures Parse(DateText(t) + "T" + ClockText(t) + "Z") == Ok(t)
  {
    var hh, mi, ss := PadDigits(t.hour, 2), PadDigits(t.minute, 2), PadDigits(t.second, 2);
    var date := DateText(t);
    SecondsTextShape(date, hh, mi, ss);
    DateDigits(t);
    SecondsSplits(date, hh, mi, ss);
    SecondsCombine(t);
    ParseWhenSplit(date + "T" + ClockText(t) + "Z", date, [hh, mi, ss], FormattedCaps(t, 3));
    ReadBack(t, 3);
  }

  /** `{date}THH:MMZ`: the missing seconds and fraction read back as zero. */
  lemma ParseMinutes(t: DateTime)
    requires Valid(t) && t.second == 0 && t.microsecond == 0
    ensures Parse(DateText(t) + "T" + PadDigits(t.hour, 2) + ":" + PadDigits(t.minute, 2) + "Z") == Ok(t)
  {
    var hh, mi := PadDigits(t.hour, 2), PadDigits(t.minute, 2);
    var date := DateText(t);
    assert date + "T" + hh + ":" + mi + "Z" == date + "T" + (hh + [':'] + mi) + "Z";
    DateDigits(t);
    MinutesSplits(date, hh, mi);
    MinutesCombine(t);
    ParseWhenSplit(date + "T" + hh + ":" + mi + "Z", date, [hh, mi], FormattedCaps(t, 2));
    ReadBack(t, 2);
  }

  lemma FormatShape(t: DateTime)
    requires Valid(t)
    ensures t.microsecond != 0 ==> Format(t) == FractionText(t, [])
    ensures t.microsecond == 0 ==> Format(t) == DateText(t) + "T" + ClockText(t) + "Z"
  {
    var date, clock, us := DateText(t), ClockText(t), PadDigits(t.microsecond, 6);
    if t.microsecond != 0 {
      assert date + "T" + clock + ("." + us) + "Z" == date + "T" + clock + "." + us + [] + "Z";
    } else {
      assert date + "T" + clock + "" + "Z" == date + "T" + clock + "Z";
    }
  }

  /** The round trip: `parse_timestamp` reads back what `to_dict` writes for
      every valid UTC `datetime`. */
  lemma ParseFormat(t: DateTime)
    requires Valid(t)
    ensures Parse(Format(t)) == Ok(t)
  {
    FormatShape(t);
    if t.microsecond != 0 {
      ParseFraction(t, []);
    } else {
      ParseSeconds(t);
    }
  }

  // ---------------------------------------------------------------------------
  // The error conditions of parse_timestamp

  /** Trailing `Z`s are optional: one more changes nothing. */
  lemma ParseIgnoresTrailingZ(s: string)
    ensures Parse(s + "Z") == Parse(s)
  {
    assert (s + "Z")[..|s|] == s;
  }

  /** The first check: exactly one `T` once the trailing `Z`s are gone. */
  lemma ParseSeparator(s: string)
    ensures Parse(s) == Err(NotOneSeparator) <==> multiset(RStrip(s, 'Z'))['T'] != 1
  {
    SplitCount(RStrip(s, 'Z'), 'T');
  }

  /** The second check: the time has one or two `:`, and seconds holding a
      `.` hold exactly one. */
  lemma ParseShape(s: string)
    requires multiset(RStrip(s, 'Z'))['T'] == 1
    ensures var time := Split(RStrip(s, 'Z'), 'T')[1];
      var colons := multiset(time)[':'];
      && |Split(time, ':')| == colons + 1
      && (Parse(s) == Err(InvalidFormat)
          <==> (colons != 1 && colons != 2) || (colons == 2 && multiset(Split(time, ':')[2])['.'] >= 2))
  {
    var parts := Split(RStrip(s, 'Z'), 'T');
    SplitCount(RStrip(s, 'Z'), 'T');
    var components := Split(parts[1], ':');
    SplitCount(parts[1], ':');
    if |components| == 3 {
      SplitCount(components[2], '.');
    }
    ParseFormatError(s);
  }

  /** The format error, in terms of the pieces `Parse` splits the text into. */
  lemma ParseFormatError(s: string)
    requires |Split(RStrip(s, 'Z'), 'T')| == 2
    ensures var components := Split(Split(RStrip(s, 'Z'), 'T')[1], ':');
      (Parse(s) == Err(InvalidFormat)
       <==> || (|components| != 2 && |components| != 3)
            || (|components| == 3 && '.' in components[2] && |Split(components[2], '.')| != 2))
  {
  }

  // The worked examples, one rendering step at a time.

  lemma ExampleYearPad()
    ensures PadDigits(2023, 4) == "2023"
  {
    assert PadDigits(2, 1) == [DigitChar(2)];
    assert PadDigits(20, 2) == PadDigits(2, 1) + [DigitChar(0)];
    assert PadDigits(202, 3) == PadDigits(20, 2) + [DigitChar(2)];
  }

  lemma ExampleTwoDigitPads()
    ensures PadDigits(6, 2) == "06" && PadDigits(7, 2) == "07"
    ensures PadDigits(2, 2) == "02" && PadDigits(58, 2) == "58" && PadDigits(54, 2) == "54"
  {
  }

  lemma ExampleFractionPad()
    ensures PadDigits(640805, 6) == "640805"
  {
    assert PadDigits(6, 1) == [DigitChar(6)];
    assert PadDigits(64, 2) == PadDigits(6, 1) + [DigitChar(4)];
    assert PadDigits(640, 3) == PadDigits(64, 2) + [DigitChar(0)];
    assert PadDigits(6408, 4) == PadDigits(640, 3) + [DigitChar(8)];
    assert PadDigits(64080, 5) == PadDigits(6408, 4) + [DigitChar(0)];
  }

  lemma ExampleDate()
    ensures DateText(DateTime(2023, 6, 7, 2, 58, 54, 640805)) == "2023-06-07"
    ensures DateText(DateTime(2023, 6, 7, 2, 58, 54, 0)) == "2023-06-07"
    ensures DateText(DateTime(2023, 6, 7, 2, 58, 0, 0)) == "2023-06-07"
  {
    ExampleYearPad();
    ExampleTwoDigitPads();
  }

  lemma ExampleClock()
    ensures ClockText(DateTime(2023, 6, 7, 2, 58, 54, 640805)) == "02:58:54"
    ensures ClockText(DateTime(2023, 6, 7, 2, 58, 54, 0)) == "02:58:54"
  {
    ExampleTwoDigitPads();
  }

  lemma ExampleConcat(extra: string)
    ensures "2023-06-07" + "T" + "02:58:54" + "." + "640805" + extra + "Z" == "2023-06-07T02:58:54.640805" + extra + "Z"
  {
  }

  lemma ExampleFractionText(extra: string)
    ensures FractionText(DateTime(2023, 6, 7, 2, 58, 54, 640805), extra) == "2023-06-07T02:58:54.640805" + extra + "Z"
  {
    var t := DateTime(2023, 6, 7, 2, 58, 54, 640805);
    var date, clock, us := DateText(t), ClockText(t), PadDigits(640805, 6);
    assert us == "640805" by { ExampleFractionPad(); }
    ExampleDate();
    ExampleClock();
    ExampleConcat(extra);
  }

  lemma ExampleTails()
    ensures IgnoredTail("116") && IgnoredTail("abc")
  {
  }

  lemma ExampleTruncationText()
    ensures FractionText(DateTime(2023, 6, 7, 2, 58, 54, 640805), "116") == "2023-06-07T02:58:54.640805116Z"
  {
    ExampleFractionText("116");
  }

  lemma ExampleLettersText()
    ensures FractionText(DateTime(2023, 6, 7, 2, 58, 54, 640805), "abc") == "2023-06-07T02:58:54.640805abcZ"
  {
    ExampleFractionText("abc");
  }

  /** The example of the `parse_timestamp` docstring: nine fraction digits
      are cut to six. */
  lemma TruncationExample()
    ensures Parse("2023-06-07T02:58:54.640805116Z") == Ok(DateTime(2023, 6, 7, 2, 58, 54, 640805))
  {
    ExampleTails();
    ParseFraction(DateTime(2023, 6, 7, 2, 58, 54, 640805), "116");
    ExampleTruncationText();
  }

  /** What follows the sixth fraction character is never read, so letters
      there are accepted too. */
  lemma FractionLettersExample()
    ensures Parse("2023-06-07T02:58:54.640805abcZ") == Ok(DateTime(2023, 6, 7, 2, 58, 54, 640805))
  {
    ExampleTails();
    ParseFraction(DateTime(2023, 6, 7, 2, 58, 54, 640805), "abc");
    ExampleLettersText();
  }

  lemma ExampleMinutesText()
    ensures DateText(DateTime(2023, 6, 7, 2, 58, 0, 0)) + "T" + PadDigits(2, 2) + ":" + PadDigits(58, 2) + "Z" == "2023-06-07T02:58Z"
  {
    assert PadDigits(2, 2) == "02" && PadDigits(58, 2) == "58" by { ExampleTwoDigitPads(); }
    ExampleDate();
  }

  /** Without seconds the seconds are zero. */
  lemma MinutesExample()
    ensures Parse("2023-06-07T02:58Z") == Ok(DateTime(2023, 6, 7, 2, 58, 0, 0))
  {
    var t := DateTime(2023, 6, 7, 2, 58, 0, 0);
    ParseMinutes(t);
    ExampleMinutesText();
  }

  lemma ExampleSecondsText()
    ensures var t := DateTime(2023, 6, 7, 2, 58, 54, 0);
      DateText(t) + "T" + ClockText(t) + "Z" == "2023-06-07T02:58:54Z"
  {
    ExampleDate();
    ExampleClock();
    assert "2023-06-07" + "T" + "02:58:54" + "Z" == "2023-06-07T02:58:54Z";
  }

  /** Whole seconds and no fraction: the fraction is zero. */
  lemma SecondsExample()
    ensures Parse("2023-06-07T02:58:54Z") == Ok(DateTime(2023, 6, 7, 2, 58, 54, 0))
  {
    ParseSeconds(DateTime(2023, 6, 7, 2, 58, 54, 0));
    ExampleSecondsText();
  }
}
