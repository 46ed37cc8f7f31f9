/** `extract_time_limit`: turning the `--start-time` / `--end-time` text
    into an (hour, minute) pair. */
module ClockTime {
  import opened Wrappers
  import Text
  import Decimal

  /** Python's ValueError from `int(segment)` on a segment that is not an
      integer literal. */
  datatype TimeError = InvalidTimeFormat(segment: string)

  /** `int(segment)`, with the failing segment reported. */
  function ParseSegment(segment: string): (r: Result<int, TimeError>)
    ensures r.Success? <==> Decimal.IsIntegerLiteral(segment)
    ensures r.Success? ==> Decimal.ParseInt(segment) == Some(r.value)
    ensures r.Failure? ==> r.error.segment == segment
  {
    match Decimal.ParseInt(segment)
    case Some(n) => Success(n)
    case None => Failure(InvalidTimeFormat(segment))
  }

  /** Split on ':'; with one part the minute defaults to 0, otherwise the
      first two parts are hour and minute and any later part is ignored.
      There is no range check. The hour is converted before the minute, so
      a bad hour is the error reported when both are bad. */
  function ExtractTimeLimit(text: string): (r: Result<(int, int), TimeError>)
    ensures ':' !in text && r.Success? ==> r.value.1 == 0
    ensures r.Failure? ==> !Decimal.IsIntegerLiteral(r.error.segment)
    ensures r.Failure? ==> var parts := Text.Split(text, ':');
      r.error.segment == parts[0] || (|parts| > 1 && r.error.segment == parts[1])
  {
    var parts := Text.Split(text, ':');
    if |parts| == 1 then
      match ParseSegment(parts[0])
      case Failure(e) => Failure(e)
      case Success(hour) => Success((hour, 0))
    else
      match ParseSegment(parts[0])
      case Failure(e) => Failure(e)
      case Success(hour) =>
        match ParseSegment(parts[1])
        case Failure(e) => Failure(e)
        case Success(minute) => Success((hour, minute))
  }

  /** Text without a colon is the hour alone, with the minute defaulting
      to zero. */
  lemma HourOnly(text: string)
    requires ':' !in text
    ensures ExtractTimeLimit(text).Success? <==> Decimal.ParseInt(text).Some?
    ensures ExtractTimeLimit(text).Success? ==>
              ExtractTimeLimit(text).value == (Decimal.ParseInt(text).value, 0)
  {
  }

  /** "H:M" gives (int(H), int(M)); the first malformed segment is the error. */
  lemma HourAndMinute(hour: string, minute: string)
    requires ':' !in hour && ':' !in minute
    ensures var r := ExtractTimeLimit(hour + ":" + minute);
      && (r.Success? <==> Decimal.ParseInt(hour).Some? && Decimal.ParseInt(minute).Some?)
      && (r.Success? ==> r.value == (Decimal.ParseInt(hour).value, Decimal.ParseInt(minute).value))
      && (Decimal.ParseInt(hour).None? ==> r == Failure(InvalidTimeFormat(hour)))
      && (Decimal.ParseInt(hour).Some? && Decimal.ParseInt(minute).None? ==>
            r == Failure(InvalidTimeFormat(minute)))
  {
    Text.SplitAfterSegment(hour, minute, ':');
    assert Text.Split(minute, ':') == [minute];
  }

  /** Segments after the second are never looked at. */
  lemma TrailingSegmentsIgnored(hour: string, minute: string, rest: string)
    requires ':' !in hour && ':' !in minute
    ensures ExtractTimeLimit(hour + ":" + minute + ":" + rest) == ExtractTimeLimit(hour + ":" + minute)
  {
    assert hour + ":" + minute + ":" + rest == hour + [':'] + (minute + [':'] + rest);
    Text.SplitAfterSegment(hour, minute + [':'] + rest, ':');
    Text.SplitAfterSegment(minute, rest, ':');
    HourAndMinute(hour, minute);
  }

  /** Any pair of integers written as `str(h) + ":" + str(m)` comes back
      unchanged, out-of-range values included. */
  lemma FormattedPairRoundTrip(hour: int, minute: int)
    ensures ExtractTimeLimit(Decimal.FormatInt(hour) + ":" + Decimal.FormatInt(minute))
              == Success((hour, minute))
  {
    Decimal.ParseFormat(hour);
    Decimal.ParseFormat(minute);
    HourAndMinute(Decimal.FormatInt(hour), Decimal.FormatInt(minute));
  }

  /** `str(h)` alone comes back as (h, 0). */
  lemma FormattedHourRoundTrip(hour: int)
    ensures ExtractTimeLimit(Decimal.FormatInt(hour)) == Success((hour, 0))
  {
    Decimal.ParseFormat(hour);
    HourOnly(Decimal.FormatInt(hour));
  }

  /** The documented example "09:00": the leading zero is dropped. */
  lemma MorningExample()
    ensures ExtractTimeLimit("09:00") == Success((9, 0))
  {
    assert Decimal.FormatInt(9) == "9" && Decimal.FormatInt(0) == "0";
    Decimal.ParseFormat(9);
    Decimal.ParseFormat(0);
    Decimal.LeadingZeroIgnored("9");
    Decimal.LeadingZeroIgnored("0");
    assert "0" + "9" == "09" && "0" + "0" == "00";
    assert "09:00" == "09" + ":" + "00";
    HourAndMinute("09", "00");
  }

  /** The documented example "14:30". */
  lemma AfternoonExample()
    ensures ExtractTimeLimit("14:30") == Success((14, 30))
  {
    assert Decimal.FormatInt(14) == "14";
    assert Decimal.FormatInt(30) == "30";
    FormattedPairRoundTrip(14, 30);
    assert "14:30" == "14" + ":" + "30";
  }

  /** No range check: "24:99" is accepted as it stands. */
  lemma NoRangeCheck()
    ensures ExtractTimeLimit("24:99") == Success((24, 99))
  {
    assert Decimal.FormatInt(24) == "24";
    assert Decimal.FormatInt(99) == "99";
    FormattedPairRoundTrip(24, 99);
    assert "24:99" == "24" + ":" + "99";
  }

  /** An hour alone, and the segments that are not integers. */
  lemma EdgeExamples()
    ensures ExtractTimeLimit("9") == Success((9, 0))
    ensures ExtractTimeLimit("ab:00") == Failure(InvalidTimeFormat("ab"))
    ensures ExtractTimeLimit("9:") == Failure(InvalidTimeFormat(""))
    ensures ExtractTimeLimit("") == Failure(InvalidTimeFormat(""))
  {
    HourOnly("9");
    assert "ab:00" == "ab" + ":" + "00";
    HourAndMinute("ab", "00");
    assert "9:" == "9" + ":" + "";
    HourAndMinute("9", "");
    HourOnly("");
  }
}
