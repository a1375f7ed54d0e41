/** getTrxnTS: the transaction time rendered with Go's layout
    "2006.01.02.15.04.05.000", after adding the transaction's whole seconds
    to Go's zero time.Time (0001-01-01 00:00:00 UTC, not the Unix epoch). */
module Timestamp {
  import opened Decimal
  import opened Calendar
  import opened Records

  /** Returned when the transaction time cannot be read. */
  const Sentinel := "0000.00.00.00.00.000"

  /** Largest whole-second count whose time.Duration (int64 nanoseconds)
      does not overflow. */
  const MaxDurationSeconds := 9223372036

  /** The transaction times the conversion is modelled for. */
  predicate InDurationRange(s: int) {
    0 <= s <= MaxDurationSeconds
  }

  /** Fields that the layout prints at their fixed widths. */
  predicate Printable(t: DateTime) {
    && 0 <= t.year < 10000
    && 0 <= t.month < 100 && 0 <= t.day < 100
    && 0 <= t.hour < 100 && 0 <= t.minute < 100 && 0 <= t.second < 100
  }

  /** A separator followed by a two-digit field, then the rest of the string. */
  function Sep(n: nat, rest: string): string {
    "." + Pad(n, 2) + rest
  }

  /** The layout "2006.01.02.15.04.05.000" applied to t (zero nanoseconds). */
  function Format(t: DateTime): string
    requires Printable(t)
  {
    Pad(t.year, 4) + Sep(t.month, Sep(t.day, Sep(t.hour, Sep(t.minute, Sep(t.second, ".000")))))
  }

  /** Reads a separator and a two-digit field off the front of s. */
  function ReadSep(s: string): Option<(nat, string)> {
    if |s| >= 3 && s[0] == '.' && IsDigit(s[1]) && IsDigit(s[2])
    then Some((DigitsValue(s[1..3]), s[3..]))
    else None
  }

  /** Reads a string written with the layout back into its fields. */
  function Parse(r: string): Option<DateTime>
  {
    if |r| < 4 || !AllDigits(r[..4]) then None
    else
      match ReadSep(r[4..])
      case None => None
      case Some((month, r1)) =>
        match ReadSep(r1)
        case None => None
        case Some((day, r2)) =>
          match ReadSep(r2)
          case None => None
          case Some((hour, r3)) =>
            match ReadSep(r3)
            case None => None
            case Some((minute, r4)) =>
              match ReadSep(r4)
              case None => None
              case Some((second, r5)) =>
                if r5 == ".000" then Some(DateTime(DigitsValue(r[..4]), month, day, hour, minute, second))
                else None
  }

  /** getTrxnTS; txTime is None when the stub cannot supply the transaction
      time, otherwise its whole seconds. */
  function TrxnTS(txTime: Option<int>): (r: string)
    requires txTime.Some? ==> InDurationRange(txTime.value)
    ensures txTime.None? ==> r == Sentinel
    ensures txTime.Some? ==> |r| == 23 && r[19..] == ".000"
  {
    match txTime
    case None => Sentinel
    case Some(s) =>
      FromSecondsPrintable(s);
      FormatShape(FromSeconds(s));
      Format(FromSeconds(s))
  }

  // ---- lemmas -----------------------------------------------------------------

  /** Within the duration range the year stays below 10000. */
  lemma FromSecondsPrintable(s: nat)
    requires InDurationRange(s)
    ensures Valid(FromSeconds(s)) && Printable(FromSeconds(s))
  {
    FromSecondsCorrect(s);
    YearBelow(s);
  }

  /** At least 365 days pass per year, so the year is at most 293. */
  lemma YearBelow(s: nat)
    requires InDurationRange(s)
    ensures FromSeconds(s).year <= 293
  {
    var days := s / SecondsPerDay;
    assert days <= 106751;
    YearAndDayCorrect(days);
    var (y, doy) := YearAndDay(days);
    DaysBeforeYearClosedForm(y);
    ClosedFormAtLeast(y - 1);
    assert y <= 293;
  }

  /** The layout always has 23 characters and ends in the zero fraction. */
  lemma FormatShape(t: DateTime)
    requires Printable(t)
    ensures |Format(t)| == 23 && Format(t)[19..] == ".000"
  {
    PadLength(t.year, 4);
    PadLength(t.month, 2);
    PadLength(t.day, 2);
    PadLength(t.hour, 2);
    PadLength(t.minute, 2);
    PadLength(t.second, 2);
    var s5 := Sep(t.second, ".000");
    var s4 := Sep(t.minute, s5);
    var s3 := Sep(t.hour, s4);
    var s2 := Sep(t.day, s3);
    var s1 := Sep(t.month, s2);
    assert s5[3..] == ".000";
    assert s4[3..] == s5;
    assert s3[3..] == s4;
    assert s2[3..] == s3;
    assert s1[3..] == s2;
    assert Format(t)[4..] == s1;
  }

  lemma ReadSepOf(n: nat, rest: string)
    requires n < 100
    ensures ReadSep(Sep(n, rest)) == Some((n, rest))
  {
    PadRoundTrip(n, 2);
    var s := Sep(n, rest);
    assert s[1..3] == Pad(n, 2);
    assert s[3..] == rest;
  }

  /** Every field printed by the layout is read back unchanged. */
  lemma ParseFormat(t: DateTime)
    requires Printable(t)
    ensures Parse(Format(t)) == Some(t)
  {
    PadRoundTrip(t.year, 4);
    var s5 := Sep(t.second, ".000");
    var s4 := Sep(t.minute, s5);
    var s3 := Sep(t.hour, s4);
    var s2 := Sep(t.day, s3);
    var s1 := Sep(t.month, s2);
    var r := Format(t);
    assert r[..4] == Pad(t.year, 4) && r[4..] == s1;
    ReadSepOf(t.month, s2);
    ReadSepOf(t.day, s3);
    ReadSepOf(t.hour, s4);
    ReadSepOf(t.minute, s5);
    ReadSepOf(t.second, ".000");
  }

  /** The sentinel is not in the layout's shape. */
  lemma ParseSentinel()
    ensures Parse(Sentinel) == None
  {
  }

  /** A readable transaction time is printed as the date-time lying exactly
      s seconds after 0001-01-01 00:00:00, with three zero fractional digits,
      and is never mistaken for the sentinel. */
  lemma TrxnTSMeaning(s: int)
    requires InDurationRange(s)
    ensures var r := TrxnTS(Some(s));
      && r != Sentinel
      && r[19..] == ".000"
      && Parse(r).Some? && Valid(Parse(r).value) && Elapsed(Parse(r).value) == s
  {
    FromSecondsPrintable(s);
    FromSecondsCorrect(s);
    ParseFormat(FromSeconds(s));
  }

  /** Different transaction seconds never print the same timestamp. */
  lemma TrxnTSInjective(s: int, u: int)
    requires InDurationRange(s) && InDurationRange(u)
    requires TrxnTS(Some(s)) == TrxnTS(Some(u))
    ensures s == u
  {
    TrxnTSMeaning(s);
    TrxnTSMeaning(u);
  }
}
