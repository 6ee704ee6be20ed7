/**
 * The inputs of the parse package's tests, worked through the model of
 * ParseDate: each supported format of 2024-12-31, the leap day, a time that
 * is dropped, a zone offset that does not move the date, and two rejections.
 * Each lemma receives its text as a parameter that its precondition fixes.
 */
module ParseExamples {
  import opened Wrappers
  import opened Text
  import opened Calendar
  import opened Parse

  /** The date a year-month-day text writes, digit by digit. */
  lemma YmdDigits(s: string, sep: char)
    requires YmdShaped(s, sep)
    ensures Ymd(s, sep) == Date(
      1000 * DigitValue(s[0]) + 100 * DigitValue(s[1]) + 10 * DigitValue(s[2]) + DigitValue(s[3]),
      10 * DigitValue(s[5]) + DigitValue(s[6]),
      10 * DigitValue(s[8]) + DigitValue(s[9]))
  {
    FourDigitsValue(s[..4]);
    TwoDigitsValue(s[5..7]);
    TwoDigitsValue(s[8..]);
  }

  /** The date a month/day/year text writes, digit by digit. */
  lemma MdyDigits(s: string)
    requires MdyShaped(s)
    ensures Mdy(s) == Date(
      1000 * DigitValue(s[6]) + 100 * DigitValue(s[7]) + 10 * DigitValue(s[8]) + DigitValue(s[9]),
      10 * DigitValue(s[0]) + DigitValue(s[1]),
      10 * DigitValue(s[3]) + DigitValue(s[4]))
  {
    FourDigitsValue(s[6..]);
    TwoDigitsValue(s[..2]);
    TwoDigitsValue(s[3..5]);
  }

  /** The three fields of a clock text, digit by digit. */
  lemma ClockDigits(c: string)
    requires |c| == 8 && AllDigits(c[..2]) && AllDigits(c[3..5]) && AllDigits(c[6..])
    ensures DigitsValue(c[..2]) == 10 * DigitValue(c[0]) + DigitValue(c[1])
    ensures DigitsValue(c[3..5]) == 10 * DigitValue(c[3]) + DigitValue(c[4])
    ensures DigitsValue(c[6..]) == 10 * DigitValue(c[6]) + DigitValue(c[7])
  {
    TwoDigitsValue(c[..2]);
    TwoDigitsValue(c[3..5]);
    TwoDigitsValue(c[6..]);
  }

  /** A year-month-day text without surrounding space parses to its valid date. */
  lemma YmdText(s: string, sep: char, d: Date)
    requires sep == '-' || sep == '/'
    requires YmdShaped(s, sep) && Ymd(s, sep) == d && Valid(d)
    ensures ParseOutcome(s) == Ok(Midnight(d))
  {
    assert IsDigit(s[..4][0]) && IsDigit(s[8..][1]);
    TrimSpaceKeepsUnpadded(s);
    DateLayoutAccepts(sep, s);
    ParseUsesMatchingLayout(s, if sep == '-' then 0 else 1);
  }

  /** A month/day/year text without surrounding space parses to its valid date. */
  lemma MdyText(s: string, d: Date)
    requires MdyShaped(s) && Mdy(s) == d && Valid(d)
    ensures ParseOutcome(s) == Ok(Midnight(d))
  {
    assert IsDigit(s[..2][0]) && IsDigit(s[6..][3]);
    TrimSpaceKeepsUnpadded(s);
    USLayoutAccepts(s);
    ParseUsesMatchingLayout(s, 2);
  }

  /** A stamp whose date part writes d, in any of the three stamp layouts, parses to midnight of d. */
  lemma StampText(s: string, k: nat, d: Date)
    requires 3 <= k <= 5
    requires |s| >= 19 && YmdShaped(s[..10], '-') && Ymd(s[..10], '-') == d && Valid(d) && ClockShaped(s[11..19])
    requires k == 3 ==> s[10] == 'T' && (s[19..] == "Z" || OffsetShaped(s[19..]))
    requires k == 4 ==> |s| == 19 && s[10] == 'T'
    requires k == 5 ==> |s| == 19 && s[10] == ' '
    ensures ParseOutcome(s) == Ok(Midnight(d))
  {
    assert IsDigit(s[..10][0]) && s[0] == s[..10][0];
    if k == 3 {
      if s[19..] == "Z" {
        assert s[|s| - 1] == s[19..][0];
      } else {
        assert IsDigit(s[19..][4..][1]) && s[|s| - 1] == s[19..][5];
      }
    } else {
      assert IsDigit(s[11..19][6..][1]) && s[|s| - 1] == s[11..19][7];
    }
    TrimSpaceKeepsUnpadded(s);
    if k == 3 {
      RFC3339Accepts(s);
    } else {
      StampLayoutAccepts(if k == 4 then 'T' else ' ', s);
    }
    ParseUsesMatchingLayout(s, k);
  }

  /** A dashed date, given digit by digit, parses to the date its digits write. */
  lemma DashedText(s: string, d: Date)
    requires |s| == 10 && s[4] == '-' && s[7] == '-'
    requires AllDigits(s[..4]) && AllDigits(s[5..7]) && AllDigits(s[8..])
    requires d == Date(
      1000 * DigitValue(s[0]) + 100 * DigitValue(s[1]) + 10 * DigitValue(s[2]) + DigitValue(s[3]),
      10 * DigitValue(s[5]) + DigitValue(s[6]),
      10 * DigitValue(s[8]) + DigitValue(s[9]))
    requires Valid(d)
    ensures ParseOutcome(s) == Ok(Midnight(d))
  {
    YmdDigits(s, '-');
    YmdText(s, '-', d);
  }

  /** 2024-12-31 written year first. */
  lemma YmdOfExample(s: string, sep: char)
    requires s == "2024" + [sep] + "12" + [sep] + "31"
    ensures YmdShaped(s, sep) && Ymd(s, sep) == Date(2024, 12, 31)
  {
    assert s[..4] == "2024" && s[5..7] == "12" && s[8..] == "31";
    YmdDigits(s, sep);
  }

  /** 23:59:59, the clock of the test stamps. */
  lemma ClockOfExample(c: string)
    requires c == "23:59:59"
    ensures ClockShaped(c)
  {
    assert c[..2] == "23" && c[3..5] == "59" && c[6..] == "59";
    ClockDigits(c);
  }

  lemma DateOnlyExample(s: string)
    requires s == "2024-12-31"
    ensures ParseOutcome(s) == Ok(Midnight(Date(2024, 12, 31)))
  {
    YmdOfExample(s, '-');
    YmdText(s, '-', Date(2024, 12, 31));
  }

  lemma SlashDateExample(s: string)
    requires s == "2024/12/31"
    ensures ParseOutcome(s) == Ok(Midnight(Date(2024, 12, 31)))
  {
    YmdOfExample(s, '/');
    YmdText(s, '/', Date(2024, 12, 31));
  }

  lemma USDateExample(s: string)
    requires s == "12/31/2024"
    ensures ParseOutcome(s) == Ok(Midnight(Date(2024, 12, 31)))
  {
    assert s[..2] == "12" && s[3..5] == "31" && s[6..] == "2024";
    MdyDigits(s);
    MdyText(s, Date(2024, 12, 31));
  }

  lemma RFC3339Example(s: string)
    requires s == "2024-12-31T23:59:59Z"
    ensures ParseOutcome(s) == Ok(Midnight(Date(2024, 12, 31)))
  {
    YmdOfExample(s[..10], '-');
    ClockOfExample(s[11..19]);
    assert s[19..] == "Z";
    StampText(s, 3, Date(2024, 12, 31));
  }

  lemma LocalTExample(s: string)
    requires s == "2024-12-31T23:59:59"
    ensures ParseOutcome(s) == Ok(Midnight(Date(2024, 12, 31)))
  {
    YmdOfExample(s[..10], '-');
    ClockOfExample(s[11..19]);
    StampText(s, 4, Date(2024, 12, 31));
  }

  lemma LocalSpaceExample(s: string)
    requires s == "2024-12-31 23:59:59"
    ensures ParseOutcome(s) == Ok(Midnight(Date(2024, 12, 31)))
  {
    YmdOfExample(s[..10], '-');
    ClockOfExample(s[11..19]);
    StampText(s, 5, Date(2024, 12, 31));
  }

  /** A numeric zone five hours west of UTC keeps the written date rather than moving to the next day. */
  lemma OffsetKeepsDateExample(s: string)
    requires s == "2024-12-31T23:59:59-05:00"
    ensures ParseOutcome(s) == Ok(Midnight(Date(2024, 12, 31)))
  {
    YmdOfExample(s[..10], '-');
    ClockOfExample(s[11..19]);
    var z := s[19..];
    assert z == "-05:00";
    assert z[1..3] == "05" && z[4..] == "00";
    StampText(s, 3, Date(2024, 12, 31));
  }

  /** The leap day of 2020 is accepted, and its time of day is dropped. */
  lemma LeapDayExample(s: string)
    requires s == "2020-02-29T12:30:00Z"
    ensures ParseOutcome(s) == Ok(Midnight(Date(2020, 2, 29)))
  {
    var d := s[..10];
    assert d == "2020-02-29";
    assert d[..4] == "2020" && d[5..7] == "02" && d[8..] == "29";
    YmdDigits(d, '-');
    var c := s[11..19];
    assert c == "12:30:00";
    assert c[..2] == "12" && c[3..5] == "30" && c[6..] == "00";
    ClockDigits(c);
    assert s[19..] == "Z";
    StampText(s, 3, Date(2020, 2, 29));
  }

  /** Padding around a supported text is ignored. */
  lemma PaddedExample(s: string)
    requires s == " 2024-12-31\n"
    ensures ParseOutcome(s) == Ok(Midnight(Date(2024, 12, 31)))
  {
    var d := "2024-12-31";
    assert s == " " + d + "\n";
    ParseIgnoresSurroundingSpace(" ", d, "\n");
    DateOnlyExample(d);
  }

  /** There is no 29 February in 2019. */
  lemma NoLeapDayExample(s: string)
    requires s == "2019-02-29"
    ensures ParseOutcome(s) == Err(UnrecognizedFormat)
  {
    assert s[..4] == "2019" && s[5..7] == "02" && s[8..] == "29";
    YmdDigits(s, '-');
    assert !Valid(Ymd(s, '-'));
    assert IsDigit(s[..4][0]) && IsDigit(s[8..][1]);
    TrimSpaceKeepsUnpadded(s);
    DateLayoutAccepts('-', s);
    forall k | 1 <= k < |Layouts|
      ensures ParseLayout(Layouts[k], s).None?
    {
      if ParseLayout(Layouts[k], s).Some? {
        LayoutFootprint(k, s);
      }
    }
    ParseFailsIffNoLayout(s);
  }

  lemma NotADateExample(s: string)
    requires s == "not-a-date"
    ensures ParseOutcome(s) == Err(UnrecognizedFormat)
  {
    assert s != [] && !IsSpace(s[0]) && !IsSpace(s[|s| - 1]);
    TrimSpaceKeepsUnpadded(s);
    forall k | 0 <= k < |Layouts|
      ensures ParseLayout(Layouts[k], s).None?
    {
      if ParseLayout(Layouts[k], s).Some? {
        LayoutFootprint(k, s);
      }
    }
    ParseFailsIffNoLayout(s);
  }
}
