/**
 * The requests of the server package's tests, worked through the model of
 * the handlers. The clock is a parameter: every request here names its
 * reference, or is rejected before the clock is read. A request is given by
 * the values its query holds for the keys the handler reads.
 */
module ServerExamples {
  import opened Wrappers
  import opened Text
  import opened Calendar
  import opened Parse
  import opened Compute
  import opened Server
  import opened ParseExamples

  lemma ParsesJan1(s: string)
    requires s == "2024-01-01"
    ensures ParseOutcome(s) == Ok(Midnight(Date(2024, 1, 1)))
  {
    assert s[..4] == "2024" && s[5..7] == "01" && s[8..] == "01";
    DashedText(s, Date(2024, 1, 1));
  }

  lemma ParsesJan11(s: string)
    requires s == "2024-01-11"
    ensures ParseOutcome(s) == Ok(Midnight(Date(2024, 1, 11)))
  {
    assert s[..4] == "2024" && s[5..7] == "01" && s[8..] == "11";
    DashedText(s, Date(2024, 1, 11));
  }

  lemma ParsesJun1(s: string)
    requires s == "2024-06-01"
    ensures ParseOutcome(s) == Ok(Midnight(Date(2024, 6, 1)))
  {
    assert s[..4] == "2024" && s[5..7] == "06" && s[8..] == "01";
    DashedText(s, Date(2024, 6, 1));
  }

  lemma ParsesJun10(s: string)
    requires s == "2024-06-10"
    ensures ParseOutcome(s) == Ok(Midnight(Date(2024, 6, 10)))
  {
    assert s[..4] == "2024" && s[5..7] == "06" && s[8..] == "10";
    DashedText(s, Date(2024, 6, 10));
  }

  /** "bad-ref" is too short for every layout. */
  lemma BadRefFails(s: string)
    requires s == "bad-ref"
    ensures ParseOutcome(s) == Err(UnrecognizedFormat)
  {
    assert s != [] && !IsSpace(s[0]) && !IsSpace(s[|s| - 1]);
    TrimSpaceKeepsUnpadded(s);
    forall k | 0 <= k < |Layouts|
      ensures ParseLayout(Layouts[k], s).None?
    {
      if ParseLayout(Layouts[k], s).Some? {
        LayoutFootprint(k, s);
      }
    }
    ParseFailsIffNoLayout(s);
  }

  /** date=2024-01-01&reference=2024-01-11 comes down to counting from 1 to 11 January. */
  lemma BasicPastReduces(q: Query, clock: Time)
    requires Get(q, "date") == "2024-01-01" && Get(q, "reference") == "2024-01-11"
    ensures Daycount(q, clock) == Answer("2024-01-01", Midnight(Date(2024, 1, 1)), Midnight(Date(2024, 1, 11)), Get(q, "format"))
  {
    ParsesJan1(Get(q, "date"));
    ParsesJan11(Get(q, "reference"));
    DaycountAnswers(q, clock, Midnight(Date(2024, 1, 1)), Midnight(Date(2024, 1, 11)));
  }

  lemma BasicPastExample(q: Query, clock: Time)
    requires Get(q, "date") == "2024-01-01" && Get(q, "reference") == "2024-01-11" && Get(q, "format") == ""
    ensures var r := Daycount(q, clock);
      r.Json? && r.payload.days == 10 && r.payload.phrase == "10 days since 2024-01-01"
  {
    BasicPastReduces(q, clock);
    BasicPastAnswer();
  }

  lemma BasicPastAnswer()
    ensures var r := Answer("2024-01-01", Midnight(Date(2024, 1, 1)), Midnight(Date(2024, 1, 11)), "");
      r.Json? && r.payload.days == 10 && r.payload.phrase == "10 days since 2024-01-01"
  {
    BasicExample();
    JsonAnswer("2024-01-01", Midnight(Date(2024, 1, 1)), Midnight(Date(2024, 1, 11)), 10);
    assert Decimal(10) == "10";
  }

  /** A JSON answer, with the day count already worked out. */
  lemma JsonAnswer(dateStr: string, target: Time, now: Time, days: int)
    requires DaysSince(target, now) == days
    ensures var r := Answer(dateStr, target, now, "");
      r.Json? && r.payload.days == days && r.payload.phrase == FormatPlain(days, PhraseFor(days), dateStr)
  {
  }

  /** date=2024-06-10&reference=2024-06-01 comes down to counting from 10 June back to 1 June. */
  lemma FutureReduces(q: Query, clock: Time)
    requires Get(q, "date") == "2024-06-10" && Get(q, "reference") == "2024-06-01"
    ensures Daycount(q, clock) == Answer("2024-06-10", Midnight(Date(2024, 6, 10)), Midnight(Date(2024, 6, 1)), Get(q, "format"))
  {
    ParsesJun10(Get(q, "date"));
    ParsesJun1(Get(q, "reference"));
    DaycountAnswers(q, clock, Midnight(Date(2024, 6, 10)), Midnight(Date(2024, 6, 1)));
  }

  lemma FutureExample(q: Query, clock: Time)
    requires Get(q, "date") == "2024-06-10" && Get(q, "reference") == "2024-06-01" && Get(q, "format") == ""
    ensures var r := Daycount(q, clock);
      r.Json? && r.payload.days == -9 && r.payload.phrase == "9 days until 2024-06-10"
  {
    FutureReduces(q, clock);
    FutureAnswer();
  }

  lemma FutureAnswer()
    ensures var r := Answer("2024-06-10", Midnight(Date(2024, 6, 10)), Midnight(Date(2024, 6, 1)), "");
      r.Json? && r.payload.days == -9 && r.payload.phrase == "9 days until 2024-06-10"
  {
    Compute.FutureExample();
    JsonAnswer("2024-06-10", Midnight(Date(2024, 6, 10)), Midnight(Date(2024, 6, 1)), -9);
    assert Decimal(9) == "9";
  }

  /** date=2024-06-01&reference=2024-06-10&format=plain */
  lemma PlainReduces(q: Query, clock: Time)
    requires Get(q, "date") == "2024-06-01" && Get(q, "reference") == "2024-06-10"
    ensures Daycount(q, clock) == Answer("2024-06-01", Midnight(Date(2024, 6, 1)), Midnight(Date(2024, 6, 10)), Get(q, "format"))
  {
    ParsesJun1(Get(q, "date"));
    ParsesJun10(Get(q, "reference"));
    DaycountAnswers(q, clock, Midnight(Date(2024, 6, 1)), Midnight(Date(2024, 6, 10)));
  }

  lemma PlainExample(q: Query, clock: Time)
    requires Get(q, "date") == "2024-06-01" && Get(q, "reference") == "2024-06-10" && Get(q, "format") == "plain"
    ensures Daycount(q, clock) == Plain(StatusOK, "text/plain; charset=utf-8", "9 days since 2024-06-01")
  {
    PlainReduces(q, clock);
    PlainAnswer();
  }

  lemma PlainAnswer()
    ensures Answer("2024-06-01", Midnight(Date(2024, 6, 1)), Midnight(Date(2024, 6, 10)), "plain")
      == Plain(StatusOK, "text/plain; charset=utf-8", "9 days since 2024-06-01")
  {
    DaysBetweenAntisymmetric(Midnight(Date(2024, 6, 10)), Midnight(Date(2024, 6, 1)));
    Compute.FutureExample();
    PlainAnswerOf("2024-06-01", Midnight(Date(2024, 6, 1)), Midnight(Date(2024, 6, 10)), 9);
    assert Decimal(9) == "9";
    PlainText(9, "9", "days since", "2024-06-01");
    NineDaysSince();
  }

  lemma NineDaysSince()
    ensures "9" + " " + "days since" + " " + "2024-06-01" == "9 days since 2024-06-01"
  {
  }

  /** A plain-text answer, with the day count already worked out. */
  lemma PlainAnswerOf(dateStr: string, target: Time, now: Time, days: int)
    requires DaysSince(target, now) == days
    ensures Answer(dateStr, target, now, "plain") == Plain(StatusOK, TextPlain, FormatPlain(days, PhraseFor(days), dateStr))
  {
  }

  /** A request without a date is rejected before anything is parsed. */
  lemma MissingDateExample(q: Query, clock: Time)
    requires "date" !in q
    ensures Daycount(q, clock) == Error(400, "missing 'date' query parameter")
  {
  }

  lemma BadDateExample(q: Query, clock: Time)
    requires Get(q, "date") == "not-a-date"
    ensures Daycount(q, clock) == Error(400, "unrecognized date format")
  {
    NotADateExample(Get(q, "date"));
  }

  lemma BadReferenceExample(q: Query, clock: Time)
    requires Get(q, "date") == "2024-01-01" && Get(q, "reference") == "bad-ref"
    ensures Daycount(q, clock) == Error(400, "invalid reference date")
  {
    ParsesJan1(Get(q, "date"));
    BadRefFails(Get(q, "reference"));
  }

  /** formatPlain(-5, "days until", "2030-01-01") */
  lemma FormatPlainExample()
    ensures FormatPlain(-5, "days until", "2030-01-01") == "5 days until 2030-01-01"
  {
    PlainText(-5, "5", "days until", "2030-01-01");
  }

  /** formatPlain of a count whose magnitude has the decimal digits ds. */
  lemma PlainText(days: int, ds: string, phrase: string, input: string)
    requires days != MinInt64 && ds == Decimal(if days < 0 then -days else days)
    ensures FormatPlain(days, phrase, input) == ds + " " + phrase + " " + input
  {
  }
}
