/**
 * The HTTP handlers, as a function from the request's query (and the clock
 * reading that stands for time.Now().UTC()) to what the handler writes: an
 * error, a plain-text body or a JSON Response.
 */
module Server {
  import opened Wrappers
  import opened Text
  import opened Calendar
  import opened Parse
  import opened Compute

  /** The JSON object a successful /daycount request returns. */
  datatype Response = Response(date: string, reference: string, days: int, phrase: string)

  /** What a handler writes back. */
  datatype Reply =
    | Error(status: int, message: string)
    | Plain(status: int, contentType: string, body: string)
    | Json(contentType: string, payload: Response)

  const StatusOK := 200
  const StatusBadRequest := 400
  const StatusNotFound := 404

  const TextPlain := "text/plain; charset=utf-8"
  const ApplicationJson := "application/json; charset=utf-8"

  const MissingDate := "missing 'date' query parameter"
  const UnrecognizedDate := "unrecognized date format"
  const InvalidReference := "invalid reference date"
  const PageNotFound := "404 page not found"

  /** The status line of a reply. */
  function Status(r: Reply): int {
    match r
    case Error(status, _) => status
    case Plain(status, _, _) => status
    case Json(_, _) => StatusOK
  }

  /** The decoded query string: each key with its values in order. */
  type Query = map<string, seq<string>>

  /** url.Values.Get: the first value of key, or "" when there is none. */
  function Get(q: Query, key: string): (v: string)
    ensures key !in q || q[key] == [] ==> v == ""
    ensures key in q && q[key] != [] ==> v == q[key][0]
  {
    if key in q && q[key] != [] then q[key][0] else ""
  }

  /** The `%d` verb: an optional minus sign and the magnitude in decimal. */
  function FormatInt(x: int): string {
    if x < 0 then "-" + Decimal(-x) else Decimal(x)
  }

  /** The phrase the handler picks for a day count. */
  function PhraseFor(days: int): string {
    if days < 0 then "days until" else "days since"
  }

  /** The least value of Go's 64-bit int, math.MinInt64. */
  const MinInt64: int := -0x8000_0000_0000_0000

  /** The greatest value of Go's 64-bit int, math.MaxInt64. */
  const MaxInt64: int := 0x7FFF_FFFF_FFFF_FFFF

  /** Whether x is a value of Go's 64-bit int. */
  predicate IsInt64(x: int) {
    MinInt64 <= x <= MaxInt64
  }

  /**
   * Go's unary minus on a 64-bit int, which wraps: math.MinInt64 has no
   * positive counterpart and is its own negation.
   */
  function Negate(x: int): int {
    if x == MinInt64 then x else -x
  }

  /**
   * formatPlain: the magnitude of days, the phrase and the raw input,
   * separated by single spaces. The magnitude is Go's `-days`, so
   * math.MinInt64 keeps its minus sign.
   */
  function FormatPlain(days: int, phrase: string, input: string): string {
    if days < 0 then FormatInt(Negate(days)) + " " + phrase + " " + input
    else FormatInt(days) + " " + phrase + " " + input
  }

  /**
   * daycountHandler. A missing date, a date in no supported layout and a
   * reference in no supported layout are rejected, in that order. The
   * reference defaults to the clock.
   */
  function Daycount(q: Query, clock: Time): Reply {
    var dateStr := Get(q, "date");
    if dateStr == "" then Error(StatusBadRequest, MissingDate)
    else
      match ParseOutcome(dateStr)
      case Err(_) => Error(StatusBadRequest, UnrecognizedDate)
      case Ok(target) => AgainstReference(dateStr, target, Get(q, "reference"), Get(q, "format"), clock)
  }

  /** The rest of daycountHandler once the date has parsed: resolving the reference. */
  function AgainstReference(dateStr: string, target: Time, referenceStr: string, format: string, clock: Time): Reply {
    var reference := if referenceStr != "" then ParseOutcome(referenceStr) else Ok(clock);
    match reference
    case Err(_) => Error(StatusBadRequest, InvalidReference)
    case Ok(now) => Answer(dateStr, target, now, format)
  }

  /** The end of daycountHandler: the count, the phrase, and plain text or JSON. */
  function Answer(dateStr: string, target: Time, now: Time, format: string): Reply {
    var refOut := FormatDateOnly(now);
    var days := DaysSince(target, now);
    var phrase := PhraseFor(days);
    if format == "plain" then Plain(StatusOK, TextPlain, FormatPlain(days, phrase, dateStr))
    else Json(ApplicationJson, Response(dateStr, refOut, days, FormatPlain(days, phrase, dateStr)))
  }

  /** The /healthz handler: status 200 and the body "ok", sniffed as plain text. */
  function Healthz(): Reply {
    Plain(StatusOK, TextPlain, "ok")
  }

  /** The ServeMux of Handler: two exact paths, and 404 for every other one. */
  function Route(path: string, q: Query, clock: Time): Reply {
    if path == "/daycount" then Daycount(q, clock)
    else if path == "/healthz" then Healthz()
    else Error(StatusNotFound, PageNotFound)
  }

  // ---------------------------------------------------------------------
  // formatPlain.

  /** formatPlain prints the magnitude: a count and its negation read the same, while both are Go ints. */
  lemma FormatPlainMagnitude(days: int, phrase: string, input: string)
    requires IsInt64(days) && IsInt64(-days)
    ensures FormatPlain(days, phrase, input) == FormatPlain(-days, phrase, input)
  {
    if days < 0 {
      assert Negate(days) == -days;
    } else if days > 0 {
      assert Negate(-days) == days;
    }
  }

  /**
   * formatPlain reads back: a minus sign exactly for math.MinInt64, then a
   * run of digits without a redundant leading zero whose value is the
   * magnitude of days, then a space, the phrase, a space and the raw input,
   * which therefore ends the text.
   */
  lemma FormatPlainReadsBack(days: int, phrase: string, input: string)
    ensures var s := FormatPlain(days, phrase, input);
      var m := if days < 0 then -days else days;
      var p := if days == MinInt64 then 1 else 0;
      exists k | p + 1 <= k <= |s| ::
        s[..p] == (if days == MinInt64 then "-" else "")
        && AllDigits(s[p..k]) && DigitsValue(s[p..k]) == m && (s[p] == '0' ==> m == 0)
        && s[k..] == " " + phrase + " " + input
    ensures var s := FormatPlain(days, phrase, input);
      |s| >= |input| && s[|s| - |input|..] == input
  {
    var m := if days < 0 then -days else days;
    var sign := if days == MinInt64 then "-" else "";
    assert FormatInt(if days < 0 then Negate(days) else days) == sign + Decimal(m);
    SignedText(FormatPlain(days, phrase, input), sign, Decimal(m), phrase, input);
  }

  /**
   * A text made of a sign, canonical digits, a space, a phrase, a space and
   * an input, cut back into those parts.
   */
  lemma SignedText(s: string, sign: string, digits: string, phrase: string, input: string)
    requires 1 <= |digits| && s == sign + digits + " " + phrase + " " + input
    ensures exists k | |sign| + 1 <= k <= |s| ::
      s[..|sign|] == sign && s[|sign|..k] == digits && s[k..] == " " + phrase + " " + input
    ensures |s| >= |input| && s[|s| - |input|..] == input
  {
    var rest := " " + phrase + " " + input;
    assert s == sign + digits + rest;
    var k := |sign| + |digits|;
    assert s[..|sign|] == sign && s[|sign|..k] == digits && s[k..] == rest;
    assert s[|s| - |input|..] == input;
  }

  /** At math.MinInt64, `-days` wraps: formatPlain writes a minus sign, unlike for its negation. */
  lemma FormatPlainAtMinInt64(phrase: string, input: string)
    ensures FormatPlain(MinInt64, phrase, input)[0] == '-'
    ensures FormatPlain(MinInt64, phrase, input) != FormatPlain(-MinInt64, phrase, input)
  {
    NegatedText(MinInt64, phrase, input);
  }

  /** The texts formatPlain writes for a negative count that its negation leaves alone, and for its magnitude. */
  lemma NegatedText(days: int, phrase: string, input: string)
    requires days < 0 && Negate(days) == days
    ensures FormatPlain(days, phrase, input)[0] == '-'
    ensures FormatPlain(days, phrase, input) != FormatPlain(-days, phrase, input)
  {
    var digits := Decimal(-days);
    assert FormatPlain(days, phrase, input) == "-" + digits + " " + phrase + " " + input;
    assert FormatPlain(-days, phrase, input) == digits + " " + phrase + " " + input;
    assert IsDigit(digits[0]);
  }

  // ---------------------------------------------------------------------
  // daycountHandler: the rejections.

  /** A missing or empty date parameter, and only that, gives the missing-date error. */
  lemma DaycountMissingDate(q: Query, clock: Time)
    ensures Daycount(q, clock) == Error(StatusBadRequest, MissingDate) <==> Get(q, "date") == ""
  {
  }

  /** A date parameter in no supported layout, and only that, gives the unrecognized-format error. */
  lemma DaycountUnrecognizedDate(q: Query, clock: Time)
    ensures Daycount(q, clock) == Error(StatusBadRequest, UnrecognizedDate) <==>
      Get(q, "date") != "" && ParseOutcome(Get(q, "date")).Err?
  {
  }

  /** With a good date, a non-empty reference in no supported layout gives the invalid-reference error. */
  lemma DaycountInvalidReference(q: Query, clock: Time)
    ensures Daycount(q, clock) == Error(StatusBadRequest, InvalidReference) <==>
      Get(q, "date") != "" && ParseOutcome(Get(q, "date")).Ok?
      && Get(q, "reference") != "" && ParseOutcome(Get(q, "reference")).Err?
  {
  }

  /** Every rejection is a 400, and a request is rejected exactly for one of the three reasons above. */
  lemma DaycountErrors(q: Query, clock: Time)
    ensures Daycount(q, clock).Error? ==> Status(Daycount(q, clock)) == StatusBadRequest
    ensures Daycount(q, clock).Error? <==>
      Get(q, "date") == "" || ParseOutcome(Get(q, "date")).Err?
      || (Get(q, "reference") != "" && ParseOutcome(Get(q, "reference")).Err?)
    ensures !Daycount(q, clock).Error? ==> Status(Daycount(q, clock)) == StatusOK
  {
  }

  // ---------------------------------------------------------------------
  // daycountHandler: the answers.

  /** Once the date and a given reference have parsed, the answer depends on them and the format alone. */
  lemma DaycountAnswers(q: Query, clock: Time, target: Time, now: Time)
    requires Get(q, "date") != "" && ParseOutcome(Get(q, "date")) == Ok(target)
    requires Get(q, "reference") != "" && ParseOutcome(Get(q, "reference")) == Ok(now)
    ensures Daycount(q, clock) == Answer(Get(q, "date"), target, now, Get(q, "format"))
  {
  }

  /** The time the count runs to: the parsed reference when one is given, otherwise the clock. */
  function ReferenceTime(q: Query, clock: Time): Time
    requires Get(q, "reference") != "" ==> ParseOutcome(Get(q, "reference")).Ok?
  {
    if Get(q, "reference") != "" then ParseOutcome(Get(q, "reference")).value else clock
  }

  /**
   * A JSON answer echoes the raw date parameter, counts the days from the
   * parsed date to the reference (negative exactly when the date lies ahead),
   * names the reference by its date, and carries formatPlain's phrase.
   */
  lemma DaycountJson(q: Query, clock: Time)
    requires Daycount(q, clock).Json?
    ensures Get(q, "format") != "plain"
    ensures var r := Daycount(q, clock).payload;
      r.date == Get(q, "date") && ParseOutcome(r.date).Ok?
      && (Get(q, "reference") != "" ==> ParseOutcome(Get(q, "reference")).Ok?)
    ensures var r := Daycount(q, clock).payload;
      var target := ParseOutcome(Get(q, "date")).value;
      var now := ReferenceTime(q, clock);
      r.days == DaysSince(target, now)
      && (r.days < 0 <==> Before(now.date, target.date))
      && r.reference == FormatDateOnly(now)
      && r.phrase == FormatPlain(r.days, if Before(now.date, target.date) then "days until" else "days since", r.date)
    ensures Daycount(q, clock).contentType == ApplicationJson
  {
    var target := ParseOutcome(Get(q, "date")).value;
    DaysSinceSign(target, ReferenceTime(q, clock));
  }

  /** format=plain gives exactly the phrase a JSON answer to the same request would carry. */
  lemma DaycountPlainIsPhrase(q: Query, clock: Time)
    requires Daycount(q, clock).Plain?
    ensures Get(q, "format") == "plain"
    ensures var j := Daycount(q["format" := []], clock);
      j.Json? && Daycount(q, clock) == Plain(StatusOK, TextPlain, j.payload.phrase)
  {
    var dateStr := Get(q, "date");
    var target := ParseOutcome(dateStr).value;
    var referenceStr := Get(q, "reference");
    var now := if referenceStr != "" then ParseOutcome(referenceStr).value else clock;
    assert Daycount(q, clock) == AgainstReference(dateStr, target, referenceStr, Get(q, "format"), clock);
    assert Daycount(q, clock) == Answer(dateStr, target, now, Get(q, "format"));
    var q2 := q["format" := []];
    GetOther(q, "format", "date", []);
    GetOther(q, "format", "reference", []);
    assert Get(q2, "format") == "";
    assert Daycount(q2, clock) == AgainstReference(dateStr, target, referenceStr, "", clock);
    assert Daycount(q2, clock) == Answer(dateStr, target, now, "");
  }

  lemma GetOther(q: Query, k: string, key: string, v: seq<string>)
    requires k != key
    ensures Get(q[k := v], key) == Get(q, key)
  {
  }

  /** A non-plain answer is JSON; the plain format is chosen by format=plain alone. */
  lemma DaycountFormat(q: Query, clock: Time)
    requires !Daycount(q, clock).Error?
    ensures Daycount(q, clock).Plain? <==> Get(q, "format") == "plain"
    ensures Daycount(q, clock).Json? <==> Get(q, "format") != "plain"
  {
  }

  /** The reference field parses back to the reference date, for the years of four digits. */
  lemma DaycountReferenceParses(q: Query, clock: Time)
    requires Daycount(q, clock).Json?
    requires Get(q, "reference") == "" ==> 0 <= clock.date.year <= 9999
    ensures Get(q, "reference") != "" ==> ParseOutcome(Get(q, "reference")).Ok?
    ensures ParseOutcome(Daycount(q, clock).payload.reference) == Ok(Midnight(ReferenceTime(q, clock).date))
  {
    var dateStr := Get(q, "date");
    var target := ParseOutcome(dateStr).value;
    var referenceStr := Get(q, "reference");
    assert Daycount(q, clock) == AgainstReference(dateStr, target, referenceStr, Get(q, "format"), clock);
    var now := ReferenceTime(q, clock);
    if referenceStr != "" {
      ParsedDateIsWritten(referenceStr);
    }
    assert Daycount(q, clock) == Answer(dateStr, target, now, Get(q, "format"));
    assert Daycount(q, clock).payload.reference == FormatDateOnly(now);
    ParseFormatDateOnly(now);
  }

  /** A date counted against itself gives "0 days since" and the raw date. */
  lemma DaycountSameDay(q: Query, clock: Time)
    requires Get(q, "date") != "" && ParseOutcome(Get(q, "date")).Ok?
    requires Get(q, "reference") == Get(q, "date")
    ensures var r := Daycount(q, clock);
      (r.Json? && r.payload.days == 0 && r.payload.phrase == "0 days since " + Get(q, "date"))
      || (r.Plain? && r.body == "0 days since " + Get(q, "date"))
  {
    var dateStr := Get(q, "date");
    var target := ParseOutcome(dateStr).value;
    DaycountAnswers(q, clock, target, target);
    SameDayAnswer(dateStr, target, Get(q, "format"));
  }

  lemma SameDayAnswer(dateStr: string, target: Time, format: string)
    ensures var r := Answer(dateStr, target, target, format);
      (r.Json? && r.payload.days == 0 && r.payload.phrase == "0 days since " + dateStr)
      || (r.Plain? && r.body == "0 days since " + dateStr)
  {
    DaysBetweenSameDate(target, target);
    assert DaysSince(target, target) == 0;
    assert Decimal(0) == "0";
    var phrase := "0 days since " + dateStr;
    assert FormatPlain(0, PhraseFor(0), dateStr) == phrase;
    if format == "plain" {
      assert Answer(dateStr, target, target, format) == Plain(StatusOK, TextPlain, phrase);
    } else {
      assert Answer(dateStr, target, target, format) == Json(ApplicationJson, Response(dateStr, FormatDateOnly(target), 0, phrase));
    }
  }

  // ---------------------------------------------------------------------
  // Handler: the routes.

  /** /healthz answers 200 "ok" as plain text, whatever the query. */
  lemma RouteHealthz(q: Query, clock: Time)
    ensures var r := Route("/healthz", q, clock);
      Status(r) == StatusOK && r.Plain? && r.contentType == TextPlain && r.body == "ok"
  {
  }

  /** Exactly the paths other than the two registered ones give 404. */
  lemma RouteNotFound(path: string, q: Query, clock: Time)
    ensures Status(Route(path, q, clock)) == StatusNotFound <==> path != "/daycount" && path != "/healthz"
    ensures path == "/daycount" ==> Route(path, q, clock) == Daycount(q, clock)
  {
    if path == "/daycount" {
      DaycountErrors(q, clock);
    }
  }
}
