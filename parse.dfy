/**
 * ParseDate: trim the input, try a fixed list of layouts in order, keep the
 * first that matches, and rebuild its calendar date at midnight UTC.
 */
module Parse {
  import opened Wrappers
  import opened Text
  import opened Calendar

  /** The one error ParseDate returns. */
  datatype ParseError = UnrecognizedFormat

  /** One element of a Go reference layout. */
  datatype Element =
    | LongYear          // "2006": four digits
    | ZeroMonth         // "01": two digits, 01 to 12
    | ZeroDay           // "02": two digits, checked against the month once all fields are read
    | Hour              // "15": two digits, 00 to 23
    | ZeroMinute        // "04": two digits, 00 to 59
    | ZeroSecond        // "05": two digits, 00 to 59
    | ColonZone         // "Z07:00": 'Z', or a sign, two digits, ':' and two digits
    | Literal(c: char)  // any other layout character, matched exactly

  type Layout = seq<Element>

  /** "2006-01-02" with the given separator */
  function DatePart(sep: char): Layout {
    [LongYear, Literal(sep), ZeroMonth, Literal(sep), ZeroDay]
  }
  /** "15:04:05" */
  const ClockPart: Layout := [Hour, Literal(':'), ZeroMinute, Literal(':'), ZeroSecond]

  /** time.DateOnly, "2006-01-02" */
  const DateOnly: Layout := DatePart('-')
  /** "2006/01/02" */
  const SlashDate: Layout := DatePart('/')
  /** "01/02/2006", the US order */
  const USDate: Layout := [ZeroMonth, Literal('/'), ZeroDay, Literal('/'), LongYear]
  /** "2006-01-02" + sep + "15:04:05" */
  function Stamp(sep: char): Layout {
    DatePart('-') + [Literal(sep)] + ClockPart
  }
  /** time.RFC3339, "2006-01-02T15:04:05Z07:00" */
  const RFC3339: Layout := Stamp('T') + [ColonZone]
  /** "2006-01-02T15:04:05", no zone */
  const LocalT: Layout := Stamp('T')
  /** "2006-01-02 15:04:05", space separator, no zone */
  const LocalSpace: Layout := Stamp(' ')

  /** The layouts ParseDate tries, in order. */
  const Layouts: seq<Layout> := [DateOnly, SlashDate, USDate, RFC3339, LocalT, LocalSpace]

  /** The fields time.Parse has read so far; a layout without a field leaves its default. */
  datatype Fields = Fields(year: int, month: int, day: int, hour: int, minute: int, second: int, offset: int)

  const Unset: Fields := Fields(0, 1, 1, 0, 0, 0, 0)

  /** The range checks time.Parse applies while it reads each field. */
  predicate InRange(f: Fields) {
    0 <= f.year <= 9999 && 1 <= f.month <= 12 && 0 <= f.day <= 99
    && 0 <= f.hour <= 23 && 0 <= f.minute <= 59 && 0 <= f.second <= 59
  }

  /** Two leading digits and their value (getnum with a fixed width). */
  function TwoDigits(s: string): (r: Option<nat>)
    ensures r.Some? <==> |s| >= 2 && AllDigits(s[..2])
    ensures r.Some? ==> r.value == DigitsValue(s[..2]) && r.value <= 99
  {
    if |s| >= 2 && IsDigit(s[0]) && IsDigit(s[1]) then
      DigitsValueBound(s[..2]);
      assert Pow10(2) == 100;
      Some(DigitsValue(s[..2]))
    else None
  }

  /** A two-digit field within [lo, hi]. */
  function Bounded(s: string, lo: nat, hi: nat): (r: Option<nat>)
    ensures r.Some? ==> lo <= r.value <= hi && r.value <= 99
  {
    match TwoDigits(s)
    case Some(v) => if lo <= v <= hi then Some(v) else None
    case None => None
  }

  /** The "Z07:00" element: 'Z' for UTC, or a numeric offset "+hh:mm" / "-hh:mm". */
  function Zone(s: string): (r: Option<(int, nat)>)
    ensures r.Some? ==> r.value.1 <= |s| && (r.value.1 == 1 || r.value.1 == 6)
  {
    if |s| >= 1 && s[0] == 'Z' then Some((0, 1))
    else if |s| >= 6 && s[3] == ':' && (s[0] == '+' || s[0] == '-') then
      match (TwoDigits(s[1..3]), TwoDigits(s[4..6]))
      case (Some(hh), Some(mm)) =>
        var seconds: int := (hh * 60 + mm) * 60;
        var offset: int := if s[0] == '-' then -seconds else seconds;
        Some((offset, 6))
      case _ => None
    else None
  }

  /**
   * Reads one layout element at the start of s: the fields it sets and the
   * number of characters it consumes.
   */
  function Step(e: Element, s: string, f: Fields): (r: Option<(Fields, nat)>)
    requires InRange(f)
    ensures r.Some? ==> InRange(r.value.0) && r.value.1 <= |s|
  {
    match e
    case Literal(c) =>
      if |s| >= 1 && s[0] == c then Some((f, 1)) else None
    case LongYear =>
      if |s| >= 4 && AllDigits(s[..4]) then
        DigitsValueBound(s[..4]);
        assert Pow10(4) == 10000;
        Some((f.(year := DigitsValue(s[..4])), 4))
      else None
    case ZeroMonth =>
      (match Bounded(s, 1, 12)
       case Some(v) => Some((f.(month := v), 2))
       case None => None)
    case ZeroDay =>
      (match TwoDigits(s)
       case Some(v) => Some((f.(day := v), 2))
       case None => None)
    case Hour =>
      (match Bounded(s, 0, 23)
       case Some(v) => Some((f.(hour := v), 2))
       case None => None)
    case ZeroMinute =>
      (match Bounded(s, 0, 59)
       case Some(v) => Some((f.(minute := v), 2))
       case None => None)
    case ZeroSecond =>
      (match Bounded(s, 0, 59)
       case Some(v) => Some((f.(second := v), 2))
       case None => None)
    case ColonZone =>
      (match Zone(s)
       case Some((offset, width)) => Some((f.(offset := offset), width))
       case None => None)
  }

  /**
   * Reads s against the layout, element by element, as time.Parse does: every
   * element must match at the current position and nothing may be left over.
   */
  function Scan(layout: Layout, s: string, f: Fields): (r: Option<Fields>)
    requires InRange(f)
    ensures r.Some? ==> InRange(r.value)
    decreases |layout|
  {
    if layout == [] then
      if s == [] then Some(f) else None
    else
      match Step(layout[0], s, f)
      case Some((g, n)) => Scan(layout[1..], s[n..], g)
      case None => None
  }

  /** time.Parse(layout, s): the fields read, once the day is checked against its month. */
  function ParseLayout(layout: Layout, s: string): (r: Option<Time>)
    ensures r.Some? ==> 0 <= r.value.date.year <= 9999
    ensures r.Some? ==> 0 <= r.value.hour <= 23 && 0 <= r.value.minute <= 59 && 0 <= r.value.second <= 59
  {
    match Scan(layout, s, Unset)
    case Some(f) =>
      if 1 <= f.day <= DaysIn(f.month, f.year) then
        Some(Time(Date(f.year, f.month, f.day), f.hour, f.minute, f.second, f.offset))
      else None
    case None => None
  }

  /** The result of the first layout that matches, if any. */
  function FirstMatch(layouts: seq<Layout>, s: string): (r: Option<Time>)
    ensures r.Some? ==> exists k | 0 <= k < |layouts| :: ParseLayout(layouts[k], s) == r
    ensures r.None? <==> forall k | 0 <= k < |layouts| :: ParseLayout(layouts[k], s).None?
    ensures r.Some? ==> exists k | 0 <= k < |layouts| ::
      ParseLayout(layouts[k], s) == r && forall j | 0 <= j < k :: ParseLayout(layouts[j], s).None?
  {
    if layouts == [] then None
    else
      match ParseLayout(layouts[0], s)
      case Some(t) => Some(t)
      case None =>
        var r := FirstMatch(layouts[1..], s);
        assert forall k | 1 <= k < |layouts| :: layouts[k] == layouts[1..][k - 1];
        r
  }

  /** One step of the search: the head layout's result if it matches, otherwise the search of the rest. */
  lemma FirstMatchStep(layouts: seq<Layout>, s: string)
    requires layouts != []
    ensures FirstMatch(layouts, s) ==
      if ParseLayout(layouts[0], s).Some? then ParseLayout(layouts[0], s) else FirstMatch(layouts[1..], s)
  {
  }

  /** What ParseDate returns for input. */
  function ParseOutcome(input: string): Result<Time, ParseError> {
    match FirstMatch(Layouts, TrimSpace(input))
    case Some(parsed) => Ok(Midnight(parsed.date))
    case None => Err(UnrecognizedFormat)
  }

  /** ParseDate, with its loop over the layouts that stops at the first success. */
  method ParseDate(input: string) returns (r: Result<Time, ParseError>)
    ensures r == ParseOutcome(input)
  {
    var s := TrimSpace(input);
    var parsed: Option<Time> := None;
    var i := 0;
    while i < |Layouts|
      invariant 0 <= i <= |Layouts|
      invariant parsed.None?
      invariant FirstMatch(Layouts, s) == FirstMatch(Layouts[i..], s)
    {
      parsed := ParseLayout(Layouts[i], s);
      FirstMatchStep(Layouts[i..], s);
      if parsed.Some? {
        break;
      }
      assert Layouts[i..][1..] == Layouts[i + 1..];
      i := i + 1;
    }
    if parsed.None? {
      assert Layouts[i..] == [];
      return Err(UnrecognizedFormat);
    }
    assert Layouts[i..][0] == Layouts[i];
    r := Ok(Midnight(parsed.value.date));
  }

  // ---------------------------------------------------------------------
  // What each layout accepts, stated as the shape of the text it matches.

  /** "dddd" sep "dd" sep "dd": a date in year, month, day order. */
  predicate YmdShaped(t: string, sep: char) {
    |t| == 10 && AllDigits(t[..4]) && t[4] == sep && AllDigits(t[5..7]) && t[7] == sep && AllDigits(t[8..])
  }

  /** The date a year-month-day text writes. */
  function Ymd(t: string, sep: char): Date
    requires YmdShaped(t, sep)
  {
    Date(DigitsValue(t[..4]), DigitsValue(t[5..7]), DigitsValue(t[8..]))
  }

  /** "dd/dd/dddd": a date in month, day, year order. */
  predicate MdyShaped(t: string) {
    |t| == 10 && AllDigits(t[..2]) && t[2] == '/' && AllDigits(t[3..5]) && t[5] == '/' && AllDigits(t[6..])
  }

  /** The date a month/day/year text writes. */
  function Mdy(t: string): Date
    requires MdyShaped(t)
  {
    Date(DigitsValue(t[6..]), DigitsValue(t[..2]), DigitsValue(t[3..5]))
  }

  /** "hh:mm:ss" with hour at most 23 and minute and second at most 59. */
  predicate ClockShaped(t: string) {
    |t| == 8 && AllDigits(t[..2]) && t[2] == ':' && AllDigits(t[3..5]) && t[5] == ':' && AllDigits(t[6..])
    && DigitsValue(t[..2]) <= 23 && DigitsValue(t[3..5]) <= 59 && DigitsValue(t[6..]) <= 59
  }

  /** "+hh:mm" or "-hh:mm". */
  predicate OffsetShaped(t: string) {
    |t| == 6 && (t[0] == '+' || t[0] == '-') && AllDigits(t[1..3]) && t[3] == ':' && AllDigits(t[4..])
  }

  /** The offset east of UTC, in seconds, that a numeric zone writes. */
  function OffsetSeconds(t: string): int
    requires OffsetShaped(t)
  {
    var seconds := (DigitsValue(t[1..3]) * 60 + DigitsValue(t[4..])) * 60;
    if t[0] == '-' then -seconds else seconds
  }

  /** The time written by "dddd-dd-dd" sep "hh:mm:ss", at the given offset. */
  function StampTime(t: string, offset: int): Time
    requires |t| >= 19 && YmdShaped(t[..10], '-') && ClockShaped(t[11..19]) && Valid(Ymd(t[..10], '-'))
  {
    var c := t[11..19];
    Time(Ymd(t[..10], '-'), DigitsValue(c[..2]), DigitsValue(c[3..5]), DigitsValue(c[6..]), offset)
  }

  /** The characters an element reads; meaningful only in FixedWidth layouts, since a zone reads 1 or 6. */
  function ElemWidth(e: Element): nat {
    match e
    case LongYear => 4
    case Literal(_) => 1
    case ColonZone => 1
    case _ => 2
  }

  /** Layouts whose every element reads a fixed number of characters. */
  predicate FixedWidth(layout: Layout) {
    forall i | 0 <= i < |layout| :: !layout[i].ColonZone?
  }

  function Width(layout: Layout): nat {
    if layout == [] then 0 else ElemWidth(layout[0]) + Width(layout[1..])
  }

  lemma {:induction false} WidthAppend(a: Layout, b: Layout)
    ensures Width(a + b) == Width(a) + Width(b)
    ensures FixedWidth(a) && FixedWidth(b) ==> FixedWidth(a + b)
  {
    if a != [] {
      assert (a + b)[0] == a[0] && (a + b)[1..] == a[1..] + b;
      WidthAppend(a[1..], b);
    } else {
      assert a + b == b;
    }
  }

  lemma DatePartWidth(sep: char)
    ensures FixedWidth(DatePart(sep)) && Width(DatePart(sep)) == 10
  {
    var L := DatePart(sep);
    assert L[1..] == [Literal(sep), ZeroMonth, Literal(sep), ZeroDay];
    assert L[1..][1..] == [ZeroMonth, Literal(sep), ZeroDay];
    assert L[1..][1..][1..] == [Literal(sep), ZeroDay];
    assert L[1..][1..][1..][1..] == [ZeroDay];
    assert Width([ZeroDay]) == 2;
    assert Width([Literal(sep), ZeroDay]) == 3;
    assert Width([ZeroMonth, Literal(sep), ZeroDay]) == 5;
    assert Width([Literal(sep), ZeroMonth, Literal(sep), ZeroDay]) == 6;
  }

  lemma StampWidth(sep: char)
    ensures FixedWidth(Stamp(sep)) && Width(Stamp(sep)) == 19
  {
    DatePartWidth('-');
    WidthAppend(DatePart('-'), [Literal(sep)]);
    WidthAppend(DatePart('-') + [Literal(sep)], ClockPart);
    assert Width([Literal(sep)]) == 1;
    assert FixedWidth(ClockPart) && Width(ClockPart) == 8;
  }

  /** A fixed-width element looks at exactly its own width of characters. */
  lemma StepReadsPrefix(e: Element, s: string, f: Fields)
    requires !e.ColonZone? && InRange(f)
    ensures |s| < ElemWidth(e) ==> Step(e, s, f).None?
    ensures |s| >= ElemWidth(e) ==> Step(e, s, f) == Step(e, s[..ElemWidth(e)], f)
    ensures Step(e, s, f).Some? ==> Step(e, s, f).value.1 == ElemWidth(e)
  {
    var w := ElemWidth(e);
    if |s| >= w {
      assert s[..w][..w] == s[..w];
      if w == 2 { assert s[..2][..2] == s[..2]; }
    }
  }

  /** Scanning a concatenation: the fixed-width front reads its own width, the rest reads what follows. */
  lemma {:induction false} ScanAppend(a: Layout, b: Layout, s: string, f: Fields)
    requires FixedWidth(a) && InRange(f)
    ensures Scan(a + b, s, f) ==
      if |s| < Width(a) then None
      else match Scan(a, s[..Width(a)], f)
           case Some(g) => Scan(b, s[Width(a)..], g)
           case None => None
    decreases |a|
  {
    if a == [] {
      assert a + b == b;
      assert s[..0] == [] && s[0..] == s;
    } else {
      var e, w, n := a[0], ElemWidth(a[0]), Width(a);
      assert (a + b)[0] == e && (a + b)[1..] == a[1..] + b;
      assert FixedWidth(a[1..]) by {
        forall i | 0 <= i < |a[1..]| ensures !a[1..][i].ColonZone? { assert a[1..][i] == a[i + 1]; }
      }
      StepReadsPrefix(e, s, f);
      if |s| >= w {
        match Step(e, s, f)
        case Some((g, k)) =>
          assert k == w;
          ScanAppend(a[1..], b, s[w..], g);
          if |s| >= n {
            StepReadsPrefix(e, s[..n], f);
            assert s[..n][..w] == s[..w];
            assert s[w..][..n - w] == s[..n][w..];
            assert s[w..][n - w..] == s[n..];
          }
        case None =>
          if |s| >= n {
            StepReadsPrefix(e, s[..n], f);
            assert s[..n][..w] == s[..w];
          }
      }
    }
  }

  /** One element read from the front of the layout. */
  lemma ScanCons(e: Element, rest: Layout, s: string, f: Fields)
    requires InRange(f)
    ensures var r := Step(e, s, f);
      Scan([e] + rest, s, f) == if r.Some? then Scan(rest, s[r.value.1..], r.value.0) else None
  {
    assert ([e] + rest)[0] == e && ([e] + rest)[1..] == rest;
  }

  /** A whole fixed-width layout reads nothing more than its width. */
  lemma ScanWhole(a: Layout, s: string, f: Fields)
    requires FixedWidth(a) && InRange(f)
    ensures |s| != Width(a) ==> Scan(a, s, f).None?
  {
    ScanAppend(a, [], s, f);
    assert a + [] == a;
  }

  lemma ScanDatePart(sep: char, t: string, f: Fields)
    requires |t| == 10 && InRange(f)
    ensures Scan(DatePart(sep), t, f) ==
      if YmdShaped(t, sep) && 1 <= DigitsValue(t[5..7]) <= 12
      then Some(f.(year := DigitsValue(t[..4]), month := DigitsValue(t[5..7]), day := DigitsValue(t[8..])))
      else None
  {
    var L := DatePart(sep);
    ScanCons(LongYear, L[1..], t, f);
    assert L == [LongYear] + L[1..];
    if AllDigits(t[..4]) {
      var f1 := f.(year := DigitsValue(t[..4]));
      DigitsValueBound(t[..4]);
      assert Pow10(4) == 10000;
      var t1 := t[4..];
      ScanCons(Literal(sep), L[2..], t1, f1);
      assert L[1..] == [Literal(sep)] + L[2..];
      if t1[0] == sep {
        var t2 := t1[1..];
        assert t2 == t[5..] && t2[..2] == t[5..7];
        ScanCons(ZeroMonth, L[3..], t2, f1);
        assert L[2..] == [ZeroMonth] + L[3..];
        if AllDigits(t[5..7]) && 1 <= DigitsValue(t[5..7]) <= 12 {
          var f2 := f1.(month := DigitsValue(t[5..7]));
          var t3 := t2[2..];
          assert t3 == t[7..];
          ScanCons(Literal(sep), L[4..], t3, f2);
          assert L[3..] == [Literal(sep)] + L[4..];
          if t3[0] == sep {
            var t4 := t3[1..];
            assert t4 == t[8..] && t4[..2] == t4;
            ScanCons(ZeroDay, [], t4, f2);
            assert L[4..] == [ZeroDay] + [];
            assert t4[2..] == [];
          }
        }
      }
    }
  }

  lemma ScanUSDate(t: string, f: Fields)
    requires |t| == 10 && InRange(f)
    ensures Scan(USDate, t, f) ==
      if MdyShaped(t) && 1 <= DigitsValue(t[..2]) <= 12
      then Some(f.(month := DigitsValue(t[..2]), day := DigitsValue(t[3..5]), year := DigitsValue(t[6..])))
      else None
  {
    var L := USDate;
    ScanCons(ZeroMonth, L[1..], t, f);
    assert L == [ZeroMonth] + L[1..];
    if AllDigits(t[..2]) && 1 <= DigitsValue(t[..2]) <= 12 {
      var f1 := f.(month := DigitsValue(t[..2]));
      var t1 := t[2..];
      ScanCons(Literal('/'), L[2..], t1, f1);
      assert L[1..] == [Literal('/')] + L[2..];
      if t1[0] == '/' {
        var t2 := t1[1..];
        assert t2 == t[3..] && t2[..2] == t[3..5];
        ScanCons(ZeroDay, L[3..], t2, f1);
        assert L[2..] == [ZeroDay] + L[3..];
        if AllDigits(t[3..5]) {
          var f2 := f1.(day := DigitsValue(t[3..5]));
          var t3 := t2[2..];
          assert t3 == t[5..];
          ScanCons(Literal('/'), L[4..], t3, f2);
          assert L[3..] == [Literal('/')] + L[4..];
          if t3[0] == '/' {
            var t4 := t3[1..];
            assert t4 == t[6..] && t4[..4] == t4;
            ScanCons(LongYear, [], t4, f2);
            assert L[4..] == [LongYear] + [];
            assert t4[4..] == [];
            if AllDigits(t4) {
              DigitsValueBound(t4);
              assert Pow10(4) == 10000;
            }
          }
        }
      }
    }
  }

  lemma ScanClockPart(t: string, f: Fields)
    requires |t| == 8 && InRange(f)
    ensures Scan(ClockPart, t, f) ==
      if ClockShaped(t)
      then Some(f.(hour := DigitsValue(t[..2]), minute := DigitsValue(t[3..5]), second := DigitsValue(t[6..])))
      else None
  {
    var L := ClockPart;
    ScanCons(Hour, L[1..], t, f);
    assert L == [Hour] + L[1..];
    if AllDigits(t[..2]) && DigitsValue(t[..2]) <= 23 {
      var f1 := f.(hour := DigitsValue(t[..2]));
      var t1 := t[2..];
      ScanCons(Literal(':'), L[2..], t1, f1);
      assert L[1..] == [Literal(':')] + L[2..];
      if t1[0] == ':' {
        var t2 := t1[1..];
        assert t2 == t[3..] && t2[..2] == t[3..5];
        ScanCons(ZeroMinute, L[3..], t2, f1);
        assert L[2..] == [ZeroMinute] + L[3..];
        if AllDigits(t[3..5]) && DigitsValue(t[3..5]) <= 59 {
          var f2 := f1.(minute := DigitsValue(t[3..5]));
          var t3 := t2[2..];
          assert t3 == t[5..];
          ScanCons(Literal(':'), L[4..], t3, f2);
          assert L[3..] == [Literal(':')] + L[4..];
          if t3[0] == ':' {
            var t4 := t3[1..];
            assert t4 == t[6..] && t4[..2] == t4;
            ScanCons(ZeroSecond, [], t4, f2);
            assert L[4..] == [ZeroSecond] + [];
            assert t4[2..] == [];
          }
        }
      }
    }
  }

  lemma ScanStamp(sep: char, t: string, f: Fields)
    requires |t| == 19 && InRange(f)
    ensures Scan(Stamp(sep), t, f) ==
      if YmdShaped(t[..10], '-') && 1 <= Ymd(t[..10], '-').month <= 12 && t[10] == sep && ClockShaped(t[11..])
      then
        var d, c := Ymd(t[..10], '-'), t[11..];
        Some(f.(year := d.year, month := d.month, day := d.day,
                hour := DigitsValue(c[..2]), minute := DigitsValue(c[3..5]), second := DigitsValue(c[6..])))
      else None
  {
    var date, rest := DatePart('-'), [Literal(sep)] + ClockPart;
    assert Stamp(sep) == date + rest;
    DatePartWidth('-');
    ScanAppend(date, rest, t, f);
    ScanDatePart('-', t[..10], f);
    var d := t[..10];
    match Scan(date, d, f)
    case Some(g) =>
      assert Scan(Stamp(sep), t, f) == Scan(rest, t[10..], g);
      assert YmdShaped(d, '-') && g == f.(year := Ymd(d, '-').year, month := Ymd(d, '-').month, day := Ymd(d, '-').day);
      ScanCons(Literal(sep), ClockPart, t[10..], g);
      assert t[10..][1..] == t[11..];
      ScanClockPart(t[11..], g);
    case None =>
      assert Scan(Stamp(sep), t, f) == None;
  }

  lemma ScanZone(z: string, g: Fields)
    requires InRange(g)
    ensures Scan([ColonZone], z, g) ==
      if z == "Z" then Some(g.(offset := 0))
      else if OffsetShaped(z) then Some(g.(offset := OffsetSeconds(z)))
      else None
  {
    ScanCons(ColonZone, [], z, g);
    if |z| >= 6 && z[0] != 'Z' {
      assert z[1..3][..2] == z[1..3] && z[4..6][..2] == z[4..6];
      assert z[6..] == [] <==> |z| == 6;
      if |z| == 6 { assert z[4..6] == z[4..]; }
    }
  }

  /** "2006-01-02" and "2006/01/02" accept exactly a valid date written year, month, day. */
  lemma DateLayoutAccepts(sep: char, s: string)
    ensures ParseLayout(DatePart(sep), s) ==
      if YmdShaped(s, sep) && Valid(Ymd(s, sep)) then Some(Midnight(Ymd(s, sep))) else None
  {
    DatePartWidth(sep);
    ScanWhole(DatePart(sep), s, Unset);
    if |s| == 10 {
      ScanDatePart(sep, s, Unset);
    }
  }

  /** "01/02/2006" accepts exactly a valid date written month, day, year. */
  lemma USLayoutAccepts(s: string)
    ensures ParseLayout(USDate, s) ==
      if MdyShaped(s) && Valid(Mdy(s)) then Some(Midnight(Mdy(s))) else None
  {
    assert FixedWidth(USDate) && Width(USDate) == 10;
    ScanWhole(USDate, s, Unset);
    if |s| == 10 {
      ScanUSDate(s, Unset);
    }
  }

  /** The zone-less stamps accept a valid date, the separator and a clock, read in UTC. */
  lemma StampLayoutAccepts(sep: char, s: string)
    ensures ParseLayout(Stamp(sep), s) ==
      if |s| == 19 && YmdShaped(s[..10], '-') && s[10] == sep && ClockShaped(s[11..19]) && Valid(Ymd(s[..10], '-'))
      then Some(StampTime(s, 0))
      else None
  {
    StampWidth(sep);
    ScanWhole(Stamp(sep), s, Unset);
    if |s| == 19 {
      assert s[..19] == s;
      ScanStamp(sep, s, Unset);
    }
  }

  /** RFC 3339 accepts a valid date, 'T', a clock, and 'Z' or a numeric offset, kept as written. */
  lemma RFC3339Accepts(s: string)
    ensures ParseLayout(RFC3339, s) ==
      if |s| >= 20 && YmdShaped(s[..10], '-') && s[10] == 'T' && ClockShaped(s[11..19]) && Valid(Ymd(s[..10], '-'))
         && (s[19..] == "Z" || OffsetShaped(s[19..]))
      then Some(StampTime(s, if s[19..] == "Z" then 0 else OffsetSeconds(s[19..])))
      else None
  {
    StampWidth('T');
    ScanAppend(Stamp('T'), [ColonZone], s, Unset);
    if |s| >= 19 {
      var t := s[..19];
      assert t[..10] == s[..10] && t[10] == s[10] && t[11..] == s[11..19];
      ScanStamp('T', t, Unset);
      match Scan(Stamp('T'), t, Unset)
      case Some(g) => ScanZone(s[19..], g);
      case None =>
    }
  }

  // ---------------------------------------------------------------------
  // Properties of ParseDate.

  /** The characters that tell the layouts apart, for a text that some layout accepts. */
  lemma LayoutFootprint(k: nat, s: string)
    requires k < |Layouts| && ParseLayout(Layouts[k], s).Some?
    ensures k <= 2 ==> |s| == 10
    ensures k <= 1 ==> IsDigit(s[2]) && s[4] == (if k == 0 then '-' else '/')
    ensures k == 2 ==> s[2] == '/'
    ensures k == 3 ==> |s| >= 20
    ensures k >= 4 ==> |s| == 19 && s[10] == (if k == 4 then 'T' else ' ')
  {
    if k <= 1 {
      DateLayoutAccepts(if k == 0 then '-' else '/', s);
      assert s[..4][2] == s[2];
    } else if k == 2 {
      USLayoutAccepts(s);
    } else if k == 3 {
      RFC3339Accepts(s);
    } else {
      StampLayoutAccepts(if k == 4 then 'T' else ' ', s);
    }
  }

  /** No text matches two layouts, so the order in which they are tried never changes the result. */
  lemma LayoutsDisjoint(j: nat, k: nat, s: string)
    requires j < |Layouts| && k < |Layouts|
    requires ParseLayout(Layouts[j], s).Some? && ParseLayout(Layouts[k], s).Some?
    ensures j == k
  {
    LayoutFootprint(j, s);
    LayoutFootprint(k, s);
  }

  /** The layout that matches the trimmed input decides the result: its date at midnight UTC. */
  lemma ParseUsesMatchingLayout(input: string, k: nat)
    requires k < |Layouts| && ParseLayout(Layouts[k], TrimSpace(input)).Some?
    ensures ParseOutcome(input) == Ok(Midnight(ParseLayout(Layouts[k], TrimSpace(input)).value.date))
  {
    var s := TrimSpace(input);
    var r := FirstMatch(Layouts, s);
    assert r.Some?;
    var j :| 0 <= j < |Layouts| && ParseLayout(Layouts[j], s) == r;
    LayoutsDisjoint(j, k, s);
  }

  /** ParseDate fails, always with UnrecognizedFormat, exactly when no layout accepts the trimmed input. */
  lemma ParseFailsIffNoLayout(input: string)
    ensures ParseOutcome(input).Err? <==> forall k | 0 <= k < |Layouts| :: ParseLayout(Layouts[k], TrimSpace(input)).None?
    ensures ParseOutcome(input).Err? ==> ParseOutcome(input) == Err(UnrecognizedFormat)
  {
  }

  /** White space around the input never changes the result. */
  lemma ParseIgnoresSurroundingSpace(a: string, input: string, b: string)
    requires AllSpace(a) && AllSpace(b)
    ensures ParseOutcome(a + input + b) == ParseOutcome(input)
  {
    TrimSpaceIgnoresPadding(a, input, b);
  }

  /** s begins with d written as year, month, day (with either separator) or as month/day/year. */
  predicate WritesDate(s: string, d: Date) {
    |s| >= 10
    && ((YmdShaped(s[..10], s[4]) && Ymd(s[..10], s[4]) == d) || (MdyShaped(s[..10]) && Mdy(s[..10]) == d))
  }

  /**
   * A parsed date is midnight UTC of the date written in the text, whatever
   * clock or zone offset follows it: nothing is shifted to UTC first.
   */
  lemma ParsedDateIsWritten(input: string)
    requires ParseOutcome(input).Ok?
    ensures var t := ParseOutcome(input).value;
      t == Midnight(t.date) && 0 <= t.date.year <= 9999 && WritesDate(TrimSpace(input), t.date)
  {
    var s := TrimSpace(input);
    var r := FirstMatch(Layouts, s);
    var k :| 0 <= k < |Layouts| && ParseLayout(Layouts[k], s) == r;
    LayoutWritesDate(k, s);
  }

  /** Whichever layout accepts a text, the date it yields is the one the text begins with. */
  lemma LayoutWritesDate(k: nat, s: string)
    requires k < |Layouts| && ParseLayout(Layouts[k], s).Some?
    ensures WritesDate(s, ParseLayout(Layouts[k], s).value.date)
  {
    if k <= 1 {
      DateLayoutAccepts(if k == 0 then '-' else '/', s);
      assert s[..10] == s;
    } else if k == 2 {
      USLayoutAccepts(s);
      assert s[..10] == s;
    } else if k == 3 {
      RFC3339Accepts(s);
      assert s[..10][4] == s[4];
    } else {
      StampLayoutAccepts(if k == 4 then 'T' else ' ', s);
      assert s[..10][4] == s[4];
    }
  }

  /** Format(time.DateOnly) writes a four-digit year, a two-digit month and a two-digit day. */
  lemma FormatDateOnlyShape(t: Time)
    requires 0 <= t.date.year <= 9999
    ensures var s := FormatDateOnly(t); YmdShaped(s, '-') && Ymd(s, '-') == t.date
  {
    var d := t.date;
    assert Pow10(4) == 10000 && Pow10(2) == 100;
    PadIntReadsBack(d.year, 4);
    PadIntReadsBack(d.month, 2);
    PadIntReadsBack(d.day, 2);
    var y, m, dd := PadInt(d.year, 4), PadInt(d.month, 2), PadInt(d.day, 2);
    var s := y + "-" + m + "-" + dd;
    assert s[..4] == y && s[5..7] == m && s[8..] == dd;
  }

  /** What Format(time.DateOnly) writes parses back to the same date, for the years of four digits. */
  lemma ParseFormatDateOnly(t: Time)
    requires 0 <= t.date.year <= 9999
    ensures ParseOutcome(FormatDateOnly(t)) == Ok(Midnight(t.date))
  {
    var s := FormatDateOnly(t);
    FormatDateOnlyShape(t);
    assert IsDigit(s[..4][0]) && IsDigit(s[8..][1]);
    TrimSpaceKeepsUnpadded(s);
    DateLayoutAccepts('-', s);
    assert ParseLayout(Layouts[0], s) == Some(Midnight(t.date));
  }
}
