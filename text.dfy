/**
 * The pieces of Go's string handling the core relies on: the white space that
 * strings.TrimSpace removes (unicode.IsSpace), the trimming itself, decimal
 * digits as read by time.Parse, decimal rendering as printed by the `%d` verb,
 * and the zero padding that time.Format applies to numeric fields.
 */
module Text {

  /** unicode.IsSpace: the Latin-1 spaces and the other Unicode White_Space characters. */
  predicate IsSpace(c: char) {
    var n := c as int;
    (0x09 <= n <= 0x0D) || n == 0x20 || n == 0x85 || n == 0xA0 || n == 0x1680
    || (0x2000 <= n <= 0x200A) || n == 0x2028 || n == 0x2029 || n == 0x202F
    || n == 0x205F || n == 0x3000
  }

  predicate AllSpace(s: string) {
    forall i | 0 <= i < |s| :: IsSpace(s[i])
  }

  /** Where strings.TrimSpace starts: the index of the first character that is not white space, or |s|. */
  function TrimStart(s: string): (i: nat)
    ensures i <= |s| && AllSpace(s[..i])
    ensures i < |s| ==> !IsSpace(s[i])
  {
    if s != [] && IsSpace(s[0]) then
      var i := 1 + TrimStart(s[1..]);
      assert s[..i] == [s[0]] + s[1..][..i - 1];
      i
    else 0
  }

  /** Where strings.TrimSpace stops: trailing white space is dropped, but never below lo. */
  function TrimStop(s: string, lo: nat): (j: nat)
    requires lo <= |s|
    ensures lo <= j <= |s| && AllSpace(s[j..])
    ensures lo < j ==> !IsSpace(s[j - 1])
  {
    if lo < |s| && IsSpace(s[|s| - 1]) then
      var j := TrimStop(s[..|s| - 1], lo);
      assert s[j..] == s[..|s| - 1][j..] + [s[|s| - 1]];
      j
    else |s|
  }

  /** strings.TrimSpace: s without its leading and trailing white space. */
  function TrimSpace(s: string): (r: string)
    ensures r == [] || (!IsSpace(r[0]) && !IsSpace(r[|r| - 1]))
  {
    var i := TrimStart(s);
    s[i..TrimStop(s, i)]
  }

  /** TrimSpace yields the slice of s left once its leading and trailing white space are removed. */
  lemma TrimSpaceIsInfix(s: string)
    ensures var i, r := TrimStart(s), TrimSpace(s);
      i + |r| <= |s| && r == s[i..i + |r|] && AllSpace(s[..i]) && AllSpace(s[i + |r|..])
  {
  }

  /** A text without white space at either end is left as it is by the trim. */
  lemma TrimSpaceKeepsUnpadded(s: string)
    requires s != [] && !IsSpace(s[0]) && !IsSpace(s[|s| - 1])
    ensures TrimSpace(s) == s
  {
    assert TrimStart(s) == 0 && TrimStop(s, 0) == |s|;
    assert s[0..|s|] == s;
  }

  /** Leading white space moves the start by its own length. */
  lemma {:induction false} TrimStartSkipsSpace(a: string, t: string)
    requires AllSpace(a)
    ensures TrimStart(a + t) == |a| + TrimStart(t)
  {
    if a != [] {
      assert (a + t)[0] == a[0] && (a + t)[1..] == a[1..] + t;
      TrimStartSkipsSpace(a[1..], t);
    } else {
      assert a + t == t;
    }
  }

  /** Text after a character that is not white space does not move the start. */
  lemma {:induction false} TrimStartIgnoresTail(s: string, b: string)
    requires TrimStart(s) < |s|
    ensures TrimStart(s + b) == TrimStart(s)
  {
    if IsSpace(s[0]) {
      assert (s + b)[0] == s[0] && (s + b)[1..] == s[1..] + b;
      TrimStartIgnoresTail(s[1..], b);
    } else {
      assert (s + b)[0] == s[0];
    }
  }

  /** Trailing white space does not move the stop. */
  lemma {:induction false} TrimStopSkipsSpace(t: string, b: string, lo: nat)
    requires lo <= |t| && AllSpace(b)
    ensures TrimStop(t + b, lo) == TrimStop(t, lo)
  {
    if b != [] {
      var x := t + b;
      assert x[|x| - 1] == b[|b| - 1] && x[..|x| - 1] == t + b[..|b| - 1];
      TrimStopSkipsSpace(t, b[..|b| - 1], lo);
    } else {
      assert t + b == t;
    }
  }

  /** A prefix shifts the stop by its length. */
  lemma {:induction false} TrimStopShift(a: string, t: string, lo: nat)
    requires lo <= |t|
    ensures TrimStop(a + t, |a| + lo) == |a| + TrimStop(t, lo)
  {
    var x := a + t;
    if lo < |t| {
      assert x[|x| - 1] == t[|t| - 1];
      if IsSpace(t[|t| - 1]) {
        assert x[..|x| - 1] == a + t[..|t| - 1];
        TrimStopShift(a, t[..|t| - 1], lo);
      }
    }
  }

  /** The start of a padded text that is not all white space. */
  lemma TrimStartOfPadded(a: string, s: string, b: string)
    requires AllSpace(a) && TrimStart(s) < |s|
    ensures TrimStart(a + s + b) == |a| + TrimStart(s)
  {
    assert a + s + b == a + (s + b);
    TrimStartSkipsSpace(a, s + b);
    TrimStartIgnoresTail(s, b);
  }

  /** The stop of a padded text, measured from the same start. */
  lemma TrimStopOfPadded(a: string, s: string, b: string, lo: nat)
    requires lo <= |s| && AllSpace(b)
    ensures TrimStop(a + s + b, |a| + lo) == |a| + TrimStop(s, lo)
  {
    TrimStopSkipsSpace(a + s, b, |a| + lo);
    TrimStopShift(a, s, lo);
  }

  /** A slice of the middle part of a + s + b, indexed from the start of a. */
  lemma SliceOfMiddle(a: string, s: string, b: string, i: nat, j: nat)
    requires i <= j <= |s|
    ensures (a + s + b)[|a| + i..|a| + j] == s[i..j]
  {
  }

  /** Padding around a text that holds something besides white space: the same slice, shifted. */
  lemma {:induction false} TrimSpacePaddedText(a: string, s: string, b: string)
    requires AllSpace(a) && AllSpace(b) && TrimStart(s) < |s|
    ensures TrimSpace(a + s + b) == TrimSpace(s)
  {
    var x := a + s + b;
    var i := TrimStart(s);
    var j := TrimStop(s, i);
    assert TrimStart(x) == |a| + i by { TrimStartOfPadded(a, s, b); }
    assert TrimStop(x, |a| + i) == |a| + j by { TrimStopOfPadded(a, s, b, i); }
    assert x[|a| + i..|a| + j] == s[i..j] by { SliceOfMiddle(a, s, b, i, j); }
  }

  /** A text of white space only, padded with more, still trims to nothing. */
  lemma {:induction false} TrimSpacePaddedSpace(a: string, s: string, b: string)
    requires AllSpace(a) && AllSpace(b) && TrimStart(s) == |s|
    ensures TrimSpace(a + s + b) == TrimSpace(s) == []
  {
    var x := a + s + b;
    assert x == a + (s + b);
    assert s[..|s|] == s;
    TrimStartSkipsSpace(s, b);
    TrimStartSkipsSpace(a, s + b);
    assert TrimStart(x) == |x|;
  }

  /** White space around the input never changes what TrimSpace yields. */
  lemma TrimSpaceIgnoresPadding(a: string, s: string, b: string)
    requires AllSpace(a) && AllSpace(b)
    ensures TrimSpace(a + s + b) == TrimSpace(s)
  {
    if TrimStart(s) < |s| {
      TrimSpacePaddedText(a, s, b);
    } else {
      TrimSpacePaddedSpace(a, s, b);
    }
  }

  predicate IsDigit(c: char) {
    '0' <= c <= '9'
  }

  predicate AllDigits(s: string) {
    forall i | 0 <= i < |s| :: IsDigit(s[i])
  }

  function DigitValue(c: char): (v: nat)
    requires IsDigit(c)
    ensures v < 10
  {
    c as int - '0' as int
  }

  function DigitChar(v: nat): (c: char)
    requires v < 10
    ensures IsDigit(c) && DigitValue(c) == v
  {
    ('0' as int + v) as char
  }

  /** The value of a run of decimal digits, most significant first. */
  function DigitsValue(s: string): nat
    requires AllDigits(s)
  {
    if s == [] then 0 else 10 * DigitsValue(s[..|s| - 1]) + DigitValue(s[|s| - 1])
  }

  lemma TwoDigitsValue(s: string)
    requires |s| == 2 && AllDigits(s)
    ensures DigitsValue(s) == 10 * DigitValue(s[0]) + DigitValue(s[1])
  {
    var p := s[..1];
    assert p[..0] == [] && p[0] == s[0];
    assert DigitsValue(p) == DigitValue(s[0]);
  }

  lemma FourDigitsValue(s: string)
    requires |s| == 4 && AllDigits(s)
    ensures DigitsValue(s) == 1000 * DigitValue(s[0]) + 100 * DigitValue(s[1]) + 10 * DigitValue(s[2]) + DigitValue(s[3])
  {
    assert s[..3][..2] == s[..2];
    TwoDigitsValue(s[..2]);
  }

  /** The decimal rendering of `%d` for a non-negative integer: no sign, no leading zero. */
  function Decimal(n: nat): (r: string)
    ensures 1 <= |r| && AllDigits(r)
    ensures DigitsValue(r) == n
    ensures r[0] == '0' ==> n == 0
  {
    if n < 10 then [DigitChar(n)]
    else
      var p := Decimal(n / 10);
      var r := p + [DigitChar(n % 10)];
      assert r[..|r| - 1] == p;
      r
  }

  function Pow10(k: nat): (p: nat)
    ensures p >= 1
  {
    if k == 0 then 1 else 10 * Pow10(k - 1)
  }

  lemma {:induction false} DigitsValueBound(s: string)
    requires AllDigits(s)
    ensures DigitsValue(s) < Pow10(|s|)
  {
    if s != [] {
      DigitsValueBound(s[..|s| - 1]);
    }
  }

  lemma {:induction false} DecimalLength(n: nat, k: nat)
    requires 1 <= k && n < Pow10(k)
    ensures |Decimal(n)| <= k
  {
    if n >= 10 {
      DecimalLength(n / 10, k - 1);
    }
  }

  function Zeros(k: int): (r: string)
    ensures |r| == if k <= 0 then 0 else k
    ensures forall i | 0 <= i < |r| :: r[i] == '0'
  {
    if k <= 0 then [] else "0" + Zeros(k - 1)
  }

  lemma {:induction false} LeadingZeroValue(s: string)
    requires AllDigits(s)
    ensures AllDigits("0" + s) && DigitsValue("0" + s) == DigitsValue(s)
  {
    if s != [] {
      var t := "0" + s;
      assert t[..|t| - 1] == "0" + s[..|s| - 1];
      LeadingZeroValue(s[..|s| - 1]);
    }
  }

  lemma {:induction false} ZerosValue(k: int, s: string)
    requires AllDigits(s)
    ensures AllDigits(Zeros(k) + s) && DigitsValue(Zeros(k) + s) == DigitsValue(s)
  {
    if k > 0 {
      var t := Zeros(k - 1) + s;
      ZerosValue(k - 1, s);
      assert Zeros(k) == "0" + Zeros(k - 1);
      assert Zeros(k) + s == "0" + t;
      LeadingZeroValue(t);
    } else {
      assert Zeros(k) + s == s;
    }
  }

  /**
   * The time package's appendInt: a minus sign for a negative value, then the
   * magnitude in decimal, zero-padded on the left to at least `width` digits.
   */
  function PadInt(x: int, width: nat): string {
    if x < 0 then "-" + PadDigits(-x, width) else PadDigits(x, width)
  }

  /** The magnitude in decimal, with zeros in front up to `width` digits. */
  function PadDigits(u: nat, width: nat): string {
    var digits := Decimal(u);
    Zeros(width - |digits|) + digits
  }

  /** A value with at most `width` digits comes out as exactly `width` digits that read back to it. */
  lemma {:induction false} PadIntReadsBack(x: nat, width: nat)
    requires 1 <= width && x < Pow10(width)
    ensures |PadInt(x, width)| == width && AllDigits(PadInt(x, width))
    ensures DigitsValue(PadInt(x, width)) == x
  {
    var digits := Decimal(x);
    var k := width - |digits|;
    DecimalLength(x, width);
    assert PadInt(x, width) == Zeros(k) + digits;
    ZerosValue(k, digits);
  }
}
