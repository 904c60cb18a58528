/**
 * Time-of-day strings of the component.
 *
 * Reading: `parseInt(s.split(':')[0]) * 60 + parseInt(s.split(':')[1])`, the
 * minutes-since-midnight of an "HH:MM" string.
 * Writing: `getCurrentTime`, which pads the hour and the minute to two digits
 * with `padStart(2, '0')` and joins them with ':'.
 */
module Clock {

  predicate IsDigit(c: char) {
    '0' <= c <= '9'
  }

  predicate AllDigits(s: string) {
    forall k :: 0 <= k < |s| ==> IsDigit(s[k])
  }

  /** A non-empty run of decimal digits: what `parseInt` reads completely. */
  predicate IsNumeral(s: string) {
    |s| > 0 && AllDigits(s)
  }

  function DigitValue(c: char): (d: nat)
    requires IsDigit(c)
    ensures d < 10
  {
    (c as int - '0' as int) as nat
  }

  function DigitChar(d: nat): (c: char)
    requires d < 10
    ensures IsDigit(c) && DigitValue(c) == d
  {
    ('0' as int + d) as char
  }

  /** The value `parseInt` gives a string of decimal digits. */
  function ParseDigits(s: string): (v: nat)
    requires AllDigits(s)
  {
    if s == [] then 0 else ParseDigits(s[..|s| - 1]) * 10 + DigitValue(s[|s| - 1])
  }

  /** `String(n)` for a natural number: its decimal digits, no leading zero. */
  function Decimal(n: nat): (r: string)
    ensures IsNumeral(r)
    ensures |r| == 1 <==> n < 10
  {
    if n < 10 then [DigitChar(n)] else Decimal(n / 10) + [DigitChar(n % 10)]
  }

  /** `s.padStart(width, fill)` with a one-character fill. */
  function PadStart(s: string, width: nat, fill: char): (r: string)
    ensures |r| == if |s| >= width then |s| else width
    ensures IsDigit(fill) && AllDigits(s) ==> AllDigits(r)
    decreases width - |s|
  {
    if |s| >= width then s else PadStart([fill] + s, width, fill)
  }

  /** `padStart` keeps `s` at the end and puts only `fill` in front of it. */
  lemma {:induction false} PadStartContents(s: string, width: nat, fill: char)
    ensures var r := PadStart(s, width, fill);
      r[|r| - |s|..] == s && forall k :: 0 <= k < |r| - |s| ==> r[k] == fill
    decreases width - |s|
  {
    if |s| < width {
      PadStartContents([fill] + s, width, fill);
      var r := PadStart(s, width, fill);
      assert r[|r| - |s|..] == r[|r| - |s| - 1..][1..];
    }
  }

  /** Index of the first ':' in `s`, or `|s|` when there is none. */
  function FirstColon(s: string): (k: nat)
    ensures k <= |s|
    ensures k < |s| ==> s[k] == ':'
    ensures forall j :: 0 <= j < k ==> s[j] != ':'
  {
    if s == [] || s[0] == ':' then 0 else 1 + FirstColon(s[1..])
  }

  /** `s.split(':')[0]`. */
  function HourField(s: string): (field: string) {
    s[..FirstColon(s)]
  }

  /** `s.split(':')[1]`, which exists when `s` holds a ':'. */
  function MinuteField(s: string): (field: string)
    requires FirstColon(s) < |s|
  {
    var rest := s[FirstColon(s) + 1..];
    rest[..FirstColon(rest)]
  }

  /**
   * A time string whose two `split(':')` fields are both plain numerals, so that
   * neither `parseInt` gives NaN.
   */
  predicate WellFormed(s: string) {
    FirstColon(s) < |s| && IsNumeral(HourField(s)) && IsNumeral(MinuteField(s))
  }

  /** The canonical shape "HH:MM" that `getCurrentTime` produces for a real clock. */
  predicate Canonical(s: string) {
    |s| == 5 && s[2] == ':' &&
    IsDigit(s[0]) && IsDigit(s[1]) && IsDigit(s[3]) && IsDigit(s[4])
  }

  function Hour(s: string): (h: nat)
    requires WellFormed(s)
  {
    ParseDigits(HourField(s))
  }

  function Minute(s: string): (m: nat)
    requires WellFormed(s)
  {
    ParseDigits(MinuteField(s))
  }

  /** Minutes since midnight, `hour * 60 + minute`. */
  function Minutes(s: string): (total: int)
    requires WellFormed(s)
  {
    Hour(s) * 60 + Minute(s)
  }

  /** `String(n).padStart(2, '0')`. */
  function TwoDigits(n: nat): (r: string)
    ensures IsNumeral(r)
    ensures n < 100 ==> |r| == 2
  {
    PadStart(Decimal(n), 2, '0')
  }

  /** The string `getCurrentTime` builds from the clock's hour and minute. */
  function FormatTime(hour: nat, minute: nat): (s: string) {
    TwoDigits(hour) + [':'] + TwoDigits(minute)
  }

  /** Below 10 the pad adds one '0'; from 10 on the decimal string is kept as it is. */
  lemma TwoDigitsShape(n: nat)
    ensures n < 10 ==> TwoDigits(n) == ['0', DigitChar(n)]
    ensures n >= 10 ==> TwoDigits(n) == Decimal(n)
  {
    if n < 10 {
      assert PadStart([DigitChar(n)], 2, '0') == PadStart(['0', DigitChar(n)], 2, '0');
    }
  }

  lemma JoinCanonical(h: string, m: string)
    requires |h| == 2 && |m| == 2 && AllDigits(h) && AllDigits(m)
    ensures Canonical(h + [':'] + m)
  {
    var r := h + [':'] + m;
    assert r[0] == h[0] && r[1] == h[1] && r[3] == m[0] && r[4] == m[1];
  }

  /** An hour and a minute below 100 format to the canonical "HH:MM" shape. */
  lemma FormatCanonical(hour: nat, minute: nat)
    requires hour < 100 && minute < 100
    ensures Canonical(FormatTime(hour, minute))
  {
    JoinCanonical(TwoDigits(hour), TwoDigits(minute));
  }

  // ---------------------------------------------------------------------------
  // Round trips between parseInt and String / padStart.

  lemma {:induction false} ParseDecimal(n: nat)
    ensures ParseDigits(Decimal(n)) == n
  {
    if n >= 10 {
      var d := Decimal(n);
      assert d[..|d| - 1] == Decimal(n / 10);
      ParseDecimal(n / 10);
    }
  }

  lemma {:induction false} ParseLeadingZero(s: string)
    requires AllDigits(s)
    ensures AllDigits(['0'] + s) && ParseDigits(['0'] + s) == ParseDigits(s)
  {
    var z := ['0'] + s;
    if s != [] {
      assert z[..|z| - 1] == ['0'] + s[..|s| - 1];
      ParseLeadingZero(s[..|s| - 1]);
    } else {
      assert z[..|z| - 1] == [];
    }
  }

  lemma ParseTwoDigits(n: nat)
    ensures ParseDigits(TwoDigits(n)) == n
  {
    ParseDecimal(n);
    TwoDigitsShape(n);
    if n < 10 {
      assert TwoDigits(n) == ['0'] + Decimal(n);
      ParseLeadingZero(Decimal(n));
    }
  }

  lemma {:induction false} FirstColonOfDigits(a: string, b: string)
    requires AllDigits(a)
    ensures FirstColon(a) == |a|
    ensures FirstColon(a + [':'] + b) == |a|
  {
    var s := a + [':'] + b;
    assert s[|a|] == ':';
    assert forall j :: 0 <= j < |a| ==> s[j] == a[j];
  }

  /** Formatting an hour and a minute and parsing the string back gives them again. */
  lemma FormatThenParse(hour: nat, minute: nat)
    ensures WellFormed(FormatTime(hour, minute))
    ensures Hour(FormatTime(hour, minute)) == hour
    ensures Minute(FormatTime(hour, minute)) == minute
    ensures Minutes(FormatTime(hour, minute)) == hour * 60 + minute
  {
    var h, m := TwoDigits(hour), TwoDigits(minute);
    var s := FormatTime(hour, minute);
    assert s == h + [':'] + m;
    FirstColonOfDigits(h, m);
    assert HourField(s) == h;
    assert s[FirstColon(s) + 1..] == m;
    FirstColonOfDigits(m, []);
    assert MinuteField(s) == m;
    ParseTwoDigits(hour);
    ParseTwoDigits(minute);
  }

  lemma TwoDigitsOfParse(d: string)
    requires |d| == 2 && AllDigits(d)
    ensures TwoDigits(ParseDigits(d)) == d
  {
    var a, b := DigitValue(d[0]), DigitValue(d[1]);
    var n := ParseDigits(d);
    ParseOfPair(d);
    PairOfValues(d);
    if a == 0 {
      assert n == b;
      TwoDigitsShape(n);
    } else {
      DecimalOfPair(a, b);
      TwoDigitsShape(n);
    }
  }

  lemma PairOfValues(d: string)
    requires |d| == 2 && AllDigits(d)
    ensures d == [DigitChar(DigitValue(d[0])), DigitChar(DigitValue(d[1]))]
  {
    DigitCharOfValue(d[0]);
    DigitCharOfValue(d[1]);
  }

  lemma DigitCharOfValue(c: char)
    requires IsDigit(c)
    ensures DigitChar(DigitValue(c)) == c
  {
  }

  lemma ParseOfPair(d: string)
    requires |d| == 2 && AllDigits(d)
    ensures ParseDigits(d) == DigitValue(d[0]) * 10 + DigitValue(d[1])
  {
    var p := d[..1];
    assert p[..0] == [];
    assert ParseDigits(p) == DigitValue(d[0]);
    assert d[..|d| - 1] == p;
  }

  lemma DecimalOfPair(a: nat, b: nat)
    requires 0 < a < 10 && b < 10
    ensures Decimal(a * 10 + b) == [DigitChar(a), DigitChar(b)]
  {
    var n := a * 10 + b;
    DivModTen(a, b);
    DecimalStep(n, a, b);
  }

  lemma DecimalStep(n: nat, q: nat, d: nat)
    requires n >= 10 && q < 10 && n / 10 == q && n % 10 == d
    ensures Decimal(n) == [DigitChar(q), DigitChar(d)]
  {
    assert Decimal(n) == Decimal(q) + [DigitChar(d)];
  }

  lemma DivModTen(a: nat, b: nat)
    requires 0 < a < 10 && b < 10
    ensures (a * 10 + b) / 10 == a && (a * 10 + b) % 10 == b
  {
  }

  lemma CanonicalFields(s: string)
    requires Canonical(s)
    ensures WellFormed(s)
    ensures HourField(s) == s[..2] && MinuteField(s) == s[3..]
  {
    var h, m := s[..2], s[3..];
    assert s == h + [':'] + m;
    FirstColonOfDigits(h, m);
    assert s[FirstColon(s) + 1..] == m;
    FirstColonOfDigits(m, []);
  }

  /** A canonical "HH:MM" string reads as the two-digit hour and the two-digit minute it spells. */
  lemma CanonicalMinutes(s: string)
    requires Canonical(s)
    ensures WellFormed(s)
    ensures Hour(s) == DigitValue(s[0]) * 10 + DigitValue(s[1])
    ensures Minute(s) == DigitValue(s[3]) * 10 + DigitValue(s[4])
  {
    CanonicalFields(s);
    ParseOfPair(s[..2]);
    ParseOfPair(s[3..]);
  }

  /** Parsing a canonical "HH:MM" string and formatting its fields gives the string back. */
  lemma ParseThenFormat(s: string)
    requires Canonical(s)
    ensures WellFormed(s)
    ensures FormatTime(Hour(s), Minute(s)) == s
  {
    CanonicalFields(s);
    TwoDigitsOfParse(s[..2]);
    TwoDigitsOfParse(s[3..]);
    assert s == s[..2] + [':'] + s[3..];
  }
}
