/** `datetime.strptime(s, "%Y-%m-%dT%H:%M:%S.%fZ").date()`: the fractional-seconds,
    "Z"-suffixed form of the `date-time` of section 5.6 of RFC 3339, as Python's
    `_strptime` reads it (each directive is a small regular expression, letters
    match in either case, the whole string must be consumed), followed by the
    range checks of `datetime` itself. Any failure is the `ValueError` that
    `scrape_article` turns into `post_date = None`. */
module DateFormat {
  import opened Wrappers
  import opened Text

  datatype Date = Date(year: int, month: int, day: int)

  predicate IsLeapYear(y: int) {
    y % 4 == 0 && (y % 100 != 0 || y % 400 == 0)
  }

  function DaysInMonth(y: int, m: int): int
    requires 1 <= m <= 12
  {
    if m == 2 then (if IsLeapYear(y) then 29 else 28)
    else if m == 4 || m == 6 || m == 9 || m == 11 then 30
    else 31
  }

  /** A date `datetime.date` accepts. */
  predicate ValidDate(d: Date) {
    1 <= d.year <= 9999 && 1 <= d.month <= 12 && 1 <= d.day <= DaysInMonth(d.year, d.month)
  }

  function DigitValue(c: char): int {
    c as int - '0' as int
  }

  /** The decimal value of a digit string. */
  function Number(t: string): int {
    if t == [] then 0 else 10 * Number(t[..|t| - 1]) + DigitValue(t[|t| - 1])
  }

  // The directives' regular expressions, each as the set of tokens it matches in full.

  /** `%Y`: `\d\d\d\d` */
  predicate YearToken(t: string) {
    |t| == 4 && Digits(t)
  }

  /** `%m`: `1[0-2]|0[1-9]|[1-9]` */
  predicate MonthToken(t: string) {
    || (|t| == 2 && t[0] == '1' && '0' <= t[1] <= '2')
    || (|t| == 2 && t[0] == '0' && '1' <= t[1] <= '9')
    || (|t| == 1 && '1' <= t[0] <= '9')
  }

  /** `%d`: `3[01]|[12]\d|0[1-9]|[1-9]| [1-9]` */
  predicate DayToken(t: string) {
    || (|t| == 2 && t[0] == '3' && '0' <= t[1] <= '1')
    || (|t| == 2 && '1' <= t[0] <= '2' && IsDigit(t[1]))
    || (|t| == 2 && t[0] == '0' && '1' <= t[1] <= '9')
    || (|t| == 1 && '1' <= t[0] <= '9')
    || (|t| == 2 && t[0] == ' ' && '1' <= t[1] <= '9')
  }

  /** `%H`: `2[0-3]|[0-1]\d|\d` */
  predicate HourToken(t: string) {
    || (|t| == 2 && t[0] == '2' && '0' <= t[1] <= '3')
    || (|t| == 2 && '0' <= t[0] <= '1' && IsDigit(t[1]))
    || (|t| == 1 && IsDigit(t[0]))
  }

  /** `%M`: `[0-5]\d|\d` */
  predicate MinuteToken(t: string) {
    || (|t| == 2 && '0' <= t[0] <= '5' && IsDigit(t[1]))
    || (|t| == 1 && IsDigit(t[0]))
  }

  /** `%S`: `6[0-1]|[0-5]\d|\d` */
  predicate SecondToken(t: string) {
    || (|t| == 2 && t[0] == '6' && '0' <= t[1] <= '1')
    || MinuteToken(t)
  }

  /** `%f`: `[0-9]{1,6}` */
  predicate FractionToken(t: string) {
    1 <= |t| <= 6 && Digits(t)
  }

  /** The day's value; the space of " 5" is not a digit. */
  function DayValue(t: string): int
    requires DayToken(t)
  {
    if t[0] == ' ' then DigitValue(t[1]) else Number(t)
  }

  /** The text before the first `a` or `b` and the text after it; `None` when
      neither occurs. */
  function Cut(s: string, a: char, b: char): (r: Option<(string, string)>)
    ensures r.Some? ==> a !in r.value.0 && b !in r.value.0
  {
    if s == [] then None
    else if s[0] == a || s[0] == b then Some(([], s[1..]))
    else match Cut(s[1..], a, b)
      case None => None
      case Some(p) => Some(([s[0]] + p.0, p.1))
  }

  /** The seven fields between the literal characters of the format, the letters
      'T' and 'Z' in either case, with nothing after the final 'Z'. No field of the
      format can hold its separator, so each ends at the first one. */
  datatype Fields = Fields(y: string, m: string, d: string, h: string, mi: string, s: string, f: string)

  function Tokenize(s: string): Option<Fields> {
    match Cut(s, '-', '-')
    case None => None
    case Some(p1) =>
    match Cut(p1.1, '-', '-')
    case None => None
    case Some(p2) =>
    match Cut(p2.1, 'T', 't')
    case None => None
    case Some(p3) =>
    match Cut(p3.1, ':', ':')
    case None => None
    case Some(p4) =>
    match Cut(p4.1, ':', ':')
    case None => None
    case Some(p5) =>
    match Cut(p5.1, '.', '.')
    case None => None
    case Some(p6) =>
    match Cut(p6.1, 'Z', 'z')
    case None => None
    case Some(p7) =>
      if p7.1 == [] then Some(Fields(p1.0, p2.0, p3.0, p4.0, p5.0, p6.0, p7.0)) else None
  }

  predicate TokensMatch(f: Fields) {
    && YearToken(f.y) && MonthToken(f.m) && DayToken(f.d)
    && HourToken(f.h) && MinuteToken(f.mi) && SecondToken(f.s) && FractionToken(f.f)
  }

  /** `datetime.strptime(s, "%Y-%m-%dT%H:%M:%S.%fZ").date()`, `None` for `ValueError`:
      the string does not have the shape, the year is 0, the day is past the end of
      the month, or the second is 60 or 61. */
  function ParseIsoDate(s: string): Option<Date> {
    match Tokenize(s)
    case None => None
    case Some(f) =>
      if !TokensMatch(f) then None
      else
        MonthTokenRange(f.m);
        var d := Date(Number(f.y), Number(f.m), DayValue(f.d));
        if d.year == 0 || d.day > DaysInMonth(d.year, d.month) || Number(f.s) > 59 then None
        else Some(d)
  }

  // ---------------------------------------------------------------------------
  // What a parsed date is

  lemma NumberBounds(t: string)
    requires Digits(t)
    ensures 0 <= Number(t) < Pow10(|t|)
  {
    if t != [] {
      NumberBounds(t[..|t| - 1]);
    }
  }

  function Pow10(n: nat): nat {
    if n == 0 then 1 else 10 * Pow10(n - 1)
  }

  lemma Number1(t: string)
    requires |t| == 1
    ensures Number(t) == DigitValue(t[0])
  {
    assert t[..0] == [];
  }

  lemma Number2(t: string)
    requires |t| == 2
    ensures Number(t) == 10 * DigitValue(t[0]) + DigitValue(t[1])
  {
    Number1(t[..1]);
  }

  lemma {:induction false} NumberConcat(a: string, b: string)
    ensures Number(a + b) == Number(a) * Pow10(|b|) + Number(b)
  {
    if b == [] {
      assert a + b == a;
    } else {
      var b' := b[..|b| - 1];
      assert (a + b)[..|a + b| - 1] == a + b';
      NumberConcat(a, b');
    }
  }

  lemma MonthTokenRange(t: string)
    requires MonthToken(t)
    ensures 1 <= Number(t) <= 12
  {
    if |t| == 1 { Number1(t); } else { Number2(t); }
  }

  lemma DayTokenRange(t: string)
    requires DayToken(t)
    ensures 1 <= DayValue(t) <= 31
  {
    if |t| == 1 { Number1(t); } else { Number2(t); }
  }

  /** A date that parses is a valid calendar date. */
  lemma ParsedDateValid(s: string)
    requires ParseIsoDate(s).Some?
    ensures ValidDate(ParseIsoDate(s).value)
  {
    var f := Tokenize(s).value;
    NumberBounds(f.y);
    assert Pow10(4) == 10000;
    MonthTokenRange(f.m);
    DayTokenRange(f.d);
  }

  /** Only the ".<fraction>Z" form parses: a string without a '.' or without a final
      'Z' gives `None`, so "2024-05-01T12:34:56Z" and "2024-05-01T12:34:56.000+00:00"
      are refused. */
  lemma ParsedHasFractionAndZ(s: string)
    requires ParseIsoDate(s).Some?
    ensures '.' in s
    ensures s[|s| - 1] == 'Z' || s[|s| - 1] == 'z'
  {
    var p1 := Cut(s, '-', '-').value;
    var p2 := Cut(p1.1, '-', '-').value;
    var p3 := Cut(p2.1, 'T', 't').value;
    var p4 := Cut(p3.1, ':', ':').value;
    var p5 := Cut(p4.1, ':', ':').value;
    var p6 := Cut(p5.1, '.', '.').value;
    var p7 := Cut(p6.1, 'Z', 'z').value;
    CutShape(s, '-', '-');
    CutShape(p1.1, '-', '-');
    CutShape(p2.1, 'T', 't');
    CutShape(p3.1, ':', ':');
    CutShape(p4.1, ':', ':');
    CutShape(p5.1, '.', '.');
    CutShape(p6.1, 'Z', 'z');
    assert p6.1[|p6.1| - 1] == 'Z' || p6.1[|p6.1| - 1] == 'z';
    assert p5.1 == p6.0 + [p5.1[|p6.0|]] + p6.1;
    assert '.' in p5.1;
  }

  /** A cut splits the string into the part before the separator, the separator,
      and the rest. */
  lemma {:induction false} CutShape(s: string, a: char, b: char)
    requires Cut(s, a, b).Some?
    ensures var p := Cut(s, a, b).value;
      && |p.0| < |s| && (s[|p.0|] == a || s[|p.0|] == b)
      && s == p.0 + [s[|p.0|]] + p.1
  {
    if s[0] != a && s[0] != b {
      CutShape(s[1..], a, b);
      var p := Cut(s[1..], a, b).value;
      assert s == [s[0]] + s[1..];
    }
  }

  /** Cutting a token followed by a separator gives back the token and the rest. */
  lemma {:induction false} CutAppend(t: string, c: char, rest: string, a: char, b: char)
    requires a !in t && b !in t && (c == a || c == b)
    ensures Cut(t + [c] + rest, a, b) == Some((t, rest))
  {
    if t == [] {
      assert t + [c] + rest == [c] + rest;
    } else {
      var u := t + [c] + rest;
      assert u[0] == t[0] && u[1..] == t[1..] + [c] + rest;
      CutAppend(t[1..], c, rest, a, b);
      assert [t[0]] + t[1..] == t;
    }
  }

  // ---------------------------------------------------------------------------
  // A timestamp written in the format parses back to its date

  /** A moment to write out: the date and time fields and the fraction's digits. */
  datatype Timestamp = Timestamp(date: Date, hour: int, minute: int, second: int, fraction: string)

  /** Every field fits its directive's two (or four) digits; the date need not exist. */
  predicate ValidTimestamp(t: Timestamp) {
    && 0 <= t.date.year <= 9999 && 1 <= t.date.month <= 12 && 1 <= t.date.day <= 31
    && 0 <= t.hour <= 23 && 0 <= t.minute <= 59 && 0 <= t.second <= 59
    && FractionToken(t.fraction)
  }

  function DigitChar(n: int): char
    requires 0 <= n <= 9
  {
    ('0' as int + n) as char
  }

  /** `n` zero-padded to two digits. */
  function Pad2(n: int): (r: string)
    requires 0 <= n <= 99
    ensures |r| == 2 && Digits(r) && Number(r) == n
  {
    var r := [DigitChar(n / 10), DigitChar(n % 10)];
    Number2(r);
    r
  }

  /** `n` zero-padded to four digits. */
  function Pad4(n: int): (r: string)
    requires 0 <= n <= 9999
    ensures |r| == 4 && Digits(r) && Number(r) == n
  {
    var hi := Pad2(n / 100);
    var lo := Pad2(n % 100);
    NumberConcat(hi, lo);
    assert Pow10(2) == 100;
    hi + lo
  }

  /** The timestamp as `YYYY-MM-DDTHH:MM:SS.<fraction>Z`. */
  function FormatIso(t: Timestamp): string
    requires ValidTimestamp(t)
  {
    Pad4(t.date.year) + "-" + Pad2(t.date.month) + "-" + Pad2(t.date.day) + "T"
      + Pad2(t.hour) + ":" + Pad2(t.minute) + ":" + Pad2(t.second) + "." + t.fraction + "Z"
  }

  lemma DigitsFree(t: string, c: char)
    requires Digits(t) && !IsDigit(c)
    ensures c !in t
  {
  }

  lemma Pad2Tokens(n: int)
    requires 0 <= n <= 99
    ensures 1 <= n <= 12 ==> MonthToken(Pad2(n))
    ensures 1 <= n <= 31 ==> DayToken(Pad2(n)) && DayValue(Pad2(n)) == n
    ensures n <= 23 ==> HourToken(Pad2(n))
    ensures n <= 59 ==> MinuteToken(Pad2(n)) && SecondToken(Pad2(n))
  {
    var r := Pad2(n);
    assert r[0] == DigitChar(n / 10) && r[1] == DigitChar(n % 10);
  }

  /** The fields of a formatted timestamp, and what the tokenizer finds in it. */
  lemma TokenizeFormatted(t: Timestamp)
    requires ValidTimestamp(t)
    ensures Tokenize(FormatIso(t)) == Some(Fields(
      Pad4(t.date.year), Pad2(t.date.month), Pad2(t.date.day),
      Pad2(t.hour), Pad2(t.minute), Pad2(t.second), t.fraction))
  {
    var y, m, d := Pad4(t.date.year), Pad2(t.date.month), Pad2(t.date.day);
    var h, mi, s := Pad2(t.hour), Pad2(t.minute), Pad2(t.second);
    var f := t.fraction;
    var r7 := "";
    var r6 := f + "Z" + r7;
    var r5 := s + "." + r6;
    var r4 := mi + ":" + r5;
    var r3 := h + ":" + r4;
    var r2 := d + "T" + r3;
    var r1 := m + "-" + r2;
    var r0 := y + "-" + r1;
    assert r0 == FormatIso(t);
    CutAppend(y, '-', r1, '-', '-');
    CutAppend(m, '-', r2, '-', '-');
    CutAppend(d, 'T', r3, 'T', 't');
    CutAppend(h, ':', r4, ':', ':');
    CutAppend(mi, ':', r5, ':', ':');
    CutAppend(s, '.', r6, '.', '.');
    CutAppend(f, 'Z', r7, 'Z', 'z');
  }

  /** Round trip: writing a timestamp in the format and parsing it gives its date
      exactly when that date exists (so a 29 February outside a leap year, a
      31 April or the year 0 give `None`). */
  lemma FormatThenParse(t: Timestamp)
    requires ValidTimestamp(t)
    ensures ParseIsoDate(FormatIso(t)) == if ValidDate(t.date) then Some(t.date) else None
  {
    TokenizeFormatted(t);
    Pad2Tokens(t.date.month);
    Pad2Tokens(t.date.day);
    Pad2Tokens(t.hour);
    Pad2Tokens(t.minute);
    Pad2Tokens(t.second);
  }
}
