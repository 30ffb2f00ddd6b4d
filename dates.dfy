/**
 * Timestamps as the backend stores them, the two text shapes `parse_datetime`
 * accepts (app.py), and the ISO rendering `datetime.isoformat()` sends to the client.
 */
module Dates {
  import opened Wrappers

  /** A naive UTC `datetime` without its microseconds. */
  datatype DateTime = DateTime(year: int, month: int, day: int, hour: int, minute: int, second: int)

  predicate IsLeapYear(y: int) {
    y % 4 == 0 && (y % 100 != 0 || y % 400 == 0)
  }

  function DaysInMonth(y: int, m: int): (n: int)
    requires 1 <= m <= 12
    ensures 28 <= n <= 31
  {
    if m == 2 then (if IsLeapYear(y) then 29 else 28)
    else if m == 4 || m == 6 || m == 9 || m == 11 then 30
    else 31
  }

  /** A calendar date Python's `datetime` accepts (years 1 to 9999). */
  predicate ValidDate(y: int, m: int, d: int) {
    1 <= y <= 9999 && 1 <= m <= 12 && 1 <= d <= DaysInMonth(y, m)
  }

  predicate Valid(t: DateTime) {
    ValidDate(t.year, t.month, t.day) && 0 <= t.hour < 24 && 0 <= t.minute < 60 && 0 <= t.second < 60
  }

  /**
   * The position of a timestamp on the time line, a mixed-radix count of seconds.
   * For valid timestamps it orders them as the database orders DATETIME values.
   */
  function Ordinal(t: DateTime): int {
    ((((t.year * 12 + t.month) * 31 + t.day) * 24 + t.hour) * 60 + t.minute) * 60 + t.second
  }

  function Midnight(t: DateTime): DateTime {
    t.(hour := 0, minute := 0, second := 0)
  }

  // ---- Decimal digits ----

  predicate IsDigit(c: char) {
    '0' <= c <= '9'
  }

  predicate AllDigits(s: string) {
    forall i :: 0 <= i < |s| ==> IsDigit(s[i])
  }

  function DigitValue(c: char): (d: int)
    requires IsDigit(c)
    ensures 0 <= d < 10
  {
    c as int - '0' as int
  }

  function DigitChar(d: int): (c: char)
    requires 0 <= d < 10
    ensures IsDigit(c) && DigitValue(c) == d
  {
    ('0' as int + d) as char
  }

  /** The number a string of decimal digits denotes. */
  function Decimal(s: string): (n: nat)
    requires AllDigits(s)
  {
    if s == [] then 0 else Decimal(s[..|s| - 1]) * 10 + DigitValue(s[|s| - 1])
  }

  function Pad2(n: int): (s: string)
    requires 0 <= n < 100
    ensures |s| == 2 && AllDigits(s)
  {
    [DigitChar(n / 10), DigitChar(n % 10)]
  }

  function Pad4(n: int): (s: string)
    requires 0 <= n < 10000
    ensures |s| == 4 && AllDigits(s)
  {
    [DigitChar(n / 1000), DigitChar(n / 100 % 10), DigitChar(n / 10 % 10), DigitChar(n % 10)]
  }

  /** Appending a digit shifts the number one place left. */
  lemma DecimalSnoc(s: string, c: char)
    requires AllDigits(s) && IsDigit(c)
    ensures AllDigits(s + [c]) && Decimal(s + [c]) == Decimal(s) * 10 + DigitValue(c)
  {
    assert (s + [c])[..|s|] == s;
  }

  lemma Pad2Decimal(n: int)
    requires 0 <= n < 100
    ensures Decimal(Pad2(n)) == n
  {
    var a, b := DigitChar(n / 10), DigitChar(n % 10);
    DecimalSnoc([], a);
    DecimalSnoc([a], b);
    assert Pad2(n) == [a] + [b];
  }

  lemma Pad4Decimal(n: int)
    requires 0 <= n < 10000
    ensures Decimal(Pad4(n)) == n
  {
    var a, b, c, d := DigitChar(n / 1000), DigitChar(n / 100 % 10), DigitChar(n / 10 % 10), DigitChar(n % 10);
    var hundreds, tens := n / 100, n / 10;
    assert hundreds / 10 == n / 1000 && tens / 10 == hundreds;
    DecimalSnoc([], a);
    DecimalSnoc([a], b);
    assert [a] + [b] == [a, b];
    assert Decimal([a, b]) == hundreds;
    DecimalSnoc([a, b], c);
    assert [a, b] + [c] == [a, b, c];
    assert Decimal([a, b, c]) == tens;
    DecimalSnoc([a, b, c], d);
    assert Pad4(n) == [a, b, c] + [d];
  }

  /** Two digits are the zero-padded rendering of the number they denote. */
  lemma DecimalPad2(s: string)
    requires |s| == 2 && AllDigits(s)
    ensures Decimal(s) < 100 && Pad2(Decimal(s)) == s
  {
    assert s[..1][..0] == [] && s[..1][0] == s[0];
    assert Decimal(s[..1]) == DigitValue(s[0]);
    var n := Decimal(s);
    assert n == DigitValue(s[0]) * 10 + DigitValue(s[1]);
  }

  /** Four digits are the zero-padded rendering of the number they denote. */
  lemma DecimalPad4(s: string)
    requires |s| == 4 && AllDigits(s)
    ensures Decimal(s) < 10000 && Pad4(Decimal(s)) == s
  {
    var a, b, c, d := DigitValue(s[0]), DigitValue(s[1]), DigitValue(s[2]), DigitValue(s[3]);
    assert s[..1][..0] == [] && s[..1][0] == s[0];
    assert Decimal(s[..1]) == a;
    assert s[..2][..1] == s[..1] && s[..2][1] == s[1];
    assert Decimal(s[..2]) == a * 10 + b;
    assert s[..3][..2] == s[..2] && s[..3][2] == s[2];
    assert Decimal(s[..3]) == (a * 10 + b) * 10 + c;
    var ab := a * 10 + b;
    var abc := ab * 10 + c;
    var n := Decimal(s);
    assert n == abc * 10 + d;
    ShiftDigit(abc, d);
    ShiftDigit(ab, c);
    ShiftDigit(a, b);
    assert n / 100 == ab by { assert n / 100 == n / 10 / 10; }
    assert n / 1000 == a by { assert n / 1000 == n / 100 / 10; }
    assert Pad4(n) == [DigitChar(a), DigitChar(b), DigitChar(c), DigitChar(d)];
  }

  /** Dividing a shifted number by ten undoes the shift. */
  lemma ShiftDigit(q: int, d: int)
    requires 0 <= q && 0 <= d < 10
    ensures (q * 10 + d) / 10 == q && (q * 10 + d) % 10 == d
  {
  }

  // ---- Rendering ----

  /** `'%Y-%m-%d'`, the date the client's date inputs hold. */
  function DateText(t: DateTime): (s: string)
    requires Valid(t)
    ensures |s| == 10
  {
    Pad4(t.year) + "-" + Pad2(t.month) + "-" + Pad2(t.day)
  }

  /** `'%Y-%m-%dT%H:%M'`, the other shape `parse_datetime` accepts. */
  function MinuteText(t: DateTime): (s: string)
    requires Valid(t)
    ensures |s| == 16 && s[..10] == DateText(t)
  {
    DateText(t) + "T" + Pad2(t.hour) + ":" + Pad2(t.minute)
  }

  /** `datetime.isoformat()` of a timestamp whose microseconds are zero. */
  function IsoFormat(t: DateTime): (s: string)
    requires Valid(t)
    ensures |s| == 19 && s[..10] == DateText(t)
  {
    MinuteText(t) + ":" + Pad2(t.second)
  }

  // ---- Parsing (app.py `parse_datetime`) ----

  /** Positions 0-9 read `DDDD-DD-DD`. */
  predicate DateShape(s: string) {
    |s| >= 10 && AllDigits(s[..4]) && s[4] == '-' && AllDigits(s[5..7]) && s[7] == '-' && AllDigits(s[8..10])
  }

  /** Positions 10-15 read `THH:MM`; strptime matches the literal `T` ignoring case. */
  predicate TimeShape(s: string) {
    |s| >= 16 && (s[10] == 'T' || s[10] == 't') && AllDigits(s[11..13]) && s[13] == ':' && AllDigits(s[14..16])
  }

  /** The date at positions 0-9 of a string of date shape is the one they spell. */
  lemma DateShapeSpells(s: string, t: DateTime)
    requires DateShape(s) && Valid(t)
    requires t.year == Decimal(s[..4]) && t.month == Decimal(s[5..7]) && t.day == Decimal(s[8..10])
    ensures s[..10] == DateText(t)
  {
    DecimalPad4(s[..4]);
    DecimalPad2(s[5..7]);
    DecimalPad2(s[8..10]);
    assert s[..10] == s[..4] + "-" + s[5..7] + "-" + s[8..10];
  }

  /**
   * `datetime.strptime(s, '%Y-%m-%d')`, None where it raises ValueError: a
   * result is a valid midnight whose rendering is the text itself.
   */
  function StrptimeDate(s: string): (r: Option<DateTime>)
    ensures r.Some? ==> Valid(r.value) && r.value == Midnight(r.value)
    ensures r.Some? ==> |s| == 10 && s == DateText(r.value)
  {
    if |s| == 10 && DateShape(s) then
      var y, m, d := Decimal(s[..4]), Decimal(s[5..7]), Decimal(s[8..10]);
      if ValidDate(y, m, d) then
        DateShapeSpells(s, DateTime(y, m, d, 0, 0, 0));
        Some(DateTime(y, m, d, 0, 0, 0))
      else None
    else
      None
  }

  /**
   * `datetime.strptime(s, '%Y-%m-%dT%H:%M')`, None where it raises ValueError:
   * a result is a valid timestamp with zero seconds whose rendering is the
   * text itself, up to the case of the `T`.
   */
  function StrptimeMinute(s: string): (r: Option<DateTime>)
    ensures r.Some? ==> Valid(r.value) && r.value.second == 0
    ensures r.Some? ==> |s| == 16 && s[..10] == DateText(r.value) && (s[10] == 'T' || s[10] == 't')
    ensures r.Some? ==> s[11..] == Pad2(r.value.hour) + ":" + Pad2(r.value.minute)
  {
    if |s| == 16 && DateShape(s) && TimeShape(s) then
      var y, m, d := Decimal(s[..4]), Decimal(s[5..7]), Decimal(s[8..10]);
      var h, mi := Decimal(s[11..13]), Decimal(s[14..16]);
      if ValidDate(y, m, d) && h < 24 && mi < 60 then
        DateShapeSpells(s, DateTime(y, m, d, h, mi, 0));
        DecimalPad2(s[11..13]);
        DecimalPad2(s[14..16]);
        assert s[11..] == s[11..13] + ":" + s[14..16];
        Some(DateTime(y, m, d, h, mi, 0))
      else None
    else
      None
  }

  /**
   * app.py `parse_datetime`: nothing for a missing or empty string, else the
   * date-and-minute shape, else the date-only shape, else nothing.
   */
  function ParseDatetime(s: Option<string>): (r: Option<DateTime>)
    ensures (s.None? || s.value == "") ==> r.None?
    ensures r.Some? ==> Valid(r.value) && r.value.second == 0
    ensures r.Some? ==> |s.value| == 10 || |s.value| == 16
    ensures r.Some? && |s.value| == 10 ==> r.value == Midnight(r.value) && s.value == DateText(r.value)
    ensures r.Some? && |s.value| == 16 ==>
      && s.value[..10] == DateText(r.value) && (s.value[10] == 'T' || s.value[10] == 't')
      && s.value[11..] == Pad2(r.value.hour) + ":" + Pad2(r.value.minute)
  {
    if s.None? || s.value == "" then None
    else if StrptimeMinute(s.value).Some? then StrptimeMinute(s.value)
    else StrptimeDate(s.value)
  }

  /** Parsing the date-and-minute rendering of a timestamp gives the timestamp back. */
  lemma ParseMinuteText(t: DateTime)
    requires Valid(t) && t.second == 0
    ensures ParseDatetime(Some(MinuteText(t))) == Some(t)
  {
    var s := MinuteText(t);
    assert s[..4] == Pad4(t.year) && s[5..7] == Pad2(t.month) && s[8..10] == Pad2(t.day);
    assert s[11..13] == Pad2(t.hour) && s[14..16] == Pad2(t.minute);
    Pad4Decimal(t.year);
    Pad2Decimal(t.month);
    Pad2Decimal(t.day);
    Pad2Decimal(t.hour);
    Pad2Decimal(t.minute);
  }

  /** Parsing the date rendering of a timestamp gives that day at midnight. */
  lemma ParseDateText(t: DateTime)
    requires Valid(t)
    ensures ParseDatetime(Some(DateText(t))) == Some(Midnight(t))
  {
    var s := DateText(t);
    assert s[..4] == Pad4(t.year) && s[5..7] == Pad2(t.month) && s[8..10] == Pad2(t.day);
    Pad4Decimal(t.year);
    Pad2Decimal(t.month);
    Pad2Decimal(t.day);
  }
}
