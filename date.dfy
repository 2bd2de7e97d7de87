/** Calendar-minute timestamps: Gregorian validity, the fixed text format
    yyyy-mm-dd/hh:mm, and the comparison operators, which compare the
    formatted texts. */
module Dates {

  /** A date is five plain integers; nothing stops a field from being out of range. */
  datatype Date = Date(year: int, month: int, day: int, hour: int, minute: int)

  /** The date the parser falls back to, and the default-constructed date. */
  const Zero: Date := Date(0, 0, 0, 0, 0)

  /** The text every invalid date is formatted as. */
  const InvalidText: string := "0000-00-00/00:00"

  /** Days per month in a common year (the table days_of_month). */
  const DaysOfMonth: seq<int> := [31, 28, 31, 30, 31, 30, 31, 31, 30, 31, 30, 31]

  // ---------------------------------------------------------------------
  // Validity

  /** Gregorian leap-year rule. C++ `%` truncates toward zero and Dafny's is
      Euclidean, but the two agree on whether the remainder is zero. */
  predicate IsLeap(y: int)
  {
    (y % 4 == 0 && y % 100 != 0) || y % 400 == 0
  }

  /** The checks in their source order; 29 February of a leap year is
      accepted before the month table is consulted. */
  predicate IsValid(d: Date)
  {
    if d.hour < 0 || d.hour >= 24 then false
    else if d.minute < 0 || d.minute >= 60 then false
    else if d.year < 1000 || d.year >= 10000 then false
    else if d.month <= 0 || d.month > 12 then false
    else if d.day <= 0 then false
    else if IsLeap(d.year) && d.month == 2 && d.day == 29 then true
    else d.day <= DaysOfMonth[d.month - 1]
  }

  /** Every field within the widest range a valid date can have. */
  predicate InRange(d: Date)
  {
    && 1000 <= d.year < 10000 && 1 <= d.month <= 12 && 1 <= d.day <= 31
    && 0 <= d.hour < 24 && 0 <= d.minute < 60
  }

  /** A valid date has every field in range. */
  lemma ValidInRange(d: Date)
    requires IsValid(d)
    ensures InRange(d)
  {
  }

  /** Length of a month, written independently of the table. */
  function MonthLength(year: int, month: int): (n: int)
    requires 1 <= month <= 12
    ensures 28 <= n <= 31
    ensures n == 29 <==> month == 2 && IsLeap(year)
  {
    if month == 2 then (if IsLeap(year) then 29 else 28)
    else if month == 4 || month == 6 || month == 9 || month == 11 then 30
    else 31
  }

  /** Validity is exactly "every field in range, the day within its month". */
  lemma ValidIsInRange(d: Date)
    ensures IsValid(d) <==>
      && 0 <= d.hour < 24 && 0 <= d.minute < 60
      && 1000 <= d.year < 10000 && 1 <= d.month <= 12
      && 1 <= d.day <= MonthLength(d.year, d.month)
  {
  }

  /** 29 February is a valid day exactly in leap years; 1900 and 2100 are not leap, 2000 is. */
  lemma LeapDay(year: int, hour: int, minute: int)
    requires 1000 <= year < 10000 && 0 <= hour < 24 && 0 <= minute < 60
    ensures IsValid(Date(year, 2, 29, hour, minute)) <==> IsLeap(year)
    ensures !IsLeap(1900) && !IsLeap(2100) && IsLeap(2000)
  {
  }

  // ---------------------------------------------------------------------
  // Decimal text

  predicate IsDigit(c: char)
  {
    '0' <= c <= '9'
  }

  function DigitChar(n: int): (c: char)
    requires 0 <= n < 10
    ensures IsDigit(c)
  {
    (48 + n) as char
  }

  function DigitValue(c: char): int
  {
    c as int - 48
  }

  lemma DigitRoundTrip(c: char, n: int)
    ensures IsDigit(c) ==> 0 <= DigitValue(c) < 10 && DigitChar(DigitValue(c)) == c
    ensures 0 <= n < 10 ==> DigitValue(DigitChar(n)) == n
  {
  }

  /** std::to_string on a non-negative integer: its decimal digits, no leading zero. */
  function NatToString(n: nat): string
    decreases n
  {
    if n < 10 then [DigitChar(n)] else NatToString(n / 10) + [DigitChar(n % 10)]
  }

  /** std::to_string on any integer. */
  function IntToString(n: int): string
  {
    if n < 0 then "-" + NatToString(-n) else NatToString(n)
  }

  /** formatString: to_string, with a '0' in front of any number below ten. */
  function FormatString(n: int): string
  {
    var r := IntToString(n);
    if n < 10 then ['0'] + r else r
  }

  /** stoi on a run of decimal digits. */
  function Number(s: string): int
  {
    if s == [] then 0 else 10 * Number(s[..|s| - 1]) + DigitValue(s[|s| - 1])
  }

  // ---------------------------------------------------------------------
  // Text format

  /** The pattern ^\d{4}-\d{2}-\d{2}/\d{2}:\d{2}$. */
  predicate Matches(s: string)
  {
    && |s| == 16
    && s[4] == '-' && s[7] == '-' && s[10] == '/' && s[13] == ':'
    && forall i | 0 <= i < 16 && i != 4 && i != 7 && i != 10 && i != 13 :: IsDigit(s[i])
  }

  /** Date::dateToString. */
  function DateToString(d: Date): (r: string)
    ensures !IsValid(d) ==> r == InvalidText
    ensures IsValid(d) ==> Matches(r)
  {
    if !IsValid(d) then InvalidText
    else
      ValidInRange(d); TextLayout(d); LayoutMatches(d);
      IntToString(d.year) + "-" + FormatString(d.month) + "-" + FormatString(d.day)
        + "/" + FormatString(d.hour) + ":" + FormatString(d.minute)
  }

  /** Date::stringToDate: the fields of a matching text, or Zero when the text
      does not match or the fields do not make a valid date. */
  function StringToDate(s: string): (d: Date)
    ensures IsValid(d) || d == Zero
    ensures IsValid(d) ==> Matches(s)
  {
    if !Matches(s) then Zero
    else
      var d := Date(Number(s[0..4]), Number(s[5..7]), Number(s[8..10]),
                    Number(s[11..13]), Number(s[14..16]));
      if IsValid(d) then d else Zero
  }

  /** Texts with a one-digit month or minute do not match the pattern and
      parse to the zero date. */
  lemma ShortFieldsRejected()
    ensures StringToDate("2019-7-10/15:00") == Zero
    ensures StringToDate("2019-07-11/19:0") == Zero
  {
  }

  /** Two zero-padded digits. */
  function Pad2(n: int): (r: string)
    requires 0 <= n < 100
    ensures |r| == 2 && IsDigit(r[0]) && IsDigit(r[1])
  {
    [DigitChar(n / 10), DigitChar(n % 10)]
  }

  /** A separator followed by two zero-padded digits. */
  function Field(sep: char, n: int): (r: string)
    requires 0 <= n < 100
    ensures |r| == 3 && r[0] == sep && IsDigit(r[1]) && IsDigit(r[2])
  {
    [sep] + Pad2(n)
  }

  // The formatted text of a valid date, grouped from the right so that it
  // splits into a year part followed by nested fixed-width fields.

  function YearText(d: Date): (r: string)
    requires InRange(d)
    ensures |r| == 4 && forall i | 0 <= i < 4 :: IsDigit(r[i])
  {
    Pad2(d.year / 100) + Pad2(d.year % 100)
  }

  function TimeText(d: Date): (r: string)
    requires InRange(d)
    ensures |r| == 6
  {
    Field('/', d.hour) + Field(':', d.minute)
  }

  function DayText(d: Date): (r: string)
    requires InRange(d)
    ensures |r| == 9
  {
    Field('-', d.day) + TimeText(d)
  }

  function MonthText(d: Date): (r: string)
    requires InRange(d)
    ensures |r| == 12
  {
    Field('-', d.month) + DayText(d)
  }

  function Layout(d: Date): string
    requires InRange(d)
  {
    YearText(d) + MonthText(d)
  }

  lemma FormatTwoDigits(n: int)
    requires 0 <= n < 100
    ensures FormatString(n) == Pad2(n)
  {
    if n >= 10 {
      assert NatToString(n) == NatToString(n / 10) + [DigitChar(n % 10)];
    }
  }

  lemma FormatYear(y: int)
    requires 1000 <= y < 10000
    ensures IntToString(y) == Pad2(y / 100) + Pad2(y % 100)
  {
    var a := y / 10;
    var b := a / 10;
    assert NatToString(y) == NatToString(a) + [DigitChar(y % 10)];
    assert NatToString(a) == NatToString(b) + [DigitChar(a % 10)];
    assert NatToString(b) == NatToString(b / 10) + [DigitChar(b % 10)];
    assert b == y / 100 && b / 10 == y / 1000 && b % 10 == (y / 100) % 10;
    assert a % 10 == (y % 100) / 10 && y % 10 == (y % 100) % 10;
  }

  /** The formatted text of a valid date is its layout. */
  lemma TextLayout(d: Date)
    requires InRange(d)
    ensures IntToString(d.year) + "-" + FormatString(d.month) + "-" + FormatString(d.day)
            + "/" + FormatString(d.hour) + ":" + FormatString(d.minute) == Layout(d)
  {
    FormatYear(d.year);
    FormatTwoDigits(d.month);
    FormatTwoDigits(d.day);
    FormatTwoDigits(d.hour);
    FormatTwoDigits(d.minute);
    var y, m, dd, h, mi := YearText(d), Pad2(d.month), Pad2(d.day), Pad2(d.hour), Pad2(d.minute);
    calc {
      y + "-" + m + "-" + dd + "/" + h + ":" + mi;
      y + (("-" + m) + (("-" + dd) + (("/" + h) + (":" + mi))));
      { assert "-" + m == Field('-', d.month) && "-" + dd == Field('-', d.day);
        assert "/" + h == Field('/', d.hour) && ":" + mi == Field(':', d.minute); }
      y + (Field('-', d.month) + (Field('-', d.day) + (Field('/', d.hour) + Field(':', d.minute))));
    }
  }

  /** The layout has the shape the parser accepts. */
  lemma LayoutMatches(d: Date)
    requires InRange(d)
    ensures Matches(Layout(d))
  {
    var t, y, mo := Layout(d), YearText(d), MonthText(d);
    var dy, tm := DayText(d), TimeText(d);
    assert forall i | 0 <= i < 4 :: t[i] == y[i];
    assert forall i | 4 <= i < 16 :: t[i] == mo[i - 4];
    assert forall i | 3 <= i < 12 :: mo[i] == dy[i - 3];
    assert forall i | 3 <= i < 9 :: dy[i] == tm[i - 3];
  }

  lemma NumberOfPair(s: string)
    requires |s| == 2 && IsDigit(s[0]) && IsDigit(s[1])
    ensures Number(s) == 10 * DigitValue(s[0]) + DigitValue(s[1])
    ensures 0 <= Number(s) < 100 && Pad2(Number(s)) == s
  {
    assert s[..1][..0] == [];
    assert Number(s[..1]) == DigitValue(s[0]);
    DigitRoundTrip(s[0], 0);
    DigitRoundTrip(s[1], 0);
  }

  lemma NumberOfQuad(s: string)
    requires |s| == 4 && forall i | 0 <= i < 4 :: IsDigit(s[i])
    ensures Number(s) == 100 * Number(s[..2]) + Number(s[2..])
  {
    var t := s[..3];
    assert t[..|t| - 1] == s[..2];
    NumberOfPair(s[..2]);
    NumberOfPair(s[2..]);
  }

  lemma NumberOfPad2(n: int)
    requires 0 <= n < 100
    ensures Number(Pad2(n)) == n
  {
    NumberOfPair(Pad2(n));
    DigitRoundTrip('0', n / 10);
    DigitRoundTrip('0', n % 10);
  }

  /** A valid date is formatted as its layout. */
  lemma FormattedLayout(d: Date)
    requires IsValid(d)
    ensures InRange(d) && DateToString(d) == Layout(d)
  {
    ValidInRange(d);
    TextLayout(d);
  }

  /** Where the fields of a date's text sit. */
  lemma LayoutSlices(d: Date)
    requires InRange(d)
    ensures Layout(d)[0..2] == Pad2(d.year / 100) && Layout(d)[2..4] == Pad2(d.year % 100)
    ensures Layout(d)[5..7] == Pad2(d.month) && Layout(d)[8..10] == Pad2(d.day)
    ensures Layout(d)[11..13] == Pad2(d.hour) && Layout(d)[14..16] == Pad2(d.minute)
  {
    var t, y, mo := Layout(d), YearText(d), MonthText(d);
    var dy, tm := DayText(d), TimeText(d);
    assert t[..4] == y && t[4..] == mo;
    assert mo[1..3] == Pad2(d.month) && mo[3..] == dy;
    assert dy[1..3] == Pad2(d.day) && dy[3..] == tm;
    assert tm[1..3] == Pad2(d.hour) && tm[4..6] == Pad2(d.minute);
  }

  /** The numbers written in a valid date's text are its fields. */
  lemma LayoutNumbers(d: Date)
    requires InRange(d)
    ensures var t := Layout(d);
      && Number(t[0..4]) == d.year
      && Number(t[5..7]) == d.month && Number(t[8..10]) == d.day
      && Number(t[11..13]) == d.hour && Number(t[14..16]) == d.minute
  {
    LayoutSlices(d);
    YearNumber(d);
    NumberOfPad2(d.month);
    NumberOfPad2(d.day);
    NumberOfPad2(d.hour);
    NumberOfPad2(d.minute);
  }

  /** The four digits of the year read back as the year. */
  lemma YearNumber(d: Date)
    requires InRange(d)
    ensures Number(Layout(d)[0..4]) == d.year
  {
    LayoutSlices(d);
    var hi, lo := Pad2(d.year / 100), Pad2(d.year % 100);
    assert Layout(d)[0..4] == hi + lo;
    NumberOfPad2(d.year / 100);
    NumberOfPad2(d.year % 100);
    NumberOfPairs(hi, lo);
  }

  /** Four digits read as two pairs. */
  lemma NumberOfPairs(hi: string, lo: string)
    requires |hi| == 2 && IsDigit(hi[0]) && IsDigit(hi[1])
    requires |lo| == 2 && IsDigit(lo[0]) && IsDigit(lo[1])
    ensures Number(hi + lo) == 100 * Number(hi) + Number(lo)
  {
    var s := hi + lo;
    assert s[..2] == hi && s[2..] == lo;
    NumberOfQuad(s);
  }

  /** Parsing the formatted text of a valid date gives the date back. */
  lemma ParseFormatted(d: Date)
    requires IsValid(d)
    ensures StringToDate(DateToString(d)) == d
  {
    FormattedLayout(d);
    LayoutMatches(d);
    LayoutNumbers(d);
  }

  /** The digit pairs of a text that parses to a valid date are its fields,
      zero-padded. */
  lemma ParsedFields(s: string)
    requires IsValid(StringToDate(s))
    ensures var d := StringToDate(s);
      && Matches(s)
      && 0 <= d.year / 100 < 100 && 0 <= d.year % 100 < 100
      && Pad2(d.year / 100) == s[0..2] && Pad2(d.year % 100) == s[2..4]
      && Pad2(d.month) == s[5..7] && Pad2(d.day) == s[8..10]
      && Pad2(d.hour) == s[11..13] && Pad2(d.minute) == s[14..16]
  {
    var d := StringToDate(s);
    var y := s[0..4];
    assert forall i | 0 <= i < 4 :: IsDigit(y[i]) by {
      forall i | 0 <= i < 4 ensures IsDigit(y[i]) { assert y[i] == s[i]; }
    }
    NumberOfQuad(y);
    assert y[..2] == s[0..2] && y[2..] == s[2..4];
    NumberOfPair(s[0..2]);
    NumberOfPair(s[2..4]);
    NumberOfPair(s[5..7]);
    NumberOfPair(s[8..10]);
    NumberOfPair(s[11..13]);
    NumberOfPair(s[14..16]);
    var hi := Number(s[0..2]);
    var lo := Number(s[2..4]);
    assert d.year == 100 * hi + lo;
    assert d.year / 100 == hi && d.year % 100 == lo;
  }

  /** Two texts of the pattern are equal when their digit pairs are. */
  lemma SameText(s: string, t: string)
    requires Matches(s) && Matches(t)
    requires s[0..2] == t[0..2] && s[2..4] == t[2..4] && s[5..7] == t[5..7]
    requires s[8..10] == t[8..10] && s[11..13] == t[11..13] && s[14..16] == t[14..16]
    ensures s == t
  {
    forall i | 0 <= i < 16 ensures t[i] == s[i] {
      if i < 2 { assert t[i] == t[0..2][i] && s[i] == s[0..2][i]; }
      else if i < 4 { assert t[i] == t[2..4][i - 2] && s[i] == s[2..4][i - 2]; }
      else if i == 4 || i == 7 || i == 10 || i == 13 { }
      else if i < 7 { assert t[i] == t[5..7][i - 5] && s[i] == s[5..7][i - 5]; }
      else if i < 10 { assert t[i] == t[8..10][i - 8] && s[i] == s[8..10][i - 8]; }
      else if i < 13 { assert t[i] == t[11..13][i - 11] && s[i] == s[11..13][i - 11]; }
      else { assert t[i] == t[14..16][i - 14] && s[i] == s[14..16][i - 14]; }
    }
  }

  /** Formatting the date parsed from a text gives the text back, whenever the
      text parses to a valid date. */
  lemma FormatParsed(s: string)
    requires IsValid(StringToDate(s))
    ensures DateToString(StringToDate(s)) == s
  {
    var d := StringToDate(s);
    ParsedFields(s);
    FormattedLayout(d);
    LayoutSlices(d);
    LayoutMatches(d);
    SameText(s, Layout(d));
  }

  // ---------------------------------------------------------------------
  // Comparison

  /** std::string ordering: lexicographic by character, a proper prefix first. */
  predicate StrLess(a: string, b: string)
    decreases |a|
  {
    if a == [] then b != []
    else if b == [] then false
    else if a[0] != b[0] then a[0] < b[0]
    else StrLess(a[1..], b[1..])
  }

  lemma {:induction false} StrLessIrreflexive(a: string)
    ensures !StrLess(a, a)
    decreases |a|
  {
    if a != [] { StrLessIrreflexive(a[1..]); }
  }

  lemma {:induction false} StrLessTransitive(a: string, b: string, c: string)
    requires StrLess(a, b) && StrLess(b, c)
    ensures StrLess(a, c)
    decreases |a|
  {
    if a != [] && b != [] && c != [] && a[0] == b[0] && b[0] == c[0] {
      StrLessTransitive(a[1..], b[1..], c[1..]);
    }
  }

  lemma {:induction false} StrLessTotal(a: string, b: string)
    ensures a == b || StrLess(a, b) || StrLess(b, a)
    ensures !(StrLess(a, b) && StrLess(b, a))
    decreases |a|
  {
    if a != [] && b != [] && a[0] == b[0] {
      StrLessTotal(a[1..], b[1..]);
      if a[1..] == b[1..] {
        assert a == [a[0]] + a[1..] && b == [b[0]] + b[1..];
      }
    }
  }

  /** Comparing two texts whose first parts have equal length compares the
      first parts, then the rest. */
  lemma {:induction false} StrLessConcat(a1: string, a2: string, b1: string, b2: string)
    requires |a1| == |b1|
    ensures StrLess(a1 + a2, b1 + b2) <==> StrLess(a1, b1) || (a1 == b1 && StrLess(a2, b2))
    ensures a1 + a2 == b1 + b2 <==> a1 == b1 && a2 == b2
    decreases |a1|
  {
    if a1 + a2 == b1 + b2 {
      assert a1 == (a1 + a2)[..|a1|] && b1 == (b1 + b2)[..|b1|];
      assert a2 == (a1 + a2)[|a1|..] && b2 == (b1 + b2)[|b1|..];
    }
    if a1 != [] {
      assert (a1 + a2)[0] == a1[0] && (b1 + b2)[0] == b1[0];
      assert (a1 + a2)[1..] == a1[1..] + a2 && (b1 + b2)[1..] == b1[1..] + b2;
      StrLessConcat(a1[1..], a2, b1[1..], b2);
      if a1[0] == b1[0] && a1[1..] == b1[1..] {
        assert a1 == [a1[0]] + a1[1..] && b1 == [b1[0]] + b1[1..];
      }
    } else {
      assert a1 + a2 == a2 && b1 + b2 == b2;
    }
  }

  lemma Pad2Order(x: int, y: int)
    requires 0 <= x < 100 && 0 <= y < 100
    ensures StrLess(Pad2(x), Pad2(y)) <==> x < y
    ensures Pad2(x) == Pad2(y) <==> x == y
  {
    DigitRoundTrip('0', x / 10);
    DigitRoundTrip('0', y / 10);
    DigitRoundTrip('0', x % 10);
    DigitRoundTrip('0', y % 10);
    var hx, lx, hy, ly := [DigitChar(x / 10)], [DigitChar(x % 10)], [DigitChar(y / 10)], [DigitChar(y % 10)];
    assert Pad2(x) == hx + lx && Pad2(y) == hy + ly;
    StrLessConcat(hx, lx, hy, ly);
    assert hx[1..] == [] && hy[1..] == [] && lx[1..] == [] && ly[1..] == [];
    assert StrLess(hx, hy) <==> x / 10 < y / 10;
    assert StrLess(lx, ly) <==> x % 10 < y % 10;
  }

  lemma FieldOrder(sep: char, x: int, y: int)
    requires 0 <= x < 100 && 0 <= y < 100
    ensures StrLess(Field(sep, x), Field(sep, y)) <==> x < y
    ensures Field(sep, x) == Field(sep, y) <==> x == y
  {
    Pad2Order(x, y);
    StrLessConcat([sep], Pad2(x), [sep], Pad2(y));
    StrLessIrreflexive([sep]);
  }

  /** Chronological order: lexicographic on (year, month, day, hour, minute). */
  predicate Before(a: Date, b: Date)
  {
    a.year < b.year || (a.year == b.year &&
    (a.month < b.month || (a.month == b.month &&
    (a.day < b.day || (a.day == b.day &&
    (a.hour < b.hour || (a.hour == b.hour && a.minute < b.minute)))))))
  }

  lemma TimeTextOrder(a: Date, b: Date)
    requires InRange(a) && InRange(b)
    ensures StrLess(TimeText(a), TimeText(b)) <==>
      a.hour < b.hour || (a.hour == b.hour && a.minute < b.minute)
    ensures TimeText(a) == TimeText(b) <==> a.hour == b.hour && a.minute == b.minute
  {
    StrLessConcat(Field('/', a.hour), Field(':', a.minute), Field('/', b.hour), Field(':', b.minute));
    FieldOrder('/', a.hour, b.hour);
    FieldOrder(':', a.minute, b.minute);
  }

  lemma DayTextOrder(a: Date, b: Date)
    requires InRange(a) && InRange(b)
    ensures StrLess(DayText(a), DayText(b)) <==>
      a.day < b.day || (a.day == b.day &&
      (a.hour < b.hour || (a.hour == b.hour && a.minute < b.minute)))
    ensures DayText(a) == DayText(b) <==> a.day == b.day && a.hour == b.hour && a.minute == b.minute
  {
    StrLessConcat(Field('-', a.day), TimeText(a), Field('-', b.day), TimeText(b));
    FieldOrder('-', a.day, b.day);
    TimeTextOrder(a, b);
  }

  lemma MonthTextOrder(a: Date, b: Date)
    requires InRange(a) && InRange(b)
    ensures StrLess(MonthText(a), MonthText(b)) <==>
      a.month < b.month || (a.month == b.month &&
      (a.day < b.day || (a.day == b.day &&
      (a.hour < b.hour || (a.hour == b.hour && a.minute < b.minute)))))
    ensures MonthText(a) == MonthText(b) <==>
      a.month == b.month && a.day == b.day && a.hour == b.hour && a.minute == b.minute
  {
    StrLessConcat(Field('-', a.month), DayText(a), Field('-', b.month), DayText(b));
    FieldOrder('-', a.month, b.month);
    DayTextOrder(a, b);
  }

  lemma YearTextOrder(a: Date, b: Date)
    requires InRange(a) && InRange(b)
    ensures StrLess(YearText(a), YearText(b)) <==> a.year < b.year
    ensures YearText(a) == YearText(b) <==> a.year == b.year
  {
    StrLessConcat(Pad2(a.year / 100), Pad2(a.year % 100), Pad2(b.year / 100), Pad2(b.year % 100));
    Pad2Order(a.year / 100, b.year / 100);
    Pad2Order(a.year % 100, b.year % 100);
  }

  /** On valid dates the order of the formatted texts is chronological order. */
  lemma {:induction false} TextOrderIsChronological(a: Date, b: Date)
    requires IsValid(a) && IsValid(b)
    ensures StrLess(DateToString(a), DateToString(b)) <==> Before(a, b)
  {
    FormattedLayout(a);
    FormattedLayout(b);
    StrLessConcat(YearText(a), MonthText(a), YearText(b), MonthText(b));
    YearTextOrder(a, b);
    MonthTextOrder(a, b);
  }

  /** Date::operator== compares the formatted texts. */
  predicate Eq(a: Date, b: Date)
  {
    DateToString(a) == DateToString(b)
  }

  /** Date::operator> compares the formatted texts. */
  predicate Gt(a: Date, b: Date)
  {
    StrLess(DateToString(b), DateToString(a))
  }

  /** Date::operator>=. */
  predicate Ge(a: Date, b: Date)
  {
    Gt(a, b) || Eq(a, b)
  }

  /** Date::operator<, defined as the negation of >=. */
  predicate Lt(a: Date, b: Date)
  {
    !Ge(a, b)
  }

  /** Date::operator<=, defined as the negation of >. */
  predicate Le(a: Date, b: Date)
  {
    !Gt(a, b)
  }

  /** The derived operators compare the formatted texts the expected way:
      exactly one of a < b, a == b, a > b holds, and <= is < or ==. */
  lemma {:induction false} Trichotomy(a: Date, b: Date)
    ensures Lt(a, b) <==> StrLess(DateToString(a), DateToString(b))
    ensures Lt(a, b) <==> Gt(b, a)
    ensures Le(a, b) <==> Lt(a, b) || Eq(a, b)
    ensures Ge(a, b) <==> Le(b, a)
    ensures (Lt(a, b) && !Eq(a, b) && !Gt(a, b)) || (!Lt(a, b) && Eq(a, b) && !Gt(a, b))
            || (!Lt(a, b) && !Eq(a, b) && Gt(a, b))
  {
    var x, y := DateToString(a), DateToString(b);
    StrLessTotal(x, y);
    StrLessIrreflexive(x);
  }

  /** On valid dates == is field equality and > is chronological order;
      all invalid dates are equal to each other. */
  lemma {:induction false} ComparisonIsChronological(a: Date, b: Date)
    ensures IsValid(a) && IsValid(b) ==> (Eq(a, b) <==> a == b)
    ensures IsValid(a) && IsValid(b) ==> (Gt(a, b) <==> Before(b, a))
    ensures IsValid(a) && IsValid(b) ==> (Lt(a, b) <==> Before(a, b))
    ensures !IsValid(a) && !IsValid(b) ==> Eq(a, b) && !Lt(a, b) && !Gt(a, b)
  {
    Trichotomy(a, b);
    if IsValid(a) && IsValid(b) {
      TextOrderIsChronological(a, b);
      TextOrderIsChronological(b, a);
      if Eq(a, b) {
        ParseFormatted(a);
        ParseFormatted(b);
      }
    } else if !IsValid(a) && !IsValid(b) {
      StrLessIrreflexive(InvalidText);
    }
  }
}
