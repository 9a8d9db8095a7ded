/** Date strings: the arithmetic on YYYY-MM-DD, its order, and the loops over it. */
module DateStrings {
  import opened Strings
  import opened Calendar

  /* ---------- decimal digits ---------- */

  predicate IsDigit(c: char) { '0' <= c <= '9' }

  predicate AllDigits(s: string) { forall i | 0 <= i < |s| :: IsDigit(s[i]) }

  function Digit(n: int): (c: char)
    requires 0 <= n <= 9
    ensures IsDigit(c)
  {
    '0' + n as char
  }

  /** The decimal notation of an integer. */
  function Decimal(n: int): string
    decreases if n < 0 then 1 - n else n
  {
    if n < 0 then "-" + Decimal(-n)
    else if n < 10 then [Digit(n)]
    else Decimal(n / 10) + [Digit(n % 10)]
  }

  /** `n` with exactly `w` digits. */
  function Fixed(n: nat, w: nat): (s: string)
    ensures |s| == w && AllDigits(s)
  {
    if w == 0 then "" else Fixed(n / 10, w - 1) + [Digit(n % 10)]
  }

  /** `s.padStart(2, '0')` */
  function Pad2(s: string): string {
    if |s| >= 2 then s else if |s| == 1 then "0" + s else "00"
  }

  /** `parseInt(s, 10)` of a string of digits. */
  function ParseInt(s: string): nat
    requires AllDigits(s)
  {
    if s == "" then 0 else 10 * ParseInt(s[..|s| - 1]) + (s[|s| - 1] as int - '0' as int)
  }

  function Power10(w: nat): nat { if w == 0 then 1 else 10 * Power10(w - 1) }

  lemma {:induction false} ParseFixed(n: nat, w: nat)
    requires n < Power10(w)
    ensures ParseInt(Fixed(n, w)) == n
  {
    if w > 0 {
      ParseFixed(n / 10, w - 1);
      assert Fixed(n, w)[..w - 1] == Fixed(n / 10, w - 1);
    }
  }

  lemma {:induction false} FixedParse(s: string)
    requires AllDigits(s)
    ensures ParseInt(s) < Power10(|s|) && Fixed(ParseInt(s), |s|) == s
  {
    if s != "" {
      var n := |s| - 1;
      FixedParse(s[..n]);
      var d := s[n] as int - '0' as int;
      assert ParseInt(s) / 10 == ParseInt(s[..n]) && ParseInt(s) % 10 == d;
      assert s == s[..n] + [Digit(d)];
    }
  }

  /** Numbers of the same width are ordered as their digits. */
  lemma {:induction false} FixedOrdered(n: nat, m: nat, w: nat)
    requires n < Power10(w) && m < Power10(w)
    ensures Less(Fixed(n, w), Fixed(m, w)) <==> n < m
  {
    if w > 0 {
      FixedOrdered(n / 10, m / 10, w - 1);
      LessConcat(Fixed(n / 10, w - 1), Fixed(m / 10, w - 1), [Digit(n % 10)], [Digit(m % 10)]);
      if n / 10 == m / 10 {
        assert n < m <==> n % 10 < m % 10;
      } else if Fixed(n / 10, w - 1) == Fixed(m / 10, w - 1) {
        ParseFixed(n / 10, w - 1);
        ParseFixed(m / 10, w - 1);
      }
    }
  }

  lemma DecimalFour(n: nat)
    requires 1000 <= n <= 9999
    ensures Decimal(n) == Fixed(n, 4) && n < Power10(4)
  {
    var a, b, c := n / 10, n / 100, n / 1000;
    assert a / 10 == b && b / 10 == c;
    assert Decimal(c) == [Digit(c)] && Fixed(c, 1) == [Digit(c)] by { assert Fixed(c / 10, 0) == ""; }
    assert Decimal(b) == Fixed(b, 2);
    assert Decimal(a) == Fixed(a, 3);
    assert Power10(1) == 10 && Power10(2) == 100 && Power10(3) == 1000;
  }

  lemma PadTwo(n: nat)
    requires n <= 99
    ensures Pad2(Decimal(n)) == Fixed(n, 2) && n < Power10(2)
  {
    assert Power10(1) == 10;
    assert Fixed(n / 10, 1) == [Digit(n / 10)] by { assert Fixed(n / 10 / 10, 0) == ""; }
  }

  /* ---------- date strings ---------- */

  predicate IsDateString(s: string) {
    |s| == 10 && s[4] == '-' && s[7] == '-' && AllDigits(s[..4]) && AllDigits(s[5..7]) && AllDigits(s[8..])
  }

  lemma DateParts(s: string)
    requires IsDateString(s)
    ensures Split(s, '-') == [s[..4], s[5..7], s[8..]]
  {
    assert s == s[..4] + ['-'] + s[5..7] + ['-'] + s[8..];
    assert forall c | IsDigit(c) :: c != '-';
    SplitThree(s[..4], '-', s[5..7], s[8..]);
  }

  /** The civil date a string denotes. */
  function DateValue(s: string): Civil
    requires IsDateString(s)
  {
    Civil(ParseInt(s[..4]), ParseInt(s[5..7]), ParseInt(s[8..]))
  }

  /** Date.UTC takes the years 0 to 99 for 1900 to 1999. */
  function UtcYear(y: int): int { if 0 <= y <= 99 then 1900 + y else y }

  function Render(c: Civil): string {
    Decimal(c.year) + "-" + Pad2(Decimal(c.month)) + "-" + Pad2(Decimal(c.day))
  }

  /** The three numbers between the dashes. */
  function Components(s: string): (c: Civil)
    requires IsDateString(s)
    ensures c == DateValue(s)
  {
    DateParts(s);
    var parts := Split(s, '-');
    Civil(ParseInt(parts[0]), ParseInt(parts[1]), ParseInt(parts[2]))
  }

  /** The date string of day `n`. */
  function DateOf(n: int): string { Render(FromDay(n)) }

  /** The day number Date.UTC is given. */
  function TargetDay(s: string, delta: int): int
    requires IsDateString(s)
  {
    var c := Components(s);
    MakeDay(UtcYear(c.year), c.month - 1, c.day + delta)
  }

  function AddManilaCalendarDays(s: string, delta: int): string
    requires IsDateString(s)
  {
    DateOf(TargetDay(s, delta))
  }

  lemma DayBound(c: Civil)
    requires c.Valid()
    ensures 1 <= c.month <= 12 && 1 <= c.day <= 31
  {
  }

  /** The year in toISOString: four digits, or a sign and six. */
  function IsoYear(y: int): string {
    if 0 <= y <= 9999 then Fixed(y, 4) else if y < 0 then "-" + Fixed(-y, 6) else "+" + Fixed(y, 6)
  }

  /** The inventory's next day, of a valid date. */
  function NextDay(s: string): string
    requires IsDateString(s) && DateValue(s).Valid()
  {
    var d := DateValue(s);
    var next := MakeDay(d.year, d.month - 1, d.day + 1);
    var c := FromDay(next);
    FromDayIs(next);
    DayBound(c);
    IsoYear(c.year) + "-" + Fixed(c.month, 2) + "-" + Fixed(c.day, 2)
  }

  /* ---------- the days of the years 1000 to 9999 ---------- */

  predicate InRange(n: int) { 1000 <= FromDay(n).year <= 9999 }

  /** Later days have no earlier years. */
  lemma YearsFollowDays(n: int, m: int)
    requires n <= m
    ensures FromDay(n).year <= FromDay(m).year
  {
    var c, d := FromDay(n), FromDay(m);
    FromDayIs(n);
    FromDayIs(m);
    NumberInYear(c);
    NumberInYear(d);
    if d.year < c.year { YearsGrow(d.year + 1, c.year); }
  }

  predicate FourDigits(c: Civil) { c.Valid() && 1000 <= c.year <= 9999 }

  /** A date in the fixed form YYYY-MM-DD. */
  function FixedDate(c: Civil): string
    requires c.year >= 0 && c.month >= 0 && c.day >= 0
  {
    Fixed(c.year, 4) + "-" + Fixed(c.month, 2) + "-" + Fixed(c.day, 2)
  }

  lemma RenderFixed(c: Civil)
    requires FourDigits(c)
    ensures c.month >= 0 && c.day >= 0 && Render(c) == FixedDate(c)
  {
    DayBound(c);
    DecimalFour(c.year);
    PadTwo(c.month);
    PadTwo(c.day);
  }

  lemma FixedReads(year: nat, month: nat, day: nat)
    requires year < 10000 && month < 100 && day < 100
    ensures var s := FixedDate(Civil(year, month, day)); IsDateString(s) && DateValue(s) == Civil(year, month, day)
  {
    var s := FixedDate(Civil(year, month, day));
    assert Power10(1) == 10 && Power10(2) == 100 && Power10(3) == 1000 && Power10(4) == 10000;
    assert s[..4] == Fixed(year, 4) && s[5..7] == Fixed(month, 2) && s[8..] == Fixed(day, 2);
    ParseFixed(year, 4);
    ParseFixed(month, 2);
    ParseFixed(day, 2);
  }

  /** A date of the range reads back from its string. */
  lemma ReadsBack(c: Civil)
    requires FourDigits(c)
    ensures IsDateString(Render(c)) && DateValue(Render(c)) == c
  {
    DayBound(c);
    RenderFixed(c);
    FixedReads(c.year, c.month, c.day);
  }

  lemma DateStringIsFixed(s: string)
    requires IsDateString(s)
    ensures var c := DateValue(s); c.year < 10000 && s == FixedDate(c)
  {
    FixedParse(s[..4]);
    FixedParse(s[5..7]);
    FixedParse(s[8..]);
    assert Power10(1) == 10 && Power10(2) == 100 && Power10(3) == 1000 && Power10(4) == 10000;
    assert s == s[..4] + "-" + s[5..7] + "-" + s[8..];
  }

  /** Every valid date string of the range is the string of its day. */
  lemma DateOfNumber(s: string)
    requires IsDateString(s) && DateValue(s).Valid() && 1000 <= DateValue(s).year
    ensures InRange(DateValue(s).Number()) && DateOf(DateValue(s).Number()) == s
  {
    var c := DateValue(s);
    DateStringIsFixed(s);
    RenderFixed(c);
    FromDayOfNumber(c);
  }

  lemma RangeDate(n: int)
    requires InRange(n)
    ensures FourDigits(FromDay(n)) && FromDay(n).Number() == n
  {
    FromDayIs(n);
  }

  lemma DateOfReads(n: int)
    requires InRange(n)
    ensures IsDateString(DateOf(n)) && DateValue(DateOf(n)) == FromDay(n)
  {
    RangeDate(n);
    ReadsBack(FromDay(n));
  }

  lemma MovedDay(n: int, delta: int, m: int)
    requires m == n + delta
    ensures var c := FromDay(n); MakeDay(c.year, c.month - 1, c.day + delta) == m
  {
    FromDayIs(n);
    MakeDayOf(FromDay(n), delta);
  }

  lemma TargetOf(s: string, c: Civil, delta: int)
    requires IsDateString(s) && DateValue(s) == c && FourDigits(c)
    ensures TargetDay(s, delta) == c.Number() + delta
  {
    MakeDayOf(c, delta);
  }

  lemma TargetShifts(s: string, n: int, m: int)
    requires IsDateString(s) && DateValue(s) == FromDay(n) && InRange(n)
    ensures TargetDay(s, m - n) == m
  {
    RangeDate(n);
    TargetOf(s, FromDay(n), m - n);
  }

  /** Adding `m - n` days to the date string of day `n` gives that of day `m`. */
  lemma AddShifts(n: int, m: int)
    requires InRange(n)
    ensures IsDateString(DateOf(n)) && AddManilaCalendarDays(DateOf(n), m - n) == DateOf(m)
  {
    DateOfReads(n);
    TargetShifts(DateOf(n), n, m);
  }

  /** Adding `a - n` and then `b - a` days is adding `b - n`, as long as the dates passed to it stay in
      range. */
  lemma AddIsAdditive(n: int, a: int, b: int)
    requires InRange(n) && InRange(a)
    ensures IsDateString(DateOf(n)) && IsDateString(AddManilaCalendarDays(DateOf(n), a - n))
    ensures AddManilaCalendarDays(AddManilaCalendarDays(DateOf(n), a - n), b - a)
        == AddManilaCalendarDays(DateOf(n), b - n)
  {
    AddShifts(n, a);
    AddShifts(n, b);
    AddShifts(a, b);
  }

  /** A year below 100 is taken for one of the twentieth century. */
  lemma TwoDigitYears(s: string, delta: int)
    requires IsDateString(s) && DateValue(s).year <= 99
    requires var c := DateValue(s); Civil(1900 + c.year, c.month, c.day).Valid()
    ensures var c := DateValue(s);
      AddManilaCalendarDays(s, delta) == DateOf(Civil(1900 + c.year, c.month, c.day).Number() + delta)
  {
    var c := DateValue(s);
    MakeDayOf(Civil(1900 + c.year, c.month, c.day), delta);
  }

  lemma NextDayOf(s: string, c: Civil, d: Civil)
    requires IsDateString(s) && DateValue(s) == c && c.Valid() && FourDigits(d)
        && FromDay(MakeDay(c.year, c.month - 1, c.day + 1)) == d
    ensures NextDay(s) == Render(d)
  {
    RenderFixed(d);
  }

  lemma NextDayShifts(s: string, n: int, m: int)
    requires IsDateString(s) && DateValue(s) == FromDay(n) && FromDay(n).Valid() && m == n + 1 && InRange(m)
    ensures NextDay(s) == DateOf(m)
  {
    MovedDay(n, 1, m);
    FromDayIs(n);
    RangeDate(m);
    NextDayOf(s, FromDay(n), FromDay(m));
  }

  /** The two independently written next-day functions agree. */
  lemma NextDayAgrees(n: int)
    requires InRange(n) && InRange(n + 1)
    ensures IsDateString(DateOf(n)) && DateValue(DateOf(n)).Valid()
    ensures NextDay(DateOf(n)) == AddManilaCalendarDays(DateOf(n), 1)
  {
    DateOfReads(n);
    FromDayIs(n);
    NextDayShifts(DateOf(n), n, n + 1);
    AddShifts(n, n + 1);
  }

  /** Date strings are ordered as their days. */
  lemma DateStringsOrdered(n: int, m: int)
    requires InRange(n) && InRange(m)
    ensures Less(DateOf(n), DateOf(m)) <==> n < m
  {
    var c, d := FromDay(n), FromDay(m);
    RangeDate(n);
    RangeDate(m);
    StringsOrderedAsDates(c, d);
    if c.Before(d) { DatesOrdered(c, d); }
    if d.Before(c) { DatesOrdered(d, c); }
  }

  lemma StringsOrderedAsDates(c: Civil, d: Civil)
    requires FourDigits(c) && FourDigits(d)
    ensures Less(Render(c), Render(d)) <==> c.Before(d)
  {
    DayBound(c);
    DayBound(d);
    RenderFixed(c);
    RenderFixed(d);
    SameFixed(c.year, d.year, 4);
    SameFixed(c.month, d.month, 2);
    SameFixed(c.day, d.day, 2);
    ThreePartsOrdered(Fixed(c.year, 4), Fixed(c.month, 2), Fixed(c.day, 2), Fixed(d.year, 4), Fixed(d.month, 2),
        Fixed(d.day, 2));
  }

  lemma ThreePartsOrdered(cy: string, cm: string, cd: string, dy: string, dm: string, dd: string)
    requires |cy| == |dy| == 4 && |cm| == |dm| == 2
    ensures Less(cy + "-" + cm + "-" + cd, dy + "-" + dm + "-" + dd) <==>
            Less(cy, dy) || (cy == dy && (Less(cm, dm) || (cm == dm && Less(cd, dd))))
  {
    assert cy + "-" + cm + "-" + cd == cy + ("-" + (cm + ("-" + cd)));
    assert dy + "-" + dm + "-" + dd == dy + ("-" + (dm + ("-" + dd)));
    LessConcat(cy, dy, "-" + (cm + ("-" + cd)), "-" + (dm + ("-" + dd)));
    LessConcat("-", "-", cm + ("-" + cd), dm + ("-" + dd));
    LessConcat(cm, dm, "-" + cd, "-" + dd);
    LessConcat("-", "-", cd, dd);
  }

  lemma SameFixed(n: nat, m: nat, w: nat)
    requires w in {2, 4} && n < (if w == 4 then 10000 else 100) && m < (if w == 4 then 10000 else 100)
    ensures Less(Fixed(n, w), Fixed(m, w)) <==> n < m
    ensures Fixed(n, w) == Fixed(m, w) <==> n == m
  {
    assert Power10(1) == 10 && Power10(2) == 100 && Power10(3) == 1000 && Power10(4) == 10000;
    FixedOrdered(n, m, w);
    ParseFixed(n, w);
    ParseFixed(m, w);
  }

  /* ---------- loops from one date string to another ---------- */

  /** `a <= b` on strings. */
  predicate AtMost(a: string, b: string) { !Less(b, a) }

  /** The first day after the year `y`. */
  lemma YearEnd(y: int)
    ensures FromDay(Civil(y, 12, 31).Number() + 1) == Civil(y + 1, 1, 1)
  {
    YearSpan(y);
    FromDayOfNumber(Civil(y + 1, 1, 1));
    assert Civil(y + 1, 1, 1).Number() == Civil(y, 12, 31).Number() + 1;
  }

  /** The range ends with the last day of its last year. */
  lemma RangeEnds(n: int, y: int)
    requires FromDay(n).year <= y
    ensures FromDay(n + 1).year <= y || FromDay(n) == Civil(y, 12, 31)
    ensures FromDay(n) == Civil(y, 12, 31) ==> FromDay(n + 1) == Civil(y + 1, 1, 1)
  {
    var c, last := FromDay(n), Civil(y, 12, 31);
    FromDayIs(n);
    if c == last {
      YearEnd(y);
    } else {
      FromDayOfNumber(last);
      DayBound(c);
      DatesOrdered(c, last);
      YearsFollowDays(n + 1, last.Number());
    }
  }

  lemma NextInRange(n: int)
    requires InRange(n)
    ensures InRange(n + 1) <==> FromDay(n) != Civil(9999, 12, 31)
  {
    YearsFollowDays(n, n + 1);
    RangeEnds(n, 9999);
  }

  lemma DecimalTenThousand()
    ensures Decimal(10000) == "10000"
  {
    assert Decimal(1) == "1" && Decimal(10) == "10" && Decimal(100) == "100" && Decimal(1000) == "1000";
    assert Decimal(10000) == Decimal(1000) + "0";
  }

  lemma TenThousandDigits()
    ensures Decimal(10000) == "10000" && Fixed(10000, 6) == "010000"
  {
    DecimalTenThousand();
    assert Fixed(0, 1) == "0" && Fixed(1, 2) == "01" && Fixed(10, 3) == "010";
    assert Fixed(100, 4) == "0100" && Fixed(1000, 5) == "01000";
  }

  lemma FixedFirst(n: nat)
    requires 9000 <= n <= 9999
    ensures Fixed(n, 4)[0] == '9'
  {
    var c := n / 1000;
    assert n / 10 / 10 / 10 == c == 9;
    assert Fixed(c, 1) == [Digit(9)] by { assert Fixed(c / 10, 0) == ""; }
    assert Fixed(n / 10 / 10, 2)[0] == Fixed(c, 1)[0];
    assert Fixed(n / 10, 3)[0] == Fixed(n / 10 / 10, 2)[0];
  }

  lemma RenderFirst(c: Civil)
    ensures c == Civil(10000, 1, 1) ==> Render(c) != "" && Render(c)[0] == '1'
    ensures FourDigits(c) && c.year == 9999 ==> Render(c) != "" && Render(c)[0] == '9'
  {
    if c == Civil(10000, 1, 1) { DecimalTenThousand(); }
    if FourDigits(c) && c.year == 9999 {
      RenderFixed(c);
      FixedFirst(c.year);
    }
  }

  lemma FirstOfMonth()
    ensures Fixed(1, 2) == "01" && Pad2(Decimal(1)) == "01"
  {
    assert Fixed(0, 1) == "0";
  }

  lemma AfterTheRange(s: string)
    requires IsDateString(s) && DateValue(s) == Civil(9999, 12, 31)
    ensures DateValue(s).Valid() && FromDay(MakeDay(9999, 11, 32)) == Civil(10000, 1, 1)
    ensures TargetDay(s, 1) == MakeDay(9999, 11, 32)
  {
    YearEnd(9999);
    MakeDayOf(DateValue(s), 1);
  }

  /** After the last day of the range the two next-day functions part: the inventory's signs the year. */
  lemma NextDayParts(s: string)
    requires IsDateString(s) && DateValue(s) == Civil(9999, 12, 31)
    ensures DateValue(s).Valid() && NextDay(s) == "+010000-01-01"
    ensures AddManilaCalendarDays(s, 1) == "10000-01-01"
  {
    AfterTheRange(s);
    TenThousandDigits();
    FirstOfMonth();
    assert AddManilaCalendarDays(s, 1) == Render(Civil(10000, 1, 1));
  }

  /** The guard of a loop over date strings stays true after its last turn exactly at 9999-12-31, where
      the order of the strings stops following the days. */
  lemma GuardFailsExactly(n: int)
    requires InRange(n)
    ensures AtMost(DateOf(n + 1), DateOf(n)) <==> FromDay(n) == Civil(9999, 12, 31)
  {
    NextInRange(n);
    RangeEnds(n, 9999);
    RangeDate(n);
    if InRange(n + 1) {
      DateStringsOrdered(n, n + 1);
    } else {
      RenderFirst(FromDay(n));
      RenderFirst(FromDay(n + 1));
    }
  }

  /** `while (cursor <= last)`: each day from `n` to `m` is visited once, in order, and the loop ends. */
  method VisitDays(first: string, last: string, ghost n: int, ghost m: int) returns (visited: seq<string>)
    requires n <= m + 1 && InRange(n) && InRange(m) && InRange(m + 1) && first == DateOf(n) && last == DateOf(m)
    ensures |visited| == m - n + 1 && forall i | 0 <= i < |visited| :: visited[i] == DateOf(n + i)
  {
    visited := [];
    var cursor := first;
    ghost var k := n;
    DateStringsOrdered(m, k);
    while AtMost(cursor, last)
      invariant n <= k <= m + 1 && InRange(k) && cursor == DateOf(k)
      invariant AtMost(cursor, last) <==> k <= m
      invariant |visited| == k - n && forall i | 0 <= i < |visited| :: visited[i] == DateOf(n + i)
      decreases m - k
    {
      visited := visited + [cursor];
      cursor := NextCursor(cursor, k, m);
      k := k + 1;
    }
  }

  method NextCursor(cursor: string, ghost k: int, ghost m: int) returns (next: string)
    requires InRange(k) && k <= m && InRange(m) && InRange(m + 1) && cursor == DateOf(k)
    ensures InRange(k + 1) && next == DateOf(k + 1)
    ensures AtMost(next, DateOf(m)) <==> k + 1 <= m
  {
    AddShifts(k, k + 1);
    YearsFollowDays(k, k + 1);
    YearsFollowDays(k + 1, m + 1);
    next := AddManilaCalendarDays(cursor, 1);
    DateStringsOrdered(m, k + 1);
  }
}
