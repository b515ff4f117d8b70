/** Timestamps are stored as isoformat() text and compared as text by SQL.
    Text order is time order, although the fraction is dropped at zero microseconds. */
module IsoTime {
  import opened Text
  import opened Arith

  datatype DateTime = DateTime(year: nat, month: nat, day: nat, hour: nat, minute: nat, second: nat, micro: nat)

  predicate LeapYear(y: nat) {
    y % 4 == 0 && (y % 100 != 0 || y % 400 == 0)
  }

  function DaysInMonth(y: nat, m: nat): nat {
    if m == 2 then (if LeapYear(y) then 29 else 28)
    else if m in {4, 6, 9, 11} then 30
    else 31
  }

  /** A UTC datetime with a four-digit year, as datetime.now(UTC) returns. */
  predicate Valid(d: DateTime) {
    && 1 <= d.year <= 9999 && 1 <= d.month <= 12 && 1 <= d.day <= DaysInMonth(d.year, d.month)
    && d.hour < 24 && d.minute < 60 && d.second < 60 && d.micro < 1000000
  }

  // ---------------------------------------------------------------- the clock

  /** Days of the proleptic Gregorian calendar before 1 January of year y. */
  function DaysBeforeYear(y: nat): nat
    requires y >= 1
  {
    var p := y - 1;
    p * 365 + p / 4 - p / 100 + p / 400
  }

  function DaysBeforeMonth(y: nat, m: nat): nat
    requires 1 <= m <= 13
  {
    if m == 1 then 0 else DaysBeforeMonth(y, m - 1) + DaysInMonth(y, m - 1)
  }

  /** Microseconds since the start of year 1: what the clock shows. */
  function Instant(d: DateTime): int
    requires Valid(d)
  {
    var days := DaysBeforeYear(d.year) + DaysBeforeMonth(d.year, d.month) + d.day;
    (((days * 24 + d.hour) * 60 + d.minute) * 60 + d.second) * 1000000 + d.micro
  }

  lemma MonthsOfYear(y: nat)
    ensures DaysBeforeMonth(y, 13) == if LeapYear(y) then 366 else 365
  {
    assert DaysBeforeMonth(y, 2) == 31;
    assert DaysBeforeMonth(y, 3) == 31 + DaysInMonth(y, 2);
    assert DaysBeforeMonth(y, 5) == DaysBeforeMonth(y, 3) + 61;
    assert DaysBeforeMonth(y, 7) == DaysBeforeMonth(y, 5) + 61;
    assert DaysBeforeMonth(y, 9) == DaysBeforeMonth(y, 7) + 62;
    assert DaysBeforeMonth(y, 11) == DaysBeforeMonth(y, 9) + 61;
    assert DaysBeforeMonth(y, 13) == DaysBeforeMonth(y, 11) + 61;
  }

  lemma DivStep(y: nat, k: nat)
    requires y >= 1 && k >= 1
    ensures y / k == (y - 1) / k + if y % k == 0 then 1 else 0
  {
    var q, r := (y - 1) / k, (y - 1) % k;
    assert y == k * q + r + 1;
    if r + 1 == k {
      assert y == k * (q + 1);
      DivUnique(y, k, q + 1, 0);
    } else {
      DivUnique(y, k, q, r + 1);
    }
  }

  lemma MultipleOfFactor(y: nat, k: nat, c: nat)
    requires k >= 1 && c >= 1 && k * c >= 1 && y % (k * c) == 0
    ensures y % k == 0
  {
    var q := y / (k * c);
    assert y == (k * c) * q == k * (c * q);
    DivUnique(y, k, c * q, 0);
  }

  function One(b: bool): int { if b then 1 else 0 }

  lemma LeapByDivisors(y: nat)
    ensures One(LeapYear(y)) == One(y % 4 == 0) - One(y % 100 == 0) + One(y % 400 == 0)
  {
    if y % 100 == 0 { MultipleOfFactor(y, 4, 25); }
    if y % 400 == 0 { MultipleOfFactor(y, 100, 4); }
  }

  lemma YearLength(y: nat)
    requires y >= 1
    ensures DaysBeforeYear(y + 1) == DaysBeforeYear(y) + DaysBeforeMonth(y, 13)
  {
    MonthsOfYear(y);
    DivStep(y, 4);
    DivStep(y, 100);
    DivStep(y, 400);
    LeapByDivisors(y);
  }

  lemma {:induction false} MonthsGrow(y: nat, m: nat, n: nat)
    requires 1 <= m < n <= 13
    ensures DaysBeforeMonth(y, m) + DaysInMonth(y, m) <= DaysBeforeMonth(y, n)
  {
    if m + 1 < n { MonthsGrow(y, m, n - 1); }
  }

  lemma {:induction false} YearsGrow(y: nat, z: nat)
    requires 1 <= y < z
    ensures DaysBeforeYear(y) + DaysBeforeMonth(y, 13) <= DaysBeforeYear(z)
  {
    YearLength(z - 1);
    if y + 1 < z { YearsGrow(y, z - 1); }
  }

  function DayNumber(d: DateTime): nat
    requires Valid(d)
  {
    DaysBeforeYear(d.year) + DaysBeforeMonth(d.year, d.month) + d.day
  }

  predicate DateBefore(a: DateTime, b: DateTime) {
    a.year < b.year || (a.year == b.year && (a.month < b.month || (a.month == b.month && a.day < b.day)))
  }

  predicate TimeBefore(a: DateTime, b: DateTime) {
    a.hour < b.hour || (a.hour == b.hour && (a.minute < b.minute || (a.minute == b.minute &&
    (a.second < b.second || (a.second == b.second && a.micro < b.micro)))))
  }

  predicate SameDate(a: DateTime, b: DateTime) {
    a.year == b.year && a.month == b.month && a.day == b.day
  }

  lemma EarlierDateEarlierDay(a: DateTime, b: DateTime)
    requires Valid(a) && Valid(b) && DateBefore(a, b)
    ensures DayNumber(a) < DayNumber(b)
  {
    MonthsGrow(a.year, a.month, 13);
    if a.year < b.year {
      YearsGrow(a.year, b.year);
    } else if a.month < b.month {
      MonthsGrow(a.year, a.month, b.month);
    }
  }

  lemma InstantIsFieldOrder(a: DateTime, b: DateTime)
    requires Valid(a) && Valid(b)
    ensures Instant(a) < Instant(b) <==> DateBefore(a, b) || (SameDate(a, b) && TimeBefore(a, b))
  {
    if DateBefore(a, b) {
      EarlierDateEarlierDay(a, b);
      assert DayNumber(a) + 1 <= DayNumber(b);
    } else if DateBefore(b, a) {
      EarlierDateEarlierDay(b, a);
      assert DayNumber(b) + 1 <= DayNumber(a);
    } else {
      assert DayNumber(a) == DayNumber(b);
    }
  }

  // ---------------------------------------------------------------- isoformat()

  function Pow10(w: nat): nat { if w == 0 then 1 else 10 * Pow10(w - 1) }

  function Digit(n: nat): char
    requires n < 10
  {
    "0123456789"[n]
  }

  function Digits(n: nat, w: nat): (s: string)
    ensures |s| == w
  {
    if w == 0 then "" else Digits(n / 10, w - 1) + [Digit(n % 10)]
  }

  function Clock(d: DateTime): (s: string)
    ensures |s| == 8
  {
    Digits(d.hour, 2) + ":" + Digits(d.minute, 2) + ":" + Digits(d.second, 2)
  }

  function Date(d: DateTime): (s: string)
    ensures |s| == 10
  {
    Digits(d.year, 4) + "-" + Digits(d.month, 2) + "-" + Digits(d.day, 2)
  }

  function Fraction(micro: nat): string {
    if micro == 0 then "" else "." + Digits(micro, 6)
  }

  function IsoFormat(d: DateTime): string {
    Date(d) + ("T" + (Clock(d) + (Fraction(d.micro) + "+00:00")))
  }

  lemma OneDigitKeepsOrder(x: nat, y: nat)
    requires x < 10 && y < 10
    ensures Before([Digit(x)], [Digit(y)]) <==> x < y
    ensures Digit(x) == Digit(y) <==> x == y
  {
    assert Digit(x) as int == '0' as int + x && Digit(y) as int == '0' as int + y;
    assert !Before([Digit(x)][1..], [Digit(y)][1..]);
  }

  lemma {:induction false} DigitsKeepOrder(m: nat, n: nat, w: nat)
    requires m < Pow10(w) && n < Pow10(w)
    ensures Before(Digits(m, w), Digits(n, w)) <==> m < n
    ensures Digits(m, w) == Digits(n, w) <==> m == n
  {
    if w > 0 {
      DigitsKeepOrder(m / 10, n / 10, w - 1);
      BeforeConcat(Digits(m / 10, w - 1), [Digit(m % 10)], Digits(n / 10, w - 1), [Digit(n % 10)]);
      assert Digits(m, w)[w - 1] == Digit(m % 10) && Digits(n, w)[w - 1] == Digit(n % 10);
      assert Digits(m, w)[..w - 1] == Digits(m / 10, w - 1) && Digits(n, w)[..w - 1] == Digits(n / 10, w - 1);
      OneDigitKeepsOrder(m % 10, n % 10);
    }
  }

  /** One numeric field followed by the rest of the text. */
  lemma FieldKeepsOrder(m: nat, n: nat, w: nat, s: string, t: string)
    requires m < Pow10(w) && n < Pow10(w)
    ensures Before(Digits(m, w) + s, Digits(n, w) + t) <==> m < n || (m == n && Before(s, t))
  {
    DigitsKeepOrder(m, n, w);
    BeforeConcat(Digits(m, w), s, Digits(n, w), t);
  }

  lemma Separator(c: string, s: string, t: string)
    ensures Before(c + s, c + t) <==> Before(s, t)
  {
    BeforeConcat(c, s, c, t);
    BeforeIrreflexive(c);
  }

  lemma Powers()
    ensures Pow10(2) == 100 && Pow10(4) == 10000 && Pow10(6) == 1000000
  {
    assert Pow10(1) == 10 && Pow10(3) == 1000 && Pow10(5) == 100000;
  }

  /** A dropped fraction sorts first because '+' sorts before '.'. */
  lemma DroppedFractionFirst(n: nat, z: string)
    requires n != 0 && |z| > 0 && z[0] == '+'
    ensures Before(Fraction(0) + z, Fraction(n) + z) && !Before(Fraction(n) + z, Fraction(0) + z)
  {
    assert Fraction(0) + z == z;
    assert (Fraction(n) + z)[0] == '.';
  }

  lemma TwoFractions(m: nat, n: nat, z: string)
    requires 0 < m < 1000000 && 0 < n < 1000000
    ensures Before(Fraction(m) + z, Fraction(n) + z) <==> m < n
  {
    assert Fraction(m) + z == "." + (Digits(m, 6) + z) && Fraction(n) + z == "." + (Digits(n, 6) + z);
    Separator(".", Digits(m, 6) + z, Digits(n, 6) + z);
    Powers();
    FieldKeepsOrder(m, n, 6, z, z);
    BeforeIrreflexive(z);
  }

  lemma FractionKeepsOrder(m: nat, n: nat, z: string)
    requires m < 1000000 && n < 1000000 && |z| > 0 && z[0] == '+'
    ensures Before(Fraction(m) + z, Fraction(n) + z) <==> m < n
  {
    if m == n {
      BeforeIrreflexive(Fraction(m) + z);
    } else if m == 0 {
      DroppedFractionFirst(n, z);
    } else if n == 0 {
      DroppedFractionFirst(m, z);
    } else {
      TwoFractions(m, n, z);
    }
  }

  /** Three numeric fields with one separator, followed by the rest of the text. */
  function Fields(c: string, w: nat, x: nat, y: nat, z: nat, rest: string): string {
    Digits(x, w) + (c + (Digits(y, 2) + (c + (Digits(z, 2) + rest))))
  }

  lemma FieldsKeepOrder(c: string, w: nat, x: nat, y: nat, z: nat, s: string, x': nat, y': nat, z': nat, t: string)
    requires x < Pow10(w) && x' < Pow10(w) && y < Pow10(2) && y' < Pow10(2) && z < Pow10(2) && z' < Pow10(2)
    ensures Before(Fields(c, w, x, y, z, s), Fields(c, w, x', y', z', t)) <==>
      x < x' || (x == x' && (y < y' || (y == y' && (z < z' || (z == z' && Before(s, t))))))
  {
    var zs, zt := Digits(z, 2) + s, Digits(z', 2) + t;
    var ys, yt := Digits(y, 2) + (c + zs), Digits(y', 2) + (c + zt);
    FieldKeepsOrder(x, x', w, c + ys, c + yt);
    Separator(c, ys, yt);
    FieldKeepsOrder(y, y', 2, c + zs, c + zt);
    Separator(c, zs, zt);
    FieldKeepsOrder(z, z', 2, s, t);
  }

  lemma Regroup(a: string, c: string, b: string, d: string, rest: string)
    ensures a + c + b + c + d + rest == a + (c + (b + (c + (d + rest))))
  {
  }

  lemma ClockKeepsOrder(a: DateTime, b: DateTime, s: string, t: string)
    requires Valid(a) && Valid(b)
    ensures Before(Clock(a) + s, Clock(b) + t) <==>
      a.hour < b.hour || (a.hour == b.hour && (a.minute < b.minute || (a.minute == b.minute &&
      (a.second < b.second || (a.second == b.second && Before(s, t))))))
  {
    Powers();
    Regroup(Digits(a.hour, 2), ":", Digits(a.minute, 2), Digits(a.second, 2), s);
    Regroup(Digits(b.hour, 2), ":", Digits(b.minute, 2), Digits(b.second, 2), t);
    FieldsKeepOrder(":", 2, a.hour, a.minute, a.second, s, b.hour, b.minute, b.second, t);
  }

  lemma DateKeepsOrder(a: DateTime, b: DateTime, s: string, t: string)
    requires Valid(a) && Valid(b)
    ensures Before(Date(a) + s, Date(b) + t) <==> DateBefore(a, b) || (SameDate(a, b) && Before(s, t))
  {
    Powers();
    Regroup(Digits(a.year, 4), "-", Digits(a.month, 2), Digits(a.day, 2), s);
    Regroup(Digits(b.year, 4), "-", Digits(b.month, 2), Digits(b.day, 2), t);
    FieldsKeepOrder("-", 4, a.year, a.month, a.day, s, b.year, b.month, b.day, t);
  }

  /** Comparing two stored timestamps as text decides as the clock does. */
  lemma TextOrderIsTimeOrder(a: DateTime, b: DateTime)
    requires Valid(a) && Valid(b)
    ensures Before(IsoFormat(a), IsoFormat(b)) <==> Instant(a) < Instant(b)
    ensures AtMost(IsoFormat(a), IsoFormat(b)) <==> Instant(a) <= Instant(b)
    ensures IsoFormat(a) == IsoFormat(b) <==> a == b
  {
    TextOrderOneWay(a, b);
    TextOrderOneWay(b, a);
    BeforeTotal(IsoFormat(a), IsoFormat(b));
    if a == b { BeforeIrreflexive(IsoFormat(a)); }
    if IsoFormat(a) == IsoFormat(b) {
      BeforeIrreflexive(IsoFormat(a));
      InstantIsFieldOrder(a, b);
      InstantIsFieldOrder(b, a);
    }
  }

  lemma TextOrderOneWay(a: DateTime, b: DateTime)
    requires Valid(a) && Valid(b)
    ensures Before(IsoFormat(a), IsoFormat(b)) <==> Instant(a) < Instant(b)
  {
    var fa, fb := Fraction(a.micro) + "+00:00", Fraction(b.micro) + "+00:00";
    DateKeepsOrder(a, b, "T" + (Clock(a) + fa), "T" + (Clock(b) + fb));
    Separator("T", Clock(a) + fa, Clock(b) + fb);
    ClockKeepsOrder(a, b, fa, fb);
    FractionKeepsOrder(a.micro, b.micro, "+00:00");
    InstantIsFieldOrder(a, b);
  }

  /** The number a run of digits spells. */
  function Number(t: string): int {
    if t == "" then 0 else 10 * Number(t[..|t| - 1]) + (t[|t| - 1] as int - '0' as int)
  }

  lemma {:induction false} NumberOfDigits(n: nat, w: nat)
    requires n < Pow10(w)
    ensures Number(Digits(n, w)) == n
  {
    if w > 0 {
      NumberOfDigits(n / 10, w - 1);
      assert Digits(n, w)[..w - 1] == Digits(n / 10, w - 1);
      assert Digits(n, w)[w - 1] == Digit(n % 10);
    }
  }

  /** The w characters at position i spell n. */
  predicate ReadsAs(s: string, i: nat, w: nat, n: int) {
    i + w <= |s| && Number(s[i..i + w]) == n
  }

  lemma FieldsRead(s: string, i: nat, x: string, c: string, y: string, z: string)
    requires |c| == 1 && |y| == |z| == 2 && i + |x| + 6 <= |s|
    requires s[i..i + |x| + 6] == x + c + y + c + z
    ensures var j := i + |x|;
      && ReadsAs(s, i, |x|, Number(x)) && ReadsAs(s, j + 1, 2, Number(y)) && ReadsAs(s, j + 4, 2, Number(z))
      && s[j] == s[j + 3] == c[0]
  {
    ThreeFields(s, i, x, c, y, z);
  }

  lemma FractionReads(s: string, i: nat, digits: string)
    requires |digits| == 6 && i + 7 <= |s| && s[i..i + 7] == "." + digits
    ensures s[i] == '.' && ReadsAs(s, i + 1, 6, Number(digits))
  {
    var f := s[i..i + 7];
    assert s[i] == f[0] && s[i + 1..i + 7] == f[1..] == digits;
  }

  lemma NumbersOf(d: DateTime)
    requires Valid(d)
    ensures Number(Digits(d.year, 4)) == d.year && Number(Digits(d.micro, 6)) == d.micro
    ensures Number(Digits(d.month, 2)) == d.month && Number(Digits(d.day, 2)) == d.day
    ensures Number(Digits(d.hour, 2)) == d.hour && Number(Digits(d.minute, 2)) == d.minute
    ensures Number(Digits(d.second, 2)) == d.second
  {
    Powers();
    NumberOfDigits(d.year, 4);
    NumberOfDigits(d.month, 2);
    NumberOfDigits(d.day, 2);
    NumberOfDigits(d.hour, 2);
    NumberOfDigits(d.minute, 2);
    NumberOfDigits(d.second, 2);
    NumberOfDigits(d.micro, 6);
  }

  lemma IsoParts(s: string, date: string, clock: string, fraction: string, zone: string)
    requires s == date + ("T" + (clock + (fraction + zone))) && |date| == 10 && |clock| == 8
    ensures |s| == 19 + |fraction| + |zone| && s[0..10] == date && s[10] == 'T' && s[11..19] == clock
    ensures s[19..19 + |fraction|] == fraction && s[19 + |fraction|..] == zone
  {
  }

  /** The stored text holds every field in its place, so it can be read back; the fraction is there unless it is 0. */
  lemma IsoReadsBack(d: DateTime)
    requires Valid(d)
    ensures var s := IsoFormat(d);
      && |s| == (if d.micro == 0 then 25 else 32) && s[|s| - 6..] == "+00:00"
      && ReadsAs(s, 0, 4, d.year) && ReadsAs(s, 5, 2, d.month) && ReadsAs(s, 8, 2, d.day)
      && ReadsAs(s, 11, 2, d.hour) && ReadsAs(s, 14, 2, d.minute) && ReadsAs(s, 17, 2, d.second)
      && s[4] == s[7] == '-' && s[10] == 'T' && s[13] == s[16] == ':'
      && (d.micro != 0 ==> s[19] == '.' && ReadsAs(s, 20, 6, d.micro))
  {
    NumbersOf(d);
    var s, f := IsoFormat(d), Fraction(d.micro);
    IsoParts(s, Date(d), Clock(d), f, "+00:00");
    FieldsRead(s, 0, Digits(d.year, 4), "-", Digits(d.month, 2), Digits(d.day, 2));
    FieldsRead(s, 11, Digits(d.hour, 2), ":", Digits(d.minute, 2), Digits(d.second, 2));
    if d.micro != 0 { FractionReads(s, 19, Digits(d.micro, 6)); }
  }

  /** Three fields with one character between, the last two of two digits. */
  lemma ThreeFields(s: string, i: nat, x: string, c: string, y: string, z: string)
    requires |c| == 1 && |y| == |z| == 2 && i + |x| + 6 <= |s|
    requires s[i..i + |x| + 6] == x + c + y + c + z
    ensures var j := i + |x|;
      s[i..j] == x && s[j + 1..j + 3] == y && s[j + 4..j + 6] == z && s[j] == s[j + 3] == c[0]
  {
    var t, w := s[i..i + |x| + 6], |x|;
    forall k | 0 <= k < |t| ensures s[i + k] == t[k] { }
    assert forall k :: 0 <= k < w ==> t[k] == x[k];
    assert t[w] == c[0] && t[w + 1] == y[0] && t[w + 2] == y[1] && t[w + 3] == c[0] && t[w + 4] == z[0];
    assert t[w + 5] == z[1];
    assert s[i..i + w] == x;
    assert s[i + w + 1..i + w + 3] == [s[i + w + 1], s[i + w + 2]] == y;
    assert s[i + w + 4..i + w + 6] == [s[i + w + 4], s[i + w + 5]] == z;
  }
}
