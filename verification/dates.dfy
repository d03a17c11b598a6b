/** Dates as the blog handles them: `YYYY-MM-DD` strings in the index, the
    Russian display form `formatDate` produces, and the order the date sorts
    use. Parsing a string into a calendar date (`new Date(s)`) belongs to the
    JavaScript engine, so it is a parameter of type `DateParser`. */
module Dates {
  import opened Options
  import opened Strings

  /** `getMonth()`: 0 for January through 11 for December. */
  type MonthIndex = m: int | 0 <= m < 12

  /** `getDate()`. */
  type DayOfMonth = d: int | 1 <= d <= 31 witness 1

  datatype DateParts = DateParts(year: int, month: MonthIndex, day: DayOfMonth)

  /** The engine's `new Date(s)`: None when the result is an invalid date. */
  type DateParser = string -> Option<DateParts>

  /** Genitive month names, as in "5 марта 2024". */
  const MonthNames: seq<string> := [
    "января", "февраля", "марта", "апреля", "мая", "июня",
    "июля", "августа", "сентября", "октября", "ноября", "декабря"
  ]

  /** `formatDate` over an already parsed date: "{day} {month name} {year}". */
  function FormatDate(d: DateParts): string {
    Join([IntToString(d.day), MonthNames[d.month], IntToString(d.year)], " ")
  }

  /** `formatDate(dateString)`: an unparsable date prints as the engine
      prints `NaN` fields and an out-of-range month lookup. */
  function FormatDateString(parse: DateParser, s: string): string {
    match parse(s)
    case None => "NaN undefined NaN"
    case Some(d) => FormatDate(d)
  }

  /** Index of a month name in the table. */
  function MonthOf(name: string): Option<MonthIndex> {
    MonthFrom(name, 0)
  }

  function MonthFrom(name: string, k: nat): (r: Option<MonthIndex>)
    requires k <= 12
    ensures r.Some? ==> MonthNames[r.value] == name
    decreases 12 - k
  {
    if k == 12 then None
    else if MonthNames[k] == name then Some(k)
    else MonthFrom(name, k + 1)
  }

  /** Reads a display date back into its parts; the inverse of `FormatDate`. */
  function ParseDisplayDate(s: string): Option<DateParts> {
    var parts := Split(s, ' ');
    if |parts| != 3 then None
    else
      match (ParseInt(parts[0]), MonthOf(parts[1]), ParseInt(parts[2]))
      case (Some(day), Some(m), Some(y)) =>
        if 1 <= day <= 31 then Some(DateParts(y, m, day)) else None
      case _ => None
  }

  lemma NoSpaceInNumber(n: int)
    ensures ' ' !in IntToString(n)
  {
    var d := NatToString(if n < 0 then -n else n);
    assert forall i | 0 <= i < |d| :: d[i] != ' ';
    if n < 0 {
      assert IntToString(n) == "-" + d;
    }
  }

  lemma MonthNamesDistinct(m: MonthIndex)
    ensures MonthOf(MonthNames[m]) == Some(m)
    ensures ' ' !in MonthNames[m]
  {
    MonthNamesPairwise();
    MonthFromFinds(MonthNames[m], 0, m);
    MonthNameNoSpace(m);
  }

  /** The first and third letters tell the month names apart. */
  lemma MonthNamesPairwise()
    ensures forall i, j | 0 <= i < j < 12 :: MonthNames[i] != MonthNames[j]
  {
    var first := "яфмамииасонд";
    var third := "ввррянлгнтяк";
    assert forall i | 0 <= i < 12 :: |MonthNames[i]| >= 3 && MonthNames[i][0] == first[i] && MonthNames[i][2] == third[i];
    forall i, j | 0 <= i < j < 12
      ensures MonthNames[i] != MonthNames[j]
    {
      assert first[i] != first[j] || third[i] != third[j];
    }
  }

  lemma {:induction false} MonthFromFinds(name: string, k: nat, m: MonthIndex)
    requires k <= m && MonthNames[m] == name
    requires forall j | k <= j < m :: MonthNames[j] != name
    ensures MonthFrom(name, k) == Some(m)
    decreases m - k
  {
    if k < m {
      MonthFromFinds(name, k + 1, m);
    }
  }

  lemma MonthNameNoSpace(m: MonthIndex)
    ensures ' ' !in MonthNames[m]
  {
    assert forall i | 0 <= i < 12 :: forall k | 0 <= k < |MonthNames[i]| :: MonthNames[i][k] != ' ';
  }

  /** Two different dates never display the same: the display form reads back. */
  lemma FormatDateRoundTrip(d: DateParts)
    ensures ParseDisplayDate(FormatDate(d)) == Some(d)
  {
    var parts := [IntToString(d.day), MonthNames[d.month], IntToString(d.year)];
    NoSpaceInNumber(d.day);
    NoSpaceInNumber(d.year);
    MonthNamesDistinct(d.month);
    SplitJoin(parts, ' ');
    ParseIntToString(d.day);
    ParseIntToString(d.year);
  }

  /** Lexicographic order on code points: how the sorts compare well-formed
      `YYYY-MM-DD` dates (see `IsoOrderIsChronological`). */
  predicate LexLe(a: string, b: string)
    decreases |a|
  {
    a == [] || (b != [] && (a[0] < b[0] || (a[0] == b[0] && LexLe(a[1..], b[1..]))))
  }

  lemma {:induction false} LexLeRefl(a: string)
    ensures LexLe(a, a)
    decreases |a|
  {
    if a != [] {
      LexLeRefl(a[1..]);
    }
  }

  lemma {:induction false} LexLeTrans(a: string, b: string, c: string)
    requires LexLe(a, b) && LexLe(b, c)
    ensures LexLe(a, c)
    decreases |a|
  {
    if a != [] && a[0] == b[0] && b[0] == c[0] {
      LexLeTrans(a[1..], b[1..], c[1..]);
    }
  }

  lemma {:induction false} LexLeTotal(a: string, b: string)
    ensures LexLe(a, b) || LexLe(b, a)
    decreases |a|
  {
    if a != [] && b != [] && a[0] == b[0] {
      LexLeTotal(a[1..], b[1..]);
    }
  }

  lemma {:induction false} LexLeAntisym(a: string, b: string)
    requires LexLe(a, b) && LexLe(b, a)
    ensures a == b
    decreases |a|
  {
    if a != [] && b != [] {
      LexLeAntisym(a[1..], b[1..]);
      assert a == [a[0]] + a[1..] && b == [b[0]] + b[1..];
    }
  }

  /** `/^\d{4}-\d{2}-\d{2}$/`. */
  predicate IsIsoDate(s: string) {
    && |s| == 10
    && (forall i | 0 <= i < 10 && i != 4 && i != 7 :: IsDigit(s[i]))
    && s[4] == '-' && s[7] == '-'
  }

  /** The numeric value of a digit character. */
  function DigitValue(c: char): nat
    requires IsDigit(c)
  {
    c as int - '0' as int
  }

  function Pow10(n: nat): (r: nat)
    ensures r >= 1
  {
    if n == 0 then 1 else 10 * Pow10(n - 1)
  }

  /** The number a digit string spells, most significant digit first. */
  function DecimalValue(s: string): (r: nat)
    requires AllDigits(s)
    ensures r < Pow10(|s|)
  {
    if s == [] then 0
    else
      var rest := DecimalValue(s[1..]);
      var d := DigitValue(s[0]);
      DigitBound(d, rest, Pow10(|s| - 1));
      d * Pow10(|s| - 1) + rest
  }

  lemma MulLe(x: nat, y: nat, p: nat)
    requires x <= y
    ensures x * p <= y * p
  {
  }

  /** A digit followed by a shorter number stays below the next power of ten. */
  lemma DigitBound(d: nat, rest: nat, p: nat)
    requires d <= 9 && rest < p
    ensures d * p + rest < 10 * p
  {
    MulLe(d, 9, p);
  }

  /** A larger leading digit outweighs whatever follows it. */
  lemma PlaceValue(da: nat, db: nat, ra: nat, rb: nat, p: nat)
    requires da < db && ra < p && rb < p
    ensures da * p + ra < db * p + rb
  {
    MulLe(da + 1, db, p);
    assert (da + 1) * p == da * p + p;
  }

  /** The number `YYYYMMDD` a well-formed date spells. */
  function DayNumber(s: string): nat
    requires IsIsoDate(s)
  {
    DecimalValue(s[..4] + s[5..7] + s[8..])
  }

  /** Lexicographic order of equally long digit strings is numeric order. */
  lemma {:induction false} LexLeDigits(a: string, b: string)
    requires |a| == |b| && AllDigits(a) && AllDigits(b)
    ensures LexLe(a, b) <==> DecimalValue(a) <= DecimalValue(b)
    decreases |a|
  {
    if a != [] {
      LexLeDigits(a[1..], b[1..]);
      var p := Pow10(|a| - 1);
      LeadingDigit(DigitValue(a[0]), DigitValue(b[0]), DecimalValue(a[1..]), DecimalValue(b[1..]), p);
      assert LexLe(a, b) <==> a[0] < b[0] || (a[0] == b[0] && LexLe(a[1..], b[1..]));
    }
  }

  /** Comparing `da * p + ra` with `db * p + rb` when both remainders are
      below `p`: the leading digits decide unless they are equal. */
  lemma LeadingDigit(da: nat, db: nat, ra: nat, rb: nat, p: nat)
    requires ra < p && rb < p
    ensures da < db ==> da * p + ra < db * p + rb
    ensures db < da ==> db * p + rb < da * p + ra
    ensures da == db ==> (da * p + ra <= db * p + rb <==> ra <= rb)
  {
    if da < db {
      PlaceValue(da, db, ra, rb, p);
    } else if db < da {
      PlaceValue(db, da, rb, ra, p);
    }
  }

  lemma {:induction false} LexLeAppend(x: string, y: string, x': string, y': string)
    requires |x| == |x'|
    ensures LexLe(x + y, x' + y') <==> (x != x' && LexLe(x, x')) || (x == x' && LexLe(y, y'))
    decreases |x|
  {
    if x != [] {
      assert (x + y)[1..] == x[1..] + y;
      assert (x' + y')[1..] == x'[1..] + y';
      LexLeAppend(x[1..], y, x'[1..], y');
      if x[0] == x'[0] && x[1..] == x'[1..] {
        assert x == x';
      }
      if x == x' {
        assert x[1..] == x'[1..];
      }
    } else {
      assert x + y == y && x' + y' == y';
    }
  }

  /** A separator at the same place in both strings does not affect the order. */
  lemma LexLeDropSeparator(x: string, y: string, x': string, y': string, c: char)
    requires |x| == |x'|
    ensures LexLe(x + [c] + y, x' + [c] + y') <==> LexLe(x + y, x' + y')
  {
    assert x + [c] + y == x + ([c] + y);
    assert x' + [c] + y' == x' + ([c] + y');
    LexLeAppend(x, [c] + y, x', [c] + y');
    LexLeAppend(x, y, x', y');
    assert ([c] + y)[1..] == y && ([c] + y')[1..] == y';
  }

  /** For well-formed `YYYY-MM-DD` strings, comparing them as text is
      comparing the dates: the sorts' lexicographic order is chronological. */
  lemma IsoOrderIsChronological(a: string, b: string)
    requires IsIsoDate(a) && IsIsoDate(b)
    ensures LexLe(a, b) <==> DayNumber(a) <= DayNumber(b)
  {
    assert a == a[..4] + [a[4]] + a[5..];
    assert b == b[..4] + [b[4]] + b[5..];
    LexLeDropSeparator(a[..4], a[5..], b[..4], b[5..], '-');
    var a1 := a[..4] + a[5..];
    var b1 := b[..4] + b[5..];
    assert a1 == (a[..4] + a[5..7]) + [a1[6]] + a[8..];
    assert b1 == (b[..4] + b[5..7]) + [b1[6]] + b[8..];
    LexLeDropSeparator(a[..4] + a[5..7], a[8..], b[..4] + b[5..7], b[8..], '-');
    var da := a[..4] + a[5..7] + a[8..];
    var db := b[..4] + b[5..7] + b[8..];
    assert AllDigits(da) && AllDigits(db);
    LexLeDigits(da, db);
  }
}
