/** `_parse_date_string` and the `DD.MM.YYYY` re-serialisation `parse` applies to its result. */
module Dates {
  import opened Wrappers
  import Text
  import Regex

  // ---------------------------------------------------------------------------------------------
  // Calendar dates and `datetime` values.

  datatype Ymd = Ymd(year: int, month: int, day: int)

  predicate IsLeap(y: int) {
    y % 4 == 0 && (y % 100 != 0 || y % 400 == 0)
  }

  function DaysInMonth(y: int, m: int): int
    requires 1 <= m <= 12
  {
    if m == 2 then (if IsLeap(y) then 29 else 28)
    else if m == 4 || m == 6 || m == 9 || m == 11 then 30
    else 31
  }

  /** The dates `datetime` accepts: years 1 to 9999 of the proleptic Gregorian calendar. */
  predicate ValidYmd(d: Ymd) {
    1 <= d.year <= 9999 && 1 <= d.month <= 12 && 1 <= d.day <= DaysInMonth(d.year, d.month)
  }

  type Date = d: Ymd | ValidYmd(d) witness Ymd(1, 1, 1)

  /** A `datetime`: its date, the microseconds since midnight, and whether it carries a time zone. */
  datatype DateTime = DateTime(date: Date, micros: nat, aware: bool)

  /** `datetime(year, month, day)`: midnight without a time zone, `None` where the constructor
      raises `ValueError`. */
  function Midnight(year: int, month: int, day: int): (r: Option<DateTime>)
    ensures r.Some? <==> ValidYmd(Ymd(year, month, day))
    ensures r.Some? ==> r.value.date == Ymd(year, month, day) && r.value.micros == 0 && !r.value.aware
  {
    var d := Ymd(year, month, day);
    if ValidYmd(d) then Some(DateTime(d, 0, false)) else None
  }

  predicate DateBefore(a: Ymd, b: Ymd) {
    a.year < b.year || (a.year == b.year && (a.month < b.month || (a.month == b.month && a.day < b.day)))
  }

  /** Dates are totally ordered: exactly one of before, equal, after. */
  lemma DateOrder(a: Ymd, b: Ymd)
    ensures DateBefore(a, b) || a == b || DateBefore(b, a)
    ensures !(DateBefore(a, b) && DateBefore(b, a)) && !DateBefore(a, a)
  {
  }

  /** `a < b` for two `datetime` values without a time zone. */
  predicate Before(a: DateTime, b: DateTime) {
    DateBefore(a.date, b.date) || (a.date == b.date && a.micros < b.micros)
  }

  /** Two decimal digits: `%d` and `%m`. */
  function Pad2(n: int): (r: string)
    requires 0 <= n < 100
    ensures |r| == 2 && Text.IsDigit(r[0]) && Text.IsDigit(r[1])
  {
    [Text.DigitChar(n / 10), Text.DigitChar(n % 10)]
  }

  /** `strftime("%d.%m.%Y")`; `%Y` is not zero-padded for years below 1000, as with glibc. */
  function Format(t: DateTime): string {
    Pad2(t.date.day) + "." + Pad2(t.date.month) + "." + Text.NatToString(t.date.year)
  }

  // ---------------------------------------------------------------------------------------------
  // The four patterns, tried in order.

  const D12 := Regex.Atom(Regex.Digit, 1, Regex.Upto(2))
  const D4 := Regex.Atom(Regex.Digit, 4, Regex.Upto(4))
  /** `[./-]` */
  const SepClass := Regex.In([('.', '.'), ('/', '/'), ('-', '-')])
  const Sep := Regex.Atom(SepClass, 1, Regex.Upto(1))
  const Spaces := Regex.Atom(Regex.Space, 1, Regex.Unbounded)
  /** `[а-яА-Я]`: unlike the title test, without `ё` and `Ё`. */
  const WordClass := Regex.In([('а', 'я'), ('А', 'Я')])
  const Word := Regex.Atom(WordClass, 1, Regex.Unbounded)

  /** `(\d{1,2})[./-](\d{1,2})[./-](\d{4})` */
  const DayFirst := Regex.Pattern([D12, Sep, D12, Sep, D4], false)
  /** `(\d{4})[./-](\d{1,2})[./-](\d{1,2})` */
  const YearFirst := Regex.Pattern([D4, Sep, D12, Sep, D12], false)
  /** `(\d{1,2})\s+([а-яА-Я]+)\s+(\d{4})` */
  const DayMonthYear := Regex.Pattern([D12, Spaces, Word, Spaces, D4], false)
  /** `(\d{1,2})\s+([а-яА-Я]+)` */
  const DayMonth := Regex.Pattern([D12, Spaces, Word], false)

  predicate IsSeparator(c: char) {
    c == '.' || c == '/' || c == '-'
  }

  predicate IsRussianLetter(c: char) {
    'а' <= c <= 'я' || 'А' <= c <= 'Я'
  }

  /** The month table, in its insertion order: the lookup takes the first key that occurs. */
  const Months: seq<(string, int)> := [
    ("янв", 1), ("января", 1), ("январь", 1),
    ("фев", 2), ("февраля", 2), ("февраль", 2),
    ("мар", 3), ("марта", 3), ("март", 3),
    ("апр", 4), ("апреля", 4), ("апрель", 4),
    ("мая", 5), ("май", 5),
    ("июн", 6), ("июня", 6), ("июнь", 6),
    ("июл", 7), ("июля", 7), ("июль", 7),
    ("авг", 8), ("августа", 8), ("август", 8),
    ("сен", 9), ("сентября", 9), ("сентябрь", 9),
    ("окт", 10), ("октября", 10), ("октябрь", 10),
    ("ноя", 11), ("ноября", 11), ("ноябрь", 11),
    ("дек", 12), ("декабря", 12), ("декабрь", 12)
  ]

  /** The month of the first key of `table`, from index `k` on, that occurs in `word`. */
  function MonthFrom(table: seq<(string, int)>, word: string, k: nat): Option<int>
    requires k <= |table|
    decreases |table| - k
  {
    if k == |table| then None
    else if Text.Contains(word, table[k].0) then Some(table[k].1)
    else MonthFrom(table, word, k + 1)
  }

  /** The loop over the month table. */
  function MonthOf(word: string): Option<int> {
    MonthFrom(Months, word, 0)
  }

  /** The lookup finds nothing exactly when no key from index `k` on occurs in `word`. */
  lemma {:induction false} MonthFromNone(table: seq<(string, int)>, word: string, k: nat)
    requires k <= |table|
    ensures MonthFrom(table, word, k).None? <==> forall i :: k <= i < |table| ==> !Text.Contains(word, table[i].0)
    decreases |table| - k
  {
    if k < |table| {
      MonthFromNone(table, word, k + 1);
    }
  }

  /** The lookup stops at the first key that occurs: whatever follows it in the table is never
      consulted. */
  lemma {:induction false} MonthFromFirst(table: seq<(string, int)>, word: string, k: nat, i: nat)
    requires k <= i < |table| && Text.Contains(word, table[i].0)
    requires forall j :: k <= j < i ==> !Text.Contains(word, table[j].0)
    ensures MonthFrom(table, word, k) == Some(table[i].1)
    decreases i - k
  {
    if k < i {
      MonthFromFirst(table, word, k + 1, i);
    }
  }

  /** A three-group pattern: `map(int, groups)` (every group must be decimal digits), then
      `datetime(year, month, day)`, year first or day first. `None` where the pattern does not
      occur or where either step raises `ValueError`. */
  function ThreeGroups(p: Regex.Pattern, yearFirst: bool, s: string): Option<DateTime>
    requires |p.atoms| == 5 && !p.anchorEnd
  {
    match Regex.Search(p, s)
    case None => None
    case Some(b) =>
      var g1 := Text.DecimalValue(Regex.Span(p.atoms, false, s, b, 0, 1));
      var g2 := Text.DecimalValue(Regex.Span(p.atoms, false, s, b, 2, 3));
      var g3 := Text.DecimalValue(Regex.Span(p.atoms, false, s, b, 4, 5));
      if g1.None? || g2.None? || g3.None? then None
      else if yearFirst then Midnight(g1.value, g2.value, g3.value)
      else Midnight(g3.value, g2.value, g1.value)
  }

  /** The two-group pattern: the day, then the lower-cased word looked up in the month table,
      with `currentYear` for the year. */
  function TwoGroups(s: string, currentYear: int): Option<DateTime> {
    match Regex.Search(DayMonth, s)
    case None => None
    case Some(b) =>
      var day := Text.DecimalValue(Regex.Span(DayMonth.atoms, false, s, b, 0, 1));
      var month := MonthOf(Text.Lower(Regex.Span(DayMonth.atoms, false, s, b, 2, 3)));
      if day.None? || month.None? then None
      else Midnight(currentYear, month.value, day.value)
  }

  /** `_parse_date_string(s, currentYear)`; `fromIso` is `datetime.fromisoformat`, `None` where it
      raises. */
  function ParseDate(s: string, currentYear: int, fromIso: string -> Option<DateTime>): (r: Option<DateTime>)
    ensures s == "" ==> r.None?
  {
    if s == "" then None
    else
      var p1 := ThreeGroups(DayFirst, false, s);
      var p2 := ThreeGroups(YearFirst, true, s);
      var p3 := ThreeGroups(DayMonthYear, false, s);
      var p4 := TwoGroups(s, currentYear);
      if p1.Some? then p1
      else if p2.Some? then p2
      else if p3.Some? then p3
      else if p4.Some? then p4
      else fromIso(s)
  }

  // ---------------------------------------------------------------------------------------------
  // Character classes and digits.

  lemma SepClassIs(c: char)
    ensures Regex.InClass(c, SepClass) <==> IsSeparator(c)
  {
    var rs := [('.', '.'), ('/', '/'), ('-', '-')];
    if IsSeparator(c) {
      var k := if c == '.' then 0 else if c == '/' then 1 else 2;
      assert rs[k].0 <= c <= rs[k].1;
    }
  }

  lemma WordClassIs(c: char)
    ensures Regex.InClass(c, WordClass) <==> IsRussianLetter(c)
  {
    var rs := [('а', 'я'), ('А', 'Я')];
    if IsRussianLetter(c) {
      var k := if 'а' <= c <= 'я' then 0 else 1;
      assert rs[k].0 <= c <= rs[k].1;
    }
  }

  lemma Pad2Value(n: int)
    requires 0 <= n < 100
    ensures Text.DecimalValue(Pad2(n)) == Some(n)
  {
    var r := Pad2(n);
    assert r[0] as int - '0' as int == n / 10 && r[1] as int - '0' as int == n % 10;
    assert r[..1] == [r[0]] && [r[0]][..0] == [];
    assert Text.DigitsValue([r[0]]) == r[0] as int - '0' as int;
    assert Text.DigitsValue(r) == Text.DigitsValue(r[..1]) * 10 + (r[1] as int - '0' as int);
    assert !exists i :: 0 <= i < |r| && !Text.IsDigit(r[i]);
  }

  lemma YearDigits(y: int)
    requires 1000 <= y <= 9999
    ensures |Text.NatToString(y)| == 4
  {
    assert Text.NatToString(y) == Text.NatToString(y / 10) + [Text.DigitChar(y % 10)];
    assert Text.NatToString(y / 10) == Text.NatToString(y / 100) + [Text.DigitChar(y / 10 % 10)];
    assert Text.NatToString(y / 100) == Text.NatToString(y / 1000) + [Text.DigitChar(y / 100 % 10)];
  }

  /** Every character of the decimal rendering of a number is a digit. */
  lemma DigitsOnly(s: string, c: char)
    requires forall i :: 0 <= i < |s| ==> Text.IsDigit(s[i])
    requires c in s
    ensures Text.IsDigit(c)
  {
  }

  // ---------------------------------------------------------------------------------------------
  // The third pattern never yields a date.

  /** `int()` of the month word raises, so the three-group Cyrillic pattern is always skipped. */
  lemma DayMonthYearNeverParses(s: string)
    ensures ThreeGroups(DayMonthYear, false, s).None?
  {
    if Regex.Search(DayMonthYear, s).Some? {
      var b := Regex.Search(DayMonthYear, s).value;
      var atoms := DayMonthYear.atoms;
      var w := Regex.Span(atoms, false, s, b, 2, 3);
      assert Regex.Fits(atoms[2], s, b[2], b[3]);
      assert Regex.InClass(w[0], WordClass);
      WordClassIs(w[0]);
      assert !Text.IsDigit(w[0]);
      assert Text.DecimalValue(w).None?;
    }
  }

  // ---------------------------------------------------------------------------------------------
  // Which patterns match which shapes.

  /** Every match puts a character of the class of atom `k` at boundary `k`. */
  lemma PieceClass(atoms: seq<Regex.Atom>, k: nat, s: string)
    requires k < |atoms| && atoms[k].min >= 1
    ensures forall b :: Regex.Accepts(atoms, false, s, b) ==> b[k] < |s| && Regex.InClass(s[b[k]], atoms[k].cls)
  {
    forall b | Regex.Accepts(atoms, false, s, b)
      ensures b[k] < |s| && Regex.InClass(s[b[k]], atoms[k].cls)
    {
      assert Regex.Fits(atoms[k], s, b[k], b[k + 1]);
    }
  }

  /** Without a separator, neither numeric pattern occurs. */
  lemma NoSeparatorNoNumeric(s: string)
    requires forall i :: 0 <= i < |s| ==> !IsSeparator(s[i])
    ensures Regex.Search(DayFirst, s).None? && Regex.Search(YearFirst, s).None?
  {
    PieceClass(DayFirst.atoms, 1, s);
    PieceClass(YearFirst.atoms, 1, s);
    forall c: char
      ensures Regex.InClass(c, SepClass) <==> IsSeparator(c)
    {
      SepClassIs(c);
    }
  }

  /** Without whitespace, the two-group pattern does not occur. */
  lemma NoSpaceNoDayMonth(s: string)
    requires forall i :: 0 <= i < |s| ==> !Text.IsSpace(s[i])
    ensures Regex.Search(DayMonth, s).None?
  {
    PieceClass(DayMonth.atoms, 1, s);
  }

  /** The boundaries of `dd.mm.yyyy`: two digits, a separator, two digits, a separator, four. */
  predicate DayFirstShape(s: string) {
    && |s| == 10
    && Text.IsDigit(s[0]) && Text.IsDigit(s[1]) && IsSeparator(s[2])
    && Text.IsDigit(s[3]) && Text.IsDigit(s[4]) && IsSeparator(s[5])
    && Text.IsDigit(s[6]) && Text.IsDigit(s[7]) && Text.IsDigit(s[8]) && Text.IsDigit(s[9])
  }

  /** The boundaries of `yyyy-mm-dd`. */
  predicate YearFirstShape(s: string) {
    && |s| == 10
    && Text.IsDigit(s[0]) && Text.IsDigit(s[1]) && Text.IsDigit(s[2]) && Text.IsDigit(s[3])
    && IsSeparator(s[4]) && Text.IsDigit(s[5]) && Text.IsDigit(s[6])
    && IsSeparator(s[7]) && Text.IsDigit(s[8]) && Text.IsDigit(s[9])
  }

  lemma DigitRun(s: string, i: nat, n: nat)
    requires i + n <= |s| && forall j :: i <= j < i + n ==> Text.IsDigit(s[j])
    ensures Regex.RunAt(s, Regex.Digit, i, n)
  {
  }

  lemma SepAt(s: string, i: nat)
    requires i < |s| && IsSeparator(s[i])
    ensures Regex.RunAt(s, SepClass, i, 1)
  {
    SepClassIs(s[i]);
  }

  /** On `dd.mm.yyyy` the day-first pattern takes the whole string. */
  lemma DayFirstMatch(s: string)
    requires DayFirstShape(s)
    ensures Regex.Search(DayFirst, s) == Some([0, 2, 3, 5, 6, 10])
  {
    var b: seq<nat> := [0, 2, 3, 5, 6, 10];
    DayFirstPieces(s);
    Regex.GreedyMatch(DayFirst.atoms, false, s, b);
    Regex.SearchAtStart(DayFirst, s, b);
  }

  /** Each atom of the day-first pattern runs greedily over its own field of `dd.mm.yyyy`. */
  lemma DayFirstPieces(s: string)
    requires DayFirstShape(s)
    ensures forall i :: 0 <= i < 5 ==> Regex.GreedyPiece(DayFirst.atoms, s, [0, 2, 3, 5, 6, 10], i)
  {
    var atoms := DayFirst.atoms;
    var b: seq<nat> := [0, 2, 3, 5, 6, 10];
    DigitRun(s, 0, 2);
    Regex.GreedyRunIs(D12, s, 0, 2);
    SepAt(s, 2);
    Regex.GreedyRunIs(Sep, s, 2, 1);
    DigitRun(s, 3, 2);
    Regex.GreedyRunIs(D12, s, 3, 2);
    SepAt(s, 5);
    Regex.GreedyRunIs(Sep, s, 5, 1);
    DigitRun(s, 6, 4);
    Regex.GreedyRunIs(D4, s, 6, 4);
    assert forall i :: 0 <= i < |atoms| ==> Regex.GreedyPiece(atoms, s, b, i);
  }

  /** On `yyyy-mm-dd` the year-first pattern takes the whole string. */
  lemma YearFirstMatch(s: string)
    requires YearFirstShape(s)
    ensures Regex.Search(YearFirst, s) == Some([0, 4, 5, 7, 8, 10])
  {
    var b: seq<nat> := [0, 4, 5, 7, 8, 10];
    YearFirstPieces(s);
    Regex.GreedyMatch(YearFirst.atoms, false, s, b);
    Regex.SearchAtStart(YearFirst, s, b);
  }

  /** Each atom of the year-first pattern runs greedily over its own field of `yyyy-mm-dd`. */
  lemma YearFirstPieces(s: string)
    requires YearFirstShape(s)
    ensures forall i :: 0 <= i < 5 ==> Regex.GreedyPiece(YearFirst.atoms, s, [0, 4, 5, 7, 8, 10], i)
  {
    var atoms := YearFirst.atoms;
    var b: seq<nat> := [0, 4, 5, 7, 8, 10];
    DigitRun(s, 0, 4);
    Regex.GreedyRunIs(D4, s, 0, 4);
    SepAt(s, 4);
    Regex.GreedyRunIs(Sep, s, 4, 1);
    DigitRun(s, 5, 2);
    Regex.GreedyRunIs(D12, s, 5, 2);
    SepAt(s, 7);
    Regex.GreedyRunIs(Sep, s, 7, 1);
    DigitRun(s, 8, 2);
    Regex.GreedyRunIs(D12, s, 8, 2);
    assert forall i :: 0 <= i < |atoms| ==> Regex.GreedyPiece(atoms, s, b, i);
  }

  /** What every day-first match consists of at its end: a separator, then four digits. */
  lemma DayFirstEnd(s: string)
    ensures forall b :: Regex.Accepts(DayFirst.atoms, false, s, b) ==>
      && b[3] < |s| && IsSeparator(s[b[3]]) && b[4] == b[3] + 1 && b[5] == b[4] + 4 <= |s|
      && (forall j :: b[4] <= j < b[5] ==> Text.IsDigit(s[j]))
  {
    var atoms := DayFirst.atoms;
    forall b | Regex.Accepts(atoms, false, s, b)
      ensures b[3] < |s| && IsSeparator(s[b[3]]) && b[4] == b[3] + 1 && b[5] == b[4] + 4 <= |s|
      ensures forall j :: b[4] <= j < b[5] ==> Text.IsDigit(s[j])
    {
      assert Regex.Fits(atoms[3], s, b[3], b[4]);
      assert Regex.Fits(atoms[4], s, b[4], b[5]);
      SepClassIs(s[b[3]]);
    }
  }

  /** What every year-first match consists of at its start: four digits, then a separator. */
  lemma YearFirstStart(s: string)
    ensures forall b :: Regex.Accepts(YearFirst.atoms, false, s, b) ==>
      && b[1] == b[0] + 4 && b[1] < |s| && IsSeparator(s[b[1]])
      && (forall j :: b[0] <= j < b[1] ==> Text.IsDigit(s[j]))
  {
    var atoms := YearFirst.atoms;
    forall b | Regex.Accepts(atoms, false, s, b)
      ensures b[1] == b[0] + 4 && b[1] < |s| && IsSeparator(s[b[1]])
      ensures forall j :: b[0] <= j < b[1] ==> Text.IsDigit(s[j])
    {
      assert Regex.Fits(atoms[0], s, b[0], b[1]);
      assert Regex.Fits(atoms[1], s, b[1], b[2]);
      SepClassIs(s[b[1]]);
    }
  }

  lemma YearFirstSeparators(s: string)
    requires YearFirstShape(s)
    ensures forall j :: 0 <= j < |s| && IsSeparator(s[j]) ==> j == 4 || j == 7
  {
    forall j | 0 <= j < |s| && IsSeparator(s[j])
      ensures j == 4 || j == 7
    {
      // One case per position of the ten-character date, so each shape fact applies.
      assert j == 0 || j == 1 || j == 2 || j == 3 || j == 4 || j == 5 || j == 6 || j == 7 || j == 8 || j == 9;
    }
  }

  /** `yyyy-mm-dd` has no four digits after a separator, so the day-first pattern misses it. */
  lemma YearFirstNotDayFirst(s: string)
    requires YearFirstShape(s)
    ensures Regex.Search(DayFirst, s).None?
  {
    DayFirstEnd(s);
    YearFirstSeparators(s);
  }

  /** `dd.mm.yyyy` has no four digits followed by a separator, so the year-first pattern misses it. */
  lemma DayFirstNotYearFirst(s: string)
    requires DayFirstShape(s)
    ensures Regex.Search(YearFirst, s).None?
  {
    YearFirstStart(s);
  }

  lemma FormatShape(t: DateTime)
    requires t.date.year >= 1000
    ensures var s := Format(t);
      DayFirstShape(s)
      && s[0..2] == Pad2(t.date.day) && s[3..5] == Pad2(t.date.month) && s[6..10] == Text.NatToString(t.date.year)
  {
    YearDigits(t.date.year);
  }

  lemma DigitsNotSpace(s: string)
    requires DayFirstShape(s)
    ensures forall i :: 0 <= i < |s| ==> !Text.IsSpace(s[i])
  {
  }

  // ---------------------------------------------------------------------------------------------
  // What `_parse_date_string` returns.

  /** Re-serialising a date and parsing it back gives the same date at midnight, which formats to
      the same text: `"25.12.2024"` parses as 25 December 2024. */
  lemma FormatRoundTrip(t: DateTime, currentYear: int, fromIso: string -> Option<DateTime>)
    requires t.date.year >= 1000
    ensures ParseDate(Format(t), currentYear, fromIso) == Some(DateTime(t.date, 0, false))
    ensures Format(ParseDate(Format(t), currentYear, fromIso).value) == Format(t)
  {
    var s := Format(t);
    FormatShape(t);
    DayFirstMatch(s);
    Pad2Value(t.date.day);
    Pad2Value(t.date.month);
    Text.DecimalRoundTrip(t.date.year);
  }

  /** An ISO date `yyyy-mm-dd` is read year first. */
  lemma YearFirstParses(t: DateTime, currentYear: int, fromIso: string -> Option<DateTime>)
    requires t.date.year >= 1000
    ensures var s := Text.NatToString(t.date.year) + "-" + Pad2(t.date.month) + "-" + Pad2(t.date.day);
      ParseDate(s, currentYear, fromIso) == Some(DateTime(t.date, 0, false))
  {
    var s := Text.NatToString(t.date.year) + "-" + Pad2(t.date.month) + "-" + Pad2(t.date.day);
    YearDigits(t.date.year);
    assert s[0..4] == Text.NatToString(t.date.year) && s[5..7] == Pad2(t.date.month) && s[8..10] == Pad2(t.date.day);
    assert YearFirstShape(s);
    YearFirstNotDayFirst(s);
    YearFirstMatch(s);
    Pad2Value(t.date.day);
    Pad2Value(t.date.month);
    Text.DecimalRoundTrip(t.date.year);
  }

  /** A day-first date that is not in the calendar is skipped by every pattern, leaving
      `fromisoformat` to decide. */
  lemma InvalidDateFallsBack(y: int, m: int, d: int, currentYear: int, fromIso: string -> Option<DateTime>)
    requires 1000 <= y <= 9999 && 0 <= m < 100 && 0 <= d < 100 && !ValidYmd(Ymd(y, m, d))
    ensures var s := Pad2(d) + "." + Pad2(m) + "." + Text.NatToString(y);
      ParseDate(s, currentYear, fromIso) == fromIso(s)
  {
    var s := Pad2(d) + "." + Pad2(m) + "." + Text.NatToString(y);
    YearDigits(y);
    assert s[0..2] == Pad2(d) && s[3..5] == Pad2(m) && s[6..10] == Text.NatToString(y);
    assert DayFirstShape(s);
    DayFirstMatch(s);
    Pad2Value(d);
    Pad2Value(m);
    Text.DecimalRoundTrip(y);
    assert ThreeGroups(DayFirst, false, s).None?;
    DayFirstNotYearFirst(s);
    DayMonthYearNeverParses(s);
    DigitsNotSpace(s);
    NoSpaceNoDayMonth(s);
  }

  /** `"5 марта"` and `"5 марта 2026"` alike: a day, a space and a month word take their year from
      `currentYear`, and the month from the first table key inside the lower-cased word. */
  lemma DayMonthUsesCurrentYear(d: nat, w: string, rest: string, currentYear: int, fromIso: string -> Option<DateTime>)
    requires d < 100 && w != "" && forall i :: 0 <= i < |w| ==> IsRussianLetter(w[i])
    requires rest == "" || !IsRussianLetter(rest[0])
    requires forall i :: 0 <= i < |rest| ==> !IsSeparator(rest[i])
    ensures var s := Text.NatToString(d) + " " + w + rest;
      var month := MonthOf(Text.Lower(w));
      var viaMonth := if month.Some? then Midnight(currentYear, month.value, d) else None;
      ParseDate(s, currentYear, fromIso) == if viaMonth.Some? then viaMonth else fromIso(s)
  {
    var digits := Text.NatToString(d);
    var s := digits + " " + w + rest;
    SmallNumber(d);
    NoSeparatorIn(digits, w, rest, s);
    NoSeparatorNoNumeric(s);
    DayMonthYearNeverParses(s);
    DayMonthMatch(digits, w, rest, s);
    Text.DecimalRoundTrip(d);
  }

  lemma SmallNumber(d: nat)
    requires d < 100
    ensures 1 <= |Text.NatToString(d)| <= 2
  {
    if d >= 10 {
      assert Text.NatToString(d) == Text.NatToString(d / 10) + [Text.DigitChar(d % 10)];
    }
  }

  lemma NoSeparatorIn(digits: string, w: string, rest: string, s: string)
    requires forall i :: 0 <= i < |digits| ==> Text.IsDigit(digits[i])
    requires forall i :: 0 <= i < |w| ==> IsRussianLetter(w[i])
    requires forall i :: 0 <= i < |rest| ==> !IsSeparator(rest[i])
    requires s == digits + " " + w + rest
    ensures forall i :: 0 <= i < |s| ==> !IsSeparator(s[i])
  {
    var n := |digits|;
    var e := n + 1 + |w|;
    forall i | 0 <= i < |s|
      ensures !IsSeparator(s[i])
    {
      if i < n {
        assert s[i] == digits[i];
      } else if i == n {
        assert s[i] == ' ';
      } else if i < e {
        assert s[i] == w[i - n - 1];
      } else {
        assert s[i] == rest[i - e];
      }
    }
  }

  /** The two-group pattern takes the digits, the single space and the whole word. */
  lemma DayMonthMatch(digits: string, w: string, rest: string, s: string)
    requires 1 <= |digits| <= 2 && forall i :: 0 <= i < |digits| ==> Text.IsDigit(digits[i])
    requires w != "" && forall i :: 0 <= i < |w| ==> IsRussianLetter(w[i])
    requires rest == "" || !IsRussianLetter(rest[0])
    requires s == digits + " " + w + rest
    ensures var n := |digits|;
      Regex.Search(DayMonth, s) == Some([0, n, n + 1, n + 1 + |w|])
      && s[0..n] == digits && s[n + 1..n + 1 + |w|] == w
  {
    var n := |digits|;
    var e := n + 1 + |w|;
    assert s[..n] == digits && s[n + 1..e] == w;
    assert forall i :: 0 <= i < n ==> s[i] == digits[i];
    assert s[n] == ' ' && s[n + 1] == w[0];
    if e < |s| {
      assert s[e] == rest[0];
    }
    DayMonthFrom(s, n, w);
    Regex.SearchAtStart(DayMonth, s, [0, n, n + 1, e]);
  }

  /** The engine's match of the two-group pattern at the start: the digits, one space, the word. */
  lemma DayMonthFrom(s: string, n: nat, w: string)
    requires 1 <= n <= 2 && n + 1 + |w| <= |s| && forall i :: 0 <= i < n ==> Text.IsDigit(s[i])
    requires s[n] == ' ' && s[n + 1..n + 1 + |w|] == w
    requires w != "" && forall i :: 0 <= i < |w| ==> IsRussianLetter(w[i])
    requires n + 1 + |w| == |s| || !IsRussianLetter(s[n + 1 + |w|])
    ensures Regex.MatchFrom(DayMonth.atoms, false, s, 0) == Some([0, n, n + 1, n + 1 + |w|])
  {
    var b: seq<nat> := [0, n, n + 1, n + 1 + |w|];
    assert s[n + 1] == w[0];
    DigitsPiece(s, n);
    SpacePiece(s, n);
    WordPiece(s, n + 1, w);
    Regex.GreedyMatch3(DayMonth.atoms, false, s, b);
  }

  lemma DigitsPiece(s: string, n: nat)
    requires 1 <= n <= 2 && n < |s| && s[n] == ' ' && forall i :: 0 <= i < n ==> Text.IsDigit(s[i])
    ensures Regex.GreedyRun(D12, s, 0) == n
  {
    assert Regex.RunAt(s, Regex.Digit, 0, n);
    Regex.GreedyRunIs(D12, s, 0, n);
  }

  lemma SpacePiece(s: string, n: nat)
    requires n + 1 < |s| && s[n] == ' ' && IsRussianLetter(s[n + 1])
    ensures Regex.GreedyRun(Spaces, s, n) == 1
  {
    assert Regex.RunAt(s, Regex.Space, n, 1);
    Regex.GreedyRunIs(Spaces, s, n, 1);
  }

  lemma WordPiece(s: string, p: nat, w: string)
    requires p + |w| <= |s| && s[p..p + |w|] == w && w != ""
    requires forall i :: 0 <= i < |w| ==> IsRussianLetter(w[i])
    requires p + |w| == |s| || !IsRussianLetter(s[p + |w|])
    ensures Regex.GreedyRun(Word, s, p) == |w|
  {
    assert Regex.RunAt(s, WordClass, p, |w|) by {
      forall j | p <= j < p + |w|
        ensures Regex.InClass(s[j], WordClass)
      {
        assert s[j] == w[j - p];
        WordClassIs(s[j]);
      }
    }
    if p + |w| < |s| {
      WordClassIs(s[p + |w|]);
    }
    Regex.GreedyRunIs(Word, s, p, |w|);
  }

  /** A word lacking the first letter of a key does not contain the key. */
  lemma LacksFirstLetter(word: string, key: string)
    requires key != "" && forall i :: 0 <= i < |word| ==> word[i] != key[0]
    ensures !Text.Contains(word, key)
  {
    forall i | 0 <= i <= |word| - |key|
      ensures !Text.OccursAt(word, key, i)
    {
      assert word[i..i + |key|][0] == word[i];
    }
  }

  /** A word that starts with `мар` and has neither `я` nor `ф` is March: the lookup passes the
      January and February keys (`"марта"`, `"март"`, `"марте"` alike). */
  lemma MonthOfMar(word: string)
    requires |word| >= 3 && word[..3] == "мар"
    requires forall i :: 0 <= i < |word| ==> word[i] != 'я' && word[i] != 'ф'
    ensures MonthOf(word) == Some(3)
  {
    MonthsHead();
    NotFirst(word, 0);
    NotFirst(word, 1);
    NotFirst(word, 2);
    NotFirst(word, 3);
    NotFirst(word, 4);
    NotFirst(word, 5);
    assert Text.OccursAt(word, Months[6].0, 0);
    MonthFromFirst(Months, word, 6, 6);
  }

  /** The first seven entries of the table: the January and February keys, then `"мар"`. */
  lemma MonthsHead()
    ensures forall k :: 0 <= k < 6 ==> Months[k].0 != "" && Months[k].0[0] in {'я', 'ф'}
    ensures Months[6] == ("мар", 3)
  {
  }

  /** Skips table entry `k`, a January or February key, in a word without `я` and `ф`. */
  lemma NotFirst(word: string, k: nat)
    requires k < 6 && forall i :: 0 <= i < |word| ==> word[i] != 'я' && word[i] != 'ф'
    ensures MonthFrom(Months, word, k) == MonthFrom(Months, word, k + 1)
  {
    MonthsHead();
    LacksFirstLetter(word, Months[k].0);
  }

  /** `"5 марта"`: a day and a lower-case March word are that day of March in `currentYear`. */
  lemma DayOfMarch(d: nat, w: string, currentYear: int, fromIso: string -> Option<DateTime>)
    requires 1 <= d <= 31 && 1 <= currentYear <= 9999
    requires |w| >= 3 && w[..3] == "мар"
    requires forall i :: 0 <= i < |w| ==> 'а' <= w[i] < 'я' && w[i] != 'ф'
    ensures ParseDate(Text.NatToString(d) + " " + w, currentYear, fromIso)
      == Some(DateTime(Ymd(currentYear, 3, d), 0, false))
  {
    assert Text.IsLowered(w);
    Text.LoweredFixed(w);
    MonthOfMar(w);
    assert ValidYmd(Ymd(currentYear, 3, d));
    assert Midnight(currentYear, 3, d) == Some(DateTime(Ymd(currentYear, 3, d), 0, false));
    DayMonthUsesCurrentYear(d, w, "", currentYear, fromIso);
    assert Text.NatToString(d) + " " + w + "" == Text.NatToString(d) + " " + w;
  }
}
