/**
 * `HttpDownloader.filter_files_by_date_range`: keep the files whose name
 * carries a date (`YYYY-MM-DD`) or a month (`YYYY-MM`) inside the inclusive
 * range [start, end], and every file whose name carries no usable date.
 * The two token forms are the ISO 8601 complete calendar date in extended
 * format and the reduced-accuracy "specific month".
 */
module DateFilter {
  import opened Wrappers
  import opened Strings
  import opened Lists

  /** A `datetime.date`, compared by year, then month, then day. */
  datatype Date = Date(year: int, month: int, day: int)

  /** `a < b` between dates. */
  predicate Before(a: Date, b: Date)
  {
    a.year < b.year || (a.year == b.year && (a.month < b.month || (a.month == b.month && a.day < b.day)))
  }

  predicate IsLeapYear(y: int)
  {
    y % 4 == 0 && (y % 100 != 0 || y % 400 == 0)
  }

  function DaysInMonth(y: int, m: int): int
    requires 1 <= m <= 12
  {
    if m == 2 then (if IsLeapYear(y) then 29 else 28)
    else if m == 4 || m == 6 || m == 9 || m == 11 then 30
    else 31
  }

  /** What `datetime.date` accepts: a Gregorian date in years 1 to 9999. */
  predicate IsValidDate(d: Date)
  {
    1 <= d.year <= 9999 && 1 <= d.month <= 12 && 1 <= d.day <= DaysInMonth(d.year, d.month)
  }

  /** `d - timedelta(days=1)`. */
  function DayBefore(d: Date): Date
    requires 1 <= d.month <= 12
  {
    if d.day > 1 then Date(d.year, d.month, d.day - 1)
    else if d.month == 1 then Date(d.year - 1, 12, 31)
    else Date(d.year, d.month - 1, DaysInMonth(d.year, d.month - 1))
  }

  /** The first day of the month after (y, m): December rolls over to January of year y + 1. */
  function FirstOfNextMonth(y: int, m: int): Date
  {
    if m == 12 then Date(y + 1, 1, 1) else Date(y, m + 1, 1)
  }

  /** The last day of month (y, m), computed as the day before the first of the next month. */
  function LastDayOfMonth(y: int, m: int): Date
    requires 1 <= m <= 12
  {
    DayBefore(FirstOfNextMonth(y, m))
  }

  /** The rollover computation gives the calendar's last day of the month. */
  lemma LastDayIsMonthLength(y: int, m: int)
    requires 1 <= m <= 12
    ensures LastDayOfMonth(y, m) == Date(y, m, DaysInMonth(y, m))
    ensures IsValidDate(LastDayOfMonth(y, m)) <==> 1 <= y <= 9999
  {
  }

  // ---- Token search ---------------------------------------------------------

  /** The two patterns, tried in this order: `\d{4}-\d{2}-\d{2}`, then `\d{4}-\d{2}`. */
  datatype Pattern = FullDatePattern | YearMonthPattern

  function Width(p: Pattern): nat
  {
    if p == FullDatePattern then 10 else 7
  }

  /** The pattern matches the text that starts at position i. */
  predicate MatchesAt(p: Pattern, s: string, i: nat)
  {
    i + Width(p) <= |s|
    && AllDigits(s[i..i + 4]) && s[i + 4] == '-' && AllDigits(s[i + 5..i + 7])
    && (p == FullDatePattern ==> s[i + 7] == '-' && AllDigits(s[i + 8..i + 10]))
  }

  /** `re.search`: the leftmost position at or after `from` where the pattern matches. */
  function Search(p: Pattern, s: string, from: nat): (r: Option<nat>)
    ensures r.Some? ==> from <= r.value && MatchesAt(p, s, r.value)
    ensures r.Some? ==> forall j :: from <= j < r.value ==> !MatchesAt(p, s, j)
    ensures r.None? ==> forall j :: from <= j ==> !MatchesAt(p, s, j)
    decreases |s| - from
  {
    if from + Width(p) > |s| then None
    else if MatchesAt(p, s, from) then Some(from)
    else Search(p, s, from + 1)
  }

  /** What a file name says about its date. */
  datatype DateToken = FullDate(date: Date) | YearMonth(year: int, month: int) | NoToken

  /** The full-date match wins over the month match; the month pattern is tried only when there is none. */
  function Token(name: string): DateToken
  {
    match Search(FullDatePattern, name, 0)
    case Some(i) =>
      FullDate(Date(DigitsValue(name[i..i + 4]), DigitsValue(name[i + 5..i + 7]), DigitsValue(name[i + 8..i + 10])))
    case None =>
      match Search(YearMonthPattern, name, 0)
      case Some(i) => YearMonth(DigitsValue(name[i..i + 4]), DigitsValue(name[i + 5..i + 7]))
      case None => NoToken
  }

  // ---- Classification -------------------------------------------------------

  /** The date lies outside the inclusive bounds that are set. */
  predicate OutOfRange(d: Date, start: Option<Date>, end: Option<Date>)
  {
    (start.Some? && Before(d, start.value)) || (end.Some? && Before(end.value, d))
  }

  /** A full-date token: a date `strptime` rejects keeps the file, any other is kept when in range. */
  predicate KeepFullDate(d: Date, start: Option<Date>, end: Option<Date>)
  {
    !IsValidDate(d) || !OutOfRange(d, start, end)
  }

  /**
   * A month token: kept when `strptime` rejects `YYYY-MM-01`, when building the
   * first of the next month raises (December 9999), and otherwise unless the
   * whole month ends before start or begins after end.
   */
  predicate KeepMonth(y: int, m: int, start: Option<Date>, end: Option<Date>)
  {
    if !IsValidDate(Date(y, m, 1)) then true
    else if !IsValidDate(FirstOfNextMonth(y, m)) then true
    else
      var first := Date(y, m, 1);
      var last := LastDayOfMonth(y, m);
      !((start.Some? && Before(last, start.value)) || (end.Some? && Before(end.value, first)))
  }

  /** The fate of one file: only the segment after the last "/" is inspected. */
  predicate Keep(file: string, start: Option<Date>, end: Option<Date>)
  {
    match Token(LastSegment(file))
    case FullDate(d) => KeepFullDate(d, start, end)
    case YearMonth(y, m) => KeepMonth(y, m, start, end)
    case NoToken => true
  }

  /** The classification of one file under fixed bounds. */
  function Classifier(start: Option<Date>, end: Option<Date>): string -> bool
  {
    f => Keep(f, start, end)
  }

  /** The files the filter returns. */
  function Filter(files: seq<string>, start: Option<Date>, end: Option<Date>): seq<string>
  {
    Select(files, Classifier(start, end))
  }

  /** The files the filter leaves out. */
  function Excluded(files: seq<string>, start: Option<Date>, end: Option<Date>): seq<string>
  {
    Reject(files, Classifier(start, end))
  }

  /** The filter, as the source runs it: one pass that appends each file to the kept or the excluded list. */
  method FilterFilesByDateRange(files: seq<string>, start: Option<Date>, end: Option<Date>)
    returns (filtered: seq<string>, excluded: seq<string>)
    ensures filtered == Filter(files, start, end)
    ensures excluded == Excluded(files, start, end)
    ensures start.None? && end.None? ==> filtered == files
    ensures multiset(filtered) + multiset(excluded) == multiset(files)
  {
    if start.None? && end.None? {
      NoBoundsKeepsAll(files);
      return files, [];
    }
    var keep := Classifier(start, end);
    filtered, excluded := [], [];
    for i := 0 to |files|
      invariant filtered == Select(files[..i], keep)
      invariant excluded == Reject(files[..i], keep)
    {
      SelectStep(files, i, keep);
      if keep(files[i]) {
        filtered := filtered + [files[i]];
      } else {
        excluded := excluded + [files[i]];
      }
    }
    assert files[..|files|] == files;
    SelectRejectPartition(files, keep);
  }

  // ---- Properties of the filter ----------------------------------------------

  /** With neither bound set every file is kept. */
  lemma KeepWithoutBounds(file: string)
    ensures Keep(file, None, None)
  {
  }

  /** With neither bound set the filter returns its input unchanged and excludes nothing. */
  lemma NoBoundsKeepsAll(files: seq<string>)
    ensures Filter(files, None, None) == files
    ensures Excluded(files, None, None) == []
  {
    var keep := Classifier(None, None);
    forall f | f in files ensures keep(f) {
      KeepWithoutBounds(f);
    }
    SelectAll(files, keep);
  }

  /** A file is in the result exactly when it is in the input and kept. */
  lemma FilterMembership(files: seq<string>, start: Option<Date>, end: Option<Date>, f: string)
    ensures f in Filter(files, start, end) <==> f in files && Keep(f, start, end)
  {
    SelectMembership(files, Classifier(start, end), f);
  }

  /** The filter distributes over concatenation: each file's fate depends on that file alone. */
  lemma FilterAppend(a: seq<string>, b: seq<string>, start: Option<Date>, end: Option<Date>)
    ensures Filter(a + b, start, end) == Filter(a, start, end) + Filter(b, start, end)
  {
    SelectAppend(a, b, Classifier(start, end));
  }

  /** Filtering twice with the same bounds is filtering once. */
  lemma FilterIdempotent(files: seq<string>, start: Option<Date>, end: Option<Date>)
    ensures Filter(Filter(files, start, end), start, end) == Filter(files, start, end)
  {
    SelectIdempotent(files, Classifier(start, end));
  }

  /** The filter's output is an order-preserving subsequence of its input. */
  lemma FilterIsSubsequence(files: seq<string>, start: Option<Date>, end: Option<Date>)
    ensures IsSubsequence(Filter(files, start, end), files)
  {
    SelectIsSubsequence(files, Classifier(start, end));
  }

  // ---- Properties of the classification -------------------------------------

  /** Only the last path segment decides: a file behind any directory is treated as its bare name. */
  lemma OnlyLastSegmentCounts(dir: string, name: string, start: Option<Date>, end: Option<Date>)
    ensures Keep(dir + "/" + name, start, end) <==> Keep(name, start, end)
  {
    LastSegmentAfterSlash(dir, name);
  }

  /** A valid full date is kept exactly when it lies within the inclusive bounds. */
  lemma FullDateRule(file: string, d: Date, start: Option<Date>, end: Option<Date>)
    requires Token(LastSegment(file)) == FullDate(d)
    requires IsValidDate(d)
    ensures !Keep(file, start, end) <==> (start.Some? && Before(d, start.value)) || (end.Some? && Before(end.value, d))
  {
  }

  /** A full-date match that fails calendar validation keeps the file; the month pattern is not tried. */
  lemma InvalidFullDateKept(file: string, start: Option<Date>, end: Option<Date>)
    requires Search(FullDatePattern, LastSegment(file), 0).Some?
    requires Token(LastSegment(file)).FullDate? && !IsValidDate(Token(LastSegment(file)).date)
    ensures Keep(file, start, end)
  {
  }

  /**
   * A month token that is no calendar month (month 00 or 13 to 99, year 0000)
   * keeps the file: parsing its first day raises, and a failure keeps the file.
   */
  lemma InvalidMonthKept(file: string, y: int, m: int, start: Option<Date>, end: Option<Date>)
    requires Token(LastSegment(file)) == YearMonth(y, m)
    requires y < 1 || 9999 < y || m < 1 || 12 < m
    ensures Keep(file, start, end)
  {
  }

  /** A name with neither pattern in it is always kept. */
  lemma NoTokenKept(file: string, start: Option<Date>, end: Option<Date>)
    requires forall j: nat :: !MatchesAt(YearMonthPattern, LastSegment(file), j)
    ensures Token(LastSegment(file)) == NoToken
    ensures Keep(file, start, end)
  {
    var name := LastSegment(file);
    var s := Search(FullDatePattern, name, 0);
    if s.Some? {
      FullDateContainsMonth(name, s.value);
      assert false;
    }
  }

  /** Every full-date match starts with a month match. */
  lemma FullDateContainsMonth(s: string, i: nat)
    requires MatchesAt(FullDatePattern, s, i)
    ensures MatchesAt(YearMonthPattern, s, i)
  {
  }

  /**
   * A month whose first day and the first day of the following month are valid
   * is excluded exactly when it ends before start or begins after end.
   */
  lemma MonthRule(file: string, y: int, m: int, start: Option<Date>, end: Option<Date>)
    requires Token(LastSegment(file)) == YearMonth(y, m)
    requires 1 <= y <= 9999 && 1 <= m <= 12 && !(y == 9999 && m == 12)
    ensures !Keep(file, start, end) <==>
      (start.Some? && Before(Date(y, m, DaysInMonth(y, m)), start.value)) || (end.Some? && Before(end.value, Date(y, m, 1)))
  {
    LastDayIsMonthLength(y, m);
  }

  /** December of year 9999 is always kept: building 10000-01-01 raises, and a failure keeps the file. */
  lemma LastRepresentableMonthKept(file: string, start: Option<Date>, end: Option<Date>)
    requires Token(LastSegment(file)) == YearMonth(9999, 12)
    ensures Keep(file, start, end)
  {
  }

  /** The day lies in the inclusive range [start, end] for the bounds that are set. */
  predicate InRange(d: Date, start: Option<Date>, end: Option<Date>)
  {
    (start.None? || !Before(d, start.value)) && (end.None? || !Before(end.value, d))
  }

  /**
   * For bounds that are real dates with start not after end, a month is kept
   * exactly when some day of the month lies in the range: any overlap suffices.
   */
  lemma MonthKeptIffOverlap(y: int, m: int, start: Option<Date>, end: Option<Date>)
    requires 1 <= y <= 9999 && 1 <= m <= 12 && !(y == 9999 && m == 12)
    requires start.Some? ==> IsValidDate(start.value)
    requires end.Some? ==> IsValidDate(end.value)
    requires start.Some? && end.Some? ==> !Before(end.value, start.value)
    ensures KeepMonth(y, m, start, end) <==> exists day :: 1 <= day <= DaysInMonth(y, m) && InRange(Date(y, m, day), start, end)
  {
    LastDayIsMonthLength(y, m);
    var n := DaysInMonth(y, m);
    if KeepMonth(y, m, start, end) {
      // The earliest day of the month not before start lies in the range.
      var day := if start.Some? && start.value.year == y && start.value.month == m then start.value.day else 1;
      assert InRange(Date(y, m, day), start, end);
    } else {
      forall day | 1 <= day <= n
        ensures !InRange(Date(y, m, day), start, end)
      {
      }
    }
  }

  // ---- Examples from the test suite and boundary cases --------------------------

  /** A name whose leftmost match of a pattern is at position i. */
  lemma SearchFinds(p: Pattern, s: string, i: nat)
    requires MatchesAt(p, s, i)
    requires forall j :: 0 <= j < i ==> !IsDigit(s[j])
    ensures Search(p, s, 0) == Some(i)
  {
    forall j | 0 <= j < i ensures !MatchesAt(p, s, j) {
      assert s[j..j + 4][0] == s[j];
    }
  }

  lemma FourDigits(s: string)
    requires |s| == 4 && AllDigits(s)
    ensures DigitsValue(s) == ((s[0] as int - 48) * 10 + (s[1] as int - 48)) * 100 + (s[2] as int - 48) * 10 + (s[3] as int - 48)
  {
    assert s[..3][..2][..1][..0] == [];
    assert s[..3][..2][..1] == [s[0]];
    assert s[..3][..2] == [s[0], s[1]];
    assert s[..3] == [s[0], s[1], s[2]];
    assert DigitsValue([s[0]]) == s[0] as int - 48;
    assert DigitsValue([s[0], s[1]]) == (s[0] as int - 48) * 10 + (s[1] as int - 48);
    assert DigitsValue(s[..3]) == ((s[0] as int - 48) * 10 + (s[1] as int - 48)) * 10 + (s[2] as int - 48);
  }

  lemma TwoDigits(s: string)
    requires |s| == 2 && AllDigits(s)
    ensures DigitsValue(s) == (s[0] as int - 48) * 10 + (s[1] as int - 48)
  {
    assert s[..1][..0] == [];
    assert s[..1] == [s[0]];
    assert DigitsValue(s[..1]) == s[0] as int - 48;
  }

  /** The token of a name whose leftmost full date is at position i. */
  lemma FullDateTokenAt(name: string, i: nat, d: Date)
    requires Search(FullDatePattern, name, 0) == Some(i)
    requires DigitsValue(name[i..i + 4]) == d.year && DigitsValue(name[i + 5..i + 7]) == d.month
    requires DigitsValue(name[i + 8..i + 10]) == d.day
    ensures Token(name) == FullDate(d)
  {
  }

  /** The token of a name without a full date whose leftmost month is at position i. */
  lemma MonthTokenAt(name: string, i: nat, y: int, m: int)
    requires Search(FullDatePattern, name, 0).None?
    requires Search(YearMonthPattern, name, 0) == Some(i)
    requires DigitsValue(name[i..i + 4]) == y && DigitsValue(name[i + 5..i + 7]) == m
    ensures Token(name) == YearMonth(y, m)
  {
  }

  /** A name without "/" is its own last segment. */
  lemma BareName(name: string)
    requires '/' !in name
    ensures LastSegment(name) == name
  {
    SplitWithoutSeparator(name, '/');
  }

  /** In "BTCUSDT-daily-2020-01-03.zip" the full-date pattern first matches at position 14. */
  lemma DailyExampleMatch(name: string)
    requires name == "BTCUSDT-daily-2020-01-03.zip"
    ensures Search(FullDatePattern, name, 0) == Some(14)
  {
    var date := name[14..24];
    assert date == "2020-01-03";
    assert name[14..18] == date[..4] && name[18] == date[4];
    assert name[19..21] == date[5..7] && name[21] == date[7];
    assert name[22..24] == date[8..];
    assert MatchesAt(FullDatePattern, name, 14);
    var prefix := name[..14];
    assert prefix == "BTCUSDT-daily-";
    forall j | 0 <= j < 14 ensures !IsDigit(name[j]) {
      assert name[j] == prefix[j];
    }
    SearchFinds(FullDatePattern, name, 14);
  }

  /** The digits of "BTCUSDT-daily-2020-01-03.zip" read as year 2020, month 1, day 3. */
  lemma DailyExampleDigits(name: string)
    requires name == "BTCUSDT-daily-2020-01-03.zip"
    ensures DigitsValue(name[14..18]) == 2020 && DigitsValue(name[19..21]) == 1 && DigitsValue(name[22..24]) == 3
  {
    var date := name[14..24];
    assert date == "2020-01-03";
    assert name[14..18] == date[..4] == "2020";
    assert name[19..21] == date[5..7] == "01";
    assert name[22..24] == date[8..] == "03";
    FourDigits("2020");
    TwoDigits("01");
    TwoDigits("03");
  }

  /** "BTCUSDT-daily-2020-01-03.zip" carries the date 2020-01-03. */
  lemma DailyExampleToken(name: string)
    requires name == "BTCUSDT-daily-2020-01-03.zip"
    ensures Token(name) == FullDate(Date(2020, 1, 3))
  {
    DailyExampleMatch(name);
    DailyExampleDigits(name);
    FullDateTokenAt(name, 14, Date(2020, 1, 3));
  }

  /** "X-2020-01.zip" carries the month 2020-01 and no full date. */
  lemma MonthlyExampleToken(name: string)
    requires name == "X-2020-01.zip"
    ensures Token(name) == YearMonth(2020, 1)
  {
    assert MatchesAt(YearMonthPattern, name, 2);
    SearchFinds(YearMonthPattern, name, 2);
    // No full date: every window of ten characters fails somewhere.
    assert !MatchesAt(FullDatePattern, name, 3) by { assert name[3..7][3] == '-'; }
    assert !MatchesAt(FullDatePattern, name, 2) by { assert name[9] == '.'; }
    assert !MatchesAt(FullDatePattern, name, 1) by { assert name[1..5][0] == '-'; }
    assert !MatchesAt(FullDatePattern, name, 0) by { assert name[0..4][0] == 'X'; }
    assert Search(FullDatePattern, name, 4).None?;
    assert Search(FullDatePattern, name, 3).None?;
    assert Search(FullDatePattern, name, 2).None?;
    assert Search(FullDatePattern, name, 1).None?;
    assert Search(FullDatePattern, name, 0).None?;
    assert name[2..6] == "2020" by {
      assert name[2] == '2' && name[3] == '0' && name[4] == '2' && name[5] == '0';
    }
    assert name[7..9] == "01" by { assert name[7] == '0' && name[8] == '1'; }
    FourDigits("2020");
    TwoDigits("01");
    MonthTokenAt(name, 2, 2020, 1);
  }

  /** The bare name "BTCUSDT-daily-2020-01-03.zip" is its own last segment, dated 2020-01-03. */
  lemma DailyExampleDated(file: string)
    requires file == "BTCUSDT-daily-2020-01-03.zip"
    ensures Token(LastSegment(file)) == FullDate(Date(2020, 1, 3))
  {
    BareName(file);
    DailyExampleToken(file);
  }

  /** The start bound is inclusive: a file dated 2020-01-03 is kept for start 2020-01-03 and dropped for start 2020-01-04. */
  lemma StartBoundIsInclusive(file: string)
    requires file == "BTCUSDT-daily-2020-01-03.zip"
    ensures Keep(file, Some(Date(2020, 1, 3)), None)
    ensures !Keep(file, Some(Date(2020, 1, 4)), None)
  {
    DailyExampleDated(file);
  }

  /** The end bound is inclusive: a file dated 2020-01-03 is kept for end 2020-01-03 and dropped for end 2020-01-02. */
  lemma EndBoundIsInclusive(file: string)
    requires file == "BTCUSDT-daily-2020-01-03.zip"
    ensures Keep(file, None, Some(Date(2020, 1, 3)))
    ensures !Keep(file, None, Some(Date(2020, 1, 2)))
  {
    DailyExampleDated(file);
  }

  /** A month overlapping the range is kept; a month wholly before start is dropped. */
  lemma MonthOverlapExample(file: string)
    requires file == "X-2020-01.zip"
    ensures Keep(file, Some(Date(2020, 1, 15)), Some(Date(2020, 1, 20)))
    ensures !Keep(file, Some(Date(2020, 2, 1)), None)
  {
    BareName(file);
    MonthlyExampleToken(file);
  }

  /** An undated name is kept whatever the range. */
  lemma UndatedExample(file: string, start: Option<Date>, end: Option<Date>)
    requires file == "some-other-file.zip"
    ensures Keep(file, start, end)
  {
    BareName(file);
    forall j: nat ensures !MatchesAt(YearMonthPattern, file, j) {
      if j + 7 <= |file| {
        assert !IsDigit(file[j]);
        assert file[j..j + 4][0] == file[j];
      }
    }
    NoTokenKept(file, start, end);
  }
}
