/**
 * The decisions the interactive command line takes between the listings and
 * the downloader: how a typed answer picks an entry of a menu, which prefix
 * is listed for the chosen data type and interval, which entries are files,
 * how data files and their ".CHECKSUM" companions are separated and paired
 * again after date filtering, which files are downloaded, under which URL
 * and file name, and how yes/no prompts are read.
 *
 * Text is ASCII: `int()` is read as an optional sign followed by decimal
 * digits, and `str.lower()` folds only A-Z.
 */
module Cli {
  import opened Wrappers
  import opened Strings
  import opened Lists
  import opened DateFilter
  import opened Checksum
  import opened AvailableData
  import opened Downloader

  // ---------------------------------------------------------------------
  // Numbers typed at a menu
  // ---------------------------------------------------------------------

  /** `int(s)` on ASCII text: an optional "+" or "-", then one or more decimal digits. */
  function ParseInt(s: string): (r: Option<int>)
    ensures r.Some? ==> s != [] && (IsDigit(s[0]) || s[0] == '+' || s[0] == '-')
  {
    if |s| > 1 && (s[0] == '+' || s[0] == '-') && AllDigits(s[1..]) then
      Some(if s[0] == '-' then -(DigitsValue(s[1..]) as int) else DigitsValue(s[1..]))
    else if s != [] && AllDigits(s) then Some(DigitsValue(s))
    else None
  }

  function DigitChar(d: nat): char
    requires d < 10
  {
    ('0' as int + d) as char
  }

  /** `str(n)`: the decimal numeral the menu prints in front of each entry. */
  function Decimal(n: nat): (s: string)
    ensures s != [] && AllDigits(s)
    decreases n
  {
    if n < 10 then [DigitChar(n)] else Decimal(n / 10) + [DigitChar(n % 10)]
  }

  /** Reading back a printed numeral gives the number. */
  lemma {:induction false} DecimalValue(n: nat)
    ensures DigitsValue(Decimal(n)) == n
    decreases n
  {
    if n >= 10 {
      DecimalValue(n / 10);
      var s := Decimal(n);
      assert s[..|s| - 1] == Decimal(n / 10);
    }
  }

  lemma ParseDecimal(n: nat)
    ensures ParseInt(Decimal(n)) == Some(n)
  {
    DecimalValue(n);
  }

  /** Text holding a character that is neither a digit nor a sign is never a number. */
  lemma NamesAreNotNumbers(s: string, k: nat)
    requires k < |s| && !IsDigit(s[k]) && s[k] != '+' && s[k] != '-'
    ensures ParseInt(s).None?
  {
    assert !IsDigit(s[k]);
    if k > 0 {
      assert s[1..][k - 1] == s[k];
    }
  }

  // ---------------------------------------------------------------------
  // `_select_from_list`: one answer at the prompt
  // ---------------------------------------------------------------------

  function CaseMatch(selection: string): string -> bool
  {
    item => Lower(item) == Lower(selection)
  }

  function PartialMatch(selection: string): string -> bool
  {
    item => Contains(Lower(item), Lower(selection))
  }

  /**
   * The entry one answer selects, or None when the prompt asks again. A
   * number is a 1-based position and is never read as a name; otherwise an
   * exact name, then the first name equal ignoring case, then, for answers
   * of three or more characters, the single name containing the answer
   * ignoring case.
   */
  function SelectFromList(items: seq<string>, selection: string): (r: Option<string>)
    ensures r.Some? ==> r.value in items
  {
    match ParseInt(selection)
    case Some(n) => if 1 <= n <= |items| then Some(items[n - 1]) else None
    case None =>
      if selection in items then Some(selection)
      else
        var same := Select(items, CaseMatch(selection));
        if same != [] then
          SelectMembership(items, CaseMatch(selection), same[0]);
          Some(same[0])
        else if |selection| >= 3 then
          var partial := Select(items, PartialMatch(selection));
          if |partial| == 1 then
            SelectMembership(items, PartialMatch(selection), partial[0]);
            Some(partial[0])
          else None
        else None
  }

  /** Typing the number printed in front of an entry selects that entry. */
  lemma ShownNumberSelects(items: seq<string>, i: nat)
    requires i < |items|
    ensures SelectFromList(items, Decimal(i + 1)) == Some(items[i])
  {
    ParseDecimal(i + 1);
  }

  /** A number out of range is refused, even when it is also the name of an entry. */
  lemma OutOfRangeNumberIsRefused(items: seq<string>, selection: string)
    requires ParseInt(selection).Some?
    requires !(1 <= ParseInt(selection).value <= |items|)
    ensures SelectFromList(items, selection).None?
  {
  }

  /** The entry named "0" cannot be chosen by its name: "0" is read as position 0. */
  lemma ZeroNamesNoEntry(items: seq<string>)
    requires "0" in items
    ensures SelectFromList(items, "0").None?
  {
    assert ParseInt("0") == Some(0) by {
      assert AllDigits("0");
      assert "0"[..0] == [];
    }
  }

  /** An answer that is not a number and names an entry selects it. */
  lemma ExactNameSelects(items: seq<string>, selection: string)
    requires ParseInt(selection).None? && selection in items
    ensures SelectFromList(items, selection) == Some(selection)
  {
  }

  /** Failing an exact name, the first entry equal to the answer ignoring case is selected. */
  lemma FirstCaseInsensitiveMatchSelects(items: seq<string>, selection: string, j: nat)
    requires ParseInt(selection).None? && selection !in items
    requires j < |items| && Lower(items[j]) == Lower(selection)
    requires forall i :: 0 <= i < j ==> Lower(items[i]) != Lower(selection)
    ensures SelectFromList(items, selection) == Some(items[j])
  {
    var keep := CaseMatch(selection);
    SelectMembership(items, keep, items[j]);
    var same := Select(items, keep);
    SelectHeadIsFirst(items, keep);
    var k :| 0 <= k < |items| && items[k] == same[0] && keep(items[k])
      && forall i :: 0 <= i < k ==> !keep(items[i]);
    assert keep(items[j]) && keep(items[k]);
  }

  /** Without an exact or case-insensitive match, an entry is selected only by a partial match of three or more characters found in exactly one entry. */
  lemma PartialSelectionIsUnique(items: seq<string>, selection: string)
    requires ParseInt(selection).None? && selection !in items
    requires forall i :: 0 <= i < |items| ==> Lower(items[i]) != Lower(selection)
    requires SelectFromList(items, selection).Some?
    ensures |selection| >= 3
    ensures exists j :: (0 <= j < |items| && items[j] == SelectFromList(items, selection).value
                         && Contains(Lower(items[j]), Lower(selection))
                         && forall i :: 0 <= i < |items| && i != j ==> !Contains(Lower(items[i]), Lower(selection)))
  {
    SelectNothing(items, CaseMatch(selection));
    SelectSingleton(items, PartialMatch(selection));
  }

  /** An answer of three or more characters found, ignoring case, in exactly one entry selects it. */
  lemma UniquePartialMatchSelects(items: seq<string>, selection: string, j: nat)
    requires ParseInt(selection).None? && selection !in items
    requires forall i :: 0 <= i < |items| ==> Lower(items[i]) != Lower(selection)
    requires |selection| >= 3
    requires j < |items| && Contains(Lower(items[j]), Lower(selection))
    requires forall i :: 0 <= i < |items| && i != j ==> !Contains(Lower(items[i]), Lower(selection))
    ensures SelectFromList(items, selection) == Some(items[j])
  {
    SelectNothing(items, CaseMatch(selection));
    SelectUnique(items, PartialMatch(selection), j);
  }

  // ---------------------------------------------------------------------
  // Listing prefixes
  // ---------------------------------------------------------------------

  /** Each segment followed by "/". */
  function Trail(segs: seq<string>): (t: string)
    decreases |segs|
  {
    if segs == [] then "" else segs[0] + "/" + Trail(segs[1..])
  }

  lemma {:induction false} SplitTrail(segs: seq<string>)
    requires SlashFree(segs)
    ensures Split(Trail(segs), '/') == segs + [""]
    decreases |segs|
  {
    if segs != [] {
      assert SlashFree(segs[1..]) by {
        forall k | 0 <= k < |segs[1..]| ensures '/' !in segs[1..][k] {
          assert segs[1..][k] == segs[k + 1];
        }
      }
      SplitTrail(segs[1..]);
      SplitAround(segs[0], '/', Trail(segs[1..]));
      SplitWithoutSeparator(segs[0], '/');
      assert Trail(segs) == segs[0] + "/" + Trail(segs[1..]);
    }
  }

  /**
   * The prefix listed for a data type and interval, followed by the segments
   * chosen below them (symbol, trading pair, time interval). A futures
   * interval "subtype/interval" is split, and one with more than one "/"
   * makes the unpacking fail.
   */
  function ListingPath(dataType: string, interval: string, below: seq<string>): (r: Option<string>)
  {
    if dataType == "futures" && '/' in interval then
      var parts := Split(interval, '/');
      if |parts| != 2 then None
      else Some("data/" + dataType + "/" + parts[0] + "/" + parts[1] + "/" + Trail(below))
    else Some("data/" + dataType + "/" + interval + "/" + Trail(below))
  }

  /** The path is refused exactly for a futures interval with more than one "/". */
  lemma ListingPathFails(dataType: string, interval: string, below: seq<string>)
    ensures ListingPath(dataType, interval, below).None? <==> dataType == "futures" && |Split(interval, '/')| > 2
  {
    SlashMeansSeveralParts(interval);
  }

  /** Splitting the futures interval and writing it back out gives the generic path. */
  lemma FuturesPathIsGeneric(dataType: string, interval: string, below: seq<string>)
    requires ListingPath(dataType, interval, below).Some?
    ensures ListingPath(dataType, interval, below).value == "data/" + dataType + "/" + interval + "/" + Trail(below)
  {
    if dataType == "futures" && '/' in interval {
      FuturesSymbolsPath(interval);
    }
  }

  /** The path names exactly the chosen segments, in order, and ends with "/". */
  lemma ListingPathSegments(dataType: string, interval: string, below: seq<string>)
    requires '/' !in dataType && SlashFree(below)
    requires ListingPath(dataType, interval, below).Some?
    ensures Split(ListingPath(dataType, interval, below).value, '/')
         == ["data", dataType] + Split(interval, '/') + below + [""]
  {
    FuturesPathIsGeneric(dataType, interval, below);
    PathSegments(dataType, interval, below);
  }

  /** The segments of `data/<type>/<interval>/<below...>/`. */
  lemma PathSegments(dataType: string, interval: string, below: seq<string>)
    requires '/' !in dataType && SlashFree(below)
    ensures Split("data/" + dataType + "/" + interval + "/" + Trail(below), '/')
         == ["data", dataType] + Split(interval, '/') + below + [""]
  {
    var typeDir := "data" + "/" + dataType;
    var intervalDir := typeDir + "/" + interval;
    assert "data/" + dataType == typeDir by { assert "data/" == "data" + "/"; }
    SplitTrail(below);
    SplitAround(intervalDir, '/', Trail(below));
    SplitAround(typeDir, '/', interval);
    SplitAround("data", '/', dataType);
    SplitWithoutSeparator("data", '/');
    SplitWithoutSeparator(dataType, '/');
    assert Split(typeDir, '/') == ["data", dataType];
  }

  /** Every listed path starts with "data/" and ends with "/". */
  lemma ListingPathShape(dataType: string, interval: string, below: seq<string>)
    requires ListingPath(dataType, interval, below).Some?
    ensures StartsWith(ListingPath(dataType, interval, below).value, "data/")
    ensures EndsWith(ListingPath(dataType, interval, below).value, "/")
  {
    FuturesPathIsGeneric(dataType, interval, below);
    var head := "data/" + dataType + "/" + interval + "/";
    assert (head + Trail(below))[..5] == "data/";
    TrailShape(below);
  }

  lemma {:induction false} TrailShape(segs: seq<string>)
    ensures segs != [] ==> EndsWith(Trail(segs), "/")
    ensures forall head: string :: EndsWith(head, "/") ==> EndsWith(head + Trail(segs), "/")
    decreases |segs|
  {
    if segs != [] {
      TrailShape(segs[1..]);
      var t := Trail(segs);
      if segs[1..] == [] {
        assert t == segs[0] + "/";
      } else {
        assert t == (segs[0] + "/") + Trail(segs[1..]);
      }
      forall head: string | EndsWith(head, "/") ensures EndsWith(head + t, "/") {
        assert (head + t)[|head + t| - 1..] == t[|t| - 1..];
      }
    }
  }

  // ---------------------------------------------------------------------
  // Files, data files and checksum files
  // ---------------------------------------------------------------------

  /** `"." in entry.split("/")[-1]`: the entry names a file. */
  predicate IsFile(entry: string)
  {
    '.' in LastSegment(entry)
  }

  /** The entries of a listing that name files, in listing order. */
  function Files(entries: seq<string>): seq<string>
  {
    Select(entries, e => IsFile(e))
  }

  /** A directory entry, which ends in "/", is never taken for a file. */
  lemma DirectoriesAreNotFiles(entries: seq<string>, entry: string)
    requires EndsWith(entry, "/")
    ensures entry !in Files(entries)
  {
    SelectMembership(entries, e => IsFile(e), entry);
    assert entry == entry[..|entry| - 1] + "/" + "";
    LastSegmentAfterSlash(entry[..|entry| - 1], "");
  }

  /** A file is kept exactly when it is listed and its name has a dot. */
  lemma FileMembership(entries: seq<string>, entry: string)
    ensures entry in Files(entries) <==> entry in entries && IsFile(entry)
  {
    SelectMembership(entries, e => IsFile(e), entry);
  }

  predicate IsChecksumFile(file: string)
  {
    EndsWith(file, ChecksumSuffix)
  }

  function ChecksumTest(): string -> bool
  {
    f => IsChecksumFile(f)
  }

  /** `[f for f in files if not f.endswith(".CHECKSUM")]`. */
  function DataFiles(files: seq<string>): seq<string>
  {
    Reject(files, ChecksumTest())
  }

  /** `[f for f in files if f.endswith(".CHECKSUM")]`. */
  function ChecksumFiles(files: seq<string>): seq<string>
  {
    Select(files, ChecksumTest())
  }

  /** Every file lands in exactly one of the two lists, decided by its suffix. */
  lemma FilesArePartitioned(files: seq<string>, f: string)
    ensures multiset(DataFiles(files)) + multiset(ChecksumFiles(files)) == multiset(files)
    ensures f in DataFiles(files) <==> f in files && !IsChecksumFile(f)
    ensures f in ChecksumFiles(files) <==> f in files && IsChecksumFile(f)
  {
    SelectRejectPartition(files, ChecksumTest());
    RejectMembership(files, ChecksumTest(), f);
    SelectMembership(files, ChecksumTest(), f);
  }

  // ---------------------------------------------------------------------
  // Pairing checksum files with the data files kept by the date filter
  // ---------------------------------------------------------------------

  /** `f + ".CHECKSUM"` for each data file whose companion was listed, in data-file order. */
  function Companions(dataFiles: seq<string>, files: seq<string>): (r: seq<string>)
    ensures |r| <= |dataFiles|
    decreases |dataFiles|
  {
    if dataFiles == [] then []
    else
      var last := CompanionPath(dataFiles[|dataFiles| - 1]);
      Companions(dataFiles[..|dataFiles| - 1], files) + (if last in files then [last] else [])
  }

  /** The loop that rebuilds `checksum_files` after date filtering. */
  method PairChecksums(dataFiles: seq<string>, files: seq<string>) returns (checksums: seq<string>)
    ensures checksums == Companions(dataFiles, files)
  {
    checksums := [];
    for i := 0 to |dataFiles|
      invariant checksums == Companions(dataFiles[..i], files)
    {
      assert dataFiles[..i + 1][..i] == dataFiles[..i];
      var checksumFile := CompanionPath(dataFiles[i]);
      if checksumFile in files {
        checksums := checksums + [checksumFile];
      }
    }
    assert dataFiles[..|dataFiles|] == dataFiles;
  }

  /** A companion is listed exactly when it is a listed file named after a kept data file. */
  lemma {:induction false} CompanionMembership(dataFiles: seq<string>, files: seq<string>, c: string)
    ensures c in Companions(dataFiles, files) <==> c in files && exists f :: f in dataFiles && c == CompanionPath(f)
    decreases |dataFiles|
  {
    if dataFiles != [] {
      var init := dataFiles[..|dataFiles| - 1];
      CompanionMembership(init, files, c);
      assert dataFiles == init + [dataFiles[|dataFiles| - 1]];
    }
  }

  /** Every rebuilt companion is one of the listed checksum files. */
  lemma CompanionsAreChecksumFiles(dataFiles: seq<string>, files: seq<string>, c: string)
    requires c in Companions(dataFiles, files)
    ensures c in ChecksumFiles(files)
  {
    CompanionMembership(dataFiles, files, c);
    var f :| f in dataFiles && c == CompanionPath(f);
    FilesArePartitioned(files, c);
  }

  // ---------------------------------------------------------------------
  // The download list
  // ---------------------------------------------------------------------

  predicate HasRange(start: Option<Date>, end: Option<Date>)
  {
    start.Some? || end.Some?
  }

  /** The data files kept for download. */
  function KeptDataFiles(files: seq<string>, start: Option<Date>, end: Option<Date>): seq<string>
  {
    if HasRange(start, end) then Filter(DataFiles(files), start, end) else DataFiles(files)
  }

  /** The checksum files kept for download when checksums are verified. */
  function KeptChecksumFiles(files: seq<string>, start: Option<Date>, end: Option<Date>): seq<string>
  {
    if HasRange(start, end) then Companions(KeptDataFiles(files, start, end), files) else ChecksumFiles(files)
  }

  /** The data files, followed by the checksum files only when checksums are verified. */
  function DownloadList(files: seq<string>, start: Option<Date>, end: Option<Date>, verify: bool): seq<string>
  {
    KeptDataFiles(files, start, end) + (if verify then KeptChecksumFiles(files, start, end) else [])
  }

  /** From the listed files to `files_to_download`: partition, date filter, pairing, assembly. */
  method FilesToDownload(files: seq<string>, start: Option<Date>, end: Option<Date>, verify: bool)
    returns (download: seq<string>)
    ensures download == DownloadList(files, start, end, verify)
  {
    var dataFiles := DataFiles(files);
    var checksumFiles := ChecksumFiles(files);
    if HasRange(start, end) {
      var excluded;
      dataFiles, excluded := FilterFilesByDateRange(dataFiles, start, end);
      checksumFiles := PairChecksums(dataFiles, files);
    }
    download := dataFiles;
    if verify {
      download := download + checksumFiles;
    }
  }

  /** A listed data file is downloaded exactly when no range is given or the date filter keeps it. */
  lemma DataFileDownloaded(files: seq<string>, start: Option<Date>, end: Option<Date>, verify: bool, f: string)
    requires f in files && !IsChecksumFile(f)
    ensures f in DownloadList(files, start, end, verify) <==> !HasRange(start, end) || Keep(f, start, end)
  {
    FilesArePartitioned(files, f);
    FilterMembership(DataFiles(files), start, end, f);
    if verify && f in KeptChecksumFiles(files, start, end) {
      if HasRange(start, end) {
        CompanionsAreChecksumFiles(KeptDataFiles(files, start, end), files, f);
      }
      FilesArePartitioned(files, f);
    }
  }

  /**
   * A listed checksum file is downloaded exactly when checksums are verified
   * and, under a date range, it is the companion of a data file the filter kept.
   */
  lemma ChecksumFileDownloaded(files: seq<string>, start: Option<Date>, end: Option<Date>, verify: bool, c: string)
    requires c in files && IsChecksumFile(c)
    ensures c in DownloadList(files, start, end, verify)
        <==> verify && (!HasRange(start, end) || exists f :: f in KeptDataFiles(files, start, end) && c == CompanionPath(f))
  {
    FilesArePartitioned(files, c);
    if HasRange(start, end) {
      FilterMembership(DataFiles(files), start, end, c);
      CompanionMembership(KeptDataFiles(files, start, end), files, c);
    }
  }

  /** Under a date range, a downloaded checksum file always comes with its data file. */
  lemma ChecksumFilesArePaired(files: seq<string>, start: Option<Date>, end: Option<Date>, verify: bool, c: string)
    requires HasRange(start, end)
    requires c in KeptChecksumFiles(files, start, end)
    ensures exists f :: f in DownloadList(files, start, end, verify) && c == CompanionPath(f)
  {
    CompanionMembership(KeptDataFiles(files, start, end), files, c);
    var f :| f in KeptDataFiles(files, start, end) && c == CompanionPath(f);
    assert f in DownloadList(files, start, end, verify);
  }

  /** Everything downloaded was listed. */
  lemma DownloadsWereListed(files: seq<string>, start: Option<Date>, end: Option<Date>, verify: bool, f: string)
    requires f in DownloadList(files, start, end, verify)
    ensures f in files
  {
    FilesArePartitioned(files, f);
    if f in KeptDataFiles(files, start, end) {
      FilterMembership(DataFiles(files), start, end, f);
    } else if HasRange(start, end) {
      CompanionsAreChecksumFiles(KeptDataFiles(files, start, end), files, f);
    }
  }

  // ---------------------------------------------------------------------
  // URLs and where they are saved
  // ---------------------------------------------------------------------

  const DownloadUrlPrefix: string := "https://data.binance.vision/"

  /** `[prefix + file for file in files]`. */
  function DownloadUrls(prefix: string, files: seq<string>): (urls: seq<string>)
    ensures |urls| == |files|
    ensures forall i :: 0 <= i < |files| ==>
      |urls[i]| == |prefix| + |files[i]| && urls[i][..|prefix|] == prefix && urls[i][|prefix|..] == files[i]
  {
    seq(|files|, i requires 0 <= i < |files| => prefix + files[i])
  }

  /** A file downloaded from the Binance prefix is saved under its own name in the output directory. */
  lemma SavedUnderOwnName(outputDir: string, file: string)
    ensures OutputPathFor(outputDir, DownloadUrlPrefix + file) == JoinPath(outputDir, LastSegment(file))
  {
    assert DownloadUrlPrefix + file == "https://data.binance.vision" + "/" + file;
    LastSegmentAfterSlash("https://data.binance.vision", file);
  }

  // ---------------------------------------------------------------------
  // Yes/no prompts
  // ---------------------------------------------------------------------

  const VerifyByDefault := true      // "Verify checksums? (Y/n)"
  const ExtractByDefault := true     // "Extract downloaded files? (Y/n)"
  const CustomDirectoryByDefault := false   // "Use custom extraction directory? (y/N)"

  /** An empty answer takes the default; any other is yes when its lower-case form is listed. */
  function YesNo(answer: string, default: bool): bool
  {
    if answer == "" then default else Lower(answer) in ["y", "yes", "Y"]
  }

  lemma LowerHasNoCapitals(s: string)
    ensures forall i :: 0 <= i < |s| ==> !('A' <= Lower(s)[i] <= 'Z')
  {
  }

  /** A non-empty answer means yes exactly when it is "y" or "yes" in any mix of cases; the listed "Y" can never match. */
  lemma YesNoMeaning(answer: string, default: bool)
    requires answer != ""
    ensures YesNo(answer, default) <==> Lower(answer) == "y" || Lower(answer) == "yes"
  {
    LowerHasNoCapitals(answer);
    assert Lower(answer) != "Y" by {
      if |Lower(answer)| == 1 {
        assert Lower(answer)[0] != 'Y';
      }
    }
  }

  /** Answers that differ only in case are read alike. */
  lemma YesNoIgnoresCase(answer: string, default: bool)
    ensures YesNo(Lower(answer), default) == YesNo(answer, default)
  {
    assert Lower(Lower(answer)) == Lower(answer);
  }

  /** Pressing Enter accepts the default: verify and extract, but no custom directory. */
  lemma EmptyAnswerDefaults()
    ensures YesNo("", VerifyByDefault) && YesNo("", ExtractByDefault) && !YesNo("", CustomDirectoryByDefault)
  {
  }
}
