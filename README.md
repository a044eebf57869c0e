# Binance data downloader: a verified model

The downloader fetches historical market data from the public Binance
archive (`https://data.binance.vision/`). It works in four stages:

1. It lists the archive bucket's directory tree, an S3-style XML listing
   that is paginated with markers and retried.
2. It lets the user walk down data type → interval → symbol → trading pair
   → time interval.
3. It builds the download list. Directories are dropped, data files are
   separated from their `.CHECKSUM` companions, data files are filtered by
   the date in their names, and each kept data file gets its companion.
4. It downloads every file with retries and exponential backoff,
   optionally verifying each data file against the SHA-256 digest in its
   companion.

This project models those stages in Dafny and proves what they promise.

| file | module | models |
|---|---|---|
| `wrappers.dfy` | `Wrappers` | `Option` and `Result` |
| `strings.dfy` | `Strings` | Python's `str.split`/`join` on `/`, last path segment, `path.split("/")[-2]`, prefix/suffix/substring tests, ASCII `lower()`, digit strings |
| `lists.dfy` | `Lists` | order-preserving filters (list comprehensions with a condition) and their algebra |
| `backoff.dfy` | `Backoff` | the `2**attempt` waits shared by both retry loops |
| `checksum.dfy` | `Checksum` | `CheckSum.verify_checksum` over a file system given as a map from paths to bytes |
| `downloader.dfy` | `Downloader` | `download_file`'s retry/verify loop against a scripted server, and `download_files`'s output paths, progress percentage, completion reports, result dictionary and the disk the tasks leave in completion order |
| `date_filter.dfy` | `DateFilter` | `filter_files_by_date_range`: the `YYYY-MM-DD` and `YYYY-MM` name patterns, calendar arithmetic, the keep rules and the loop |
| `listing.dfy` | `DirectoryTree` | `_get` with its retries, and `get_directory_tree`: XML pages, `CommonPrefixes`/`Contents`, `IsTruncated`/`NextMarker` pagination, the empty-result retry passes |
| `available.dfy` | `AvailableData` | `get_available_data_types`, `get_available_intervals` (including futures `cm`/`um` subtypes) and `get_available_symbols` |
| `cli.dfy` | `Cli` | `_select_from_list`, listing paths, directory and file filters, the data/checksum partition, checksum pairing, the download list, URLs, yes/no answers |

Randomness, clocks, the network and the disk are parameters. A server is
a script of replies. A wait is recorded as a number instead of being
slept. SHA-256 is a function parameter `hexDigest`. The file system is a
`map<string, seq<Byte>>`. A directory listing is a function from path to
`Result`.

## Model

| member | source | states |
|---|---|---|
| Backoff.TotalWait | src/downloader/http_downloader.py:142-146 | the waits 1, 2, …, 2^(n-1) before n retries add up to 2^n − 1 |
| Backoff.DelaysDouble | src/directory_tree/binance.py:48-54 | each wait is twice the previous one |
| Checksum.CompanionPath | src/downloader/checksum.py:9 | the companion path is the data path followed by `.CHECKSUM` |
| Checksum.DecodeAscii | src/downloader/checksum.py:15-16 | decoding succeeds iff every byte is ASCII, and then keeps every byte as its character |
| Checksum.DecodeEncode | src/downloader/checksum.py:15-16 | decoding the bytes of an ASCII text gives the text back |
| Checksum.Tokens | src/downloader/checksum.py:17 | whitespace splitting yields only non-empty, whitespace-free words |
| Checksum.TokensSkipSpace | src/downloader/checksum.py:17 | leading whitespace does not change the split |
| Checksum.TwoTokens | src/downloader/checksum.py:17 | `digest<spaces>name` splits into exactly the digest and the name |
| Checksum.StripTrailing | src/downloader/checksum.py:17 | `strip()` removes trailing whitespace such as the final newline |
| Checksum.CompanionTokens | src/downloader/checksum.py:14-17 | a companion in the archive's layout splits into `[digest, name]` |
| Checksum.VerifyChecksum | src/downloader/checksum.py:8-30 | a missing companion gives false; a failure is only possible when the data file is missing; true needs both files |
| Checksum.MatchingCompanionVerifies | src/downloader/checksum.py:22-30 | a companion holding the data's digest verifies |
| Checksum.MismatchingCompanionFails | src/downloader/checksum.py:26-28 | a companion holding any other digest fails |
| Checksum.WrittenCompanionVerdict | src/downloader/checksum.py:8-30 | after the companion is written, the verdict is exactly "digest equals claim" (or the missing-data-file error) |
| Checksum.LabelIsIgnored | src/downloader/checksum.py:17 | the file name in the companion's second column does not affect the verdict |
| Checksum.TokenCountMustBeTwo | src/downloader/checksum.py:17-20 | a companion that does not split into exactly two words fails |
| Checksum.UpperCaseDigestFails | src/downloader/checksum.py:24-26 | comparison is case-sensitive: an upper-case hex digit in the claim fails against `hexdigest()` |
| Checksum.VerdictIsLocal | src/downloader/checksum.py:8-30 | the verdict depends only on the data file and its companion |
| Downloader.Attempt | src/downloader/http_downloader.py:82-134 | the attempt ends with the outcome `Outcome` assigns to its exchange and leaves exactly the disk `AttemptDisk` describes: a refused request changes nothing; a broken stream leaves its partial body; a delivered body is saved, together with the companion when it is checked and matches; a companion failure leaves the unverified body; a mismatch deletes both files |
| Downloader.AttemptDiskFacts | src/downloader/http_downloader.py:92-134 | an attempt touches only the output file and its companion, leaves there the partial body, the delivered body, the checked companion or (after a mismatch) nothing, and a verified checked pair passes `verify_checksum` again |
| Downloader.DiskAfterFrame | src/downloader/http_downloader.py:81-153 | however many attempts run, only the output file and its companion change |
| Downloader.AttemptsUsedIs | src/downloader/http_downloader.py:81-134 | the loop runs attempts up to and including the first verified one, or all retry_count + 1 of them |
| Downloader.PartialSurvivesRefusal | src/downloader/http_downloader.py:92-151 | a broken stream followed by a refused final attempt leaves the partial body at the output path |
| Downloader.DownloadSucceedsIff | src/downloader/http_downloader.py:81-153 | `download_file` succeeds exactly when one of the retry_count + 1 allowed attempts verifies |
| Downloader.DownloadFile | src/downloader/http_downloader.py:81-153 | True iff one of the retry_count + 1 attempts verifies (`DownloadSucceeds`), and the loop stops at the first that does; a False result uses every attempt; waits follow the backoff rule; the final disk is every attempt run applied in turn (`DiskAfter`), so only the output path and its companion change and they hold what the last attempt left; on success the saved file is the delivered body and (when checked) verifies |
| Downloader.UncheckedAttempt | src/downloader/http_downloader.py:104-105 | without verification (or for a `.CHECKSUM` URL) an attempt succeeds iff the body was delivered |
| Downloader.HonestServerVerifies | src/downloader/http_downloader.py:104-134 | a server that sends the body and its true digest makes the attempt verify |
| Downloader.NoWaitWithoutTransportFailure | src/downloader/http_downloader.py:117-132 | checksum mismatches and companion failures retry at once, without a wait |
| Downloader.WaitsAreExponential | src/downloader/http_downloader.py:136-146 | consecutive transport failures wait 1, 2, 4, … seconds |
| Downloader.NoWaitAfterFinalAttempt | src/downloader/http_downloader.py:147-151 | the last attempt's failure is not followed by a wait |
| Downloader.TotalSleepBound | src/downloader/http_downloader.py:136-151 | the total sleep over n attempts is below 2^n seconds |
| Downloader.JoinPathEnds | src/downloader/http_downloader.py:198 | the joined path starts with the directory and ends with the file name |
| Downloader.OutputPathKeepsName | src/downloader/http_downloader.py:197-198 | the output file has the URL's base name |
| Downloader.Percentage | src/downloader/http_downloader.py:205-208 | a percentage exists iff the total size is positive; it is at most 100, and is 100 iff everything was downloaded |
| Downloader.PercentReachesHundred | src/downloader/http_downloader.py:207 | the raw ratio reaches 100 exactly when the download is complete |
| Downloader.PercentageMonotone | src/downloader/http_downloader.py:207 | the percentage never decreases as bytes arrive |
| Downloader.CollectedKeys | src/downloader/http_downloader.py:245-247 | the result dictionary has exactly the URLs of the tasks collected so far |
| Downloader.CollectedLastWins | src/downloader/http_downloader.py:247 | a URL maps to the result of its last completed task |
| Downloader.AllUrlsCollected | src/downloader/http_downloader.py:240-249 | after all tasks complete, the dictionary's keys are exactly the requested URLs |
| Downloader.Reports | src/downloader/http_downloader.py:228-235 | the k-th completion report carries count k, the total and the URL completed k-th |
| Downloader.RunTask | src/downloader/http_downloader.py:193-237 | a task's result is `download_file`'s verdict for its URL and the output path in the output directory, and the disk after it is what that call's attempts leave (`TaskDisk`) |
| Downloader.TaskDiskFrame | src/downloader/http_downloader.py:196-226 | a task changes only its own output file and the companion beside it |
| Downloader.TaskDiskLeft | src/downloader/http_downloader.py:196-226 | after a task its output file and companion hold what its last attempt left |
| Downloader.VerdictsAre | src/downloader/http_downloader.py:221-247 | the k-th stored verdict is `download_file`'s verdict for the task completed k-th |
| Downloader.DownloadFiles | src/downloader/http_downloader.py:155-249 | each task's stored result is `download_file`'s verdict for its URL with its own server script; the dictionary is those results collected in completion order, keyed by exactly the requested URLs; reports follow completion order; the final disk is the tasks' effects applied in completion order (`FilesDisk`) |
| Downloader.FilesDiskFrame | src/downloader/http_downloader.py:196-249 | the downloads change no path other than the URLs' output files and their companions |
| Downloader.TaskLeftSurvives | src/downloader/http_downloader.py:196-249 | once all tasks complete, a task whose output file and companion no later task writes still holds what its own last attempt left |
| DateFilter.LastDayIsMonthLength | src/downloader/http_downloader.py:328-335 | the day before the first of next month is the month's last day, which is valid for years 1..9999 |
| DateFilter.Search | src/downloader/http_downloader.py:281-283 | a pattern search returns the leftmost match, or none when there is no match |
| DateFilter.SearchFinds | src/downloader/http_downloader.py:281-283 | a match preceded by no digit is the one found |
| DateFilter.FullDateTokenAt | src/downloader/http_downloader.py:285-291 | the first `YYYY-MM-DD` match is read as the file's date |
| DateFilter.MonthTokenAt | src/downloader/http_downloader.py:317-324 | without a full date, the first `YYYY-MM` match is read as the file's month |
| DateFilter.FullDateContainsMonth | src/downloader/http_downloader.py:281-283 | every full date also matches the month pattern, so the full date takes priority |
| DateFilter.FilterFilesByDateRange | src/downloader/http_downloader.py:267-369 | the loop returns exactly the kept files in order, and the excluded ones are the rest; without bounds the input comes back |
| DateFilter.KeepWithoutBounds | src/downloader/http_downloader.py:267-269 | with no start and no end every file is kept |
| DateFilter.NoBoundsKeepsAll | src/downloader/http_downloader.py:267-269 | with no bounds the filter is the identity and excludes nothing |
| DateFilter.FilterMembership | src/downloader/http_downloader.py:274-369 | a file is in the result iff it is in the input and kept |
| DateFilter.FilterAppend | src/downloader/http_downloader.py:274-369 | files are judged independently: filtering distributes over concatenation |
| DateFilter.FilterIdempotent | src/downloader/http_downloader.py:274-369 | filtering twice equals filtering once |
| DateFilter.FilterIsSubsequence | src/downloader/http_downloader.py:274-369 | the result keeps the input's order |
| DateFilter.OnlyLastSegmentCounts | src/downloader/http_downloader.py:278 | only the file name after the last `/` decides |
| DateFilter.FullDateRule | src/downloader/http_downloader.py:285-310 | a dated file is excluded iff its date is before the start or after the end (both bounds inclusive) |
| DateFilter.InvalidFullDateKept | src/downloader/http_downloader.py:311-316 | a full date that is not a calendar date keeps the file |
| DateFilter.InvalidMonthKept | src/downloader/http_downloader.py:317-360 | a month token that is no calendar month (month 00 or above 12, year 0000) keeps the file |
| DateFilter.NoTokenKept | src/downloader/http_downloader.py:361-364 | a name with no date keeps the file |
| DateFilter.MonthRule | src/downloader/http_downloader.py:317-354 | a monthly file is excluded iff its last day is before the start or its first day is after the end |
| DateFilter.LastRepresentableMonthKept | src/downloader/http_downloader.py:328-331 | December 9999 cannot compute its next month and the file is kept |
| DateFilter.MonthKeptIffOverlap | src/downloader/http_downloader.py:337-349 | for valid ordered bounds, a month is kept iff some day of it lies in the range |
| DateFilter.DailyExampleToken | tests/test_downloader.py:29-50 | `BTCUSDT-daily-2020-01-03.zip` is dated 2020-01-03 |
| DateFilter.MonthlyExampleToken | src/downloader/http_downloader.py:317-324 | `X-2020-01.zip` is read as month 2020-01 |
| DateFilter.StartBoundIsInclusive | tests/test_downloader.py:29-50 | a file dated on the start day is kept, the day before the start excludes it |
| DateFilter.EndBoundIsInclusive | tests/test_downloader.py:52-61 | a file dated on the end day is kept, an earlier end excludes it |
| DateFilter.MonthOverlapExample | src/downloader/http_downloader.py:337-349 | a month overlapping the range is kept; a month before the start is excluded |
| DateFilter.UndatedExample | tests/test_downloader.py:50 | `some-other-file.zip` is kept whatever the range |
| DirectoryTree.Get | src/directory_tree/binance.py:23-62 | up to 4 requests; all but the last failed at HTTP level; success iff the last reply had a body, which is returned; a request failure means every attempt was used; waits are 1, 2, 4 |
| DirectoryTree.SingleAsList | src/directory_tree/binance.py:131-158 | a single `Prefix`/`Key` is treated like a one-element list |
| DirectoryTree.ParsePage | src/directory_tree/binance.py:113-120 | a page parses only when it has `ListBucketResult` and `IsTruncated` |
| DirectoryTree.NextUrl | src/directory_tree/binance.py:160-171 | another page is requested iff the page is truncated and has `NextMarker`, at base URL + `&marker=` + the marker |
| DirectoryTree.ListingUrl | src/directory_tree/binance.py:74 | the listing URL starts with the bucket endpoint and ends with the prefix |
| DirectoryTree.Walk | src/directory_tree/binance.py:103-171 | the pagination loop computes the walk specification: the entries, the requested URLs and the waits |
| DirectoryTree.PrependTwice | src/directory_tree/binance.py:103-171 | the entries of consecutive pages concatenate |
| DirectoryTree.WalkOverChain | src/directory_tree/binance.py:103-171 | over a marker chain of pages, the walk returns all pages' prefixes and keys in order, requesting each page's URL once |
| DirectoryTree.WalkConcatenatesPages | src/directory_tree/binance.py:103-171 | from any page of a chain onward, the walk concatenates the remaining pages |
| DirectoryTree.GetDirectoryTree | src/directory_tree/binance.py:64-183 | the retry-pass loop computes the tree specification |
| DirectoryTree.EarlyStopMeansAnswer | src/directory_tree/binance.py:173-175 | passes stop early only on an error or a non-empty result |
| DirectoryTree.EmptyAnswerUsedEveryPass | src/directory_tree/binance.py:90-100 | an empty final answer means all max_retries + 1 passes ran |
| DirectoryTree.ErrorIsNotRetried | src/directory_tree/binance.py:180-183 | an error in a pass is raised at once, without another pass |
| DirectoryTree.FirstNonEmptyPassWins | src/directory_tree/binance.py:173-175 | a non-empty first pass is the answer |
| DirectoryTree.EmptyPassIsRetried | src/directory_tree/binance.py:90-100 | an empty pass starts over from the base URL with fresh results |
| AvailableData.Children | src/directory_tree/binance.py:194-197 | the extracted names contain no `/` |
| AvailableData.ChildrenIff | src/directory_tree/binance.py:194-197 | a name is extracted iff some listed path continues the query by that name |
| AvailableData.SlashInQueryFindsNothing | src/directory_tree/binance.py:266-275 | a query segment containing `/` matches no path |
| AvailableData.ChildrenAppend | src/directory_tree/binance.py:194-199 | the set of names is the union over the paths (duplicates removed) |
| AvailableData.DirectoryChild | src/directory_tree/binance.py:239-242 | a directory entry below the query yields its own name |
| AvailableData.Subdirectories | src/directory_tree/binance.py:214-216 | keeping only directory entries yields at most as many names, none with `/` |
| AvailableData.SubdirectoryMembership | src/cli/cli.py:446-449 | a name is kept iff some listed path ends in `/` and has it as its last directory |
| AvailableData.SubdirectoryOfEntry | src/directory_tree/binance.py:214-216 | `parent/name/` gives the name `name` |
| AvailableData.DataTypes | src/directory_tree/binance.py:185-199 | a listing failure is passed on; otherwise the data types are slash-free names |
| AvailableData.DataTypesOfThreeDirectories | tests/test_directory_tree.py:130-142 | three type directories give exactly those three types |
| AvailableData.FuturesIntervals | src/directory_tree/binance.py:218-233 | futures intervals succeed iff every subtype's listing succeeds |
| AvailableData.FuturesIntervalsErr | src/directory_tree/binance.py:218-233 | a failure in futures intervals is a listing failure |
| AvailableData.FuturesIntervalShape | src/directory_tree/binance.py:220-231 | every futures interval is `subtype/interval` with a listed subtype and an interval listed under that subtype (the converse of FuturesIntervalFound) |
| AvailableData.FuturesIntervalFound | src/directory_tree/binance.py:220-231 | every interval under every subtype is reported as `subtype/interval` |
| AvailableData.Intervals | src/directory_tree/binance.py:201-244 | the only error is a listing failure |
| AvailableData.IntervalsOfTwoDirectories | tests/test_directory_tree.py:145-155 | two interval directories give exactly those two intervals |
| AvailableData.Symbols | src/directory_tree/binance.py:246-293 | a futures interval with more than one `/` is refused, as the two-name unpacking fails; nothing else is |
| AvailableData.SlashMeansSeveralParts | src/directory_tree/binance.py:257 | `/` in the interval iff splitting gives more than one part |
| AvailableData.IntervalsAreAcceptedBySymbols | src/directory_tree/binance.py:229-259 | an interval reported by the interval lookup is never refused as malformed |
| AvailableData.FuturesSymbolsPath | src/directory_tree/binance.py:259-262 | the futures path from the split interval equals the plain path with the interval inserted |
| AvailableData.SymbolsOfTwoDirectories | tests/test_directory_tree.py:158-168 | two symbol directories give exactly those two symbols |
| Cli.DecimalValue | src/cli/cli.py:326-330 | the number shown to the user is written in decimal digits of its value |
| Cli.ParseDecimal | src/cli/cli.py:326-330 | `int()` reads a shown number back |
| Cli.ParseInt | src/cli/cli.py:327-328 | only a text starting with a digit or a sign parses as an integer |
| Cli.NamesAreNotNumbers | src/cli/cli.py:334-336 | a text with a character that is neither digit nor sign is not a number |
| Cli.SelectFromList | src/cli/cli.py:323-359 | a selection is always one of the items |
| Cli.ShownNumberSelects | src/cli/cli.py:326-330 | typing number i + 1 selects the i-th item |
| Cli.OutOfRangeNumberIsRefused | src/cli/cli.py:329-333 | a number outside 1..n selects nothing, even when an item has that name |
| Cli.ZeroNamesNoEntry | src/cli/cli.py:326-336 | an item named `0` cannot be selected by name |
| Cli.ExactNameSelects | src/cli/cli.py:338-340 | a non-numeric exact name selects itself |
| Cli.FirstCaseInsensitiveMatchSelects | src/cli/cli.py:342-345 | otherwise the first item equal up to case is selected |
| Cli.PartialSelectionIsUnique | src/cli/cli.py:347-359 | a partial selection has at least 3 characters and matches exactly one item |
| Cli.UniquePartialMatchSelects | src/cli/cli.py:347-351 | a unique case-insensitive substring match of at least 3 characters selects that item |
| Cli.SplitTrail | src/cli/cli.py:437-441 | the trailing path segments split back into themselves plus a final empty part |
| Cli.ListingPathFails | src/cli/cli.py:434-436 | building a listing path fails iff the data type is futures and the interval has more than one `/` |
| Cli.FuturesPathIsGeneric | src/cli/cli.py:434-441 | the futures path equals the plain path with the interval inserted |
| Cli.ListingPathSegments | src/cli/cli.py:482-487 | the path's segments are `data`, the type, the interval's parts, the chosen names and a final empty part |
| Cli.ListingPathShape | src/cli/cli.py:528-533 | every listing path starts with `data/` and ends with `/` |
| Cli.TrailShape | src/cli/cli.py:554-559 | the chosen names end the path with `/` |
| Cli.DirectoriesAreNotFiles | src/cli/cli.py:542 | a directory entry (ending in `/`) is never a file |
| Cli.FileMembership | src/cli/cli.py:568 | an entry is a file iff its last segment contains `.` |
| Cli.FilesArePartitioned | src/cli/cli.py:578-579 | data files and checksum files partition the files, each by its suffix test |
| Cli.PairChecksums | src/cli/cli.py:643-648 | the loop collects, in order, the listed companions of the kept data files |
| Cli.CompanionMembership | src/cli/cli.py:643-648 | a companion is collected iff it was listed and belongs to a kept data file |
| Cli.CompanionsAreChecksumFiles | src/cli/cli.py:643-648 | every collected companion is a checksum file |
| Cli.FilesToDownload | src/cli/cli.py:609-669 | the download list is the (filtered) data files followed, when verifying, by the (paired) checksum files |
| Cli.DataFileDownloaded | src/cli/cli.py:609-669 | a listed data file is downloaded iff there is no range or it is in the range |
| Cli.ChecksumFileDownloaded | src/cli/cli.py:643-669 | a listed checksum file is downloaded iff verifying and, with a range, its data file was kept |
| Cli.ChecksumFilesArePaired | src/cli/cli.py:643-669 | with a range, every downloaded checksum file belongs to a downloaded data file |
| Cli.DownloadsWereListed | src/cli/cli.py:665-669 | only listed files are downloaded |
| Cli.DownloadUrls | src/cli/cli.py:238 | one URL per file, the prefix followed by the file's path |
| Cli.SavedUnderOwnName | src/cli/cli.py:238 | a file's URL is saved under the file's own base name |
| Cli.LowerHasNoCapitals | src/cli/cli.py:661 | a lowered answer contains no capital letter |
| Cli.YesNoMeaning | src/cli/cli.py:655-662 | a non-empty answer means yes iff it is `y` or `yes` in any case (the listed `Y` can never match) |
| Cli.YesNoIgnoresCase | src/cli/cli.py:762-768 | lowering the answer first changes nothing |
| Cli.EmptyAnswerDefaults | src/cli/cli.py:773-778 | an empty answer verifies and extracts, but uses no custom directory |

## Left out

- Characters are ASCII. Python's `\d` matches every Unicode decimal digit, and `lower()` folds every cased letter; here only `0`-`9` and `A`-`Z` are treated that way.
- Checksum.DecodeAscii: the companion is decoded as ASCII, where Python's text mode uses the locale encoding (usually UTF-8). A non-ASCII companion therefore fails to verify here, while Python might accept it.
- Cli.ParseInt: accepts an optional sign followed by decimal digits. It does not model `int()`'s surrounding whitespace or `_` digit separators.
- Concurrency: the semaphore, `create_task` and `as_completed` are modelled by an arbitrary completion order. Each task's disk effects are applied one after another (`FilesDisk`), so interleaved writes to one path by two running tasks are not captured. Such tasks exist: besides duplicate URLs, when verifying, the task for `x.zip` writes its companion `x.zip.CHECKSUM` and the task for the listed `x.zip.CHECKSUM` URL writes the same path (src/cli/cli.py:665-668), and a checksum mismatch in the `x.zip` task deletes the file that the `.CHECKSUM` task reported as downloaded. `TaskLeftSurvives` therefore speaks only of tasks that no later task overwrites.
- httpx, aiofiles, xmltodict and hashlib are not modelled. They are replaced by scripted replies, a parsed-XML datatype, a byte map and a `hexDigest` function parameter.
- An exhausted reply script counts as a failed request.
- Sleeps are recorded as a list of wait times rather than performed.
- The per-chunk progress callback is reduced to its percentage. The float `int(downloaded * 100 / total)` is modelled as integer floor division, which agrees for the sizes involved but does not capture float rounding.
- Downloader.DownloadFile: `verify_checksum` raising because the data file vanished cannot happen right after a successful write, so that path is not modelled.
- DirectoryTree: an entry without `Prefix` or `Key` (a `KeyError` in the source) is not modelled; every entry carries its string.
- `get_available_*` receive the directory listing as a function argument rather than calling `get_directory_tree` themselves; the two are linked by their shared `Result` error type.
- Cli.SelectFromList: on an empty list the source raises `ValueError` in `max()` while laying out the columns (src/cli/cli.py:306-308); the model returns `None`. The symbol, trading-pair and time-interval prompts check for an empty list first (src/cli/cli.py:412-416, 451-455, 504-508), but the data-type prompt (src/cli/cli.py:372-382) and the interval prompt (src/cli/cli.py:386-401) do not: there an empty listing raises, `run` catches the error at src/cli/cli.py:838-839 and the run ends, where the model's `None` would stand for a refused answer.
- Cli.SelectFromList: models one answer. The re-prompt loop, the printed warnings and the "multiple matches" message are left out; a refused answer is `None`.
- The interactive flow of `run` is not modelled: prompts, `argparse`, `_prompt_for_date_range`, the trading-pair/time-interval preselection and the logging.
- `extract_files`, `set_proxy`, `os.makedirs`, tqdm progress bars and logging are not part of this model. They are I/O and presentation with no logic to verify.
- `base.py`, `setup.py` and `__init__.py` hold only interfaces and packaging.
