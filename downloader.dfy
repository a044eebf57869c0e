/**
 * `HttpDownloader.download_file` and the sequential part of
 * `HttpDownloader.download_files`. The network is a script of what the
 * server does at each attempt; the disk is a map from path to bytes; the
 * SHA-256 hex digest is a parameter. Sleeping is recorded as the list of
 * waits, in seconds.
 */
module Downloader {
  import opened Wrappers
  import opened Strings
  import opened Backoff
  import opened Checksum

  /** What the server does with the request for the data file in one attempt. */
  datatype Transfer =
    | Delivered(body: Bytes)          // the response streams to the end; the file holds the body
    | Refused                         // connection, status or timeout error before the file is opened
    | Interrupted(partial: Bytes)     // the stream breaks off; the file keeps the chunks written so far

  /** What the server does with the request for the companion ".CHECKSUM" file in the same attempt. */
  datatype CompanionFetch = CompanionDelivered(content: Bytes) | CompanionFailed

  datatype Exchange = Exchange(primary: Transfer, companion: CompanionFetch)

  /** One call of `download_file`: where from, where to, whether to verify. */
  datatype Request = Request(url: string, outputPath: string, verify: bool)

  /** How an attempt ends. */
  datatype AttemptOutcome = Verified | TransportFailed | CompanionUnavailable | ChecksumMismatch

  /** The server's behaviour at `attempt`; a script that has run out refuses every further request. */
  function ExchangeAt(script: seq<Exchange>, attempt: nat): Exchange
  {
    if attempt < |script| then script[attempt] else Exchange(Refused, CompanionFailed)
  }

  /** `range(retry_count + 1)` has this many elements. */
  function Total(retryCount: int): nat
  {
    if retryCount + 1 > 0 then retryCount + 1 else 0
  }

  /** The companion is fetched and checked when verification is on and the URL is not itself a companion. */
  predicate ChecksCompanion(req: Request)
  {
    req.verify && !EndsWith(req.url, ChecksumSuffix)
  }

  /**
   * How an attempt with this exchange ends. The verdict is taken on the two
   * files the attempt has just written: the checksum check reads nothing
   * else (`Checksum.VerdictIsLocal`).
   */
  function Outcome(req: Request, ex: Exchange, hexDigest: Bytes -> string): AttemptOutcome
  {
    match ex.primary
    case Delivered(body) =>
      if !ChecksCompanion(req) then Verified
      else (
        match ex.companion
        case CompanionFailed => CompanionUnavailable
        case CompanionDelivered(c) =>
          var written := map[req.outputPath := body, CompanionPath(req.outputPath) := c];
          if VerifyChecksum(written, req.outputPath, hexDigest) == Ok(true) then Verified else ChecksumMismatch)
    case _ => TransportFailed
  }

  /**
   * The backoff waits a run with these outcomes sleeps: `2**i` after attempt
   * `i` when it failed in transport and it was not the last one allowed.
   */
  function Waits(outcomes: seq<AttemptOutcome>, retryCount: int): (ws: seq<nat>)
    ensures |ws| <= |outcomes|
  {
    if outcomes == [] then []
    else
      var i := |outcomes| - 1;
      Waits(outcomes[..i], retryCount) + (if outcomes[i] == TransportFailed && i < retryCount then [Delay(i)] else [])
  }

  /** Every path other than the output file and its companion is as it was. */
  ghost predicate OnlyTouches(before: FileSystem, after: FileSystem, out: string)
  {
    forall p :: p != out && p != CompanionPath(out) ==>
      (p in after <==> p in before) && (p in after ==> after[p] == before[p])
  }

  /** Touching only the output file and its companion composes. */
  lemma OnlyTouchesTrans(a: FileSystem, b: FileSystem, c: FileSystem, out: string)
    requires OnlyTouches(a, b, out) && OnlyTouches(b, c, out)
    ensures OnlyTouches(a, c, out)
  {
  }

  /**
   * One pass of the loop body of `download_file`: stream the file, then, when
   * verifying, fetch the companion and check it; on a mismatch remove both.
   */
  method Attempt(req: Request, ex: Exchange, disk: FileSystem, hexDigest: Bytes -> string)
    returns (outcome: AttemptOutcome, after: FileSystem)
    ensures outcome == Outcome(req, ex, hexDigest)
    ensures after == AttemptDisk(req, ex, disk, hexDigest)
  {
    var out := req.outputPath;
    var companion := CompanionPath(out);
    assert companion != out by { assert |companion| == |out| + 9; }
    after := disk;
    match ex.primary {
      case Refused =>
        outcome := TransportFailed;
      case Interrupted(partial) =>
        after := after[out := partial];
        outcome := TransportFailed;
      case Delivered(body) =>
        after := after[out := body];
        if req.verify && !EndsWith(req.url, ChecksumSuffix) {
          match ex.companion {
            case CompanionFailed =>
              outcome := CompanionUnavailable;
            case CompanionDelivered(c) =>
              after := after[companion := c];
              VerdictIsLocal(after, map[out := body, companion := c], out, hexDigest);
              var verdict := VerifyChecksum(after, out, hexDigest);
              if verdict == Ok(true) {
                outcome := Verified;
              } else {
                after := after - {out, companion};
                outcome := ChecksumMismatch;
              }
          }
        } else {
          outcome := Verified;
        }
    }
  }

  /**
   * What an attempt that had this exchange and ended with this outcome
   * leaves behind: a broken stream leaves its partial body, a delivered body
   * stays unless the checksum failed (then neither file is left), and a
   * verified attempt leaves the companion it checked. A refused request
   * writes nothing, so whatever was there stays.
   */
  predicate LeftBy(req: Request, ex: Exchange, outcome: AttemptOutcome, disk: FileSystem)
  {
    var out := req.outputPath;
    match ex.primary
    case Refused => true
    case Interrupted(partial) => out in disk && disk[out] == partial
    case Delivered(body) =>
      (outcome == ChecksumMismatch ==> out !in disk && CompanionPath(out) !in disk)
      && (outcome != ChecksumMismatch ==> out in disk && disk[out] == body)
      && (outcome == Verified && ChecksCompanion(req) ==>
            ex.companion.CompanionDelivered? && CompanionPath(out) in disk && disk[CompanionPath(out)] == ex.companion.content)
  }

  /**
   * The disk an attempt with this exchange leaves: a refused request writes
   * nothing, a broken stream leaves its partial body, a delivered body is
   * written and then, when its companion arrives and is checked, either the
   * companion is written beside it or both files are removed.
   */
  function AttemptDisk(req: Request, ex: Exchange, disk: FileSystem, hexDigest: Bytes -> string): FileSystem
  {
    var out := req.outputPath;
    match ex.primary
    case Refused => disk
    case Interrupted(partial) => disk[out := partial]
    case Delivered(body) =>
      if !ChecksCompanion(req) || ex.companion.CompanionFailed? then disk[out := body]
      else if Outcome(req, ex, hexDigest) == Verified then disk[out := body][CompanionPath(out) := ex.companion.content]
      else disk - {out, CompanionPath(out)}
  }

  /**
   * An attempt touches only the output file and its companion, leaves there
   * what `LeftBy` describes, and a verified, checked attempt leaves a pair of
   * files that checks again.
   */
  lemma AttemptDiskFacts(req: Request, ex: Exchange, disk: FileSystem, hexDigest: Bytes -> string)
    ensures OnlyTouches(disk, AttemptDisk(req, ex, disk, hexDigest), req.outputPath)
    ensures LeftBy(req, ex, Outcome(req, ex, hexDigest), AttemptDisk(req, ex, disk, hexDigest))
    ensures Outcome(req, ex, hexDigest) == Verified && ChecksCompanion(req) ==>
              VerifyChecksum(AttemptDisk(req, ex, disk, hexDigest), req.outputPath, hexDigest) == Ok(true)
  {
    var out := req.outputPath;
    assert CompanionPath(out) != out by { assert |CompanionPath(out)| == |out| + 9; }
    if Outcome(req, ex, hexDigest) == Verified && ChecksCompanion(req) {
      VerdictIsLocal(AttemptDisk(req, ex, disk, hexDigest),
                     map[out := ex.primary.body, CompanionPath(out) := ex.companion.content], out, hexDigest);
    }
  }

  /** The disk after the first `n` attempts against the script, starting from `fs`. */
  function DiskAfter(req: Request, script: seq<Exchange>, n: nat, fs: FileSystem, hexDigest: Bytes -> string): FileSystem
  {
    if n == 0 then fs
    else AttemptDisk(req, ExchangeAt(script, n - 1), DiskAfter(req, script, n - 1, fs, hexDigest), hexDigest)
  }

  /** However many attempts run, only the output file and its companion change. */
  lemma {:induction false} DiskAfterFrame(req: Request, script: seq<Exchange>, n: nat, fs: FileSystem, hexDigest: Bytes -> string)
    ensures OnlyTouches(fs, DiskAfter(req, script, n, fs, hexDigest), req.outputPath)
  {
    if n > 0 {
      var before := DiskAfter(req, script, n - 1, fs, hexDigest);
      DiskAfterFrame(req, script, n - 1, fs, hexDigest);
      AttemptDiskFacts(req, ExchangeAt(script, n - 1), before, hexDigest);
      OnlyTouchesTrans(fs, before, DiskAfter(req, script, n, fs, hexDigest), req.outputPath);
    }
  }

  /** The number of attempts run from attempt `i` on: up to and including the first that verifies, or all `total`. */
  function AttemptsFrom(req: Request, script: seq<Exchange>, hexDigest: Bytes -> string, i: nat, total: nat): nat
    requires i <= total
    decreases total - i
  {
    if i == total then total
    else if Outcome(req, ExchangeAt(script, i), hexDigest) == Verified then i + 1
    else AttemptsFrom(req, script, hexDigest, i + 1, total)
  }

  /** The number of attempts `download_file` runs against the script. */
  function AttemptsUsed(req: Request, retryCount: int, script: seq<Exchange>, hexDigest: Bytes -> string): nat
  {
    AttemptsFrom(req, script, hexDigest, 0, Total(retryCount))
  }

  /**
   * From attempt `i`, `n` attempts are run exactly when none before the
   * `n`-th verifies and the `n`-th verifies or is the last one allowed.
   */
  lemma {:induction false} AttemptsFromIs(req: Request, script: seq<Exchange>, hexDigest: Bytes -> string, i: nat, total: nat, n: nat)
    requires i <= n <= total
    requires forall k :: i <= k && k + 1 < n ==> Outcome(req, ExchangeAt(script, k), hexDigest) != Verified
    requires (n > i && (n == total || Outcome(req, ExchangeAt(script, n - 1), hexDigest) == Verified)) || n == i == total
    ensures AttemptsFrom(req, script, hexDigest, i, total) == n
    decreases total - i
  {
    if i < total && Outcome(req, ExchangeAt(script, i), hexDigest) != Verified {
      AttemptsFromIs(req, script, hexDigest, i + 1, total, n);
    }
  }

  /** `AttemptsUsed` counts the attempts up to the first verified one, or all of them. */
  lemma AttemptsUsedIs(req: Request, retryCount: int, script: seq<Exchange>, hexDigest: Bytes -> string, n: nat)
    requires n <= Total(retryCount)
    requires forall k :: 0 <= k && k + 1 < n ==> Outcome(req, ExchangeAt(script, k), hexDigest) != Verified
    requires (n > 0 && (n == Total(retryCount) || Outcome(req, ExchangeAt(script, n - 1), hexDigest) == Verified))
             || n == 0 == Total(retryCount)
    ensures AttemptsUsed(req, retryCount, script, hexDigest) == n
  {
    AttemptsFromIs(req, script, hexDigest, 0, Total(retryCount), n);
  }

  /**
   * A refused final attempt keeps what an earlier broken stream wrote: with
   * one retry, a partial body followed by a refusal leaves the partial body.
   */
  lemma PartialSurvivesRefusal(req: Request, partial: Bytes, c1: CompanionFetch, c2: CompanionFetch,
                               fs: FileSystem, hexDigest: Bytes -> string)
    ensures var script := [Exchange(Interrupted(partial), c1), Exchange(Refused, c2)];
            var d := DiskAfter(req, script, AttemptsUsed(req, 1, script, hexDigest), fs, hexDigest);
            req.outputPath in d && d[req.outputPath] == partial
  {
    var script := [Exchange(Interrupted(partial), c1), Exchange(Refused, c2)];
    AttemptsUsedIs(req, 1, script, hexDigest, 2);
  }

  /** Some attempt from attempt `i` up to, not including, attempt `total` verifies. */
  predicate VerifiesFrom(req: Request, script: seq<Exchange>, hexDigest: Bytes -> string, i: nat, total: nat)
    decreases total - i
  {
    i < total && (Outcome(req, ExchangeAt(script, i), hexDigest) == Verified || VerifiesFrom(req, script, hexDigest, i + 1, total))
  }

  /** `download_file` returns True: one of the `retry_count + 1` attempts the server script allows verifies. */
  predicate DownloadSucceeds(req: Request, retryCount: int, script: seq<Exchange>, hexDigest: Bytes -> string)
  {
    VerifiesFrom(req, script, hexDigest, 0, Total(retryCount))
  }

  /** Some attempt from `i` on verifies, stated with an explicit witness. */
  lemma {:induction false} VerifiesFromIff(req: Request, script: seq<Exchange>, hexDigest: Bytes -> string, i: nat, total: nat)
    ensures VerifiesFrom(req, script, hexDigest, i, total)
            <==> exists k :: i <= k < total && Outcome(req, ExchangeAt(script, k), hexDigest) == Verified
    decreases total - i
  {
    if i < total {
      VerifiesFromIff(req, script, hexDigest, i + 1, total);
    }
  }

  /** `DownloadSucceeds` holds exactly when some allowed attempt verifies. */
  lemma DownloadSucceedsIff(req: Request, retryCount: int, script: seq<Exchange>, hexDigest: Bytes -> string)
    ensures DownloadSucceeds(req, retryCount, script, hexDigest)
            <==> exists i :: 0 <= i < Total(retryCount) && Outcome(req, ExchangeAt(script, i), hexDigest) == Verified
  {
    VerifiesFromIff(req, script, hexDigest, 0, Total(retryCount));
  }

  /**
   * The attempt loop of `download_file`. `outcomes` lists how each attempt
   * ended, in order; `waits` lists the backoff sleeps. The result is True
   * exactly when the last attempt verified, a False result used every
   * attempt, and after a final checksum mismatch neither the file nor its
   * companion is left on disk.
   */
  method DownloadFile(req: Request, retryCount: int, script: seq<Exchange>, fs: FileSystem, hexDigest: Bytes -> string)
    returns (ok: bool, disk: FileSystem, outcomes: seq<AttemptOutcome>, waits: seq<nat>)
    ensures |outcomes| <= Total(retryCount)
    ensures Total(retryCount) > 0 ==> |outcomes| > 0
    ensures forall i :: 0 <= i < |outcomes| ==> outcomes[i] == Outcome(req, ExchangeAt(script, i), hexDigest)
    ensures ok <==> DownloadSucceeds(req, retryCount, script, hexDigest)
    ensures ok <==> |outcomes| > 0 && outcomes[|outcomes| - 1] == Verified
    ensures forall i :: 0 <= i < |outcomes| - 1 ==> outcomes[i] != Verified
    ensures !ok ==> |outcomes| == Total(retryCount)
    ensures waits == Waits(outcomes, retryCount)
    ensures OnlyTouches(fs, disk, req.outputPath)
    ensures ok ==> req.outputPath in disk && ExchangeAt(script, |outcomes| - 1).primary == Delivered(disk[req.outputPath])
    ensures ok && ChecksCompanion(req) ==> VerifyChecksum(disk, req.outputPath, hexDigest) == Ok(true)
    ensures !ok && |outcomes| > 0 && outcomes[|outcomes| - 1] == ChecksumMismatch ==>
              req.outputPath !in disk && CompanionPath(req.outputPath) !in disk
    ensures |outcomes| > 0 ==> LeftBy(req, ExchangeAt(script, |outcomes| - 1), outcomes[|outcomes| - 1], disk)
    ensures |outcomes| == AttemptsUsed(req, retryCount, script, hexDigest)
    ensures disk == DiskAfter(req, script, |outcomes|, fs, hexDigest)
  {
    ok, disk, outcomes, waits := false, fs, [], [];
    var attempt: nat := 0;
    var stop := false;
    while attempt < Total(retryCount) && !stop
      invariant attempt <= Total(retryCount) && |outcomes| == attempt
      invariant forall i :: 0 <= i < attempt ==> outcomes[i] == Outcome(req, ExchangeAt(script, i), hexDigest)
      invariant forall i :: 0 <= i < attempt - 1 ==> outcomes[i] != Verified
      invariant ok <==> attempt > 0 && outcomes[attempt - 1] == Verified
      invariant !stop ==> !ok
      invariant stop && !ok ==> attempt == Total(retryCount)
      invariant waits == Waits(outcomes, retryCount)
      invariant disk == DiskAfter(req, script, attempt, fs, hexDigest)
    {
      var outcome;
      outcome, disk := Attempt(req, ExchangeAt(script, attempt), disk, hexDigest);
      WaitsStep(outcomes, outcome, retryCount);
      var retriesLeft := attempt < retryCount;
      if outcome == TransportFailed && retriesLeft {
        waits := waits + [Delay(attempt)];
      }
      outcomes := outcomes + [outcome];
      ok := outcome == Verified;
      stop := ok || (outcome == TransportFailed && !retriesLeft);
      attempt := attempt + 1;
    }
    AttemptsUsedIs(req, retryCount, script, hexDigest, attempt);
    DownloadSucceedsIff(req, retryCount, script, hexDigest);
    DiskAfterFrame(req, script, attempt, fs, hexDigest);
    if attempt > 0 {
      AttemptDiskFacts(req, ExchangeAt(script, attempt - 1), DiskAfter(req, script, attempt - 1, fs, hexDigest), hexDigest);
    }
    if ok {
      assert Outcome(req, ExchangeAt(script, attempt - 1), hexDigest) == Verified;
    } else {
      forall i | 0 <= i < Total(retryCount)
        ensures Outcome(req, ExchangeAt(script, i), hexDigest) != Verified
      {
        assert outcomes[i] != Verified;
      }
    }
  }

  /** An attempt against an honest server, whose companion carries the digest of the body it sent, verifies. */
  lemma HonestServerVerifies(req: Request, body: Bytes, sep: string, tag: string, tail: string, hexDigest: Bytes -> string)
    requires hexDigest(body) != "" && NoSpace(hexDigest(body))
    requires tag != "" && NoSpace(tag) && sep != "" && AllSpace(sep) && AllSpace(tail)
    requires IsAscii(CompanionText(hexDigest(body), sep, tag, tail))
    ensures Outcome(req, Exchange(Delivered(body), CompanionDelivered(EncodeAscii(CompanionText(hexDigest(body), sep, tag, tail)))), hexDigest)
         == Verified
  {
    var out := req.outputPath;
    assert |CompanionPath(out)| == |out| + 9;
    var written := map[out := body, CompanionPath(out) := EncodeAscii(CompanionText(hexDigest(body), sep, tag, tail))];
    MatchingCompanionVerifies(written, out, hexDigest, sep, tag, tail);
  }

  /** Without verification, or for a URL that is itself a companion, an attempt succeeds exactly when the transfer completes. */
  lemma UncheckedAttempt(req: Request, ex: Exchange, hexDigest: Bytes -> string)
    requires !ChecksCompanion(req)
    ensures Outcome(req, ex, hexDigest) == Verified <==> ex.primary.Delivered?
    ensures Outcome(req, ex, hexDigest) != Verified ==> Outcome(req, ex, hexDigest) == TransportFailed
  {
  }

  lemma WaitsStep(outcomes: seq<AttemptOutcome>, o: AttemptOutcome, retryCount: int)
    ensures Waits(outcomes + [o], retryCount)
         == Waits(outcomes, retryCount) + (if o == TransportFailed && |outcomes| < retryCount then [Delay(|outcomes|)] else [])
  {
    assert (outcomes + [o])[..|outcomes|] == outcomes;
  }

  // ---- The backoff schedule ----------------------------------------------------

  /** Without transport failures the downloader never sleeps: companion failures and mismatches retry at once. */
  lemma {:induction false} NoWaitWithoutTransportFailure(outcomes: seq<AttemptOutcome>, retryCount: int)
    requires forall i :: 0 <= i < |outcomes| ==> outcomes[i] != TransportFailed
    ensures Waits(outcomes, retryCount) == []
  {
    if outcomes != [] {
      NoWaitWithoutTransportFailure(outcomes[..|outcomes| - 1], retryCount);
    }
  }

  /** When every attempt before the last allowed one fails in transport, the waits are 1, 2, 4, ... */
  lemma {:induction false} WaitsAreExponential(outcomes: seq<AttemptOutcome>, retryCount: int)
    requires |outcomes| <= retryCount
    requires forall i :: 0 <= i < |outcomes| ==> outcomes[i] == TransportFailed
    ensures Waits(outcomes, retryCount) == Delays(|outcomes|)
  {
    if outcomes != [] {
      WaitsAreExponential(outcomes[..|outcomes| - 1], retryCount);
    }
  }

  /** The final allowed attempt is never followed by a wait. */
  lemma NoWaitAfterFinalAttempt(outcomes: seq<AttemptOutcome>, retryCount: int)
    requires |outcomes| == Total(retryCount) && |outcomes| > 0
    ensures Waits(outcomes, retryCount) == Waits(outcomes[..|outcomes| - 1], retryCount)
  {
  }

  lemma SumAppend(s: seq<nat>, x: nat)
    ensures Sum(s + [x]) == Sum(s) + x
  {
    assert (s + [x])[..|s|] == s;
  }

  /** However the attempts end, the total sleep before attempt `n` is less than `2**n` seconds. */
  lemma {:induction false} TotalSleepBound(outcomes: seq<AttemptOutcome>, retryCount: int)
    ensures Sum(Waits(outcomes, retryCount)) < Delay(|outcomes|)
  {
    if outcomes != [] {
      var i := |outcomes| - 1;
      TotalSleepBound(outcomes[..i], retryCount);
      if outcomes[i] == TransportFailed && i < retryCount {
        SumAppend(Waits(outcomes[..i], retryCount), Delay(i));
      } else {
        assert Waits(outcomes, retryCount) == Waits(outcomes[..i], retryCount) + [];
        assert Waits(outcomes[..i], retryCount) + [] == Waits(outcomes[..i], retryCount);
      }
    }
  }

  // ---- download_files ------------------------------------------------------------

  /** `os.path.join(directory, name)` for a name without "/": a separator is added unless the directory is empty or ends in one. */
  function JoinPath(directory: string, name: string): (p: string)
  {
    if directory == "" || EndsWith(directory, "/") then directory + name else directory + "/" + name
  }

  /** The joined path starts with the directory and ends with the name. */
  lemma JoinPathEnds(directory: string, name: string)
    ensures var p := JoinPath(directory, name);
            |directory| + |name| <= |p| && p[..|directory|] == directory && EndsWith(p, name)
  {
    var p := JoinPath(directory, name);
    if directory == "" || EndsWith(directory, "/") {
      assert p[|p| - |name|..] == name;
    } else {
      assert p == directory + ("/" + name);
      assert p[|p| - |name|..] == name;
    }
  }

  /** Where a URL is saved: the output directory joined with the URL's last "/"-segment. */
  function OutputPathFor(outputDir: string, url: string): string
  {
    JoinPath(outputDir, LastSegment(url))
  }

  /** The saved file's name is the URL's last segment, whatever the output directory. */
  lemma OutputPathKeepsName(outputDir: string, url: string)
    requires outputDir != ""
    ensures LastSegment(OutputPathFor(outputDir, url)) == LastSegment(url)
  {
    var name := LastSegment(url);
    var parts := Split(url, '/');
    assert '/' !in name;
    SplitWithoutSeparator(name, '/');
    if EndsWith(outputDir, "/") {
      var dir := outputDir[..|outputDir| - 1];
      assert outputDir == dir + "/";
      assert outputDir + name == dir + "/" + name;
      LastSegmentAfterSlash(dir, name);
    } else {
      LastSegmentAfterSlash(outputDir, name);
    }
  }

  /**
   * The progress figure for one file: `min(100, int(downloaded * 100 / total))`,
   * shown only when the server announced a positive size.
   */
  function Percentage(downloaded: nat, total: int): (r: Option<nat>)
    ensures r.Some? <==> total > 0
    ensures r.Some? ==> r.value <= 100
    ensures r.Some? ==> (r.value == 100 <==> downloaded >= total)
  {
    if total > 0 then
      PercentReachesHundred(downloaded, total);
      Some(Min(100, downloaded * 100 / total))
    else None
  }

  function Min(a: int, b: int): int
  {
    if a <= b then a else b
  }

  /** `a <= b` scales by a non-negative factor. */
  lemma MulMonotone(a: int, b: int, d: int)
    requires a <= b && d >= 0
    ensures a * d <= b * d
  {
    assert b * d - a * d == (b - a) * d;
  }

  /** A multiple of `d` not above `x` is at most the quotient. */
  lemma QuotientIsLargest(q: int, x: int, d: int)
    requires d > 0 && q * d <= x
    ensures q <= x / d
  {
    var r := x / d;
    assert x == r * d + x % d;
    assert (r + 1) * d == r * d + d;
    if q > r {
      MulMonotone(r + 1, q, d);
      assert false;
    }
  }

  /** A quotient times `d` is never above the dividend. */
  lemma QuotientTimesDivisor(x: int, d: int)
    requires d > 0
    ensures (x / d) * d <= x < (x / d + 1) * d
  {
    assert x == (x / d) * d + x % d;
    assert (x / d + 1) * d == (x / d) * d + d;
  }

  lemma PercentReachesHundred(downloaded: nat, total: int)
    requires total > 0
    ensures downloaded * 100 / total >= 100 <==> downloaded >= total
  {
    var x := downloaded * 100;
    if downloaded >= total {
      MulMonotone(total, downloaded, 100);
      QuotientIsLargest(100, x, total);
    } else {
      MulMonotone(downloaded + 1, total, 100);
      QuotientTimesDivisor(x, total);
      if x / total >= 100 {
        MulMonotone(100, x / total, total);
        assert false;
      }
    }
  }

  /** More bytes never show a smaller percentage. */
  lemma PercentageMonotone(d1: nat, d2: nat, total: int)
    requires d1 <= d2 && total > 0
    ensures Percentage(d1, total).value <= Percentage(d2, total).value
  {
    MulMonotone(d1, d2, 100);
    QuotientTimesDivisor(d1 * 100, total);
    QuotientIsLargest(d1 * 100 / total, d2 * 100, total);
  }

  /** The completion report `(completed, total, url)` passed to the caller's callback. */
  datatype Completion = Completion(completed: nat, total: nat, url: string)

  /** `order` lists every task index of `urls` exactly once: `as_completed` yields every task once. */
  predicate IsCompletionOrder(order: seq<nat>, n: nat)
  {
    |order| == n
    && (forall j :: 0 <= j < |order| ==> order[j] < n)
    && (forall i :: 0 <= i < n ==> i in order)
    && (forall j, k :: 0 <= j < k < |order| ==> order[j] != order[k])
  }

  /**
   * The result dictionary after the first `|taskResults|` completions:
   * `results[url] = success` in completion order, so a later completion of
   * the same URL overwrites an earlier one.
   */
  function Collected(urls: seq<string>, order: seq<nat>, taskResults: seq<bool>): map<string, bool>
    requires |taskResults| <= |order|
    requires forall j :: 0 <= j < |order| ==> order[j] < |urls|
  {
    if taskResults == [] then map[]
    else
      var j := |taskResults| - 1;
      Collected(urls, order, taskResults[..j])[urls[order[j]] := taskResults[j]]
  }

  /** The result dictionary has one key per distinct URL completed so far. */
  lemma {:induction false} CollectedKeys(urls: seq<string>, order: seq<nat>, taskResults: seq<bool>)
    requires |taskResults| <= |order|
    requires forall j :: 0 <= j < |order| ==> order[j] < |urls|
    ensures Collected(urls, order, taskResults).Keys == set j | 0 <= j < |taskResults| :: urls[order[j]]
  {
    if taskResults != [] {
      CollectedKeys(urls, order, taskResults[..|taskResults| - 1]);
    }
  }

  /** A URL's entry is the result of its last completion. */
  lemma {:induction false} CollectedLastWins(urls: seq<string>, order: seq<nat>, taskResults: seq<bool>, j: nat)
    requires |taskResults| <= |order|
    requires forall k :: 0 <= k < |order| ==> order[k] < |urls|
    requires j < |taskResults|
    requires forall k :: j < k < |taskResults| ==> urls[order[k]] != urls[order[j]]
    ensures urls[order[j]] in Collected(urls, order, taskResults)
    ensures Collected(urls, order, taskResults)[urls[order[j]]] == taskResults[j]
  {
    if j < |taskResults| - 1 {
      CollectedLastWins(urls, order, taskResults[..|taskResults| - 1], j);
    }
  }

  /** Once every task has completed, the keys are exactly the distinct input URLs. */
  lemma AllUrlsCollected(urls: seq<string>, order: seq<nat>, taskResults: seq<bool>)
    requires IsCompletionOrder(order, |urls|) && |taskResults| == |order|
    ensures Collected(urls, order, taskResults).Keys == set u | u in urls
  {
    CollectedKeys(urls, order, taskResults);
    forall u | u in urls
      ensures u in set j | 0 <= j < |order| :: urls[order[j]]
    {
      var i :| 0 <= i < |urls| && urls[i] == u;
      assert i in order;
      var j :| 0 <= j < |order| && order[j] == i;
      assert urls[order[j]] == u;
    }
  }

  /** The completion reports: one per finished task, counting up from 1, each with the total and the URL. */
  function Reports(urls: seq<string>, order: seq<nat>, n: nat): (rs: seq<Completion>)
    requires n <= |order|
    requires forall j :: 0 <= j < |order| ==> order[j] < |urls|
    ensures |rs| == n
    ensures forall j :: 0 <= j < n ==> rs[j] == Completion(j + 1, |urls|, urls[order[j]])
  {
    if n == 0 then [] else Reports(urls, order, n - 1) + [Completion(n, |urls|, urls[order[n - 1]])]
  }

  /** The `download_file` call a task makes for `url`: the file goes to the output directory under the URL's last segment. */
  function TaskRequest(outputDir: string, url: string, verify: bool): Request
  {
    Request(url, OutputPathFor(outputDir, url), verify)
  }

  /** The `download_file` call of every task, by the task's index in `urls`. */
  function TaskRequests(urls: seq<string>, outputDir: string, verify: bool): (reqs: seq<Request>)
    ensures |reqs| == |urls|
    ensures forall i :: 0 <= i < |urls| ==> reqs[i] == TaskRequest(outputDir, urls[i], verify)
  {
    seq(|urls|, i requires 0 <= i < |urls| => TaskRequest(outputDir, urls[i], verify))
  }

  /** The server script task `task` meets; a task without one is refused throughout. */
  function ScriptFor(scripts: seq<seq<Exchange>>, task: nat): seq<Exchange>
  {
    if task < |scripts| then scripts[task] else []
  }

  /** The disk after a task making this request, starting from `disk`: every attempt `download_file` runs, applied in turn. */
  function TaskDisk(req: Request, retryCount: int, script: seq<Exchange>, disk: FileSystem, hexDigest: Bytes -> string): FileSystem
  {
    DiskAfter(req, script, AttemptsUsed(req, retryCount, script, hexDigest), disk, hexDigest)
  }

  /** A task changes only its output file and the companion beside it. */
  lemma TaskDiskFrame(req: Request, retryCount: int, script: seq<Exchange>, disk: FileSystem, hexDigest: Bytes -> string)
    ensures OnlyTouches(disk, TaskDisk(req, retryCount, script, disk, hexDigest), req.outputPath)
  {
    DiskAfterFrame(req, script, AttemptsUsed(req, retryCount, script, hexDigest), disk, hexDigest);
  }

  /** `disk` holds, at the output file and its companion, what the last attempt `download_file` runs left (`LeftBy`). */
  predicate FinalLeft(req: Request, retryCount: int, script: seq<Exchange>, hexDigest: Bytes -> string, disk: FileSystem)
  {
    var used := AttemptsUsed(req, retryCount, script, hexDigest);
    used > 0 ==> LeftBy(req, ExchangeAt(script, used - 1), Outcome(req, ExchangeAt(script, used - 1), hexDigest), disk)
  }

  /** After a task, its output file and companion hold what its last attempt left. */
  lemma TaskDiskLeft(req: Request, retryCount: int, script: seq<Exchange>, disk: FileSystem, hexDigest: Bytes -> string)
    ensures FinalLeft(req, retryCount, script, hexDigest, TaskDisk(req, retryCount, script, disk, hexDigest))
  {
    var used := AttemptsUsed(req, retryCount, script, hexDigest);
    if used > 0 {
      AttemptDiskFacts(req, ExchangeAt(script, used - 1), DiskAfter(req, script, used - 1, disk, hexDigest), hexDigest);
    }
  }

  /**
   * One task of `download_files`: download `url` into the output directory
   * under its last segment. Its result is `download_file`'s verdict, and the
   * disk is what the attempts `download_file` runs leave (`TaskDiskFrame`,
   * `TaskDiskLeft`).
   */
  method RunTask(url: string, outputDir: string, verify: bool, retryCount: int, script: seq<Exchange>,
                 disk: FileSystem, hexDigest: Bytes -> string)
    returns (success: bool, after: FileSystem, outcomes: seq<AttemptOutcome>)
    ensures success <==> DownloadSucceeds(TaskRequest(outputDir, url, verify), retryCount, script, hexDigest)
    ensures success <==> |outcomes| > 0 && outcomes[|outcomes| - 1] == Verified
    ensures forall i :: 0 <= i < |outcomes| ==> outcomes[i] == Outcome(TaskRequest(outputDir, url, verify), ExchangeAt(script, i), hexDigest)
    ensures |outcomes| == AttemptsUsed(TaskRequest(outputDir, url, verify), retryCount, script, hexDigest)
    ensures after == TaskDisk(TaskRequest(outputDir, url, verify), retryCount, script, disk, hexDigest)
  {
    var waits;
    success, after, outcomes, waits := DownloadFile(TaskRequest(outputDir, url, verify), retryCount, script, disk, hexDigest);
  }

  /** `download_file`'s verdicts for the first `n` completed tasks, in completion order. */
  function Verdicts(reqs: seq<Request>, retryCount: int, scripts: seq<seq<Exchange>>, order: seq<nat>, n: nat,
                    hexDigest: Bytes -> string): (vs: seq<bool>)
    requires n <= |order|
    requires forall k :: 0 <= k < |order| ==> order[k] < |reqs|
    ensures |vs| == n
  {
    if n == 0 then []
    else
      Verdicts(reqs, retryCount, scripts, order, n - 1, hexDigest)
      + [DownloadSucceeds(reqs[order[n - 1]], retryCount, ScriptFor(scripts, order[n - 1]), hexDigest)]
  }

  /** The `k`-th verdict is the one `download_file` reaches for the `k`-th completed task. */
  lemma {:induction false} VerdictsAre(reqs: seq<Request>, retryCount: int, scripts: seq<seq<Exchange>>, order: seq<nat>, n: nat,
                                       hexDigest: Bytes -> string)
    requires n <= |order|
    requires forall k :: 0 <= k < |order| ==> order[k] < |reqs|
    ensures forall k :: 0 <= k < n ==>
              Verdicts(reqs, retryCount, scripts, order, n, hexDigest)[k]
              == DownloadSucceeds(reqs[order[k]], retryCount, ScriptFor(scripts, order[k]), hexDigest)
  {
    if n > 0 {
      VerdictsAre(reqs, retryCount, scripts, order, n - 1, hexDigest);
    }
  }

  /** The disk after the first `n` completed tasks, each applied to the disk the previous one left. */
  function FilesDisk(reqs: seq<Request>, retryCount: int, scripts: seq<seq<Exchange>>, order: seq<nat>, n: nat,
                     fs: FileSystem, hexDigest: Bytes -> string): FileSystem
    requires n <= |order|
    requires forall k :: 0 <= k < |order| ==> order[k] < |reqs|
  {
    if n == 0 then fs
    else
      TaskDisk(reqs[order[n - 1]], retryCount, ScriptFor(scripts, order[n - 1]),
               FilesDisk(reqs, retryCount, scripts, order, n - 1, fs, hexDigest), hexDigest)
  }

  /** `p` is the output file, or its companion, of one of the requests. */
  predicate IsOutputOf(p: string, reqs: seq<Request>)
  {
    exists i :: 0 <= i < |reqs| && (p == reqs[i].outputPath || p == CompanionPath(reqs[i].outputPath))
  }

  /** Every path that is not an output file or companion of one of the requests is as it was. */
  ghost predicate OnlyTouchesOutputs(before: FileSystem, after: FileSystem, reqs: seq<Request>)
  {
    forall p :: !IsOutputOf(p, reqs) ==>
      (p in after <==> p in before) && (p in after ==> after[p] == before[p])
  }

  /** A task for one of the requests keeps every path outside the outputs as it was. */
  lemma OutputsStep(fs: FileSystem, before: FileSystem, after: FileSystem, reqs: seq<Request>, i: nat)
    requires i < |reqs|
    requires OnlyTouchesOutputs(fs, before, reqs)
    requires OnlyTouches(before, after, reqs[i].outputPath)
    ensures OnlyTouchesOutputs(fs, after, reqs)
  {
    forall p | !IsOutputOf(p, reqs)
      ensures (p in after <==> p in fs) && (p in after ==> after[p] == fs[p])
    {
      assert p != reqs[i].outputPath && p != CompanionPath(reqs[i].outputPath);
    }
  }

  /** The completed tasks change only the output files and companions of the requests. */
  lemma {:induction false} FilesDiskFrame(reqs: seq<Request>, retryCount: int, scripts: seq<seq<Exchange>>, order: seq<nat>,
                                          n: nat, fs: FileSystem, hexDigest: Bytes -> string)
    requires n <= |order|
    requires forall k :: 0 <= k < |order| ==> order[k] < |reqs|
    ensures OnlyTouchesOutputs(fs, FilesDisk(reqs, retryCount, scripts, order, n, fs, hexDigest), reqs)
  {
    if n > 0 {
      var script := ScriptFor(scripts, order[n - 1]);
      var before := FilesDisk(reqs, retryCount, scripts, order, n - 1, fs, hexDigest);
      FilesDiskFrame(reqs, retryCount, scripts, order, n - 1, fs, hexDigest);
      TaskDiskFrame(reqs[order[n - 1]], retryCount, script, before, hexDigest);
      OutputsStep(fs, before, FilesDisk(reqs, retryCount, scripts, order, n, fs, hexDigest), reqs, order[n - 1]);
    }
  }

  /** Two output files whose paths and companion paths are all different. */
  predicate Apart(out1: string, out2: string)
  {
    out1 != out2 && out1 != CompanionPath(out2) && CompanionPath(out1) != out2 && CompanionPath(out1) != CompanionPath(out2)
  }

  /** No task completing after the `j`-th writes its output file or companion. */
  predicate LastWriter(reqs: seq<Request>, order: seq<nat>, j: nat)
    requires j < |order|
    requires forall k :: 0 <= k < |order| ==> order[k] < |reqs|
  {
    forall k :: j < k < |order| ==> Apart(reqs[order[k]].outputPath, reqs[order[j]].outputPath)
  }

  /** The output file `out` and its companion hold the same in both disks. */
  ghost predicate SameOutput(d1: FileSystem, d2: FileSystem, out: string)
  {
    (out in d1 <==> out in d2) && (out in d1 ==> d1[out] == d2[out])
    && (CompanionPath(out) in d1 <==> CompanionPath(out) in d2)
    && (CompanionPath(out) in d1 ==> d1[CompanionPath(out)] == d2[CompanionPath(out)])
  }

  /** `FinalLeft` looks only at the output file and its companion. */
  lemma FinalLeftKept(req: Request, retryCount: int, script: seq<Exchange>, hexDigest: Bytes -> string,
                      d1: FileSystem, d2: FileSystem)
    requires SameOutput(d1, d2, req.outputPath)
    ensures FinalLeft(req, retryCount, script, hexDigest, d1) ==> FinalLeft(req, retryCount, script, hexDigest, d2)
  {
  }

  /**
   * Disks `ds[0], ds[1], ...` where step `k` touches only output `outs[k]`
   * and its companion: output `j` is unchanged from `ds[j + 1]` to `ds[n]`
   * when every step in between writes an output apart from it.
   */
  lemma {:induction false} OutputSurvives(ds: seq<FileSystem>, outs: seq<string>, j: nat, n: nat)
    requires |ds| == |outs| + 1
    requires forall k :: 0 <= k < |outs| ==> OnlyTouches(ds[k], ds[k + 1], outs[k])
    requires j < n <= |outs|
    requires forall k :: j < k < n ==> Apart(outs[k], outs[j])
    ensures SameOutput(ds[j + 1], ds[n], outs[j])
    decreases n
  {
    if n > j + 1 {
      OutputSurvives(ds, outs, j, n - 1);
      var o := outs[j];
      assert OnlyTouches(ds[n - 1], ds[n], outs[n - 1]) && Apart(outs[n - 1], o);
      assert o != outs[n - 1] && o != CompanionPath(outs[n - 1]);
      assert CompanionPath(o) != outs[n - 1] && CompanionPath(o) != CompanionPath(outs[n - 1]);
    }
  }

  /** The disks after each number of completed tasks, from none to all. */
  function DiskHistory(reqs: seq<Request>, retryCount: int, scripts: seq<seq<Exchange>>, order: seq<nat>,
                       fs: FileSystem, hexDigest: Bytes -> string): (ds: seq<FileSystem>)
    requires forall k :: 0 <= k < |order| ==> order[k] < |reqs|
    ensures |ds| == |order| + 1
    ensures forall k :: 0 <= k <= |order| ==> ds[k] == FilesDisk(reqs, retryCount, scripts, order, k, fs, hexDigest)
  {
    seq(|order| + 1, k requires 0 <= k <= |order| => FilesDisk(reqs, retryCount, scripts, order, k, fs, hexDigest))
  }

  /** The output file of each completed task, in completion order. */
  function Outputs(reqs: seq<Request>, order: seq<nat>): (outs: seq<string>)
    requires forall k :: 0 <= k < |order| ==> order[k] < |reqs|
    ensures |outs| == |order|
    ensures forall k :: 0 <= k < |order| ==> outs[k] == reqs[order[k]].outputPath
  {
    seq(|order|, k requires 0 <= k < |order| => reqs[order[k]].outputPath)
  }

  /** Each completed task touches only its own output file and companion. */
  lemma HistorySteps(reqs: seq<Request>, retryCount: int, scripts: seq<seq<Exchange>>, order: seq<nat>,
                     fs: FileSystem, hexDigest: Bytes -> string)
    requires forall k :: 0 <= k < |order| ==> order[k] < |reqs|
    ensures var ds := DiskHistory(reqs, retryCount, scripts, order, fs, hexDigest);
            var outs := Outputs(reqs, order);
            forall k :: 0 <= k < |outs| ==> OnlyTouches(ds[k], ds[k + 1], outs[k])
  {
    var ds := DiskHistory(reqs, retryCount, scripts, order, fs, hexDigest);
    var outs := Outputs(reqs, order);
    forall k | 0 <= k < |outs|
      ensures OnlyTouches(ds[k], ds[k + 1], outs[k])
    {
      TaskDiskFrame(reqs[order[k]], retryCount, ScriptFor(scripts, order[k]), ds[k], hexDigest);
    }
  }

  /**
   * A task whose output file and companion no later task writes keeps what
   * its own last attempt left once every task has completed. Without the
   * guard this fails: the companion of "x.zip" and the file of
   * "x.zip.CHECKSUM" are the same path.
   */
  lemma TaskLeftSurvives(reqs: seq<Request>, retryCount: int, scripts: seq<seq<Exchange>>, order: seq<nat>,
                         fs: FileSystem, hexDigest: Bytes -> string, j: nat)
    requires forall k :: 0 <= k < |order| ==> order[k] < |reqs|
    requires j < |order| && LastWriter(reqs, order, j)
    ensures FinalLeft(reqs[order[j]], retryCount, ScriptFor(scripts, order[j]), hexDigest,
                      FilesDisk(reqs, retryCount, scripts, order, |order|, fs, hexDigest))
  {
    var ds := DiskHistory(reqs, retryCount, scripts, order, fs, hexDigest);
    var req := reqs[order[j]];
    var script := ScriptFor(scripts, order[j]);
    HistorySteps(reqs, retryCount, scripts, order, fs, hexDigest);
    OutputSurvives(ds, Outputs(reqs, order), j, |order|);
    TaskDiskLeft(req, retryCount, script, ds[j], hexDigest);
    FinalLeftKept(req, retryCount, script, hexDigest, ds[j + 1], ds[|order|]);
  }

  /** One more completed task: its verdict and its effect on the disk follow those of the tasks before it. */
  lemma TaskStep(urls: seq<string>, outputDir: string, verify: bool, retryCount: int, scripts: seq<seq<Exchange>>,
                 order: seq<nat>, j: nat, fs: FileSystem, hexDigest: Bytes -> string)
    requires j < |order|
    requires forall k :: 0 <= k < |order| ==> order[k] < |urls|
    ensures var reqs := TaskRequests(urls, outputDir, verify);
            var req := TaskRequest(outputDir, urls[order[j]], verify);
            var script := ScriptFor(scripts, order[j]);
            Verdicts(reqs, retryCount, scripts, order, j + 1, hexDigest)
              == Verdicts(reqs, retryCount, scripts, order, j, hexDigest) + [DownloadSucceeds(req, retryCount, script, hexDigest)]
            && FilesDisk(reqs, retryCount, scripts, order, j + 1, fs, hexDigest)
              == TaskDisk(req, retryCount, script, FilesDisk(reqs, retryCount, scripts, order, j, fs, hexDigest), hexDigest)
  {
  }

  /** Storing one more completion's result extends the result dictionary of those before it. */
  lemma CollectedStep(urls: seq<string>, order: seq<nat>, taskResults: seq<bool>, success: bool)
    requires |taskResults| < |order|
    requires forall k :: 0 <= k < |order| ==> order[k] < |urls|
    ensures Collected(urls, order, taskResults + [success])
            == Collected(urls, order, taskResults)[urls[order[|taskResults|]] := success]
  {
    assert (taskResults + [success])[..|taskResults|] == taskResults;
  }

  /**
   * The aggregation of `download_files` with the downloads taken one at a
   * time in completion order `order`: each task downloads its URL to
   * `OutputPathFor(outputDir, url)` with its own server script, reports
   * completion when a callback is given, and its result is stored under its
   * URL. The disk is the tasks' effects applied in completion order
   * (`FilesDiskFrame`, `TaskLeftSurvives`).
   */
  method DownloadFiles(urls: seq<string>, outputDir: string, verify: bool, hasCallback: bool,
                       retryCount: int, scripts: seq<seq<Exchange>>, order: seq<nat>,
                       fs: FileSystem, hexDigest: Bytes -> string)
    returns (results: map<string, bool>, reports: seq<Completion>, taskResults: seq<bool>, disk: FileSystem)
    requires IsCompletionOrder(order, |urls|)
    ensures |taskResults| == |order|
    ensures results == Collected(urls, order, taskResults)
    ensures results.Keys == set u | u in urls
    ensures reports == if hasCallback then Reports(urls, order, |order|) else []
    ensures forall j :: 0 <= j < |order| ==>
              taskResults[j] == DownloadSucceeds(TaskRequest(outputDir, urls[order[j]], verify), retryCount, ScriptFor(scripts, order[j]), hexDigest)
    ensures disk == FilesDisk(TaskRequests(urls, outputDir, verify), retryCount, scripts, order, |order|, fs, hexDigest)
  {
    ghost var reqs := TaskRequests(urls, outputDir, verify);
    results, reports, taskResults, disk := map[], [], [], fs;
    var j := 0;
    while j < |order|
      invariant j <= |order| && |taskResults| == j
      invariant results == Collected(urls, order, taskResults)
      invariant reports == if hasCallback then Reports(urls, order, j) else []
      invariant taskResults == Verdicts(reqs, retryCount, scripts, order, j, hexDigest)
      invariant disk == FilesDisk(reqs, retryCount, scripts, order, j, fs, hexDigest)
    {
      var task := order[j];
      var url := urls[task];
      var success, outcomes;
      success, disk, outcomes := RunTask(url, outputDir, verify, retryCount, ScriptFor(scripts, task), disk, hexDigest);
      if hasCallback {
        reports := reports + [Completion(j + 1, |urls|, url)];
      }
      TaskStep(urls, outputDir, verify, retryCount, scripts, order, j, fs, hexDigest);
      CollectedStep(urls, order, taskResults, success);
      results := results[url := success];
      taskResults := taskResults + [success];
      j := j + 1;
    }
    AllUrlsCollected(urls, order, taskResults);
    VerdictsAre(reqs, retryCount, scripts, order, |order|, hexDigest);
  }
}
