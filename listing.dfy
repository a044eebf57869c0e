/**
 * `BinanceDirectoryTreeProvider.get_directory_tree` and its `_get`: list the
 * S3 bucket behind data.binance.vision page by page. The server is a script
 * of replies, one per HTTP request in the order the requests are made; each
 * reply body is given already parsed. Sleeping is recorded as waits.
 */
module DirectoryTree {
  import opened Wrappers
  import opened Strings
  import opened Backoff

  /** A `CommonPrefixes` or `Contents` element as the XML parser hands it over: missing, one child, or a list. */
  datatype Field = Absent | Single(item: string) | Many(items: seq<string>)

  /** The `ListBucketResult` of one page: directory prefixes, object keys, and the pagination fields. */
  datatype Bucket = Bucket(commonPrefixes: Field, contents: Field, isTruncated: Option<string>, nextMarker: Option<string>)

  /** A reply body after XML parsing: unparsable, or a document that may lack `ListBucketResult`. */
  datatype Xml = Unparsable | Document(listBucketResult: Option<Bucket>)

  /** What one HTTP request gets back. `HttpFailure` stands for an HTTP status error or a timeout. */
  datatype Reply = Body(xml: Xml) | HttpFailure | OtherFailure

  /** Why a listing raises instead of returning. */
  datatype ListingError =
    | RequestFailed             // four HTTP failures in a row in `_get`
    | UnexpectedError           // any other exception from the request, raised at once
    | ParseError                // the page is not XML
    | MissingListBucketResult
    | MissingIsTruncated

  const Endpoint: string := "https://s3-ap-northeast-1.amazonaws.com/data.binance.vision"

  /** `_get` retries an HTTP failure this many times. */
  const GetRetries: nat := 3

  /** The reply to request number `i`; once the script runs out the server fails every request. */
  function ReplyAt(script: seq<Reply>, i: nat): Reply
  {
    if i < |script| then script[i] else HttpFailure
  }

  // ---- `_get` -------------------------------------------------------------------------

  /** The result of `_get` and the number of the next request. */
  datatype Fetched = Fetched(result: Result<Xml, ListingError>, next: nat)

  /** `_get` from its attempt number `attempt` on, the request being number `pos`. */
  function FetchFrom(script: seq<Reply>, pos: nat, attempt: nat): (f: Fetched)
    requires attempt <= GetRetries
    ensures pos < f.next <= pos + GetRetries + 1 - attempt
    ensures f.result.Ok? ==> f.next <= |script|
    decreases GetRetries - attempt
  {
    match ReplyAt(script, pos)
    case Body(xml) => Fetched(Ok(xml), pos + 1)
    case OtherFailure => Fetched(Err(UnexpectedError), pos + 1)
    case HttpFailure =>
      if attempt < GetRetries then FetchFrom(script, pos + 1, attempt + 1)
      else Fetched(Err(RequestFailed), pos + 1)
  }

  /**
   * The attempt loop of `_get`: at most four requests; the wait after failed
   * attempt `k` is `2**k` seconds; a failure that is not an HTTP error is
   * raised at once; after the fourth HTTP failure the error is raised.
   */
  method Get(script: seq<Reply>, pos: nat) returns (result: Result<Xml, ListingError>, next: nat, waits: seq<nat>)
    ensures Fetched(result, next) == FetchFrom(script, pos, 0)
    ensures pos < next <= pos + GetRetries + 1
    ensures forall i :: pos <= i < next - 1 ==> ReplyAt(script, i) == HttpFailure
    ensures result.Ok? <==> ReplyAt(script, next - 1).Body?
    ensures result.Ok? ==> result.value == ReplyAt(script, next - 1).xml
    ensures result == Err(RequestFailed) ==> next == pos + GetRetries + 1
    ensures waits == Delays(next - pos - 1)
  {
    var attempt: nat := 0;
    waits := [];
    while true
      invariant attempt <= GetRetries
      invariant FetchFrom(script, pos + attempt, attempt) == FetchFrom(script, pos, 0)
      invariant forall i :: pos <= i < pos + attempt ==> ReplyAt(script, i) == HttpFailure
      invariant waits == Delays(attempt)
      decreases GetRetries - attempt
    {
      match ReplyAt(script, pos + attempt) {
        case Body(xml) =>
          return Ok(xml), pos + attempt + 1, waits;
        case OtherFailure =>
          return Err(UnexpectedError), pos + attempt + 1, waits;
        case HttpFailure =>
          if attempt < GetRetries {
            waits := waits + [Delay(attempt)];
            attempt := attempt + 1;
          } else {
            return Err(RequestFailed), pos + attempt + 1, waits;
          }
      }
    }
  }

  // ---- One page --------------------------------------------------------------------

  /** The entries a field contributes: nothing, its one child, or its children in document order. */
  function Items(f: Field): (xs: seq<string>)
    ensures f.Single? ==> xs == [f.item]
    ensures f.Many? ==> xs == f.items
    ensures f.Absent? ==> xs == []
  {
    match f
    case Absent => []
    case Single(x) => [x]
    case Many(xs) => xs
  }

  /** A page's entries: its directory prefixes, then its object keys. */
  function PageEntries(b: Bucket): seq<string>
  {
    Items(b.commonPrefixes) + Items(b.contents)
  }

  /** A page the walk can use, or why it raises. */
  function ParsePage(xml: Xml): (r: Result<Bucket, ListingError>)
    ensures r.Ok? ==> r.value.isTruncated.Some?
  {
    match xml
    case Unparsable => Err(ParseError)
    case Document(None) => Err(MissingListBucketResult)
    case Document(Some(b)) => if b.isTruncated.None? then Err(MissingIsTruncated) else Ok(b)
  }

  /** Where the walk goes after a page: nowhere when `IsTruncated` is exactly "false" or no `NextMarker` is given. */
  function NextUrl(b: Bucket, baseUrl: string): (u: Option<string>)
    ensures u.Some? <==> b.isTruncated != Some("false") && b.nextMarker.Some?
    ensures u.Some? ==> u.value == baseUrl + "&marker=" + b.nextMarker.value
  {
    if b.isTruncated == Some("false") then None
    else if b.nextMarker.Some? then Some(baseUrl + "&marker=" + b.nextMarker.value)
    else None
  }

  /** A one-child field and a one-element list give the same entries. */
  lemma SingleAsList(x: string)
    ensures Items(Single(x)) == Items(Many([x]))
  {
  }

  // ---- One pagination pass ------------------------------------------------------------

  /** What one pagination pass produces: its entries or error, the next request number, the URLs requested per page and the waits. */
  datatype Walked = Walked(result: Result<seq<string>, ListingError>, next: nat, requested: seq<string>, waits: seq<nat>)

  /** The pass that starts by requesting `url` as request number `pos`. */
  function WalkFrom(script: seq<Reply>, pos: nat, baseUrl: string, url: string): (w: Walked)
    ensures pos < w.next
    ensures |w.requested| >= 1 && w.requested[0] == url
    decreases |script| - pos
  {
    var f := FetchFrom(script, pos, 0);
    var waits := Delays(f.next - pos - 1);
    if f.result.Err? then Walked(Err(f.result.error), f.next, [url], waits)
    else
      match ParsePage(f.result.value)
      case Err(e) => Walked(Err(e), f.next, [url], waits)
      case Ok(page) =>
        match NextUrl(page, baseUrl)
        case None => Walked(Ok(PageEntries(page)), f.next, [url], waits)
        case Some(nextUrl) =>
          Prepend(PageEntries(page), [url], waits, WalkFrom(script, f.next, baseUrl, nextUrl))
  }

  /** Put a page's entries, URL and waits in front of the rest of the pass; an error in the rest wins. */
  function Prepend(entries: seq<string>, requested: seq<string>, waits: seq<nat>, rest: Walked): Walked
  {
    Walked(if rest.result.Ok? then Ok(entries + rest.result.value) else rest.result,
           rest.next, requested + rest.requested, waits + rest.waits)
  }

  lemma PrependTwice(e1: seq<string>, r1: seq<string>, w1: seq<nat>, e2: seq<string>, r2: seq<string>, w2: seq<nat>, rest: Walked)
    ensures Prepend(e1, r1, w1, Prepend(e2, r2, w2, rest)) == Prepend(e1 + e2, r1 + r2, w1 + w2, rest)
  {
    if rest.result.Ok? {
      assert e1 + (e2 + rest.result.value) == (e1 + e2) + rest.result.value;
    }
    assert r1 + (r2 + rest.requested) == (r1 + r2) + rest.requested;
    assert w1 + (w2 + rest.waits) == (w1 + w2) + rest.waits;
  }

  lemma PrependNothing(rest: Walked)
    ensures Prepend([], [], [], rest) == rest
  {
    if rest.result.Ok? {
      assert [] + rest.result.value == rest.result.value;
    }
    assert [] + rest.requested == rest.requested;
    assert [] + rest.waits == rest.waits;
  }

  /**
   * The pagination loop of one pass: fetch the page, append its prefixes and
   * keys, stop on `IsTruncated == "false"` or a missing `NextMarker`, else
   * request `baseUrl&marker=<NextMarker>`.
   */
  method Walk(script: seq<Reply>, pos: nat, baseUrl: string)
    returns (result: Result<seq<string>, ListingError>, next: nat, requested: seq<string>, waits: seq<nat>)
    ensures Walked(result, next, requested, waits) == WalkFrom(script, pos, baseUrl, baseUrl)
  {
    var url := baseUrl;
    var entries: seq<string> := [];
    requested, waits := [], [];
    next := pos;
    PrependNothing(WalkFrom(script, pos, baseUrl, baseUrl));
    while true
      invariant Prepend(entries, requested, waits, WalkFrom(script, next, baseUrl, url)) == WalkFrom(script, pos, baseUrl, baseUrl)
      decreases |script| - next
    {
      var reply, after, getWaits := Get(script, next);
      if reply.Err? {
        return Err(reply.error), after, requested + [url], waits + getWaits;
      }
      match ParsePage(reply.value) {
        case Err(e) =>
          return Err(e), after, requested + [url], waits + getWaits;
        case Ok(page) =>
          match NextUrl(page, baseUrl) {
            case None =>
              return Ok(entries + PageEntries(page)), after, requested + [url], waits + getWaits;
            case Some(nextUrl) =>
              PrependTwice(entries, requested, waits, PageEntries(page), [url], getWaits, WalkFrom(script, after, baseUrl, nextUrl));
              entries, requested, waits := entries + PageEntries(page), requested + [url], waits + getWaits;
              next, url := after, nextUrl;
          }
      }
    }
  }

  // ---- get_directory_tree ------------------------------------------------------------------

  /** The listing URL for a path: the bucket endpoint with "/" as delimiter and the path as prefix. */
  function ListingUrl(path: string): (u: string)
    ensures StartsWith(u, Endpoint) && EndsWith(u, path)
  {
    Endpoint + "?delimiter=/&prefix=" + path
  }

  /** The outcome of `get_directory_tree`: result, next request number, and how many passes were made. */
  datatype Tree = Tree(result: Result<seq<string>, ListingError>, next: nat, passes: nat)

  /**
   * Passes number `pass` on, out of `total`: an error is raised at once, a
   * non-empty pass is the answer, an empty one is retried from the base URL
   * while passes remain.
   */
  function TreeFrom(script: seq<Reply>, pos: nat, baseUrl: string, pass: nat, total: nat): (t: Tree)
    requires pass < total
    ensures pass < t.passes <= total
    decreases total - pass
  {
    var w := WalkFrom(script, pos, baseUrl, baseUrl);
    if w.result.Err? || w.result.value != [] || pass + 1 == total then Tree(w.result, w.next, pass + 1)
    else TreeFrom(script, w.next, baseUrl, pass + 1, total)
  }

  /** The specification of `get_directory_tree(path, max_retries)`: up to `max_retries + 1` passes. */
  function DirectoryTreeSpec(script: seq<Reply>, path: string, maxRetries: int): Tree
  {
    var total := if maxRetries + 1 > 0 then maxRetries + 1 else 0;
    if total == 0 then Tree(Ok([]), 0, 0) else TreeFrom(script, 0, ListingUrl(path), 0, total)
  }

  /** `get_directory_tree`: the retry loop around the pagination pass. */
  method GetDirectoryTree(script: seq<Reply>, path: string, maxRetries: int)
    returns (result: Result<seq<string>, ListingError>, passes: nat)
    ensures Tree(result, DirectoryTreeSpec(script, path, maxRetries).next, passes) == DirectoryTreeSpec(script, path, maxRetries)
  {
    var baseUrl := ListingUrl(path);
    var total := if maxRetries + 1 > 0 then maxRetries + 1 else 0;
    result := Ok([]);
    passes := 0;
    var pos := 0;
    while passes < total
      invariant passes <= total
      invariant passes == 0 ==> result == Ok([]) && pos == 0
      invariant 0 < passes < total ==> result == Ok([]) && TreeFrom(script, pos, baseUrl, passes, total) == DirectoryTreeSpec(script, path, maxRetries)
      invariant passes == total > 0 ==> Tree(result, DirectoryTreeSpec(script, path, maxRetries).next, passes) == DirectoryTreeSpec(script, path, maxRetries)
      decreases total - passes
    {
      var entries, next, requested, waits := Walk(script, pos, baseUrl);
      passes := passes + 1;
      result := entries;
      if entries.Err? || entries.value != [] {
        return;
      }
      pos := next;
    }
  }

  // ---- Properties ------------------------------------------------------------------------

  /** A server that answers every request with the next page, each on the first try. */
  function Serve(pages: seq<Bucket>): (script: seq<Reply>)
    ensures |script| == |pages|
    ensures forall k :: 0 <= k < |pages| ==> script[k] == Body(Document(Some(pages[k])))
  {
    seq(|pages|, k requires 0 <= k < |pages| => Body(Document(Some(pages[k]))))
  }

  /** Pages that link up: every page but the last is truncated and names the next marker; the last one ends the pass. */
  predicate IsChain(pages: seq<Bucket>)
  {
    |pages| >= 1
    && (forall k :: 0 <= k < |pages| ==> pages[k].isTruncated.Some?)
    && (forall k :: 0 <= k < |pages| - 1 ==> pages[k].isTruncated != Some("false") && pages[k].nextMarker.Some?)
    && (pages[|pages| - 1].isTruncated == Some("false") || pages[|pages| - 1].nextMarker.None?)
  }

  /** All entries of a run of pages, page after page. */
  function AllEntries(pages: seq<Bucket>): seq<string>
  {
    if pages == [] then [] else PageEntries(pages[0]) + AllEntries(pages[1..])
  }

  /** The URL of page `k` of a chain: the base URL, then the base URL with the previous page's marker. */
  function PageUrl(pages: seq<Bucket>, baseUrl: string, k: nat): string
    requires k < |pages| && forall j :: 0 <= j < k ==> pages[j].nextMarker.Some?
  {
    if k == 0 then baseUrl else baseUrl + "&marker=" + pages[k - 1].nextMarker.value
  }

  /** The URLs a pass over a chain requests from page `k` on. */
  function ChainUrls(pages: seq<Bucket>, baseUrl: string, k: nat): (urls: seq<string>)
    requires IsChain(pages) && k < |pages|
    ensures |urls| == |pages| - k
    ensures forall j :: 0 <= j < |urls| ==> urls[j] == PageUrl(pages, baseUrl, k + j)
    decreases |pages| - k
  {
    if k == |pages| - 1 then [PageUrl(pages, baseUrl, k)]
    else [PageUrl(pages, baseUrl, k)] + ChainUrls(pages, baseUrl, k + 1)
  }

  /** Page `k` of a chain is fetched on the first try. */
  lemma ChainFetch(pages: seq<Bucket>, k: nat)
    requires k < |pages|
    ensures FetchFrom(Serve(pages), k, 0) == Fetched(Ok(Document(Some(pages[k]))), k + 1)
  {
    assert ReplyAt(Serve(pages), k) == Body(Document(Some(pages[k])));
  }

  /** A page fetched on the first try: the pass takes its entries and goes on to the next URL, if any. */
  lemma WalkAtPage(script: seq<Reply>, pos: nat, baseUrl: string, url: string, page: Bucket)
    requires FetchFrom(script, pos, 0) == Fetched(Ok(Document(Some(page))), pos + 1)
    requires page.isTruncated.Some?
    ensures NextUrl(page, baseUrl).None? ==>
              WalkFrom(script, pos, baseUrl, url) == Walked(Ok(PageEntries(page)), pos + 1, [url], [])
    ensures NextUrl(page, baseUrl).Some? ==>
              WalkFrom(script, pos, baseUrl, url)
              == Prepend(PageEntries(page), [url], [], WalkFrom(script, pos + 1, baseUrl, NextUrl(page, baseUrl).value))
  {
    assert Delays(0) == [];
  }

  /** The last page of a chain ends the pass. */
  lemma ChainLast(pages: seq<Bucket>, baseUrl: string)
    requires IsChain(pages)
    ensures var k := |pages| - 1;
            WalkFrom(Serve(pages), k, baseUrl, PageUrl(pages, baseUrl, k))
            == Walked(Ok(PageEntries(pages[k])), k + 1, [PageUrl(pages, baseUrl, k)], [])
  {
    var k := |pages| - 1;
    ChainFetch(pages, k);
    WalkAtPage(Serve(pages), k, baseUrl, PageUrl(pages, baseUrl, k), pages[k]);
  }

  /** A page before the last leads to the next one. */
  lemma ChainMiddle(pages: seq<Bucket>, baseUrl: string, k: nat)
    requires IsChain(pages) && k < |pages| - 1
    ensures WalkFrom(Serve(pages), k, baseUrl, PageUrl(pages, baseUrl, k))
         == Prepend(PageEntries(pages[k]), [PageUrl(pages, baseUrl, k)], [],
                    WalkFrom(Serve(pages), k + 1, baseUrl, PageUrl(pages, baseUrl, k + 1)))
  {
    ChainFetch(pages, k);
    assert NextUrl(pages[k], baseUrl) == Some(PageUrl(pages, baseUrl, k + 1));
    WalkAtPage(Serve(pages), k, baseUrl, PageUrl(pages, baseUrl, k), pages[k]);
  }

  /**
   * A pass over a chain of pages returns every entry of every page, in page
   * order, with nothing dropped or merged; it requests the base URL and then
   * one marker URL per further page, and never waits.
   */
  lemma {:induction false} WalkConcatenatesPages(pages: seq<Bucket>, baseUrl: string, k: nat)
    requires IsChain(pages) && k < |pages|
    ensures WalkFrom(Serve(pages), k, baseUrl, PageUrl(pages, baseUrl, k))
         == Walked(Ok(AllEntries(pages[k..])), |pages|, ChainUrls(pages, baseUrl, k), [])
    decreases |pages| - k
  {
    assert pages[k..] == [pages[k]] + pages[k + 1..];
    assert AllEntries(pages[k..]) == PageEntries(pages[k]) + AllEntries(pages[k + 1..]);
    if k == |pages| - 1 {
      ChainLast(pages, baseUrl);
      assert pages[k + 1..] == [];
      assert PageEntries(pages[k]) + AllEntries([]) == PageEntries(pages[k]);
    } else {
      ChainMiddle(pages, baseUrl, k);
      WalkConcatenatesPages(pages, baseUrl, k + 1);
      var none: seq<nat> := [];
      assert none + none == none;
    }
  }

  /** The whole pass from the base URL: all entries of all pages, in order. */
  lemma WalkOverChain(pages: seq<Bucket>, baseUrl: string)
    requires IsChain(pages)
    ensures WalkFrom(Serve(pages), 0, baseUrl, baseUrl).result == Ok(AllEntries(pages))
    ensures WalkFrom(Serve(pages), 0, baseUrl, baseUrl).requested == ChainUrls(pages, baseUrl, 0)
  {
    WalkConcatenatesPages(pages, baseUrl, 0);
    assert pages[0..] == pages;
  }

  /** The retry loop stops early only on an error or a non-empty pass. */
  lemma {:induction false} EarlyStopMeansAnswer(script: seq<Reply>, pos: nat, baseUrl: string, pass: nat, total: nat)
    requires pass < total
    ensures var t := TreeFrom(script, pos, baseUrl, pass, total);
            t.passes < total ==> t.result.Err? || t.result.value != []
    decreases total - pass
  {
    var w := WalkFrom(script, pos, baseUrl, baseUrl);
    if !(w.result.Err? || w.result.value != [] || pass + 1 == total) {
      EarlyStopMeansAnswer(script, w.next, baseUrl, pass + 1, total);
    }
  }

  /** An empty answer means every pass came back empty: all `max_retries + 1` of them were made. */
  lemma EmptyAnswerUsedEveryPass(script: seq<Reply>, path: string, maxRetries: int)
    requires DirectoryTreeSpec(script, path, maxRetries).result == Ok([])
    ensures DirectoryTreeSpec(script, path, maxRetries).passes == if maxRetries + 1 > 0 then maxRetries + 1 else 0
  {
    if maxRetries + 1 > 0 {
      EarlyStopMeansAnswer(script, 0, ListingUrl(path), 0, maxRetries + 1);
    }
  }

  /** An error in the first pass is raised at once: no empty-result retry follows it. */
  lemma ErrorIsNotRetried(script: seq<Reply>, path: string, maxRetries: int)
    requires maxRetries >= 0
    requires WalkFrom(script, 0, ListingUrl(path), ListingUrl(path)).result.Err?
    ensures DirectoryTreeSpec(script, path, maxRetries).passes == 1
    ensures DirectoryTreeSpec(script, path, maxRetries).result == WalkFrom(script, 0, ListingUrl(path), ListingUrl(path)).result
  {
  }

  /** A non-empty first pass is the answer. */
  lemma FirstNonEmptyPassWins(script: seq<Reply>, path: string, maxRetries: int)
    requires maxRetries >= 0
    requires var r := WalkFrom(script, 0, ListingUrl(path), ListingUrl(path)).result; r.Ok? && r.value != []
    ensures DirectoryTreeSpec(script, path, maxRetries).passes == 1
    ensures DirectoryTreeSpec(script, path, maxRetries).result == WalkFrom(script, 0, ListingUrl(path), ListingUrl(path)).result
  {
  }

  /** An empty first pass is retried from the base URL, with the next reply of the server. */
  lemma EmptyPassIsRetried(script: seq<Reply>, path: string, maxRetries: int)
    requires maxRetries >= 1
    requires WalkFrom(script, 0, ListingUrl(path), ListingUrl(path)).result == Ok([])
    ensures var w := WalkFrom(script, 0, ListingUrl(path), ListingUrl(path));
            DirectoryTreeSpec(script, path, maxRetries) == TreeFrom(script, w.next, ListingUrl(path), 1, maxRetries + 1)
  {
  }
}
