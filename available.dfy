/**
 * `get_available_data_types`, `get_available_intervals` and
 * `get_available_symbols` of the Binance directory-tree provider. Each lists
 * one prefix with `get_directory_tree` and keeps the distinct "/"-segments
 * that follow the segments it asks about; `list(set(...))` becomes a set.
 *
 * The listing is the parameter `list`, standing for `get_directory_tree`
 * (whose retries and pagination DirectoryTree models). An error it reports
 * propagates unchanged, as the exception does.
 */
module AvailableData {
  import opened Wrappers
  import opened Strings
  import opened DirectoryTree

  /** `get_directory_tree(path)`: the entries under `path`, or the error that escaped. */
  type Lister = string -> Result<seq<string>, ListingError>

  datatype LookupError =
    | ListingFailed(cause: ListingError)
    | MalformedInterval        // `subtype, actual_interval = interval.split("/")` with more than one "/"

  predicate SlashFree(segs: seq<string>)
  {
    forall k :: 0 <= k < |segs| ==> '/' !in segs[k]
  }

  /** `p`, split on "/", begins with the segments of `query` and has at least one more. */
  predicate Below(p: string, query: seq<string>)
  {
    var parts := Split(p, '/');
    |parts| > |query| && parts[..|query|] == query
  }

  /** The distinct segments that come right after `query` in the entries `paths`. */
  function Children(paths: seq<string>, query: seq<string>): (r: set<string>)
    ensures forall x :: x in r ==> '/' !in x
  {
    set p | p in paths && Below(p, query) :: Split(p, '/')[|query|]
  }

  /** `x` is a child of `query` exactly when some entry is `query/x` or lies below it. */
  lemma ChildrenIff(paths: seq<string>, query: seq<string>, x: string)
    requires SlashFree(query) && '/' !in x
    ensures x in Children(paths, query)
        <==> exists rest :: SlashFree(rest) && Join(query + [x] + rest, '/') in paths
  {
    if x in Children(paths, query) {
      var p :| p in paths && Below(p, query) && Split(p, '/')[|query|] == x;
      ChildEntry(p, query, x);
    }
    if exists rest :: SlashFree(rest) && Join(query + [x] + rest, '/') in paths {
      var rest :| SlashFree(rest) && Join(query + [x] + rest, '/') in paths;
      EntryChild(query, x, rest);
    }
  }

  /** An entry below `query` whose next segment is `x` is `query/x` followed by slash-free segments. */
  lemma ChildEntry(p: string, query: seq<string>, x: string)
    requires Below(p, query) && Split(p, '/')[|query|] == x
    ensures var rest := Split(p, '/')[|query| + 1..];
            SlashFree(rest) && p == Join(query + [x] + rest, '/')
  {
    var parts := Split(p, '/');
    var rest := parts[|query| + 1..];
    assert parts == query + [x] + rest;
    JoinSplit(p, '/');
    assert SlashFree(rest) by {
      forall k | 0 <= k < |rest| ensures '/' !in rest[k] {
        assert rest[k] == parts[|query| + 1 + k];
      }
    }
  }

  /** Joining two runs of slash-free segments gives slash-free segments. */
  lemma SlashFreeConcat(a: seq<string>, b: seq<string>)
    requires SlashFree(a) && SlashFree(b)
    ensures SlashFree(a + b)
  {
    forall k | 0 <= k < |a + b| ensures '/' !in (a + b)[k] {
      if k < |a| {
        assert (a + b)[k] == a[k];
      } else {
        assert (a + b)[k] == b[k - |a|];
      }
    }
  }

  /** The entry `query/x/rest...` lies below `query` with next segment `x`. */
  lemma EntryChild(query: seq<string>, x: string, rest: seq<string>)
    requires SlashFree(query) && '/' !in x && SlashFree(rest)
    ensures var p := Join(query + [x] + rest, '/');
            Below(p, query) && Split(p, '/')[|query|] == x
  {
    EntryParts(query, x, rest);
    JoinedBelow(query + [x] + rest, query, x);
  }

  /** The segments `query`, then `x`, then `rest`: slash-free, starting with `query` and then `x`. */
  lemma EntryParts(query: seq<string>, x: string, rest: seq<string>)
    requires SlashFree(query) && '/' !in x && SlashFree(rest)
    ensures var parts := query + [x] + rest;
            SlashFree(parts) && |query| < |parts| && parts[..|query|] == query && parts[|query|] == x
  {
    SlashFreeConcat(query, [x]);
    SlashFreeConcat(query + [x], rest);
    assert (query + [x] + rest)[..|query|] == query;
  }

  /** Joining slash-free segments that start with `query` and then `x` gives an entry below `query` with next segment `x`. */
  lemma JoinedBelow(parts: seq<string>, query: seq<string>, x: string)
    requires SlashFree(parts) && |query| < |parts|
    requires parts[..|query|] == query && parts[|query|] == x
    ensures Below(Join(parts, '/'), query) && Split(Join(parts, '/'), '/')[|query|] == x
  {
    SplitJoin(parts, '/');
  }

  /** A queried segment holding "/" can never equal a segment, so nothing is found. */
  lemma SlashInQueryFindsNothing(paths: seq<string>, query: seq<string>, k: nat)
    requires k < |query| && '/' in query[k]
    ensures Children(paths, query) == {}
  {
    forall p | p in paths ensures !Below(p, query) {
      var parts := Split(p, '/');
      if |parts| > |query| {
        assert parts[..|query|][k] == parts[k];
        assert parts[..|query|][k] != query[k];
      }
    }
  }

  /** The children of two listings put together are those of each. */
  lemma ChildrenAppend(a: seq<string>, b: seq<string>, query: seq<string>)
    ensures Children(a + b, query) == Children(a, query) + Children(b, query)
  {
    assert forall p :: p in a + b <==> p in a || p in b;
  }

  /** A directory entry `parent/name/` contributes exactly `name` to the listing of `parent`. */
  lemma DirectoryChild(parent: string, name: string)
    requires '/' !in name
    ensures Children([parent + "/" + name + "/"], Split(parent, '/')) == {name}
  {
    var p := parent + "/" + name + "/";
    var q := Split(parent, '/');
    assert Split(p, '/') == q + [name] + [""] by {
      assert p == (parent + "/" + name) + "/";
      SplitTrailing(parent + "/" + name, '/');
      SplitAround(parent, '/', name);
      SplitWithoutSeparator(name, '/');
    }
    assert Split(p, '/')[..|q|] == q;
    assert Below(p, q);
  }

  /**
   * `[path.split("/")[-2] for path in paths if path.endswith("/")]`: the names
   * of the directory entries, in listing order, duplicates kept.
   */
  function Subdirectories(paths: seq<string>): (names: seq<string>)
    ensures |names| <= |paths|
    ensures SlashFree(names)
    decreases |paths|
  {
    if paths == [] then []
    else (if EndsWith(paths[0], "/") then [DirName(paths[0])] else []) + Subdirectories(paths[1..])
  }

  /** The names are exactly those of the entries that end in "/". */
  lemma {:induction false} SubdirectoryMembership(paths: seq<string>, name: string)
    ensures name in Subdirectories(paths) <==> exists p :: p in paths && EndsWith(p, "/") && DirName(p) == name
    decreases |paths|
  {
    if paths != [] {
      SubdirectoryMembership(paths[1..], name);
      assert forall p :: p in paths <==> p == paths[0] || p in paths[1..];
    }
  }

  /** Every entry `parent/name/` contributes `name`. */
  lemma SubdirectoryOfEntry(paths: seq<string>, parent: string, name: string)
    requires '/' !in name && parent + "/" + name + "/" in paths
    ensures name in Subdirectories(paths)
  {
    DirNameOf(parent, name);
    SubdirectoryMembership(paths, name);
  }

  function Lift(listing: Result<seq<string>, ListingError>, query: seq<string>): Result<set<string>, LookupError>
  {
    match listing
    case Err(e) => Err(ListingFailed(e))
    case Ok(paths) => Ok(Children(paths, query))
  }

  /** `get_available_data_types`: the second segments of the entries under `data/`. */
  function DataTypes(list: Lister): (r: Result<set<string>, LookupError>)
    ensures list("data/").Err? ==> r == Err(ListingFailed(list("data/").error))
    ensures list("data/").Ok? ==> r.Ok? && forall x :: x in r.value ==> '/' !in x
  {
    Lift(list("data/"), ["data"])
  }

  /** "subtype/interval" for each interval found under one futures subtype. */
  function Qualified(subtype: string, names: set<string>): set<string>
  {
    set x | x in names :: subtype + "/" + x
  }

  function SubtypePath(subtype: string): string
  {
    "data/futures/" + subtype + "/"
  }

  /** The loop over the futures subtypes: the first listing that fails ends it. */
  function FuturesIntervals(list: Lister, subtypes: seq<string>): (r: Result<set<string>, LookupError>)
    ensures r.Ok? <==> forall k :: 0 <= k < |subtypes| ==> list(SubtypePath(subtypes[k])).Ok?
    decreases |subtypes|
  {
    if subtypes == [] then Ok({})
    else
      var sub := subtypes[0];
      match list(SubtypePath(sub))
      case Err(e) => Err(ListingFailed(e))
      case Ok(paths) =>
        var rest := FuturesIntervals(list, subtypes[1..]);
        assert forall k :: 1 <= k < |subtypes| ==> subtypes[k] == subtypes[1..][k - 1];
        match rest
        case Err(e) => Err(e)
        case Ok(others) => Ok(Qualified(sub, Children(paths, ["data", "futures", sub])) + others)
  }

  /** `get_available_intervals`. */
  function Intervals(list: Lister, dataType: string): (r: Result<set<string>, LookupError>)
    ensures r.Err? ==> r.error.ListingFailed?
  {
    if dataType == "futures" then
      match list("data/futures/")
      case Err(e) => Err(ListingFailed(e))
      case Ok(paths) => FuturesIntervalsErr(list, Subdirectories(paths)); FuturesIntervals(list, Subdirectories(paths))
    else Lift(list("data/" + dataType + "/"), ["data", dataType])
  }

  lemma {:induction false} FuturesIntervalsErr(list: Lister, subtypes: seq<string>)
    ensures FuturesIntervals(list, subtypes).Err? ==> FuturesIntervals(list, subtypes).error.ListingFailed?
    decreases |subtypes|
  {
    if subtypes != [] && list(SubtypePath(subtypes[0])).Ok? {
      FuturesIntervalsErr(list, subtypes[1..]);
    }
  }

  /** `get_available_symbols`. */
  function Symbols(list: Lister, dataType: string, interval: string): (r: Result<set<string>, LookupError>)
    ensures r == Err(MalformedInterval) <==> dataType == "futures" && |Split(interval, '/')| > 2
  {
    SlashMeansSeveralParts(interval);
    if dataType == "futures" && '/' in interval then
      var parts := Split(interval, '/');
      if |parts| != 2 then Err(MalformedInterval)
      else Lift(list("data/futures/" + parts[0] + "/" + parts[1] + "/"), ["data", "futures", parts[0], parts[1]])
    else
      Lift(list("data/" + dataType + "/" + interval + "/"), ["data", dataType, interval])
  }

  /** A text that splits into one part is that part, so it holds no separator. */
  lemma SinglePart(s: string)
    ensures |Split(s, '/')| == 1 ==> '/' !in s
  {
    JoinSplit(s, '/');
    if |Split(s, '/')| == 1 {
      assert s == Split(s, '/')[0];
    }
  }

  /** A text splits into more than one part exactly when it holds the separator. */
  lemma SlashMeansSeveralParts(s: string)
    ensures '/' in s <==> |Split(s, '/')| > 1
  {
    SinglePart(s);
    if '/' !in s {
      SplitWithoutSeparator(s, '/');
    }
  }

  /**
   * Every futures interval reads "subtype/interval", with the subtype one of
   * those listed and the interval a directory listed under that subtype.
   */
  lemma {:induction false} FuturesIntervalShape(list: Lister, subtypes: seq<string>, x: string)
    requires SlashFree(subtypes)
    requires FuturesIntervals(list, subtypes).Ok? && x in FuturesIntervals(list, subtypes).value
    ensures |Split(x, '/')| == 2 && Split(x, '/')[0] in subtypes
    ensures var sub := Split(x, '/')[0];
            list(SubtypePath(sub)).Ok? && Split(x, '/')[1] in Children(list(SubtypePath(sub)).value, ["data", "futures", sub])
    decreases |subtypes|
  {
    var sub := subtypes[0];
    var paths := list(SubtypePath(sub)).value;
    if x in Qualified(sub, Children(paths, ["data", "futures", sub])) {
      var y :| y in Children(paths, ["data", "futures", sub]) && x == sub + "/" + y;
      SplitAround(sub, '/', y);
      SplitWithoutSeparator(sub, '/');
      SplitWithoutSeparator(y, '/');
    } else {
      assert SlashFree(subtypes[1..]) by {
        forall k | 0 <= k < |subtypes[1..]| ensures '/' !in subtypes[1..][k] {
          assert subtypes[1..][k] == subtypes[k + 1];
        }
      }
      FuturesIntervalShape(list, subtypes[1..], x);
    }
  }

  /** Every interval found under a listed subtype is offered, qualified by that subtype. */
  lemma {:induction false} FuturesIntervalFound(list: Lister, subtypes: seq<string>, k: nat, x: string)
    requires FuturesIntervals(list, subtypes).Ok? && k < |subtypes|
    requires x in Children(list(SubtypePath(subtypes[k])).value, ["data", "futures", subtypes[k]])
    ensures subtypes[k] + "/" + x in FuturesIntervals(list, subtypes).value
    decreases |subtypes|
  {
    if k > 0 {
      assert subtypes[k] == subtypes[1..][k - 1];
      FuturesIntervalFound(list, subtypes[1..], k - 1, x);
    }
  }

  /** Every interval `get_available_intervals` offers is accepted by `get_available_symbols`. */
  lemma IntervalsAreAcceptedBySymbols(list: Lister, dataType: string, x: string)
    requires Intervals(list, dataType).Ok? && x in Intervals(list, dataType).value
    ensures Symbols(list, dataType, x).Err? ==> Symbols(list, dataType, x).error.ListingFailed?
  {
    if dataType == "futures" {
      FuturesIntervalShape(list, Subdirectories(list("data/futures/").value), x);
    }
  }

  /** The futures symbol listing is the generic prefix with the "subtype/interval" written out. */
  lemma FuturesSymbolsPath(interval: string)
    requires |Split(interval, '/')| == 2
    ensures var parts := Split(interval, '/');
      "data/futures/" + parts[0] + "/" + parts[1] + "/" == "data/" + "futures" + "/" + interval + "/"
  {
    JoinSplit(interval, '/');
    var parts := Split(interval, '/');
    assert Join(parts, '/') == parts[0] + "/" + parts[1];
  }

  /** The entry `data/<name>/` yields the data type `name`. */
  lemma DataTypeEntry(entry: string, name: string)
    requires '/' !in name && entry == "data/" + name + "/"
    ensures Children([entry], ["data"]) == {name}
  {
    SplitWithoutSeparator("data", '/');
    assert entry == "data" + "/" + name + "/";
    DirectoryChild("data", name);
  }

  /** The entry `data/<type>/<name>/` yields the interval `name`. */
  lemma IntervalEntry(entry: string, dataType: string, name: string)
    requires '/' !in dataType && '/' !in name
    requires entry == "data/" + dataType + "/" + name + "/"
    ensures Children([entry], ["data", dataType]) == {name}
  {
    var parent := "data/" + dataType;
    assert Split(parent, '/') == ["data", dataType] by {
      assert parent == "data" + "/" + dataType;
      SplitAround("data", '/', dataType);
      SplitWithoutSeparator("data", '/');
      SplitWithoutSeparator(dataType, '/');
    }
    assert entry == parent + "/" + name + "/";
    DirectoryChild(parent, name);
  }

  /** The entry `data/<type>/<interval>/<name>/` yields the symbol `name`. */
  lemma SymbolEntry(entry: string, dataType: string, interval: string, name: string)
    requires '/' !in dataType && '/' !in interval && '/' !in name
    requires entry == "data/" + dataType + "/" + interval + "/" + name + "/"
    ensures Children([entry], ["data", dataType, interval]) == {name}
  {
    var parent := "data/" + dataType + "/" + interval;
    assert Split(parent, '/') == ["data", dataType, interval] by {
      assert parent == ("data" + "/" + dataType) + "/" + interval;
      assert "data/" + dataType == "data" + "/" + dataType;
      SplitAround("data" + "/" + dataType, '/', interval);
      SplitAround("data", '/', dataType);
      SplitWithoutSeparator("data", '/');
      SplitWithoutSeparator(dataType, '/');
      SplitWithoutSeparator(interval, '/');
    }
    assert entry == parent + "/" + name + "/";
    DirectoryChild(parent, name);
  }

  lemma TwoEntries(query: seq<string>, pa: string, pb: string, a: string, b: string)
    requires Children([pa], query) == {a} && Children([pb], query) == {b}
    ensures Children([pa, pb], query) == {a, b}
  {
    ChildrenAppend([pa], [pb], query);
    assert [pa, pb] == [pa] + [pb];
  }

  lemma ThreeEntries(query: seq<string>, pa: string, pb: string, pc: string, a: string, b: string, c: string)
    requires Children([pa], query) == {a} && Children([pb], query) == {b} && Children([pc], query) == {c}
    ensures Children([pa, pb, pc], query) == {a, b, c}
  {
    TwoEntries(query, pa, pb, a, b);
    ChildrenAppend([pa, pb], [pc], query);
    assert [pa, pb, pc] == [pa, pb] + [pc];
  }

  /**
   * The data-type test: a listing of `data/` holding three directory entries
   * (spot, futures and options there) yields those three names.
   */
  lemma DataTypesOfThreeDirectories(list: Lister, a: string, b: string, c: string)
    requires '/' !in a && '/' !in b && '/' !in c
    requires list("data/") == Ok(["data/" + a + "/", "data/" + b + "/", "data/" + c + "/"])
    ensures DataTypes(list) == Ok({a, b, c})
  {
    DataTypeEntry("data/" + a + "/", a);
    DataTypeEntry("data/" + b + "/", b);
    DataTypeEntry("data/" + c + "/", c);
    ThreeEntries(["data"], "data/" + a + "/", "data/" + b + "/", "data/" + c + "/", a, b, c);
  }

  /**
   * The symbol test: a listing of `data/<type>/<interval>/` holding two
   * directory entries (BTCUSDT and ETHUSDT under spot/daily there) yields
   * those two names.
   */
  lemma SymbolsOfTwoDirectories(list: Lister, dataType: string, interval: string, a: string, b: string)
    requires dataType != "futures"
    requires '/' !in dataType && '/' !in interval && '/' !in a && '/' !in b
    requires var prefix := "data/" + dataType + "/" + interval + "/";
      list(prefix) == Ok([prefix + a + "/", prefix + b + "/"])
    ensures Symbols(list, dataType, interval) == Ok({a, b})
  {
    var prefix := "data/" + dataType + "/" + interval + "/";
    SymbolEntry(prefix + a + "/", dataType, interval, a);
    SymbolEntry(prefix + b + "/", dataType, interval, b);
    TwoEntries(["data", dataType, interval], prefix + a + "/", prefix + b + "/", a, b);
  }

  /**
   * The interval test: a listing of `data/<type>/` holding two directory
   * entries (daily and monthly under spot there) yields those two names.
   */
  lemma IntervalsOfTwoDirectories(list: Lister, dataType: string, a: string, b: string)
    requires dataType != "futures"
    requires '/' !in dataType && '/' !in a && '/' !in b
    requires var prefix := "data/" + dataType + "/";
      list(prefix) == Ok([prefix + a + "/", prefix + b + "/"])
    ensures Intervals(list, dataType) == Ok({a, b})
  {
    var prefix := "data/" + dataType + "/";
    IntervalEntry(prefix + a + "/", dataType, a);
    IntervalEntry(prefix + b + "/", dataType, b);
    TwoEntries(["data", dataType], prefix + a + "/", prefix + b + "/", a, b);
  }
}
